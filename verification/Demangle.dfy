/** Legacy Rust symbols: the parser that validates a symbol, the printer that reads it again without
    checks, and the grammar both follow. */
module Demangle {
  import opened Options
  import opened DemangleText

  const UsizeMax: nat := 0xFFFF_FFFF_FFFF_FFFF

  // ----- the grammar -----

  predicate IsDigit(c: char)
  {
    '0' <= c <= '9'
  }

  function DigitOf(c: char): nat
    requires IsDigit(c)
  {
    (c - '0') as nat
  }

  function Value(s: string): nat
    requires forall c <- s :: IsDigit(c)
  {
    if s == "" then 0 else Value(s[..|s| - 1]) * 10 + DigitOf(s[|s| - 1])
  }

  /** One path element: its length in decimal, then its name. */
  datatype Piece = Piece(digits: string, name: string)

  function Encode(ps: seq<Piece>, tail: string): (r: string)
    ensures r != ""
  {
    if ps == [] then "E" + tail else ps[0].digits + (ps[0].name + Encode(ps[1..], tail))
  }

  predicate PieceOk(p: Piece)
  {
    && p.digits != ""
    && (forall c <- p.digits :: IsDigit(c))
    && Value(p.digits) == |p.name| <= UsizeMax
  }

  /** Every length is right, and no name runs into its own length. */
  ghost predicate WellFormed(ps: seq<Piece>, tail: string)
  {
    ps != [] ==>
      && PieceOk(ps[0])
      && !IsDigit((ps[0].name + Encode(ps[1..], tail))[0])
      && WellFormed(ps[1..], tail)
  }

  // ----- reading -----

  /** Number of leading digits. */
  function Digits(s: string): (n: nat)
    ensures n <= |s| && (forall c <- s[..n] :: IsDigit(c)) && (n < |s| ==> !IsDigit(s[n]))
  {
    if s == "" || !IsDigit(s[0]) then 0
    else
      var n := Digits(s[1..]);
      assert s[..n + 1] == [s[0]] + s[1..][..n];
      n + 1
  }

  datatype Scanned = Scanned(elements: nat, tail: string)

  /** Where the name of the first element starts and how long it is. */
  datatype Cut = Cut(start: nat, len: nat)

  function Head(s: string): (r: Option<Cut>)
    ensures r.Some? ==> 0 < r.value.start && r.value.start + r.value.len < |s|
  {
    if s == "" || !IsDigit(s[0]) then None
    else
      var n := Digits(s);
      var len := Value(s[..n]);
      if n == |s| || len > UsizeMax || n + len >= |s| then None else Some(Cut(n, len))
  }

  /** Elements up to the closing E, and what follows it. */
  function Scan(s: string): Option<Scanned>
    decreases |s|
  {
    if s == "" then None
    else if s[0] == 'E' then Some(Scanned(0, s[1..]))
    else
      match Head(s)
      case None => None
      case Some(cut) => Prepend(1, Scan(s[cut.start + cut.len..]))
  }

  /** More elements in front of a scan. */
  function Prepend(k: nat, r: Option<Scanned>): Option<Scanned>
  {
    match r
    case None => None
    case Some(v) => Some(Scanned(k + v.elements, v.tail))
  }

  lemma {:induction false} DigitsAre(d: string, s: string)
    requires (forall c <- d :: IsDigit(c)) && s != "" && !IsDigit(s[0])
    ensures Digits(d + s) == |d|
  {
    if d != "" {
      assert (d + s)[1..] == d[1..] + s;
      assert d[0] in d;
      DigitsAre(d[1..], s);
    } else {
      assert d + s == s;
    }
  }

  lemma HeadOfPiece(p: Piece, more: string)
    requires PieceOk(p) && more != "" && !IsDigit((p.name + more)[0])
    ensures var s := p.digits + (p.name + more);
            && s[0] != 'E'
            && Head(s) == Some(Cut(|p.digits|, |p.name|))
            && s[..|p.digits|] == p.digits
            && s[|p.digits|..|p.digits| + |p.name|] == p.name
            && s[|p.digits| + |p.name|..] == more
  {
    hide Value, Digits;
    var s, n := p.digits + (p.name + more), |p.digits|;
    DigitsAre(p.digits, p.name + more);
    assert s[..n] == p.digits;
    assert s[0] in p.digits;
    assert s[n + |p.name|..] == more;
    assert s[n..n + |p.name|] == p.name;
  }

  lemma PieceOfHead(s: string)
    requires Head(s).Some?
    ensures var cut := Head(s).value;
            var p, more := Piece(s[..cut.start], s[cut.start..cut.start + cut.len]), s[cut.start + cut.len..];
            && PieceOk(p)
            && more != "" && !IsDigit((p.name + more)[0])
            && s == p.digits + (p.name + more)
  {
    hide Value;
    var n, len := Head(s).value.start, Head(s).value.len;
    assert s[n..] == s[n..n + len] + s[n + len..];
    assert s == s[..n] + s[n..];
  }

  /** Everything the grammar describes is read back. */
  lemma {:induction false} ScanComplete(ps: seq<Piece>, tail: string)
    requires WellFormed(ps, tail)
    ensures Scan(Encode(ps, tail)) == Some(Scanned(|ps|, tail))
  {
    hide Head, PieceOk, IsDigit;
    if ps != [] {
      ScanComplete(ps[1..], tail);
      HeadOfPiece(ps[0], Encode(ps[1..], tail));
    }
  }

  /** Everything that is read follows the grammar. */
  lemma {:induction false} ScanSound(s: string) returns (ps: seq<Piece>)
    requires Scan(s).Some?
    ensures WellFormed(ps, Scan(s).value.tail) && s == Encode(ps, Scan(s).value.tail)
    ensures |ps| == Scan(s).value.elements
    decreases |s|
  {
    hide Head, PieceOk, IsDigit;
    if s[0] == 'E' {
      assert s == "E" + s[1..];
      return [];
    }
    var n, len := Head(s).value.start, Head(s).value.len;
    var more := ScanSound(s[n + len..]);
    PieceOfHead(s);
    ps := [Piece(s[..n], s[n..n + len])] + more;
    assert ps[1..] == more;
  }

  /** And it does so in one way only. */
  lemma {:induction false} PiecesUnique(ps: seq<Piece>, qs: seq<Piece>, tail: string, rest: string)
    requires WellFormed(ps, tail) && WellFormed(qs, rest) && Encode(ps, tail) == Encode(qs, rest)
    ensures ps == qs && tail == rest
    decreases |ps|
  {
    hide Head, PieceOk, IsDigit;
    ScanComplete(ps, tail);
    ScanComplete(qs, rest);
    if ps != [] {
      HeadOfPiece(ps[0], Encode(ps[1..], tail));
      HeadOfPiece(qs[0], Encode(qs[1..], rest));
      assert ps[0] == qs[0];
      PiecesUnique(ps[1..], qs[1..], tail, rest);
      assert ps == [ps[0]] + ps[1..] && qs == [qs[0]] + qs[1..];
    }
  }

  // ----- the parser -----

  datatype Symbol = Symbol(inner: string, elements: nat)

  function Inner(s: string): Option<string>
  {
    if "_ZN" <= s then Some(s[3..])
    else if "ZN" <= s then Some(s[2..])
    else if "__ZN" <= s then Some(s[4..])
    else None
  }

  predicate Ascii(s: string)
  {
    forall c <- s :: c as int < 0x80
  }

  lemma {:induction false} ValuePrefix(s: string, n: nat)
    requires n <= |s| && forall c <- s :: IsDigit(c)
    ensures Value(s[..n]) <= Value(s)
  {
    if n < |s| {
      var t := s[..|s| - 1];
      ValuePrefix(t, n);
      assert t[..n] == s[..n];
    } else {
      assert s[..n] == s;
    }
  }

  /** Reads the element that starts at q: fails exactly when its length is too large or the symbol ends
      too early, and otherwise stops behind its name. */
  method SkipElement(inner: string, q: nat) returns (ok: bool, at: nat)
    requires q < |inner| && IsDigit(inner[q])
    ensures ok == Head(inner[q..]).Some?
    ensures ok ==> var cut := Head(inner[q..]).value; at == q + cut.start + cut.len < |inner|
  {
    hide Value, IsDigit, DigitOf, Head;
    ghost var s := inner[q..];
    HeadIs(s);
    at := q;
    var len := 0;
    assert s[..0] == "";
    NoDigits();
    while IsDigit(inner[at])
      invariant q <= at < |inner| && at - q <= Digits(s)
      invariant len == Value(s[..at - q]) <= UsizeMax
      decreases |inner| - at
    {
      assert inner[at] == s[at - q];
      NextDigit(s, at - q);
      if len * 10 > UsizeMax || len * 10 + DigitOf(inner[at]) > UsizeMax {
        TooLarge(s, at - q + 1);
        return false, at;
      }
      len := len * 10 + DigitOf(inner[at]);
      if at + 1 == |inner| { return false, at; }
      at := at + 1;
    }
    assert inner[at] == s[at - q];
    DigitsStop(s, at - q);
    ghost var start := at;
    for i := 0 to len
      invariant at == start + i < |inner|
    {
      if at + 1 == |inner| { return false, at; }
      at := at + 1;
    }
    return true, at;
  }

  lemma NoDigits()
    ensures Value("") == 0
  {}

  lemma HeadIs(s: string)
    requires s != "" && IsDigit(s[0])
    ensures var n := Digits(s);
            Head(s) == if n == |s| || Value(s[..n]) > UsizeMax || n + Value(s[..n]) >= |s| then None
                       else Some(Cut(n, Value(s[..n])))
  {}

  lemma NextDigit(s: string, k: nat)
    requires k < |s| && IsDigit(s[k]) && k <= Digits(s)
    ensures k < Digits(s) && forall c <- s[..k + 1] :: IsDigit(c)
    ensures forall c <- s[..k] :: IsDigit(c)
    ensures Value(s[..k + 1]) == Value(s[..k]) * 10 + DigitOf(s[k])
  {
    assert s[..k + 1][..k] == s[..k];
    assert forall c <- s[..k + 1] :: c in s[..Digits(s)];
  }

  lemma DigitsStop(s: string, k: nat)
    requires k < |s| && !IsDigit(s[k]) && k <= Digits(s)
    ensures k == Digits(s)
  {}

  lemma TooLarge(s: string, k: nat)
    requires k <= Digits(s) && (forall c <- s[..k] :: IsDigit(c)) && Value(s[..k]) > UsizeMax
    ensures Value(s[..Digits(s)]) > UsizeMax
  {
    var d := s[..Digits(s)];
    assert d[..k] == s[..k];
    ValuePrefix(d, k);
  }

  /** The validating parser: what it accepts, how many elements it counts and what it leaves over are
      what the grammar says. */
  method ParseSymbol(s: string) returns (r: Option<Symbol>, tail: string)
    ensures r.None? <==> Inner(s).None? || !Ascii(Inner(s).value) || Scan(Inner(s).value).None?
    ensures r.Some? ==> Inner(s) == Some(r.value.inner) && Scan(r.value.inner) == Some(Scanned(r.value.elements, tail))
  {
    hide Head, Ascii;
    tail := "";
    if Inner(s).None? { return None, ""; }
    var inner := Inner(s).value;
    if !Ascii(inner) { return None, ""; }
    if inner == "" { return None, ""; }
    var elements, q := 0, 0;
    assert inner[0..] == inner;
    while inner[q] != 'E'
      invariant q < |inner|
      invariant Scan(inner) == Prepend(elements, Scan(inner[q..]))
      decreases |inner| - q
    {
      if !IsDigit(inner[q]) {
        NotDigit(inner[q..]);
        return None, "";
      }
      var ok, at := SkipElement(inner, q);
      if !ok { return None, ""; }
      ScanNext(inner, q, at);
      elements, q := elements + 1, at;
    }
    return Some(Symbol(inner, elements)), inner[q + 1..];
  }

  lemma NotDigit(s: string)
    requires s != "" && !IsDigit(s[0])
    ensures Head(s).None?
  {}

  lemma ScanNext(inner: string, q: nat, at: nat)
    requires q < |inner| && inner[q] != 'E' && Head(inner[q..]).Some?
    requires var cut := Head(inner[q..]).value; at == q + cut.start + cut.len
    ensures Scan(inner[q..]) == Prepend(1, Scan(inner[at..]))
  {
    hide Head;
    var cut := Head(inner[q..]).value;
    assert inner[q..][cut.start + cut.len..] == inner[at..];
  }

  /** A symbol is accepted exactly when its inner part is a sequence of elements closed by an E. */
  lemma AcceptedIff(s: string)
    ensures Scan(s).Some? <==> exists ps, tail :: WellFormed(ps, tail) && s == Encode(ps, tail)
  {
    hide WellFormed, Encode, Scan;
    if Scan(s).Some? {
      var ps := ScanSound(s);
    }
    if ps, tail :| WellFormed(ps, tail) && s == Encode(ps, tail) {
      ScanComplete(ps, tail);
    }
  }

  // ----- the printer -----

  predicate HexDigitAnyCase(c: char)
  {
    IsDigit(c) || 'a' <= c <= 'f' || 'A' <= c <= 'F'
  }

  lemma AnyCaseIff(c: char)
    ensures HexDigitAnyCase(c) <==> c in "0123456789abcdefABCDEF"
  {
    if '0' <= c <= '9' {
      assert "0123456789abcdefABCDEF"[c as int - 48] == c;
    } else if 'a' <= c <= 'f' {
      assert "0123456789abcdefABCDEF"[c as int - 87] == c;
    } else if 'A' <= c <= 'F' {
      assert "0123456789abcdefABCDEF"[c as int - 49] == c;
    }
  }

  /** A hash element: an h and hexadecimal digits. */
  predicate IsHash(s: string)
  {
    s != "" && s[0] == 'h' && forall c <- s[1..] :: HexDigitAnyCase(c)
  }

  /** What parsing a decimal number gives: nothing for the empty string, other characters or a number
      that is too large. */
  function ParseUsize(s: string): Option<nat>
  {
    if s != "" && (forall c <- s :: IsDigit(c)) && Value(s) <= UsizeMax then Some(Value(s)) else None
  }

  function Join(xs: seq<string>): string
  {
    if xs == [] then "" else if |xs| == 1 then xs[0] else Join(xs[..|xs| - 1]) + "::" + xs[|xs| - 1]
  }

  function Names(ps: seq<Piece>): seq<string>
  {
    seq(|ps|, i requires 0 <= i < |ps| => Unescape(ps[i].name))
  }

  /** The elements that are printed: a hash in last place is dropped in the alternate form. */
  function Shown(ps: seq<Piece>, alternate: bool): seq<Piece>
  {
    if alternate && ps != [] && IsHash(ps[|ps| - 1].name) then ps[..|ps| - 1] else ps
  }

  lemma JoinNext(ps: seq<Piece>, k: nat)
    requires k < |ps|
    ensures Join(Names(ps[..k + 1])) == Join(Names(ps[..k])) + (if k != 0 then "::" else "") + Unescape(ps[k].name)
  {
    hide Unescape;
    var xs := Names(ps[..k + 1]);
    assert xs[..k] == Names(ps[..k]);
    assert xs[k] == Unescape(ps[k].name);
  }

  /** The symbol is the one the parser made from these elements. */
  ghost predicate Holds(d: Symbol, ps: seq<Piece>, tail: string)
  {
    WellFormed(ps, tail) && d == Symbol(Encode(ps, tail), |ps|)
  }

  /** Position of the printer in front of element k. */
  ghost predicate At(inner: string, ps: seq<Piece>, tail: string, k: nat)
    requires k <= |ps|
  {
    WellFormed(ps[k..], tail) && inner == Encode(ps[k..], tail)
  }

  lemma AtHead(inner: string, ps: seq<Piece>, tail: string, k: nat)
    requires k < |ps| && At(inner, ps, tail, k)
    ensures var n, len := |ps[k].digits|, |ps[k].name|;
            && n + len < |inner|
            && (forall i :: 0 <= i < n ==> IsDigit(inner[i])) && !IsDigit(inner[n])
            && ParseUsize(inner[..n]) == Some(len)
            && inner[n..][..len] == ps[k].name
            && At(inner[n..][len..], ps, tail, k + 1)
  {
    hide Value, Head, Digits;
    var p, more := ps[k], Encode(ps[k + 1..], tail);
    assert ps[k..][0] == p && ps[k..][1..] == ps[k + 1..];
    HeadOfPiece(p, more);
    var n, len := |p.digits|, |p.name|;
    assert inner[n..][..len] == inner[n..n + len];
    assert inner[n..][len..] == inner[n + len..];
    assert inner == p.digits + (p.name + more);
    forall i | 0 <= i < n
      ensures IsDigit(inner[i])
    {
      assert inner[i] == p.digits[i] && p.digits[i] in p.digits;
    }
    assert inner[n] == (p.name + more)[0];
  }

  /** Skips the digits of the next element and splits off its name. On a parsed symbol no unwrap, no
      number and no slice fails. */
  method NextName(inner: string, ghost ps: seq<Piece>, ghost tail: string, ghost k: nat)
    returns (name: string, left: string)
    requires k < |ps| && At(inner, ps, tail, k)
    ensures name == ps[k].name && At(left, ps, tail, k + 1)
  {
    hide At, ParseUsize, IsDigit;
    AtHead(inner, ps, tail, k);
    ghost var n := |ps[k].digits|;
    var rest := inner;
    while IsDigit(rest[0])
      invariant |inner| - |rest| <= n && rest == inner[|inner| - |rest|..]
      decreases |rest|
    {
      rest := rest[1..];
    }
    var i := ParseUsize(inner[..|inner| - |rest|]);
    assert i.Some?;
    return rest[..i.value], rest[i.value..];
  }

  /** Every symbol the parser accepts prints as its elements joined by two colons. */
  method PrintSymbol(d: Symbol, alternate: bool, ghost ps: seq<Piece>, ghost tail: string) returns (out: string)
    requires Holds(d, ps, tail)
    ensures out == Join(Names(Shown(ps, alternate)))
  {
    hide At, IsHash, Unescape, Join, Names;
    assert ps[0..] == ps;
    AtStart(d, ps, tail);
    out := "";
    var inner := d.inner;
    for element := 0 to d.elements
      invariant At(inner, ps, tail, element)
      invariant out == Join(Names(ps[..element]))
      invariant element > 0 && element == |ps| ==> !(alternate && IsHash(ps[element - 1].name))
    {
      var rest;
      rest, inner := NextName(inner, ps, tail, element);
      if alternate && element + 1 == d.elements && IsHash(rest) { return; }
      JoinNext(ps, element);
      if element != 0 { out := out + "::"; }
      var text := PrintElement(rest);
      out := out + text;
    }
    assert ps[..|ps|] == ps;
  }

  lemma AtStart(d: Symbol, ps: seq<Piece>, tail: string)
    requires Holds(d, ps, tail)
    ensures At(d.inner, ps, tail, 0) && Join(Names(ps[..0])) == ""
  {
    assert ps[0..] == ps;
  }

  /** Parsing then printing, for any string at all: printing never fails, and the text of an accepted
      symbol is that of its elements, however they were found. */
  method DemangleToString(s: string, alternate: bool) returns (out: Option<string>)
    ensures out.None? <==> Inner(s).None? || !Ascii(Inner(s).value)
                           || !exists ps, tail :: WellFormed(ps, tail) && Inner(s).value == Encode(ps, tail)
    ensures out.Some? ==>
              forall ps, tail :: WellFormed(ps, tail) && Inner(s).value == Encode(ps, tail) ==>
                                   out.value == Join(Names(Shown(ps, alternate)))
  {
    hide Scan, WellFormed, Encode, Join, Names, Shown, Inner, Ascii;
    var d, rest := ParseSymbol(s);
    if Inner(s).Some? { AcceptedIff(Inner(s).value); }
    if d.None? { return None; }
    ghost var qs := ScanSound(d.value.inner);
    var text := PrintSymbol(d.value, alternate, qs, rest);
    forall ps, tail | WellFormed(ps, tail) && Inner(s).value == Encode(ps, tail)
      ensures ps == qs
    {
      PiecesUnique(ps, qs, tail, rest);
    }
    return Some(text);
  }

  // ----- mangling -----

  function Decimal(n: nat): (s: string)
    ensures s != "" && forall c <- s :: IsDigit(c)
  {
    if n < 10 then [('0' as int + n) as char] else Decimal(n / 10) + [('0' as int + n % 10) as char]
  }

  lemma {:induction false} DecimalValue(n: nat)
    ensures Value(Decimal(n)) == n
  {
    if n >= 10 {
      var d, c := Decimal(n / 10), ('0' as int + n % 10) as char;
      DecimalValue(n / 10);
      assert (d + [c])[..|d|] == d;
      assert DigitOf(c) == n % 10;
    } else {
      var c := ('0' as int + n) as char;
      assert Decimal(n) == [c] && [c][..0] == "";
      assert Value([c]) == Value([c][..0]) * 10 + DigitOf(c);
    }
  }

  function Pieces(names: seq<string>): seq<Piece>
  {
    seq(|names|, i requires 0 <= i < |names| => Piece(Decimal(|names[i]|), names[i]))
  }

  /** Names whose lengths can be told from them: none starts with a digit, and only the last may be
      empty. */
  predicate Mangleable(names: seq<string>)
  {
    forall i :: 0 <= i < |names| ==> if names[i] == "" then i + 1 == |names| else !IsDigit(names[i][0])
  }

  predicate Short(names: seq<string>)
  {
    forall i :: 0 <= i < |names| ==> |names[i]| <= UsizeMax
  }

  lemma PiecesTail(names: seq<string>)
    requires names != []
    ensures Pieces(names) != []
    ensures Pieces(names)[0] == Piece(Decimal(|names[0]|), names[0]) && Pieces(names)[1..] == Pieces(names[1..])
  {}

  lemma FirstChar(names: seq<string>, tail: string)
    ensures IsDigit(Encode(Pieces(names), tail)[0]) <==> names != []
  {
    hide Pieces;
    if names != [] {
      PiecesTail(names);
      var d := Decimal(|names[0]|);
      assert Encode(Pieces(names), tail)[0] == d[0] && d[0] in d;
    } else {
      NoPieces();
    }
  }

  lemma NoPieces()
    ensures Pieces([]) == []
  {}

  lemma PieceIsOk(name: string)
    requires |name| <= UsizeMax
    ensures PieceOk(Piece(Decimal(|name|), name))
  {
    DecimalValue(|name|);
  }

  /** The mangled form of a path can be read exactly when its names are mangleable. */
  lemma {:induction false} MangleReadable(names: seq<string>, tail: string)
    requires Short(names)
    ensures WellFormed(Pieces(names), tail) <==> Mangleable(names)
  {
    hide Pieces, IsDigit, PieceOk, Encode;
    if names == [] {
      NoPieces();
    } else {
      PiecesTail(names);
      PieceIsOk(names[0]);
      MangleReadable(names[1..], tail);
      FirstChar(names[1..], tail);
      var more := Encode(Pieces(names[1..]), tail);
      assert (names[0] + more)[0] == if names[0] == "" then more[0] else names[0][0];
      MangleableNext(names);
    }
  }

  lemma MangleableNext(names: seq<string>)
    requires names != []
    ensures Mangleable(names) <==> Mangleable(names[1..])
                                   && if names[0] == "" then names[1..] == [] else !IsDigit(names[0][0])
  {
    hide IsDigit;
    assert forall i :: 1 <= i < |names| ==> names[i] == names[1..][i - 1];
  }

  /** A path without dots, dollar signs and leading digits comes back joined by two colons. */
  lemma MangleRoundTrip(names: seq<string>, tail: string)
    requires Short(names) && Mangleable(names)
    requires forall i :: 0 <= i < |names| ==> forall c <- names[i] :: !Special(c)
    ensures WellFormed(Pieces(names), tail)
    ensures Scan(Encode(Pieces(names), tail)) == Some(Scanned(|names|, tail))
    ensures Join(Names(Shown(Pieces(names), false))) == Join(names)
  {
    hide Join, Encode, Scan, WellFormed;
    MangleReadable(names, tail);
    ScanComplete(Pieces(names), tail);
    forall i | 0 <= i < |names|
      ensures Unescape(names[i]) == names[i]
    {
      PlainName(names[i]);
    }
    assert Names(Pieces(names)) == names;
  }

  lemma PlainName(name: string)
    requires forall c <- name :: !Special(c)
    ensures Unescape(name) == name
  {
    assert "_$" <= name ==> name[1] in name;
    ExpandPlain(name);
  }

  function MangledNames(texts: seq<string>): seq<string>
  {
    seq(|texts|, i requires 0 <= i < |texts| => MangledName(texts[i]))
  }

  /** Any path of texts in printable characters, of which only the last may be empty, comes back joined by
      two colons: letters, digits, dots, dollar signs, brackets and all. */
  lemma TextRoundTrip(texts: seq<string>, tail: string)
    requires Short(MangledNames(texts)) && forall i :: 0 <= i < |texts| - 1 ==> texts[i] != ""
    requires forall i, k :: 0 <= i < |texts| && 0 <= k < |texts[i]| ==> Printable(texts[i][k] as nat)
    ensures WellFormed(Pieces(MangledNames(texts)), tail)
    ensures Scan(Encode(Pieces(MangledNames(texts)), tail)) == Some(Scanned(|texts|, tail))
    ensures Join(Names(Shown(Pieces(MangledNames(texts)), false))) == Join(texts)
  {
    hide Join, Encode, Scan, WellFormed, MangledName, Unescape;
    var names := MangledNames(texts);
    forall i | 0 <= i < |texts|
      ensures Unescape(names[i]) == texts[i] && (if names[i] == "" then texts[i] == "" else !IsDigit(names[i][0]))
    {
      MangledNameReads(texts[i]);
      MangledNameStarts(texts[i]);
    }
    MangleReadable(names, tail);
    ScanComplete(Pieces(names), tail);
    assert Names(Pieces(names)) == texts;
  }

  lemma MangledNameStarts(t: string)
    ensures if MangledName(t) == "" then t == "" else !IsDigit(MangledName(t)[0])
  {
    hide SpellText;
    SpellStarts(t);
  }

  /** The alternate form drops a hash that the mangler has put behind the path. */
  lemma HashDropped(texts: seq<string>, hash: nat)
    ensures var names := MangledNames(texts);
            Shown(Pieces(names + ["h" + Hex(hash)]), true) == Pieces(names)
    ensures var names := MangledNames(texts);
            Shown(Pieces(names + ["h" + Hex(hash)]), false) == Pieces(names + ["h" + Hex(hash)])
  {
    hide MangledName, Hex, Decimal;
    var names, h := MangledNames(texts), "h" + Hex(hash);
    var ps := Pieces(names + [h]);
    assert ps[|ps| - 1].name == h && h[1..] == Hex(hash) && h[0] == 'h';
    assert ps[..|ps| - 1] == Pieces(names);
  }

  /** The three prefixes, and no others. */
  lemma InnerIff(s: string, x: string)
    ensures Inner(s) == Some(x) <==> s == "_ZN" + x || s == "ZN" + x || s == "__ZN" + x
  {
    assert "_ZN" <= s ==> s == "_ZN" + s[3..];
    assert "ZN" <= s ==> s == "ZN" + s[2..];
    assert "__ZN" <= s ==> s == "__ZN" + s[4..];
    assert ("_ZN" + x)[3..] == x && ("ZN" + x)[2..] == x && ("__ZN" + x)[4..] == x;
    assert ("_ZN" + x)[1] == 'Z' && ("__ZN" + x)[1] == '_' && ("ZN" + x)[0] == 'Z';
  }

  // ----- mangled paths are ASCII -----

  lemma AsciiConcat(a: string, b: string)
    ensures Ascii(a + b) <==> Ascii(a) && Ascii(b)
  {
    assert forall c :: c in a + b <==> c in a || c in b;
  }

  lemma {:induction false} SpellAscii(t: string)
    ensures Ascii(SpellText(t))
  {
    if t != "" {
      hide SpellChar, Ascii;
      SpellAscii(t[1..]);
      SpellCharAscii(t[0]);
      AsciiConcat(SpellChar(t[0]), SpellText(t[1..]));
    } else {
      assert Ascii("");
    }
  }

  lemma SpellCharAscii(c: char)
    ensures Ascii(SpellChar(c))
  {
    hide Hex;
    var x := Hex(c as nat);
    assert forall d :: d in x ==> LowerHex(d);
  }

  lemma MangledNameAscii(t: string)
    ensures Ascii(MangledName(t))
  {
    hide SpellText, Ascii;
    SpellAscii(t);
    AsciiConcat("_", SpellText(t));
    assert Ascii("_") by { UnderscoreAscii(); }
  }

  lemma UnderscoreAscii()
    ensures Ascii("_") && Ascii("E")
  {}

  lemma {:induction false} EncodeAscii(ps: seq<Piece>, tail: string)
    requires Ascii(tail) && forall i :: 0 <= i < |ps| ==> Ascii(ps[i].digits) && Ascii(ps[i].name)
    ensures Ascii(Encode(ps, tail))
  {
    hide Ascii;
    if ps == [] {
      UnderscoreAscii();
      AsciiConcat("E", tail);
    } else {
      EncodeAscii(ps[1..], tail);
      AsciiConcat(ps[0].name, Encode(ps[1..], tail));
      AsciiConcat(ps[0].digits, ps[0].name + Encode(ps[1..], tail));
    }
  }

  lemma DigitsAscii(s: string)
    requires forall c <- s :: IsDigit(c)
    ensures Ascii(s)
  {}

  /** Mangling any path and demangling the symbol gives the path back. */
  method MangleThenDemangle(texts: seq<string>, tail: string) returns (out: Option<string>)
    requires Short(MangledNames(texts)) && (forall i :: 0 <= i < |texts| - 1 ==> texts[i] != "") && Ascii(tail)
    requires forall i, k :: 0 <= i < |texts| && 0 <= k < |texts[i]| ==> Printable(texts[i][k] as nat)
    ensures out == Some(Join(texts))
  {
    hide Encode, WellFormed, Join, Names, Shown, Scan, Ascii, Inner, MangledName, Decimal;
    TextRoundTrip(texts, tail);
    var ps := Pieces(MangledNames(texts));
    forall i | 0 <= i < |ps|
      ensures Ascii(ps[i].digits) && Ascii(ps[i].name)
    {
      MangledNameAscii(texts[i]);
      DigitsAscii(ps[i].digits);
    }
    EncodeAscii(ps, tail);
    var symbol := "_ZN" + Encode(ps, tail);
    InnerIff(symbol, Encode(ps, tail));
    out := DemangleToString(symbol, false);
  }
}
