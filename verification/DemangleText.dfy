/** Spelling of one path element in a legacy symbol: dots, dollar escapes and plain characters. */
module DemangleText {
  import opened Options

  function IndexOf(s: string, c: char): (r: Option<nat>)
    ensures r.Some? ==> r.value < |s| && s[r.value] == c && c !in s[..r.value]
    ensures r.None? ==> c !in s
  {
    if s == "" then None
    else if s[0] == c then Some(0)
    else
      match IndexOf(s[1..], c)
      case None => None
      case Some(i) => assert s[..i + 1] == [s[0]] + s[1..][..i]; Some(i + 1)
  }

  predicate LowerHex(c: char)
  {
    '0' <= c <= '9' || 'a' <= c <= 'f'
  }

  function HexDigit(c: char): nat
    requires LowerHex(c)
  {
    if c <= '9' then (c - '0') as nat else (c - 'a') as nat + 10
  }

  function HexValue(s: string): nat
    requires forall c <- s :: LowerHex(c)
  {
    if s == "" then 0 else HexValue(s[..|s| - 1]) * 16 + HexDigit(s[|s| - 1])
  }

  /** Scalar values that may be printed: no surrogate, no control character. */
  predicate Printable(v: nat)
  {
    (0x20 <= v < 0x7F) || (0xA0 <= v < 0xD800) || (0xE000 <= v < 0x11_0000)
  }

  /** Every scalar value but the control characters, U+0000 to U+001F and U+007F to U+009F. */
  lemma PrintableIff(v: nat)
    ensures Printable(v) <==> v <= 0x10_FFFF && !(0xD800 <= v <= 0xDFFF) && !(v <= 0x1F || 0x7F <= v <= 0x9F)
  {}

  lemma LowerHexIff(c: char)
    ensures LowerHex(c) <==> c in "0123456789abcdef"
  {
    if '0' <= c <= '9' {
      assert "0123456789abcdef"[c as int - 48] == c;
    } else if 'a' <= c <= 'f' {
      assert "0123456789abcdef"[c as int - 87] == c;
    }
  }

  /** The character an escape between two dollar signs stands for. */
  function EscapeChar(e: string): Option<char>
  {
    if e == "SP" then Some('@')
    else if e == "BP" then Some('*')
    else if e == "RF" then Some('&')
    else if e == "LT" then Some('<')
    else if e == "GT" then Some('>')
    else if e == "LP" then Some('(')
    else if e == "RP" then Some(')')
    else if e == "C" then Some(',')
    else if |e| > 1 && e[0] == 'u' && (forall c <- e[1..] :: LowerHex(c)) && Printable(HexValue(e[1..]))
    then Some(HexValue(e[1..]) as char)
    else None
  }

  /** Text of a spelling, one character or escape at a time; an escape that means nothing ends the
      translation and the remainder stands for itself. */
  function Expand(s: string): string
    decreases |s|
  {
    if s == "" then ""
    else if s[0] == '.' then
      if |s| > 1 && s[1] == '.' then "::" + Expand(s[2..]) else "." + Expand(s[1..])
    else if s[0] == '$' then
      match IndexOf(s[1..], '$')
      case None => s
      case Some(end) =>
        (match EscapeChar(s[1..end + 1])
         case None => s
         case Some(c) => [c] + Expand(s[end + 2..]))
    else [s[0]] + Expand(s[1..])
  }

  function Unescape(name: string): string
  {
    Expand(if "_$" <= name then name[1..] else name)
  }

  predicate Special(c: char)
  {
    c == '$' || c == '.'
  }

  /** Characters that are not special stand for themselves. */
  lemma {:induction false} ExpandChunk(plain: string, s: string)
    requires forall c <- plain :: !Special(c)
    ensures Expand(plain + s) == plain + Expand(s)
  {
    if plain == "" {
      assert plain + s == s;
    } else {
      assert (plain + s)[1..] == plain[1..] + s;
      assert plain[0] in plain;
      ExpandChunk(plain[1..], s);
      assert plain == [plain[0]] + plain[1..];
    }
  }

  lemma ExpandPlain(s: string)
    requires forall c <- s :: !Special(c)
    ensures Expand(s) == s
  {
    assert s + "" == s;
    ExpandChunk(s, "");
  }

  lemma ExpandCut(s: string, i: nat)
    requires i < |s| && Special(s[i]) && (forall c <- s[..i] :: !Special(c)) && s[0] != '.' && s[0] != '$'
    ensures Expand(s) == s[..i] + Expand(s[i..]) && i > 0
  {
    assert s == s[..i] + s[i..];
    ExpandChunk(s[..i], s[i..]);
  }

  lemma ExpandHead(s: string)
    requires s != "" && (s[0] == '.' || s[0] == '$')
    ensures s[0] == '.' ==> Expand(s) == if |s| > 1 && s[1] == '.' then "::" + Expand(s[2..]) else "." + Expand(s[1..])
    ensures s[0] == '$' ==> match IndexOf(s[1..], '$')
                            case None => Expand(s) == s
                            case Some(end) => match EscapeChar(s[1..end + 1])
                                              case None => Expand(s) == s
                                              case Some(c) => Expand(s) == [c] + Expand(s[end + 2..])
  {
    hide EscapeChar;
  }

  method FindSpecial(s: string) returns (r: Option<nat>)
    ensures r.Some? ==> r.value < |s| && Special(s[r.value]) && forall c <- s[..r.value] :: !Special(c)
    ensures r.None? ==> forall c <- s :: !Special(c)
  {
    for i := 0 to |s|
      invariant forall c <- s[..i] :: !Special(c)
    {
      if Special(s[i]) { return Some(i); }
      assert s[..i + 1] == s[..i] + [s[i]];
    }
    assert s[..|s|] == s;
    return None;
  }

  /** What is printed and what is left make up the text. */
  ghost predicate Printed(out: string, rest: string, name: string)
  {
    out + Expand(rest) == Unescape(name)
  }

  lemma NothingPrinted(name: string)
    ensures Printed("", if "_$" <= name then name[1..] else name, name)
  {}

  lemma AllPrinted(out: string, rest: string, name: string)
    requires Printed(out, rest, name) && Expand(rest) == rest
    ensures out + rest == Unescape(name)
  {}

  lemma Advance(out: string, chunk: string, rest: string, left: string, name: string)
    requires Printed(out, rest, name) && Expand(rest) == chunk + Expand(left)
    ensures Printed(out + chunk, left, name)
  {
    hide Expand, Unescape;
    assert out + (chunk + Expand(left)) == (out + chunk) + Expand(left);
  }

  /** Prints one element in chunks; every pass shortens what is left. */
  method PrintElement(name: string) returns (out: string)
    ensures out == Unescape(name)
  {
    hide Expand, EscapeChar, Special, Printed, Unescape;
    out := "";
    var rest := name;
    if "_$" <= rest { rest := rest[1..]; }
    NothingPrinted(name);
    while true
      invariant Printed(out, rest, name)
      decreases |rest|
    {
      if |rest| > 0 && (rest[0] == '.' || rest[0] == '$') { ExpandHead(rest); }
      if |rest| > 0 && rest[0] == '.' {
        if |rest[1..]| > 0 && rest[1..][0] == '.' {
          Advance(out, "::", rest, rest[2..], name);
          out, rest := out + "::", rest[2..];
        } else {
          Advance(out, ".", rest, rest[1..], name);
          out, rest := out + ".", rest[1..];
        }
      } else if |rest| > 0 && rest[0] == '$' {
        var end := IndexOf(rest[1..], '$');
        if end.None? { break; }
        var c := EscapeChar(rest[1..end.value + 1]);
        if c.None? { break; }
        Advance(out, [c.value], rest, rest[end.value + 2..], name);
        out, rest := out + [c.value], rest[end.value + 2..];
      } else {
        var i := FindSpecial(rest);
        if i.None? {
          ExpandPlain(rest);
          break;
        }
        ExpandCut(rest, i.value);
        Advance(out, rest[..i.value], rest, rest[i.value..], name);
        out, rest := out + rest[..i.value], rest[i.value..];
      }
    }
    AllPrinted(out, rest, name);
    out := out + rest;
  }

  // ----- what spellings mean -----

  datatype Token =
    | Plain(c: char)        // a character that stands for itself
    | Dot                   // .
    | Colons                // ..
    | Escape(code: string)  // $code$

  predicate TokenOk(t: Token)
  {
    match t
    case Plain(c) => !Special(c)
    case Escape(code) => EscapeChar(code).Some?
    case _ => true
  }

  function Spell(t: Token): string
  {
    match t
    case Plain(c) => [c]
    case Dot => "."
    case Colons => ".."
    case Escape(code) => "$" + code + "$"
  }

  function Meaning(t: Token): string
    requires TokenOk(t)
  {
    match t
    case Plain(c) => [c]
    case Dot => "."
    case Colons => "::"
    case Escape(code) => [EscapeChar(code).value]
  }

  /** A remainder that is not translated: nothing, or a dollar sign that opens no known escape. */
  predicate Stuck(s: string)
  {
    s != "" ==>
      && s[0] == '$'
      && var end := IndexOf(s[1..], '$');
      && (end.Some? ==> EscapeChar(s[1..end.value + 1]).None?)
  }

  function SpellAll(ts: seq<Token>, tail: string): string
  {
    if ts == [] then tail else Spell(ts[0]) + SpellAll(ts[1..], tail)
  }

  function MeaningAll(ts: seq<Token>, tail: string): string
    requires forall t <- ts :: TokenOk(t)
  {
    if ts == [] then tail else Meaning(ts[0]) + MeaningAll(ts[1..], tail)
  }

  /** A single dot is not followed by another one. */
  predicate Readable(ts: seq<Token>)
  {
    && (forall t <- ts :: TokenOk(t))
    && forall i :: 0 <= i < |ts| - 1 && ts[i].Dot? ==> !ts[i + 1].Dot? && !ts[i + 1].Colons?
  }

  lemma HexNoDollar(e: string)
    requires EscapeChar(e).Some?
    ensures '$' !in e
  {
    if |e| > 1 && e[0] == 'u' { assert e == [e[0]] + e[1..]; }
  }

  lemma FirstDollar(code: string, s: string)
    requires '$' !in code
    ensures IndexOf(code + "$" + s, '$') == Some(|code|)
  {
    var t := code + "$" + s;
    assert t[|code|] == '$';
    assert forall i :: 0 <= i < |code| ==> t[i] == code[i];
  }

  lemma ExpandEscape(code: string, s: string)
    requires EscapeChar(code).Some?
    ensures Expand("$" + code + "$" + s) == [EscapeChar(code).value] + Expand(s)
  {
    hide EscapeChar;
    HexNoDollar(code);
    FirstDollar(code, s);
    var t := "$" + code + "$" + s;
    assert t[1..] == code + "$" + s;
    assert t[1..|code| + 1] == code;
    assert t[|code| + 2..] == s;
  }

  lemma ExpandDot(s: string)
    requires s == "" || s[0] != '.'
    ensures Expand("." + s) == "." + Expand(s)
  {
    assert ("." + s)[1..] == s;
  }

  lemma ExpandColons(s: string)
    ensures Expand(".." + s) == "::" + Expand(s)
  {
    assert (".." + s)[2..] == s;
  }

  lemma StuckStays(s: string)
    requires Stuck(s)
    ensures Expand(s) == s
  {}

  /** Every readable list of tokens, with an untranslatable remainder, prints as its meaning. */
  lemma {:induction false} ExpandSpelling(ts: seq<Token>, tail: string)
    requires Readable(ts) && Stuck(tail)
    ensures Expand(SpellAll(ts, tail)) == MeaningAll(ts, tail)
  {
    hide Expand, EscapeChar;
    if ts == [] {
      StuckStays(tail);
    } else {
      var s := SpellAll(ts[1..], tail);
      ExpandSpelling(ts[1..], tail);
      assert TokenOk(ts[0]);
      match ts[0]
      case Plain(c) => ExpandChunk([c], s);
      case Colons => ExpandColons(s);
      case Escape(code) => ExpandEscape(code, s);
      case Dot =>
        FirstOfSpelling(ts[1..], tail);
        assert ts[0].Dot? && |ts| > 1 ==> !ts[1].Dot? && !ts[1].Colons?;
        ExpandDot(s);
    }
  }

  lemma FirstOfSpelling(ts: seq<Token>, tail: string)
    requires (forall t <- ts :: TokenOk(t)) && Stuck(tail)
    requires ts == [] || (!ts[0].Dot? && !ts[0].Colons?)
    ensures var s := SpellAll(ts, tail); s == "" || s[0] != '.'
  {
    hide EscapeChar;
    if ts != [] {
      assert TokenOk(ts[0]);
    }
  }

  /** Every string is such a spelling. */
  lemma {:induction false} Decompose(s: string) returns (ts: seq<Token>, tail: string)
    ensures Readable(ts) && Stuck(tail) && s == SpellAll(ts, tail)
    ensures s != "" && s[0] != '.' && ts != [] ==> !ts[0].Dot? && !ts[0].Colons?
    decreases |s|
  {
    hide EscapeChar;
    if Stuck(s) {
      return [], s;
    }
    var first, n := FirstToken(s);
    var more, end := Decompose(s[n..]);
    assert s == s[..n] + s[n..];
    ts, tail := [first] + more, end;
    assert ts[1..] == more;
    forall i | 0 <= i < |ts| - 1 && ts[i].Dot?
      ensures !ts[i + 1].Dot? && !ts[i + 1].Colons?
    {
      if i > 0 { assert more[i - 1].Dot? && more[i] == ts[i + 1]; }
    }
  }

  lemma FirstToken(s: string) returns (t: Token, n: nat)
    requires !Stuck(s)
    ensures TokenOk(t) && 0 < n <= |s| && Spell(t) == s[..n]
    ensures t.Dot? && n < |s| ==> s[n] != '.'
    ensures s[0] != '.' ==> !t.Dot? && !t.Colons?
  {
    hide EscapeChar;
    if s[0] == '.' {
      if |s| > 1 && s[1] == '.' { return Colons, 2; }
      return Dot, 1;
    } else if s[0] == '$' {
      var end := IndexOf(s[1..], '$').value;
      assert s[..end + 2] == "$" + s[1..end + 1] + "$";
      return Escape(s[1..end + 1]), end + 2;
    } else {
      return Plain(s[0]), 1;
    }
  }

  // ----- spelling, from the mangler's side -----

  /** The abbreviations that the mangler uses for symbols, "" for other characters. */
  function SymbolCode(c: char): string
  {
    match c
    case '@' => "SP"
    case '*' => "BP"
    case '&' => "RF"
    case '<' => "LT"
    case '>' => "GT"
    case '(' => "LP"
    case ')' => "RP"
    case ',' => "C"
    case _ => ""
  }

  function HexChar(d: nat): (c: char)
    requires d < 16
    ensures LowerHex(c) && HexDigit(c) == d
  {
    if d < 10 then ('0' as int + d) as char else ('a' as int + (d - 10)) as char
  }

  /** A number in lower-case hexadecimal digits. */
  function Hex(n: nat): (s: string)
    ensures s != "" && forall c <- s :: LowerHex(c)
  {
    if n < 16 then [HexChar(n)] else Hex(n / 16) + [HexChar(n % 16)]
  }

  lemma {:induction false} HexReads(n: nat)
    ensures HexValue(Hex(n)) == n
  {
    if n < 16 {
      assert [HexChar(n)][..0] == "";
      assert HexValue([HexChar(n)]) == HexValue([HexChar(n)][..0]) * 16 + HexDigit(HexChar(n));
    } else {
      HexReads(n / 16);
      var d := Hex(n / 16);
      assert (d + [HexChar(n % 16)])[..|d|] == d;
    }
  }

  predicate IsLetter(c: char)
  {
    'a' <= c <= 'z' || 'A' <= c <= 'Z'
  }

  /** Letters stand for themselves, eight symbols have abbreviations, everything else is spelled by its
      number. */
  function SpellChar(c: char): string
  {
    if IsLetter(c) then [c]
    else if SymbolCode(c) != "" then "$" + SymbolCode(c) + "$"
    else "$" + ("u" + Hex(c as nat)) + "$"
  }

  function SpellText(t: string): string
  {
    if t == "" then "" else SpellChar(t[0]) + SpellText(t[1..])
  }

  lemma SymbolReads(c: char)
    requires SymbolCode(c) != ""
    ensures EscapeChar(SymbolCode(c)) == Some(c)
  {
    assert |"SP"| == 2 && |"C"| == 1;
    match c
    case '@' => assert "SP"[0] != 'u';
    case '*' => assert "BP"[0] == 'B' && "SP"[0] == 'S';
    case '&' => assert "RF"[0] == 'R' && "RF"[1] == 'F';
    case '<' => assert "LT"[0] == 'L' && "LT"[1] == 'T';
    case '>' => assert "GT"[0] == 'G';
    case '(' => assert "LP"[0] == 'L' && "LP"[1] == 'P' && "LT"[1] == 'T';
    case ')' => assert "RP"[0] == 'R' && "RP"[1] == 'P' && "RF"[1] == 'F';
    case ',' => assert |"C"| == 1;
    case _ =>
  }

  lemma NumberReads(c: char)
    requires Printable(c as nat)
    ensures EscapeChar("u" + Hex(c as nat)) == Some(c)
  {
    hide Hex;
    var e := "u" + Hex(c as nat);
    assert e[1..] == Hex(c as nat) && e[0] == 'u';
    assert "SP"[0] != 'u' && "BP"[0] != 'u' && "RF"[0] != 'u' && "LT"[0] != 'u' && "GT"[0] != 'u' && "LP"[0] != 'u'
           && "RP"[0] != 'u' && "C"[0] != 'u';
    HexReads(c as nat);
  }

  lemma SpellCharReads(c: char, s: string)
    requires Printable(c as nat)
    ensures Expand(SpellChar(c) + s) == [c] + Expand(s)
  {
    hide Expand, EscapeChar, Hex;
    if IsLetter(c) {
      ExpandChunk([c], s);
    } else if SymbolCode(c) != "" {
      SymbolReads(c);
      ExpandEscape(SymbolCode(c), s);
    } else {
      NumberReads(c);
      ExpandEscape("u" + Hex(c as nat), s);
    }
  }

  /** Any text of printable characters comes back from its spelling. */
  lemma {:induction false} SpellTextReads(t: string)
    requires forall i :: 0 <= i < |t| ==> Printable(t[i] as nat)
    ensures Expand(SpellText(t)) == t
  {
    hide SpellChar;
    if t != "" {
      SpellTextReads(t[1..]);
      SpellCharReads(t[0], SpellText(t[1..]));
      assert t == [t[0]] + t[1..];
    }
  }

  /** A name may not begin with a dollar sign, so an underscore is put in front of it. */
  function MangledName(t: string): string
  {
    var s := SpellText(t);
    if s != "" && s[0] == '$' then "_" + s else s
  }

  lemma SpellStarts(t: string)
    ensures t == "" ==> SpellText(t) == ""
    ensures t != "" ==> SpellText(t) != "" && (SpellText(t)[0] == '$' || IsLetter(SpellText(t)[0]))
  {}

  lemma MangledNameReads(t: string)
    requires forall i :: 0 <= i < |t| ==> Printable(t[i] as nat)
    ensures Unescape(MangledName(t)) == t
  {
    hide SpellText, Expand;
    SpellStarts(t);
    SpellTextReads(t);
    var s := SpellText(t);
    if s != "" && s[0] == '$' {
      assert ("_" + s)[1..] == s && ("_" + s)[0] == '_' && ("_" + s)[1] == '$';
      assert "_$" <= "_" + s;
    }
  }
}
