/** The abbreviation table of section 7.5.3 of DWARF 4: a counting pass, a filling pass over the
    same bytes, a sort by code, and the lookup. */
module Abbrevs {
  import opened Bits
  import opened BitStream
  import opened DwarfReader
  import opened Quicksort
  import opened Search

  datatype Attr = Attr(name: int, form: int)
  datatype Abbrev = Abbrev(code: int, tag: int, children: int, attrs: seq<Attr>)

  // ----- what the bytes say -----

  datatype AttrsGot = AttrsGot(attrs: seq<Attr>, rest: seq<Byte>, under: bool)

  /** Name and form pairs up to and including the pair whose name is 0. */
  function GetAttrs(rest: seq<Byte>, under: bool): (r: AttrsGot)
    ensures |r.rest| <= |rest|
    decreases |rest|
  {
    LebShrinks(rest, under, 0, 0);
    var name := GetUleb(rest, under);
    LebShrinks(name.rest, name.under, 0, 0);
    var form := GetUleb(name.rest, name.under);
    if name.value == 0 then AttrsGot([], form.rest, form.under)
    else
      UlebProgress(rest, under, 0, 0);
      var more := GetAttrs(form.rest, form.under);
      AttrsGot([Attr(name.value, form.value)] + more.attrs, more.rest, more.under)
  }

  /** A number other than 0 was read from at least one byte. */
  lemma UlebProgress(rest: seq<Byte>, under: bool, shift: nat, acc: int)
    ensures UlebFrom(rest, under, shift, acc).value != 0 ==> |UlebFrom(rest, under, shift, acc).rest| < |rest|
  {
    if rest != [] {
      hide Shl;
      LebShrinks(rest[1..], under, shift + 7, AddBits(acc, rest[0], shift));
    }
  }

  datatype Entry = Entry(abbrev: Abbrev, rest: seq<Byte>, under: bool)

  /** Tag, children flag and attributes behind a code. */
  function GetEntry(code: int, rest: seq<Byte>, under: bool): (r: Entry)
    ensures |r.rest| <= |rest|
  {
    LebShrinks(rest, under, 0, 0);
    var tag := GetUleb(rest, under);
    var children := GetByte(tag.rest, tag.under);
    var attrs := GetAttrs(children.rest, children.under);
    Entry(Abbrev(code, tag.value, children.value, attrs.attrs), attrs.rest, attrs.under)
  }

  datatype TableGot = TableGot(abbrevs: seq<Abbrev>, rest: seq<Byte>, under: bool)

  /** Abbreviations up to the code 0. */
  function GetTable(rest: seq<Byte>, under: bool): TableGot
    decreases |rest|
  {
    LebShrinks(rest, under, 0, 0);
    var code := GetUleb(rest, under);
    if code.value == 0 then TableGot([], code.rest, code.under)
    else
      UlebProgress(rest, under, 0, 0);
      var e := GetEntry(code.value, code.rest, code.under);
      var more := GetTable(e.rest, e.under);
      TableGot([e.abbrev] + more.abbrevs, more.rest, more.under)
  }

  // ----- an underflow is never forgotten -----

  lemma {:induction false} UlebSticky(rest: seq<Byte>, shift: nat, acc: int)
    ensures UlebFrom(rest, true, shift, acc).under
    decreases |rest|
  {
    if rest != [] {
      hide Shl;
      UlebSticky(rest[1..], shift + 7, AddBits(acc, rest[0], shift));
    }
  }

  lemma {:induction false} AttrsSticky(rest: seq<Byte>)
    ensures GetAttrs(rest, true).under
    decreases |rest|
  {
    hide UlebFrom;
    UlebSticky(rest, 0, 0);
    LebShrinks(rest, true, 0, 0);
    UlebProgress(rest, true, 0, 0);
    var name := GetUleb(rest, true);
    UlebSticky(name.rest, 0, 0);
    LebShrinks(name.rest, true, 0, 0);
    if name.value != 0 { AttrsSticky(GetUleb(name.rest, true).rest); }
  }

  lemma {:induction false} TableSticky(rest: seq<Byte>)
    ensures GetTable(rest, true).under
    decreases |rest|
  {
    hide UlebFrom, GetAttrs;
    UlebSticky(rest, 0, 0);
    LebShrinks(rest, true, 0, 0);
    UlebProgress(rest, true, 0, 0);
    var code := GetUleb(rest, true);
    if code.value != 0 {
      EntrySticky(code.value, code.rest);
      TableSticky(GetEntry(code.value, code.rest, true).rest);
    }
  }

  lemma EntrySticky(code: int, rest: seq<Byte>)
    ensures GetEntry(code, rest, true).under
  {
    hide UlebFrom, GetAttrs;
    UlebSticky(rest, 0, 0);
    var tag := GetUleb(rest, true);
    AttrsSticky(GetByte(tag.rest, tag.under).rest);
  }

  // ----- the counting pass -----

  /** Skip the attributes of one abbreviation and count them. */
  method CountAttrs(buf: DwarfBuf) returns (n: nat)
    modifies buf
    ensures var g := GetAttrs(old(buf.rest), old(buf.reportedUnderflow));
            n == |g.attrs| && buf.rest == g.rest && buf.reportedUnderflow == g.under
  {
    hide UlebFrom;
    n := 0;
    ghost var g := GetAttrs(buf.rest, buf.reportedUnderflow);
    LebShrinks(buf.rest, buf.reportedUnderflow, 0, 0);
    UlebProgress(buf.rest, buf.reportedUnderflow, 0, 0);
    ghost var rest0, under0 := buf.rest, buf.reportedUnderflow;
    var name := buf.ReadUleb();
    while name != 0
      invariant Got(name, buf.rest, buf.reportedUnderflow) == GetUleb(rest0, under0)
      invariant n + |GetAttrs(rest0, under0).attrs| == |g.attrs|
      invariant GetAttrs(rest0, under0).rest == g.rest && GetAttrs(rest0, under0).under == g.under
      decreases |rest0|
    {
      UlebProgress(rest0, under0, 0, 0);
      LebShrinks(buf.rest, buf.reportedUnderflow, 0, 0);
      n := n + 1;
      var _ := buf.ReadUleb();
      rest0, under0 := buf.rest, buf.reportedUnderflow;
      name := buf.ReadUleb();
    }
    var _ := buf.ReadUleb();
  }

  /** Count the abbreviations; not ok exactly when the table underflows. */
  method CountAbbrevs(buf: DwarfBuf) returns (ok: bool, n: nat)
    requires !buf.reportedUnderflow
    modifies buf
    ensures ok <==> !GetTable(old(buf.rest), false).under
    ensures ok ==> n == |GetTable(old(buf.rest), false).abbrevs|
  {
    hide UlebFrom, GetAttrs;
    n := 0;
    ghost var g := GetTable(buf.rest, buf.reportedUnderflow);
    ghost var rest0, under0 := buf.rest, buf.reportedUnderflow;
    var code := buf.ReadUleb();
    while code != 0
      invariant Got(code, buf.rest, buf.reportedUnderflow) == GetUleb(rest0, under0)
      invariant n + |GetTable(rest0, under0).abbrevs| == |g.abbrevs|
      invariant GetTable(rest0, under0).under == g.under
      decreases |rest0|
    {
      UlebProgress(rest0, under0, 0, 0);
      ghost var e := GetEntry(code, buf.rest, buf.reportedUnderflow);
      if buf.reportedUnderflow {
        EntrySticky(code, buf.rest);
        TableSticky(e.rest);
        return false, n;
      }
      n := n + 1;
      var _ := buf.ReadUleb();
      var _ := buf.ReadByte();
      var _ := CountAttrs(buf);
      rest0, under0 := buf.rest, buf.reportedUnderflow;
      code := buf.ReadUleb();
    }
    ok := !buf.reportedUnderflow;
  }

  // ----- the filling pass -----

  /** Storing the next element of a sequence that is known to fit. */
  lemma StoreNext<T>(a: seq<T>, n: nat, x: T, more: seq<T>, whole: seq<T>)
    requires n <= |a| == |whole| && a[..n] + ([x] + more) == whole
    ensures n < |a| && a[n := x][..n + 1] + more == whole
  {
    assert |a[..n] + ([x] + more)| == n + 1 + |more|;
    assert a[n := x][..n + 1] == a[..n] + [x];
  }

  lemma StoreDone<T>(a: seq<T>, n: nat, whole: seq<T>)
    requires n <= |a| == |whole| && a[..n] + [] == whole
    ensures a == whole
  {
    assert a[..n] + [] == a[..n];
  }

  lemma AttrsStep(rest: seq<Byte>, under: bool)
    ensures var name := GetUleb(rest, under);
            var form := GetUleb(name.rest, name.under);
            var g, more := GetAttrs(rest, under), GetAttrs(form.rest, form.under);
            if name.value == 0 then g == AttrsGot([], form.rest, form.under)
            else g == AttrsGot([Attr(name.value, form.value)] + more.attrs, more.rest, more.under) && |form.rest| < |rest|
  {
    hide UlebFrom;
    LebShrinks(rest, under, 0, 0);
    UlebProgress(rest, under, 0, 0);
    var name := GetUleb(rest, under);
    LebShrinks(name.rest, name.under, 0, 0);
  }

  /** Read the attributes of one abbreviation into an array of the size counted for it. */
  method FillAttrs(buf: DwarfBuf, attrs: array<Attr>)
    requires attrs.Length == |GetAttrs(buf.rest, buf.reportedUnderflow).attrs|
    modifies buf, attrs
    ensures var g := GetAttrs(old(buf.rest), old(buf.reportedUnderflow));
            attrs[..] == g.attrs && buf.rest == g.rest && buf.reportedUnderflow == g.under
  {
    hide UlebFrom, GetAttrs, GetUleb;
    var n := 0;
    ghost var g := GetAttrs(buf.rest, buf.reportedUnderflow);
    while true
      invariant 0 <= n <= attrs.Length
      invariant attrs[..n] + GetAttrs(buf.rest, buf.reportedUnderflow).attrs == g.attrs
      invariant GetAttrs(buf.rest, buf.reportedUnderflow).rest == g.rest && GetAttrs(buf.rest, buf.reportedUnderflow).under == g.under
      decreases |buf.rest|
    {
      AttrsStep(buf.rest, buf.reportedUnderflow);
      var name := buf.ReadUleb();
      var form := buf.ReadUleb();
      if name == 0 {
        StoreDone(attrs[..], n, g.attrs);
        return;
      }
      ghost var before := attrs[..];
      StoreNext(before, n, Attr(name, form), GetAttrs(buf.rest, buf.reportedUnderflow).attrs, g.attrs);
      attrs[n] := Attr(name, form);
      assert attrs[..] == before[n := Attr(name, form)];
      n := n + 1;
    }
  }

  /** Read one abbreviation behind its code: the attributes are counted first, then read again. */
  method FillEntry(buf: DwarfBuf, code: int) returns (a: Abbrev)
    modifies buf
    ensures Entry(a, buf.rest, buf.reportedUnderflow) == GetEntry(code, old(buf.rest), old(buf.reportedUnderflow))
  {
    hide UlebFrom, GetAttrs;
    var tag := buf.ReadUleb();
    var children := buf.ReadByte();
    var ahead := new DwarfBuf(buf.rest);
    ahead.reportedUnderflow := buf.reportedUnderflow;
    var n := CountAttrs(ahead);
    if n == 0 {
      NoAttrs(buf.rest, buf.reportedUnderflow);
      var _ := buf.ReadUleb();
      var _ := buf.ReadUleb();
      a := Abbrev(code, tag, children, []);
    } else {
      var attrs := new Attr[n](_ => Attr(0, 0));
      FillAttrs(buf, attrs);
      a := Abbrev(code, tag, children, attrs[..]);
    }
  }

  lemma NoAttrs(rest: seq<Byte>, under: bool)
    requires |GetAttrs(rest, under).attrs| == 0
    ensures var name := GetUleb(rest, under); var form := GetUleb(name.rest, name.under);
            GetAttrs(rest, under) == AttrsGot([], form.rest, form.under)
  {
    hide UlebFrom;
  }

  lemma TableStep(rest: seq<Byte>, under: bool)
    ensures var code := GetUleb(rest, under);
            var e := GetEntry(code.value, code.rest, code.under);
            var g, more := GetTable(rest, under), GetTable(e.rest, e.under);
            if code.value == 0 then g == TableGot([], code.rest, code.under)
            else g == TableGot([e.abbrev] + more.abbrevs, more.rest, more.under) && |e.rest| < |rest|
  {
    hide UlebFrom, GetEntry;
    LebShrinks(rest, under, 0, 0);
    UlebProgress(rest, under, 0, 0);
  }

  /** Read the table again into an array of the size counted for it; every store is in bounds
      and the array ends up full. */
  method FillAbbrevs(buf: DwarfBuf, table: array<Abbrev>) returns (ok: bool)
    requires !buf.reportedUnderflow && !GetTable(buf.rest, false).under
    requires table.Length == |GetTable(buf.rest, false).abbrevs|
    modifies buf, table
    ensures ok && table[..] == GetTable(old(buf.rest), false).abbrevs
  {
    hide UlebFrom, GetAttrs, GetEntry, GetTable, GetUleb;
    var n := 0;
    ghost var g := GetTable(buf.rest, false);
    while true
      invariant 0 <= n <= table.Length && !GetTable(buf.rest, buf.reportedUnderflow).under
      invariant table[..n] + GetTable(buf.rest, buf.reportedUnderflow).abbrevs == g.abbrevs
      decreases |buf.rest|
    {
      TableSticky(buf.rest);
      if buf.reportedUnderflow {
        return false;
      }
      TableStep(buf.rest, false);
      var code := buf.ReadUleb();
      if code == 0 {
        StoreDone(table[..], n, g.abbrevs);
        return true;
      }
      var a := FillEntry(buf, code);
      ghost var before := table[..];
      StoreNext(before, n, a, GetTable(buf.rest, buf.reportedUnderflow).abbrevs, g.abbrevs);
      table[n] := a;
      assert table[..] == before[n := a];
      n := n + 1;
    }
  }

  function AbbrevCompare(a: Abbrev, b: Abbrev): int
  {
    if a.code < b.code then -1 else if a.code > b.code then 1 else 0
  }

  lemma AbbrevOrder()
    ensures TotalPreorder(AbbrevCompare)
  {
  }

  /** Read an abbreviation table: exactly the abbreviations in the bytes, sorted by code. */
  method ReadAbbrevs(bytes: seq<Byte>) returns (ok: bool, table: array<Abbrev>)
    ensures ok <==> !GetTable(bytes, false).under
    ensures ok ==> multiset(table[..]) == multiset(GetTable(bytes, false).abbrevs) && Sorted(AbbrevCompare, table[..])
  {
    hide GetTable, Sorted, Rearranged;
    var buf := new DwarfBuf(bytes);
    var count := new DwarfBuf(bytes);
    var n;
    ok, n := CountAbbrevs(count);
    table := new Abbrev[0];
    if !ok {
      return;
    }
    if n == 0 {
      AllEmpty(table[..], GetTable(bytes, false).abbrevs);
      return;
    }
    table := new Abbrev[n](_ => Abbrev(0, 0, 0, []));
    ok := FillAbbrevs(buf, table);
    AbbrevOrder();
    ghost var t := table[..];
    ghost var depth := Qsort(table, 0, n, AbbrevCompare);
    WholeSorted(t, table[..]);
  }

  lemma AllEmpty(s: seq<Abbrev>, t: seq<Abbrev>)
    requires |s| == 0 && |t| == 0
    ensures multiset(s) == multiset(t) && Sorted(AbbrevCompare, s)
  {
  }

  lemma WholeSorted(s: seq<Abbrev>, t: seq<Abbrev>)
    requires Rearranged(s, t, 0, |s|) && Sorted(AbbrevCompare, t[0..|s|])
    ensures multiset(t) == multiset(s) && Sorted(AbbrevCompare, t)
  {
    assert t[0..|s|] == t && s[0..|s|] == s;
  }

  // ----- the lookup -----

  function CodeSearcher(t: seq<Abbrev>, code: int): nat -> int
  {
    (i: nat) => if i >= |t| then -1 else if code < t[i].code then -1 else if code > t[i].code then 1 else 0
  }

  lemma CodeMonotone(t: seq<Abbrev>, code: int)
    requires Sorted(AbbrevCompare, t)
    ensures Monotone(CodeSearcher(t, code), |t|)
  {
    var cmp := CodeSearcher(t, code);
    forall i, j | 0 <= i < j < |t|
      ensures (cmp(i) <= 0 ==> cmp(j) <= 0) && (cmp(i) < 0 ==> cmp(j) < 0)
    {
      assert AbbrevCompare(t[i], t[j]) <= 0;
    }
  }

  ghost predicate DistinctCodes(t: seq<Abbrev>)
  {
    forall i, j :: 0 <= i < j < |t| ==> t[i].code != t[j].code
  }

  /** Look a code up, first at the position it has when codes are numbered in order, then by
      search.  Either way the result is an abbreviation with that code, the only one when codes
      are distinct, and nothing is found only if there is none. */
  method LookupAbbrev(t: seq<Abbrev>, code: nat) returns (found: bool, k: nat)
    requires Sorted(AbbrevCompare, t)
    ensures found <==> exists i :: 0 <= i < |t| && t[i].code == code
    ensures found ==> k < |t| && t[k].code == code
    ensures found && DistinctCodes(t) ==> forall i :: 0 <= i < |t| && t[i].code == code ==> i == k
  {
    if 0 < code <= |t| && t[code - 1].code == code {
      return true, code - 1;
    }
    CodeMonotone(t, code);
    k := Bsearch(CodeSearcher(t, code), |t|);
    found := k < |t|;
    if !found {
      forall i | 0 <= i < |t|
        ensures t[i].code != code
      {
        assert CodeSearcher(t, code)(i) != 0;
      }
    }
  }

  // ----- encoding a table -----

  predicate AttrOk(a: Attr)
  {
    0 < a.name < W && 0 <= a.form < W
  }

  predicate AbbrevOk(a: Abbrev)
  {
    0 < a.code < W && 0 <= a.tag < W && 0 <= a.children < 256 && forall i :: 0 <= i < |a.attrs| ==> AttrOk(a.attrs[i])
  }

  /** Section 7.5.3: pairs of name and form, ended by two zeros. */
  function EncodeAttrs(attrs: seq<Attr>): seq<Byte>
    requires forall i :: 0 <= i < |attrs| ==> AttrOk(attrs[i])
  {
    if attrs == [] then [0, 0]
    else
      assert AttrOk(attrs[0]);
      EncodeUleb(attrs[0].name) + EncodeUleb(attrs[0].form) + EncodeAttrs(attrs[1..])
  }

  /** Code, tag, children flag, attributes. */
  function EncodeAbbrev(a: Abbrev): seq<Byte>
    requires AbbrevOk(a)
  {
    EncodeUleb(a.code) + EncodeUleb(a.tag) + [a.children] + EncodeAttrs(a.attrs)
  }

  /** Abbreviations, ended by a zero. */
  function EncodeTable(xs: seq<Abbrev>): seq<Byte>
    requires forall i :: 0 <= i < |xs| ==> AbbrevOk(xs[i])
  {
    if xs == [] then [0] else EncodeAbbrev(xs[0]) + EncodeTable(xs[1..])
  }

  lemma ZeroReads(tail: seq<Byte>, under: bool)
    ensures GetUleb([0] + tail, under) == Got(0, tail, under)
  {
    assert EncodeUleb(0) == [0];
    UlebRoundTrip(0, tail, under);
  }

  lemma {:induction false} AttrsRoundTrip(attrs: seq<Attr>, tail: seq<Byte>, under: bool)
    requires forall i :: 0 <= i < |attrs| ==> AttrOk(attrs[i])
    ensures GetAttrs(EncodeAttrs(attrs) + tail, under) == AttrsGot(attrs, tail, under)
    decreases |attrs|
  {
    hide GetUleb, EncodeUleb;
    if attrs == [] {
      assert EncodeAttrs(attrs) + tail == [0] + ([0] + tail);
      ZeroReads([0] + tail, under);
      ZeroReads(tail, under);
    } else {
      var a, more := attrs[0], EncodeAttrs(attrs[1..]) + tail;
      assert EncodeAttrs(attrs) + tail == EncodeUleb(a.name) + (EncodeUleb(a.form) + more);
      UlebRoundTrip(a.name, EncodeUleb(a.form) + more, under);
      UlebRoundTrip(a.form, more, under);
      AttrsRoundTrip(attrs[1..], tail, under);
      assert attrs == [a] + attrs[1..];
    }
  }

  lemma EntryRoundTrip(a: Abbrev, tail: seq<Byte>, under: bool)
    requires AbbrevOk(a)
    ensures GetUleb(EncodeAbbrev(a) + tail, under).value == a.code
    ensures var code := GetUleb(EncodeAbbrev(a) + tail, under);
            GetEntry(a.code, code.rest, code.under) == Entry(a, tail, under)
  {
    hide GetUleb, EncodeUleb, GetAttrs, EncodeAttrs;
    var t1 := EncodeAttrs(a.attrs) + tail;
    var t2: seq<Byte> := [a.children] + t1;
    var t3 := EncodeUleb(a.tag) + t2;
    assert EncodeAbbrev(a) + tail == EncodeUleb(a.code) + t3;
    UlebRoundTrip(a.code, t3, under);
    UlebRoundTrip(a.tag, t2, under);
    assert t2[0] == a.children && t2[1..] == t1;
    AttrsRoundTrip(a.attrs, tail, under);
  }

  /** Round trip: any list of abbreviations is read back from its encoding, field by field. */
  lemma {:induction false} TableRoundTrip(xs: seq<Abbrev>, tail: seq<Byte>, under: bool)
    requires forall i :: 0 <= i < |xs| ==> AbbrevOk(xs[i])
    ensures GetTable(EncodeTable(xs) + tail, under) == TableGot(xs, tail, under)
    decreases |xs|
  {
    hide GetUleb, EncodeAbbrev, GetEntry;
    if xs == [] {
      ZeroReads(tail, under);
    } else {
      var more := EncodeTable(xs[1..]) + tail;
      assert EncodeTable(xs) + tail == EncodeAbbrev(xs[0]) + more;
      EntryRoundTrip(xs[0], more, under);
      TableRoundTrip(xs[1..], tail, under);
      assert xs == [xs[0]] + xs[1..];
    }
  }

  /** So reading an encoded table and looking a code up in it gives the abbreviation that was encoded. */
  method LookupEncoded(xs: seq<Abbrev>, tail: seq<Byte>, code: int) returns (found: bool, a: Abbrev)
    requires (forall i :: 0 <= i < |xs| ==> AbbrevOk(xs[i])) && 0 <= code < W
    requires forall i, j :: 0 <= i < j < |xs| ==> xs[i].code != xs[j].code
    ensures found <==> exists x :: x in xs && x.code == code
    ensures found ==> a in xs && a.code == code
  {
    hide GetTable, EncodeTable, Sorted, AbbrevOk;
    TableRoundTrip(xs, tail, false);
    var ok, table := ReadAbbrevs(EncodeTable(xs) + tail);
    var k;
    found, k := LookupAbbrev(table[..], code);
    PermIn(table[..], xs);
    a := if found then table[k] else Abbrev(0, 0, 0, []);
    if !found { NoneWithCode(table[..], xs, code); }
  }

  lemma NoneWithCode(t: seq<Abbrev>, xs: seq<Abbrev>, code: int)
    requires (forall x :: x in t <==> x in xs) && forall i :: 0 <= i < |t| ==> t[i].code != code
    ensures forall x :: x in xs ==> x.code != code
  {
    forall x | x in xs
      ensures x.code != code
    {
      var i :| 0 <= i < |t| && t[i] == x;
    }
  }
}
