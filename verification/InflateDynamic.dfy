/** Blocks with dynamic Huffman codes: the header, the code length code, the run-length coded
    lengths, the two tables, and then the symbols. */
module InflateDynamic {
  import opened Bits
  import opened Canonical
  import opened HuffmanTable
  import opened TableBuilder
  import opened TableRoom
  import opened BitStream
  import opened RefInflate
  import opened InflateSymbols
  import opened InflateBlock

  /** Unless a fetch is due, enough bits are held for the rest of a group of five. */
  ghost predicate Holds(bits: nat, k: nat)
  {
    k % 5 != 0 ==> bits >= 15 - 3 * (k % 5)
  }

  lemma HoldsNone(bits: nat)
    ensures Holds(bits, 0)
  {}

  lemma HoldsNext(bits: nat, k: nat)
    requires bits >= 3 && (k % 5 == 0 ==> bits >= 15) && Holds(bits, k)
    ensures Holds(bits - 3, k + 1)
  {}

  /** Length number k of the code length code. */
  method ReadCodeBit(r: Reservoir, k: nat) returns (ok: bool, v: nat)
    requires r.Valid() && Holds(r.bits, k)
    modifies r
    ensures r.Valid() && InStep(old(r.pin), r.pin, r.end)
    ensures ok ==> r.Pos() == old(r.Pos()) + 3 && v == Peek(r.data, old(r.Pos()), 3) && Holds(r.bits, k + 1)
    ensures !ok && old(r.pin) <= r.end ==> LimitOf(old(r.pin), r.end) < old(r.Pos())
  {
    hide Peek, Pow2, LimitOf;
    v := 0;
    if k % 5 == 0 {
      ok := r.Fetch();
      if !ok {
        return;
      }
    }
    HoldsNext(r.bits, k);
    v := r.Take(3);
    ok := true;
  }

  /** The 3-bit lengths of the code length code; five of them use up one fetch. */
  method ReadCodeBits(r: Reservoir, nclen: nat) returns (ok: bool, codebits: array<nat>)
    requires r.Valid() && nclen <= 19
    modifies r
    ensures r.Valid() && InStep(old(r.pin), r.pin, r.end) && fresh(codebits) && codebits.Length == 19
    ensures ok ==> r.Pos() == old(r.Pos()) + 3 * nclen && codebits[..] == CodeLengths(r.data, old(r.Pos()), nclen)
    ensures !ok && old(r.pin) <= r.end ==> LimitOf(old(r.pin), r.end) < old(r.Pos()) + 3 * nclen
  {
    hide Peek, Pow2, Order, Holds, LimitOf;
    HoldsNone(r.bits);
    codebits := new nat[19](_ => 0);
    var k := 0;
    assert codebits[..] == seq(19, _ => 0);
    while k < nclen
      invariant 0 <= k <= nclen && fresh(codebits) && codebits.Length == 19
      invariant r.Valid() && InStep(old(r.pin), r.pin, r.end) && r.Pos() == old(r.Pos()) + 3 * k
      invariant Holds(r.bits, k)
      invariant codebits[..] == CodeLengths(r.data, old(r.Pos()), k)
    {
      var v;
      ok, v := ReadCodeBit(r, k);
      if !ok {
        return false, codebits;
      }
      ghost var before := codebits[..];
      codebits[Order(k)] := v;
      assert codebits[..] == before[Order(k) := v];
      k := k + 1;
    }
    ok := true;
  }

  ghost predicate LensAgrees(before: LensRes, after: LensRes)
  {
    (before.LensDepart? && before.w != CrowdedTables) || before == after
  }

  /** Lengths that the reference reads are refused only if one of their codes begins too close to the end
      of the input. */
  ghost predicate LensFair(ref: LensRes, ok: bool, limit: int)
  {
    ref.Lens? && !ok ==> limit < ref.pos
  }

  /** A table for codes of at most 7 bits has no secondary tables. */
  ghost predicate ShortTable(lens: Lengths, t: seq<nat>)
  {
    Decodes(lens, t) && TakesZero(lens, t) && forall s :: 0 <= s < |lens| ==> lens[s] <= 7
  }

  lemma ShortNoPointer(lens: Lengths, t: seq<nat>, w: nat)
    requires ShortTable(lens, t)
    ensures |t| == TABLE_SIZE && !IsPtr(t[w % 256])
  {
    hide Widest, Low, StartsWith, CanonCode;
    assert Lookup(t, w).len < 8 by {
      if Assigned(lens, w) {
        var s: nat :| s < |lens| && lens[s] >= 1 && StartsWith(lens, w, s);
      } else {
        ShortBlank(lens, w);
      }
    }
  }

  lemma ShortDecodes(lens: Lengths, t: seq<nat>)
    requires ShortTable(lens, t)
    ensures Decodes(lens, t)
  {}

  lemma ShortBlank(lens: Lengths, w: nat)
    requires forall s :: 0 <= s < |lens| ==> lens[s] <= 7
    ensures BlankLength(lens, w) == 1
  {
    hide Widest, Syms;
    if Widest(lens, w % 256, MAXBITS) > 0 {
      WidestUsed(lens, w % 256, MAXBITS);
      NoLongCodes(lens, 7, Widest(lens, w % 256, MAXBITS) + 8);
    }
  }

  lemma {:induction false} NoLongCodes(lens: Lengths, top: nat, L: nat)
    requires L > top && forall s :: 0 <= s < |lens| ==> lens[s] <= top
    ensures Count(lens, L) == 0
  {
    if lens != [] { NoLongCodes(lens[..|lens| - 1], top, L); }
  }

  /** There is room for the tables of short codes. */
  lemma ShortRoom(lens: Lengths)
    requires forall s :: 0 <= s < |lens| ==> lens[s] <= 7
    ensures Room(lens) && LengthsOk(lens)
  {
    hide Room, Syms;
    forall L: nat, k: nat | L > 9
      ensures !IsCode(lens, L, k)
    {
      NoLongCodes(lens, 7, L);
    }
    NarrowRoom(lens);
  }

  /** Write n copies of v at position at. */
  method WriteRun(plen: array<nat>, at: nat, v: nat, n: nat)
    requires at + n <= plen.Length
    modifies plen
    ensures plen[..at + n] == old(plen[..at]) + Repeat(v, n)
  {
    forall i | 0 <= i < n {
      plen[at + i] := v;
    }
  }

  /** One code of the run-length coded lengths. */
  method ReadOneLen(r: Reservoir, t: array<nat>, total: nat, plen: array<nat>, n: nat, ghost cl: Lengths)
    returns (ok: bool, n': nat)
    requires r.Valid() && t.Length == TABLE_SIZE && n < total <= plen.Length && t != plen
    modifies r, plen
    ensures r.Valid() && InStep(old(r.pin), r.pin, r.end)
    ensures ok ==> r.Pos() > old(r.Pos()) && n < n' <= total
    ensures ok && Decodes(cl, old(t[..])) && old(r.pin) <= r.end ==>
              LensAgrees(ReadLens(cl, r.data, r.end, old(r.Pos()), total, old(plen[..n])),
                         ReadLens(cl, r.data, r.end, r.Pos(), total, plen[..n']))
    ensures ShortTable(cl, old(t[..])) && old(r.pin) <= r.end ==>
              LensFair(ReadLens(cl, r.data, r.end, old(r.Pos()), total, old(plen[..n])), ok, LimitOf(old(r.pin), r.end))
  {
    hide Peek, Pow2, Sym, Decodes, TakesZero, LimitOf, ShortTable, Repeat, LengthsOk;
    n' := n;
    ok := r.Fetch();
    if !ok {
      return;
    }
    if ShortTable(cl, t[..]) {
      ShortNoPointer(cl, t[..], r.val);
      ShortDecodes(cl, t[..]);
    }
    if IsPtr(t[r.val % 256]) {
      return false, n;
    }
    var s := DecodeSym(r, t, cl);
    ghost var orig := plen[..n];
    if s < 16 {
      plen[n] := s;
      assert plen[..n + 1] == orig + [s];
      n' := n + 1;
    } else if s > 18 || (s == 16 && n == 0) {
      return false, n;
    } else {
      var x := r.Take(if s == 16 then 2 else if s == 17 then 3 else 7);
      var c := (if s == 18 then 11 else 3) + x;
      if total - n < c {
        return false, n;
      }
      WriteRun(plen, n, if s == 16 then plen[n - 1] else 0, c);
      n' := n + c;
    }
  }

  /** Read the code lengths of both alphabets. */
  method ReadCodeLens(r: Reservoir, t: array<nat>, total: nat, plen: array<nat>, ghost cl: Lengths) returns (ok: bool)
    requires r.Valid() && t.Length == TABLE_SIZE && total <= plen.Length && t != plen
    modifies r, plen
    ensures r.Valid() && InStep(old(r.pin), r.pin, r.end)
    ensures ok ==> r.Pos() >= old(r.Pos())
    ensures ok && Decodes(cl, old(t[..])) && old(r.pin) <= r.end ==>
              LensAgrees(ReadLens(cl, r.data, r.end, old(r.Pos()), total, []), Lens(r.Pos(), plen[..total]))
    ensures ShortTable(cl, old(t[..])) && old(r.pin) <= r.end ==>
              LensFair(ReadLens(cl, r.data, r.end, old(r.Pos()), total, []), ok, LimitOf(old(r.pin), r.end))
  {
    hide Peek, Pow2, Decodes, TakesZero, ReadLens, LimitOf;
    var n := 0;
    ghost var t0 := t[..];
    ghost var good := Decodes(cl, t0) && r.pin <= r.end;
    assert plen[..0] == [];
    while n < total
      invariant 0 <= n <= total && r.Valid() && r.Pos() >= old(r.Pos()) && t[..] == t0
      invariant InStep(old(r.pin), r.pin, r.end)
      invariant good ==> LensAgrees(ReadLens(cl, r.data, r.end, old(r.Pos()), total, []),
                                    ReadLens(cl, r.data, r.end, r.Pos(), total, plen[..n]))
    {
      ok, n := ReadOneLen(r, t, total, plen, n, cl);
      if !ok {
        return false;
      }
    }
    if good { AllLensRead(cl, r.data, r.end, r.Pos(), plen[..n]); }
    ok := true;
  }

  lemma AllLensRead(cl: Lengths, data: seq<Byte>, end: nat, p: nat, acc: Lengths)
    requires end <= |data| && p <= 8 * end
    ensures ReadLens(cl, data, end, p, |acc|, acc) == Lens(p, acc)
  {
  }

  /** Working memory: the two code tables, the chain array of the builder and the code lengths. */
  class WorkSpace {
    const tlit: array<nat>
    const tdist: array<nat>
    const next: array<nat>
    const plen: array<nat>

    ghost predicate Valid()
    {
      && tlit.Length == TABLE_SIZE && tdist.Length == TABLE_SIZE && next.Length == MAX_CODES && plen.Length == MAX_CODES
      && tlit != tdist && tlit != next && tlit != plen && tdist != next && tdist != plen && next != plen
    }

    ghost function Arrays(): set<object>
    {
      {tlit, tdist, next, plen}
    }

    constructor ()
      ensures Valid() && fresh(Arrays())
    {
      tlit := new nat[TABLE_SIZE](_ => 0);
      tdist := new nat[TABLE_SIZE](_ => 0);
      next := new nat[MAX_CODES](_ => 0);
      plen := new nat[MAX_CODES](_ => 0);
    }
  }

  /** What a table that was built says about its lengths. */
  ghost predicate Built(lens: Lengths, t: seq<nat>)
  {
    && !CheckLens(lens).Bad? && CheckLens(lens) != Differs(CrowdedTables)
    && (CheckLens(lens).Good? ==> Decodes(lens, t) && TakesZero(lens, t))
  }

  /** Build both tables from the lengths in plen and inflate the block. */
  method InflateWithLens(r: Reservoir, w: WorkSpace, nlit: nat, ndist: nat, out: array<Byte>, pout: nat)
    returns (ok: bool, pout': nat)
    requires r.Valid() && w.Valid() && nlit > 0 && ndist > 0 && nlit + ndist <= MAX_CODES && pout <= out.Length
    modifies r, out, w.Arrays()
    ensures r.Valid() && InStep(old(r.pin), r.pin, r.end)
    ensures ok ==> r.Pos() > old(r.Pos()) && pout' <= out.Length
    ensures ok && old(r.pin) <= r.end ==>
              Agrees(Compressed(old(w.plen[..nlit]), old(w.plen[nlit..nlit + ndist]), r.data, r.end, old(r.Pos()), old(out[..pout])),
                     r.Pos(), out[..pout'])
    ensures old(r.pin) <= r.end && LengthsOk(old(w.plen[..nlit])) && LengthsOk(old(w.plen[nlit..nlit + ndist])) ==>
              Fair(Compressed(old(w.plen[..nlit]), old(w.plen[nlit..nlit + ndist]), r.data, r.end, old(r.Pos()), old(out[..pout])),
                   ok, LimitOf(old(r.pin), r.end), out.Length)
  {
    hide Peek, Pow2, Block, Fits, Decodes, TakesZero, Room, LengthsOk, LimitOf;
    var lit, dist := w.plen[..nlit], w.plen[nlit..nlit + ndist];
    ok := BuildTable(lit, w.next, w.tlit);
    if !ok {
      return false, pout;
    }
    ghost var t := w.tlit[..];
    assert Built(lit, t);
    ok := BuildTable(dist, w.next, w.tdist);
    if !ok {
      return false, pout;
    }
    assert Built(dist, w.tdist[..]);
    assert w.tlit[..] == t;
    ok, pout' := InflateCodes(r, w.tlit, w.tdist, out, pout, lit, dist);
  }

  /** HLIT, HDIST and HCLEN. */
  method ReadCounts(r: Reservoir) returns (ok: bool, nlit: nat, ndist: nat, nclen: nat)
    requires r.Valid()
    modifies r
    ensures r.Valid() && InStep(old(r.pin), r.pin, r.end)
    ensures ok ==> r.Pos() == old(r.Pos()) + 14 && 257 <= nlit <= 286 && 1 <= ndist <= 30 && 4 <= nclen <= 19
    ensures ok ==> nlit == Peek(r.data, old(r.Pos()), 5) + 257 && ndist == Peek(r.data, old(r.Pos()) + 5, 5) + 1
                   && nclen == Peek(r.data, old(r.Pos()) + 10, 4) + 4
    ensures !ok && old(r.pin) <= r.end && old(r.Pos()) + 14 <= 8 * r.end ==>
              || LimitOf(old(r.pin), r.end) < old(r.Pos())
              || Peek(r.data, old(r.Pos()), 5) + 257 > 286 || Peek(r.data, old(r.Pos()) + 5, 5) + 1 > 30
  {
    hide Peek, Pow2, LimitOf;
    Pow2Values();
    nlit, ndist, nclen := 0, 0, 0;
    ok := r.Fetch();
    if !ok {
      return;
    }
    nlit := r.Take(5);
    ndist := r.Take(5);
    nclen := r.Take(4);
    nlit, ndist, nclen := nlit + 257, ndist + 1, nclen + 4;
    ok := nlit <= 286 && ndist <= 30;
  }

  /** Build the code length code and read all lengths into plen. */
  method ReadAllLens(r: Reservoir, w: WorkSpace, cl: Lengths, total: nat) returns (ok: bool)
    requires r.Valid() && w.Valid() && |cl| == 19 && total <= MAX_CODES
    modifies r, w.Arrays()
    ensures r.Valid() && InStep(old(r.pin), r.pin, r.end)
    ensures ok ==> r.Pos() >= old(r.Pos()) && !CheckLens(cl).Bad?
    ensures ok && CheckLens(cl).Good? && old(r.pin) <= r.end ==>
              LensAgrees(ReadLens(cl, r.data, r.end, old(r.Pos()), total, []), Lens(r.Pos(), w.plen[..total]))
    ensures ok ==> CheckLens(cl) != Differs(CrowdedTables)
    ensures CheckLens(cl).Good? && (forall i :: 0 <= i < 19 ==> cl[i] <= 7) && old(r.pin) <= r.end ==>
              LensFair(ReadLens(cl, r.data, r.end, old(r.Pos()), total, []), ok, LimitOf(old(r.pin), r.end))
  {
    hide Peek, Pow2, Fits, Decodes, TakesZero, Room, LengthsOk, ReadLens, LimitOf;
    if forall i :: 0 <= i < 19 ==> cl[i] <= 7 { ShortRoom(cl); }
    ok := BuildTable(cl, w.next, w.tlit);
    if !ok {
      return false;
    }
    assert Built(cl, w.tlit[..]);
    ok := ReadCodeLens(r, w.tlit, total, w.plen, cl);
  }

  /** Lengths, tables and symbols of a dynamic block, once the counts are known. */
  method InflateAfterCounts(r: Reservoir, w: WorkSpace, cl: Lengths, nlit: nat, ndist: nat, out: array<Byte>, pout: nat)
    returns (ok: bool, pout': nat)
    requires r.Valid() && w.Valid() && |cl| == 19 && 257 <= nlit <= 286 && 1 <= ndist <= 30 && pout <= out.Length
    modifies r, out, w.Arrays()
    ensures r.Valid() && InStep(old(r.pin), r.pin, r.end)
    ensures ok ==> r.Pos() > old(r.Pos()) && pout' <= out.Length
    ensures ok && old(r.pin) <= r.end ==>
              Agrees(DynamicLens(cl, r.data, r.end, old(r.Pos()), nlit, ndist, old(out[..pout])), r.Pos(), out[..pout'])
    ensures old(r.pin) <= r.end && (forall i :: 0 <= i < 19 ==> cl[i] <= 7) ==>
              Fair(DynamicLens(cl, r.data, r.end, old(r.Pos()), nlit, ndist, old(out[..pout])), ok, LimitOf(old(r.pin), r.end), out.Length)
  {
    hide Peek, Pow2, Fits, ReadLens, Compressed, Block, CheckLens, LimitOf;
    var total := nlit + ndist;
    ok := ReadAllLens(r, w, cl, total);
    if !ok || w.plen[256] == 0 {
      return false, pout;
    }
    ghost var lens := w.plen[..total];
    assert lens[..nlit] == w.plen[..nlit] && lens[nlit..] == w.plen[nlit..total];
    ok, pout' := InflateWithLens(r, w, nlit, ndist, out, pout);
  }

  /** A block with dynamic Huffman codes. */
  method InflateDynamicBlock(r: Reservoir, w: WorkSpace, out: array<Byte>, pout: nat) returns (ok: bool, pout': nat)
    requires r.Valid() && w.Valid() && pout <= out.Length
    modifies r, out, w.Arrays()
    ensures r.Valid() && InStep(old(r.pin), r.pin, r.end)
    ensures ok ==> r.Pos() > old(r.Pos()) && pout' <= out.Length
    ensures ok && old(r.pin) <= r.end ==>
              Agrees(Dynamic(r.data, r.end, old(r.Pos()), old(out[..pout])), r.Pos(), out[..pout'])
    ensures old(r.pin) <= r.end ==>
              Fair(Dynamic(r.data, r.end, old(r.Pos()), old(out[..pout])), ok, LimitOf(old(r.pin), r.end), out.Length)
  {
    hide Peek, Pow2, DynamicLens, CodeLengths, LimitOf;
    pout' := pout;
    var nlit, ndist, nclen, codebits;
    ok, nlit, ndist, nclen := ReadCounts(r);
    if !ok {
      return;
    }
    ok, codebits := ReadCodeBits(r, nclen);
    if !ok {
      return;
    }
    ok, pout' := InflateAfterCounts(r, w, codebits[..], nlit, ndist, out, pout);
  }
}
