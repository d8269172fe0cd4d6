/** The two-level decoding table: how entries are packed, what a lookup reads, and the
    loops that count lengths and fill runs of equal entries. */
module HuffmanTable {
  import opened Bits
  import opened Canonical

  const TABLE_SIZE: nat := 1024
  const MAX_CODES: nat := 316

  /** Entry of the primary table for a symbol of length 1..8. */
  function ShortEntry(s: nat, L: nat): nat
    requires L >= 1
  {
    s + (L - 1) * 512
  }

  /** Entry of a secondary table for a symbol of length 9..15. */
  function LongEntry(s: nat, L: nat): nat
    requires L >= 8
  {
    s + (L - 8) * 512
  }

  /** Primary entry that points to the secondary table at offset sec, indexed by sb bits. */
  function PtrEntry(sec: nat, sb: nat): nat
  {
    sec + sb * 512 + 4096
  }

  function Value(e: nat): nat { e % 512 }
  function Width(e: nat): nat { e / 512 % 8 }
  predicate IsPtr(e: nat) { e / 4096 % 2 == 1 }

  datatype Decoded = Decoded(sym: nat, len: nat)

  /** What the inflate loop reads from a table for the upcoming bits w. */
  function Lookup(t: seq<nat>, w: nat): Decoded
    requires |t| == TABLE_SIZE
  {
    var e := t[w % 256];
    if !IsPtr(e) then Decoded(Value(e), Width(e) + 1)
    else
      assert Low(w / 256, Width(e)) < 128 by {
        LowBound(w / 256, Width(e));
        Pow2Mono(Width(e), 7);
        Pow2Values();
      }
      var e2 := t[Value(e) + 256 + Low(w / 256, Width(e))];
      Decoded(Value(e2), Width(e2) + 8)
  }

  lemma EntryFields(s: nat, L: nat)
    requires s < 512
    ensures 1 <= L <= 8 ==> !IsPtr(ShortEntry(s, L)) && Value(ShortEntry(s, L)) == s && Width(ShortEntry(s, L)) == L - 1
    ensures 9 <= L <= 15 ==> Value(LongEntry(s, L)) == s && Width(LongEntry(s, L)) == L - 8
  {
  }

  lemma PtrFields(sec: nat, sb: nat)
    requires sec < 512 && sb < 8
    ensures IsPtr(PtrEntry(sec, sb)) && Value(PtrEntry(sec, sb)) == sec && Width(PtrEntry(sec, sb)) == sb
  {
  }

  /** The cells base + x, x < bound, whose index x ends in the n bits `first`. */
  ghost predicate InRun(y: int, base: nat, bound: nat, first: nat, n: nat)
  {
    base <= y < base + bound && Low(y - base, n) == first
  }

  /** t' is t with every cell of the run set to e. */
  ghost predicate RunFilled(t: seq<nat>, t': seq<nat>, base: nat, bound: nat, first: nat, n: nat, e: nat)
  {
    && |t'| == |t|
    && forall y :: 0 <= y < |t| ==> t'[y] == if InRun(y, base, bound, first, n) then e else t[y]
  }

  ghost predicate RunClear(t: seq<nat>, base: nat, bound: nat, first: nat, n: nat)
  {
    forall y :: 0 <= y < |t| && InRun(y, base, bound, first, n) ==> t[y] == 0
  }

  /** Indices with the same low n bits are at least 2^n apart. */
  lemma NextInClass(x: nat, ind: nat, n: nat)
    requires ind < x && Low(ind, n) == Low(x, n)
    ensures ind + Pow2(n) <= x
  {
    hide *;
    Parts(x, n);
    Parts(ind, n);
    ShlMono(Shr(x, n), Shr(ind, n), n);
    ShlMono(Shr(ind, n) + 1, Shr(x, n), n);
    ShlAdd(Shr(ind, n), 1, n);
    ShlBit(1, n);
  }

  lemma AddStride(ind: nat, n: nat)
    ensures Low(ind + Pow2(n), n) == Low(ind, n)
  {
    hide *;
    Parts(ind, n);
    LowBound(ind, n);
    ShlAdd(Shr(ind, n), 1, n);
    ShlBit(1, n);
    PartsUnique(Shr(ind, n) + 1, Low(ind, n), n);
  }

  /** Set every free cell of a run to e; give up at the first cell already taken. */
  method FillRun(table: array<nat>, base: nat, bound: nat, first: nat, n: nat, e: nat) returns (ok: bool)
    requires first < Pow2(n) && base + bound <= table.Length
    modifies table
    ensures ok <==> RunClear(old(table[..]), base, bound, first, n)
    ensures ok ==> RunFilled(old(table[..]), table[..], base, bound, first, n, e)
  {
    hide Low, Pow2;
    var ind := first;
    SmallParts(first, n);
    ghost var t := table[..];
    while ind < bound
      invariant first <= ind && Low(ind, n) == first
      invariant forall y :: 0 <= y < table.Length ==>
        table[y] == if y < base + ind && InRun(y, base, bound, first, n) then e else t[y]
      invariant forall y :: 0 <= y < table.Length && y < base + ind && InRun(y, base, bound, first, n) ==> t[y] == 0
      decreases bound - ind
    {
      forall y | InRun(y, base, bound, first, n) && y > base + ind
        ensures y >= base + ind + Pow2(n)
      {
        NextInClass(y - base, ind, n);
      }
      assert InRun(base + ind, base, bound, first, n);
      if table[base + ind] != 0 {
        return false;
      }
      table[base + ind] := e;
      AddStride(ind, n);
      ind := ind + Pow2(n);
    }
    return true;
  }

  /** The symbols of one length as the builder keeps them: a count, the first one, the last
      one, and a chain from each to the following. */
  ghost predicate ChainAt(syms: seq<nat>, count: nat, first: nat, last: nat, next: seq<nat>)
  {
    && count == |syms|
    && (count > 0 ==> first == syms[0] && last == syms[count - 1])
    && (forall k :: 0 <= k < |syms| ==> syms[k] < |next|)
    && (forall k :: 0 <= k && k + 1 < |syms| ==> next[syms[k]] == syms[k + 1])
  }

  ghost predicate Chained(lens: Lengths, count: seq<nat>, start: seq<nat>, prev: seq<nat>, next: seq<nat>)
  {
    && |count| == |start| == |prev| == 16
    && forall L :: 0 <= L < 16 ==> ChainAt(Syms(lens, L), count[L], start[L], prev[L], next)
  }

  lemma ChainCount(syms: seq<nat>, count: nat, first: nat, last: nat, next: seq<nat>)
    requires ChainAt(syms, count, first, last, next)
    ensures count == |syms|
  {
  }

  lemma ChainAppend(syms: seq<nat>, count: nat, first: nat, last: nat, next: seq<nat>, i: nat)
    requires ChainAt(syms, count, first, last, next) && i < |next|
    requires forall j, k :: 0 <= j < k < |syms| ==> syms[j] < syms[k]
    ensures ChainAt(syms + [i], count + 1, if count == 0 then i else first, i,
                    if count == 0 then next else next[last := i])
  {
  }

  lemma ChainFrame(syms: seq<nat>, count: nat, first: nat, last: nat, next: seq<nat>, p: nat, i: nat)
    requires ChainAt(syms, count, first, last, next) && p < |next| && p !in syms
    ensures ChainAt(syms, count, first, last, next[p := i])
  {
  }

  lemma LastInOwnLength(lens: Lengths, c: nat, count: nat, first: nat, last: nat, next: seq<nat>, L: nat)
    requires ChainAt(Syms(lens, c), count, first, last, next) && count > 0 && L != c
    ensures last < |next| && last !in Syms(lens, L)
  {
    SymsProps(lens, c);
    SymsProps(lens, L);
  }

  /** Adding symbol i extends the chain of its own length ... */
  lemma OwnChain(lens: Lengths, i: nat, count: nat, first: nat, last: nat, next: seq<nat>)
    requires i < |lens| <= |next|
    requires ChainAt(Syms(lens[..i], lens[i]), count, first, last, next)
    ensures count > 0 ==> last < |next|
    ensures ChainAt(Syms(lens[..i + 1], lens[i]), count + 1, if count == 0 then i else first, i,
                    if count == 0 then next else next[last := i])
  {
    SymsStep(lens, i, lens[i]);
    SymsProps(lens[..i], lens[i]);
    ChainAppend(Syms(lens[..i], lens[i]), count, first, last, next, i);
  }

  /** ... and leaves the others. */
  lemma OtherChain(lens: Lengths, i: nat, count: seq<nat>, start: seq<nat>, prev: seq<nat>, next: seq<nat>, L: nat)
    requires i < |lens| <= |next| && lens[i] < 16 && L < 16 && L != lens[i]
    requires Chained(lens[..i], count, start, prev, next)
    ensures count[lens[i]] > 0 ==> prev[lens[i]] < |next|
    ensures ChainAt(Syms(lens[..i + 1], L), count[L], start[L], prev[L],
                    if count[lens[i]] == 0 then next else next[prev[lens[i]] := i])
  {
    var c := lens[i];
    assert ChainAt(Syms(lens[..i], c), count[c], start[c], prev[c], next);
    assert ChainAt(Syms(lens[..i], L), count[L], start[L], prev[L], next);
    SymsStep(lens, i, L);
    if count[c] > 0 {
      LastInOwnLength(lens[..i], c, count[c], start[c], prev[c], next, L);
      ChainFrame(Syms(lens[..i], L), count[L], start[L], prev[L], next, prev[c], i);
    }
  }

  lemma ChainedStep(lens: Lengths, i: nat, count: seq<nat>, start: seq<nat>, prev: seq<nat>, next: seq<nat>,
                    count': seq<nat>, start': seq<nat>, prev': seq<nat>, next': seq<nat>)
    requires i < |lens| <= |next| && lens[i] < 16
    requires Chained(lens[..i], count, start, prev, next)
    requires count' == count[lens[i] := count[lens[i]] + 1] && prev' == prev[lens[i] := i]
    requires start' == if count[lens[i]] == 0 then start[lens[i] := i] else start
    requires count[lens[i]] > 0 ==> prev[lens[i]] < |next|
    requires next' == if count[lens[i]] == 0 then next else next[prev[lens[i]] := i]
    ensures Chained(lens[..i + 1], count', start', prev', next')
  {
    var c := lens[i];
    forall L | 0 <= L < 16
      ensures ChainAt(Syms(lens[..i + 1], L), count'[L], start'[L], prev'[L], next')
    {
      if L == c {
        OwnChain(lens, i, count[c], start[c], prev[c], next);
      } else {
        OtherChain(lens, i, count, start, prev, next, L);
      }
    }
  }

  /** Body of the counting loop for symbol i. */
  method AddSymbol(lens: Lengths, i: nat, count: array<nat>, start: array<nat>, prev: array<nat>, next: array<nat>)
    requires i < |lens| <= next.Length && lens[i] < 16
    requires count != start && count != prev && count != next && start != prev && start != next && prev != next
    requires Chained(lens[..i], count[..], start[..], prev[..], next[..])
    modifies count, start, prev, next
    ensures Chained(lens[..i + 1], count[..], start[..], prev[..], next[..])
  {
    var c := lens[i];
    ghost var count0, start0, prev0, next0 := count[..], start[..], prev[..], next[..];
    OwnChain(lens, i, count0[c], start0[c], prev0[c], next0);
    if count[c] == 0 {
      start[c] := i;
      prev[c] := i;
    } else {
      next[prev[c]] := i;
      prev[c] := i;
    }
    count[c] := count[c] + 1;
    ChainedStep(lens, i, count0, start0, prev0, next0, count[..], start[..], prev[..], next[..]);
  }

  lemma ChainedEmpty(count: seq<nat>, next: seq<nat>)
    requires count == seq(16, _ => 0)
    ensures Chained([], count, count, count, next)
  {
  }

  /** First pass of the builder: fails exactly when some length is 16 or more. */
  method CountLengths(lens: Lengths, next: array<nat>)
    returns (ok: bool, count: array<nat>, start: array<nat>, ghost last: seq<nat>)
    requires |lens| <= next.Length
    modifies next
    ensures fresh(count) && fresh(start)
    ensures ok <==> LengthsOk(lens)
    ensures ok ==> Chained(lens, count[..], start[..], last, next[..])
  {
    count := new nat[16](_ => 0);
    start := new nat[16](_ => 0);
    var prev := new nat[16](_ => 0);
    assert count[..] == start[..] == prev[..] == seq(16, _ => 0);
    ChainedEmpty(count[..], next[..]);
    assert lens[..0] == [];
    for i := 0 to |lens|
      invariant fresh(count) && fresh(start) && fresh(prev)
      invariant Chained(lens[..i], count[..], start[..], prev[..], next[..])
      invariant forall s :: 0 <= s < i ==> lens[s] <= MAXBITS
    {
      if lens[i] >= 16 {
        return false, count, start, [];
      }
      AddSymbol(lens, i, count, start, prev, next);
    }
    assert lens[..|lens|] == lens;
    return true, count, start, prev[..];
  }
}
