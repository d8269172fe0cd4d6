/** First part of the table builder: codes of 1 to 8 bits, which go into the primary table. */
module ShortCodes {
  import opened Options
  import opened Bits
  import opened ReverseCode
  import opened Canonical
  import opened HuffmanTable

  /** The running value of the builder's CODE for the k-th symbol of length L: the canonical
      code modulo 2^L, in reversed bit order. */
  ghost function CodeBits(lens: Lengths, L: nat, k: nat): (r: nat)
    requires L >= 1
    ensures r < Pow2(L)
  {
    Rev(L, Low(Code(lens, L, k), L))
  }

  lemma CodeBitsFit(lens: Lengths, L: nat, k: nat)
    requires Fits(lens) && IsCode(lens, L, k)
    ensures CodeBits(lens, L, k) == Rev(L, Code(lens, L, k))
    ensures forall w: nat :: Match(lens, w, L, k) <==> Low(w, L) == CodeBits(lens, L, k)
  {
    hide Low, Rev, NextCode, Count;
    CodeFits(lens, L, k);
    SmallParts(Code(lens, L, k), L);
  }

  /** The reverse increment moves to the next symbol of the length. */
  lemma CodeBitsNext(lens: Lengths, L: nat, k: nat)
    requires L >= 1
    ensures Rev(L, Low(Rev(L, CodeBits(lens, L, k)) + 1, L)) == CodeBits(lens, L, k + 1)
  {
    hide *;
    CodeBitsAdd(lens, L, k, 1);
  }

  lemma CodeBitsAdd(lens: Lengths, L: nat, k: nat, n: nat)
    requires L >= 1
    ensures Rev(L, Low(Rev(L, CodeBits(lens, L, k)) + n, L)) == CodeBits(lens, L, k + n)
  {
    hide Low, Rev, NextCode;
    LowBound(Code(lens, L, k), L);
    RevRev(L, Low(Code(lens, L, k), L));
    LowAdd(Code(lens, L, k), n, L);
  }

  /** Going to more bits adds zero bits above and so does not change the value. */
  lemma CodeBitsLonger(lens: Lengths, L: nat)
    requires L >= 1
    ensures CodeBits(lens, L + 1, 0) == CodeBits(lens, L, Count(lens, L))
  {
    var m := NextCode(lens, L) + Count(lens, L);
    var c := Low(m, L);
    assert Low(2 * m, L + 1) == 2 * c;
    assert Shl(c, 1) == 2 * Shl(c, 0);
    LowBound(m, L);
    RevShift(L + 1, L, c);
  }

  /** Every codeword before the k-th of length L is in the primary table at every index that starts with it. */
  ghost predicate ShortDone(lens: Lengths, t: seq<nat>, L: nat, k: nat)
    requires |t| == TABLE_SIZE
  {
    forall x: nat, M: nat, i: nat :: x < 256 && IsCode(lens, M, i) && (M < L || (M == L && i < k)) && Match(lens, x, M, i) ==>
      t[x] == ShortEntry(Syms(lens, M)[i], M)
  }

  /** Indices whose bits sort at or after the next codeword are still free. */
  ghost predicate ShortFree(lens: Lengths, t: seq<nat>, L: nat, k: nat)
    requires |t| == TABLE_SIZE && 1 <= L <= MAXBITS
  {
    && (forall x :: 0 <= x < 256 && Start(lens, L, k) <= Rev(MAXBITS, x) ==> t[x] == 0)
    && (forall y :: 256 <= y < TABLE_SIZE ==> t[y] == 0)
  }

  ghost predicate ShortState(lens: Lengths, t: seq<nat>, L: nat, k: nat)
    requires 1 <= L <= MAXBITS
  {
    |t| == TABLE_SIZE && ShortDone(lens, t, L, k) && ShortFree(lens, t, L, k)
  }

  /** The fill loop of a codeword that fits never meets a taken cell. */
  lemma ShortClear(lens: Lengths, t: seq<nat>, L: nat, k: nat)
    requires Fits(lens) && IsCode(lens, L, k) && L <= 8 && ShortState(lens, t, L, k)
    ensures RunClear(t, 0, 256, CodeBits(lens, L, k), L)
  {
    hide Low, Rev, NextCode, Count, Start, CodeBits, Match, ShortDone;
    CodeBitsFit(lens, L, k);
    CodeFits(lens, L, k);
    forall y | 0 <= y < |t| && InRun(y, 0, 256, CodeBits(lens, L, k), L)
      ensures t[y] == 0
    {
      MatchInterval(lens, y, L, k);
    }
  }

  lemma ShortStep(lens: Lengths, t: seq<nat>, t': seq<nat>, L: nat, k: nat)
    requires Fits(lens) && IsCode(lens, L, k) && L <= 8 && ShortState(lens, t, L, k)
    requires RunFilled(t, t', 0, 256, CodeBits(lens, L, k), L, ShortEntry(Syms(lens, L)[k], L))
    ensures ShortState(lens, t', L, k + 1)
  {
    hide Low, Rev, NextCode, Start, CodeBits, Match, Syms;
    CodeBitsFit(lens, L, k);
    CodeFits(lens, L, k);
    forall x: nat, M: nat, i: nat | x < 256 && IsCode(lens, M, i) && (M < L || (M == L && i < k + 1)) && Match(lens, x, M, i)
      ensures t'[x] == ShortEntry(Syms(lens, M)[i], M)
    {
      if Match(lens, x, L, k) {
        PrefixFree(lens, x, L, k, M, i);
      }
    }
    StartOrder(lens, L, k, L, k + 1);
    forall x | 0 <= x < 256 && Start(lens, L, k + 1) <= Rev(MAXBITS, x)
      ensures t'[x] == 0
    {
      MatchInterval(lens, x, L, k);
    }
  }

  lemma StartNextLength(lens: Lengths, L: nat)
    requires 1 <= L < MAXBITS
    ensures Start(lens, L + 1, 0) == Start(lens, L, Count(lens, L))
  {
    hide Shl, Count, Space;
    StartOfLength(lens, L + 1);
    SpaceIsNextCode(lens, L);
  }

  lemma ShortNextLength(lens: Lengths, t: seq<nat>, L: nat)
    requires 1 <= L < MAXBITS && ShortState(lens, t, L, Count(lens, L))
    ensures ShortState(lens, t, L + 1, 0)
  {
    hide Low, Rev, NextCode, Count, Start, Match, Syms;
    StartNextLength(lens, L);
  }

  /** What the builder knows without assuming that the lengths fit: the codes have not run past
      the end of the code space, and cell 0 is taken once any code has been placed. */
  ghost predicate ZeroGuard(lens: Lengths, t: seq<nat>, L: nat, k: nat)
    requires |t| == TABLE_SIZE && L >= 1
  {
    && Code(lens, L, k) <= Pow2(L)
    && (Code(lens, L, k) > 0 ==> t[0] != 0 && !IsPtr(t[0]))
  }

  lemma WrappedCode(lens: Lengths, L: nat, k: nat)
    requires L >= 1 && (Code(lens, L, k) == 0 || Code(lens, L, k) == Pow2(L))
    ensures CodeBits(lens, L, k) == 0
  {
    hide Low, Rev, NextCode;
    RevZero(L);
    SmallParts(0, L);
    ShlBit(1, L);
    PartsUnique(1, 0, L);
  }

  lemma ZeroStep(lens: Lengths, t: seq<nat>, t': seq<nat>, L: nat, k: nat)
    requires 1 <= L <= 8 && k < Count(lens, L) && |lens| <= 512 && |t| == TABLE_SIZE && lens[0] != 1
    requires ZeroGuard(lens, t, L, k) && RunClear(t, 0, 256, CodeBits(lens, L, k), L)
    requires RunFilled(t, t', 0, 256, CodeBits(lens, L, k), L, ShortEntry(Syms(lens, L)[k], L))
    ensures ZeroGuard(lens, t', L, k + 1)
  {
    hide Low, Rev, NextCode, CodeBits, Pow2, Syms;
    SymsProps(lens, L);
    EntryFields(Syms(lens, L)[k], L);
    SmallParts(0, L);
    if Code(lens, L, k) == 0 || Code(lens, L, k) == Pow2(L) {
      WrappedCode(lens, L, k);
      assert InRun(0, 0, 256, CodeBits(lens, L, k), L);
    }
  }

  lemma ZeroNextLength(lens: Lengths, t: seq<nat>, L: nat)
    requires L >= 1 && |t| == TABLE_SIZE && ZeroGuard(lens, t, L, Count(lens, L))
    ensures ZeroGuard(lens, t, L + 1, 0)
  {
  }

  /** All that holds between two symbols of the first part. */
  ghost predicate ShortInv(lens: Lengths, t: seq<nat>, L: nat, k: nat)
    requires 1 <= L <= MAXBITS
  {
    && |t| == TABLE_SIZE
    && (Fits(lens) ==> ShortState(lens, t, L, k))
    && (|lens| > 0 && lens[0] != 1 ==> ZeroGuard(lens, t, L, k))
  }

  // ----- whether the first part succeeds, step by step -----

  /** t with every cell that starts with the code set to e. */
  ghost function Filled(t: seq<nat>, code: nat, j: nat, e: nat): (r: seq<nat>)
    requires |t| == TABLE_SIZE
    ensures |r| == TABLE_SIZE && RunFilled(t, r, 0, 256, code, j, e)
  {
    seq(TABLE_SIZE, y requires 0 <= y < TABLE_SIZE => if InRun(y, 0, 256, code, j) then e else t[y])
  }

  /** The table after k symbols of length j, unless a cell was taken. */
  ghost function Trial(lens: Lengths, t: seq<nat>, j: nat, k: nat): (r: Option<seq<nat>>)
    requires |t| == TABLE_SIZE && j >= 1 && k <= Count(lens, j)
    ensures r.Some? ==> |r.value| == TABLE_SIZE
  {
    if k == 0 then Some(t)
    else
      match Trial(lens, t, j, k - 1)
      case None => None
      case Some(u) =>
        var code := CodeBits(lens, j, k - 1);
        if RunClear(u, 0, 256, code, j) then Some(Filled(u, code, j, ShortEntry(Syms(lens, j)[k - 1], j))) else None
  }

  /** The table after all lengths up to L. */
  ghost function Trials(lens: Lengths, L: nat): (r: Option<seq<nat>>)
    ensures r.Some? ==> |r.value| == TABLE_SIZE
  {
    if L == 0 then Some(seq(TABLE_SIZE, _ => 0))
    else
      match Trials(lens, L - 1)
      case None => None
      case Some(t) => if Count(lens, L) <= Pow2(L) then Trial(lens, t, L, Count(lens, L)) else None
  }

  lemma {:induction false} TrialStops(lens: Lengths, t: seq<nat>, j: nat, k: nat, n: nat)
    requires |t| == TABLE_SIZE && j >= 1 && k <= n <= Count(lens, j) && Trial(lens, t, j, k).None?
    ensures Trial(lens, t, j, n).None?
  {
    hide CodeBits, Syms;
    if k < n { TrialStops(lens, t, j, k, n - 1); }
  }

  lemma {:induction false} TrialsStop(lens: Lengths, k: nat, n: nat)
    requires k <= n && Trials(lens, k).None?
    ensures Trials(lens, n).None?
  {
    hide Trial;
    if k < n { TrialsStop(lens, k, n - 1); }
  }

  lemma TrialStep(lens: Lengths, t: seq<nat>, j: nat, k: nat, u: seq<nat>, u': seq<nat>)
    requires |t| == TABLE_SIZE && j >= 1 && k < Count(lens, j) && Trial(lens, t, j, k) == Some(u)
    ensures !RunClear(u, 0, 256, CodeBits(lens, j, k), j) ==> Trial(lens, t, j, k + 1).None?
    ensures RunClear(u, 0, 256, CodeBits(lens, j, k), j) && |u'| == TABLE_SIZE
            && RunFilled(u, u', 0, 256, CodeBits(lens, j, k), j, ShortEntry(Syms(lens, j)[k], j)) ==>
              Trial(lens, t, j, k + 1) == Some(u')
  {
    hide CodeBits, Syms, RunClear, InRun;
    var e := ShortEntry(Syms(lens, j)[k], j);
    var f := Filled(u, CodeBits(lens, j, k), j, e);
    if |u'| == TABLE_SIZE && RunFilled(u, u', 0, 256, CodeBits(lens, j, k), j, e) {
      assert u' == f;
    }
  }

  /** Place the symbols of one length j <= 8. */
  method PlaceLength(lens: Lengths, j: nat, jcnt: nat, first: nat, code0: nat, next: array<nat>, table: array<nat>,
                     ghost last: nat)
    returns (ok: bool, code: nat)
    requires 1 <= j <= 8 && |lens| <= 512 && table != next
    requires table.Length == TABLE_SIZE && ChainAt(Syms(lens, j), jcnt, first, last, next[..])
    requires code0 == CodeBits(lens, j, 0) && ShortInv(lens, table[..], j, 0)
    modifies table
    ensures ok ==> code == CodeBits(lens, j, jcnt) && ShortInv(lens, table[..], j, jcnt)
    ensures Fits(lens) ==> ok
    ensures if ok then jcnt <= Pow2(j) && Trial(lens, old(table[..]), j, jcnt) == Some(table[..])
            else jcnt > Pow2(j) || Trial(lens, old(table[..]), j, jcnt).None?
  {
    hide Low, Rev, NextCode, Syms, CodeBits, Pow2, ShortState, ZeroGuard, RunClear, RunFilled, Trial;
    code := code0;
    ghost var t0 := table[..];
    TrialNone(lens, t0, j);
    if jcnt > Pow2(j) {
      return false, code;
    }
    var val := first;
    var i := 0;
    while i < jcnt
      invariant 0 <= i <= jcnt
      invariant i < jcnt ==> val == Syms(lens, j)[i]
      invariant code == CodeBits(lens, j, i) && ShortInv(lens, table[..], j, i)
      invariant Trial(lens, t0, j, i) == Some(table[..])
    {
      SymsProps(lens, j);
      ghost var t := table[..];
      CodeBitsNext(lens, j, i);
      if Fits(lens) { ShortClear(lens, t, j, i); }
      ok := FillRun(table, 0, 256, code, j, ShortEntry(val, j));
      TrialStep(lens, t0, j, i, t, table[..]);
      if !ok {
        TrialStops(lens, t0, j, i + 1, jcnt);
        return false, code;
      }
      if Fits(lens) { ShortStep(lens, t, table[..], j, i); }
      if lens[0] != 1 { ZeroStep(lens, t, table[..], j, i); }
      if i + 1 < jcnt {
        val := next[val];
      }
      code := ReverseIncrement(code, j);
      i := i + 1;
    }
    ok := true;
  }

  /** The whole first part: lengths 1 to 8 in turn. */
  method PlaceShort(lens: Lengths, count: array<nat>, start: array<nat>, next: array<nat>, table: array<nat>,
                    ghost last: seq<nat>)
    returns (ok: bool, code: nat)
    requires |lens| <= 512 && table != next && table != count && table != start
    requires Chained(lens, count[..], start[..], last, next[..])
    requires table.Length == TABLE_SIZE && forall y :: 0 <= y < TABLE_SIZE ==> table[y] == 0
    modifies table
    ensures ok ==> code == CodeBits(lens, 9, 0) && ShortInv(lens, table[..], 9, 0)
    ensures Fits(lens) ==> ok
    ensures ok <==> Trials(lens, 8).Some?
  {
    hide Low, Rev, NextCode, Syms, CodeBits, Pow2, ChainAt, Trial, Trials;
    TrialsStart(lens, table[..]);
    code := 0;
    var j := 1;
    ShortStart(lens, table[..]);
    while j <= 8
      invariant 1 <= j <= 9
      invariant code == CodeBits(lens, j, 0) && ShortInv(lens, table[..], j, 0)
      invariant Trials(lens, j - 1) == Some(table[..])
      decreases 9 - j
    {
      TrialsStep(lens, j, table[..]);
      ChainCount(Syms(lens, j), count[j], start[j], last[j], next[..]);
      assert ChainAt(Syms(lens, j), count[j], start[j], last[j], next[..]);
      if count[j] != 0 {
        ok, code := PlaceLength(lens, j, count[j], start[j], code, next, table, last[j]);
        if !ok {
          TrialsStop(lens, j, 8);
          return false, code;
        }
      }
      ShortAdvance(lens, table[..], j, count[j], start[j], last[j], next[..]);
      j := j + 1;
    }
    ok := true;
  }

  lemma TrialNone(lens: Lengths, t: seq<nat>, j: nat)
    requires |t| == TABLE_SIZE && j >= 1
    ensures Trial(lens, t, j, 0) == Some(t)
  {}

  lemma TrialsStart(lens: Lengths, t: seq<nat>)
    requires |t| == TABLE_SIZE && forall y :: 0 <= y < TABLE_SIZE ==> t[y] == 0
    ensures Trials(lens, 0) == Some(t)
  {
    assert t == seq(TABLE_SIZE, _ => 0);
  }

  lemma TrialsStep(lens: Lengths, j: nat, t: seq<nat>)
    requires j >= 1 && Trials(lens, j - 1) == Some(t)
    ensures Trials(lens, j) == if Count(lens, j) <= Pow2(j) then Trial(lens, t, j, Count(lens, j)) else None
    ensures Count(lens, j) == 0 ==> Trials(lens, j) == Some(t)
  {}

  lemma ShortStart(lens: Lengths, t: seq<nat>)
    requires |t| == TABLE_SIZE && forall y :: 0 <= y < TABLE_SIZE ==> t[y] == 0
    ensures CodeBits(lens, 1, 0) == 0 && ShortInv(lens, t, 1, 0)
  {
    WrappedCode(lens, 1, 0);
  }

  lemma ShortAdvance(lens: Lengths, t: seq<nat>, j: nat, jcnt: nat, first: nat, last: nat, next: seq<nat>)
    requires 1 <= j <= 8 && ChainAt(Syms(lens, j), jcnt, first, last, next)
    requires ShortInv(lens, t, j, jcnt)
    ensures CodeBits(lens, j + 1, 0) == CodeBits(lens, j, jcnt)
    ensures ShortInv(lens, t, j + 1, 0)
  {
    hide Low, Rev, NextCode, Syms, CodeBits, Pow2, ShortState, ZeroGuard;
    CodeBitsLonger(lens, j);
    if Fits(lens) { ShortNextLength(lens, t, j); }
    if |lens| > 0 && lens[0] != 1 { ZeroNextLength(lens, t, j); }
  }
}
