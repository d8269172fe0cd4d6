/** Binary search over entries that a comparison orders.  The C standard does not say which entry
    of the remaining part bsearch looks at next, so every choice is allowed here. */
module Search {

  /** Comparing the key with the entries in order gives positive, then zero, then negative results. */
  ghost predicate Monotone(cmp: nat -> int, n: nat)
  {
    forall i, j :: 0 <= i < j < n ==> (cmp(i) <= 0 ==> cmp(j) <= 0) && (cmp(i) < 0 ==> cmp(j) < 0)
  }

  /** A search of the part [lo, hi) can end at entry k, or with nothing for k = -1. */
  ghost predicate Arrives(cmp: nat -> int, lo: nat, hi: nat, k: int)
    requires lo <= hi
    decreases hi - lo, 1
  {
    if lo == hi then k == -1 else exists mid: nat :: lo <= mid < hi && ArrivesVia(cmp, lo, hi, mid, k)
  }

  /** It can do so when entry mid is looked at first. */
  ghost predicate ArrivesVia(cmp: nat -> int, lo: nat, hi: nat, mid: nat, k: int)
    requires lo <= mid < hi
    decreases hi - lo, 0
  {
    if cmp(mid) < 0 then Arrives(cmp, lo, mid, k) else if cmp(mid) > 0 then Arrives(cmp, mid + 1, hi, k) else k == mid
  }

  lemma {:induction false} ArrivalFinds(cmp: nat -> int, lo: nat, hi: nat, k: int)
    requires lo <= hi && Arrives(cmp, lo, hi, k)
    ensures k == -1 || (lo <= k < hi && cmp(k) == 0)
    decreases hi - lo
  {
    if lo < hi {
      var mid: nat :| lo <= mid < hi && ArrivesVia(cmp, lo, hi, mid, k);
      if cmp(mid) < 0 {
        ArrivalFinds(cmp, lo, mid, k);
      } else if cmp(mid) > 0 {
        ArrivalFinds(cmp, mid + 1, hi, k);
      }
    }
  }

  /** With an ordered comparison no search misses an entry that compares equal. */
  lemma {:induction false} ArrivalMissesNone(cmp: nat -> int, lo: nat, hi: nat, n: nat)
    requires lo <= hi <= n && Monotone(cmp, n) && Arrives(cmp, lo, hi, -1)
    ensures forall i :: lo <= i < hi ==> cmp(i) != 0
    decreases hi - lo
  {
    if lo < hi {
      var mid: nat :| lo <= mid < hi && ArrivesVia(cmp, lo, hi, mid, -1);
      if cmp(mid) < 0 {
        ArrivalMissesNone(cmp, lo, mid, n);
        assert forall i :: mid < i < hi ==> cmp(i) < 0;
      } else {
        ArrivalMissesNone(cmp, mid + 1, hi, n);
        assert forall i :: lo <= i < mid ==> cmp(i) > 0;
      }
    }
  }

  /** Where nothing compares equal a search ends with nothing. */
  lemma {:induction false} NothingArrives(cmp: nat -> int, lo: nat, hi: nat)
    requires lo <= hi && forall i: nat :: lo <= i < hi ==> cmp(i) != 0
    ensures Arrives(cmp, lo, hi, -1)
    decreases hi - lo
  {
    if lo < hi {
      if cmp(lo) < 0 { NothingArrives(cmp, lo, lo); } else { NothingArrives(cmp, lo + 1, hi); }
      assert ArrivesVia(cmp, lo, hi, lo, -1);
    }
  }

  /** All the ways to go on from [lo, hi) are ways to go on from the whole. */
  ghost predicate Remains(cmp: nat -> int, n: nat, lo: nat, hi: nat)
    requires lo <= hi
  {
    forall k :: Arrives(cmp, lo, hi, k) ==> Arrives(cmp, 0, n, k)
  }

  lemma RemainsNext(cmp: nat -> int, n: nat, lo: nat, hi: nat, mid: nat)
    requires lo <= mid < hi && Remains(cmp, n, lo, hi)
    ensures cmp(mid) < 0 ==> Remains(cmp, n, lo, mid)
    ensures cmp(mid) > 0 ==> Remains(cmp, n, mid + 1, hi)
    ensures cmp(mid) == 0 ==> Arrives(cmp, 0, n, mid)
  {
    forall k | ArrivesVia(cmp, lo, hi, mid, k)
      ensures Arrives(cmp, 0, n, k)
    {
      assert Arrives(cmp, lo, hi, k);
    }
    if cmp(mid) < 0 {
      forall k | Arrives(cmp, lo, mid, k)
        ensures Arrives(cmp, 0, n, k)
      {
        assert ArrivesVia(cmp, lo, hi, mid, k);
      }
    } else if cmp(mid) > 0 {
      forall k | Arrives(cmp, mid + 1, hi, k)
        ensures Arrives(cmp, 0, n, k)
      {
        assert ArrivesVia(cmp, lo, hi, mid, k);
      }
    } else {
      assert ArrivesVia(cmp, lo, hi, mid, mid);
    }
  }

  /** Some entry that compares equal, or n when the search ends with nothing, whatever entries are
      looked at.  With an ordered comparison nothing means that no entry compares equal. */
  method Bsearch(cmp: nat -> int, n: nat) returns (k: nat)
    ensures k <= n && Arrives(cmp, 0, n, if k < n then k else -1)
    ensures k < n ==> cmp(k) == 0
    ensures Monotone(cmp, n) && k == n ==> forall i :: 0 <= i < n ==> cmp(i) != 0
  {
    hide Monotone, Arrives, Remains;
    var lo, hi := 0, n;
    k := n;
    assert Remains(cmp, n, 0, n) by { RemainsAll(cmp, n); }
    while lo < hi
      invariant 0 <= lo <= hi <= n && k == n && Remains(cmp, n, lo, hi)
    {
      var mid: nat :| lo <= mid < hi;
      RemainsNext(cmp, n, lo, hi, mid);
      var c := cmp(mid);
      if c < 0 {
        hi := mid;
      } else if c > 0 {
        lo := mid + 1;
      } else {
        k := mid;
        return;
      }
    }
    RemainsNothing(cmp, n, lo);
    if Monotone(cmp, n) { ArrivalMissesNone(cmp, 0, n, n); }
  }

  lemma RemainsAll(cmp: nat -> int, n: nat)
    ensures Remains(cmp, n, 0, n)
  {}

  lemma RemainsNothing(cmp: nat -> int, n: nat, lo: nat)
    requires Remains(cmp, n, lo, lo)
    ensures Arrives(cmp, 0, n, -1)
  {
    assert Arrives(cmp, lo, lo, -1);
  }
}
