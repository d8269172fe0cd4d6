/** Looking up the address range that contains a pc: the ranges are sorted by start, longer ranges
    first, then a binary search finds one match and a walk goes on to the last. */
module PcRanges {
  import opened Quicksort
  import opened Search

  datatype Range<T> = Range(low: nat, high: nat, item: T)

  predicate Contains<T>(r: Range<T>, pc: nat)
  {
    r.low <= pc < r.high
  }

  // ----- the order -----

  /** Compare two ranges for the sort; `tie` decides between equal ranges. */
  function RangeCompare<T>(tie: (T, T) -> int, a: Range<T>, b: Range<T>): int
  {
    if a.low < b.low then -1
    else if a.low > b.low then 1
    else if a.high < b.high then 1
    else if a.high > b.high then -1
    else tie(a.item, b.item)
  }

  function RangeOrder<T>(tie: (T, T) -> int): (Range<T>, Range<T>) -> int
  {
    (a, b) => RangeCompare(tie, a, b)
  }

  lemma RangeOrderOk<T(!new)>(tie: (T, T) -> int)
    requires TotalPreorder(tie)
    ensures TotalPreorder(RangeOrder(tie))
  {
    var cmp := RangeOrder(tie);
    forall x: Range<T>, y: Range<T>
      ensures cmp(x, y) <= 0 <==> cmp(y, x) >= 0
    {
      assert tie(x.item, y.item) <= 0 <==> tie(y.item, x.item) >= 0;
    }
    forall x: Range<T>, y: Range<T>, z: Range<T> | cmp(x, y) <= 0 && cmp(y, z) <= 0
      ensures cmp(x, z) <= 0
    {
      assert tie(x.item, y.item) <= 0 && tie(y.item, z.item) <= 0 ==> tie(x.item, z.item) <= 0;
    }
  }

  /** a may come before b: it starts earlier, or at the same place and is not shorter. */
  predicate Before<T>(a: Range<T>, b: Range<T>)
  {
    a.low < b.low || (a.low == b.low && a.high >= b.high)
  }

  ghost predicate InOrder<T>(rs: seq<Range<T>>)
  {
    forall i, j :: 0 <= i < j < |rs| ==> Before(rs[i], rs[j])
  }

  /** Sort ranges in place. */
  method SortRanges<T(!new)>(a: array<Range<T>>, tie: (T, T) -> int)
    requires TotalPreorder(tie)
    modifies a
    ensures multiset(a[..]) == multiset(old(a[..])) && InOrder(a[..])
  {
    hide TotalPreorder, Rearranged, Sorted;
    RangeOrderOk(tie);
    ghost var s := a[..];
    ghost var depth := Qsort(a, 0, a.Length, RangeOrder(tie));
    SortedInOrder(s, a[..], tie);
  }

  lemma SortedInOrder<T>(s: seq<Range<T>>, t: seq<Range<T>>, tie: (T, T) -> int)
    requires |s| == |t| && Rearranged(s, t, 0, |t|) && Sorted(RangeOrder(tie), t[0..|t|])
    ensures multiset(t) == multiset(s) && InOrder(t)
  {
    assert t[0..|t|] == t && s[0..|t|] == s;
    forall i, j | 0 <= i < j < |t|
      ensures Before(t[i], t[j])
    {
      assert RangeOrder(tie)(t[i], t[j]) <= 0;
    }
  }

  // ----- the search and the walk -----

  /** Compare a pc with a range for the search. */
  function RangeSearch<T>(r: Range<T>, pc: nat): int
  {
    if pc < r.low then -1 else if pc >= r.high then 1 else 0
  }

  function RangeSearcher<T>(rs: seq<Range<T>>, pc: nat): nat -> int
  {
    (i: nat) => if i < |rs| then RangeSearch(rs[i], pc) else -1
  }

  /** Range r starts at or before pc and has ended there. */
  predicate Ended<T>(r: Range<T>, pc: nat)
  {
    r.low <= pc && r.high <= pc
  }

  /** No range that holds pc comes before one that has already ended at pc. */
  ghost predicate NoneEndedInside<T>(rs: seq<Range<T>>, pc: nat)
  {
    forall i, j :: 0 <= i < j < |rs| && Contains(rs[i], pc) ==> !Ended(rs[j], pc)
  }

  /** This is exactly what makes the search comparison ordered, as bsearch needs it. */
  lemma OrderedIffNoneEnded<T>(rs: seq<Range<T>>, pc: nat)
    requires InOrder(rs)
    ensures Monotone(RangeSearcher(rs, pc), |rs|) <==> NoneEndedInside(rs, pc)
  {
    var cmp := RangeSearcher(rs, pc);
    if Monotone(cmp, |rs|) {
      forall i, j | 0 <= i < j < |rs| && Contains(rs[i], pc)
        ensures !Ended(rs[j], pc)
      {
        assert cmp(i) <= 0 ==> cmp(j) <= 0;
      }
    }
    if NoneEndedInside(rs, pc) {
      forall i, j | 0 <= i < j < |rs|
        ensures (cmp(i) <= 0 ==> cmp(j) <= 0) && (cmp(i) < 0 ==> cmp(j) < 0)
      {
        assert Before(rs[i], rs[j]);
        assert Contains(rs[i], pc) ==> !Ended(rs[j], pc);
      }
    }
  }

  /** The last range, in order, that contains pc. */
  ghost predicate IsLast<T>(rs: seq<Range<T>>, pc: nat, k: nat)
  {
    k < |rs| && Contains(rs[k], pc) && forall i :: k < i < |rs| ==> !Contains(rs[i], pc)
  }

  ghost predicate NoneContain<T>(rs: seq<Range<T>>, pc: nat)
  {
    forall i :: 0 <= i < |rs| ==> !Contains(rs[i], pc)
  }

  /** The right answer: the last range that contains pc, -1 when none does. */
  ghost predicate Right<T>(rs: seq<Range<T>>, pc: nat, k: int)
  {
    if k >= 0 then IsLast(rs, pc, k) else NoneContain(rs, pc)
  }

  /** Walk forward from k while the next range contains pc, too. */
  function Walk<T>(rs: seq<Range<T>>, pc: nat, k: nat): nat
    requires k < |rs|
    decreases |rs| - k
  {
    if k + 1 < |rs| && Contains(rs[k + 1], pc) then Walk(rs, pc, k + 1) else k
  }

  /** Search and walk can end at range k, or with nothing for k = -1. */
  ghost predicate Lands<T>(rs: seq<Range<T>>, pc: nat, k: int)
  {
    exists h :: Arrives(RangeSearcher(rs, pc), 0, |rs|, h) && k == Landing(rs, pc, h)
  }

  function Landing<T>(rs: seq<Range<T>>, pc: nat, h: int): int
  {
    if 0 <= h < |rs| then Walk(rs, pc, h) else -1
  }

  lemma {:induction false} WalkMatches<T>(rs: seq<Range<T>>, pc: nat, k: nat)
    requires k < |rs| && Contains(rs[k], pc)
    ensures k <= Walk(rs, pc, k) < |rs| && Contains(rs[Walk(rs, pc, k)], pc)
    ensures var w := Walk(rs, pc, k); w + 1 < |rs| ==> !Contains(rs[w + 1], pc)
    decreases |rs| - k
  {
    if k + 1 < |rs| && Contains(rs[k + 1], pc) { WalkMatches(rs, pc, k + 1); }
  }

  lemma {:induction false} WalkStops<T>(rs: seq<Range<T>>, pc: nat, k: nat, j: nat)
    requires k < j < |rs| && !Contains(rs[j], pc)
    ensures Walk(rs, pc, k) < j
    decreases |rs| - k
  {
    if k + 1 < |rs| && Contains(rs[k + 1], pc) { WalkStops(rs, pc, k + 1, j); }
  }

  /** Wherever the search ends, what is found contains pc. */
  lemma LandsOnMatch<T>(rs: seq<Range<T>>, pc: nat, k: int)
    requires Lands(rs, pc, k)
    ensures k == -1 || (0 <= k < |rs| && Contains(rs[k], pc))
  {
    hide Arrives, Walk;
    var h :| Arrives(RangeSearcher(rs, pc), 0, |rs|, h) && k == Landing(rs, pc, h);
    ArrivalFinds(RangeSearcher(rs, pc), 0, |rs|, h);
    if 0 <= h < |rs| { WalkMatches(rs, pc, h); }
  }

  /** Whichever match the search lands on, the walk ends at the last one. */
  lemma WalkEndsAtLast<T>(rs: seq<Range<T>>, pc: nat, k: nat)
    requires InOrder(rs) && NoneEndedInside(rs, pc) && k < |rs| && Contains(rs[k], pc)
    ensures IsLast(rs, pc, Walk(rs, pc, k))
  {
    hide Walk;
    WalkMatches(rs, pc, k);
    var w := Walk(rs, pc, k);
    forall i | w < i < |rs|
      ensures !Contains(rs[i], pc)
    {
      assert !Ended(rs[w + 1], pc);
      assert i > w + 1 ==> Before(rs[w + 1], rs[i]);
    }
  }

  lemma OrderedLandsRight<T>(rs: seq<Range<T>>, pc: nat, k: int)
    requires InOrder(rs) && NoneEndedInside(rs, pc) && Lands(rs, pc, k)
    ensures Right(rs, pc, k)
  {
    hide Arrives, Walk, Monotone, InOrder, NoneEndedInside, IsLast;
    var h :| Arrives(RangeSearcher(rs, pc), 0, |rs|, h) && k == Landing(rs, pc, h);
    ArrivalFinds(RangeSearcher(rs, pc), 0, |rs|, h);
    if 0 <= h < |rs| {
      WalkEndsAtLast(rs, pc, h);
    } else {
      OrderedIffNoneEnded(rs, pc);
      ArrivalMissesNone(RangeSearcher(rs, pc), 0, |rs|, |rs|);
      AllMissed(rs, pc);
    }
  }

  lemma AllMissed<T>(rs: seq<Range<T>>, pc: nat)
    requires forall i :: 0 <= i < |rs| ==> RangeSearcher(rs, pc)(i) != 0
    ensures NoneContain(rs, pc)
  {
    forall i | 0 <= i < |rs|
      ensures !Contains(rs[i], pc)
    {
      assert RangeSearcher(rs, pc)(i) != 0;
    }
  }

  /** A range that has ended behind one that holds pc can be looked at first, and the search then
      ends with nothing; or, if a match lies behind it, the walk from the first match stops short. */
  lemma EndedGoesWrong<T>(rs: seq<Range<T>>, pc: nat, i: nat, j: nat) returns (k: int)
    requires i < j < |rs| && Contains(rs[i], pc) && Ended(rs[j], pc)
    ensures Lands(rs, pc, k) && !Right(rs, pc, k)
  {
    var cmp, n := RangeSearcher(rs, pc), |rs|;
    if m :| j < m < n && Contains(rs[m], pc) {
      assert ArrivesVia(cmp, 0, n, i, i);
      assert Arrives(cmp, 0, n, i);
      WalkStops(rs, pc, i, j);
      k := Walk(rs, pc, i);
      WalkMatches(rs, pc, i);
      assert k == Landing(rs, pc, i);
    } else {
      forall m: nat | j + 1 <= m < n
        ensures cmp(m) != 0
      {
        assert !Contains(rs[m], pc);
      }
      NothingArrives(cmp, j + 1, n);
      assert ArrivesVia(cmp, 0, n, j, -1);
      assert Arrives(cmp, 0, n, -1);
      k := -1;
      assert k == Landing(rs, pc, -1);
    }
  }

  /** Every search, whatever entries it looks at, gives the right answer exactly when no range
      that holds pc comes before one that has ended. */
  lemma LookupRightIff<T>(rs: seq<Range<T>>, pc: nat)
    requires InOrder(rs)
    ensures (forall k :: Lands(rs, pc, k) ==> Right(rs, pc, k)) <==> NoneEndedInside(rs, pc)
  {
    hide Lands, Right;
    if NoneEndedInside(rs, pc) {
      forall k | Lands(rs, pc, k)
        ensures Right(rs, pc, k)
      {
        OrderedLandsRight(rs, pc, k);
      }
    } else {
      var i, j :| 0 <= i < j < |rs| && Contains(rs[i], pc) && Ended(rs[j], pc);
      var k := EndedGoesWrong(rs, pc, i, j);
    }
  }

  /** Find a range and walk forward. */
  method FindRange<T>(rs: seq<Range<T>>, pc: nat) returns (found: bool, k: nat)
    ensures Lands(rs, pc, if found then k else -1)
    ensures found ==> k < |rs| && Contains(rs[k], pc)
    ensures InOrder(rs) && NoneEndedInside(rs, pc) ==> Right(rs, pc, if found then k else -1)
  {
    hide Arrives, Monotone, InOrder, NoneEndedInside, IsLast, Right;
    k := Bsearch(RangeSearcher(rs, pc), |rs|);
    ghost var h := k;
    if k == |rs| {
      assert Landing(rs, pc, -1) == -1;
      found := false;
    } else {
      while k + 1 < |rs| && rs[k + 1].low <= pc < rs[k + 1].high
        invariant k < |rs| && Contains(rs[k], pc) && Walk(rs, pc, h) == Walk(rs, pc, k)
        decreases |rs| - k
      {
        k := k + 1;
      }
      assert Landing(rs, pc, h) == k;
      found := true;
    }
    if InOrder(rs) && NoneEndedInside(rs, pc) { OrderedLandsRight(rs, pc, if found then k else -1); }
  }

  // ----- nesting -----

  ghost predicate Nested<T>(rs: seq<Range<T>>)
  {
    forall i, j :: 0 <= i < j < |rs| ==>
      || rs[i].high <= rs[j].low || rs[j].high <= rs[i].low
      || (rs[i].low <= rs[j].low && rs[j].high <= rs[i].high)
      || (rs[j].low <= rs[i].low && rs[i].high <= rs[j].high)
  }

  /** For properly nested ranges the last match is a smallest one. */
  lemma LastIsSmallest<T>(rs: seq<Range<T>>, pc: nat, k: nat, i: nat)
    requires InOrder(rs) && Nested(rs) && IsLast(rs, pc, k) && i < |rs| && Contains(rs[i], pc)
    ensures rs[i].low <= rs[k].low && rs[k].high <= rs[i].high
  {
    if i < k { assert Before(rs[i], rs[k]); }
  }

  /** Without that condition a lookup can miss: an outer range and an inner one that has ended. */
  lemma EndedInnerHidesOuter(rs: seq<Range<int>>)
    requires rs == [Range(0, 100, 1), Range(10, 20, 2)]
    ensures InOrder(rs) && Nested(rs) && Contains(rs[0], 50) && Ended(rs[1], 50)
    ensures Lands(rs, 50, -1)
  {
    var cmp := RangeSearcher(rs, 50);
    assert cmp(1) == 1;
    assert ArrivesVia(cmp, 0, 2, 1, -1);
    assert Arrives(cmp, 0, 2, -1) && Landing(rs, 50, -1) == -1;
  }

  // ----- sort, search and walk together -----

  /** No range starts inside one that holds pc, at or before pc, and has ended there. */
  ghost predicate NoneEndedAmong<T(!new)>(all: multiset<Range<T>>, pc: nat)
  {
    forall a, b :: a in all && b in all && Contains(a, pc) && a.low <= b.low ==> !Ended(b, pc)
  }

  lemma AmongIsInside<T(!new)>(rs: seq<Range<T>>, pc: nat)
    requires InOrder(rs)
    ensures NoneEndedAmong(multiset(rs), pc) <==> NoneEndedInside(rs, pc)
  {
    if NoneEndedAmong(multiset(rs), pc) {
      forall i, j | 0 <= i < j < |rs| && Contains(rs[i], pc)
        ensures !Ended(rs[j], pc)
      {
        assert rs[i] in multiset(rs) && rs[j] in multiset(rs) && Before(rs[i], rs[j]);
      }
    }
    if NoneEndedInside(rs, pc) {
      forall a, b | a in multiset(rs) && b in multiset(rs) && Contains(a, pc) && a.low <= b.low
        ensures !Ended(b, pc)
      {
        EndedComesAfter(rs, pc, a, b);
      }
    }
  }

  lemma EndedComesAfter<T>(rs: seq<Range<T>>, pc: nat, a: Range<T>, b: Range<T>)
    requires InOrder(rs) && NoneEndedInside(rs, pc) && a in rs && b in rs && Contains(a, pc) && a.low <= b.low
    ensures !Ended(b, pc)
  {
    var i :| 0 <= i < |rs| && rs[i] == a;
    var j :| 0 <= j < |rs| && rs[j] == b;
    if j < i { assert Before(rs[j], rs[i]); }
  }

  /** Sort ranges and look a pc up in them.  Unless a range has ended inside one that holds pc, a
      range is found exactly when one contains pc, and of those it is the one that starts last and,
      of the ones that start there, a shortest. */
  method SortAndFind<T(!new)>(a: array<Range<T>>, tie: (T, T) -> int, pc: nat) returns (found: bool, k: nat)
    requires TotalPreorder(tie)
    modifies a
    ensures multiset(a[..]) == multiset(old(a[..])) && InOrder(a[..])
    ensures found ==> k < a.Length && Contains(a[k], pc)
    ensures NoneEndedAmong(multiset(old(a[..])), pc) ==>
              && (!found ==> forall r :: r in multiset(old(a[..])) ==> !Contains(r, pc))
              && (found ==> forall r :: r in multiset(old(a[..])) && Contains(r, pc) ==> Before(r, a[k]))
  {
    hide TotalPreorder, InOrder, NoneEndedAmong, NoneEndedInside, Right, Lands;
    SortRanges(a, tie);
    found, k := FindRange(a[..], pc);
    AmongIsInside(a[..], pc);
    if NoneEndedAmong(multiset(a[..]), pc) {
      if found { LastBeforeNone(a[..], pc, k); } else { NothingFound(a[..], pc); }
    }
  }

  lemma LastBeforeNone<T>(rs: seq<Range<T>>, pc: nat, k: nat)
    requires InOrder(rs) && Right(rs, pc, k)
    ensures k < |rs| && forall r :: r in multiset(rs) && Contains(r, pc) ==> Before(r, rs[k])
  {
    forall r | r in multiset(rs) && Contains(r, pc)
      ensures Before(r, rs[k])
    {
      var i :| 0 <= i < |rs| && rs[i] == r;
      assert i < k ==> Before(rs[i], rs[k]);
    }
  }

  lemma NothingFound<T>(rs: seq<Range<T>>, pc: nat)
    requires Right(rs, pc, -1)
    ensures forall r :: r in multiset(rs) ==> !Contains(r, pc)
  {
    forall r | r in multiset(rs)
      ensures !Contains(r, pc)
    {
      var i :| 0 <= i < |rs| && rs[i] == r;
    }
  }
}
