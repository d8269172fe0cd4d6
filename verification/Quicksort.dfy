/** The in-place quicksort that the symbol and line tables are sorted with. */
module Quicksort {
  import opened Bits

  /** What the comparison function must be: a total preorder, with consistent signs. */
  ghost predicate TotalPreorder<T(!new)>(cmp: (T, T) -> int)
  {
    && (forall x, y :: cmp(x, y) <= 0 <==> cmp(y, x) >= 0)
    && (forall x, y, z :: cmp(x, y) <= 0 && cmp(y, z) <= 0 ==> cmp(x, z) <= 0)
  }

  ghost predicate Sorted<T>(cmp: (T, T) -> int, s: seq<T>)
  {
    forall i, j :: 0 <= i < j < |s| ==> cmp(s[i], s[j]) <= 0
  }

  ghost predicate Below<T>(cmp: (T, T) -> int, s: seq<T>, t: seq<T>)
  {
    forall x, y :: x in s && y in t ==> cmp(x, y) <= 0
  }

  lemma PermIn<T>(s: seq<T>, t: seq<T>)
    requires multiset(s) == multiset(t)
    ensures forall x :: x in s <==> x in t
  {
    forall x
      ensures x in s <==> x in t
    {
      assert x in s <==> x in multiset(s);
      assert x in t <==> x in multiset(t);
    }
  }

  function Swapped<T>(s: seq<T>, i: nat, j: nat): (t: seq<T>)
    requires i < |s| && j < |s|
    ensures |t| == |s|
  {
    s[i := s[j]][j := s[i]]
  }

  method Swap<T>(a: array<T>, i: nat, j: nat)
    requires i < a.Length && j < a.Length
    modifies a
    ensures a[..] == Swapped(old(a[..]), i, j)
  {
    var t := a[i];
    a[i] := a[j];
    a[j] := t;
  }

  lemma SwapPerm<T>(s: seq<T>, i: nat, j: nat)
    requires i < |s| && j < |s|
    ensures multiset(Swapped(s, i, j)) == multiset(s)
  {
  }

  /** t is s with the part [lo, hi) permuted. */
  ghost predicate Rearranged<T>(s: seq<T>, t: seq<T>, lo: nat, hi: nat)
    requires lo <= hi <= |s|
  {
    && |t| == |s| && t[..lo] == s[..lo] && t[hi..] == s[hi..]
    && multiset(t[lo..hi]) == multiset(s[lo..hi])
  }

  lemma SwapSlice<T>(s: seq<T>, lo: nat, hi: nat, i: nat, j: nat)
    requires lo <= i < hi <= |s| && lo <= j < hi
    ensures Swapped(s, i, j)[..lo] == s[..lo] && Swapped(s, i, j)[hi..] == s[hi..]
    ensures Swapped(s, i, j)[lo..hi] == Swapped(s[lo..hi], i - lo, j - lo)
  {
  }

  lemma SwapRearranges<T>(s: seq<T>, lo: nat, hi: nat, i: nat, j: nat)
    requires lo <= i < hi <= |s| && lo <= j < hi
    ensures Rearranged(s, Swapped(s, i, j), lo, hi)
  {
    hide Swapped;
    SwapSlice(s, lo, hi, i, j);
    SwapPerm(s[lo..hi], i - lo, j - lo);
  }

  lemma RearrangedTrans<T>(s: seq<T>, t: seq<T>, u: seq<T>, lo: nat, hi: nat)
    requires lo <= hi <= |s| && Rearranged(s, t, lo, hi) && Rearranged(t, u, lo, hi)
    ensures Rearranged(s, u, lo, hi)
  {
  }

  /** Behind the pivot at lo: elements below it up to mid, the others up to i. */
  ghost predicate Split<T>(cmp: (T, T) -> int, s: seq<T>, lo: nat, mid: nat, i: nat)
  {
    && lo <= mid < i <= |s|
    && (forall k :: lo < k <= mid ==> cmp(s[lo], s[k]) > 0)
    && (forall k :: mid < k < i ==> cmp(s[lo], s[k]) <= 0)
  }

  lemma SplitMore<T>(cmp: (T, T) -> int, s: seq<T>, lo: nat, mid: nat, i: nat)
    requires Split(cmp, s, lo, mid, i) && i < |s|
    ensures cmp(s[lo], s[i]) > 0 ==> Split(cmp, Swapped(s, mid + 1, i), lo, mid + 1, i + 1)
    ensures cmp(s[lo], s[i]) <= 0 ==> Split(cmp, s, lo, mid, i + 1)
  {
  }

  lemma SplitDone<T(!new)>(cmp: (T, T) -> int, s: seq<T>, lo: nat, mid: nat, hi: nat)
    requires TotalPreorder(cmp) && Split(cmp, s, lo, mid, hi)
    ensures var t := Swapped(s, lo, mid);
            Below(cmp, t[lo..mid], [t[mid]]) && Below(cmp, [t[mid]], t[mid + 1..hi])
  {
    var t := Swapped(s, lo, mid);
    forall x, y | x in t[lo..mid] && y in [t[mid]]
      ensures cmp(x, y) <= 0
    {
      var k :| lo <= k < mid && t[k] == x;
      assert x == s[if k == lo then mid else k];
    }
    forall x, y | x in [t[mid]] && y in t[mid + 1..hi]
      ensures cmp(x, y) <= 0
    {
      var k :| mid + 1 <= k < hi && t[k] == y;
      assert t[k] == s[k];
    }
  }

  lemma SwapSame<T>(s: seq<T>, i: nat)
    requires i < |s|
    ensures Swapped(s, i, i) == s
  {
  }

  /** Partition the part [lo, hi) around its middle element, which ends up at mid. */
  method Partition<T(!new)>(a: array<T>, lo: nat, hi: nat, cmp: (T, T) -> int) returns (mid: nat)
    requires lo + 2 <= hi <= a.Length && TotalPreorder(cmp)
    modifies a
    ensures lo <= mid < hi && Rearranged(old(a[..]), a[..], lo, hi)
    ensures Below(cmp, a[lo..mid], [a[mid]]) && Below(cmp, [a[mid]], a[mid + 1..hi])
  {
    hide Rearranged, Below, Split, Swapped, TotalPreorder;
    ghost var s := a[..];
    SwapRearranges(a[..], lo, hi, lo, lo + (hi - lo) / 2);
    Swap(a, lo, lo + (hi - lo) / 2);
    mid := lo;
    var i := lo + 1;
    SplitStart(cmp, a[..], lo);
    while i < hi
      invariant lo <= mid < i <= hi && Split(cmp, a[..], lo, mid, i)
      invariant Rearranged(s, a[..], lo, hi)
    {
      SplitMore(cmp, a[..], lo, mid, i);
      if cmp(a[lo], a[i]) > 0 {
        mid := mid + 1;
        SwapSame(a[..], i);
        SwapRearranges(a[..], lo, hi, mid, i);
        RearrangedTrans(s, a[..], Swapped(a[..], mid, i), lo, hi);
        if i != mid {
          Swap(a, mid, i);
        }
      }
      i := i + 1;
    }
    SplitDone(cmp, a[..], lo, mid, hi);
    SwapSame(a[..], lo);
    SwapRearranges(a[..], lo, hi, lo, mid);
    RearrangedTrans(s, a[..], Swapped(a[..], lo, mid), lo, hi);
    ghost var t := Swapped(a[..], lo, mid);
    if mid > lo {
      Swap(a, lo, mid);
    }
    assert a[..] == t;
    assert a[lo..mid] == t[lo..mid] && a[mid + 1..hi] == t[mid + 1..hi];
  }

  lemma SplitStart<T>(cmp: (T, T) -> int, s: seq<T>, lo: nat)
    requires lo < |s|
    ensures Split(cmp, s, lo, lo, lo + 1)
  {
  }

  // ----- the tail-recursive loop -----

  lemma SortedConcat<T>(cmp: (T, T) -> int, s: seq<T>, t: seq<T>)
    requires Sorted(cmp, s) && Sorted(cmp, t) && Below(cmp, s, t)
    ensures Sorted(cmp, s + t)
  {
    forall i, j | 0 <= i < j < |s + t|
      ensures cmp((s + t)[i], (s + t)[j]) <= 0
    {
      if i < |s| <= j { assert s[i] in s && t[j - |s|] in t; }
    }
  }

  lemma BelowConcat<T>(cmp: (T, T) -> int, s: seq<T>, t: seq<T>, u: seq<T>)
    ensures Below(cmp, s + t, u) <==> Below(cmp, s, u) && Below(cmp, t, u)
    ensures Below(cmp, u, s + t) <==> Below(cmp, u, s) && Below(cmp, u, t)
  {
    assert forall x :: x in s + t <==> x in s || x in t;
  }

  lemma BelowThrough<T(!new)>(cmp: (T, T) -> int, s: seq<T>, p: T, t: seq<T>)
    requires TotalPreorder(cmp) && Below(cmp, s, [p]) && Below(cmp, [p], t)
    ensures Below(cmp, s, t)
  {
    forall x, y | x in s && y in t
      ensures cmp(x, y) <= 0
    {
      assert p in [p];
    }
  }

  lemma BelowPerm<T>(cmp: (T, T) -> int, s: seq<T>, s': seq<T>, t: seq<T>)
    requires multiset(s) == multiset(s')
    ensures Below(cmp, s, t) <==> Below(cmp, s', t)
    ensures Below(cmp, t, s) <==> Below(cmp, t, s')
  {
    PermIn(s, s');
  }

  /** In s[L..H]: what lies outside the window [lo, hi) is sorted and on the right side of it. */
  ghost predicate Outside<T>(cmp: (T, T) -> int, s: seq<T>, L: nat, lo: nat, hi: nat, H: nat)
  {
    && L <= lo <= hi <= H <= |s|
    && Sorted(cmp, s[L..lo]) && Sorted(cmp, s[hi..H])
    && Below(cmp, s[L..lo], s[lo..hi]) && Below(cmp, s[L..lo], s[hi..H]) && Below(cmp, s[lo..hi], s[hi..H])
  }

  lemma OutsidePerm<T>(cmp: (T, T) -> int, s: seq<T>, t: seq<T>, L: nat, lo: nat, hi: nat, H: nat)
    requires Outside(cmp, s, L, lo, hi, H) && Rearranged(s, t, lo, hi)
    ensures Outside(cmp, t, L, lo, hi, H)
  {
    hide Sorted, Below;
    RearrangedOuter(s, t, L, lo, hi, H);
    BelowPerm(cmp, s[lo..hi], t[lo..hi], s[L..lo]);
    BelowPerm(cmp, s[lo..hi], t[lo..hi], s[hi..H]);
  }

  lemma RearrangedOuter<T>(s: seq<T>, t: seq<T>, L: nat, lo: nat, hi: nat, H: nat)
    requires L <= lo <= hi <= H <= |s| && Rearranged(s, t, lo, hi)
    ensures t[L..lo] == s[L..lo] && t[hi..H] == s[hi..H]
  {
    assert t[L..lo] == t[..lo][L..];
    assert t[hi..H] == t[hi..][..H - hi];
    assert s[L..lo] == s[..lo][L..];
    assert s[hi..H] == s[hi..][..H - hi];
  }

  /** A partitioned window: left part, pivot, right part. */
  ghost predicate Partitioned<T>(cmp: (T, T) -> int, s: seq<T>, lo: nat, mid: nat, hi: nat)
  {
    && lo <= mid < hi <= |s|
    && Below(cmp, s[lo..mid], [s[mid]]) && Below(cmp, [s[mid]], s[mid + 1..hi])
  }

  lemma WindowParts<T>(cmp: (T, T) -> int, s: seq<T>, lo: nat, mid: nat, hi: nat, u: seq<T>)
    requires lo <= mid < hi <= |s|
    ensures Below(cmp, s[lo..hi], u) <==> Below(cmp, s[lo..mid], u) && Below(cmp, [s[mid]], u) && Below(cmp, s[mid + 1..hi], u)
    ensures Below(cmp, u, s[lo..hi]) <==> Below(cmp, u, s[lo..mid]) && Below(cmp, u, [s[mid]]) && Below(cmp, u, s[mid + 1..hi])
  {
    hide Below;
    assert s[lo..hi] == s[lo..mid] + [s[mid]] + s[mid + 1..hi];
    BelowConcat(cmp, s[lo..mid] + [s[mid]], s[mid + 1..hi], u);
    BelowConcat(cmp, s[lo..mid], [s[mid]], u);
  }

  /** With the left part sorted, the window shrinks to the right part. */
  lemma OutsideLeft<T(!new)>(cmp: (T, T) -> int, s: seq<T>, L: nat, lo: nat, mid: nat, hi: nat, H: nat)
    requires TotalPreorder(cmp) && Outside(cmp, s, L, lo, hi, H) && Partitioned(cmp, s, lo, mid, hi)
    requires Sorted(cmp, s[lo..mid])
    ensures Outside(cmp, s, L, mid + 1, hi, H)
  {
    hide Sorted, Below, TotalPreorder;
    var A, W, p, R, B := s[L..lo], s[lo..mid], [s[mid]], s[mid + 1..hi], s[hi..H];
    WindowParts(cmp, s, lo, mid, hi, A);
    WindowParts(cmp, s, lo, mid, hi, B);
    BelowThrough(cmp, W, s[mid], R);
    assert s[L..mid + 1] == A + (W + p);
    SortedOne(cmp, s[mid]);
    SortedConcat(cmp, W, p);
    BelowConcat(cmp, W, p, A);
    SortedConcat(cmp, A, W + p);
    BelowConcat(cmp, W, p, R);
    BelowConcat(cmp, W, p, B);
    BelowConcat(cmp, A, W + p, R);
    BelowConcat(cmp, A, W + p, B);
  }

  /** With the right part sorted, the window shrinks to the left part. */
  lemma OutsideRight<T(!new)>(cmp: (T, T) -> int, s: seq<T>, L: nat, lo: nat, mid: nat, hi: nat, H: nat)
    requires TotalPreorder(cmp) && Outside(cmp, s, L, lo, hi, H) && Partitioned(cmp, s, lo, mid, hi)
    requires Sorted(cmp, s[mid + 1..hi])
    ensures Outside(cmp, s, L, lo, mid, H)
  {
    hide Sorted, Below, TotalPreorder;
    var A, W, p, R, B := s[L..lo], s[lo..mid], [s[mid]], s[mid + 1..hi], s[hi..H];
    WindowParts(cmp, s, lo, mid, hi, A);
    WindowParts(cmp, s, lo, mid, hi, B);
    BelowThrough(cmp, W, s[mid], R);
    assert s[mid..H] == p + (R + B);
    SortedConcat(cmp, R, B);
    SortedOne(cmp, s[mid]);
    BelowConcat(cmp, R, B, p);
    SortedConcat(cmp, p, R + B);
    BelowConcat(cmp, R, B, A);
    BelowConcat(cmp, R, B, W);
    BelowConcat(cmp, p, R + B, A);
    BelowConcat(cmp, p, R + B, W);
  }

  lemma SortedOne<T>(cmp: (T, T) -> int, x: T)
    ensures Sorted(cmp, [x])
  {
  }

  lemma ThreeParts<T>(s: seq<T>, L: nat, lo: nat, hi: nat, H: nat)
    requires L <= lo <= hi <= H <= |s|
    ensures s[L..H] == s[L..lo] + (s[lo..hi] + s[hi..H])
  {
    assert s[L..H] == s[L..lo] + s[lo..H];
    assert s[lo..H] == s[lo..hi] + s[hi..H];
  }

  lemma OutsideDone<T>(cmp: (T, T) -> int, s: seq<T>, L: nat, lo: nat, hi: nat, H: nat)
    requires Outside(cmp, s, L, lo, hi, H) && hi < lo + 2
    ensures Sorted(cmp, s[L..H])
  {
    ThreeParts(s, L, lo, hi, H);
    assert Sorted(cmp, s[lo..hi]);
    SortedConcat(cmp, s[lo..hi], s[hi..H]);
    BelowConcat(cmp, s[lo..hi], s[hi..H], s[L..lo]);
    SortedConcat(cmp, s[L..lo], s[lo..hi] + s[hi..H]);
  }

  lemma RearrangedPart<T>(s: seq<T>, t: seq<T>, u: seq<T>, L: nat, lo: nat, hi: nat, H: nat)
    requires L <= lo <= hi <= H <= |s| && Rearranged(s, t, L, H) && Rearranged(t, u, lo, hi)
    ensures Rearranged(s, u, L, H)
  {
    assert |u| == |s|;
    assert t[L..H] == t[L..lo] + t[lo..hi] + t[hi..H];
    assert u[L..H] == u[L..lo] + u[lo..hi] + u[hi..H];
    RearrangedOuter(t, u, L, lo, hi, H);
    assert u[..L] == u[..lo][..L] && t[..L] == t[..lo][..L];
    assert u[H..] == u[hi..][H - hi..] && t[H..] == t[hi..][H - hi..];
  }

  lemma PartitionedPerm<T>(cmp: (T, T) -> int, s: seq<T>, t: seq<T>, lo: nat, mid: nat, hi: nat, a: nat, b: nat)
    requires Partitioned(cmp, s, lo, mid, hi) && ((a == lo && b == mid) || (a == mid + 1 && b == hi)) && Rearranged(s, t, a, b)
    ensures Partitioned(cmp, t, lo, mid, hi) && Rearranged(s, t, lo, hi)
  {
    hide Below;
    RearrangedPart(s, s, t, lo, a, b, hi);
    RearrangedOuter(s, t, lo, a, b, hi);
    if a == lo {
      assert t[mid..hi] == s[mid..hi];
      assert t[mid + 1..hi] == t[mid..hi][1..] && s[mid + 1..hi] == s[mid..hi][1..];
      assert t[mid] == t[mid..hi][0] && s[mid] == s[mid..hi][0];
      BelowPerm(cmp, s[lo..mid], t[lo..mid], [s[mid]]);
    } else {
      assert t[lo..mid + 1] == s[lo..mid + 1];
      assert t[lo..mid] == t[lo..mid + 1][..mid - lo] && s[lo..mid] == s[lo..mid + 1][..mid - lo];
      assert t[mid] == t[lo..mid + 1][mid - lo] && s[mid] == s[lo..mid + 1][mid - lo];
      BelowPerm(cmp, s[mid + 1..hi], t[mid + 1..hi], [s[mid]]);
    }
  }

  /** Recursion this deep happens only on at least half that power of two of elements. */
  ghost predicate DepthOk(depth: nat, n: nat)
  {
    depth == 1 || Pow2(depth) <= 2 * n
  }

  lemma DepthStep(d: nat, m: nat, n: nat)
    requires DepthOk(d, m) && d >= 1 && 2 * m < n && n >= 2
    ensures DepthOk(d + 1, n)
  {
  }

  /** Sort a[L..H] in place: a sorted permutation, nothing else touched, and a recursion depth of
      at most floor(log2(H - L)) + 1. */
  method Qsort<T(!new)>(a: array<T>, L: nat, H: nat, cmp: (T, T) -> int) returns (ghost depth: nat)
    requires L <= H <= a.Length && TotalPreorder(cmp)
    modifies a
    ensures Rearranged(old(a[..]), a[..], L, H) && Sorted(cmp, a[L..H])
    ensures depth >= 1 && DepthOk(depth, H - L)
    decreases H - L
  {
    hide Rearranged, Below, Sorted, TotalPreorder, Outside, Partitioned, DepthOk;
    ghost var s := a[..];
    var lo, hi := L, H;
    depth := 1;
    DepthStart(H - L);
    OutsideStart(cmp, s, L, H);
    while hi - lo >= 2
      invariant L <= lo <= hi <= H && Rearranged(s, a[..], L, H) && Outside(cmp, a[..], L, lo, hi, H)
      invariant depth >= 1 && DepthOk(depth, H - L)
      decreases hi - lo
    {
      ghost var t := a[..];
      var mid := Partition(a, lo, hi, cmp);
      RearrangedPart(s, t, a[..], L, lo, hi, H);
      OutsidePerm(cmp, t, a[..], L, lo, hi, H);
      PartitionedIntro(cmp, a[..], lo, mid, hi);
      ghost var u, d := a[..], 0;
      if 2 * (mid - lo) < hi - lo {
        d := Qsort(a, lo, mid, cmp);
        PartitionedPerm(cmp, u, a[..], lo, mid, hi, lo, mid);
        OutsidePerm(cmp, u, a[..], L, lo, hi, H);
        OutsideLeft(cmp, a[..], L, lo, mid, hi, H);
        DepthStep(d, mid - lo, hi - lo);
      } else {
        d := Qsort(a, mid + 1, hi, cmp);
        PartitionedPerm(cmp, u, a[..], lo, mid, hi, mid + 1, hi);
        OutsidePerm(cmp, u, a[..], L, lo, hi, H);
        OutsideRight(cmp, a[..], L, lo, mid, hi, H);
        DepthStep(d, hi - mid - 1, hi - lo);
      }
      RearrangedPart(s, u, a[..], L, lo, hi, H);
      DepthMax(depth, d + 1, hi - lo, H - L);
      depth := if d + 1 > depth then d + 1 else depth;
      if 2 * (mid - lo) < hi - lo {
        lo := mid + 1;
      } else {
        hi := mid;
      }
    }
    OutsideDone(cmp, a[..], L, lo, hi, H);
  }

  lemma DepthStart(n: nat)
    ensures DepthOk(1, n)
  {
  }

  lemma DepthMax(d: nat, e: nat, n: nat, N: nat)
    requires DepthOk(d, N) && DepthOk(e, n) && n <= N
    ensures DepthOk(e, N)
  {
  }

  lemma OutsideStart<T>(cmp: (T, T) -> int, s: seq<T>, L: nat, H: nat)
    requires L <= H <= |s|
    ensures Outside(cmp, s, L, L, H, H) && Rearranged(s, s, L, H)
  {
  }

  lemma PartitionedIntro<T>(cmp: (T, T) -> int, s: seq<T>, lo: nat, mid: nat, hi: nat)
    requires lo <= mid < hi <= |s| && Below(cmp, s[lo..mid], [s[mid]]) && Below(cmp, [s[mid]], s[mid + 1..hi])
    ensures Partitioned(cmp, s, lo, mid, hi)
  {
  }
}
