/** The free-list policy of the allocator on values: which blocks are free, which are owned by
    clients, which addresses are mapped, and what every step keeps. */
module FreeList {

  datatype Block = Block(addr: int, size: nat)

  const MAX_FREE: nat := 16
  const HEADER: nat := 16

  ghost predicate Apart(a: Block, b: Block)
  {
    a.size == 0 || b.size == 0 || a.addr + a.size <= b.addr || b.addr + b.size <= a.addr
  }

  ghost predicate Within(a: Block, b: Block)
  {
    b.addr <= a.addr && a.addr + a.size <= b.addr + b.size
  }

  /** Free blocks in list order, blocks owned by clients, and the mapped addresses. */
  datatype State = State(free: seq<Block>, live: set<Block>, mapped: iset<int>)

  ghost predicate InBlock(a: int, b: Block)
  {
    b.addr <= a < b.addr + b.size
  }

  ghost predicate Mapped(mapped: iset<int>, b: Block)
  {
    forall a :: InBlock(a, b) ==> a in mapped
  }

  ghost predicate BlockOk(s: State, b: Block)
  {
    b.addr > 0 && b.addr % 8 == 0 && Mapped(s.mapped, b)
  }

  ghost predicate Inv(s: State)
  {
    && |s.free| <= MAX_FREE
    && (forall i :: 0 <= i < |s.free| ==> s.free[i].size >= HEADER && BlockOk(s, s.free[i]))
    && (forall b :: b in s.live ==> BlockOk(s, b))
    && (forall i, j :: 0 <= i < j < |s.free| ==> Apart(s.free[i], s.free[j]))
    && (forall i, b :: 0 <= i < |s.free| && b in s.live ==> Apart(s.free[i], b))
    && (forall b, c :: b in s.live && c in s.live && b != c ==> Apart(b, c))
  }

  /** b could be put on the free list or handed out. */
  ghost predicate Loose(s: State, b: Block)
  {
    && BlockOk(s, b)
    && (forall i :: 0 <= i < |s.free| ==> Apart(s.free[i], b))
    && (forall c :: c in s.live ==> Apart(c, b))
  }

  /** Position of the first block of least size. */
  function Smallest(free: seq<Block>): (k: nat)
    requires |free| > 0
    ensures k < |free|
    ensures forall i :: 0 <= i < |free| ==> free[k].size <= free[i].size
    ensures forall i :: 0 <= i < k ==> free[k].size < free[i].size
  {
    if |free| == 1 then 0
    else
      var k := Smallest(free[..|free| - 1]);
      if free[|free| - 1].size < free[k].size then |free| - 1 else k
  }

  function Remove(free: seq<Block>, k: nat): seq<Block>
    requires k < |free|
  {
    free[..k] + free[k + 1..]
  }

  /** Leak small blocks; keep at most 16, leaking the smallest when there would be more. */
  function Put(free: seq<Block>, b: Block): seq<Block>
  {
    if b.size < HEADER then free
    else if |free| < MAX_FREE then [b] + free
    else if b.size <= free[Smallest(free)].size then free
    else [b] + Remove(free, Smallest(free))
  }

  function Round8(n: nat): nat
  {
    (n + 7) / 8 * 8
  }

  lemma Round8Bounds(n: nat)
    ensures n <= Round8(n) < n + 8 && Round8(n) % 8 == 0
  {}

  /** First free block of at least n bytes, or -1. */
  function FirstFit(free: seq<Block>, n: nat): (k: int)
    ensures -1 <= k < |free|
    ensures k >= 0 ==> free[k].size >= n && forall i :: 0 <= i < k ==> free[i].size < n
    ensures k < 0 ==> forall i :: 0 <= i < |free| ==> free[i].size < n
  {
    if free == [] then -1
    else if free[0].size >= n then 0
    else
      var k := FirstFit(free[1..], n);
      if k < 0 then -1 else k + 1
  }

  function Rest(b: Block, n: nat): Block
    requires Round8(n) < b.size
  {
    Block(b.addr + Round8(n), b.size - Round8(n))
  }

  /** The free list after block k has been taken for n bytes. */
  function Taken(free: seq<Block>, k: nat, n: nat): seq<Block>
    requires k < |free|
  {
    if Round8(n) < free[k].size then Put(Remove(free, k), Rest(free[k], n)) else Remove(free, k)
  }

  // ----- what becomes of the bytes -----

  /** Blocks of 16 bytes or more go to the front of the list while it has room; smaller ones are leaked. */
  lemma PutKeepsBlock(free: seq<Block>, b: Block)
    requires |free| < MAX_FREE
    ensures b.size >= HEADER ==> Put(free, b) == [b] + free && multiset(Put(free, b)) == multiset(free) + multiset{b}
    ensures b.size < HEADER ==> Put(free, b) == free
  {
    assert multiset([b] + free) == multiset{b} + multiset(free);
  }

  /** A full list loses exactly one block, one of least size among its own and the new one. */
  lemma PutLosesSmallest(free: seq<Block>, b: Block) returns (lost: Block)
    requires |free| == MAX_FREE && b.size >= HEADER
    ensures multiset(Put(free, b)) + multiset{lost} == multiset(free) + multiset{b}
    ensures lost.size <= b.size && forall x :: x in free ==> lost.size <= x.size
    ensures lost == b || (Put(free, b) != [] && Put(free, b)[0] == b)
  {
    var k := Smallest(free);
    if b.size <= free[k].size {
      lost := b;
    } else {
      lost := free[k];
      RemoveOne(free, k);
    }
  }

  lemma RemoveOne(free: seq<Block>, k: nat)
    requires k < |free|
    ensures multiset(Remove(free, k)) + multiset{free[k]} == multiset(free)
  {
    assert free == free[..k] + [free[k]] + free[k + 1..];
  }

  /** A block that was just freed serves the next request that fits in it. */
  lemma FreedIsFirst(free: seq<Block>, b: Block, n: nat)
    requires |free| < MAX_FREE && b.size >= HEADER && n <= b.size
    ensures FirstFit(Put(free, b), n) == 0
  {
    PutKeepsBlock(free, b);
  }

  ghost function Bytes(free: seq<Block>): nat
  {
    if free == [] then 0 else free[0].size + Bytes(free[1..])
  }

  lemma {:induction false} BytesRemove(free: seq<Block>, k: nat)
    requires k < |free|
    ensures Bytes(Remove(free, k)) + free[k].size == Bytes(free)
  {
    if k == 0 {
      assert Remove(free, 0) == free[1..];
    } else {
      assert Remove(free, k)[1..] == Remove(free[1..], k - 1);
      BytesRemove(free[1..], k - 1);
    }
  }

  /** Taking n bytes costs the list those bytes, rounded up to whole words; what is left of the block stays
      at the front unless it is less than a header. */
  lemma TakeConserves(free: seq<Block>, k: nat, n: nat)
    requires k < |free| <= MAX_FREE
    ensures var left := free[k].size - Round8(n);
            if left >= HEADER then
              && Taken(free, k, n) == [Block(free[k].addr + Round8(n), left)] + Remove(free, k)
              && Bytes(Taken(free, k, n)) + Round8(n) == Bytes(free)
            else
              Taken(free, k, n) == Remove(free, k) && Bytes(Taken(free, k, n)) + free[k].size == Bytes(free)
  {
    hide Round8, Taken, Bytes, Remove;
    BytesRemove(free, k);
    TakenIs(free, k, n);
    if free[k].size - Round8(n) >= HEADER {
      BytesFront(Block(free[k].addr + Round8(n), free[k].size - Round8(n)), Remove(free, k));
    }
  }

  lemma BytesFront(b: Block, free: seq<Block>)
    ensures Bytes([b] + free) == b.size + Bytes(free)
  {
    assert ([b] + free)[1..] == free;
  }

  lemma TakenIs(free: seq<Block>, k: nat, n: nat)
    requires k < |free| <= MAX_FREE
    ensures var left := free[k].size - Round8(n);
            Taken(free, k, n) == if left >= HEADER then [Block(free[k].addr + Round8(n), left)] + Remove(free, k) else Remove(free, k)
  {
    hide Round8, Put, Remove;
    RemoveLength(free, k);
    if Round8(n) < free[k].size { PutKeepsBlock(Remove(free, k), Rest(free[k], n)); }
  }

  // ----- what every step keeps -----

  lemma RemoveKeeps(s: State, k: nat)
    requires Inv(s) && k < |s.free|
    ensures Inv(s.(free := Remove(s.free, k))) && Loose(s.(free := Remove(s.free, k)), s.free[k])
  {
  }

  lemma PushKeepsInv(s: State, b: Block)
    requires Inv(s) && Loose(s, b) && b.size >= HEADER && |s.free| < MAX_FREE
    ensures Inv(s.(free := [b] + s.free))
  {
    var free := [b] + s.free;
    assert forall i :: 1 <= i < |free| ==> free[i] == s.free[i - 1];
  }

  lemma LooseWithout(s: State, b: Block, k: nat)
    requires Loose(s, b) && k < |s.free|
    ensures Loose(s.(free := Remove(s.free, k)), b)
  {
  }

  lemma PutKeeps(s: State, b: Block)
    requires Inv(s) && Loose(s, b)
    ensures Inv(s.(free := Put(s.free, b)))
  {
    hide Inv, Loose, Remove;
    FewFree(s);
    if b.size >= HEADER && |s.free| == MAX_FREE {
      RemoveKeeps(s, Smallest(s.free));
      LooseWithout(s, b, Smallest(s.free));
      RemoveLength(s.free, Smallest(s.free));
      PushKeepsInv(s.(free := Remove(s.free, Smallest(s.free))), b);
    } else if b.size >= HEADER {
      PushKeepsInv(s, b);
    }
  }

  lemma RemoveLength(free: seq<Block>, k: nat)
    requires k < |free|
    ensures |Remove(free, k)| == |free| - 1
  {}

  lemma FewFree(s: State)
    requires Inv(s)
    ensures |s.free| <= MAX_FREE
  {
  }

  lemma FreeKeeps(s: State, b: Block)
    requires Inv(s) && b in s.live
    ensures var s1 := s.(live := s.live - {b});
            Loose(s1, b) && Inv(s1.(free := Put(s1.free, b)))
  {
    var s1 := s.(live := s.live - {b});
    assert Loose(s1, b);
    PutKeeps(s1, b);
  }

  /** Handing out part of a loose block and putting the rest on the free list. */
  lemma CarveKeeps(s: State, b: Block, n: nat)
    requires Inv(s) && Loose(s, b) && n <= b.size
    ensures var s1 := s.(live := s.live + {Block(b.addr, n)});
            Inv(s1) && (Round8(n) < b.size ==> Loose(s1, Rest(b, n)) && Inv(s1.(free := Put(s1.free, Rest(b, n)))))
  {
    var c := Block(b.addr, n);
    var s1 := s.(live := s.live + {c});
    assert forall x :: Apart(x, b) ==> Apart(x, c);
    if Round8(n) < b.size {
      var r := Rest(b, n);
      assert forall x :: Apart(x, b) ==> Apart(x, r);
      assert Loose(s1, r);
      PutKeeps(s1, r);
    }
  }

  lemma TakeKeeps(s: State, k: nat, n: nat)
    requires Inv(s) && k < |s.free| && n <= s.free[k].size
    ensures Inv(State(Taken(s.free, k, n), s.live + {Block(s.free[k].addr, n)}, s.mapped))
  {
    RemoveKeeps(s, k);
    CarveKeeps(s.(free := Remove(s.free, k)), s.free[k], n);
  }

  /** A client may give up part of what it owns, or divide it. */
  lemma ReplaceKeeps(s: State, b: Block, parts: set<Block>)
    requires Inv(s) && b in s.live
    requires forall p :: p in parts ==> Within(p, b) && p.addr % 8 == 0
    requires forall p, q :: p in parts && q in parts && p != q ==> Apart(p, q)
    ensures Inv(s.(live := s.live - {b} + parts))
  {
    forall p, x | p in parts && Apart(x, b)
      ensures Apart(x, p)
    {
    }
  }

  // ----- whole runs -----

  ghost function Range(b: Block): iset<int>
  {
    iset a | InBlock(a, b)
  }

  /** A new page region: mapped now, not mapped before. */
  ghost predicate Fresh(s: State, b: Block)
  {
    b.addr > 0 && b.addr % 8 == 0 && forall a :: InBlock(a, b) ==> a !in s.mapped
  }

  ghost function MapPage(s: State, b: Block): State
  {
    s.(mapped := s.mapped + Range(b))
  }

  lemma SharedAddress(b: Block, c: Block) returns (a: int)
    requires !Apart(b, c)
    ensures InBlock(a, b) && InBlock(a, c)
  {
    a := if c.addr <= b.addr then b.addr else c.addr;
  }

  lemma MapKeeps(s: State, b: Block)
    requires Inv(s) && Fresh(s, b)
    ensures Inv(MapPage(s, b)) && Loose(MapPage(s, b), b)
  {
    var s1 := MapPage(s, b);
    forall c | BlockOk(s, c)
      ensures BlockOk(s1, c) && Apart(c, b)
    {
      if !Apart(c, b) {
        var a := SharedAddress(c, b);
      }
    }
  }

  /** Handing out n bytes of a new page region. */
  ghost function FromPage(s: State, b: Block, n: nat): State
  {
    var s1 := MapPage(s, b);
    var live := s1.live + {Block(b.addr, n)};
    State(if Round8(n) < b.size then Put(s1.free, Rest(b, n)) else s1.free, live, s1.mapped)
  }

  lemma FromPageKeeps(s: State, b: Block, n: nat)
    requires Inv(s) && Fresh(s, b) && n <= b.size
    ensures Inv(FromPage(s, b, n))
  {
    MapKeeps(s, b);
    CarveKeeps(MapPage(s, b), b, n);
  }

  ghost function Unmap(s: State, b: Block): State
  {
    State(s.free, s.live - {b}, s.mapped - Range(b))
  }

  lemma UnmapLooseKeeps(s: State, b: Block)
    requires Inv(s) && Loose(s, b)
    ensures Inv(s.(mapped := s.mapped - Range(b)))
  {
    forall c | BlockOk(s, c) && Apart(c, b)
      ensures BlockOk(s.(mapped := s.mapped - Range(b)), c)
    {
    }
  }

  lemma UnmapKeeps(s: State, b: Block)
    requires Inv(s) && b in s.live
    ensures Inv(Unmap(s, b))
  {
    FreeKeeps(s, b);
    UnmapLooseKeeps(s.(live := s.live - {b}), b);
  }

  /** What the allocator and its clients can do. */
  datatype Step =
    | Take(n: nat)                          // allocation served from the free list
    | Page(region: Block, n: nat)           // allocation served from a new page region
    | Release(b: Block)                     // free, onto the list or leaked
    | GiveBack(b: Block)                    // free of a large aligned block, returned to the system
    | Replace(b: Block, parts: set<Block>)  // a client divides or shrinks a block it owns

  ghost predicate Can(s: State, step: Step)
  {
    match step
    case Take(n) => FirstFit(s.free, n) >= 0
    case Page(region, n) => FirstFit(s.free, n) < 0 && Fresh(s, region) && n <= region.size
    case Release(b) => b in s.live
    case GiveBack(b) => b in s.live
    case Replace(b, parts) =>
      && b in s.live
      && (forall p :: p in parts ==> Within(p, b) && p.addr % 8 == 0)
      && (forall p, q :: p in parts && q in parts && p != q ==> Apart(p, q))
  }

  ghost function After(s: State, step: Step): State
    requires Can(s, step)
  {
    match step
    case Take(n) =>
      var k := FirstFit(s.free, n);
      State(Taken(s.free, k, n), s.live + {Block(s.free[k].addr, n)}, s.mapped)
    case Page(region, n) => FromPage(s, region, n)
    case Release(b) => State(Put(s.free, b), s.live - {b}, s.mapped)
    case GiveBack(b) => Unmap(s, b)
    case Replace(b, parts) => s.(live := s.live - {b} + parts)
  }

  lemma StepKeeps(s: State, step: Step)
    requires Inv(s) && Can(s, step)
    ensures Inv(After(s, step))
  {
    match step
    case Take(n) => TakeKeeps(s, FirstFit(s.free, n), n);
    case Page(region, n) => FromPageKeeps(s, region, n);
    case Release(b) => FreeKeeps(s, b);
    case GiveBack(b) => UnmapKeeps(s, b);
    case Replace(b, parts) => ReplaceKeeps(s, b, parts);
  }

  ghost predicate IsRun(start: State, steps: seq<Step>)
    decreases |steps|
  {
    steps == [] || (Can(start, steps[0]) && IsRun(After(start, steps[0]), steps[1..]))
  }

  ghost function Final(start: State, steps: seq<Step>): State
    requires IsRun(start, steps)
    decreases |steps|
  {
    if steps == [] then start else Final(After(start, steps[0]), steps[1..])
  }

  /** Whatever is allocated, freed, unmapped and divided, in any order: live and free blocks stay
      pairwise disjoint, aligned and mapped, and the free list stays short. */
  lemma {:induction false} RunKeeps(start: State, steps: seq<Step>)
    requires Inv(start) && IsRun(start, steps)
    ensures Inv(Final(start, steps))
    decreases |steps|
  {
    if steps != [] {
      hide Inv, Can;
      StepKeeps(start, steps[0]);
      RunKeeps(After(start, steps[0]), steps[1..]);
    }
  }

  /** Some run of steps leads from s to s'. */
  ghost predicate Reaches(s: State, s': State)
  {
    exists steps :: IsRun(s, steps) && Final(s, steps) == s'
  }

  lemma ReachesSelf(s: State)
    ensures Reaches(s, s)
  {
    assert IsRun(s, []) && Final(s, []) == s;
  }

  lemma ReachesStep(s: State, step: Step)
    requires Can(s, step)
    ensures Reaches(s, After(s, step))
  {
    hide Can, After;
    var s1 := After(s, step);
    assert [step][1..] == [];
    assert IsRun(s1, []);
    assert IsRun(s, [step]) && Final(s, [step]) == s1;
  }

  lemma {:induction false} RunConcat(s: State, a: seq<Step>, b: seq<Step>)
    requires IsRun(s, a) && IsRun(Final(s, a), b)
    ensures IsRun(s, a + b) && Final(s, a + b) == Final(Final(s, a), b)
    decreases |a|
  {
    hide Can, After;
    if a == [] {
      assert a + b == b;
    } else {
      assert (a + b)[1..] == a[1..] + b;
      RunConcat(After(s, a[0]), a[1..], b);
    }
  }

  lemma ReachesTrans(s: State, s1: State, s2: State)
    requires Reaches(s, s1) && Reaches(s1, s2)
    ensures Reaches(s, s2)
  {
    hide IsRun, Final;
    var a :| IsRun(s, a) && Final(s, a) == s1;
    var b :| IsRun(s1, b) && Final(s1, b) == s2;
    RunConcat(s, a, b);
  }

  lemma EmptyStart(mapped: iset<int>)
    ensures Inv(State([], {}, mapped))
  {
  }
}
