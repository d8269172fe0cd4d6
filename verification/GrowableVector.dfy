/** Growable vectors on top of the allocator: growing keeps the contents, finishing hands the
    contents out, releasing returns the spare room. */
module GrowableVector {
  import opened FreeList
  import opened Allocator
  import opened Modular

  /** How much a vector of `size` bytes reserves when it needs n more. */
  function GrowTo(size: nat, n: nat, pagesize: nat): nat
    requires pagesize > 0
  {
    if size == 0 then 16 * n
    else if size + n < pagesize then (if 2 * (size + n) > pagesize then pagesize else 2 * (size + n))
    else RoundUp(2 * (size + n), pagesize)
  }

  lemma GrowEnough(size: nat, n: nat, pagesize: nat)
    requires pagesize > 0
    ensures GrowTo(size, n, pagesize) >= size + n
  {
    hide RoundUp;
    RoundUpBounds(2 * (size + n), pagesize);
  }

  /** Sixteen elements to begin with, then at least twice what is needed, except that a vector within a page
      takes at most the page; from a page on, whole pages. */
  lemma GrowDoubles(size: nat, n: nat, pagesize: nat)
    requires pagesize > 0
    ensures size == 0 ==> GrowTo(size, n, pagesize) == 16 * n
    ensures size > 0 && size + n < pagesize ==>
              GrowTo(size, n, pagesize) <= pagesize && (GrowTo(size, n, pagesize) >= 2 * (size + n) || GrowTo(size, n, pagesize) == pagesize)
    ensures size > 0 && size + n >= pagesize ==>
              GrowTo(size, n, pagesize) % pagesize == 0 && 2 * (size + n) <= GrowTo(size, n, pagesize) < 2 * (size + n) + pagesize
  {
    hide RoundUp;
    RoundUpBounds(2 * (size + n), pagesize);
    RoundUpWhole(2 * (size + n), pagesize);
  }

  lemma RoundUpWhole(n: nat, unit: nat)
    requires unit > 0
    ensures RoundUp(n, unit) % unit == 0
  {
    var q := (n + unit - 1) / unit;
    assert RoundUp(n, unit) == unit * q;
    MulMod(q, unit);
  }

  /** The words of [dst, dst + n) in m' are those of [src, src + n) in m. */
  ghost predicate Copied(m: Memory, m': Memory, src: int, dst: int, n: int)
    requires Total(m) && Total(m')
  {
    forall i :: 0 <= i < n && i % 8 == 0 ==> m'[dst + i] == m[src + i]
  }

  ghost predicate ElsewhereSame(m: Memory, m': Memory, dst: int, n: int)
    requires Total(m) && Total(m')
  {
    forall a :: !(dst <= a < dst + n) ==> m'[a] == m[a]
  }

  lemma CopyNothing(m: Memory, src: int, dst: int)
    requires Total(m)
    ensures Copied(m, m, src, dst, 0) && ElsewhereSame(m, m, dst, 0)
  {}

  lemma CopyStep(m0: Memory, m: Memory, src: int, dst: int, i: nat, n: nat)
    requires Total(m0) && Total(m) && i % 8 == 0 && i < n && Apart(Block(src, n), Block(dst, n))
    requires Copied(m0, m, src, dst, i) && ElsewhereSame(m0, m, dst, i)
    ensures var m' := m[dst + i := m[src + i]];
            Total(m') && Copied(m0, m', src, dst, i + 8) && ElsewhereSame(m0, m', dst, i + 8)
  {
    assert m[src + i] == m0[src + i];
    var m' := m[dst + i := m[src + i]];
    forall j | 0 <= j < i + 8 && j % 8 == 0
      ensures m'[dst + j] == m0[src + j]
    {
      assert j != i ==> j < i;
    }
  }

  /** memcpy of whole words into a block the client owns. */
  method CopyWords(st: BacktraceState, dst: int, src: int, n: nat, ghost b: Block)
    requires st.Valid() && b in st.s.live && b.addr == dst && n <= b.size && dst % 8 == 0 && n % 8 == 0
    requires Apart(Block(src, n), Block(dst, n))
    modifies st`mem
    ensures st.Valid() && Copied(old(st.mem), st.mem, src, dst, n) && ElsewhereSame(old(st.mem), st.mem, dst, n)
  {
    hide Inv, Linked, Copied, ElsewhereSame, Apart, InBlock;
    var i := 0;
    CopyNothing(st.mem, src, dst);
    while i < n
      invariant 0 <= i <= n && i % 8 == 0 && st.Valid()
      invariant Copied(old(st.mem), st.mem, src, dst, i) && ElsewhereSame(old(st.mem), st.mem, dst, i)
    {
      WordInside(b, i, n);
      CopyStep(old(st.mem), st.mem, src, dst, i, n);
      st.Write(dst + i, st.mem[src + i], b);
      i := i + 8;
    }
  }

  lemma CopyKeepsOthers(m: Memory, m': Memory, dst: int, n: nat, size: nat, live: set<Block>)
    requires Total(m) && Total(m') && ElsewhereSame(m, m', dst, n) && n <= size
    requires forall b :: b in live ==> Apart(b, Block(dst, size))
    ensures AllSame(m, m', live)
  {
  }

  lemma SameIsCopied(m: Memory, m': Memory, b: Block, n: nat)
    requires Total(m) && Total(m') && Same(m, m', b) && b.addr % 8 == 0 && n <= b.size
    ensures Copied(m, m', b.addr, b.addr, n)
  {
    forall i | 0 <= i < n && i % 8 == 0
      ensures m'[b.addr + i] == m[b.addr + i]
    {
      assert InBlock(b.addr + i, b);
    }
  }

  lemma CopiedTrans(m0: Memory, m1: Memory, m2: Memory, a: int, b: int, c: int, n: nat)
    requires Total(m0) && Total(m1) && Total(m2) && Copied(m0, m1, a, b, n) && Copied(m1, m2, b, c, n)
    ensures Copied(m0, m2, a, c, n)
  {
  }

  /** Contents after allocating, copying and freeing: the vector's bytes have moved, all else stays. */
  lemma MoveContents(m0: Memory, m1: Memory, m2: Memory, m3: Memory, live: set<Block>, own: Block, new': Block, n: nat)
    requires Total(m0) && Total(m1) && Total(m2) && Total(m3) && n <= own.size && n <= new'.size && own != new'
    requires n > 0 ==> own in live && own.addr % 8 == 0 && new'.addr % 8 == 0
    requires AllSame(m0, m1, live) && AllSame(m1, m2, live) && Copied(m1, m2, own.addr, new'.addr, n)
    requires AllSame(m2, m3, Without(live + {new'}, own))
    ensures Copied(m0, m3, own.addr, new'.addr, n)
    ensures AllSame(m0, m3, Without(live, own))
  {
    hide Same, Copied;
    if n > 0 {
      assert Same(m0, m1, own) && Same(m2, m3, new');
      SameIsCopied(m0, m1, own, n);
      SameIsCopied(m2, m3, new', n);
      CopiedTrans(m0, m1, m2, own.addr, own.addr, new'.addr, n);
      CopiedTrans(m0, m2, m3, own.addr, new'.addr, new'.addr, n);
    } else {
      CopyNone(m0, m3, own.addr, new'.addr);
    }
    forall b | b in Without(live, own)
      ensures Same(m0, m3, b)
    {
      SameTrans(m0, m1, m2, b);
      SameTrans(m0, m2, m3, b);
    }
  }

  lemma CopyNone(m: Memory, m': Memory, src: int, dst: int)
    requires Total(m) && Total(m')
    ensures Copied(m, m', src, dst, 0)
  {}

  lemma CopiedSelf(m: Memory, a: int, n: nat)
    requires Total(m)
    ensures Copied(m, m, a, a, n)
  {}

  lemma AllocNothing(m: Memory, m': Memory, live: set<Block>, own: Block, n: nat)
    requires Total(m) && Total(m') && AllSame(m, m', live) && n <= own.size && (n > 0 ==> own in live && own.addr % 8 == 0)
    ensures Copied(m, m', own.addr, own.addr, n)
  {
    if n > 0 { SameIsCopied(m, m', own, n); }
  }

  lemma OwnApart(own: Block, b: Block, n: nat)
    requires Apart(own, b) && 0 < n <= own.size && n <= b.size
    ensures Apart(Block(own.addr, n), Block(b.addr, n))
  {}

  /** A block apart from all live ones is none of them. */
  lemma NewIsOther(own: Block, b: Block, live: set<Block>)
    requires b.size > 0 && (own.size > 0 ==> own in live) && forall x :: x in live ==> Apart(x, b)
    ensures own != b && b !in live
  {
    assert !Apart(b, b);
  }

  lemma LiveOk(s: State, b: Block)
    requires Inv(s) && b in s.live
    ensures b.addr > 0 && b.addr % 8 == 0
  {
  }

  /** Blocks of no bytes are not accounted for. */
  ghost function Without(live: set<Block>, b: Block): set<Block>
  {
    if b.size == 0 then live else live - {b}
  }

  ghost function With(live: set<Block>, b: Block): set<Block>
  {
    if b.size == 0 then live else live + {b}
  }

  ghost function Split(s: State, base: int, size: nat, alc: nat): State
  {
    s.(live := s.live - {Block(base, size + alc)} + {Block(base, size), Block(base + size, alc)})
  }

  lemma SplitKeeps(s: State, base: int, size: nat, alc: nat)
    requires Inv(s) && Block(base, size + alc) in s.live && size % 8 == 0
    ensures Inv(Split(s, base, size, alc)) && Reaches(s, Split(s, base, size, alc))
  {
    hide Inv, Reaches;
    var own, parts := Block(base, size + alc), {Block(base, size), Block(base + size, alc)};
    LiveOk(s, own);
    ReplaceKeeps(s, own, parts);
    ReachesStep(s, Replace(own, parts));
  }

  lemma PartNotLive(s: State, b: Block, part: Block)
    requires Inv(s) && b in s.live && part != b && part.size > 0 && Within(part, b)
    ensures part !in s.live
  {
    assert !Apart(part, b);
  }

  lemma WordInside(b: Block, i: nat, n: nat)
    requires b.addr % 8 == 0 && i % 8 == 0 && n % 8 == 0 && i < n <= b.size
    ensures (b.addr + i) % 8 == 0 && InBlock(b.addr + i, b) && (i + 8) % 8 == 0 && i + 8 <= n
  {}

  /** A larger block has been allocated, and the old one has been freed. */
  ghost predicate ReservedState(s: State, own: Block, want: nat, page: int, pagesize: nat, unmaps: bool, s': State)
  {
    && pagesize > 0 && (FirstFit(s.free, want) < 0 ==> Fresh(s, Block(page, RoundUp(want, pagesize))))
    && var s1 := Allocated(s, want, page, pagesize);
       (own.size > 0 ==> own in s1.live) && s' == Freed(s1, own, pagesize, unmaps)
  }

  /** The spare room has been freed as a block of its own. */
  ghost predicate ReleasedState(s: State, base: int, size: nat, alc: nat, pagesize: nat, unmaps: bool, s': State)
  {
    && pagesize > 0
    && var s1 := if size > 0 && alc > 0 then Split(s, base, size, alc) else s;
       && (alc > 0 ==> Block(base + size, alc) in s1.live)
       && s' == Freed(s1, Block(base + size, alc), pagesize, unmaps)
  }

  class Vector {
    var base: int
    var size: nat
    var alc: nat

    /** The vector's bytes and its spare room. */
    ghost function Held(): Block
      reads this
    {
      Block(base, size + alc)
    }

    /** A vector owns its bytes and its spare room as one block, or nothing. */
    ghost predicate Owned(st: BacktraceState)
      reads this, st
    {
      Shaped() && (size + alc > 0 ==> Held() in st.s.live)
    }

    /** Whole words, and nothing without a block. */
    ghost predicate Shaped()
      reads this
    {
      size % 8 == 0 && base >= 0 && (base == 0 ==> size + alc == 0)
    }

    constructor ()
      ensures base == 0 && size == 0 && alc == 0
    {
      base, size, alc := 0, 0, 0;
    }

    /** Move the vector to a larger block.  The only block that is given up is its own, the only one
        gained is new, and no other live word changes. */
    method Reserve(st: BacktraceState, n: nat, page: int, unmaps: bool) returns (ok: bool)
      requires st.Valid() && Owned(st) && n > alc
      requires page != 0 ==> Fresh(st.s, Block(page, RoundUp(GrowTo(size, n, st.pagesize), st.pagesize)))
      modifies this, st
      ensures st.Valid() && Owned(st) && size == old(size) && Reaches(old(st.s), st.s)
      ensures ok ==> alc >= n && base > 0 && forall b :: b in old(st.s.live) ==> Apart(b, Held())
      ensures ok ==> st.s.live == Without(old(st.s.live), old(Held())) + {Held()}
      ensures ok ==> ReservedState(old(st.s), old(Held()), GrowTo(size, n, st.pagesize), page, st.pagesize, unmaps, st.s)
      ensures !ok ==> base == old(base) && alc == old(alc) && st.s == old(st.s)
      ensures Copied(old(st.mem), st.mem, old(base), base, size)
      ensures AllSame(old(st.mem), st.mem, Without(old(st.s.live), old(Held())))
    {
      hide Inv, Put, Taken, Linked, RoundUp, Fresh, GrowTo, Same, ElsewhereSame, Reaches, Copied, Apart;
      GrowEnough(size, n, st.pagesize);
      var want := GrowTo(size, n, st.pagesize);
      ghost var own, s0, mem0 := Held(), st.s, st.mem;
      if size + alc > 0 { LiveOk(st.s, own); }
      var place := st.Alloc(want, page, unmaps);
      ghost var s1, mem1 := st.s, st.mem;
      if place == 0 {
        AllocNothing(mem0, mem1, s0.live, own, size);
        return false;
      }
      ghost var fresh' := Block(place, want);
      if base != 0 {
        if size > 0 {
          assert Apart(own, fresh');
          OwnApart(own, fresh', size);
          CopyWords(st, place, base, size, fresh');
        } else {
          CopyNothing(st.mem, base, place);
        }
        CopyKeepsOthers(mem1, st.mem, place, size, want, s0.live);
        ghost var mem2 := st.mem;
        NewIsOther(own, fresh', s0.live);
        st.Free(base, size + alc, unmaps);
        ReachesTrans(s0, s1, st.s);
        MoveContents(mem0, mem1, mem2, st.mem, s0.live, own, fresh', size);
      } else {
        CopyNone(mem0, st.mem, base, place);
      }
      base := place;
      alc := want - size;
      ok := true;
    }

    /** Grow by n bytes, a whole number of words; returns the address of the new bytes, or 0. */
    method Grow(st: BacktraceState, n: nat, page: int, unmaps: bool) returns (ret: int)
      requires st.Valid() && Owned(st) && n % 8 == 0
      requires page != 0 ==> Fresh(st.s, Block(page, RoundUp(GrowTo(size, n, st.pagesize), st.pagesize)))
      modifies this, st
      ensures st.Valid() && Owned(st) && Reaches(old(st.s), st.s)
      ensures size == if ret == 0 && n > old(alc) then old(size) else old(size) + n
      ensures ret != 0 ==> ret == base + old(size)
      ensures ret == 0 || n <= old(alc) ==> Held() == old(Held()) && st.s == old(st.s)
      ensures ret != 0 && n > old(alc) ==>
                && st.s.live == Without(old(st.s.live), old(Held())) + {Held()}
                && (forall b :: b in old(st.s.live) ==> Apart(b, Held()))
                && ReservedState(old(st.s), old(Held()), GrowTo(old(size), n, st.pagesize), page, st.pagesize, unmaps, st.s)
      ensures Copied(old(st.mem), st.mem, old(base), base, old(size))
      ensures AllSame(old(st.mem), st.mem, Without(old(st.s.live), old(Held())))
    {
      hide Inv, Linked, RoundUp, Fresh, GrowTo, Same, Reaches, Copied, Apart, ReservedState;
      if n > alc {
        var ok := Reserve(st, n, page, unmaps);
        if !ok {
          return 0;
        }
      } else {
        AllSameSelf(st.mem, st.s.live);
        CopiedSelf(st.mem, base, size);
        ReachesSelf(st.s);
      }
      ret := base + size;
      size := size + n;
      alc := alc - n;
    }

    /** Hand out the bytes collected so far and start again in the spare room behind them. */
    method Finish(st: BacktraceState) returns (ret: int)
      requires st.Valid() && Owned(st)
      modifies this, st`s
      ensures st.Valid() && Owned(st) && st.mem == old(st.mem) && Reaches(old(st.s), st.s)
      ensures ret == old(base) && base == old(base) + old(size) && size == 0 && alc == old(alc)
      ensures st.s.live == With(With(Without(old(st.s.live), old(Held())), Block(ret, old(size))), Held())
    {
      hide Linked, Inv, Reaches;
      ret := base;
      ReachesSelf(st.s);
      if size > 0 && alc > 0 {
        SplitKeeps(st.s, base, size, alc);
        st.s := Split(st.s, base, size, alc);
      }
      base := base + size;
      size := 0;
    }

    /** Return the spare room to the allocator. */
    method Release(st: BacktraceState, unmaps: bool)
      requires st.Valid() && Owned(st)
      modifies this, st
      ensures st.Valid() && Owned(st) && Reaches(old(st.s), st.s)
      ensures base == old(base) && size == old(size) && alc == 0
      ensures st.s.live == With(Without(old(st.s.live), old(Held())), Held())
      ensures ReleasedState(old(st.s), base, size, old(alc), st.pagesize, unmaps, st.s)
      ensures AllSame(old(st.mem), st.mem, Without(old(st.s.live), old(Held())))
      ensures Copied(old(st.mem), st.mem, base, base, size)
    {
      hide Linked, Put, Inv, Same, Reaches, Copied;
      ghost var s0, own, kept, rest := st.s, Held(), Block(base, size), Block(base + size, alc);
      var aligned := Round8(size);
      var spare := alc - (aligned - size);
      assert aligned == size;
      ReachesSelf(st.s);
      if size > 0 { LiveOk(st.s, own); }
      if size > 0 && alc > 0 {
        PartNotLive(st.s, own, rest);
        SplitKeeps(st.s, base, size, alc);
        st.s := Split(st.s, base, size, alc);
      }
      ghost var s1, mem1 := st.s, st.mem;
      st.Free(base + aligned, spare, unmaps);
      ReachesTrans(s0, s1, st.s);
      if size > 0 { SameIsCopied(mem1, st.mem, kept, size); } else { CopyNone(mem1, st.mem, base, base); }
      alc := 0;
    }
  }

  const SIZE_T: int := 0x1_0000_0000_0000_0000

  /** The spare size that release passes on, in 64-bit arithmetic. */
  function ReleaseSize(size: nat, alc: nat): int
  {
    (alc - (Round8(size) - size)) % SIZE_T
  }

  /** It stays within the spare room exactly when the padding does; whole words always do. */
  lemma ReleaseStaysInside(size: nat, alc: nat)
    requires alc < SIZE_T - 8
    ensures ReleaseSize(size, alc) <= alc <==> Round8(size) - size <= alc
    ensures size % 8 == 0 ==> ReleaseSize(size, alc) == alc
  {
  }
}
