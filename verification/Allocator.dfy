/** The allocator itself: a free list threaded through the free memory, and growable vectors.
    Memory is a map from word addresses to words; a free block's first word is the address of
    the next free block and its second word is its size. */
module Allocator {
  import opened FreeList

  type Memory = imap<int, int>

  ghost predicate Total(mem: Memory)
  {
    forall a :: a in mem
  }

  /** Address of the k-th free block; 0 ends the list. */
  ghost function AddrAt(free: seq<Block>, k: nat): int
  {
    if k < |free| then free[k].addr else 0
  }

  /** The words of memory spell out the list `free` starting at head. */
  ghost predicate Linked(mem: Memory, head: int, free: seq<Block>)
    requires Total(mem)
  {
    head == AddrAt(free, 0) && forall k: nat :: k < |free| ==> NodeAt(mem, free, k)
  }

  ghost predicate NodeAt(mem: Memory, free: seq<Block>, k: nat)
    requires Total(mem) && k < |free|
  {
    mem[free[k].addr] == AddrAt(free, k + 1) && mem[free[k].addr + 8] == free[k].size
  }

  /** The contents of block b are the same in both memories. */
  ghost predicate Same(m: Memory, m': Memory, b: Block)
    requires Total(m) && Total(m')
  {
    forall a :: a % 8 == 0 && InBlock(a, b) ==> m'[a] == m[a]
  }

  ghost predicate AllSame(m: Memory, m': Memory, live: set<Block>)
    requires Total(m) && Total(m')
  {
    forall b :: b in live ==> Same(m, m', b)
  }

  /** Blocks that a list can be threaded through. */
  ghost predicate Threadable(free: seq<Block>)
  {
    && (forall i :: 0 <= i < |free| ==> free[i].addr > 0 && free[i].addr % 8 == 0 && free[i].size >= HEADER)
    && (forall i, j :: 0 <= i < j < |free| ==> Apart(free[i], free[j]))
  }

  /** Distinct blocks have distinct header words. */
  lemma HeadersApart(b: Block, c: Block)
    requires Apart(b, c) && b.size >= HEADER && c.size >= HEADER
    ensures b.addr != c.addr && b.addr != c.addr + 8 && b.addr + 8 != c.addr
  {
  }

  /** Unlinking block k: its predecessor, or the head, takes over its next pointer. */
  lemma UnlinkKeeps(mem: Memory, head: int, free: seq<Block>, k: nat, mem': Memory, head': int)
    requires Total(mem) && Total(mem') && Threadable(free) && Linked(mem, head, free) && k < |free|
    requires if k == 0 then head' == mem[free[0].addr] && mem' == mem
             else head' == head && mem' == mem[free[k - 1].addr := mem[free[k].addr]]
    ensures Linked(mem', head', Remove(free, k))
  {
    assert NodeAt(mem, free, k);
    forall i: nat | i < |free| - 1
      ensures NodeAt(mem', Remove(free, k), i)
    {
      UnlinkNode(mem, free, k, mem', i);
    }
  }

  lemma UnlinkNode(mem: Memory, free: seq<Block>, k: nat, mem': Memory, i: nat)
    requires Total(mem) && Total(mem') && Threadable(free) && k < |free| && i < |free| - 1
    requires forall j: nat :: j < |free| ==> NodeAt(mem, free, j)
    requires mem' == if k == 0 then mem else mem[free[k - 1].addr := mem[free[k].addr]]
    ensures NodeAt(mem', Remove(free, k), i)
  {
    var j := if i < k then i else i + 1;
    assert NodeAt(mem, free, j) && NodeAt(mem, free, k);
    if k > 0 && j < k - 1 {
      HeadersApart(free[j], free[k - 1]);
    } else if k > 0 && j > k - 1 {
      HeadersApart(free[k - 1], free[j]);
    }
  }

  /** Pushing block b: its two header words are written and it becomes the head. */
  lemma PushKeeps(mem: Memory, head: int, free: seq<Block>, b: Block)
    requires Total(mem) && Threadable(free) && Linked(mem, head, free)
    requires b.addr > 0 && b.addr % 8 == 0 && b.size >= HEADER && forall i :: 0 <= i < |free| ==> Apart(free[i], b)
    ensures Linked(mem[b.addr := head][b.addr + 8 := b.size], b.addr, [b] + free)
  {
    var mem' := mem[b.addr := head][b.addr + 8 := b.size];
    forall i: nat | i < |free| + 1
      ensures NodeAt(mem', [b] + free, i)
    {
      if i > 0 {
        assert NodeAt(mem, free, i - 1);
        HeadersApart(free[i - 1], b);
      }
    }
  }

  lemma InvThreadable(s: State)
    requires Inv(s)
    ensures Threadable(s.free)
  {
  }

  /** Writing a free block's header words changes no live block. */
  lemma HeaderWriteSame(mem: Memory, free: Block, a: int, v: int, live: set<Block>)
    requires Total(mem) && free.addr % 8 == 0 && free.size >= HEADER && (a == free.addr || a == free.addr + 8)
    requires forall b :: b in live ==> Apart(free, b)
    ensures AllSame(mem, mem[a := v], live)
  {
  }

  /** Large aligned blocks go back to the system if it takes them. */
  predicate Unmapped(b: Block, pagesize: nat, unmaps: bool)
    requires pagesize > 0
  {
    b.size >= 16 * 4096 && b.addr % pagesize == 0 && b.size % pagesize == 0 && unmaps
  }

  /** The state after b has been freed; freeing no bytes does nothing. */
  ghost function Freed(s: State, b: Block, pagesize: nat, unmaps: bool): State
    requires pagesize > 0 && (b.size > 0 ==> b in s.live)
  {
    if b.size == 0 then s else After(s, if Unmapped(b, pagesize, unmaps) then GiveBack(b) else Release(b))
  }

  /** The state after n bytes have been allocated, from the list if a block fits, else from a page. */
  ghost function Allocated(s: State, n: nat, page: int, pagesize: nat): State
    requires pagesize > 0 && (FirstFit(s.free, n) < 0 ==> Fresh(s, Block(page, RoundUp(n, pagesize))))
  {
    if FirstFit(s.free, n) >= 0 then After(s, Take(n))
    else
      RoundUpBounds(n, pagesize);
      After(s, Page(Block(page, RoundUp(n, pagesize)), n))
  }

  class BacktraceState {
    const pagesize: nat
    var mem: Memory
    var freelist: int
    ghost var s: State

    ghost predicate Valid()
      reads this
    {
      && pagesize > 0 && pagesize % 8 == 0
      && Total(mem) && Inv(s) && Linked(mem, freelist, s.free)
    }

    constructor (pagesize: nat, mem: Memory, ghost mapped: iset<int>)
      requires pagesize > 0 && pagesize % 8 == 0 && Total(mem)
      ensures Valid() && s == State([], {}, mapped) && this.mem == mem && this.pagesize == pagesize
    {
      this.pagesize := pagesize;
      this.mem := mem;
      freelist := 0;
      s := State([], {}, mapped);
    }

    /** *pp, where pp is -1 for the list head and a block address for that block's next field. */
    function Load(pp: int): int
      requires Total(mem)
      reads this
    {
      if pp == -1 then freelist else mem[pp]
    }

    /** Remove block k from the list through the pointer to it. */
    method Unlink(pp: int, ghost k: nat)
      requires Valid() && k < |s.free| && pp == if k == 0 then -1 else s.free[k - 1].addr
      modifies this
      ensures Valid() && s == old(s).(free := Remove(old(s.free), k)) && Loose(s, old(s.free)[k])
      ensures AllSame(old(mem), mem, s.live)
      ensures mem[old(s.free)[k].addr + 8] == old(s.free)[k].size
    {
      InvThreadable(s);
      RemoveKeeps(s, k);
      ghost var mem0, head0 := mem, freelist;
      assert NodeAt(mem, s.free, k);
      assert k > 0 ==> NodeAt(mem, s.free, k - 1);
      var next := mem[Load(pp)];
      if pp == -1 {
        freelist := next;
      } else {
        HeaderWriteSame(mem, s.free[k - 1], pp, next, s.live);
        HeadersApart(s.free[k - 1], s.free[k]);
        mem := mem[pp := next];
      }
      UnlinkKeeps(mem0, head0, s.free, k, mem, freelist);
      s := s.(free := Remove(s.free, k));
    }

    method Push(addr: int, size: nat)
      requires Valid() && size >= HEADER && |s.free| < MAX_FREE && Loose(s, Block(addr, size))
      modifies this
      ensures Valid() && s == old(s).(free := [Block(addr, size)] + old(s.free))
      ensures AllSame(old(mem), mem, s.live)
    {
      ghost var b := Block(addr, size);
      InvThreadable(s);
      PushKeeps(mem, freelist, s.free, b);
      PutKeeps(s, b);
      HeaderWriteSame(mem, b, addr, freelist, s.live);
      HeaderWriteSame(mem[addr := freelist], b, addr + 8, size, s.live);
      mem := mem[addr := freelist][addr + 8 := size];
      freelist := addr;
      s := s.(free := [b] + s.free);
    }

    /** The pointer to block k, and the block it leads to. */
    ghost predicate At(pp: int, k: nat)
      requires Total(mem)
      reads this
    {
      k <= |s.free| && pp == (if k == 0 then -1 else s.free[k - 1].addr) && Load(pp) == AddrAt(s.free, k)
    }

    lemma AtStart()
      requires Valid()
      ensures At(-1, 0)
    {
    }

    lemma AtTest(pp: int, k: nat)
      requires Valid() && At(pp, k)
      ensures Load(pp) == 0 <==> k == |s.free|
    {
    }

    lemma AtNext(pp: int, k: nat)
      requires Valid() && At(pp, k) && k < |s.free|
      ensures At(Load(pp), k + 1) && mem[Load(pp) + 8] == s.free[k].size
    {
      assert NodeAt(mem, s.free, k);
    }

    /** Count the free blocks and find the pointer to the first of least size. */
    method Scan() returns (c: nat, ppsmall: int)
      requires Valid()
      ensures c == |s.free|
      ensures c > 0 ==> At(ppsmall, Smallest(s.free))
    {
      hide Inv, Linked;
      var pp := -1;
      ghost var k := 0;
      c, ppsmall := 0, -1;
      AtStart();
      ghost var small := 0;
      AtTest(pp, 0);
      while Load(pp) != 0
        invariant c <= |s.free| && At(pp, c) && (Load(pp) == 0 <==> c == |s.free|)
        invariant c > 0 ==> small == Smallest(s.free[..c]) && At(ppsmall, small)
        decreases |s.free| - c
      {
        AtNext(pp, c);
        assert c > 0 ==> s.free[..c + 1][..c] == s.free[..c];
        if c > 0 { AtNext(ppsmall, small); }
        if c == 0 || mem[Load(pp) + 8] < mem[Load(ppsmall) + 8] {
          ppsmall, small := pp, c;
        }
        pp := Load(pp);
        c := c + 1;
        AtTest(pp, c);
      }
      assert s.free[..c] == s.free;
    }

    /** Put a block on the free list, or leak it. */
    method FreeLocked(addr: int, size: nat)
      requires Valid() && (size >= HEADER ==> Loose(s, Block(addr, size)))
      modifies this
      ensures Valid() && s == old(s).(free := Put(old(s.free), Block(addr, size)))
      ensures AllSame(old(mem), mem, s.live)
    {
      hide Inv, Linked, Loose;
      if size >= HEADER {
        var c, ppsmall := Scan();
        FewFree(s);
        if c >= 16 {
          AtNext(ppsmall, Smallest(s.free));
          if size <= mem[Load(ppsmall) + 8] {
            return;
          }
          LooseWithout(s, Block(addr, size), Smallest(s.free));
          Unlink(ppsmall, Smallest(s.free));
        }
        Push(addr, size);
      }
    }

    /** A client writes a word of a block it owns. */
    method Write(a: int, v: int, ghost b: Block)
      requires Valid() && b in s.live && a % 8 == 0 && InBlock(a, b)
      modifies `mem
      ensures Valid() && mem == old(mem)[a := v]
    {
      ClientWriteKeeps(mem, freelist, s, b, a, v);
      mem := mem[a := v];
    }

    /** Hand out n bytes of a loose block of the given size and put the rest on the list. */
    method Carve(addr: int, size: nat, n: nat)
      requires Valid() && Loose(s, Block(addr, size)) && n <= size
      modifies this
      ensures Valid()
      ensures s.live == old(s.live) + {Block(addr, n)} && s.mapped == old(s.mapped)
      ensures s.free == if Round8(n) < size then Put(old(s.free), Rest(Block(addr, size), n)) else old(s.free)
      ensures AllSame(old(mem), mem, old(s.live))
    {
      hide Inv, Loose, Put, Linked, Same;
      CarveKeeps(s, Block(addr, size), n);
      s := s.(live := s.live + {Block(addr, n)});
      var n8 := Round8(n);
      if n8 < size {
        FreeLocked(addr + n8, size - n8);
      } else {
        AllSameSelf(mem, s.live);
      }
    }

    /** Give a block back to the system if it is large and aligned, otherwise to the free list. */
    method FreeBlock(addr: int, size: nat, unmaps: bool)
      requires Valid() && (size >= HEADER ==> Loose(s, Block(addr, size)))
      modifies this
      ensures Valid() && AllSame(old(mem), mem, s.live)
      ensures s == if size >= 16 * 4096 && addr % pagesize == 0 && size % pagesize == 0 && unmaps
                   then old(s).(mapped := old(s.mapped) - Range(Block(addr, size)))
                   else old(s).(free := Put(old(s.free), Block(addr, size)))
    {
      hide Inv, Loose, Put, Linked, Same;
      if size >= 16 * 4096 {
        if addr % pagesize == 0 && size % pagesize == 0 {
          if unmaps {
            UnmapLooseKeeps(s, Block(addr, size));
            AllSameSelf(mem, s.live);
            s := s.(mapped := s.mapped - Range(Block(addr, size)));
            return;
          }
        }
      }
      FreeLocked(addr, size);
    }

    /** Free a block that the client owns; freeing no bytes does nothing. */
    method Free(addr: int, size: nat, unmaps: bool)
      requires Valid() && (size > 0 ==> Block(addr, size) in s.live)
      modifies this
      ensures Valid() && AllSame(old(mem), mem, s.live) && Reaches(old(s), s)
      ensures s == Freed(old(s), Block(addr, size), pagesize, unmaps)
    {
      hide Inv, Loose, Linked, Same, Reaches;
      ghost var b, s0 := Block(addr, size), s;
      if size > 0 {
        FreeKeeps(s, b);
        DropKeeps(s, b);
        s := s.(live := s.live - {b});
        FreeReaches(s0, b);
      } else {
        ReachesSelf(s);
      }
      FreeBlock(addr, size, unmaps);
    }

    /** The pointer to the first block of at least n bytes. */
    method Find(n: nat) returns (pp: int)
      requires Valid()
      ensures Load(pp) == 0 <==> FirstFit(s.free, n) < 0
      ensures FirstFit(s.free, n) >= 0 ==> At(pp, FirstFit(s.free, n))
    {
      hide Inv, Linked;
      pp := -1;
      ghost var k := 0;
      AtStart();
      AtTest(pp, 0);
      while Load(pp) != 0
        invariant 0 <= k <= |s.free| && At(pp, k) && (Load(pp) == 0 <==> k == |s.free|)
        invariant forall i :: 0 <= i < k ==> s.free[i].size < n
        decreases |s.free| - k
      {
        AtNext(pp, k);
        if mem[Load(pp) + 8] >= n {
          return;
        }
        pp := Load(pp);
        k := k + 1;
        AtTest(pp, k);
      }
    }

    /** Serve an allocation from the block that pp leads to. */
    method AllocFromList(pp: int, n: nat) returns (ret: int)
      requires Valid() && FirstFit(s.free, n) >= 0 && At(pp, FirstFit(s.free, n))
      modifies this
      ensures Valid() && AllSame(old(mem), mem, old(s.live))
      ensures ret > 0 && ret % 8 == 0 && ret == old(s.free)[FirstFit(old(s.free), n)].addr
      ensures s == After(old(s), Take(n))
    {
      hide Inv, Loose, Put, Linked, Same, FirstFit;
      ghost var k := FirstFit(s.free, n);
      AtNext(pp, k);
      FreeBlockOk(s, k);
      ret := Load(pp);
      var size := mem[ret + 8];
      Unlink(pp, k);
      ghost var mem1 := mem;
      Carve(ret, size, n);
      AllSameTrans(old(mem), mem1, mem, old(s.live), old(s.live));
    }

    /** Serve an allocation from a newly mapped region.  What is left of the last page is freed
        like any block; being less than a page it is never unmapped. */
    method AllocFromPage(page: int, n: nat, unmaps: bool)
      requires Valid() && FirstFit(s.free, n) < 0 && Fresh(s, Block(page, RoundUp(n, pagesize)))
      modifies this
      ensures Valid() && AllSame(old(mem), mem, old(s.live))
      ensures page > 0 && page % 8 == 0 && RoundUp(n, pagesize) >= n
      ensures s == After(old(s), Page(Block(page, RoundUp(n, pagesize)), n))
    {
      hide Inv, Loose, Put, Linked, Same, RoundUp, Fresh;
      RoundUpBounds(n, pagesize);
      var ask := RoundUp(n, pagesize);
      MapKeeps(s, Block(page, ask));
      PageOk(s, page, ask);
      s := MapPage(s, Block(page, ask));
      CarveKeeps(s, Block(page, ask), n);
      s := s.(live := s.live + {Block(page, n)});
      var n8 := Round8(n);
      if n8 < ask {
        PartOfPage(ask - n8, pagesize);
        FreeBlock(page + n8, ask - n8, unmaps);
      } else {
        AllSameSelf(mem, s.live);
      }
    }

    /** Allocate n bytes; `page` is what mapping a new region of RoundUp(n, pagesize) bytes
        would return, 0 for failure. */
    method Alloc(n: nat, page: int, unmaps: bool) returns (ret: int)
      requires Valid()
      requires page != 0 ==> Fresh(s, Block(page, RoundUp(n, pagesize)))
      modifies this
      ensures Valid() && AllSame(old(mem), mem, old(s.live)) && Reaches(old(s), s)
      ensures ret != 0 ==> ret > 0 && ret % 8 == 0
      ensures ret == 0 ==> s == old(s)
      ensures s.live == if ret == 0 then old(s.live) else old(s.live) + {Block(ret, n)}
      ensures ret != 0 ==> forall b :: b in old(s.live) ==> Apart(b, Block(ret, n))
      ensures ret == if FirstFit(old(s.free), n) >= 0 then old(s.free)[FirstFit(old(s.free), n)].addr else page
      ensures ret != 0 ==> s == Allocated(old(s), n, page, pagesize)
    {
      hide Inv, Put, Taken, Linked, Same, RoundUp, Fresh, Reaches;
      var pp := Find(n);
      if Load(pp) != 0 {
        ReachesStep(s, Take(n));
        ListBlockApart(s, FirstFit(s.free, n), n);
        ret := AllocFromList(pp, n);
      } else if page == 0 {
        ReachesSelf(s);
        AllSameSelf(mem, s.live);
        ret := 0;
      } else {
        RoundUpBounds(n, pagesize);
        ReachesStep(s, Page(Block(page, RoundUp(n, pagesize)), n));
        PageApart(s, Block(page, RoundUp(n, pagesize)), n);
        AllocFromPage(page, n, unmaps);
        ret := page;
      }
    }

    /** Memory comes back: a block of at least 16 bytes that is freed while the list has room is what the
        next request gets that fits in it. */
    method FreeThenAlloc(addr: int, size: nat, n: nat, unmaps: bool) returns (ret: int)
      requires Valid() && Block(addr, size) in s.live && |s.free| < MAX_FREE && HEADER <= size < 16 * 4096 && n <= size
      modifies this
      ensures Valid() && ret == addr
    {
      hide Inv, Linked, Put, Taken, Same, Reaches;
      FreedIsFirst(s.free, Block(addr, size), n);
      PutKeepsBlock(s.free, Block(addr, size));
      Free(addr, size, unmaps);
      ret := Alloc(n, 0, unmaps);
    }

    /** The rest of a new page is used, too. */
    method PageThenAlloc(n: nat, page: int, m: nat, unmaps: bool) returns (first: int, second: int)
      requires Valid() && FirstFit(s.free, n) < 0 && |s.free| < MAX_FREE && page != 0
      requires Fresh(s, Block(page, RoundUp(n, pagesize)))
      requires RoundUp(n, pagesize) - Round8(n) >= HEADER && m <= RoundUp(n, pagesize) - Round8(n)
      modifies this
      ensures Valid() && first == page && second == page + Round8(n)
    {
      hide Inv, Linked, Put, Taken, Same, Reaches, Fresh, RoundUp, Round8;
      FreedIsFirst(s.free, Rest(Block(page, RoundUp(n, pagesize)), n), m);
      PutKeepsBlock(s.free, Rest(Block(page, RoundUp(n, pagesize)), n));
      first := Alloc(n, page, unmaps);
      second := Alloc(m, 0, unmaps);
    }
  }

  lemma FreeReaches(s: State, b: Block)
    requires b in s.live
    ensures Reaches(s, After(s, Release(b))) && Reaches(s, After(s, GiveBack(b)))
  {
    ReachesStep(s, Release(b));
    ReachesStep(s, GiveBack(b));
  }

  lemma ListBlockApart(s: State, k: nat, n: nat)
    requires Inv(s) && k < |s.free| && n <= s.free[k].size
    ensures forall b :: b in s.live ==> Apart(b, Block(s.free[k].addr, n))
  {
    assert forall b :: b in s.live ==> Apart(s.free[k], b);
  }

  lemma PageApart(s: State, region: Block, n: nat)
    requires Inv(s) && Fresh(s, region) && n <= region.size
    ensures forall b :: b in s.live ==> Apart(b, Block(region.addr, n))
  {
    MapKeeps(s, region);
    assert forall b :: b in s.live ==> Apart(b, region);
  }

  lemma ClientWriteKeeps(mem: Memory, head: int, s: State, b: Block, a: int, v: int)
    requires Total(mem) && Inv(s) && Linked(mem, head, s.free) && b in s.live && a % 8 == 0 && InBlock(a, b)
    ensures Linked(mem[a := v], head, s.free)
  {
    var mem' := mem[a := v];
    forall k: nat | k < |s.free|
      ensures NodeAt(mem', s.free, k)
    {
      assert NodeAt(mem, s.free, k) && Apart(s.free[k], b);
    }
  }

  lemma PartOfPage(n: nat, unit: nat)
    requires 0 < n < unit
    ensures n % unit != 0
  {
  }

  lemma FreeBlockOk(s: State, k: nat)
    requires Inv(s) && k < |s.free|
    ensures s.free[k].addr > 0 && s.free[k].addr % 8 == 0
  {
  }

  lemma PageOk(s: State, page: int, ask: nat)
    requires Fresh(s, Block(page, ask))
    ensures page > 0 && page % 8 == 0
  {
  }

  lemma DropKeeps(s: State, b: Block)
    requires Inv(s)
    ensures Inv(s.(live := s.live - {b}))
  {
  }

  lemma AllSameSelf(m: Memory, live: set<Block>)
    requires Total(m)
    ensures AllSame(m, m, live)
  {
  }

  lemma AllSameTrans(m0: Memory, m1: Memory, m2: Memory, live: set<Block>, live': set<Block>)
    requires Total(m0) && Total(m1) && Total(m2) && live <= live' && AllSame(m0, m1, live) && AllSame(m1, m2, live')
    ensures AllSame(m0, m2, live)
  {
    hide Same;
    forall b | b in live
      ensures Same(m0, m2, b)
    {
      SameTrans(m0, m1, m2, b);
    }
  }

  lemma SameTrans(m0: Memory, m1: Memory, m2: Memory, b: Block)
    requires Total(m0) && Total(m1) && Total(m2) && Same(m0, m1, b) && Same(m1, m2, b)
    ensures Same(m0, m2, b)
  {
  }

  function RoundUp(n: nat, unit: nat): nat
    requires unit > 0
  {
    (n + unit - 1) / unit * unit
  }

  lemma RoundUpBounds(n: nat, unit: nat)
    requires unit > 0
    ensures n <= RoundUp(n, unit) < n + unit
  {
    var m := n + unit - 1;
    assert m == m / unit * unit + m % unit;
  }
}
