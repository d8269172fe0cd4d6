/** Any number of clients on one allocator, some holding plain blocks and some growable vectors: whatever
    the others do, each finds in its block the words it left there. */
module Clients {
  import opened FreeList
  import opened Allocator
  import opened GrowableVector

  /** What a client holds: a block, and the words at its front that it relies on. */
  datatype Holding = Holding(block: Block, words: seq<int>)

  type Holdings = map<int, Holding>

  /** Memory, allocator state and holdings at one time. */
  datatype Config = Config(mem: Memory, s: State, hs: Holdings)

  ghost predicate Spells(mem: Memory, addr: int, words: seq<int>)
    requires Total(mem)
  {
    forall i :: 0 <= i < |words| ==> mem[addr + 8 * i] == words[i]
  }

  ghost predicate HoldingOk(mem: Memory, live: set<Block>, h: Holding)
    requires Total(mem)
  {
    && 8 * |h.words| <= h.block.size
    && (h.block.size > 0 ==> h.block in live)
    && Spells(mem, h.block.addr, h.words)
  }

  /** Two clients share no block; blocks of no bytes do not matter. */
  ghost predicate Distinct(a: Holding, b: Holding)
  {
    a.block.size > 0 && b.block.size > 0 ==> a.block != b.block
  }

  ghost predicate Consistent(c: Config)
  {
    && Total(c.mem) && Inv(c.s)
    && (forall x :: x in c.hs ==> HoldingOk(c.mem, c.s.live, c.hs[x]))
    && (forall x, y :: x in c.hs && y in c.hs && x != y ==> Distinct(c.hs[x], c.hs[y]))
  }

  /** One operation of the clients in `who`.  It runs the allocator, leaves the blocks of all other
      clients live and their words alone, and what it gets is consistent in itself. */
  ghost predicate StepBy(c: Config, c': Config, who: set<int>)
  {
    && Total(c.mem) && Total(c'.mem) && Reaches(c.s, c'.s)
    && (forall x :: x !in who ==> (x in c'.hs <==> x in c.hs))
    && (forall x :: x in c.hs && x !in who ==> Untouched(c, c', x))
    && (forall x :: x in c'.hs && x in who ==> HoldingOk(c'.mem, c'.s.live, c'.hs[x]))
    && (forall x, y :: x in c'.hs && y in c'.hs && x != y && x in who ==> Distinct(c'.hs[x], c'.hs[y]))
  }

  ghost predicate Untouched(c: Config, c': Config, x: int)
    requires Total(c.mem) && Total(c'.mem) && x in c.hs
  {
    && x in c'.hs && c'.hs[x] == c.hs[x]
    && (c.hs[x].block.size > 0 ==> c.hs[x].block in c'.s.live && Same(c.mem, c'.mem, c.hs[x].block))
  }

  lemma SpellsKept(m: Memory, m': Memory, b: Block, words: seq<int>)
    requires Total(m) && Total(m') && Spells(m, b.addr, words) && 8 * |words| <= b.size && b.addr % 8 == 0
    requires b.size > 0 ==> Same(m, m', b)
    ensures Spells(m', b.addr, words)
  {
    forall i | 0 <= i < |words|
      ensures m'[b.addr + 8 * i] == words[i]
    {
      assert InBlock(b.addr + 8 * i, b);
    }
  }

  lemma NoWords(m: Memory, addr: int, words: seq<int>)
    requires Total(m) && |words| == 0
    ensures Spells(m, addr, words)
  {}

  lemma UntouchedOk(c: Config, c': Config, x: int)
    requires Consistent(c) && Total(c'.mem) && x in c.hs && Untouched(c, c', x)
    ensures HoldingOk(c'.mem, c'.s.live, c'.hs[x])
  {
    hide Inv, Spells, Same;
    var h := c.hs[x];
    assert HoldingOk(c.mem, c.s.live, h);
    if h.block.size > 0 {
      LiveOk(c.s, h.block);
      SpellsKept(c.mem, c'.mem, h.block, h.words);
    } else {
      NoWords(c'.mem, h.block.addr, h.words);
    }
  }

  lemma DistinctSwap(a: Holding, b: Holding)
    requires Distinct(a, b)
    ensures Distinct(b, a)
  {}

  /** Every operation keeps everything consistent. */
  lemma StepConsistent(c: Config, c': Config, who: set<int>)
    requires Consistent(c) && StepBy(c, c', who)
    ensures Consistent(c')
  {
    hide Inv, HoldingOk, Distinct, Reaches;
    ReachesKeeps(c.s, c'.s);
    forall x | x in c'.hs
      ensures HoldingOk(c'.mem, c'.s.live, c'.hs[x])
    {
      if x !in who { UntouchedOk(c, c', x); }
    }
    forall x, y | x in c'.hs && y in c'.hs && x != y
      ensures Distinct(c'.hs[x], c'.hs[y])
    {
      if x !in who && y !in who {
        assert Untouched(c, c', x) && Untouched(c, c', y);
      } else if x !in who {
        DistinctSwap(c'.hs[y], c'.hs[x]);
      }
    }
  }

  lemma ReachesKeeps(s: State, s': State)
    requires Inv(s) && Reaches(s, s')
    ensures Inv(s')
  {
    hide Inv, IsRun, Final;
    var steps :| IsRun(s, steps) && Final(s, steps) == s';
    RunKeeps(s, steps);
  }

  // ----- whole runs -----

  ghost predicate ClientRun(cs: seq<Config>, who: seq<set<int>>)
  {
    && |cs| == |who| + 1 && Consistent(cs[0])
    && forall i :: 0 <= i < |who| ==> StepBy(cs[i], cs[i + 1], who[i])
  }

  lemma {:induction false} RunConsistent(cs: seq<Config>, who: seq<set<int>>, n: nat)
    requires ClientRun(cs, who) && n < |cs|
    ensures Consistent(cs[n])
  {
    hide Consistent, StepBy;
    if n > 0 {
      RunConsistent(cs, who, n - 1);
      StepConsistent(cs[n - 1], cs[n], who[n - 1]);
    }
  }

  /** Over every run of allocations, frees, writes and vector operations by any clients: a client that
      does nothing between times i and n still holds its block, live and with the same words. */
  lemma {:induction false} RunKeepsContents(cs: seq<Config>, who: seq<set<int>>, i: nat, n: nat, x: int)
    requires ClientRun(cs, who) && i <= n < |cs| && x in cs[i].hs && forall k :: i <= k < n ==> x !in who[k]
    ensures x in cs[n].hs && cs[n].hs[x] == cs[i].hs[x]
    ensures Total(cs[n].mem) && HoldingOk(cs[n].mem, cs[n].s.live, cs[i].hs[x])
  {
    hide Consistent, HoldingOk, Distinct, Reaches;
    RunConsistent(cs, who, n);
    if i < n {
      RunKeepsContents(cs, who, i, n - 1, x);
      assert Untouched(cs[n - 1], cs[n], x);
    }
    ConsistentHolding(cs[n], x);
  }

  lemma ConsistentHolding(c: Config, x: int)
    requires Consistent(c) && x in c.hs
    ensures Total(c.mem) && HoldingOk(c.mem, c.s.live, c.hs[x])
  {}

  // ----- operations as steps -----

  /** The block a client gives up or changes: its own, or nothing for a new client. */
  ghost function Own(c: Config, x: int): Block
  {
    if x in c.hs then c.hs[x].block else Block(0, 0)
  }

  lemma OtherBlock(c: Config, x: int, y: int)
    requires Consistent(c) && y in c.hs && y != x && c.hs[y].block.size > 0
    ensures c.hs[y].block in Without(c.s.live, Own(c, x))
  {
    ConsistentHolding(c, y);
    if x in c.hs { assert Distinct(c.hs[x], c.hs[y]); }
  }

  /** All blocks but x's stay, with their words. */
  ghost predicate OthersStay(c: Config, c': Config, x: int)
  {
    && Total(c.mem) && Total(c'.mem)
    && Without(c.s.live, Own(c, x)) <= c'.s.live
    && AllSame(c.mem, c'.mem, Without(c.s.live, Own(c, x)))
  }

  lemma OthersUntouched(c: Config, c': Config, x: int, y: int)
    requires Consistent(c) && OthersStay(c, c', x) && y in c.hs && y != x && y in c'.hs && c'.hs[y] == c.hs[y]
    ensures Untouched(c, c', y)
  {
    hide Consistent, Same, Without;
    if c.hs[y].block.size > 0 { OtherBlock(c, x, y); }
  }

  /** x now holds h, which is no other block. */
  lemma HoldStep(c: Config, c': Config, x: int, h: Holding)
    requires Consistent(c) && OthersStay(c, c', x) && Reaches(c.s, c'.s) && c'.hs == c.hs[x := h]
    requires HoldingOk(c'.mem, c'.s.live, h) && (h.block.size > 0 ==> h.block !in Without(c.s.live, Own(c, x)))
    ensures StepBy(c, c', {x})
  {
    hide Consistent, Without, Reaches, HoldingOk, Untouched, OthersStay;
    assert Total(c.mem) && Total(c'.mem) by { StayTotal(c, c', x); }
    forall y | y in c.hs && y != x
      ensures Untouched(c, c', y)
    {
      OthersUntouched(c, c', x, y);
    }
    forall y | y in c'.hs && y != x
      ensures Distinct(h, c'.hs[y])
    {
      if c.hs[y].block.size > 0 { OtherBlock(c, x, y); }
    }
  }

  lemma StayTotal(c: Config, c': Config, x: int)
    requires OthersStay(c, c', x)
    ensures Total(c.mem) && Total(c'.mem)
  {}

  /** x holds nothing any more. */
  lemma DropStep(c: Config, c': Config, x: int)
    requires Consistent(c) && OthersStay(c, c', x) && Reaches(c.s, c'.s) && c'.hs == c.hs - {x}
    ensures StepBy(c, c', {x})
  {
    hide Consistent, Without, Reaches, HoldingOk, Untouched, OthersStay;
    StayTotal(c, c', x);
    forall y | y in c.hs && y != x
      ensures Untouched(c, c', y)
    {
      OthersUntouched(c, c', x, y);
    }
  }

  /** x hands part of what it holds to a new client y. */
  lemma HandStep(c: Config, c': Config, x: int, y: int, h: Holding, k: Holding)
    requires Consistent(c) && OthersStay(c, c', x) && Reaches(c.s, c'.s) && x != y && y !in c.hs
    requires c'.hs == c.hs[x := h][y := k] && Distinct(h, k)
    requires HoldingOk(c'.mem, c'.s.live, h) && (h.block.size > 0 ==> h.block !in Without(c.s.live, Own(c, x)))
    requires HoldingOk(c'.mem, c'.s.live, k) && (k.block.size > 0 ==> k.block !in Without(c.s.live, Own(c, x)))
    ensures StepBy(c, c', {x, y})
  {
    hide Consistent, Without, Reaches, HoldingOk, Untouched, OthersStay;
    StayTotal(c, c', x);
    forall z | z in c.hs && z != x
      ensures Untouched(c, c', z)
    {
      OthersUntouched(c, c', x, z);
    }
    DistinctSwap(h, k);
    forall z | z in c'.hs && z != x && z != y
      ensures Distinct(h, c'.hs[z]) && Distinct(k, c'.hs[z])
    {
      if c.hs[z].block.size > 0 { OtherBlock(c, x, z); }
    }
  }

  // ----- the clients -----

  /** The k words at addr. */
  ghost function Read(mem: Memory, addr: int, k: nat): (r: seq<int>)
    requires Total(mem)
    ensures |r| == k && Spells(mem, addr, r)
  {
    seq(k, i => mem[addr + 8 * i])
  }

  lemma WriteStays(mem: Memory, s: State, b: Block, a: int, v: int)
    requires Total(mem) && Inv(s) && b in s.live && InBlock(a, b)
    ensures AllSame(mem, mem[a := v], s.live - {b})
  {
    forall c | c in s.live - {b}
      ensures Same(mem, mem[a := v], c)
    {
      assert Apart(b, c);
    }
  }

  lemma WordAt(b: Block, i: nat, k: nat)
    requires i < k && 8 * k <= b.size && b.addr % 8 == 0
    ensures (b.addr + 8 * i) % 8 == 0 && InBlock(b.addr + 8 * i, b)
  {}

  lemma SpellsWrite(mem: Memory, addr: int, words: seq<int>, i: nat, v: int)
    requires Total(mem) && Spells(mem, addr, words) && i < |words|
    ensures Spells(mem[addr + 8 * i := v], addr, words[i := v])
  {}

  lemma SpellsCopied(m: Memory, m': Memory, src: int, dst: int, words: seq<int>)
    requires Total(m) && Total(m') && Spells(m, src, words) && Copied(m, m', src, dst, 8 * |words|)
    ensures Spells(m', dst, words)
  {
    forall i | 0 <= i < |words|
      ensures m'[dst + 8 * i] == words[i]
    {
      assert 8 * i % 8 == 0 && m'[dst + 8 * i] == m[src + 8 * i];
    }
  }

  lemma SpellsConcat(m: Memory, addr: int, a: seq<int>, b: seq<int>)
    requires Total(m) && Spells(m, addr, a) && Spells(m, addr + 8 * |a|, b)
    ensures Spells(m, addr, a + b)
  {
    forall i | 0 <= i < |a + b|
      ensures m[addr + 8 * i] == (a + b)[i]
    {
      if i >= |a| { assert m[addr + 8 * |a| + 8 * (i - |a|)] == b[i - |a|]; }
    }
  }

  lemma NewNotLive(s: State, b: Block)
    requires b.size > 0 && forall x :: x in s.live ==> Apart(x, b)
    ensures b !in s.live
  {
    assert !Apart(b, b);
  }

  class Program {
    const st: BacktraceState
    var blocks: map<int, Block>
    var vectors: map<int, Vector>
    ghost var hs: Holdings

    ghost function Now(): Config
      reads this, st
    {
      Config(st.mem, st.s, hs)
    }

    ghost predicate Valid()
      reads this, st, vectors.Values
    {
      && st.Valid() && Consistent(Now())
      && (forall x :: x in hs <==> x in blocks || x in vectors)
      && (forall x :: x in blocks ==> x !in vectors)
      && (forall x :: x in blocks ==> hs[x].block == blocks[x])
      && (forall x :: x in vectors ==> VectorOk(x, vectors[x]))
      && (forall x, y :: x in vectors && y in vectors && x != y ==> vectors[x] != vectors[y])
    }

    ghost predicate VectorOk(x: int, v: Vector)
      requires x in hs
      reads this, v
    {
      v.Shaped() && hs[x].block == v.Held() && 8 * |hs[x].words| == v.size
    }

    lemma VectorOwned(x: int)
      requires Valid() && x in vectors
      ensures vectors[x].Owned(st) && Own(Now(), x) == vectors[x].Held()
      ensures Total(st.mem) && Spells(st.mem, vectors[x].base, hs[x].words)
    {
      hide Consistent, Spells;
      assert x in hs;
      ConsistentHolding(Now(), x);
    }

    constructor (st: BacktraceState)
      requires st.Valid()
      ensures Valid() && this.st == st && hs == map[]
    {
      this.st := st;
      blocks, vectors, hs := map[], map[], map[];
    }

    /** A new client asks for n bytes. */
    method Allocate(x: int, n: nat, page: int, unmaps: bool) returns (ok: bool)
      requires Valid() && x !in hs
      requires page != 0 ==> Fresh(st.s, Block(page, RoundUp(n, st.pagesize)))
      modifies this, st
      ensures Valid() && vectors == old(vectors) && StepBy(old(Now()), Now(), {x})
      ensures !ok ==> hs == old(hs)
      ensures ok ==> x in hs && hs == old(hs)[x := hs[x]] && hs[x].block.size == n && |hs[x].words| == n / 8
    {
      hide Consistent, StepBy, AllSame, Inv, Linked, Reaches, Fresh, Put, Taken, Spells, Apart, FirstFit, RoundUp, Read;
      ghost var c := Now();
      var ret := st.Alloc(n, page, unmaps);
      ok := ret != 0;
      if ok {
        blocks := blocks[x := Block(ret, n)];
        hs := hs[x := Holding(Block(ret, n), Read(st.mem, ret, n / 8))];
        AllocateStep(c, Now(), x);
      } else {
        IdleStep(c, Now(), x);
      }
      StepConsistent(c, Now(), {x});
    }

    /** A client frees its block. */
    method Dispose(x: int, unmaps: bool)
      requires Valid() && x in blocks
      modifies this, st
      ensures Valid() && vectors == old(vectors) && StepBy(old(Now()), Now(), {x})
      ensures hs == old(hs) - {x}
    {
      hide Consistent, StepBy, AllSame, Inv, Linked, Reaches, Put, Spells;
      ghost var c := Now();
      ConsistentHolding(c, x);
      var b := blocks[x];
      st.Free(b.addr, b.size, unmaps);
      blocks := blocks - {x};
      hs := hs - {x};
      DropStep(c, Now(), x);
      StepConsistent(c, Now(), {x});
    }

    /** A client writes word i of what it holds. */
    method Store(x: int, i: nat, v: int, addr: int)
      requires Valid() && x in hs && i < |hs[x].words| && addr == hs[x].block.addr
      modifies st`mem, `hs
      ensures Valid() && StepBy(old(Now()), Now(), {x})
      ensures hs == old(hs)[x := old(hs)[x].(words := old(hs)[x].words[i := v])]
    {
      hide Consistent, StepBy, Inv, Linked, Spells;
      ghost var c := Now();
      ghost var h := hs[x];
      StoreStep(c, x, i, v);
      st.Write(addr + 8 * i, v, h.block);
      hs := hs[x := h.(words := h.words[i := v])];
      StepConsistent(c, Now(), {x});
    }

    /** A new client starts a vector. */
    method NewVector(x: int)
      requires Valid() && x !in hs
      modifies this
      ensures Valid() && StepBy(old(Now()), Now(), {x})
      ensures x in vectors && fresh(vectors[x]) && vectors == old(vectors)[x := vectors[x]]
      ensures hs == old(hs)[x := Holding(Block(0, 0), [])]
    {
      hide Consistent, StepBy, Inv, Linked;
      ghost var c := Now();
      var v := new Vector();
      vectors := vectors[x := v];
      hs := hs[x := Holding(Block(0, 0), [])];
      NewVectorStep(c, x);
      StepConsistent(c, Now(), {x});
    }

    /** A client grows its vector by k words: the words it had stay in front, wherever they are now. */
    method GrowVector(x: int, k: nat, page: int, unmaps: bool) returns (ok: bool)
      requires Valid() && x in vectors
      requires page != 0 ==> Fresh(st.s, Block(page, RoundUp(GrowTo(vectors[x].size, 8 * k, st.pagesize), st.pagesize)))
      modifies `hs, st, vectors[x]
      ensures Valid() && StepBy(old(Now()), Now(), {x})
      ensures x in hs && hs == old(hs)[x := hs[x]]
      ensures !ok ==> hs == old(hs)
      ensures ok ==> |hs[x].words| == |old(hs)[x].words| + k && old(hs)[x].words <= hs[x].words
    {
      hide Consistent, StepBy, AllSame, Inv, Linked, Reaches, Spells, Fresh, Copied, GrowTo, RoundUp, Without, Read, Apart;
      ghost var c := Now();
      var v := vectors[x];
      VectorOwned(x);
      var alc0 := v.alc;
      ghost var base0, size0 := v.base, v.size;
      var ret := v.Grow(st, 8 * k, page, unmaps);
      ok := !(ret == 0 && 8 * k > alc0);
      ghost var more := if ok then Read(st.mem, v.base + size0, k) else [];
      NoWords(st.mem, v.base + size0, []);
      assert hs[x].words + [] == hs[x].words;
      hs := hs[x := Holding(v.Held(), hs[x].words + more)];
      GrowStep(c, Now(), x, base0, v.base, more, ret != 0 && 8 * k > alc0);
      StepConsistent(c, Now(), {x});
    }

    /** A client hands the words collected in its vector to a new client and goes on. */
    method FinishVector(x: int, y: int)
      requires Valid() && x in vectors && y !in hs
      modifies this, st`s, vectors[x]
      ensures Valid() && vectors == old(vectors) && StepBy(old(Now()), Now(), {x, y})
      ensures y in hs && hs[y].words == old(hs)[x].words && x in hs && hs[x].words == []
      ensures hs == old(hs)[x := hs[x]][y := hs[y]]
    {
      hide Consistent, StepBy, Inv, Linked, Reaches, Spells, With, Without;
      ghost var c := Now();
      var v := vectors[x];
      VectorOwned(x);
      var size := v.size;
      var ret := v.Finish(st);
      blocks := blocks[y := Block(ret, size)];
      hs := hs[x := Holding(v.Held(), [])][y := Holding(Block(ret, size), hs[x].words)];
      FinishStep(c, Now(), x, y, ret, size, v.alc);
      StepConsistent(c, Now(), {x, y});
    }

    /** A client gives the spare room of its vector back. */
    method ReleaseVector(x: int, unmaps: bool)
      requires Valid() && x in vectors
      modifies `hs, st, vectors[x]
      ensures Valid() && StepBy(old(Now()), Now(), {x})
      ensures x in hs && hs == old(hs)[x := hs[x]] && hs[x].words == old(hs)[x].words
    {
      hide Consistent, StepBy, AllSame, Inv, Linked, Reaches, Spells, Copied, With, Without;
      ghost var c := Now();
      var v := vectors[x];
      VectorOwned(x);
      v.Release(st, unmaps);
      hs := hs[x := Holding(v.Held(), hs[x].words)];
      ReleaseStep(c, Now(), x, v.base, v.size);
      StepConsistent(c, Now(), {x});
    }
  }

  lemma AllocateStep(c: Config, c': Config, x: int)
    requires Consistent(c) && x !in c.hs && x in c'.hs && c'.hs == c.hs[x := c'.hs[x]] && Total(c'.mem) && Reaches(c.s, c'.s)
    requires AllSame(c.mem, c'.mem, c.s.live) && c'.s.live == c.s.live + {c'.hs[x].block}
    requires forall b :: b in c.s.live ==> Apart(b, c'.hs[x].block)
    requires 8 * |c'.hs[x].words| <= c'.hs[x].block.size && Spells(c'.mem, c'.hs[x].block.addr, c'.hs[x].words)
    ensures StepBy(c, c', {x})
  {
    hide Consistent, StepBy, Same, Inv, Reaches, Spells, Apart;
    var h := c'.hs[x];
    ConsistentInv(c);
    if h.block.size > 0 { NewNotLive(c.s, h.block); }
    HoldStep(c, c', x, h);
  }

  lemma StoreStep(c: Config, x: int, i: nat, v: int)
    requires Consistent(c) && x in c.hs && i < |c.hs[x].words|
    ensures var h := c.hs[x]; var a := h.block.addr + 8 * i;
            && a % 8 == 0 && InBlock(a, h.block) && h.block in c.s.live
            && StepBy(c, Config(c.mem[a := v], c.s, c.hs[x := h.(words := h.words[i := v])]), {x})
  {
    hide Consistent, StepBy, Same, Inv, Reaches, Spells;
    var h := c.hs[x];
    var a := h.block.addr + 8 * i;
    ConsistentHolding(c, x);
    ConsistentInv(c);
    LiveOk(c.s, h.block);
    WordAt(h.block, i, |h.words|);
    WriteStays(c.mem, c.s, h.block, a, v);
    SpellsWrite(c.mem, h.block.addr, h.words, i, v);
    ReachesSelf(c.s);
    var h' := h.(words := h.words[i := v]);
    HoldStep(c, Config(c.mem[a := v], c.s, c.hs[x := h']), x, h');
  }

  lemma NewVectorStep(c: Config, x: int)
    requires Consistent(c) && x !in c.hs
    ensures StepBy(c, c.(hs := c.hs[x := Holding(Block(0, 0), [])]), {x})
  {
    hide StepBy, Same, Inv, Reaches, Spells, HoldingOk, Distinct;
    ReachesSelf(c.s);
    AllSameSelf(c.mem, c.s.live);
    NoWords(c.mem, 0, []);
    EmptyHolding(c.mem, c.s.live);
    HoldStep(c, c.(hs := c.hs[x := Holding(Block(0, 0), [])]), x, Holding(Block(0, 0), []));
  }

  lemma EmptyHolding(mem: Memory, live: set<Block>)
    requires Total(mem)
    ensures HoldingOk(mem, live, Holding(Block(0, 0), []))
  {}

  lemma FinishStep(c: Config, c': Config, x: int, y: int, base: int, size: nat, alc: nat)
    requires Consistent(c) && x in c.hs && y !in c.hs && c.hs[x].block == Block(base, size + alc) && 8 * |c.hs[x].words| == size
    requires c'.mem == c.mem && Reaches(c.s, c'.s)
    requires c'.s.live == With(With(Without(c.s.live, Block(base, size + alc)), Block(base, size)), Block(base + size, alc))
    requires c'.hs == c.hs[x := Holding(Block(base + size, alc), [])][y := Holding(Block(base, size), c.hs[x].words)]
    ensures StepBy(c, c', {x, y})
  {
    hide Consistent, StepBy, Same, Inv, Reaches, Spells;
    var own, h, k := Block(base, size + alc), Holding(Block(base + size, alc), []), Holding(Block(base, size), c.hs[x].words);
    ConsistentHolding(c, x);
    if size > 0 && alc > 0 {
      ConsistentInv(c);
      PartNotLive(c.s, own, k.block);
      PartNotLive(c.s, own, h.block);
    }
    NoWords(c.mem, base + size, []);
    AllSameSelf(c.mem, c.s.live);
    HandStep(c, c', x, y, h, k);
  }

  lemma ConsistentInv(c: Config)
    requires Consistent(c)
    ensures Inv(c.s) && Total(c.mem)
  {}

  lemma ReleaseStep(c: Config, c': Config, x: int, base: int, size: nat)
    requires Consistent(c) && x in c.hs && Total(c'.mem) && Reaches(c.s, c'.s) && 8 * |c.hs[x].words| == size
    requires c.hs[x].block.addr == base && c.hs[x].block.size >= size
    requires AllSame(c.mem, c'.mem, Without(c.s.live, c.hs[x].block)) && Copied(c.mem, c'.mem, base, base, size)
    requires c'.s.live == With(Without(c.s.live, c.hs[x].block), Block(base, size))
    requires c'.hs == c.hs[x := Holding(Block(base, size), c.hs[x].words)]
    ensures StepBy(c, c', {x})
  {
    hide Consistent, StepBy, Same, Inv, Reaches, Spells, Copied;
    var own, h := c.hs[x].block, Holding(Block(base, size), c.hs[x].words);
    ConsistentHolding(c, x);
    if size > 0 && own != h.block {
      ConsistentInv(c);
      PartNotLive(c.s, own, h.block);
    }
    SpellsCopied(c.mem, c'.mem, base, base, h.words);
    HoldStep(c, c', x, h);
  }

  lemma GrowStep(c: Config, c': Config, x: int, base: int, base': int, more: seq<int>, moved: bool)
    requires Consistent(c) && x in c.hs && x in c'.hs && Total(c'.mem) && Reaches(c.s, c'.s)
    requires c.hs[x].block.addr == base && c'.hs[x].block.addr == base' && c'.hs == c.hs[x := c'.hs[x]]
    requires var words := c.hs[x].words;
             && Copied(c.mem, c'.mem, base, base', 8 * |words|)
             && c'.hs[x].words == words + more && 8 * |words + more| <= c'.hs[x].block.size
             && Spells(c'.mem, base' + 8 * |words|, more)
    requires AllSame(c.mem, c'.mem, Without(c.s.live, c.hs[x].block))
    requires if moved then c'.s.live == Without(c.s.live, c.hs[x].block) + {c'.hs[x].block}
                           && forall b :: b in c.s.live ==> Apart(b, c'.hs[x].block)
             else c'.s == c.s && c'.hs[x].block == c.hs[x].block
    ensures StepBy(c, c', {x})
  {
    hide Consistent, StepBy, Same, Inv, Reaches, Spells, Copied, Apart;
    var own, h, words := c.hs[x].block, c'.hs[x], c.hs[x].words;
    ConsistentHolding(c, x);
    SpellsCopied(c.mem, c'.mem, base, base', words);
    SpellsConcat(c'.mem, base', words, more);
    GrownIsOwn(c, x, own, h.block);
    HoldStep(c, c', x, h);
  }

  /** What a growing vector holds is its old block or a new one, none of the others. */
  lemma GrownIsOwn(c: Config, x: int, own: Block, held: Block)
    requires own == Own(c, x)
    requires held == own || (held.size > 0 ==> forall b :: b in c.s.live ==> Apart(b, held))
    ensures held.size > 0 ==> held !in Without(c.s.live, own)
  {
    if held != own && held.size > 0 { NewNotLive(c.s, held); }
  }

  lemma IdleStep(c: Config, c': Config, x: int)
    requires Consistent(c) && Total(c'.mem) && c'.s == c.s && c'.hs == c.hs && x !in c.hs && AllSame(c.mem, c'.mem, c.s.live)
    ensures StepBy(c, c', {x})
  {
    hide Inv, Same, HoldingOk, Distinct, Reaches;
    ReachesSelf(c.s);
    forall y | y in c.hs
      ensures Untouched(c, c', y)
    {
      OthersUntouched(c, c', x, y);
    }
  }
}
