/** Memory under the aligned allocator: the block address saved in front of the data, and what
    dealloc finds there after any run of allocations, stores and frees. */
module SecretHeap {
  import opened Options
  import opened AlignAlloc
  import opened SecretPlacement
  import opened AlignedPointer
  import opened Modular

  type Memory = map<int, nat>

  function Get(m: Memory, x: int): nat
  {
    if x in m then m[x] else 0
  }

  function SaveWord(m: Memory, at: int, v: nat, n: nat): Memory
    decreases n
  {
    if n == 0 then m else SaveWord(m[at := v % 256], at + 1, v / 256, n - 1)
  }

  function LoadWord(m: Memory, at: int, n: nat): nat
    decreases n
  {
    if n == 0 then 0 else Get(m, at) + 256 * LoadWord(m, at + 1, n - 1)
  }

  /** v fits in n bytes. */
  predicate Width(v: nat, n: nat)
  {
    if n == 0 then v == 0 else Width(v / 256, n - 1)
  }

  lemma {:induction false} SaveFrame(m: Memory, at: int, v: nat, n: nat, x: int)
    requires !(at <= x < at + n)
    ensures Get(SaveWord(m, at, v, n), x) == Get(m, x)
    decreases n
  {
    if n > 0 { SaveFrame(m[at := v % 256], at + 1, v / 256, n - 1, x); }
  }

  lemma {:induction false} SaveLoad(m: Memory, at: int, v: nat, n: nat)
    requires Width(v, n)
    ensures LoadWord(SaveWord(m, at, v, n), at, n) == v
    decreases n
  {
    if n > 0 {
      var m1 := m[at := v % 256];
      SaveFrame(m1, at + 1, v / 256, n - 1, at);
      SaveLoad(m1, at + 1, v / 256, n - 1);
    }
  }

  lemma {:induction false} LoadAgrees(m: Memory, m1: Memory, at: int, n: nat)
    requires forall x :: at <= x < at + n ==> Get(m, x) == Get(m1, x)
    ensures LoadWord(m, at, n) == LoadWord(m1, at, n)
    decreases n
  {
    if n > 0 { LoadAgrees(m, m1, at + 1, n - 1); }
  }

  lemma WordWidth(v: nat)
    requires v <= UsizeMax
    ensures Width(v, 8)
  {
    WidthStep(v, 8);
    WidthStep(v / 256, 7);
    WidthStep(v / 256 / 256, 6);
    var v3 := v / 256 / 256 / 256;
    assert v3 <= 0xFF_FFFF_FFFF;
    FiveBytes(v3);
  }

  lemma FiveBytes(v: nat)
    requires v <= 0xFF_FFFF_FFFF
    ensures Width(v, 5)
  {
    WidthStep(v, 5);
    WidthStep(v / 256, 4);
    WidthStep(v / 256 / 256, 3);
    WidthStep(v / 256 / 256 / 256, 2);
    assert v / 256 / 256 / 256 / 256 <= 0xFF;
    OneByte(v / 256 / 256 / 256 / 256);
  }

  lemma OneByte(v: nat)
    requires v <= 0xFF
    ensures Width(v, 1)
  {
    WidthStep(v, 1);
    assert Width(v / 256, 0);
  }

  lemma WidthStep(v: nat, n: nat)
    requires n > 0
    ensures Width(v, n) <==> Width(v / 256, n - 1)
  {}

  function ZeroFill(m: Memory, at: int, n: nat): Memory
    decreases n
  {
    if n == 0 then m else ZeroFill(m[at := 0], at + 1, n - 1)
  }

  lemma {:induction false} ZeroFillAt(m: Memory, at: int, n: nat, x: int)
    ensures Get(ZeroFill(m, at, n), x) == if at <= x < at + n then 0 else Get(m, x)
    decreases n
  {
    if n > 0 { ZeroFillAt(m[at := 0], at + 1, n - 1, x); }
  }

  /** The checks that end an allocation with a null pointer before malloc is asked. */
  predicate Admissible(layout: Layout, l: Layout)
  {
    LayoutOk(layout) && LayoutOk(l) && l.size >= layout.size + l.align
  }

  /** Memory after cutting a pointer out of the block at raw. */
  function AfterAlloc(m: Memory, zeroed: bool, layout: Layout, l: Layout, raw: nat): Memory
    requires l.align > 0
  {
    SaveWord(if zeroed then ZeroFill(m, raw, l.size) else m, Pointer(layout, l, raw) - 8, raw, 8)
  }

  function Effective(layout: Layout, reqs: seq<Req>): seq<Req>
  {
    if reqs == [] then [Req(0, layout.size)] else reqs
  }

  lemma PointerInside(layout: Layout, l: Layout, raw: nat)
    requires Admissible(layout, l)
    ensures l.align > 0
    ensures raw + Pad(layout, l) <= Pointer(layout, l, raw) && Pointer(layout, l, raw) + layout.size < raw + l.size
  {
    RoundUp(raw, l.align);
  }

  /** The saved address reads back, and with zeroing all data bytes are zero. */
  lemma AllocSaves(m: Memory, zeroed: bool, layout: Layout, l: Layout, raw: nat)
    requires Admissible(layout, l) && raw <= UsizeMax
    ensures l.align > 0
    ensures var p, m1 := Pointer(layout, l, raw), AfterAlloc(m, zeroed, layout, l, raw);
            && LoadWord(m1, p - 8, 8) == raw
            && (zeroed ==> forall x :: p <= x < p + layout.size ==> Get(m1, x) == 0)
  {
    hide SaveWord, LoadWord, ZeroFill, Width, LayoutOk, Pointer;
    PointerInside(layout, l, raw);
    WordWidth(raw);
    var p := Pointer(layout, l, raw);
    var m0 := if zeroed then ZeroFill(m, raw, l.size) else m;
    SaveLoad(m0, p - 8, raw, 8);
    forall x | p <= x < p + layout.size
      ensures zeroed ==> Get(AfterAlloc(m, zeroed, layout, l, raw), x) == 0
    {
      SaveFrame(m0, p - 8, raw, 8, x);
      ZeroFillAt(m, raw, l.size, x);
    }
  }

  /** Nothing outside the block and the saved word changes. */
  lemma AllocFrame(m: Memory, zeroed: bool, layout: Layout, l: Layout, raw: nat, x: int)
    requires Admissible(layout, l)
    requires l.align > 0 && !(raw <= x < raw + l.size) && !(Pointer(layout, l, raw) - 8 <= x < Pointer(layout, l, raw))
    ensures Get(AfterAlloc(m, zeroed, layout, l, raw), x) == Get(m, x)
  {
    hide SaveWord, ZeroFill, LayoutOk, Pointer;
    ZeroFillAt(m, raw, l.size, x);
    SaveFrame(if zeroed then ZeroFill(m, raw, l.size) else m, Pointer(layout, l, raw) - 8, raw, 8, x);
  }

  // ----- runs -----

  datatype Block = Block(layout: Layout, l: Layout, raw: nat, pointer: int)

  datatype Step =
    | Alloc(zeroed: bool, block: Block)
    | Store(block: Block, index: nat, value: nat)
    | Free(block: Block)

  datatype State = State(mem: Memory, live: set<Block>)

  /** malloc gave the block l.size + 8 bytes. */
  predicate Apart(a: Block, b: Block)
  {
    a.raw + a.l.size + 8 <= b.raw || b.raw + b.l.size + 8 <= a.raw
  }

  /** A block as the allocator makes it, with room in front of the data for the saved word. */
  predicate Made(b: Block)
  {
    && Admissible(b.layout, b.l) && 0 < b.raw <= UsizeMax
    && b.l.align > 0 && b.pointer == Pointer(b.layout, b.l, b.raw) && b.raw <= b.pointer - 8
  }

  /** What the environment and the client may do: malloc hands out unused memory, stores stay in
      live data, only live pointers are freed. */
  predicate Enabled(s: State, t: Step)
  {
    match t
    case Alloc(_, b) => Made(b) && forall c <- s.live :: Apart(b, c)
    case Store(b, index, value) => b in s.live && index < b.layout.size
    case Free(b) => b in s.live
  }

  function Next(s: State, t: Step): State
    requires Enabled(s, t)
  {
    match t
    case Alloc(zeroed, b) => State(AfterAlloc(s.mem, zeroed, b.layout, b.l, b.raw), s.live + {b})
    case Store(b, index, value) => s.(mem := s.mem[b.pointer + index := value])
    case Free(b) => s.(live := s.live - {b})
  }

  /** Live blocks lie apart and each still holds its own address in front of its data. */
  ghost predicate Inv(s: State)
  {
    && (forall b <- s.live :: Made(b) && LoadWord(s.mem, b.pointer - 8, 8) == b.raw)
    && (forall b, c :: b in s.live && c in s.live && b != c ==> Apart(b, c))
  }

  predicate InBlock(b: Block, x: int)
  {
    b.raw <= x < b.raw + b.l.size
  }

  lemma MadeInside(b: Block)
    requires Made(b)
    ensures b.raw <= b.pointer - 8 && b.pointer + b.layout.size < b.raw + b.l.size
  {
    PointerInside(b.layout, b.l, b.raw);
  }

  lemma StepOther(s: State, t: Step, c: Block, x: int)
    requires Inv(s) && Enabled(s, t) && c in s.live && c != t.block && InBlock(c, x)
    ensures Get(Next(s, t).mem, x) == Get(s.mem, x)
  {
    hide LoadWord, AfterAlloc, Admissible, Pointer, Pad;
    match t
    case Alloc(zeroed, b) =>
      MadeInside(b);
      AllocFrame(s.mem, zeroed, b.layout, b.l, b.raw, x);
    case Store(b, index, value) =>
      MadeInside(b);
    case Free(b) =>
  }

  lemma StepKeepsWord(s: State, t: Step, c: Block)
    requires Inv(s) && Enabled(s, t) && c in Next(s, t).live
    ensures LoadWord(Next(s, t).mem, c.pointer - 8, 8) == c.raw
  {
    hide LoadWord, AfterAlloc, Admissible, Pointer, Pad;
    if t.Alloc? && c == t.block {
      AllocSaves(s.mem, t.zeroed, c.layout, c.l, c.raw);
    } else {
      MadeInside(c);
      forall x | c.pointer - 8 <= x < c.pointer
        ensures Get(s.mem, x) == Get(Next(s, t).mem, x)
      {
        if c != t.block { StepOther(s, t, c, x); }
      }
      LoadAgrees(s.mem, Next(s, t).mem, c.pointer - 8, 8);
    }
  }

  lemma StepKeeps(s: State, t: Step)
    requires Inv(s) && Enabled(s, t)
    ensures Inv(Next(s, t))
  {
    hide LoadWord, AfterAlloc, Made;
    forall c | c in Next(s, t).live
      ensures Made(c) && LoadWord(Next(s, t).mem, c.pointer - 8, 8) == c.raw
    {
      StepKeepsWord(s, t, c);
    }
  }

  ghost predicate Run(states: seq<State>, steps: seq<Step>)
  {
    && |states| == |steps| + 1
    && states[0] == State(map[], {})
    && forall i :: 0 <= i < |steps| ==> Enabled(states[i], steps[i]) && states[i + 1] == Next(states[i], steps[i])
  }

  lemma {:induction false} RunKeeps(states: seq<State>, steps: seq<Step>, n: nat)
    requires Run(states, steps) && n < |states|
    ensures Inv(states[n])
  {
    if n > 0 {
      RunKeeps(states, steps, n - 1);
      StepKeeps(states[n - 1], steps[n - 1]);
    }
  }

  /** In every run, freeing a pointer gives back exactly the block malloc returned for it, and a step
      on one block leaves every byte of the others alone. */
  lemma RunReturnsBlocks(states: seq<State>, steps: seq<Step>, n: nat)
    requires Run(states, steps) && n < |steps|
    ensures steps[n].Free? ==> LoadWord(states[n].mem, steps[n].block.pointer - 8, 8) == steps[n].block.raw
    ensures forall c, x :: c in states[n].live && c != steps[n].block && InBlock(c, x) ==>
              Get(states[n + 1].mem, x) == Get(states[n].mem, x)
  {
    hide LoadWord, InBlock;
    RunKeeps(states, steps, n);
    forall c, x | c in states[n].live && c != steps[n].block && InBlock(c, x)
      ensures Get(states[n + 1].mem, x) == Get(states[n].mem, x)
    {
      StepOther(states[n], steps[n], c, x);
    }
  }

  // ----- the allocator -----

  class Heap {
    var mem: Memory
    /** The blocks in use that have room for the saved word. */
    ghost var live: set<Block>

    ghost predicate Valid()
      reads this
    {
      Inv(State(mem, live))
    }

    constructor ()
      ensures Valid() && mem == map[] && live == {}
    {
      mem := map[];
      live := {};
    }

    /** raw is what malloc returned for l.size + 8 bytes, memory not in use or 0 for null.  The heap stays
        valid if there is room for the saved word. */
    method AllocWithPadAlign(zeroed: bool, layout: Layout, l: Layout, raw: nat) returns (p: int)
      requires Valid() && raw <= UsizeMax && (raw != 0 ==> forall c <- live :: Apart(Block(layout, l, raw, 0), c))
      modifies this
      ensures p == 0 <==> !Admissible(layout, l) || raw == 0
      ensures p == 0 ==> Valid() && mem == old(mem) && live == old(live)
      ensures p != 0 ==> l.align > 0 && p == Pointer(layout, l, raw) && mem == AfterAlloc(old(mem), zeroed, layout, l, raw)
      ensures p != 0 && raw <= p - 8 ==> Valid() && live == old(live) + {Block(layout, l, raw, p)}
      ensures p != 0 && raw > p - 8 ==> live == old(live)
    {
      hide SaveWord, ZeroFill, Inv, AfterAlloc;
      if !LayoutOk(layout) { return 0; }
      if !LayoutOk(l) { return 0; }
      if l.size < layout.size + l.align { return 0; }
      var pad := l.size - l.align - layout.size;
      if raw == 0 { return 0; }
      ghost var s := State(mem, live);
      if zeroed { mem := ZeroFill(mem, raw, l.size); }
      p := MakeAlignedPtr(raw, l.align, pad);
      RoundUp(raw, l.align);
      mem := SaveWord(mem, p - 8, raw, 8);
      AfterAllocIs(s.mem, zeroed, layout, l, raw);
      if raw <= p - 8 {
        ghost var b := Block(layout, l, raw, p);
        assert forall c <- live :: Apart(b, c);
        StepKeeps(s, Alloc(zeroed, b));
        live := live + {b};
      }
    }

    /** No request at all stands for a request of the whole data.  A pointer that is handed out keeps
        every requested byte off the bad line positions and its data inside the block.  `malloc` says
        what malloc would return for each size. */
    method AllocWithReq(zeroed: bool, layout: Layout, reqs: seq<Req>, granted: bool, malloc: nat -> nat)
      returns (p: int, l: Layout, raw: nat)
      requires Valid() && forall n :: Vacant(live, malloc(n), n)
      modifies this
      ensures p == 0 ==> Valid() && mem == old(mem) && live == old(live)
      ensures p != 0 ==> Padded(layout, Effective(layout, reqs), l) && Admissible(layout, l) && l.align > 0
      ensures p != 0 ==> mem == AfterAlloc(old(mem), zeroed, layout, l, raw) && p == Pointer(layout, l, raw)
      ensures p != 0 ==> raw <= p && p + layout.size < raw + l.size
      ensures p != 0 ==> forall x :: Covers(Effective(layout, reqs), x) ==> !Bad(p + x)
      ensures p != 0 && RoomInFront(layout, Effective(layout, reqs)) ==>
                Valid() && live == old(live) + {Block(layout, l, raw, p)}
    {
      hide AfterAlloc, Padded, Covers, Pointer, LayoutOk, Bad, Inv, RoomInFront;
      p, l, raw := 0, Layout(0, 1), 0;
      if !LayoutOk(layout) { return; }
      var r := PadAlignTo(layout, Effective(layout, reqs), granted);
      if r.None? { return; }
      l := r.value;
      raw := malloc(l.size + 8);
      VacantIsApart(live, layout, l, raw);
      p := AllocWithPadAlign(zeroed, layout, l, raw);
      if p != 0 {
        DataInside(layout, Effective(layout, reqs), l, raw);
        SlotInsideIff(layout, Effective(layout, reqs), l);
        forall x | Covers(Effective(layout, reqs), x)
          ensures !Bad(p + x)
        {
          NoSecretOnBadPosition(layout, Effective(layout, reqs), l, raw, x);
        }
      }
    }

    /** A client stores into data it owns. */
    method Write(b: Block, index: nat, value: nat)
      requires Valid() && b in live && index < b.layout.size
      modifies this`mem
      ensures Valid() && mem == old(mem)[b.pointer + index := value]
    {
      hide Inv;
      StepKeeps(State(mem, live), Store(b, index, value));
      mem := mem[b.pointer + index := value];
    }

    /** Giving a pointer back frees the block that malloc returned for it, whatever the client has stored
        in its data. */
    method Dealloc(p: int, ghost b: Block) returns (raw: nat)
      requires Valid() && b in live && b.pointer == p
      modifies this`live
      ensures raw == b.raw
      ensures Valid() && live == old(live) - {b}
    {
      hide LoadWord;
      raw := LoadWord(mem, p - 8, 8);
      StepKeeps(State(mem, live), Free(b));
      live := live - {b};
    }
  }

  /** The n bytes at raw are an address malloc may return: in no live block, or 0 for null. */
  predicate Vacant(live: set<Block>, raw: nat, n: nat)
  {
    raw <= UsizeMax && forall c <- live :: raw != 0 ==> raw + n <= c.raw || c.raw + c.l.size + 8 <= raw
  }

  lemma VacantIsApart(live: set<Block>, layout: Layout, l: Layout, raw: nat)
    requires Vacant(live, raw, l.size + 8)
    ensures raw <= UsizeMax && (raw != 0 ==> forall c <- live :: Apart(Block(layout, l, raw, 0), c))
  {}

  lemma AfterAllocIs(m: Memory, zeroed: bool, layout: Layout, l: Layout, raw: nat)
    requires l.align > 0
    ensures AfterAlloc(m, zeroed, layout, l, raw)
            == SaveWord(if zeroed then ZeroFill(m, raw, l.size) else m, MakeAlignedPtr(raw, l.align, Pad(layout, l)) - 8, raw, 8)
  {}
}
