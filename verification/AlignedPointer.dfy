/** The padded layout, the pointer cut out of a malloc block, and the word in front of it that
    remembers the block for dealloc. */
module AlignedPointer {
  import opened Options
  import opened AlignAlloc
  import opened SecretPlacement
  import opened Modular

  // ----- the layout -----

  predicate LayoutOk(l: Layout)
  {
    l.size != 0 && PowerOfTwo(l.align) && l.size <= UsizeMax - (l.align - 1)
  }

  function ShrinkAlign(size: nat, a: nat): nat
    decreases a
  {
    if a > 8 && size <= a / 2 then ShrinkAlign(size, a / 2) else a
  }

  function CalcAlgn(al: nat, size: nat): nat
  {
    if al > 64 then al else ShrinkAlign(size, 64)
  }

  /** The chosen alignment holds the padded data in one aligned slot, unless it is a whole line. */
  lemma CalcAlgnHolds(al: nat, size: nat)
    requires PowerOfTwo(al)
    ensures var a := CalcAlgn(al, size);
            if al > 64 then a == al
            else a in {8, 16, 32, 64} && (a < 64 ==> size <= a) && (a > 8 ==> size > a / 2)
  {
    assert ShrinkAlign(size, 64) == if size <= 32 then ShrinkAlign(size, 32) else 64;
    assert ShrinkAlign(size, 32) == if size <= 16 then ShrinkAlign(size, 16) else 32;
    assert ShrinkAlign(size, 16) == if size <= 8 then ShrinkAlign(size, 8) else 16;
  }

  /** Moving the data by o keeps every requested byte off the bad line positions. */
  ghost predicate SafeFor(reqs: seq<Req>, o: int)
  {
    forall x :: Covers(reqs, x) ==> !Bad(x + o)
  }

  ghost predicate LeastSafe(al: nat, reqs: seq<Req>, pad: int)
    requires al > 0
  {
    && Candidate(al, pad)
    && SafeFor(reqs, pad)
    && forall o :: Candidate(al, o) && SafeFor(reqs, o) ==> pad <= o
  }

  /** What the padded layout promises: it splits into a least safe pad, the alignment chosen for
      the padded size, and the data. */
  ghost predicate Padded(layout: Layout, reqs: seq<Req>, l: Layout)
  {
    && LayoutOk(layout)
    && Fits(layout.size, reqs)
    && l.size >= l.align + layout.size
    && LeastSafe(layout.align, reqs, Pad(layout, l))
    && l.align == CalcAlgn(layout.align, layout.size + Pad(layout, l))
  }

  function Pad(layout: Layout, l: Layout): int
  {
    l.size - l.align - layout.size
  }

  lemma LspcForRequests(al: nat, bmp: Word, reqs: seq<Req>)
    requires PowerOfTwo(al) && Bitmap(bmp, reqs)
    ensures var r := CalcLspc(al, bmp);
            if r < 0 then forall o :: Candidate(al, o) ==> !SafeFor(reqs, o) else LeastSafe(al, reqs, r)
  {
    hide Bitmap, CalcLspc, Covers;
    CalcLspcIsLeast(al, bmp);
    forall o: int
      ensures Safe(bmp, o) <==> SafeFor(reqs, o)
    {
      SafeMeans(bmp, reqs, o);
    }
  }

  /** Fails exactly when the layout or the requests are malformed, no offset is safe, or the padded
      size is too large; otherwise pads by the least safe offset. */
  method PadAlignTo(layout: Layout, reqs: seq<Req>, granted: bool) returns (r: Option<Layout>)
    ensures r.Some? ==> Padded(layout, reqs, r.value) && reqs != [] && Disjoint(reqs)
                        && r.value.size <= UsizeMax - (r.value.align - 1)
    ensures r.None? ==>
              || !LayoutOk(layout) || reqs == [] || !granted || !Fits(layout.size, reqs) || !Disjoint(reqs)
              || (forall o :: Candidate(layout.align, o) ==> !SafeFor(reqs, o))
              || exists l :: Padded(layout, reqs, l) && l.size > UsizeMax - (l.align - 1)
  {
    hide Bitmap, CalcLspc, Covers, Disjoint, Fits, CalcAlgn, SafeFor;
    if !LayoutOk(layout) { return None; }
    var ok := CheckAlignReq(layout.size, reqs, granted);
    if !ok { return None; }
    var bmp := MakeBitmap(reqs);
    var offset := CalcLspc(layout.align, bmp);
    LspcForRequests(layout.align, bmp, reqs);
    if offset < 0 { return None; }
    CalcAlgnHolds(layout.align, layout.size + offset);
    var align := CalcAlgn(layout.align, layout.size + offset);
    var l := Layout(offset + align + layout.size, align);
    assert Padded(layout, reqs, l);
    if l.size > UsizeMax - (align - 1) { return None; }
    return Some(l);
  }

  // ----- the pointer -----

  /** Rounds up to a multiple of the power of two align, then skips the pad. */
  function MakeAlignedPtr(raw: nat, align: nat, pad: int): int
    requires align > 0
  {
    raw + align - 1 - (raw + align - 1) % align + pad
  }

  function Pointer(layout: Layout, l: Layout, raw: nat): int
    requires l.align > 0
  {
    MakeAlignedPtr(raw, l.align, Pad(layout, l))
  }

  lemma RoundUp(raw: nat, a: nat)
    requires a > 0
    ensures var b := MakeAlignedPtr(raw, a, 0); raw <= b < raw + a && b % a == 0
  {
    RoundDown(raw + a - 1, a);
  }

  lemma {:induction false} PowersNest(a: nat, b: nat)
    requires PowerOfTwo(a) && PowerOfTwo(b) && b <= a
    ensures a % b == 0
  {
    if b > 1 {
      PowersNest(a / 2, b / 2);
      DivMod(a / 2, b / 2);
      var q := (a / 2) / (b / 2);
      Assoc(2, b / 2, q);
      assert a == b * q;
      MulMod(q, b);
    }
  }

  lemma SlotInLine(base: nat, a: nat)
    requires a in {8, 16, 32} && base % a == 0
    ensures base % 64 <= 64 - a && (base % 64 == 0 || base % 64 >= 8)
  {
    if a == 8 { SlotInLine8(base); } else if a == 16 { SlotInLine16(base); } else { SlotInLine32(base); }
  }

  lemma SlotInLine8(base: nat)
    requires base % 8 == 0
    ensures base % 64 <= 56 && (base % 64 == 0 || base % 64 >= 8)
  {}

  lemma SlotInLine16(base: nat)
    requires base % 16 == 0
    ensures base % 64 <= 48 && (base % 64 == 0 || base % 64 >= 8)
  {}

  lemma SlotInLine32(base: nat)
    requires base % 32 == 0
    ensures base % 64 <= 32 && (base % 64 == 0 || base % 64 >= 8)
  {}

  /** Adding a small safe offset to a multiple of a small slot stays off the bad positions. */
  lemma SlotStaysSafe(base: nat, a: nat, y: nat)
    requires a in {8, 16, 32} && base % a == 0 && y < a && !Bad(y)
    ensures !Bad(base + y)
  {
    SlotInLine(base, a);
    var k := base % 64;
    assert (base + y) % 64 == k + y;
  }

  /** Wherever malloc puts the block, no requested byte lies at line position 0 or 4..7. */
  lemma NoSecretOnBadPosition(layout: Layout, reqs: seq<Req>, l: Layout, raw: nat, x: int)
    requires Padded(layout, reqs, l) && Covers(reqs, x)
    ensures l.align > 0 && !Bad(Pointer(layout, l, raw) + x)
  {
    hide PowerOfTwo, CalcAlgn, Bad;
    var pad, al, a := Pad(layout, l), layout.align, l.align;
    CalcAlgnHolds(al, layout.size + pad);
    RoundUp(raw, a);
    var base := MakeAlignedPtr(raw, a, 0);
    assert 0 <= x < layout.size;
    assert !Bad(x + pad);
    if a < 64 {
      SlotStaysSafe(base, a, pad + x);
    } else {
      if al > 64 { WholeLines(al); }
      MultipleTrans(base, a, 64);
      LineShift(base, x + pad);
    }
    assert base + (pad + x) == Pointer(layout, l, raw) + x;
  }

  lemma WholeLines(al: nat)
    requires PowerOfTwo(al) && al > 64
    ensures al % 64 == 0
  {
    assert PowerOfTwo(64) by {
      assert PowerOfTwo(1) && PowerOfTwo(2) && PowerOfTwo(4) && PowerOfTwo(8) && PowerOfTwo(16) && PowerOfTwo(32);
    }
    PowersNest(al, 64);
  }

  lemma LineShift(base: nat, y: int)
    requires base % 64 == 0
    ensures Bad(base + y) <==> Bad(y)
  {
    assert (base + y) % 64 == y % 64;
  }

  /** The data lies inside the block. */
  lemma DataInside(layout: Layout, reqs: seq<Req>, l: Layout, raw: nat)
    requires Padded(layout, reqs, l)
    ensures l.align > 0 && raw <= Pointer(layout, l, raw) && Pointer(layout, l, raw) + layout.size < raw + l.size
  {
    hide PowerOfTwo, CalcAlgn;
    CalcAlgnHolds(layout.align, layout.size + Pad(layout, l));
    RoundUp(raw, l.align);
  }

  /** The alignment of the blocks that malloc returns. */
  const MIN_ALIGN: nat := 16

  /** The one family of layouts whose pointer can miss the alignment asked for: data no longer than
      half an alignment of 32 or 64 that needs no pad because its requested bytes are already off the
      bad positions. */
  ghost predicate Misaligns(layout: Layout, reqs: seq<Req>)
  {
    MIN_ALIGN < layout.align <= 64 && 2 * layout.size <= layout.align && SafeFor(reqs, 0)
  }

  /** The alignment chosen is less than the one asked for only without a pad. */
  lemma ChosenTooSmall(layout: Layout, reqs: seq<Req>, l: Layout)
    requires Padded(layout, reqs, l)
    ensures l.align < layout.align <==> 8 < layout.align <= 64 && 2 * layout.size <= layout.align && SafeFor(reqs, 0)
    ensures l.align < layout.align ==> Pad(layout, l) == 0 && layout.align in {16, 32, 64} && l.align in {8, 16, 32}
  {
    hide Covers, SafeFor, PowerOfTwo, CalcAlgn;
    var al, pad := layout.align, Pad(layout, l);
    CalcAlgnHolds(al, layout.size + pad);
    if al <= 64 {
      SmallPowers(al);
      ModZero(al);
      assert pad % al == 0;
      if pad == 0 {
        assert SafeFor(reqs, 0);
      } else {
        assert !SafeFor(reqs, 0);
        AtLeast(pad, al);
      }
    }
  }

  lemma ModZero(al: nat)
    requires al > 0
    ensures 0 % al == 0
  {}

  /** The pointer is a multiple of the alignment asked for, for every block malloc may return,
      exactly outside that family. */
  lemma AlignedIff(layout: Layout, reqs: seq<Req>, l: Layout)
    requires Padded(layout, reqs, l)
    ensures l.align > 0 && layout.align > 0
    ensures (forall raw: nat :: raw % MIN_ALIGN == 0 ==> Pointer(layout, l, raw) % layout.align == 0)
            <==> !Misaligns(layout, reqs)
  {
    hide Covers, SafeFor, PowerOfTwo, CalcAlgn, Pointer, LeastSafe;
    var al, a := layout.align, l.align;
    PowerAlign(layout, reqs, l);
    ChosenTooSmall(layout, reqs, l);
    if al <= a {
      forall raw: nat
        ensures Pointer(layout, l, raw) % al == 0
      {
        AlignedAt(layout, reqs, l, raw);
      }
    } else if al == 16 {
      forall raw: nat | raw % MIN_ALIGN == 0
        ensures Pointer(layout, l, raw) % al == 0
      {
        SixteenStays(layout, l, raw);
      }
    } else {
      MisalignedAt(layout, l);
    }
  }

  /** Blocks that are multiples of 16 need no help for an alignment of 16. */
  lemma SixteenStays(layout: Layout, l: Layout, raw: nat)
    requires l.align == 8 && Pad(layout, l) == 0 && raw % MIN_ALIGN == 0
    ensures Pointer(layout, l, raw) == raw
  {
    OnMultiple(raw, l.align, 0);
  }

  lemma PowerAlign(layout: Layout, reqs: seq<Req>, l: Layout)
    requires Padded(layout, reqs, l)
    ensures PowerOfTwo(l.align) && l.align > 0 && layout.align > 0
  {
    CalcAlgnHolds(layout.align, layout.size + Pad(layout, l));
    assert PowerOfTwo(1) && PowerOfTwo(2) && PowerOfTwo(4) && PowerOfTwo(8) && PowerOfTwo(16) && PowerOfTwo(32)
           && PowerOfTwo(64);
  }

  lemma PadMultiple(layout: Layout, reqs: seq<Req>, l: Layout)
    requires Padded(layout, reqs, l)
    ensures layout.align > 0 && Pad(layout, l) % layout.align == 0
  {
    hide Covers, SafeFor, CalcAlgn;
    if layout.align >= 64 { ModZero(layout.align); }
  }

  lemma AlignedAt(layout: Layout, reqs: seq<Req>, l: Layout, raw: nat)
    requires Padded(layout, reqs, l) && layout.align <= l.align
    ensures l.align > 0 && layout.align > 0 && Pointer(layout, l, raw) % layout.align == 0
  {
    PowerAlign(layout, reqs, l);
    PadMultiple(layout, reqs, l);
    hide Padded, PowerOfTwo;
    var al, a, pad := layout.align, l.align, Pad(layout, l);
    RoundUp(raw, a);
    var base := MakeAlignedPtr(raw, a, 0);
    assert PowerOfTwo(al) by { PaddedAlign(layout, reqs, l); }
    PowersNest(a, al);
    MultipleTrans(base, a, al);
    SumMultiple(base, pad, al);
  }

  lemma PaddedAlign(layout: Layout, reqs: seq<Req>, l: Layout)
    requires Padded(layout, reqs, l)
    ensures PowerOfTwo(layout.align)
  {}

  /** A block that has the chosen alignment and malloc's, but no more, shows the fault. */
  lemma MisalignedAt(layout: Layout, l: Layout)
    requires layout.align in {32, 64} && l.align in {8, 16, 32} && l.align < layout.align && Pad(layout, l) == 0
    ensures exists raw: nat :: raw % MIN_ALIGN == 0 && Pointer(layout, l, raw) % layout.align != 0
  {
    hide MakeAlignedPtr;
    var raw: nat := if l.align < MIN_ALIGN then MIN_ALIGN else l.align;
    OnMultiple(raw, l.align, 0);
    assert raw % MIN_ALIGN == 0 && Pointer(layout, l, raw) % layout.align != 0;
  }

  lemma OnMultiple(raw: nat, a: nat, pad: int)
    requires a > 0 && raw % a == 0
    ensures MakeAlignedPtr(raw, a, pad) == raw + pad
  {
    SumMultiple(a - 1, raw, a);
    SmallMod(a - 1, a);
  }

  /** When byte 0 is asked for the pointer is always aligned, for any block at all. */
  lemma FirstByteAligned(layout: Layout, reqs: seq<Req>, l: Layout, raw: nat)
    requires Padded(layout, reqs, l) && Covers(reqs, 0)
    ensures l.align > 0 && layout.align > 0 && Pointer(layout, l, raw) % layout.align == 0
  {
    assert Bad(0 + 0) && !SafeFor(reqs, 0);
    ChosenTooSmall(layout, reqs, l);
    AlignedAt(layout, reqs, l, raw);
  }

  /** Four bytes with alignment 32 of which 1..3 are asked for: no pad, alignment 8, and a block at 16
      gives a pointer that is not a multiple of 32. */
  lemma SmallDataMisaligned(layout: Layout, reqs: seq<Req>, l: Layout)
    requires layout == Layout(4, 32) && reqs == [Req(1, 3)] && Padded(layout, reqs, l)
    ensures l == Layout(12, 8) && Pointer(layout, l, MIN_ALIGN) == 16
  {
    hide Covers, PowerOfTwo, CalcAlgn, SafeFor, MakeAlignedPtr;
    ThreeBytesSafe(reqs);
    var pad := Pad(layout, l);
    assert Candidate(layout.align, 0);
    assert pad == 0;
    CalcAlgnHolds(layout.align, layout.size + pad);
    OnMultiple(MIN_ALIGN, l.align, pad);
  }

  lemma ThreeBytesSafe(reqs: seq<Req>)
    requires reqs == [Req(1, 3)]
    ensures SafeFor(reqs, 0)
  {
    hide Covers;
    forall x
      ensures Covers(reqs, x) <==> 1 <= x <= 3
    {
      CoversOne(reqs[0], x);
    }
  }

  // ----- the saved block address -----

  /** No candidate below 8 is safe, so the word in front of the data has room. */
  ghost predicate RoomInFront(layout: Layout, reqs: seq<Req>)
    requires layout.align > 0
  {
    forall o :: Candidate(layout.align, o) && SafeFor(reqs, o) ==> o >= 8
  }

  /** The word in front of the data lies inside the block for every block malloc may return, exactly when no
      offset below 8 is a safe candidate; then it does for every block. */
  lemma SlotInsideIff(layout: Layout, reqs: seq<Req>, l: Layout)
    requires Padded(layout, reqs, l)
    ensures l.align > 0 && layout.align > 0
    ensures RoomInFront(layout, reqs) <==> forall raw: nat :: raw % MIN_ALIGN == 0 ==> raw <= Pointer(layout, l, raw) - 8
    ensures RoomInFront(layout, reqs) <==> forall raw: nat :: raw <= Pointer(layout, l, raw) - 8
  {
    hide Covers, SafeFor, PowerOfTwo, CalcAlgn;
    var a, pad := l.align, Pad(layout, l);
    CalcAlgnHolds(layout.align, layout.size + pad);
    PowerAlign(layout, reqs, l);
    assert RoomInFront(layout, reqs) <==> pad >= 8;
    forall raw: nat
      ensures raw + pad <= Pointer(layout, l, raw)
    {
      RoundUp(raw, a);
    }
    var raw: nat := a * 16;
    MulMod(16, a);
    OnMultiple(raw, a, pad);
    MulMod(a, 16);
    assert Pointer(layout, l, raw) == raw + pad;
  }

  /** One byte with alignment 1: the pad is 1 and the word in front of the pointer starts seven bytes
      before the block. */
  lemma OneByteSlotOutside(layout: Layout, reqs: seq<Req>, l: Layout)
    requires layout == Layout(1, 1) && reqs == [Req(0, 1)] && Padded(layout, reqs, l)
    ensures l == Layout(10, 8) && Pointer(layout, l, 16) - 8 == 16 - 7
  {
    hide Covers, PowerOfTwo, CalcAlgn, SafeFor, MakeAlignedPtr, LeastSafe;
    var pad := Pad(layout, l);
    OneByteLeast(layout.align, reqs, pad);
    CalcAlgnHolds(layout.align, layout.size + pad);
    OnMultiple(16, l.align, pad);
  }

  lemma OneByteLeast(al: nat, reqs: seq<Req>, pad: int)
    requires al == 1 && reqs == [Req(0, 1)] && LeastSafe(al, reqs, pad)
    ensures pad == 1
  {
    hide SafeFor;
    OneByteSafe(reqs);
    assert Candidate(al, 1);
  }

  lemma OneByteSafe(reqs: seq<Req>)
    requires reqs == [Req(0, 1)]
    ensures !SafeFor(reqs, 0) && SafeFor(reqs, 1)
  {
    hide Covers;
    forall x
      ensures Covers(reqs, x) <==> x == 0
    {
      CoversOne(reqs[0], x);
    }
    assert Covers(reqs, 0) && Bad(0 + 0);
  }

  /** Requesting the whole of the data succeeds exactly for data that fits between position 8 (or its
      alignment, if larger) and the end of a line. */
  lemma WholeRequestFits(al: nat, size: nat)
    requires PowerOfTwo(al) && size > 0
    ensures (exists o :: Candidate(al, o) && SafeFor([Req(0, size)], o))
            <==> al < 64 && (if al < 8 then 8 else al) + size <= 64
  {
    hide Covers;
    var reqs := [Req(0, size)];
    forall x
      ensures Covers(reqs, x) <==> 0 <= x < size
    {
      CoversOne(reqs[0], x);
    }
    if o :| Candidate(al, o) && SafeFor(reqs, o) {
      WholeEnds(al, size, reqs, o);
    }
    if al < 64 && (if al < 8 then 8 else al) + size <= 64 {
      WholeStarts(al, size, reqs);
    }
  }

  lemma WholeEnds(al: nat, size: nat, reqs: seq<Req>, o: int)
    requires PowerOfTwo(al) && size > 0 && Candidate(al, o) && SafeFor(reqs, o)
    requires forall x :: Covers(reqs, x) <==> 0 <= x < size
    ensures al < 64 && (if al < 8 then 8 else al) + size <= 64
  {
    hide Covers;
    assert Covers(reqs, 0) && !Bad(0 + o);
    assert o >= 8 && o + size > 64 ==> Covers(reqs, 64 - o) && Bad(64 - o + o);
    assert o < 8 && o + size > 4 ==> Covers(reqs, 4 - o) && Bad(4 - o + o);
    if al < 64 { AtLeast(o, al); }
  }

  lemma WholeStarts(al: nat, size: nat, reqs: seq<Req>)
    requires PowerOfTwo(al) && size > 0 && al < 64 && (if al < 8 then 8 else al) + size <= 64
    requires forall x :: Covers(reqs, x) <==> 0 <= x < size
    ensures exists o :: Candidate(al, o) && SafeFor(reqs, o)
  {
    hide Covers, PowerOfTwo;
    var o := if al < 8 then 8 else al;
    SmallPowers(al);
    assert Candidate(al, o);
    assert SafeFor(reqs, o);
  }
}
