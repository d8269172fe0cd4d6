/** Invariant of the second part of the table builder, for lengths that fit: which secondary
    tables exist, where they lie, and what their cells hold. */
module SecondaryTables {
  import opened Bits
  import opened Canonical
  import opened HuffmanTable
  import opened ShortCodes
  import opened LongCodes

  /** Offset and index width of a secondary table. */
  datatype Slot = Slot(sec: nat, sb: nat)

  /** Secondary tables by primary index. */
  type Slots = map<nat, Slot>

  /** Lengths are handled from 15 down; (M, k) comes before the i-th symbol of length j. */
  ghost predicate Processed(M: nat, k: nat, j: nat, i: nat)
  {
    M > j || (M == j && k < i)
  }

  ghost predicate SlotAt(t: seq<nat>, x: nat, s: Slot, ns: nat, j: nat)
    requires |t| == TABLE_SIZE
  {
    && x < 256 && j <= s.sb + 8 && s.sb <= 7 && s.sec < 512 && s.sec + Pow2(s.sb) <= ns
    && t[x] == PtrEntry(s.sec, s.sb)
  }

  ghost predicate Apart(a: Slot, b: Slot)
  {
    a.sec + Pow2(a.sb) <= b.sec || b.sec + Pow2(b.sb) <= a.sec
  }

  ghost predicate SlotsOk(t: seq<nat>, slots: Slots, ns: nat, j: nat)
    requires |t| == TABLE_SIZE
  {
    && (forall x :: x in slots ==> SlotAt(t, x, slots[x], ns, j))
    && (forall x, y :: x in slots && y in slots && x != y ==> Apart(slots[x], slots[y]))
  }

  ghost predicate HasSlot(lens: Lengths, slots: Slots, M: nat, k: nat)
    requires M >= 1
  {
    var x := CodeBits(lens, M, k) % 256;
    x in slots && M <= slots[x].sb + 8
  }

  ghost predicate AllHaveSlots(lens: Lengths, slots: Slots, j: nat, i: nat)
  {
    forall M: nat, k: nat :: IsCode(lens, M, k) && Processed(M, k, j, i) ==> HasSlot(lens, slots, M, k)
  }

  /** No code that has been handled so far starts w. */
  ghost predicate Pending(lens: Lengths, w: nat, j: nat, i: nat)
  {
    forall M: nat, k: nat :: IsCode(lens, M, k) && Processed(M, k, j, i) ==> !Match(lens, w, M, k)
  }

  /** The cell for bit string w holds the entry of the handled code that w starts with, and nothing if
      there is none. */
  ghost predicate CellOk(lens: Lengths, e: nat, w: nat, j: nat, i: nat)
    requires 9 <= j <= MAXBITS
  {
    && (forall M: nat, k: nat :: IsCode(lens, M, k) && Processed(M, k, j, i) && Match(lens, w, M, k) ==>
          e == LongEntry(Syms(lens, M)[k], M))
    && (Pending(lens, w, j, i) ==> e == 0)
  }

  ghost predicate CellsOk(lens: Lengths, t: seq<nat>, slots: Slots, ns: nat, j: nat, i: nat)
    requires 9 <= j <= MAXBITS && |t| == TABLE_SIZE && SlotsOk(t, slots, ns, j)
  {
    forall x, ind: nat :: x in slots && ind < Pow2(slots[x].sb) ==> CellOk(lens, Cell(t, slots[x], ind), x + 256 * ind, j, i)
  }

  ghost function Cell(t: seq<nat>, s: Slot, ind: nat): nat
    requires |t| == TABLE_SIZE && s.sec < 512 && s.sb <= 7 && ind < Pow2(s.sb)
  {
    SlotRoom(s);
    t[256 + s.sec + ind]
  }

  lemma SlotRoom(s: Slot)
    requires s.sec < 512 && s.sb <= 7
    ensures 256 + s.sec + Pow2(s.sb) <= TABLE_SIZE
  {
    Pow2Mono(s.sb, 7);
    Pow2Values();
  }

  /** Cells not yet given out are zero. */
  ghost predicate RestFree(lens: Lengths, t: seq<nat>, slots: Slots, ns: nat)
    requires |t| == TABLE_SIZE
  {
    && (forall x: nat :: x < 256 && x !in slots && Start(lens, 9, 0) <= Rev(MAXBITS, x) ==> t[x] == 0)
    && (forall y :: 256 + ns <= y < TABLE_SIZE ==> t[y] == 0)
  }

  ghost predicate LongState(lens: Lengths, t: seq<nat>, slots: Slots, ns: nat, j: nat, i: nat)
    requires 9 <= j <= MAXBITS
  {
    && |t| == TABLE_SIZE
    && ShortDone(lens, t, 9, 0)
    && SlotsOk(t, slots, ns, j)
    && AllHaveSlots(lens, slots, j, i)
    && CellsOk(lens, t, slots, ns, j, i)
    && RestFree(lens, t, slots, ns)
  }

  lemma LongInit(lens: Lengths, t: seq<nat>)
    requires ShortState(lens, t, 9, 0)
    ensures LongState(lens, t, map[], 0, 15, 0)
  {
    hide Start, Rev, Match, CodeBits, Count, Syms;
  }

  /** A bit string splits into its primary and secondary index; so does the test for a code. */
  lemma MatchWord(x: nat, ind: nat, j: nat, code: nat)
    requires x < 256 && j >= 8
    ensures Low(x + 256 * ind, j) == code <==> x == code % 256 && Low(ind, j - 8) == code / 256
    ensures Low(x + 256 * ind, 8) == x
  {
    hide *;
    var w := x + 256 * ind;
    Low8(w);
    LowSplit(w, 8, j);
    Shl8(Low(ind, j - 8));
  }

  /** Codes that match a bit string agree with it on the primary index. */
  lemma MatchPrimary(lens: Lengths, w: nat, M: nat, k: nat)
    requires Fits(lens) && IsCode(lens, M, k) && M >= 8 && Match(lens, w, M, k)
    ensures CodeBits(lens, M, k) % 256 == w % 256
  {
    hide Low, Rev, NextCode, Match, CodeBits;
    CodeBitsFit(lens, M, k);
    Low8(w);
    Low8(CodeBits(lens, M, k));
    LowLow(w, 8, M);
  }

  /** The part of the code space a primary index stands for is aligned to 2^7. */
  lemma KeyFloor(w: nat, m: int)
    requires Shl(m, 7) <= Rev(MAXBITS, w)
    ensures Shl(m, 7) <= Rev(MAXBITS, Low(w, 8))
  {
    hide Shl, Rev, Low, Shr;
    var x := Low(w, 8);
    RevSplit(15, 8, w);
    RevSplit(15, 8, x);
    LowBound(w, 8);
    SmallParts(x, 8);
    RevZero(7);
    ShlMono(m, Rev(8, x), 7);
    ShlMono(Rev(8, x) + 1, m, 7);
    ShlAdd(Rev(8, x), 1, 7);
    ShlBit(1, 7);
  }

  /** The primary cell of a long code is free or already points to a secondary table. */
  lemma PrimaryFree(lens: Lengths, t: seq<nat>, slots: Slots, ns: nat, j: nat, i: nat)
    requires Fits(lens) && 9 <= j && IsCode(lens, j, i) && RestFreePre(lens, t, slots, ns)
    requires CodeBits(lens, j, i) % 256 !in slots
    ensures t[CodeBits(lens, j, i) % 256] == 0
  {
    hide Rev, Low, Match, CodeBits, Count, Syms, Shl, NextCode, Start;
    var code := CodeBits(lens, j, i);
    CodeBitsFit(lens, j, i);
    SmallParts(code, j);
    CodeFits(lens, j, i);
    MatchInterval(lens, code, j, i);
    StartOrder(lens, 9, 0, j, i);
    StartNine(lens);
    KeyFloor(code, Code(lens, 8, Count(lens, 8)));
    Low8(code);
  }

  ghost predicate RestFreePre(lens: Lengths, t: seq<nat>, slots: Slots, ns: nat)
  {
    |t| == TABLE_SIZE && RestFree(lens, t, slots, ns)
  }

  lemma StartNine(lens: Lengths)
    ensures Start(lens, 9, 0) == Shl(Code(lens, 8, Count(lens, 8)), 7)
  {
    hide Shl, Count;
    StartNextLength(lens, 8);
  }

  lemma OpenSlots(t: seq<nat>, slots: Slots, ns: nat, j: nat, x: nat)
    requires |t| == TABLE_SIZE && SlotsOk(t, slots, ns, j) && 9 <= j <= MAXBITS && x < 256 && x !in slots && ns < 512
    ensures SlotsOk(t[x := PtrEntry(ns, j - 8)], slots[x := Slot(ns, j - 8)], ns + Pow2(j - 8), j)
  {
    hide Pow2, PtrEntry;
  }

  lemma OpenCells(lens: Lengths, t: seq<nat>, slots: Slots, ns: nat, j: nat, i: nat, x: nat,
                  t': seq<nat>, slots': Slots, ns': nat)
    requires Fits(lens) && 9 <= j <= MAXBITS && LongState(lens, t, slots, ns, j, i) && x < 256 && x !in slots && ns < 512
    requires t' == t[x := PtrEntry(ns, j - 8)] && slots' == slots[x := Slot(ns, j - 8)] && ns' == ns + Pow2(j - 8)
    requires SlotsOk(t', slots', ns', j)
    ensures CellsOk(lens, t', slots', ns', j, i)
  {
    hide Pow2, CellOk, CodeBits, IsCode, AllHaveSlots, ShortDone, Fits, PtrEntry, Start, Rev;
    forall y, ind: nat | y in slots' && ind < Pow2(slots'[y].sb)
      ensures CellOk(lens, Cell(t', slots'[y], ind), y + 256 * ind, j, i)
    {
      SlotRoom(slots'[y]);
      if y == x {
        NewCell(lens, slots, x, ind, j, i);
      } else {
        assert CellOk(lens, Cell(t, slots[y], ind), y + 256 * ind, j, i);
      }
    }
  }

  lemma OpenHasSlots(lens: Lengths, slots: Slots, j: nat, i: nat, x: nat, s: Slot)
    requires AllHaveSlots(lens, slots, j, i) && x !in slots
    ensures AllHaveSlots(lens, slots[x := s], j, i)
  {
    hide CodeBits, Processed, Count;
    forall M: nat, k: nat | IsCode(lens, M, k) && Processed(M, k, j, i)
      ensures HasSlot(lens, slots[x := s], M, k)
    {
      assert HasSlot(lens, slots, M, k);
    }
  }

  lemma OpenRest(lens: Lengths, t: seq<nat>, slots: Slots, ns: nat, x: nat, e: nat, s: Slot, ns': nat)
    requires |t| == TABLE_SIZE && RestFree(lens, t, slots, ns) && x < 256 && ns <= ns'
    ensures RestFree(lens, t[x := e], slots[x := s], ns')
  {
    hide Start, Rev;
  }

  /** Starting a secondary table for the next code keeps the invariant. */
  lemma OpenStep(lens: Lengths, t: seq<nat>, slots: Slots, ns: nat, j: nat, i: nat, x: nat,
                 t': seq<nat>, slots': Slots, ns': nat)
    requires Fits(lens) && 9 <= j <= MAXBITS && IsCode(lens, j, i) && LongState(lens, t, slots, ns, j, i)
    requires x == CodeBits(lens, j, i) % 256 && x !in slots && ns < 512
    requires t' == t[x := PtrEntry(ns, j - 8)] && slots' == slots[x := Slot(ns, j - 8)] && ns' == ns + Pow2(j - 8)
    ensures LongState(lens, t', slots', ns', j, i)
  {
    hide Pow2, CodeBits, IsCode, ShortDone, Fits, PtrEntry, SlotsOk, CellsOk, AllHaveSlots, RestFree;
    OpenShort(lens, t, x, PtrEntry(ns, j - 8), j, i);
    OpenSlots(t, slots, ns, j, x);
    OpenCells(lens, t, slots, ns, j, i, x, t', slots', ns');
    OpenHasSlots(lens, slots, j, i, x, Slot(ns, j - 8));
    OpenRest(lens, t, slots, ns, x, PtrEntry(ns, j - 8), Slot(ns, j - 8), ns');
  }

  lemma OpenShort(lens: Lengths, t: seq<nat>, x: nat, e: nat, j: nat, i: nat)
    requires Fits(lens) && 9 <= j && IsCode(lens, j, i) && |t| == TABLE_SIZE && ShortDone(lens, t, 9, 0)
    requires x == CodeBits(lens, j, i) % 256
    ensures ShortDone(lens, t[x := e], 9, 0)
  {
    hide Low, Rev, Match, CodeBits, Count, NextCode, Syms;
    var code := CodeBits(lens, j, i);
    CodeBitsFit(lens, j, i);
    SmallParts(code, j);
    Low8(code);
    forall y: nat, M: nat, k: nat | y < 256 && IsCode(lens, M, k) && M < 9 && Match(lens, y, M, k)
      ensures y != x
    {
      if y == x {
        CodeBitsFit(lens, M, k);
        LowLow(code, M, 8);
        PrefixFree(lens, code, M, k, j, i);
      }
    }
  }

  /** A bit string through a primary index without a secondary table starts with no handled code. */
  lemma NewCell(lens: Lengths, slots: Slots, x: nat, ind: nat, j: nat, i: nat)
    requires Fits(lens) && 9 <= j <= MAXBITS && AllHaveSlots(lens, slots, j, i) && x < 256 && x !in slots
    ensures CellOk(lens, 0, x + 256 * ind, j, i)
  {
    hide Low, Rev, Match, CodeBits, Count, NextCode, Syms, Start, IsCode, Fits, HasSlot;
    var w := x + 256 * ind;
    forall M: nat, k: nat | IsCode(lens, M, k) && Processed(M, k, j, i)
      ensures !Match(lens, w, M, k)
    {
      NoSlotNoMatch(lens, slots, w, M, k);
    }
  }

  lemma NoSlotNoMatch(lens: Lengths, slots: Slots, w: nat, M: nat, k: nat)
    requires Fits(lens) && IsCode(lens, M, k) && M >= 8 && HasSlot(lens, slots, M, k) && w % 256 !in slots
    ensures !Match(lens, w, M, k)
  {
    hide Match, CodeBits, IsCode, Fits;
    if Match(lens, w, M, k) { MatchPrimary(lens, w, M, k); }
  }

  /** Cells of the run of the next code are free. */
  lemma LongClear(lens: Lengths, t: seq<nat>, slots: Slots, ns: nat, j: nat, i: nat)
    requires Fits(lens) && 9 <= j && IsCode(lens, j, i) && LongState(lens, t, slots, ns, j, i)
    requires CodeBits(lens, j, i) % 256 in slots
    ensures CodeRunClear(t, t[CodeBits(lens, j, i) % 256], j, CodeBits(lens, j, i))
  {
    hide Low, Rev, Match, CodeBits, Count, NextCode, Syms, Start, Pow2, ShortDone, AllHaveSlots, CellOk, RestFree,
      IsPtr, Value, Width, PtrEntry;
    var code := CodeBits(lens, j, i);
    var x := code % 256;
    var s := slots[x];
    PtrFields(s.sec, s.sb);
    SlotRoom(s);
    forall y | 0 <= y < |t| && InRun(y, 256 + s.sec, Pow2(s.sb), code / 256, j - 8)
      ensures t[y] == 0
    {
      var ind: nat := y - 256 - s.sec;
      assert CellOk(lens, Cell(t, s, ind), x + 256 * ind, j, i);
      FreeCell(lens, Cell(t, s, ind), ind, j, i);
    }
  }

  lemma FreeCell(lens: Lengths, e: nat, ind: nat, j: nat, i: nat)
    requires Fits(lens) && 9 <= j && IsCode(lens, j, i)
    requires CellOk(lens, e, CodeBits(lens, j, i) % 256 + 256 * ind, j, i)
    requires Low(ind, j - 8) == CodeBits(lens, j, i) / 256
    ensures e == 0
  {
    hide Low, Rev, Match, CodeBits, Count, NextCode, Syms, Start, Pow2, Pending;
    var code := CodeBits(lens, j, i);
    MatchWord(code % 256, ind, j, code);
    PendingNow(lens, code % 256 + 256 * ind, j, i);
  }

  lemma PendingNow(lens: Lengths, w: nat, j: nat, i: nat)
    requires Fits(lens) && 9 <= j && IsCode(lens, j, i) && Low(w, j) == CodeBits(lens, j, i)
    ensures Match(lens, w, j, i) && Pending(lens, w, j, i)
  {
    hide Low, Rev, Match, CodeBits, NextCode, Start, Fits;
    CodeBitsFit(lens, j, i);
    forall M: nat, k: nat | IsCode(lens, M, k) && Processed(M, k, j, i)
      ensures !Match(lens, w, M, k)
    {
      if Match(lens, w, M, k) { PrefixFree(lens, w, j, i, M, k); }
    }
  }

  /** One cell before and after the next code is placed. */
  lemma FillCell(lens: Lengths, e: nat, e': nat, x: nat, ind: nat, j: nat, i: nat)
    requires Fits(lens) && 9 <= j && IsCode(lens, j, i) && x < 256 && CellOk(lens, e, x + 256 * ind, j, i)
    requires var code := CodeBits(lens, j, i);
             e' == if x == code % 256 && Low(ind, j - 8) == code / 256 then LongEntry(Syms(lens, j)[i], j) else e
    ensures CellOk(lens, e', x + 256 * ind, j, i + 1)
  {
    hide Low, Rev, Match, CodeBits, NextCode, Syms, Start;
    var w, code := x + 256 * ind, CodeBits(lens, j, i);
    MatchWord(x, ind, j, code);
    CodeBitsFit(lens, j, i);
    forall M: nat, k: nat | IsCode(lens, M, k) && Processed(M, k, j, i + 1) && Match(lens, w, M, k)
      ensures e' == LongEntry(Syms(lens, M)[k], M)
    {
      if Match(lens, w, j, i) {
        PrefixFree(lens, w, j, i, M, k);
      }
    }
    assert Pending(lens, w, j, i + 1) ==> Pending(lens, w, j, i) && !Match(lens, w, j, i);
  }

  /** Placing the next code in its secondary table keeps the invariant. */
  lemma FillStep(lens: Lengths, t: seq<nat>, slots: Slots, ns: nat, j: nat, i: nat, t': seq<nat>)
    requires Fits(lens) && 9 <= j && IsCode(lens, j, i) && LongState(lens, t, slots, ns, j, i)
    requires CodeBits(lens, j, i) % 256 in slots
    requires CodeRunFilled(t, t', t[CodeBits(lens, j, i) % 256], j, CodeBits(lens, j, i), LongEntry(Syms(lens, j)[i], j))
    ensures LongState(lens, t', slots, ns, j, i + 1)
  {
    hide Low, Rev, Match, CodeBits, NextCode, Syms, Start, Pow2, IsPtr, Value, Width, PtrEntry;
    var code := CodeBits(lens, j, i);
    var x := code % 256;
    var s := slots[x];
    PtrFields(s.sec, s.sb);
    assert forall y: nat :: y < 256 ==> t'[y] == t[y];
    assert ShortDone(lens, t', 9, 0);
    assert SlotsOk(t', slots, ns, j);
    assert RestFree(lens, t', slots, ns);
    assert AllHaveSlots(lens, slots, j, i + 1);
    forall y, ind: nat | y in slots && ind < Pow2(slots[y].sb)
      ensures CellOk(lens, Cell(t', slots[y], ind), y + 256 * ind, j, i + 1)
    {
      FillCellAt(lens, t, slots, ns, j, i, t', y, ind);
    }
  }

  /** Among the cells of all secondary tables, the run of a code lies in its own table. */
  lemma RunInOwnSlot(t: seq<nat>, slots: Slots, ns: nat, j: nat, x: nat, y: nat, ind: nat, first: nat)
    requires |t| == TABLE_SIZE && SlotsOk(t, slots, ns, j) && 9 <= j && x in slots && y in slots && ind < Pow2(slots[y].sb)
    ensures InRun(256 + slots[y].sec + ind, 256 + slots[x].sec, Pow2(slots[x].sb), first, j - 8) <==>
            y == x && Low(ind, j - 8) == first
  {
    hide Low, Pow2, PtrEntry;
  }

  lemma FillCellAt(lens: Lengths, t: seq<nat>, slots: Slots, ns: nat, j: nat, i: nat, t': seq<nat>, y: nat, ind: nat)
    requires Fits(lens) && 9 <= j && IsCode(lens, j, i) && |t| == TABLE_SIZE
    requires SlotsOk(t, slots, ns, j) && CellsOk(lens, t, slots, ns, j, i)
    requires CodeBits(lens, j, i) % 256 in slots && y in slots && ind < Pow2(slots[y].sb)
    requires CodeRunFilled(t, t', t[CodeBits(lens, j, i) % 256], j, CodeBits(lens, j, i), LongEntry(Syms(lens, j)[i], j))
    ensures CellOk(lens, Cell(t', slots[y], ind), y + 256 * ind, j, i + 1)
  {
    hide Low, Rev, Match, CodeBits, NextCode, Syms, Start, Pow2, IsPtr, Value, Width, PtrEntry, CellOk, LongEntry, InRun, Fits;
    var code := CodeBits(lens, j, i);
    var x := code % 256;
    var s := slots[x];
    PtrFields(s.sec, s.sb);
    SlotRoom(s);
    SlotRoom(slots[y]);
    RunInOwnSlot(t, slots, ns, j, x, y, ind, code / 256);
    assert CellOk(lens, Cell(t, slots[y], ind), y + 256 * ind, j, i);
    FillCell(lens, Cell(t, slots[y], ind), Cell(t', slots[y], ind), y, ind, j, i);
  }

  /** After the last symbol of length j the invariant holds at the start of length j - 1. */
  lemma NextLevel(lens: Lengths, t: seq<nat>, slots: Slots, ns: nat, j: nat)
    requires 10 <= j <= MAXBITS && LongState(lens, t, slots, ns, j, Count(lens, j))
    ensures LongState(lens, t, slots, ns, j - 1, 0)
  {
    hide Low, Rev, Match, CodeBits, NextCode, Syms, Start, Pow2, PtrEntry, ShortDone, RestFree, Count, LongEntry;
    forall x, ind: nat | x in slots && ind < Pow2(slots[x].sb)
      ensures CellOk(lens, Cell(t, slots[x], ind), x + 256 * ind, j - 1, 0)
    {
      assert CellOk(lens, Cell(t, slots[x], ind), x + 256 * ind, j, Count(lens, j));
    }
    forall M: nat, k: nat | IsCode(lens, M, k) && Processed(M, k, j - 1, 0)
      ensures HasSlot(lens, slots, M, k)
    {
      assert Processed(M, k, j, Count(lens, j));
    }
  }
}
