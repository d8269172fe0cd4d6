/** How many secondary cells the codes of a set of lengths take, and when there is room for them. */
module TableRoom {
  import opened Bits
  import opened Canonical
  import opened HuffmanTable
  import opened ShortCodes
  import opened SecondaryTables

  // ----- counted from the codes -----

  /** Some code of length M has its first 8 bits at primary index x. */
  ghost predicate Uses(lens: Lengths, x: nat, M: nat)
  {
    exists k: nat :: IsCode(lens, M, k) && CodeBits(lens, M, k) % 256 == x
  }

  /** Index width of the secondary table that primary index x needs: that of the longest of its codes of
      at most M bits, 0 if there is none longer than 8. */
  ghost function Widest(lens: Lengths, x: nat, M: nat): (w: nat)
    ensures w == 0 || w <= M - 8
  {
    if M < 9 then 0 else if Uses(lens, x, M) then M - 8 else Widest(lens, x, M - 1)
  }

  /** Cells of the table at primary index x. */
  ghost function CellsAt(lens: Lengths, x: nat): nat
  {
    if Widest(lens, x, MAXBITS) == 0 then 0 else Pow2(Widest(lens, x, MAXBITS))
  }

  /** Cells of the tables at the primary indices below n. */
  ghost function Cells(lens: Lengths, n: nat): nat
  {
    if n == 0 then 0 else Cells(lens, n - 1) + CellsAt(lens, n - 1)
  }

  /** Without its own cells, which may lie at the end, each table starts where a pointer can reach. */
  ghost predicate Room(lens: Lengths)
  {
    forall x: nat :: x < 256 && CellsAt(lens, x) > 0 ==> Cells(lens, 256) - CellsAt(lens, x) < 512
  }

  lemma {:induction false} WidestIs(lens: Lengths, x: nat, j: nat, M: nat)
    requires 9 <= j <= M && Uses(lens, x, j) && forall L: nat :: j < L <= M ==> !Uses(lens, x, L)
    ensures Widest(lens, x, M) == j - 8
    decreases M
  {
    hide Uses;
    if M > j { WidestIs(lens, x, j, M - 1); }
  }

  lemma {:induction false} WidestUsed(lens: Lengths, x: nat, M: nat)
    requires Widest(lens, x, M) > 0
    ensures 9 <= Widest(lens, x, M) + 8 <= M && Uses(lens, x, Widest(lens, x, M) + 8)
    decreases M
  {
    hide Uses;
    if !Uses(lens, x, M) { WidestUsed(lens, x, M - 1); }
  }

  // ----- counted by the builder -----

  ghost function SlotCells(slots: Slots, x: nat): nat
  {
    if x in slots then Pow2(slots[x].sb) else 0
  }

  ghost function SlotSum(slots: Slots, n: nat): nat
  {
    if n == 0 then 0 else SlotSum(slots, n - 1) + SlotCells(slots, n - 1)
  }

  lemma {:induction false} SlotSumAdd(slots: Slots, x: nat, s: Slot, n: nat)
    requires x !in slots
    ensures SlotSum(slots[x := s], n) == SlotSum(slots, n) + if x < n then Pow2(s.sb) else 0
  {
    hide Pow2;
    if n > 0 { SlotSumAdd(slots, x, s, n - 1); }
  }

  lemma {:induction false} SlotSumNone(n: nat)
    ensures SlotSum(map[], n) == 0
  {
    if n > 0 { SlotSumNone(n - 1); }
  }

  /** The table at x was opened last: it ends where the next one starts, and none is narrower. */
  ghost predicate OpenedLast(slots: Slots, ns: nat, x: nat)
  {
    x in slots && slots[x].sec + Pow2(slots[x].sb) == ns && forall y :: y in slots ==> slots[x].sb <= slots[y].sb
  }

  /** Every open table is as wide as it must ever be, and together they end at ns. */
  ghost predicate Tally(lens: Lengths, slots: Slots, ns: nat, j: nat)
  {
    && ns == SlotSum(slots, 256)
    && (forall x :: x in slots ==> x < 256 && slots[x].sb >= 1 && j <= slots[x].sb + 8 && Widest(lens, x, MAXBITS) == slots[x].sb)
    && (slots == map[] || exists x :: OpenedLast(slots, ns, x))
  }

  lemma TallyStart(lens: Lengths)
    ensures Tally(lens, map[], 0, MAXBITS)
  {
    SlotSumNone(256);
  }

  lemma TallyNext(lens: Lengths, slots: Slots, ns: nat, j: nat)
    requires j >= 1 && Tally(lens, slots, ns, j)
    ensures Tally(lens, slots, ns, j - 1)
  {
    hide Widest, SlotSum, OpenedLast;
  }

  /** A primary index without a table has no longer code. */
  lemma NewIsWidest(lens: Lengths, slots: Slots, j: nat, i: nat, x: nat)
    requires 9 <= j <= MAXBITS && IsCode(lens, j, i) && AllHaveSlots(lens, slots, j, i)
    requires x == CodeBits(lens, j, i) % 256 && x !in slots
    ensures x < 256 && Widest(lens, x, MAXBITS) == j - 8
  {
    hide CodeBits, IsCode, Widest;
    assert Uses(lens, x, j);
    forall L: nat | j < L <= MAXBITS
      ensures !Uses(lens, x, L)
    {
      if Uses(lens, x, L) {
        var k: nat :| IsCode(lens, L, k) && CodeBits(lens, L, k) % 256 == x;
        LongerHasSlot(lens, slots, j, i, L, k);
      }
    }
    WidestIs(lens, x, j, MAXBITS);
  }

  lemma LongerHasSlot(lens: Lengths, slots: Slots, j: nat, i: nat, L: nat, k: nat)
    requires AllHaveSlots(lens, slots, j, i) && L > j && IsCode(lens, L, k)
    ensures CodeBits(lens, L, k) % 256 in slots
  {
    hide CodeBits, IsCode;
    assert Processed(L, k, j, i);
    assert HasSlot(lens, slots, L, k);
  }

  lemma TallyOpen(lens: Lengths, slots: Slots, ns: nat, j: nat, i: nat, x: nat)
    requires 9 <= j <= MAXBITS && IsCode(lens, j, i) && AllHaveSlots(lens, slots, j, i) && Tally(lens, slots, ns, j)
    requires x == CodeBits(lens, j, i) % 256 && x !in slots
    ensures Tally(lens, slots[x := Slot(ns, j - 8)], ns + Pow2(j - 8), j)
  {
    hide CodeBits, IsCode, Widest, SlotSum, Pow2, AllHaveSlots;
    NewIsWidest(lens, slots, j, i, x);
    SlotSumAdd(slots, x, Slot(ns, j - 8), 256);
    assert OpenedLast(slots[x := Slot(ns, j - 8)], ns + Pow2(j - 8), x);
  }

  lemma {:induction false} SumBelow(lens: Lengths, slots: Slots, n: nat, x: nat)
    requires forall y :: y in slots ==> slots[y].sb >= 1 && Widest(lens, y, MAXBITS) == slots[y].sb
    requires x !in slots
    ensures SlotSum(slots, n) + (if x < n then CellsAt(lens, x) else 0) <= Cells(lens, n)
  {
    hide Pow2, Widest;
    if n > 0 { SumBelow(lens, slots, n - 1, x); }
  }

  lemma {:induction false} SumAll(lens: Lengths, slots: Slots, n: nat)
    requires forall y :: y in slots ==> slots[y].sb >= 1 && Widest(lens, y, MAXBITS) == slots[y].sb
    requires forall y: nat :: Widest(lens, y, MAXBITS) > 0 ==> y in slots
    ensures SlotSum(slots, n) == Cells(lens, n)
  {
    hide Pow2, Widest;
    if n > 0 { SumAll(lens, slots, n - 1); }
  }

  /** Refusing to open a table means that there is no room. */
  lemma NoRoom(lens: Lengths, slots: Slots, ns: nat, j: nat, i: nat, x: nat)
    requires 9 <= j <= MAXBITS && IsCode(lens, j, i) && AllHaveSlots(lens, slots, j, i) && Tally(lens, slots, ns, j)
    requires x == CodeBits(lens, j, i) % 256 && x !in slots && ns >= 512
    ensures !Room(lens)
  {
    hide CodeBits, IsCode, Widest, SlotSum, Pow2, AllHaveSlots, Cells;
    NewIsWidest(lens, slots, j, i, x);
    SumBelow(lens, slots, 256, x);
    assert CellsAt(lens, x) > 0;
  }

  /** Having opened them all means that there was room. */
  lemma WasRoom(lens: Lengths, slots: Slots, ns: nat)
    requires AllHaveSlots(lens, slots, 9, Count(lens, 9)) && Tally(lens, slots, ns, 9)
    requires forall x :: x in slots ==> slots[x].sec < 512
    ensures Room(lens)
  {
    hide CodeBits, Widest, SlotSum, Pow2, AllHaveSlots, Cells;
    forall x: nat | Widest(lens, x, MAXBITS) > 0
      ensures x in slots
    {
      UsedHasSlot(lens, slots, x);
    }
    SumAll(lens, slots, 256);
    forall x: nat | x < 256 && CellsAt(lens, x) > 0
      ensures Cells(lens, 256) - CellsAt(lens, x) < 512
    {
      var last :| OpenedLast(slots, ns, last);
      Pow2Mono(slots[last].sb, slots[x].sb);
    }
  }

  lemma UsedHasSlot(lens: Lengths, slots: Slots, x: nat)
    requires AllHaveSlots(lens, slots, 9, Count(lens, 9)) && Widest(lens, x, MAXBITS) > 0
    ensures x in slots
  {
    hide CodeBits, Widest;
    WidestUsed(lens, x, MAXBITS);
    var M := Widest(lens, x, MAXBITS) + 8;
    var k: nat :| IsCode(lens, M, k) && CodeBits(lens, M, k) % 256 == x;
    assert Processed(M, k, 9, Count(lens, 9));
    assert HasSlot(lens, slots, M, k);
  }

  // ----- codes of at most 9 bits -----

  lemma {:induction false} NarrowCells(lens: Lengths, n: nat)
    requires forall L: nat, k: nat :: L > 9 ==> !IsCode(lens, L, k)
    ensures Cells(lens, n) <= 2 * n
  {
    if n > 0 {
      NarrowCells(lens, n - 1);
      NarrowAt(lens, n - 1);
    }
  }

  lemma NarrowAt(lens: Lengths, x: nat)
    requires forall L: nat, k: nat :: L > 9 ==> !IsCode(lens, L, k)
    ensures CellsAt(lens, x) == 0 || CellsAt(lens, x) == 2
  {
    hide IsCode;
    var w := Widest(lens, x, MAXBITS);
    if w > 0 {
      WidestUsed(lens, x, MAXBITS);
      assert w == 1;
      assert Pow2(1) == 2 * Pow2(0);
    }
  }

  /** There is always room for codes of at most 9 bits. */
  lemma NarrowRoom(lens: Lengths)
    requires forall L: nat, k: nat :: L > 9 ==> !IsCode(lens, L, k)
    ensures Room(lens)
  {
    hide IsCode, CellsAt, Cells;
    NarrowCells(lens, 256);
    forall x: nat | x < 256 && CellsAt(lens, x) > 0
      ensures Cells(lens, 256) - CellsAt(lens, x) < 512
    {
      NarrowAt(lens, x);
    }
  }
}
