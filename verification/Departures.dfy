/** Concrete inputs on which the inflater departs from the standard. */
module Departures {
  import opened Bits
  import opened Canonical
  import opened HuffmanTable
  import opened TableBuilder
  import opened TableRoom
  import opened BitStream
  import opened RefInflate
  import opened InflateSymbols
  import opened InflateBlock
  import opened Inflate

  // ----- an unassigned code -----

  /** A literal code with the end-of-block symbol alone: its codeword is 0. */
  ghost predicate EndOnly(lens: Lengths)
  {
    lens == Repeat(0, 256) + [1]
  }

  lemma EndOnlyCount(lens: Lengths, L: nat)
    requires EndOnly(lens) && L >= 1
    ensures Count(lens, L) == if L == 1 then 1 else 0
    ensures Count(lens[..256], L) == 0
  {
    hide Syms;
    assert lens[..256] == Repeat(0, 256);
    CountRepeat(0, 256, L);
    CountConcat(Repeat(0, 256), [1], L);
    CountRepeat(1, 1, L);
    assert [1] == Repeat(1, 1);
  }

  lemma {:induction false} EndOnlyNext(lens: Lengths, L: nat)
    requires EndOnly(lens) && L >= 1
    ensures NextCode(lens, L) == if L == 1 then 0 else Pow2(L - 1)
  {
    hide Count, EndOnly;
    if L > 1 {
      EndOnlyNext(lens, L - 1);
      EndOnlyCount(lens, L - 1);
      assert Pow2(0) == 1 && Pow2(1) == 2 * Pow2(0);
    }
  }

  lemma EndOnlyFits(lens: Lengths)
    requires EndOnly(lens)
    ensures Fits(lens)
  {
    hide Count, NextCode, EndOnly;
    forall L | 1 <= L <= MAXBITS
      ensures NextCode(lens, L) + Count(lens, L) <= Pow2(L)
    {
      EndOnlyNext(lens, L);
      EndOnlyCount(lens, L);
      assert Pow2(L) == 2 * Pow2(L - 1);
    }
  }

  lemma EndOnlyShort(lens: Lengths)
    requires EndOnly(lens)
    ensures Room(lens) && forall w: nat :: BlankLength(lens, w) == 1
  {
    hide Count, EndOnly, Room, Widest;
    forall L: nat, k: nat | L > 1
      ensures !IsCode(lens, L, k)
    {
      EndOnlyCount(lens, L);
    }
    NarrowRoom(lens);
    forall w: nat
      ensures BlankLength(lens, w) == 1
    {
      if Widest(lens, w % 256, MAXBITS) > 0 { WidestUsed(lens, w % 256, MAXBITS); }
    }
  }

  lemma EndOnlyLengths(lens: Lengths)
    requires EndOnly(lens)
    ensures |lens| == 257 && LengthsOk(lens) && lens[256] == 1 && CanonCode(lens, 256) == 0
    ensures forall s :: 0 <= s < 256 ==> lens[s] == 0
  {
    hide Count, NextCode;
    EndOnlyNext(lens, 1);
    EndOnlyCount(lens, 1);
  }

  /** A set bit starts no codeword of it, a clear bit ends the block. */
  lemma EndOnlyReads(lens: Lengths, data: seq<Byte>, end: nat, p: nat)
    requires EndOnly(lens) && end <= |data| && p + MAXBITS <= 8 * end
    ensures Bit(data, p) == 1 ==> Sym(lens, data, end, p).NoCode?
    ensures Bit(data, p) == 0 ==> Sym(lens, data, end, p) == Found(256, p + 1)
  {
    hide ReadSym, CanonCode, Peek, Rev, Bit, EndOnly, Low, Fits, StartsWith, LengthsOk;
    EndOnlyLengths(lens);
    EndOnlyFits(lens);
    EmptyWindow(data, p);
    ReadSymSound(lens, data, end, p, 0);
    PeekOne(data, p);
    RevZero(1);
    if Bit(data, p) == 0 {
      EndStarts(lens, data, end, p);
      AssignedIsRead(lens, data, end, p, 15, 256);
    }
  }

  lemma EndStarts(lens: Lengths, data: seq<Byte>, end: nat, p: nat)
    requires |lens| == 257 && lens[256] == 1 && CanonCode(lens, 256) == 0
    requires end <= |data| && p + MAXBITS <= 8 * end && Bit(data, p) == 0
    ensures StartsWith(lens, Peek(data, p, 15), 256)
  {
    hide CanonCode, Peek, Rev, Bit, Low;
    PeekLow(data, p, 15, 1);
    PeekOne(data, p);
    RevZero(1);
  }

  lemma FirstBits(data: seq<Byte>)
    requires |data| > 0 && data[0] == 1
    ensures Bit(data, 0) == 1 && Bit(data, 1) == 0
  {
    BitOf(data, 0, 0);
    BitOf(data, 0, 1);
    ShrZero(1);
    ShrOne(1);
  }

  /** The standard refuses a block that starts with a set bit; the inflater's loop takes it for the byte 0,
      reads the end of the block from the next bit and accepts. */
  method UnassignedAccepted(lens: Lengths, data: seq<Byte>, tdist: array<nat>) returns (ok: bool, out: array<Byte>)
    requires EndOnly(lens) && |data| == 7 && data[0] == 1 && tdist.Length == TABLE_SIZE
    ensures ok && out[..] == [0]
    ensures forall dist: Lengths, before: seq<Byte> :: Block(lens, dist, data, 4, 0, before) == Departs(UnassignedCode)
  {
    hide EndOnly, Fits, LengthsOk, Room, Decodes, TakesZero, Sym, Peek, CanonCode, Bit, BlankLength;
    EndOnlyFits(lens);
    EndOnlyShort(lens);
    EndOnlyLengths(lens);
    FirstBits(data);
    EndOnlyReads(lens, data, 4, 0);
    EndOnlyReads(lens, data, 4, 1);
    var next := new nat[MAX_CODES](_ => 0);
    var table := new nat[TABLE_SIZE](_ => 0);
    ok := BuildTable(lens, next, table);
    ghost var t := table[..];
    out := new Byte[1](_ => 0);
    var r := new Reservoir(data, 4, 0);
    ok := r.Fetch();
    assert table[..] == t;
    var done, pout;
    ok, done, pout := InflateOne(r, table, tdist, out, 0, lens, []);
    assert table[..] == t && out[..] == out[..1];
    ok, done, pout := InflateOne(r, table, tdist, out, pout, lens, []);
  }

  // ----- a code too close to the end -----

  /** A block of one bit, the end symbol, two bytes before the end of the input: the reference accepts it, and
      the inflater refuses it because it cannot fetch a whole word. */
  method EndTooLate(lens: Lengths, data: seq<Byte>) returns (ok: bool)
    requires EndOnly(lens) && |data| == 9 && data[4] == 0
    ensures !ok && Block(lens, lens, data, 6, 32, []) == Accept(33, [], 32)
  {
    hide EndOnly, Fits, LengthsOk, Room, Decodes, TakesZero, Sym, Peek, Bit;
    EndOnlyFits(lens);
    EndOnlyShort(lens);
    EndOnlyLengths(lens);
    assert Bit(data, 32) == 0 by { ZeroBit(data); }
    EndOnlyReads(lens, data, 6, 32);
    var next := new nat[MAX_CODES](_ => 0);
    var table := new nat[TABLE_SIZE](_ => 0);
    ok := BuildTable(lens, next, table);
    ghost var t := table[..];
    var out := new Byte[0](_ => 0);
    var r := new Reservoir(data, 6, 4);
    assert table[..] == t && out[..0] == [];
    var pout;
    ok, pout := InflateCodes(r, table, table, out, 0, lens, lens);
  }

  lemma ZeroBit(data: seq<Byte>)
    requires |data| == 9 && data[4] == 0
    ensures Bit(data, 32) == 0
  {
    BitOf(data, 4, 0);
    ShrZero(0);
  }

  // ----- a stored block on a byte boundary -----

  /** The header of a stored block takes the last three bits of byte 0.  Its data starts at byte 1; backing
      up gives byte 2. */
  method StoredDataMissed(data: seq<Byte>) returns (pin: nat, ghost header: nat)
    requires |data| == 11
    ensures header == 8 && pin == 2 && (header + 7) / 8 == 1
  {
    hide Peek, Pow2;
    var r := new Reservoir(data, 8, 0);
    var ok := r.Fetch();
    var _ := r.Take(5);
    var _ := r.Take(3);
    header := r.Pos();
    BackUp(r);
    pin := r.pin;
  }
}
