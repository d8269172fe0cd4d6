/** Fixed and stored blocks, the block loop, the stream loop, and the checksum: the inflater
    as a whole against the reference decoder. */
module Inflate {
  import opened Bits
  import opened Canonical
  import opened HuffmanTable
  import opened TableBuilder
  import opened TableRoom
  import opened BitStream
  import opened RefInflate
  import opened InflateSymbols
  import opened InflateBlock
  import opened InflateDynamic
  import opened Adler32

  // ----- the fixed codes -----

  lemma {:induction false} CountConcat(a: Lengths, b: Lengths, L: nat)
    ensures Count(a + b, L) == Count(a, L) + Count(b, L)
  {
    if b == [] {
      assert a + b == a;
    } else {
      var m := |b| - 1;
      assert (a + b)[..|a| + m] == a + b[..m];
      CountConcat(a, b[..m], L);
    }
  }

  lemma {:induction false} CountRepeat(v: nat, n: nat, L: nat)
    ensures Count(Repeat(v, n), L) == if v == L then n else 0
  {
    if n > 0 {
      assert Repeat(v, n)[..n - 1] == Repeat(v, n - 1);
      CountRepeat(v, n - 1, L);
    }
  }

  lemma FixedCounts(L: nat)
    ensures Count(FixedLit(), L) == if L == 7 then 24 else if L == 8 then 152 else if L == 9 then 112 else 0
    ensures Count(FixedDist(), L) == if L == 5 then 32 else 0
  {
    hide Syms, Repeat;
    var a, b, c, d := Repeat(8, 144), Repeat(9, 112), Repeat(7, 24), Repeat(8, 8);
    CountRepeat(8, 144, L);
    CountRepeat(9, 112, L);
    CountRepeat(7, 24, L);
    CountRepeat(8, 8, L);
    CountRepeat(5, 32, L);
    CountConcat(a, b, L);
    CountConcat(a + b, c, L);
    CountConcat(a + b + c, d, L);
  }

  /** First code of each length in the fixed literal code: 7-bit codes fill 0..23, 8-bit codes
      48..199, 9-bit codes 400..511, and nothing is left over. */
  lemma {:induction false} FixedNextCode(L: nat)
    requires 1 <= L <= 15
    ensures NextCode(FixedLit(), L) == if L <= 7 then 0 else if L == 8 then 48 else if L == 9 then 400 else Pow2(L)
    ensures NextCode(FixedDist(), L) == if L <= 5 then 0 else Pow2(L)
  {
    hide Count, FixedLit, FixedDist;
    if L > 1 {
      FixedNextCode(L - 1);
      FixedCounts(L - 1);
      assert Pow2(6) == 64;
      assert Pow2(10) == 1024;
    }
  }

  lemma FixedFits()
    ensures Fits(FixedLit()) && Fits(FixedDist())
  {
    hide NextCode, Count, FixedLit, FixedDist;
    forall L | 1 <= L <= MAXBITS
      ensures NextCode(FixedLit(), L) + Count(FixedLit(), L) <= Pow2(L)
      ensures NextCode(FixedDist(), L) + Count(FixedDist(), L) <= Pow2(L)
    {
      FixedNextCode(L);
      FixedCounts(L);
      Pow2Values();
      assert Pow2(9) == 512;
    }
  }

  /** The fixed codes have at most 9 bits, so there is room for their tables. */
  lemma FixedRoom()
    ensures Room(FixedLit()) && Room(FixedDist())
  {
    hide Count, FixedLit, FixedDist, Room;
    forall L: nat, k: nat | L > 9
      ensures !IsCode(FixedLit(), L, k) && !IsCode(FixedDist(), L, k)
    {
      FixedCounts(L);
    }
    NarrowRoom(FixedLit());
    NarrowRoom(FixedDist());
  }

  /** They use up the code space. */
  lemma FixedComplete()
    ensures Complete(FixedLit()) && Complete(FixedDist())
  {
    hide Count, FixedLit, FixedDist, NextCode, Space;
    FixedNextCode(15);
    FixedCounts(15);
    SpaceIsNextCode(FixedLit(), 15);
    SpaceIsNextCode(FixedDist(), 15);
    assert Shl(Pow2(15), 0) == Pow2(15);
  }

  lemma FixedLengthsOk()
    ensures |FixedLit()| == 288 && LengthsOk(FixedLit())
    ensures |FixedDist()| == 32 && LengthsOk(FixedDist())
  {
  }

  /** The fixed tables, as the generator that is kept beside them makes them. */
  class FixedTables {
    const tlit: array<nat>
    const tdist: array<nat>

    ghost predicate Valid()
      reads tlit, tdist
    {
      && tlit.Length == TABLE_SIZE && tdist.Length == TABLE_SIZE
      && Decodes(FixedLit(), tlit[..]) && Decodes(FixedDist(), tdist[..])
    }

    constructor ()
      ensures Valid() && fresh(tlit) && fresh(tdist)
    {
      hide Decodes, TakesZero, Fits, Room, FixedLit, FixedDist, LengthsOk;
      var next := new nat[MAX_CODES](_ => 0);
      var t := new nat[TABLE_SIZE](_ => 0);
      var d := new nat[TABLE_SIZE](_ => 0);
      FixedFits();
      FixedRoom();
      FixedLengthsOk();
      var ok := BuildTable(FixedLit(), next, t);
      assert ok && Decodes(FixedLit(), t[..]);
      ghost var table := t[..];
      ok := BuildTable(FixedDist(), next, d);
      assert ok && Decodes(FixedDist(), d[..]);
      assert t[..] == table;
      tlit := t;
      tdist := d;
    }
  }

  /** A block result that matches the reference also leaves the reservoir inside the input. */
  ghost predicate BlockAgrees(ref: Ref, pos: nat, out: seq<Byte>, inside: bool)
  {
    (ref.Departs? && ref.why != CrowdedTables) || (ref.Accept? && ref.pos == pos && ref.out == out && inside)
  }

  /** A block with the fixed codes: what is accepted is what the reference accepts, without exception. */
  method InflateFixedBlock(r: Reservoir, f: FixedTables, out: array<Byte>, pout: nat) returns (ok: bool, pout': nat)
    requires r.Valid() && f.Valid() && pout <= out.Length
    modifies r, out
    ensures r.Valid() && f.Valid() && InStep(old(r.pin), r.pin, r.end)
    ensures ok ==> r.Pos() > old(r.Pos()) && pout' <= out.Length
    ensures old(r.pin) <= r.end ==>
              var ref := Compressed(FixedLit(), FixedDist(), r.data, r.end, old(r.Pos()), old(out[..pout]));
              && (ok ==> ref.Accept? && ref.pos == r.Pos() && ref.out == out[..pout'])
              && (ok <==> ref.Accept? && |ref.out| <= out.Length && ref.last <= LimitOf(old(r.pin), r.end))
  {
    hide Peek, Pow2, Block, Decodes, Fits, FixedLit, FixedDist, Complete, LimitOf, Room;
    FixedFits();
    FixedRoom();
    FixedComplete();
    if r.pin <= r.end { CompleteNeverDeparts(FixedLit(), FixedDist(), r.data, r.end, r.Pos(), out[..pout]); }
    ghost var tl, td := f.tlit[..], f.tdist[..];
    ok, pout' := InflateCodes(r, f.tlit, f.tdist, out, pout, FixedLit(), FixedDist());
    assert f.tlit[..] == tl && f.tdist[..] == td;
  }

  // ----- stored blocks -----

  /** Give back whole bytes that were read ahead.  The position reached is the byte after the
      last bit consumed, which is where a stored block starts only if that bit was not the
      last one of its byte. */
  method BackUp(r: Reservoir)
    requires r.Valid() && r.bits >= 1
    modifies r
    ensures r.Valid() && r.bits == 0 && r.pin == old(r.Pos()) / 8 + 1 && r.pin <= old(r.pin)
    ensures r.pin == (old(r.Pos()) + 7) / 8 <==> old(r.Pos()) % 8 != 0
  {
    hide Peek;
    var pin, bits := r.pin, r.bits;
    while bits > 8
      invariant 1 <= bits && 8 * pin - bits == old(r.Pos()) && pin <= old(r.pin)
    {
      pin, bits := pin - 1, bits - 8;
    }
    r.pin, r.val, r.bits := pin, 0, 0;
    PeekNothing(r.data, 8 * pin);
  }

  method InflateStored(r: Reservoir, addr: nat, out: array<Byte>, pout: nat) returns (ok: bool, pout': nat)
    requires r.Valid() && r.bits >= 1 && pout <= out.Length
    modifies r, out
    ensures r.Valid()
    ensures ok ==> r.Pos() > old(r.Pos()) && pout' <= out.Length
    ensures ok && old(r.pin) <= r.end ==>
              BlockAgrees(Stored(r.data, r.end, old(r.Pos()), old(out[..pout])), r.Pos(), out[..pout'], r.pin <= r.end)
    ensures old(r.pin) <= r.end && Stored(r.data, r.end, old(r.Pos()), old(out[..pout])).Accept? ==>
              (ok <==> |Stored(r.data, r.end, old(r.Pos()), old(out[..pout])).out| <= out.Length)
    ensures ok ==> Aligned(addr, r.pin)
  {
    hide Peek;
    BackUp(r);
    var a := r.pin;
    if r.end - a < 4 {
      return false, pout;
    }
    var len := r.data[a] as int + 256 * r.data[a + 1] as int;
    var lenc := r.data[a + 2] as int + 256 * r.data[a + 3] as int;
    if len != 65535 - lenc || len > r.end - (a + 4) || len > out.Length - pout {
      return false, pout;
    }
    forall i | 0 <= i < len {
      out[pout + i] := r.data[a + 4 + i];
    }
    assert out[..pout + len] == old(out[..pout]) + r.data[a + 4..a + 4 + len];
    pout' := pout + len;
    r.pin := a + 4 + len;
    PeekNothing(r.data, 8 * r.pin);
    r.Align(addr);
    ok := true;
  }

  // ----- blocks -----

  /** Byte pin of the input at address addr lies on a word boundary. */
  ghost predicate Aligned(addr: nat, pin: nat)
  {
    (addr + pin) % 4 == 0
  }

  lemma StaysAligned(addr: nat, pin0: nat, pin: nat, end: nat)
    requires InStep(pin0, pin, end) && pin0 <= end && Aligned(addr, pin0)
    ensures Aligned(addr, pin)
  {
    hide LimitOf;
  }

  /** A block of the given kind, behind its header. */
  method InflateBody(kind: nat, r: Reservoir, addr: nat, w: WorkSpace, f: FixedTables, out: array<Byte>, pout: nat)
    returns (ok: bool, pout': nat)
    requires r.Valid() && r.bits >= 1 && w.Valid() && f.Valid() && pout <= out.Length
    requires f.tlit !in w.Arrays() && f.tdist !in w.Arrays()
    modifies r, out, w.Arrays()
    ensures r.Valid() && f.Valid()
    ensures ok ==> r.Pos() > old(r.Pos()) && pout' <= out.Length
    ensures ok && old(r.pin) <= r.end ==>
              BlockAgrees(Body(kind, r.data, r.end, old(r.Pos()), old(out[..pout])), r.Pos(), out[..pout'], r.pin <= r.end)
    ensures old(r.pin) <= r.end && kind != 0 ==>
              Fair(Body(kind, r.data, r.end, old(r.Pos()), old(out[..pout])), ok, LimitOf(old(r.pin), r.end), out.Length)
    ensures old(r.pin) <= r.end && kind == 0 && Body(0, r.data, r.end, old(r.Pos()), old(out[..pout])).Accept? ==>
              (ok <==> |Body(0, r.data, r.end, old(r.Pos()), old(out[..pout])).out| <= out.Length)
    ensures ok && Aligned(addr, old(r.pin)) && old(r.pin) <= r.end ==> Aligned(addr, r.pin)
  {
    hide Peek, Pow2, Decodes, Stored, Compressed, Dynamic, FixedLit, FixedDist, Bit, LimitOf, Aligned;
    pout' := pout;
    ghost var pin := r.pin;
    ghost var tl, td := f.tlit[..], f.tdist[..];
    if kind == 0 {
      ok, pout' := InflateStored(r, addr, out, pout);
    } else if kind == 1 {
      ok, pout' := InflateFixedBlock(r, f, out, pout);
      if pin <= r.end && Aligned(addr, pin) { StaysAligned(addr, pin, r.pin, r.end); }
    } else if kind == 2 {
      ok, pout' := InflateDynamicBlock(r, w, out, pout);
      if pin <= r.end && Aligned(addr, pin) { StaysAligned(addr, pin, r.pin, r.end); }
    } else {
      ok := false;
    }
    assert f.tlit[..] == tl && f.tdist[..] == td;
  }

  /** One block with its header; `last` is its final-block bit. */
  method InflateOneBlock(r: Reservoir, addr: nat, w: WorkSpace, f: FixedTables, out: array<Byte>, pout: nat)
    returns (ok: bool, last: bool, pout': nat)
    requires r.Valid() && w.Valid() && f.Valid() && pout <= out.Length
    requires f.tlit !in w.Arrays() && f.tdist !in w.Arrays()
    modifies r, out, w.Arrays()
    ensures r.Valid() && f.Valid()
    ensures ok ==> r.Pos() > old(r.Pos()) && pout' <= out.Length
    ensures ok && old(r.pin) <= r.end ==>
              && old(r.Pos()) + 3 <= 8 * r.end && last == (Bit(r.data, old(r.Pos())) == 1)
              && BlockAgrees(OneBlock(r.data, r.end, old(r.Pos()), old(out[..pout])), r.Pos(), out[..pout'], r.pin <= r.end)
    ensures old(r.pin) <= r.end && old(r.Pos()) + 3 <= 8 * r.end ==>
              Fair(OneBlock(r.data, r.end, old(r.Pos()), old(out[..pout])), ok, LimitOf(old(r.pin), r.end), out.Length)
    ensures ok && Aligned(addr, old(r.pin)) && old(r.pin) <= r.end ==> Aligned(addr, r.pin)
  {
    hide Peek, Pow2, Decodes, Body, Bit, LimitOf, Aligned;
    last, pout' := false, pout;
    ghost var pin := r.pin;
    ok := r.Fetch();
    if !ok {
      return;
    }
    if pin <= r.end && Aligned(addr, pin) { StaysAligned(addr, pin, r.pin, r.end); }
    PeekOne(r.data, r.Pos());
    ghost var tl, td := f.tlit[..], f.tdist[..];
    var b := r.Take(1);
    last := b == 1;
    var kind := r.Take(2);
    assert f.tlit[..] == tl && f.tdist[..] == td;
    ok, pout' := InflateBody(kind, r, addr, w, f, out, pout);
  }

  lemma AlignedLimit(addr: nat, pin: nat, pin': nat, end: nat)
    requires pin <= end && pin' <= end && Aligned(addr, pin) && Aligned(addr, pin')
    ensures LimitOf(pin, end) == LimitOf(pin', end) == StreamLimit(addr, end)
  {
    OneLimit(addr, pin, end);
    OneLimit(addr, pin', end);
  }

  lemma OneLimit(addr: nat, pin: nat, end: nat)
    requires pin <= end && Aligned(addr, pin)
    ensures LimitOf(pin, end) == StreamLimit(addr, end)
  {
    assert (end - pin) % 4 == (addr + end) % 4;
  }

  /** The last position at which a code may begin in input that ends at byte `end` and lies at address addr:
      15 bits before the last whole word ends. */
  ghost function StreamLimit(addr: nat, end: nat): int
  {
    8 * (end - (addr + end) % 4) - 15
  }

  /** Blocks until one is marked last. */
  method InflateBlocks(r: Reservoir, addr: nat, w: WorkSpace, f: FixedTables, out: array<Byte>, pout0: nat)
    returns (ok: bool, pout: nat)
    requires r.Valid() && w.Valid() && f.Valid() && pout0 <= out.Length
    requires f.tlit !in w.Arrays() && f.tdist !in w.Arrays()
    modifies r, out, w.Arrays()
    ensures r.Valid() && f.Valid()
    ensures ok ==> r.Pos() > old(r.Pos()) && pout <= out.Length
    ensures ok && old(r.pin) <= r.end ==>
              Agrees(Blocks(r.data, r.end, old(r.Pos()), old(out[..pout0])), r.Pos(), out[..pout])
    ensures old(r.pin) <= r.end && Aligned(addr, old(r.pin)) ==>
              Fair(Blocks(r.data, r.end, old(r.Pos()), old(out[..pout0])), ok, LimitOf(old(r.pin), r.end), out.Length)
  {
    hide Peek, Pow2, Decodes, OneBlock, Bit, LimitOf, Aligned;
    pout := pout0;
    ghost var good := r.pin <= r.end;
    ghost var ref := if good then Blocks(r.data, r.end, r.Pos(), out[..pout]) else Reject;
    ghost var aligned, limit := Aligned(addr, r.pin), LimitOf(r.pin, r.end);
    var last := false;
    while !last
      invariant r.Valid() && f.Valid() && pout <= out.Length && r.Pos() >= old(r.Pos())
      invariant last ==> r.Pos() > old(r.Pos())
      invariant good ==>
        || (ref.Departs? && ref.why != CrowdedTables)
        || (if last then ref.Accept? && ref.pos == r.Pos() && ref.out == out[..pout] && (aligned ==> ref.last <= limit)
            else && r.pin <= r.end && ref == Blocks(r.data, r.end, r.Pos(), out[..pout])
                 && (aligned ==> Aligned(addr, r.pin) && LimitOf(r.pin, r.end) == limit))
      decreases 8 * r.end + 24 - r.Pos(), !last
    {
      ghost var pin := r.pin;
      ok, last, pout := InflateOneBlock(r, addr, w, f, out, pout);
      if !ok {
        return;
      }
      if aligned && pin <= r.end && r.pin <= r.end && Aligned(addr, pin) { AlignedLimit(addr, pin, r.pin, r.end); }
    }
    ok := true;
  }

  // ----- the stream -----

  /** The output so far is that of the reference for the whole stream, and no input is left. */
  ghost predicate StreamDone(data: seq<Byte>, end: nat, pin: int, out: seq<Byte>)
    requires end <= |data|
  {
    var s := Stream(data, end);
    (s.Departs? && s.why != CrowdedTables) || (end - pin <= 4 && s.Accept? && s.out == out)
  }

  lemma StreamFromBlocks(data: seq<Byte>, end: nat, pos: nat, out: seq<Byte>, pin: nat)
    requires 4 < end <= |data| && HeaderOk(data[0], data[1]) && pos <= 8 * pin
    requires Agrees(Blocks(data, end, 16, []), pos, out)
    ensures StreamDone(data, end, pin, out)
  {
    hide Blocks;
  }

  /** One zlib stream: header, word alignment, blocks. */
  method InflateOneStream(data: seq<Byte>, end: nat, addr: nat, pin: nat, w: WorkSpace, f: FixedTables,
                          out: array<Byte>, pout: nat)
    returns (ok: bool, pin': nat, pout': nat)
    requires pin + 4 < end && end + 3 <= |data| && w.Valid() && f.Valid() && pout <= out.Length
    requires f.tlit !in w.Arrays() && f.tdist !in w.Arrays()
    modifies out, w.Arrays()
    ensures f.Valid()
    ensures ok ==> pin < pin' && pout' <= out.Length
    ensures ok && pin == 0 && pout == 0 ==> StreamDone(data, end, pin', out[..pout'])
    ensures pin == 0 && pout == 0 ==> Fair(Stream(data, end), ok, StreamLimit(addr, end), out.Length)
  {
    hide Blocks, Decodes, Peek, HeaderOk, StreamDone, LimitOf, StreamLimit;
    pin', pout' := pin, pout;
    if !HeaderOk(data[pin], data[pin + 1]) {
      return false, pin, pout;
    }
    var r := new Reservoir(data, end, pin + 2);
    r.Align(addr);
    assert r.Pos() == 8 * (pin + 2) && r.pin <= end;
    assert pout == 0 ==> out[..pout] == [];
    AlignedLimit(addr, r.pin, r.pin, end);
    ok, pout' := InflateBlocks(r, addr, w, f, out, pout);
    if ok {
      pin' := r.pin;
      if pin == 0 && pout == 0 {
        StreamFromBlocks(data, end, r.Pos(), out[..pout'], r.pin);
      }
    }
  }

  /** Inflate data[..end], which lies at address addr, into out.
      If the inflater succeeds, the reference decoder accepts the stream with the same output,
      or reports one of the known departures from the standard.  What the reference accepts is
      inflated exactly when the output has the right size and the last code does not begin too
      close to the end of the input. */
  method InflateStream(data: seq<Byte>, end: nat, addr: nat, w: WorkSpace, f: FixedTables, out: array<Byte>)
    returns (ok: bool)
    requires end + 3 <= |data| && w.Valid() && f.Valid()
    requires f.tlit !in w.Arrays() && f.tdist !in w.Arrays()
    modifies out, w.Arrays()
    ensures f.Valid()
    ensures ok ==> || (Stream(data, end).Departs? && Stream(data, end).why != CrowdedTables)
                   || (Stream(data, end).Accept? && Stream(data, end).out == out[..])
    ensures Stream(data, end).Accept? ==>
              (ok <==> |Stream(data, end).out| == out.Length && Stream(data, end).last <= StreamLimit(addr, end))
  {
    hide Blocks, Decodes, StreamLimit;
    var pin, pout := 0, 0;
    while end - pin > 4
      invariant 0 <= pin && 0 <= pout <= out.Length && f.Valid()
      invariant pin == 0 ==> pout == 0
      invariant pin > 0 ==> StreamDone(data, end, pin, out[..pout])
      invariant pin > 0 && Stream(data, end).Accept? ==> Stream(data, end).last <= StreamLimit(addr, end)
      decreases end - pin
    {
      ok, pin, pout := InflateOneStream(data, end, addr, pin, w, f, out, pout);
      if !ok {
        return false;
      }
    }
    ok := pout == out.Length;
    assert ok ==> out[..pout] == out[..];
  }

  /** A code of 7 bits or more at the end, as in a block with the fixed codes, never begins too late. */
  lemma LongEndInTime(data: seq<Byte>, end: nat, addr: nat)
    requires end <= |data| && Stream(data, end).Accept? && Stream(data, end).pos - Stream(data, end).last >= 7
    ensures Stream(data, end).last <= StreamLimit(addr, end)
  {
    hide Blocks;
  }

  /** Inflate and verify: what is accepted also carries the right checksum. */
  method InflateAndVerify(data: seq<Byte>, end: nat, addr: nat, w: WorkSpace, f: FixedTables, out: array<Byte>)
    returns (ok: bool)
    requires 4 <= end && end + 3 <= |data| && w.Valid() && f.Valid()
    requires f.tlit !in w.Arrays() && f.tdist !in w.Arrays()
    modifies out, w.Arrays()
    ensures ok ==> || (Stream(data, end).Departs? && Stream(data, end).why != CrowdedTables)
                   || (Stream(data, end).Accept? && Stream(data, end).out == out[..])
    ensures Stream(data, end).Accept? ==>
              (ok <==> && |Stream(data, end).out| == out.Length && Stream(data, end).last <= StreamLimit(addr, end)
                       && Word(data[end - 1], data[end - 2], data[end - 3], data[end - 4]) == Checksum(Stream(data, end).out))
    ensures ok ==> Word(data[end - 1], data[end - 2], data[end - 3], data[end - 4]) == Checksum(out[..])
  {
    hide Stream, Checksum;
    ok := InflateStream(data, end, addr, w, f, out);
    if ok {
      ok := VerifyChecksum(data[end - 4..end], out[..]);
    }
  }
}
