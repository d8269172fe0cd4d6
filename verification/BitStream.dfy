/** The input bit stream of section 3.1.1 of RFC 1951 and the 64-bit reservoir that the
    inflater reads it through. */
module BitStream {
  import opened Bits

  type Byte = x: int | 0 <= x < 256

  /** Bit i of the stream: bytes in order, each from its least significant bit. */
  function Bit(data: seq<Byte>, i: nat): (b: nat)
    requires i < 8 * |data|
    ensures b < 2
  {
    Shr(data[i / 8], i % 8) % 2
  }

  /** The n bits from position p on as a number, first bit least significant. */
  ghost function Peek(data: seq<Byte>, p: nat, n: nat): (r: nat)
    requires p + n <= 8 * |data|
    ensures r < Pow2(n)
    decreases n
  {
    if n == 0 then 0 else Bit(data, p) + 2 * Peek(data, p + 1, n - 1)
  }

  lemma PeekStep(data: seq<Byte>, p: nat, n: nat)
    requires 0 < n && p + n <= 8 * |data|
    ensures Peek(data, p, n) % 2 == Bit(data, p) && Peek(data, p, n) / 2 == Peek(data, p + 1, n - 1)
  {
    hide Bit, Pow2;
  }

  lemma {:induction false} PeekLow(data: seq<Byte>, p: nat, n: nat, m: nat)
    requires m <= n && p + n <= 8 * |data|
    ensures Low(Peek(data, p, n), m) == Peek(data, p, m)
    decreases m
  {
    hide Bit, Pow2, Peek;
    PeekNothing(data, p);
    if m > 0 {
      PeekStep(data, p, n);
      PeekStep(data, p, m);
      PeekLow(data, p + 1, n - 1, m - 1);
    }
  }

  lemma {:induction false} PeekShr(data: seq<Byte>, p: nat, n: nat, m: nat)
    requires m <= n && p + n <= 8 * |data|
    ensures Shr(Peek(data, p, n), m) == Peek(data, p + m, n - m)
    decreases m
  {
    hide Bit, Pow2, Peek;
    if m > 0 {
      PeekStep(data, p, n);
      PeekShr(data, p + 1, n - 1, m - 1);
    }
  }

  lemma PeekSplit(data: seq<Byte>, p: nat, n: nat, m: nat)
    requires m <= n && p + n <= 8 * |data|
    ensures Peek(data, p, n) == Peek(data, p, m) + Shl(Peek(data, p + m, n - m), m)
  {
    hide *;
    Parts(Peek(data, p, n), m);
    PeekLow(data, p, n, m);
    PeekShr(data, p, n, m);
  }

  lemma ShrOne(x: nat)
    ensures Shr(x, 1) == x / 2
  {}

  lemma BitOf(data: seq<Byte>, b: nat, k: nat)
    requires b < |data| && k < 8
    ensures Bit(data, 8 * b + k) == Shr(data[b], k) % 2
  {
    hide Shr;
    assert (8 * b + k) / 8 == b && (8 * b + k) % 8 == k;
  }

  /** The bits of one byte, from bit k up. */
  lemma {:induction false} PeekByte(data: seq<Byte>, b: nat, k: nat)
    requires b < |data| && k <= 8
    ensures Peek(data, 8 * b + k, 8 - k) == Shr(data[b], k)
    decreases 8 - k
  {
    hide Low, Shr, Pow2, Peek;
    if k < 8 {
      PeekByte(data, b, k + 1);
      PeekStep(data, 8 * b + k, 8 - k);
      ShrShr(data[b], k, 1);
      ShrOne(Shr(data[b], k));
      BitOf(data, b, k);
    } else {
      PeekNothing(data, 8 * b + 8);
      Low8(data[b]);
    }
  }

  function Word(a: int, b: int, c: int, d: int): int
  {
    a + 256 * (b + 256 * (c + 256 * d))
  }

  lemma PeekNextByte(data: seq<Byte>, b: nat, n: nat)
    requires b < |data| && n >= 8 && 8 * b + n <= 8 * |data|
    ensures Peek(data, 8 * b, n) == data[b] + 256 * Peek(data, 8 * (b + 1), n - 8)
  {
    hide *;
    PeekByte(data, b, 0);
    ShrZero(data[b]);
    PeekSplit(data, 8 * b, n, 8);
    Shl8(Peek(data, 8 * b + 8, n - 8));
  }

  lemma PeekNothing(data: seq<Byte>, p: nat)
    requires p <= 8 * |data|
    ensures Peek(data, p, 0) == 0
  {
  }

  /** Four bytes read as a little-endian word are the next 32 bits. */
  lemma PeekWord(data: seq<Byte>, b: nat)
    requires b + 4 <= |data|
    ensures Peek(data, 8 * b, 32) == Word(data[b], data[b + 1], data[b + 2], data[b + 3])
  {
    hide Peek;
    PeekNextByte(data, b, 32);
    PeekNextByte(data, b + 1, 24);
    PeekNextByte(data, b + 2, 16);
    PeekNextByte(data, b + 3, 8);
    PeekNothing(data, 8 * (b + 4));
  }

  lemma ShrZero(x: nat)
    ensures Shr(x, 0) == x
  {
  }

  /** The last position at which 15 bits can still be made available, when input is taken a word at a
      time from byte pin on: 15 bits before the last whole word of the input ends. */
  ghost function LimitOf(pin: nat, end: nat): int
  {
    8 * (end - (end - pin) % 4) - 15
  }

  /** Going from pin0 to pin by whole words inside the input. */
  ghost predicate InStep(pin0: nat, pin: nat, end: nat)
  {
    pin0 <= end ==> pin <= end && pin % 4 == pin0 % 4 && LimitOf(pin, end) == LimitOf(pin0, end)
  }

  lemma WordStep(pin: nat, end: nat)
    requires pin + 4 <= end
    ensures InStep(pin, pin + 4, end) && 8 * pin <= LimitOf(pin, end)
  {}

  lemma NoWordStep(pin: nat, bits: nat, end: nat)
    requires pin <= end < pin + 4 && bits < 15
    ensures LimitOf(pin, end) < 8 * pin - bits
  {}

  lemma StayInStep(pin: nat, bits: nat, end: nat)
    ensures InStep(pin, pin, end) && (pin <= end && bits >= 15 ==> 8 * pin - bits <= LimitOf(pin, end))
  {}

  /** The bit reservoir: `val` holds the `bits` stream bits that end where byte `pin` starts.
      Up to three bytes past `end` may be touched when `pin` is brought to a word boundary. */
  class Reservoir {
    const data: seq<Byte>
    const end: nat
    var pin: nat
    var val: nat
    var bits: nat

    ghost predicate Valid()
      reads this
    {
      && end + 3 <= |data| && pin <= end + 3
      && bits <= 46 && bits <= 8 * pin
      && val == Peek(data, 8 * pin - bits, bits)
    }

    /** Number of stream bits consumed so far. */
    ghost function Pos(): (p: nat)
      requires bits <= 8 * pin
      reads this
    {
      8 * pin - bits
    }

    constructor (data: seq<Byte>, end: nat, pin: nat)
      requires end + 3 <= |data| && pin <= end
      ensures Valid() && this.data == data && this.end == end && this.pin == pin && bits == 0
    {
      this.data := data;
      this.end := end;
      this.pin := pin;
      this.val := 0;
      this.bits := 0;
    }

    /** Hold at least 15 bits; refused when fewer than four input bytes are left. */
    method Fetch() returns (ok: bool)
      requires Valid()
      modifies this
      ensures Valid() && Pos() == old(Pos())
      ensures old(pin) <= pin && InStep(old(pin), pin, end)
      ensures ok ==> bits >= 15
      ensures old(pin) <= end ==> (ok <==> Pos() <= LimitOf(old(pin), end))
      ensures ok <==> old(bits) >= 15 || old(pin) + 4 <= end
      ensures old(bits) >= 15 ==> pin == old(pin) && val == old(val) && bits == old(bits)
      ensures ok && old(bits) < 15 ==> pin == old(pin) + 4 && bits == old(bits) + 32
    {
      hide Peek, Shl, Pow2, LimitOf, InStep;
      StayInStep(pin, bits, end);
      if bits >= 15 {
        return true;
      }
      if end - pin < 4 {
        if pin <= end { NoWordStep(pin, bits, end); }
        return false;
      }
      WordStep(pin, end);
      var next := Word(data[pin], data[pin + 1], data[pin + 2], data[pin + 3]);
      PeekWord(data, pin);
      PeekSplit(data, 8 * pin - bits, bits + 32, bits);
      val := val + Shl(next, bits);
      bits := bits + 32;
      pin := pin + 4;
      return true;
    }

    /** Remove the next n bits and return them. */
    method Take(n: nat) returns (v: nat)
      requires Valid() && n <= bits
      modifies `val, `bits
      ensures Valid() && bits == old(bits) - n && Pos() == old(Pos()) + n
      ensures v == Peek(data, old(Pos()), n) && v < Pow2(n)
    {
      hide Peek, Low, Shr, Pow2;
      PeekLow(data, Pos(), bits, n);
      PeekShr(data, Pos(), bits, n);
      v := Low(val, n);
      val := Shr(val, n);
      bits := bits - n;
    }

    /** Read single bytes until pin is on a word boundary; addr is the address of the input. */
    method Align(addr: nat)
      requires Valid() && bits == 0 && pin <= end
      modifies this
      ensures Valid() && Pos() == old(Pos()) && bits <= 24 && (addr + pin) % 4 == 0
      ensures old(pin) <= pin < old(pin) + 4
    {
      hide Peek, Shl, Pow2;
      ghost var pin0 := pin;
      while (addr + pin) % 4 != 0
        invariant Valid() && Pos() == 8 * pin0 && pin0 <= pin && bits == 8 * (pin - pin0)
        invariant (addr + pin0) % 4 + (pin - pin0) <= 4 && (pin > pin0 ==> (addr + pin0) % 4 > 0)
        decreases pin0 + 4 - pin
      {
        PeekByte(data, pin, 0);
        ShrZero(data[pin]);
        PeekSplit(data, 8 * pin - bits, bits + 8, bits);
        val := val + Shl(data[pin], bits);
        bits := bits + 8;
        pin := pin + 1;
      }
    }
  }
}
