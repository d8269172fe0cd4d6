/** Reading bytes and LEB128 numbers from a DWARF section, with the underflow flag. */
module DwarfReader {
  import opened Bits
  import opened BitStream

  /** 2^64, the range of uint64_t. */
  const W: int := 0x1_0000_0000_0000_0000

  /** A value read, the bytes left, and whether an underflow has been reported. */
  datatype Got = Got(value: int, rest: seq<Byte>, under: bool)

  function GetByte(rest: seq<Byte>, under: bool): Got
  {
    if rest == [] then Got(0, rest, true) else Got(rest[0], rest[1..], under)
  }

  // ----- LEB128 as section 7.6 of DWARF 4 defines it -----

  /** A complete encoding: continuation bytes and then one byte below 128. */
  ghost predicate IsLeb(bs: seq<Byte>)
  {
    |bs| > 0 && if bs[0] < 128 then |bs| == 1 else IsLeb(bs[1..])
  }

  /** The unsigned number: seven bits from each byte, least significant first. */
  ghost function UlebValue(bs: seq<Byte>): nat
    requires IsLeb(bs)
  {
    bs[0] % 128 + if bs[0] < 128 then 0 else 128 * UlebValue(bs[1..])
  }

  /** The signed number: the second-highest bit of the last byte is the sign. */
  ghost function SlebValue(bs: seq<Byte>): int
    requires IsLeb(bs)
  {
    if bs[0] < 64 then bs[0] as int
    else if bs[0] < 128 then bs[0] as int - 128
    else bs[0] as int % 128 + 128 * SlebValue(bs[1..])
  }

  function EncodeUleb(n: nat): seq<Byte>
  {
    if n < 128 then [n] else [128 + n % 128] + EncodeUleb(n / 128)
  }

  function EncodeSleb(n: int): seq<Byte>
    decreases if n < 0 then -n else n
  {
    if -64 <= n < 64 then [n % 128] else [128 + n % 128] + EncodeSleb(n / 128)
  }

  lemma {:induction false} EncodeUlebValue(n: nat)
    ensures IsLeb(EncodeUleb(n)) && UlebValue(EncodeUleb(n)) == n
  {
    if n >= 128 {
      EncodeUlebValue(n / 128);
      assert EncodeUleb(n)[1..] == EncodeUleb(n / 128);
    }
  }

  lemma {:induction false} EncodeSlebValue(n: int)
    ensures IsLeb(EncodeSleb(n)) && SlebValue(EncodeSleb(n)) == n
    decreases if n < 0 then -n else n
  {
    if !(-64 <= n < 64) {
      EncodeSlebValue(n / 128);
      assert EncodeSleb(n)[1..] == EncodeSleb(n / 128);
    }
  }

  // ----- the reader's arithmetic -----

  /** One byte's seven bits added at a shift, in 64 bits; bits that fall off are lost. */
  function AddBits(acc: int, b: int, shift: nat): int
  {
    if shift < 64 then (acc + Shl(b % 128, shift)) % W else acc
  }

  /** What read_uleb128 returns for the bytes ahead, having read up to shift. */
  function UlebFrom(rest: seq<Byte>, under: bool, shift: nat, acc: int): Got
    decreases |rest|
  {
    if rest == [] then Got(0, rest, true)
    else
      var acc1 := AddBits(acc, rest[0], shift);
      if rest[0] >= 128 then UlebFrom(rest[1..], under, shift + 7, acc1) else Got(acc1, rest[1..], under)
  }

  function GetUleb(rest: seq<Byte>, under: bool): Got
  {
    UlebFrom(rest, under, 0, 0)
  }

  function ToSigned(v: int): int
  {
    if v < W / 2 then v else v - W
  }

  /** The sign extension after the last byte. */
  function SignExtend(v: int, last: int, shift: nat): int
  {
    ToSigned(if last / 64 % 2 == 1 && shift < 64 then (v + W - Pow2(shift)) % W else v)
  }

  function SlebFrom(rest: seq<Byte>, under: bool, shift: nat, acc: int): Got
    decreases |rest|
  {
    if rest == [] then Got(0, rest, true)
    else
      var acc1 := AddBits(acc, rest[0], shift);
      if rest[0] >= 128 then SlebFrom(rest[1..], under, shift + 7, acc1)
      else Got(SignExtend(acc1, rest[0], shift + 7), rest[1..], under)
  }

  function GetSleb(rest: seq<Byte>, under: bool): Got
  {
    SlebFrom(rest, under, 0, 0)
  }

  lemma ModAdd(x: int, y: int)
    ensures (x % W + y) % W == (x + y) % W
  {
  }

  lemma ShlSeven(x: int, n: nat)
    ensures Shl(128 * x, n) == Shl(x, n + 7)
  {
    ShlShl(x, 7, n);
    assert Shl(x, 1) == 2 * x;
    assert Shl(x, 2) == 4 * x;
    assert Shl(x, 3) == 8 * x;
    assert Shl(x, 5) == 32 * x;
  }

  /** Bits from position 64 on do not count. */
  lemma ShlWraps(x: int, n: nat)
    requires n >= 64
    ensures Shl(x, n) % W == 0
  {
    hide Shl;
    Shl64(Shl(x, n - 64));
    ShlShl(x, n - 64, 64);
  }

  lemma Shl64(x: int)
    ensures Shl(x, 64) == W * x
  {
    hide Shl;
    Shl8(x);
    ShlShl(x, 8, 8);
    Shl8(Shl(x, 8));
    ShlShl(x, 16, 16);
    Shl16(x);
    Shl16(Shl(x, 16));
    ShlShl(x, 32, 16);
    Shl16(Shl(x, 32));
    ShlShl(x, 48, 16);
    Shl16(Shl(x, 48));
  }

  lemma Shl16(x: int)
    ensures Shl(x, 16) == 65536 * x
  {
    hide Shl;
    ShlShl(x, 8, 8);
    Shl8(x);
    Shl8(Shl(x, 8));
  }

  /** The reader gets the number modulo 2^64, whatever its length, and stops behind it. */
  lemma {:induction false} UlebReads(bs: seq<Byte>, tail: seq<Byte>, under: bool, shift: nat, acc: int)
    requires IsLeb(bs) && 0 <= acc < W
    ensures UlebFrom(bs + tail, under, shift, acc) == Got((acc + Shl(UlebValue(bs), shift)) % W, tail, under)
  {
    hide Shl;
    var b := bs[0] as int;
    var acc1 := AddBits(acc, b, shift);
    AddBitsMod(acc, b, shift);
    assert (bs + tail)[1..] == bs[1..] + tail;
    if b < 128 {
      assert bs[1..] + tail == tail;
    } else {
      var v := UlebValue(bs[1..]);
      UlebReads(bs[1..], tail, under, shift + 7, acc1);
      ShlAdd(b % 128, 128 * v, shift);
      ShlSeven(v, shift);
      ModAdd(acc + Shl(b % 128, shift), Shl(v, shift + 7));
    }
  }

  lemma AddBitsMod(acc: int, b: int, shift: nat)
    requires 0 <= acc < W
    ensures AddBits(acc, b, shift) == (acc + Shl(b % 128, shift)) % W
  {
    hide Shl;
    if shift >= 64 {
      ShlWraps(b % 128, shift);
      ModAdd(Shl(b % 128, shift), acc);
    }
  }

  /** Round trip for unsigned numbers. */
  lemma UlebRoundTrip(n: nat, tail: seq<Byte>, under: bool)
    requires n < W
    ensures GetUleb(EncodeUleb(n) + tail, under) == Got(n, tail, under)
  {
    hide EncodeUleb, UlebValue, UlebFrom, Shl;
    EncodeUlebValue(n);
    UlebReads(EncodeUleb(n), tail, under, 0, 0);
    ShlNone(n);
  }

  lemma {:induction false} SlebReads(bs: seq<Byte>, tail: seq<Byte>, under: bool, shift: nat, acc: int)
    requires IsLeb(bs) && 0 <= acc < W
    ensures SlebFrom(bs + tail, under, shift, acc) == Got(ToSigned((acc + Shl(SlebValue(bs), shift)) % W), tail, under)
  {
    hide Shl;
    var b := bs[0] as int;
    var acc1 := AddBits(acc, b, shift);
    AddBitsMod(acc, b, shift);
    assert (bs + tail)[1..] == bs[1..] + tail;
    if b < 128 {
      assert bs[1..] + tail == tail;
      SignMod(acc, b, shift);
    } else {
      var v := SlebValue(bs[1..]);
      SlebReads(bs[1..], tail, under, shift + 7, acc1);
      ShlAdd(b % 128, 128 * v, shift);
      ShlSeven(v, shift);
      ModAdd(acc + Shl(b % 128, shift), Shl(v, shift + 7));
    }
  }

  lemma ShlSigned(b: int, shift: nat)
    ensures Shl(b - 128, shift) == Shl(b, shift) - Pow2(shift + 7)
  {
    hide Shl, Pow2;
    ShlAdd(b - 128, 128, shift);
    ShlSeven(1, shift);
    ShlBit(1, shift + 7);
  }

  lemma ModSubtract(x: int, p: int)
    ensures (x % W + W - p) % W == (x - p) % W
    ensures p % W == 0 ==> x % W == (x - p) % W
  {
  }

  /** Extending the sign is subtracting 2^(shift + 7) modulo 2^64. */
  lemma SignMod(acc: int, b: int, shift: nat)
    requires 0 <= acc < W && 0 <= b < 128
    ensures SignExtend((acc + Shl(b, shift)) % W, b, shift + 7) ==
            ToSigned((acc + Shl(if b < 64 then b else b - 128, shift)) % W)
  {
    hide Shl, Pow2, ToSigned;
    if b >= 64 {
      ShlSigned(b, shift);
      ModSubtract(acc + Shl(b, shift), Pow2(shift + 7));
      if shift + 7 >= 64 {
        ShlWraps(1, shift + 7);
        ShlBit(1, shift + 7);
      }
    }
  }

  /** Round trip for signed numbers. */
  lemma SlebRoundTrip(n: int, tail: seq<Byte>, under: bool)
    requires -W / 2 <= n < W / 2
    ensures GetSleb(EncodeSleb(n) + tail, under) == Got(n, tail, under)
  {
    hide EncodeSleb, SlebValue, SlebFrom, Shl;
    EncodeSlebValue(n);
    SlebReads(EncodeSleb(n), tail, under, 0, 0);
    ShlNone(n);
    SignedMod(n);
  }

  lemma ShlNone(x: int)
    ensures Shl(x, 0) == x
  {
  }

  lemma SignedMod(n: int)
    requires -W / 2 <= n < W / 2
    ensures ToSigned(n % W) == n
  {
  }

  /** Reading never adds bytes. */
  lemma {:induction false} LebShrinks(rest: seq<Byte>, under: bool, shift: nat, acc: int)
    ensures |UlebFrom(rest, under, shift, acc).rest| <= |rest|
    ensures |SlebFrom(rest, under, shift, acc).rest| <= |rest|
    decreases |rest|
  {
    if rest != [] {
      hide Shl;
      LebShrinks(rest[1..], under, shift + 7, AddBits(acc, rest[0], shift));
    }
  }

  // ----- the buffer -----

  /** The bytes that are left to read, and whether an underflow has been reported. */
  class DwarfBuf {
    var rest: seq<Byte>
    var reportedUnderflow: bool

    constructor (bytes: seq<Byte>)
      ensures rest == bytes && !reportedUnderflow
    {
      rest := bytes;
      reportedUnderflow := false;
    }

    /** Move forward; without enough bytes stay and report. */
    method Advance(count: nat) returns (ok: bool)
      modifies this
      ensures ok <==> count <= |old(rest)|
      ensures ok ==> rest == old(rest)[count..] && reportedUnderflow == old(reportedUnderflow)
      ensures !ok ==> rest == old(rest) && reportedUnderflow
    {
      if |rest| < count {
        reportedUnderflow := true;
        return false;
      }
      rest := rest[count..];
      return true;
    }

    method ReadByte() returns (b: int)
      modifies this
      ensures Got(b, rest, reportedUnderflow) == GetByte(old(rest), old(reportedUnderflow))
    {
      var p := rest;
      var ok := Advance(1);
      return if ok then p[0] else 0;
    }

    method ReadUleb() returns (ret: int)
      modifies this
      ensures Got(ret, rest, reportedUnderflow) == GetUleb(old(rest), old(reportedUnderflow))
    {
      hide Shl;
      ret := 0;
      var shift := 0;
      ghost var under := reportedUnderflow;
      while true
        invariant reportedUnderflow == under
        invariant UlebFrom(rest, under, shift, ret) == GetUleb(old(rest), under)
        decreases |rest|
      {
        var p := rest;
        var ok := Advance(1);
        if !ok {
          return 0;
        }
        ret := AddBits(ret, p[0], shift);
        shift := shift + 7;
        if p[0] < 128 {
          return;
        }
      }
    }

    method ReadSleb() returns (ret: int)
      modifies this
      ensures Got(ret, rest, reportedUnderflow) == GetSleb(old(rest), old(reportedUnderflow))
    {
      hide Shl;
      ret := 0;
      var shift := 0;
      ghost var under := reportedUnderflow;
      while true
        invariant reportedUnderflow == under
        invariant SlebFrom(rest, under, shift, ret) == GetSleb(old(rest), under)
        decreases |rest|
      {
        var p := rest;
        var ok := Advance(1);
        if !ok {
          return 0;
        }
        ret := AddBits(ret, p[0], shift);
        shift := shift + 7;
        if p[0] < 128 {
          return SignExtend(ret, p[0], shift);
        }
      }
    }
  }
}
