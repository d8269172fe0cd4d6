/** The zlib checksum: the deferred-modulo loop of the verifier against the per-byte definition
    of section 2.2 of RFC 1950.  The sums have type uint32, so that no step overflows is part
    of what is verified. */
module Adler32 {
  import opened BitStream

  newtype uint32 = x: int | 0 <= x < 0x1_0000_0000

  const BASE: int := 65521

  datatype Sums = Sums(s1: int, s2: int)

  /** Both sums over data, reduced after every byte. */
  ghost function Adler(data: seq<Byte>): (r: Sums)
    ensures 0 <= r.s1 < BASE && 0 <= r.s2 < BASE
  {
    if data == [] then Sums(1, 0)
    else
      var a := Adler(data[..|data| - 1]);
      var s1 := (a.s1 + data[|data| - 1] as int) % BASE;
      Sums(s1, (a.s2 + s1) % BASE)
  }

  /** The checksum as it is stored: s2 above s1. */
  ghost function Checksum(data: seq<Byte>): int
  {
    Adler(data).s2 * 65536 + Adler(data).s1
  }

  ghost function SumOf(data: seq<Byte>): nat
  {
    if data == [] then 0 else SumOf(data[..|data| - 1]) + data[|data| - 1] as int
  }

  /** Every byte counted once for each position up to the end. */
  ghost function WeightedSum(data: seq<Byte>): nat
  {
    if data == [] then 0 else WeightedSum(data[1..]) + |data| * data[0] as int
  }

  lemma {:induction false} WeightedSnoc(data: seq<Byte>, b: Byte)
    ensures WeightedSum(data + [b]) == WeightedSum(data) + SumOf(data) + b as int
  {
    if data == [] {
      assert data + [b] == [b] && [b][1..] == [];
      assert WeightedSum([b]) == WeightedSum([b][1..]) + 1 * b as int;
    } else {
      assert (data + [b])[1..] == data[1..] + [b];
      WeightedSnoc(data[1..], b);
      SumCons(data);
      assert (|data| + 1) * data[0] as int == |data| * data[0] as int + data[0] as int;
    }
  }

  lemma {:induction false} SumCons(data: seq<Byte>)
    requires data != []
    ensures SumOf(data) == data[0] as int + SumOf(data[1..])
  {
    var m := |data| - 1;
    if m > 0 {
      SumCons(data[..m]);
      assert data[..m][1..] == data[1..][..m - 1];
    } else {
      assert data[..m] == [] && data[1..] == [];
    }
  }

  /** The two sums without intermediate reductions: 1 plus all bytes, and the length plus every byte weighted
      by its distance from the end. */
  lemma {:induction false} AdlerIsSums(data: seq<Byte>)
    ensures Adler(data) == Sums((1 + SumOf(data)) % BASE, (|data| + WeightedSum(data)) % BASE)
  {
    if data != [] {
      var m := |data| - 1;
      AdlerIsSums(data[..m]);
      WeightedSnoc(data[..m], data[m]);
      assert data == data[..m] + [data[m]];
      ReducedSum(1 + SumOf(data[..m]), data[m] as int);
      ReducedBoth(m + WeightedSum(data[..m]), 1 + SumOf(data));
    }
  }

  lemma ReducedSum(x: nat, y: nat)
    ensures (x % BASE + y) % BASE == (x + y) % BASE
  {}

  lemma ReducedBoth(x: nat, y: nat)
    ensures (x % BASE + y % BASE) % BASE == (x + y) % BASE
  {
    ReducedSum(x, y % BASE);
    ReducedSum(y, x);
  }

  /** For the bytes 1 and 2 the sums are 4 and 6. */
  lemma ChecksumExample(data: seq<Byte>)
    requires data == [1, 2]
    ensures Checksum(data) == 0x0006_0004
  {
    AdlerIsSums(data);
    assert data[..1] == [1] && data[1..] == [2] && data[..1][..0] == [] && data[1..][1..] == [];
    assert SumOf(data[..1]) == 1 && WeightedSum(data[1..]) == 2;
  }

  /** Largest possible s2 after n bytes without a reduction. */
  ghost function Bound(n: nat): int
  {
    if n == 0 then BASE - 1 else Bound(n - 1) + (BASE - 1) + 255 * n
  }

  lemma {:induction false} BoundClosed(n: nat)
    ensures 2 * Bound(n) == 2 * (BASE - 1) * (n + 1) + 255 * (n * n + n)
  {
    if n > 0 {
      BoundClosed(n - 1);
      assert (n - 1) * (n - 1) == n * n - 2 * n + 1;
    }
  }

  lemma {:induction false} BoundMono(m: nat, n: nat)
    requires m <= n
    ensures Bound(m) <= Bound(n)
  {
    if m < n { BoundMono(m, n - 1); }
  }

  /** 5552 bytes is what fits in 32 bits. */
  lemma BoundFits(n: nat)
    requires n <= 5552
    ensures Bound(n) < 0x1_0000_0000
  {
    BoundMono(n, 5552);
    BoundClosed(5552);
  }

  /** Unreduced sums, n bytes after the last reduction, standing for the sums over data. */
  ghost predicate Deferred(data: seq<Byte>, n: nat, s1: int, s2: int)
  {
    && 0 <= s1 <= BASE - 1 + 255 * n && 0 <= s2 <= Bound(n)
    && s1 % BASE == Adler(data).s1 && s2 % BASE == Adler(data).s2
  }

  lemma ModSum(x: int, x': int, y: int)
    requires x % BASE == x'
    ensures (x + y) % BASE == (x' + y) % BASE
  {
  }

  lemma DeferredStep(data: seq<Byte>, i: nat, n: nat, s1: int, s2: int)
    requires i < |data| && n < 5552 && Deferred(data[..i], n, s1, s2)
    ensures s1 + data[i] as int < 0x1_0000_0000 && s2 + (s1 + data[i] as int) < 0x1_0000_0000
    ensures Deferred(data[..i + 1], n + 1, s1 + data[i] as int, s2 + (s1 + data[i] as int))
  {
    assert data[..i + 1][..i] == data[..i];
    var a, b := Adler(data[..i]), data[i] as int;
    BoundFits(n + 1);
    ModSum(s1, a.s1, b);
    ModSum(s2, a.s2, s1 + b);
    ModSum(s1 + b, (a.s1 + b) % BASE, a.s2);
  }

  lemma DeferredReduce(data: seq<Byte>, n: nat, s1: int, s2: int)
    requires Deferred(data, n, s1, s2)
    ensures Deferred(data, 0, s1 % BASE, s2 % BASE)
  {
  }

  /** Add `count` bytes to the sums without reducing them; the source unrolls this sixteenfold. */
  method AddBytes(data: seq<Byte>, p: nat, count: nat, s1: uint32, s2: uint32, ghost n: nat)
    returns (p': nat, s1': uint32, s2': uint32)
    requires p + count <= |data| && n + count <= 5552 && Deferred(data[..p], n, s1 as int, s2 as int)
    ensures p' == p + count && Deferred(data[..p'], n + count, s1' as int, s2' as int)
  {
    hide Deferred, Adler, Bound;
    p', s1', s2' := p, s1, s2;
    while p' < p + count
      invariant p <= p' <= p + count && Deferred(data[..p'], n + (p' - p), s1' as int, s2' as int)
    {
      DeferredStep(data, p', n + (p' - p), s1' as int, s2' as int);
      s1' := s1' + data[p'] as uint32;
      s2' := s2' + s1';
      p' := p' + 1;
    }
  }

  /** Verify a checksum: true exactly when the four bytes hold the Adler-32 value of data. */
  method VerifyChecksum(check: seq<Byte>, data: seq<Byte>) returns (ok: bool)
    requires |check| == 4
    ensures ok <==> Word(check[3], check[2], check[1], check[0]) == Checksum(data)
  {
    hide Deferred, Bound, Adler;
    var cksum: int := 0;
    var k := 0;
    while k < 4
      invariant 0 <= k <= 4
      invariant cksum == if k == 0 then 0 else if k == 1 then check[0] as int else if k == 2 then 256 * check[0] as int + check[1] as int
                         else if k == 3 then 65536 * check[0] as int + 256 * check[1] as int + check[2] as int
                         else Word(check[3], check[2], check[1], check[0])
    {
      cksum := cksum * 256 + check[k] as int;
      k := k + 1;
    }
    var s1: uint32, s2: uint32, p, hsz := 1, 0, 0, |data|;
    DeferredStart(data[..0]);
    while hsz >= 5552
      invariant hsz == |data| - p && p <= |data| && Deferred(data[..p], 0, s1 as int, s2 as int)
    {
      var i := 0;
      while i < 5552
        invariant 0 <= i <= 5552 && i % 16 == 0 && p == |data| - hsz + i && p <= |data|
        invariant Deferred(data[..p], i, s1 as int, s2 as int)
        decreases 5552 - i
      {
        p, s1, s2 := AddBytes(data, p, 16, s1, s2, i);
        i := i + 16;
      }
      hsz := hsz - 5552;
      DeferredReduce(data[..p], 5552, s1 as int, s2 as int);
      s1, s2 := s1 % 65521, s2 % 65521;
    }
    ghost var n := 0;
    while hsz >= 16
      invariant 0 <= hsz == |data| - p && n + hsz < 5552 && Deferred(data[..p], n, s1 as int, s2 as int)
    {
      p, s1, s2 := AddBytes(data, p, 16, s1, s2, n);
      n, hsz := n + 16, hsz - 16;
    }
    p, s1, s2 := AddBytes(data, p, hsz, s1, s2, n);
    assert data[..p] == data;
    Reduced(data, n + hsz, s1 as int, s2 as int);
    s1, s2 := s1 % 65521, s2 % 65521;
    ok := s2 as int * 65536 + s1 as int == cksum;
  }

  lemma DeferredStart(empty: seq<Byte>)
    requires empty == []
    ensures Deferred(empty, 0, 1, 0)
  {
  }

  lemma Reduced(data: seq<Byte>, n: nat, s1: int, s2: int)
    requires Deferred(data, n, s1, s2)
    ensures s1 % BASE == Adler(data).s1 && s2 % BASE == Adler(data).s2
  {
  }
}
