/** Shifts, masks and bit reversal on natural numbers.  They are defined one bit at a
    time, so every fact about them follows by induction with linear arithmetic only:
    Shl(x, n) is x << n, Shr(x, n) is x >> n and Low(x, n) is x & ((1 << n) - 1). */
module Bits {

  function Shl(x: int, n: nat): int
  {
    if n == 0 then x else 2 * Shl(x, n - 1)
  }

  function Shr(x: nat, n: nat): nat
  {
    if n == 0 then x else Shr(x / 2, n - 1)
  }

  function Low(x: nat, n: nat): (r: nat)
    ensures r <= x
  {
    if n == 0 then 0 else x % 2 + 2 * Low(x / 2, n - 1)
  }

  function Pow2(n: nat): (r: nat)
    ensures r > 0
  {
    if n == 0 then 1 else 2 * Pow2(n - 1)
  }

  lemma Pow2Values()
    ensures Pow2(0) == 1 && Pow2(1) == 2 && Pow2(2) == 4 && Pow2(3) == 8
    ensures Pow2(4) == 16 && Pow2(5) == 32 && Pow2(6) == 64 && Pow2(7) == 128
    ensures Pow2(8) == 256 && Pow2(15) == 32768
  {
    assert Pow2(3) == 8;
    assert Pow2(6) == 64;
    assert Pow2(9) == 512;
    assert Pow2(12) == 4096;
  }

  lemma {:induction false} Pow2Mono(a: nat, b: nat)
    requires a <= b
    ensures Pow2(a) <= Pow2(b)
  {
    if a < b { Pow2Mono(a, b - 1); }
  }

  lemma {:induction false} ShlPow2(a: nat, n: nat)
    ensures Shl(Pow2(a), n) == Pow2(a + n)
  {
    if n > 0 { ShlPow2(a, n - 1); }
  }

  lemma {:induction false} ShlAdd(x: int, y: int, n: nat)
    ensures Shl(x + y, n) == Shl(x, n) + Shl(y, n)
  {
    if n > 0 { ShlAdd(x, y, n - 1); }
  }

  lemma {:induction false} ShlMono(x: int, y: int, n: nat)
    ensures x <= y <==> Shl(x, n) <= Shl(y, n)
  {
    if n > 0 { ShlMono(x, y, n - 1); }
  }

  lemma {:induction false} ShlShl(x: int, a: nat, b: nat)
    ensures Shl(Shl(x, a), b) == Shl(x, a + b)
  {
    if b > 0 { ShlShl(x, a, b - 1); }
  }

  /** Shl doubles at the other end, too. */
  lemma ShlDouble(x: int, n: nat)
    ensures Shl(2 * x, n) == Shl(x, n + 1)
  {
    ShlShl(x, 1, n);
    assert Shl(x, 1) == 2 * Shl(x, 0);
  }

  lemma {:induction false} ShlZero(n: nat)
    ensures Shl(0, n) == 0
  {
    if n > 0 { ShlZero(n - 1); }
  }

  lemma {:induction false} LowBound(x: nat, n: nat)
    ensures Low(x, n) < Pow2(n)
  {
    if n > 0 { LowBound(x / 2, n - 1); }
  }

  /** High and low part make up the number ... */
  lemma {:induction false} Parts(x: nat, n: nat)
    ensures x == Shl(Shr(x, n), n) + Low(x, n)
  {
    if n > 0 { Parts(x / 2, n - 1); }
  }

  /** ... and nothing else does. */
  lemma {:induction false} PartsUnique(q: nat, r: nat, n: nat)
    requires r < Pow2(n)
    ensures Shl(q, n) + r >= 0
    ensures Shr(Shl(q, n) + r, n) == q && Low(Shl(q, n) + r, n) == r
  {
    if n > 0 {
      PartsUnique(q, r / 2, n - 1);
      assert (Shl(q, n) + r) / 2 == Shl(q, n - 1) + r / 2;
    }
  }

  lemma SmallParts(x: nat, n: nat)
    requires x < Pow2(n)
    ensures Shr(x, n) == 0 && Low(x, n) == x
  {
    ShlZero(n);
    PartsUnique(0, x, n);
  }

  lemma {:induction false} LowLow(x: nat, j: nat, k: nat)
    requires j <= k
    ensures Low(Low(x, k), j) == Low(x, j)
  {
    if j > 0 { LowLow(x / 2, j - 1, k - 1); }
  }

  lemma {:induction false} ShrShr(x: nat, j: nat, k: nat)
    ensures Shr(Shr(x, j), k) == Shr(x, j + k)
  {
    if j > 0 { ShrShr(x / 2, j - 1, k); }
  }

  lemma {:induction false} LowShr(x: nat, j: nat, k: nat)
    ensures Low(Shr(x, j), k) == Shr(Low(x, j + k), j)
  {
    if j > 0 { LowShr(x / 2, j - 1, k); }
  }

  /** The low k bits of x: its low j bits below the next k - j. */
  lemma LowSplit(x: nat, j: nat, k: nat)
    requires j <= k
    ensures Low(x, k) == Shl(Low(Shr(x, j), k - j), j) + Low(x, j)
  {
    Parts(Low(x, k), j);
    LowShr(x, j, k - j);
    LowLow(x, j, k);
  }

  lemma Low8(x: nat)
    ensures Low(x, 8) == x % 256 && Shr(x, 8) == x / 256
  {
    assert Pow2(8) == 256 by { Pow2Values(); }
    Shl8(x / 256);
    PartsUnique(x / 256, x % 256, 8);
  }

  lemma Shl8(x: int)
    ensures Shl(x, 8) == 256 * x
  {
    assert Shl(x, 1) == 2 * x;
    assert Shl(x, 2) == 4 * x;
    assert Shl(x, 4) == 16 * x;
    assert Shl(x, 6) == 64 * x;
  }

  /** The low n bits of x in the opposite order. */
  function Rev(n: nat, x: nat): (r: nat)
    ensures r < Pow2(n)
  {
    if n == 0 then 0 else (if x % 2 == 1 then Pow2(n - 1) else 0) + Rev(n - 1, x / 2)
  }

  /** The reversal of n bits is the reversal of the low j above the reversal of the rest. */
  lemma {:induction false} RevSplit(n: nat, j: nat, x: nat)
    requires j <= n
    ensures Rev(n, x) == Shl(Rev(j, Low(x, j)), n - j) + Rev(n - j, Shr(x, j))
  {
    if j == 0 {
      ShlZero(n);
    } else {
      var y, r, low := Low(x / 2, j - 1), Rev(j - 1, Low(x / 2, j - 1)), Rev(n - j, Shr(x, j));
      var b := if x % 2 == 1 then Pow2(j - 1) else 0;
      assert Rev(n - 1, x / 2) == Shl(r, n - j) + low by { RevSplit(n - 1, j - 1, x / 2); }
      assert Rev(j, Low(x, j)) == b + r by { assert Low(x, j) == x % 2 + 2 * y; }
      assert Shl(b, n - j) == if x % 2 == 1 then Pow2(n - 1) else 0 by {
        ShlPow2(j - 1, n - j);
        ShlZero(n - j);
      }
      ShlAdd(b, r, n - j);
    }
  }

  lemma {:induction false} RevZero(n: nat)
    ensures Rev(n, 0) == 0
  {
    if n > 0 { RevZero(n - 1); }
  }

  lemma ShlBit(b: nat, n: nat)
    requires b < 2
    ensures Shl(b, n) == if b == 1 then Pow2(n) else 0
  {
    if b == 1 { ShlPow2(0, n); } else { ShlZero(n); }
  }

  /** Reversal is its own inverse. */
  lemma {:induction false} RevRev(n: nat, x: nat)
    requires x < Pow2(n)
    ensures Rev(n, Rev(n, x)) == x
  {
    if n > 0 {
      var r, y := Rev(n - 1, x / 2), Rev(n, x);
      assert Shr(y, n - 1) == x % 2 && Low(y, n - 1) == r by {
        ShlBit(x % 2, n - 1);
        PartsUnique(x % 2, r, n - 1);
      }
      assert Rev(n - 1, r) == x / 2 by { RevRev(n - 1, x / 2); }
      assert Shl(x / 2, 1) == 2 * Shl(x / 2, 0);
      assert Rev(1, x % 2) == x % 2 by { assert Rev(0, x % 2 / 2) == 0; }
      RevSplit(n, n - 1, y);
    }
  }

  lemma RevInverse(n: nat, x: nat, y: nat)
    requires x < Pow2(n) && y < Pow2(n)
    ensures x == Rev(n, y) <==> Rev(n, x) == y
  {
    RevRev(n, x);
    RevRev(n, y);
  }

  /** Appending n - j zero bits below c leaves the reversed code where it is. */
  lemma RevShift(n: nat, j: nat, c: nat)
    requires j <= n && c < Pow2(j)
    ensures 0 <= Shl(c, n - j) < Pow2(n)
    ensures Rev(n, Shl(c, n - j)) == Rev(j, c)
  {
    PartsUnique(c, 0, n - j);
    ShlMono(c + 1, Pow2(j), n - j);
    ShlPow2(j, n - j);
    ShlAdd(c, 1, n - j);
    ShlPow2(0, n - j);
    RevSplit(n, n - j, Shl(c, n - j));
    RevZero(n - j);
    ShlZero(j);
  }

  lemma ShlInterval(top: int, low: nat, c: int, n: nat)
    requires low < Pow2(n)
    ensures top == c <==> Shl(c, n) <= Shl(top, n) + low < Shl(c + 1, n)
  {
    ShlMono(top + 1, c, n);
    ShlMono(c + 1, top, n);
    ShlAdd(top, 1, n);
    ShlPow2(0, n);
  }

  /** A bit string x (low bit first) starts with the j-bit codeword c exactly when
      its reversal falls in the interval of n-bit values that start with c. */
  lemma Coverage(n: nat, j: nat, x: nat, c: nat)
    requires j <= n && c < Pow2(j)
    ensures Low(x, j) == Rev(j, c) <==> Shl(c, n - j) <= Rev(n, x) < Shl(c + 1, n - j)
  {
    RevSplit(n, j, x);
    LowBound(x, j);
    RevInverse(j, Low(x, j), c);
    ShlInterval(Rev(j, Low(x, j)), Rev(n - j, Shr(x, j)), c, n - j);
  }
}
