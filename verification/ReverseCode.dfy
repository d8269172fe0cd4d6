/** Counting in bit-reversed order: the reverse increment and the reverse add of the
    Huffman table builder, proved to be ordinary modular addition seen through Rev. */
module ReverseCode {
  import opened Bits

  /** What the increment computes on the low k bits: set the highest clear bit, clear
      everything above it; 0 when all k bits are set. */
  ghost function Ripple(code: nat, k: nat): (r: nat)
    ensures r < Pow2(k)
  {
    if k == 0 then 0
    else if Shr(code, k - 1) % 2 == 0 then LowBound(code, k - 1); Low(code, k - 1) + Pow2(k - 1)
    else Ripple(code, k - 1)
  }

  /** The top one of the low k bits, and what is below it. */
  lemma TopBit(x: nat, k: nat)
    requires k > 0
    ensures Low(x, k) == Low(x, k - 1) + if Shr(x, k - 1) % 2 == 1 then Pow2(k - 1) else 0
    ensures Shr(Low(x, k), k - 1) % 2 == Shr(x, k - 1) % 2
  {
    LowSplit(x, k - 1, k);
    var b := Shr(x, k - 1) % 2;
    assert Low(Shr(x, k - 1), 1) == b by { assert Low(Shr(x, k - 1) / 2, 0) == 0; }
    ShlBit(b, k - 1);
    LowShr(x, k - 1, 1);
  }

  lemma {:induction false} RippleLow(code: nat, m: nat, k: nat)
    requires k <= m
    ensures Ripple(Low(code, m), k) == Ripple(code, k)
  {
    if k > 0 {
      TopBit(code, k);
      TopBit(Low(code, m), k);
      LowLow(code, k, m);
      LowLow(code, k - 1, m);
      RippleLow(code, m, k - 1);
    }
  }

  lemma Successor(c: nat, n: nat)
    requires c < Pow2(n)
    ensures Low(c + 1, n) == if c + 1 == Pow2(n) then 0 else c + 1
  {
    if c + 1 == Pow2(n) {
      ShlBit(1, n);
      PartsUnique(1, 0, n);
    } else {
      SmallParts(c + 1, n);
    }
  }

  /** The top bit of a reversal is the low bit of the number, the rest reverses its half. */
  lemma RevParts(k: nat, c: nat)
    requires k > 0
    ensures Shr(Rev(k, c), k - 1) == c % 2 && Low(Rev(k, c), k - 1) == Rev(k - 1, c / 2)
  {
    hide Shr, Low;
    ShlBit(c % 2, k - 1);
    PartsUnique(c % 2, Rev(k - 1, c / 2), k - 1);
  }

  lemma RevSuccessor(k: nat, c: nat)
    requires k > 0 && c < Pow2(k)
    ensures Rev(k, Low(c + 1, k)) == if c % 2 == 0 then Pow2(k - 1) + Rev(k - 1, c / 2)
                                     else Rev(k - 1, Low(c / 2 + 1, k - 1))
  {
    hide Low;
    Successor(c, k);
    Successor(c / 2, k - 1);
    if c + 1 == Pow2(k) {
      RevZero(k);
      RevZero(k - 1);
    }
  }

  /** Rippling the reversal of c gives the reversal of c + 1, modulo 2^k. */
  lemma {:induction false} RippleIsSuccessor(k: nat, c: nat)
    requires c < Pow2(k)
    ensures Ripple(Rev(k, c), k) == Rev(k, Low(c + 1, k))
  {
    if k > 0 {
      hide Low, Shr, Rev;
      RevParts(k, c);
      RevSuccessor(k, c);
      if c % 2 == 1 {
        RippleIsSuccessor(k - 1, c / 2);
        RippleLow(Rev(k, c), k - 1, k - 1);
      }
    }
  }

  /** Add one to a j-bit code held in reversed order. */
  method ReverseIncrement(code: nat, j: nat) returns (r: nat)
    requires j >= 1 && code < Pow2(j)
    ensures r == Rev(j, Low(Rev(j, code) + 1, j))
  {
    RevRev(j, code);
    RippleIsSuccessor(j, Rev(j, code));
    var k := j;
    while k > 0 && Shr(code, k - 1) % 2 != 0
      invariant 0 <= k <= j
      invariant Ripple(code, k) == Ripple(code, j)
    {
      k := k - 1;
    }
    if k == 0 {
      r := 0;
    } else {
      r := Low(code, k - 1) + Pow2(k - 1);
    }
  }

  /** Reduction modulo 2^n before adding does not change the sum modulo 2^n. */
  lemma LowAdd(x: nat, y: nat, n: nat)
    ensures Low(Low(x, n) + y, n) == Low(x + y, n)
  {
    var a, b := Shr(x, n), Shr(Low(x, n) + y, n);
    Parts(x, n);
    Parts(Low(x, n) + y, n);
    ShlAdd(a, b, n);
    LowBound(Low(x, n) + y, n);
    PartsUnique(a + b, Low(Low(x, n) + y, n), n);
  }

  /** Adding 2^k leaves the k bits below alone and increments the rest, modulo 2^j. */
  lemma AddBitParts(j: nat, k: nat, c: nat)
    requires k < j && c < Pow2(j)
    ensures Low(Low(c + Pow2(k), j), k) == Low(c, k)
    ensures Shr(Low(c + Pow2(k), j), k) == Low(Shr(c, k) + 1, j - k)
    ensures Shr(c, k) < Pow2(j - k)
  {
    hide *;
    Parts(c, k);
    LowBound(c, k);
    ShlAdd(Shr(c, k), 1, k);
    ShlBit(1, k);
    PartsUnique(Shr(c, k) + 1, Low(c, k), k);
    LowShr(c + Pow2(k), k, j - k);
    LowLow(c + Pow2(k), k, j);
    LowShr(c, k, j - k);
    SmallParts(c, j);
    LowBound(Shr(c, k), j - k);
  }

  /** Adding 2^k to c ripples through the low j - k bits of the reversal and leaves the k above. */
  lemma RippleAddsBit(j: nat, k: nat, c: nat)
    requires k < j && c < Pow2(j)
    ensures Shl(Shr(Rev(j, c), j - k), j - k) + Ripple(Rev(j, c), j - k) == Rev(j, Low(c + Pow2(k), j))
  {
    hide *;
    var low, top, c' := Low(c, k), Shr(c, k), Low(c + Pow2(k), j);
    AddBitParts(j, k, c);
    assert Rev(j, c') == Shl(Rev(k, low), j - k) + Rev(j - k, Low(top + 1, j - k)) by {
      RevSplit(j, k, c');
    }
    assert Shr(Rev(j, c), j - k) == Rev(k, low) && Low(Rev(j, c), j - k) == Rev(j - k, top) by {
      RevSplit(j, k, c);
      PartsUnique(Rev(k, low), Rev(j - k, top), j - k);
    }
    RippleLow(Rev(j, c), j - k, j - k);
    RippleIsSuccessor(j - k, top);
  }

  /** Progress of one carry chain over the low n bits: m of them have been cleared from the top. */
  ghost predicate CarryState(code: nat, n: nat, m: nat, r: int)
  {
    && m <= n
    && r == Shl(Shr(code, n), n) + Low(code, n - m)
    && Ripple(code, n - m) == Ripple(code, n)
  }

  lemma CarryStep(code: nat, n: nat, m: nat, r: int)
    requires m < n && CarryState(code, n, m, r)
    ensures r >= 0
    ensures var bit := Pow2(n - m - 1);
            if Shr(r, n - m - 1) % 2 == 0 then r + bit == Shl(Shr(code, n), n) + Ripple(code, n)
            else r >= bit && CarryState(code, n, m + 1, r - bit)
  {
    var q := n - m;
    ShlShl(Shr(code, n), m, q);
    PartsUnique(Shr(code, n), 0, m);
    LowBound(code, q);
    PartsUnique(Shl(Shr(code, n), m), Low(code, q), q);
    TopBit(r, q);
    TopBit(code, q);
  }

  /** One carry chain of the reverse add: add 2^k to a j-bit code held in reversed order. */
  method ReverseAddBit(code: nat, j: nat, k: nat) returns (r: nat)
    requires k < j && code < Pow2(j)
    ensures r == Rev(j, Low(Rev(j, code) + Pow2(k), j))
  {
    hide Rev, Shl, Shr, Pow2;
    var n := j - k;
    RevRev(j, code);
    RippleAddsBit(j, k, Rev(j, code));
    r := code;
    assert CarryState(code, n, 0, r) by { Parts(code, n); }
    var m := 0;
    while m < n
      invariant CarryState(code, n, m, r)
    {
      CarryStep(code, n, m, r);
      var bit := Pow2(n - m - 1);
      if Shr(r, n - m - 1) % 2 == 0 {
        r := r + bit;
        return;
      }
      r := r - bit;
      m := m + 1;
    }
  }

  /** Progress of the reverse add after bit k: `left` has only bits from k up, the rest is added. */
  ghost predicate AddState(j: nat, c: nat, cnt: nat, k: nat, left: nat, r: nat)
  {
    && left <= cnt && Low(left, k) == 0 && cnt - left < Pow2(k)
    && r == Rev(j, Low(c + (cnt - left), j))
  }

  lemma AddStateSkip(j: nat, c: nat, cnt: nat, k: nat, left: nat, r: nat)
    requires AddState(j, c, cnt, k, left, r) && Shr(left, k) % 2 == 0
    ensures AddState(j, c, cnt, k + 1, left, r)
  {
    TopBit(left, k + 1);
  }

  lemma AddStateBit(j: nat, c: nat, cnt: nat, k: nat, left: nat, r: nat, r': nat)
    requires AddState(j, c, cnt, k, left, r) && Shr(left, k) % 2 != 0 && k < j
    requires r' == Rev(j, Low(Rev(j, r) + Pow2(k), j))
    ensures left >= Pow2(k) && AddState(j, c, cnt, k + 1, left - Pow2(k), r')
  {
    hide Low, Shr, Shl, Rev;
    TopBit(left, k + 1);
    Parts(left, k + 1);
    PartsUnique(Shr(left, k + 1), 0, k + 1);
    var sum := c + (cnt - left);
    LowBound(sum, j);
    RevRev(j, Low(sum, j));
    LowAdd(sum, Pow2(k), j);
  }

  /** Add cnt to a j-bit code held in reversed order; not ok when cnt needs more than j bits. */
  method ReverseAdd(code: nat, j: nat, cnt: nat) returns (ok: bool, r: nat)
    requires code < Pow2(j)
    ensures ok <==> cnt < Pow2(j)
    ensures ok ==> r == Rev(j, Low(Rev(j, code) + cnt, j))
  {
    ghost var c := Rev(j, code);
    r := code;
    assert AddState(j, c, cnt, 0, cnt, r) by {
      RevRev(j, code);
      SmallParts(c, j);
    }
    var left: nat, k := cnt, 0;
    while k < j
      invariant 0 <= k <= j && AddState(j, c, cnt, k, left, r)
    {
      if Shr(left, k) % 2 != 0 {
        ghost var r0 := r;
        r := ReverseAddBit(r, j, k);
        AddStateBit(j, c, cnt, k, left, r0, r);
        left := left - Pow2(k);
      } else {
        AddStateSkip(j, c, cnt, k, left, r);
      }
      k := k + 1;
    }
    ok := left == 0;
    if left < Pow2(j) { SmallParts(left, j); }
  }

  /** n reverse increments one after the other. */
  ghost function Increments(j: nat, code: nat, n: nat): nat
  {
    if n == 0 then code else Rev(j, Low(Rev(j, Increments(j, code, n - 1)) + 1, j))
  }

  /** Adding n in one go is incrementing n times. */
  lemma {:induction false} IncrementsAddUp(j: nat, code: nat, n: nat)
    requires code < Pow2(j)
    ensures Increments(j, code, n) == Rev(j, Low(Rev(j, code) + n, j))
  {
    hide Low, Rev, Pow2;
    var c := Rev(j, code);
    if n == 0 {
      SmallParts(c, j);
      RevRev(j, code);
    } else {
      IncrementsAddUp(j, code, n - 1);
      LowBound(c + (n - 1), j);
      RevRev(j, Low(c + (n - 1), j));
      LowAdd(c + (n - 1), 1, j);
    }
  }
}
