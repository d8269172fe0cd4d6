/** Placing secrets so that no requested byte lies at position 0 or 4..7 of a cache line: the
    rotate-and-mask search for the offset, the choice of alignment, and the final pointer. */
module AlignAlloc {

  // ----- 64-bit words as their bits, bit 0 first -----

  type Word = w: seq<bool> | |w| == 64 witness seq(64, _ => false)

  function Zeros(): Word { seq(64, _ => false) }
  function AllOnes(): Word { seq(64, _ => true) }
  function Ones(n: nat): Word { seq(64, i => i < n) }
  function Not(a: Word): Word { seq(64, i requires 0 <= i < 64 => !a[i]) }
  function Or(a: Word, b: Word): Word { seq(64, i requires 0 <= i < 64 => a[i] || b[i]) }
  function And(a: Word, b: Word): Word { seq(64, i requires 0 <= i < 64 => a[i] && b[i]) }
  function ShiftLeft(a: Word, k: nat): Word { seq(64, i requires 0 <= i < 64 => i >= k && a[i - k]) }
  function ShiftRight(a: Word, k: nat): Word { seq(64, i requires 0 <= i < 64 => i + k < 64 && a[i + k]) }

  function Rol(v: Word, c: int): Word
  {
    Or(ShiftLeft(v, c % 64), ShiftRight(v, -c % 64))
  }

  function Ror(v: Word, c: int): Word
  {
    Rol(v, -c)
  }

  lemma RolBit(v: Word, c: int, i: nat)
    requires i < 64
    ensures Rol(v, c)[i] == v[(i - c) % 64]
  {
    hide Or, ShiftLeft, ShiftRight;
    NegMod(c);
    DiffMod(c, i);
    OrBit(ShiftLeft(v, c % 64), ShiftRight(v, -c % 64), i);
    ShiftBits(v, c % 64, i);
    ShiftBits(v, -c % 64, i);
  }

  lemma NegMod(c: int)
    ensures -c % 64 == if c % 64 == 0 then 0 else 64 - c % 64
  {}

  lemma DiffMod(c: int, i: nat)
    requires i < 64
    ensures (i - c) % 64 == if i >= c % 64 then i - c % 64 else i + 64 - c % 64
  {}

  lemma OrBit(a: Word, b: Word, i: nat)
    requires i < 64
    ensures Or(a, b)[i] == (a[i] || b[i])
  {}

  lemma ShiftBits(a: Word, k: nat, i: nat)
    requires i < 64
    ensures ShiftLeft(a, k)[i] == (i >= k && a[i - k])
    ensures ShiftRight(a, k)[i] == (i + k < 64 && a[i + k])
  {}

  lemma RorBit(v: Word, c: int, i: nat)
    requires i < 64
    ensures Ror(v, c)[i] == v[(i + c) % 64]
  {
    RolBit(v, -c, i);
  }

  // ----- the search -----

  predicate PowerOfTwo(n: nat)
  {
    n == 1 || (n > 1 && n % 2 == 0 && PowerOfTwo(n / 2))
  }

  /** Line positions that must not hold a requested byte. */
  predicate Bad(x: int)
  {
    x % 64 == 0 || 4 <= x % 64 <= 7
  }

  /** Moving everything by o puts no requested position on a bad one. */
  ghost predicate Safe(bmp: Word, o: int)
  {
    forall i :: 0 <= i < 64 && bmp[i] ==> !Bad(i + o)
  }

  function GenMask(al: nat, a: nat, m: Word): Word
    decreases a
  {
    if a > al then GenMask(al, a / 2, Or(m, ShiftRight(m, a / 2))) else m
  }

  /** Bit 63 - o is set exactly for the multiples o of a. */
  ghost predicate IsMask(m: Word, a: nat)
    requires a > 0
  {
    forall i :: 0 <= i < 64 ==> (m[i] <==> (63 - i) % a == 0)
  }

  lemma Half1(x: nat)
    requires x < 64
    ensures x % 1 == 0 <==> x % 2 == 0 || (x >= 1 && (x - 1) % 2 == 0)
  {}

  lemma Half2(x: nat)
    requires x < 64
    ensures x % 2 == 0 <==> x % 4 == 0 || (x >= 2 && (x - 2) % 4 == 0)
  {}

  lemma Half4(x: nat)
    requires x < 64
    ensures x % 4 == 0 <==> x % 8 == 0 || (x >= 4 && (x - 4) % 8 == 0)
  {}

  lemma Half8(x: nat)
    requires x < 64
    ensures x % 8 == 0 <==> x % 16 == 0 || (x >= 8 && (x - 8) % 16 == 0)
  {}

  lemma Half16(x: nat)
    requires x < 64
    ensures x % 16 == 0 <==> x % 32 == 0 || (x >= 16 && (x - 16) % 32 == 0)
  {}

  lemma Half32(x: nat)
    requires x < 64
    ensures x % 32 == 0 <==> x % 64 == 0 || (x >= 32 && (x - 32) % 64 == 0)
  {}

  lemma HalfMod(x: nat, h: nat)
    requires h in {1, 2, 4, 8, 16, 32} && x < 64
    ensures x % h == 0 <==> x % (2 * h) == 0 || (x >= h && (x - h) % (2 * h) == 0)
  {
    if h == 1 { Half1(x); } else if h == 2 { Half2(x); } else if h == 4 { Half4(x); }
    else if h == 8 { Half8(x); } else if h == 16 { Half16(x); } else { Half32(x); }
  }

  lemma HalveMask(m: Word, h: nat)
    requires h in {1, 2, 4, 8, 16, 32} && IsMask(m, 2 * h)
    ensures IsMask(Or(m, ShiftRight(m, h)), h)
  {
    forall i | 0 <= i < 64
      ensures Or(m, ShiftRight(m, h))[i] <==> (63 - i) % h == 0
    {
      HalfMod(63 - i, h);
    }
  }

  lemma {:induction false} GenMaskIs(al: nat, a: nat, m: Word)
    requires PowerOfTwo(al) && a in {1, 2, 4, 8, 16, 32, 64} && IsMask(m, a) && (al >= 64 ==> a == 64) && (al < 64 ==> al <= a)
    ensures IsMask(GenMask(al, a, m), if al < 64 then al else 64)
    decreases a
  {
    if a > al {
      SmallPowers(al);
      HalveMask(m, a / 2);
      GenMaskIs(al, a / 2, Or(m, ShiftRight(m, a / 2)));
    }
  }

  lemma SmallPowers(n: nat)
    requires PowerOfTwo(n) && n <= 64
    ensures n in {1, 2, 4, 8, 16, 32, 64}
  {
    assert n > 1 ==> PowerOfTwo(n / 2);
    assert n > 3 ==> PowerOfTwo(n / 4);
    assert n > 7 ==> PowerOfTwo(n / 8);
    assert n > 15 ==> PowerOfTwo(n / 16);
    assert n > 31 ==> PowerOfTwo(n / 32);
  }

  /** Position of the lowest set bit from i on, 64 if there is none. */
  ghost function Lowest(w: Word, i: nat): nat
    requires i <= 64
    decreases 64 - i
  {
    if i == 64 || w[i] then i else Lowest(w, i + 1)
  }

  lemma {:induction false} LowestShift(w: Word, i: nat)
    requires i < 64 && !w[63] && exists j :: i <= j < 64 && w[j]
    ensures Lowest(ShiftLeft(w, 1), i + 1) == Lowest(w, i) + 1 <= 64
    decreases 64 - i
  {
    if !w[i] { LowestShift(w, i + 1); }
  }

  /** Leading zero bits of a word, shifting it left until its top bit is set; -1 for zero. */
  function CountLzb(w: Word): int
    decreases 64 - Lowest(w, 0)
  {
    if w == Zeros() then -1
    else if w[63] then 0
    else
      ShiftProgress(w);
      CountLzb(ShiftLeft(w, 1)) + 1
  }

  lemma ShiftProgress(w: Word)
    requires w != Zeros() && !w[63]
    ensures ShiftLeft(w, 1) != Zeros()
    ensures Lowest(w, 0) < Lowest(ShiftLeft(w, 1), 0) <= 64
  {
    var j :| 0 <= j < 64 && w[j];
    assert ShiftLeft(w, 1)[j + 1];
    assert !ShiftLeft(w, 1)[0];
    LowestShift(w, 0);
  }

  /** The bit at distance o from the top. */
  predicate Top(w: Word, o: int)
    requires 0 <= o < 64
  {
    w[63 - o]
  }

  /** The number of leading zeros is the least distance of a set bit from the top. */
  ghost predicate IsLeading(w: Word, c: int)
  {
    && (c == -1 ==> forall o :: 0 <= o < 64 ==> !Top(w, o))
    && (c != -1 ==> 0 <= c < 64 && Top(w, c) && forall o :: 0 <= o < c ==> !Top(w, o))
  }

  lemma TopShift(w: Word, o: int)
    requires 0 < o < 64
    ensures Top(w, o) == Top(ShiftLeft(w, 1), o - 1)
  {}

  lemma LeadingShift(w: Word, c: int)
    requires !w[63] && c >= 0 && IsLeading(ShiftLeft(w, 1), c) && c < 63
    ensures IsLeading(w, c + 1)
  {
    TopShift(w, c + 1);
    forall o | 0 <= o < c + 1
      ensures !Top(w, o)
    {
      if o > 0 { TopShift(w, o); }
    }
  }

  lemma SomeTop(s: Word, c: int)
    requires s != Zeros() && IsLeading(s, c)
    ensures 0 <= c < 64
  {
    var j :| 0 <= j < 64 && s[j];
    assert Top(s, 63 - j);
  }

  lemma LeadingShort(s: Word, c: int)
    requires !s[0] && c >= 0 && IsLeading(s, c)
    ensures c < 63
  {}

  lemma {:induction false} CountLzbIs(w: Word)
    ensures IsLeading(w, CountLzb(w))
    decreases 64 - Lowest(w, 0)
  {
    hide IsLeading, Top;
    if w == Zeros() {
      ZerosLead(w);
    } else if w[63] {
      TopLeads(w);
    } else {
      ShiftProgress(w);
      var s := ShiftLeft(w, 1);
      CountLzbIs(s);
      SomeTop(s, CountLzb(s));
      LeadingShort(s, CountLzb(s));
      LeadingShift(w, CountLzb(s));
    }
  }

  lemma ZerosLead(w: Word)
    requires w == Zeros()
    ensures IsLeading(w, -1)
  {}

  lemma TopLeads(w: Word)
    requires w[63]
    ensures IsLeading(w, 0)
  {}

  /** Offset to put in front of the data: the rotations collect, for every offset at once, the
      positions that would be bad. */
  function CalcLspc(al: nat, bmp: Word): int
  {
    if !PowerOfTwo(al) then -2
    else CountLzb(And(Not(Clash(bmp)), GenMask(al, 64, ShiftLeft(Ones(1), 63))))
  }

  /** Four neighbouring bits collected into one. */
  function Four(bmp: Word): Word
  {
    Or(Or(bmp, Ror(bmp, 1)), Or(Ror(bmp, 2), Ror(bmp, 3)))
  }

  function Clash(bmp: Word): Word
  {
    Or(Ror(Four(bmp), 5), Ror(bmp, 1))
  }

  lemma FourBit(bmp: Word, k: nat)
    requires k < 64
    ensures Four(bmp)[k] <==> bmp[k] || bmp[(k + 1) % 64] || bmp[(k + 2) % 64] || bmp[(k + 3) % 64]
  {
    hide Ror;
    RorBit(bmp, 1, k);
    RorBit(bmp, 2, k);
    RorBit(bmp, 3, k);
  }

  /** Some requested position lands on a bad one under offset o. */
  lemma ClashBit(bmp: Word, i: nat)
    requires i < 64
    ensures Clash(bmp)[i] <==> bmp[(i + 1) % 64] || bmp[(i + 5) % 64] || bmp[(i + 6) % 64]
                               || bmp[(i + 7) % 64] || bmp[(i + 8) % 64]
  {
    hide Ror, Four;
    RorBit(bmp, 1, i);
    RorBit(Four(bmp), 5, i);
    var k := (i + 5) % 64;
    FourBit(bmp, k);
    Wrap(i, 1);
    Wrap(i, 2);
    Wrap(i, 3);
  }

  lemma Wrap(i: nat, d: nat)
    requires i < 64 && d < 4
    ensures ((i + 5) % 64 + d) % 64 == (i + 5 + d) % 64
  {}

  lemma BadAt(o: nat, c: nat)
    requires o < 64 && (c == 0 || 4 <= c <= 7)
    ensures 0 <= (64 - o + c) % 64 < 64 && Bad((64 - o + c) % 64 + o)
  {
    assert ((64 - o + c) % 64 + o) % 64 == c;
  }

  lemma BadFrom(o: nat, i: nat)
    requires o < 64 && i < 64 && Bad(i + o)
    ensures i in {(64 - o) % 64, (68 - o) % 64, (69 - o) % 64, (70 - o) % 64, (71 - o) % 64}
  {
    var c := (i + o) % 64;
    assert (64 - o + c) % 64 == i;
  }

  /** A safe offset leaves five positions free of requests. */
  lemma SafePositions(bmp: Word, o: nat)
    requires o < 64
    ensures Safe(bmp, o) <==> !bmp[(64 - o) % 64] && !bmp[(68 - o) % 64] && !bmp[(69 - o) % 64]
                              && !bmp[(70 - o) % 64] && !bmp[(71 - o) % 64]
  {
    hide Bad;
    if Safe(bmp, o) {
      BadAt(o, 0);
      BadAt(o, 4);
      BadAt(o, 5);
      BadAt(o, 6);
      BadAt(o, 7);
    } else {
      var i: nat :| i < 64 && bmp[i] && Bad(i + o);
      BadFrom(o, i);
    }
  }

  /** The free bits: bit 63 - o is clear of clashes exactly when offset o is safe. */
  lemma FreeBit(bmp: Word, o: nat)
    requires o < 64
    ensures !Clash(bmp)[63 - o] <==> Safe(bmp, o)
  {
    hide *;
    ClashBit(bmp, 63 - o);
    SafePositions(bmp, o);
  }

  /** The offsets that are tried. */
  ghost predicate Candidate(al: nat, o: int)
    requires al > 0
  {
    0 <= o < 64 && o % (if al < 64 then al else 64) == 0
  }

  lemma FreeTop(al: nat, bmp: Word, m: Word, o: nat)
    requires al > 0 && o < 64 && IsMask(m, if al < 64 then al else 64)
    ensures Top(And(Not(Clash(bmp)), m), o) <==> Candidate(al, o) && Safe(bmp, o)
  {
    hide Clash, Safe;
    FreeBit(bmp, o);
    assert And(Not(Clash(bmp)), m)[63 - o] == (!Clash(bmp)[63 - o] && m[63 - o]);
  }

  lemma TopMask(m: Word)
    requires m == ShiftLeft(Ones(1), 63)
    ensures IsMask(m, 64)
  {}

  ghost predicate Least(al: nat, bmp: Word, r: int)
    requires al > 0
  {
    Candidate(al, r) && Safe(bmp, r) && forall o :: Candidate(al, o) && Safe(bmp, o) ==> r <= o
  }

  /** The result is the least candidate that is safe, and -1 exactly when no candidate is. */
  lemma CalcLspcIsLeast(al: nat, bmp: Word)
    requires PowerOfTwo(al)
    ensures CalcLspc(al, bmp) == -1 <==> forall o :: Candidate(al, o) ==> !Safe(bmp, o)
    ensures CalcLspc(al, bmp) != -1 ==> Least(al, bmp, CalcLspc(al, bmp))
  {
    hide GenMask, CountLzb, Safe, Clash, Top, IsMask, And, Not, ShiftLeft, Ones;
    var start := ShiftLeft(Ones(1), 63);
    var m := GenMask(al, 64, start);
    TopMask(start);
    GenMaskIs(al, 64, start);
    var w := And(Not(Clash(bmp)), m);
    CountLzbIs(w);
    forall o: nat | o < 64
      ensures Top(w, o) <==> Candidate(al, o) && Safe(bmp, o)
    {
      FreeTop(al, bmp, m, o);
    }
  }
}
