/** Canonical Huffman codes as section 3.2.2 of RFC 1951 defines them, and the
    prefix property of the codes of a set of lengths that is not over-subscribed. */
module Canonical {
  import opened Bits

  /** Bit lengths per symbol; 0 means the symbol is not used. */
  type Lengths = seq<nat>

  const MAXBITS: nat := 15

  ghost predicate LengthsOk(lens: Lengths)
  {
    forall s :: 0 <= s < |lens| ==> lens[s] <= MAXBITS
  }

  /** The symbols of length L in ascending order. */
  ghost function Syms(lens: Lengths, L: nat): (r: seq<nat>)
    ensures |r| <= |lens|
  {
    if lens == [] then []
    else
      var n := |lens| - 1;
      Syms(lens[..n], L) + if lens[n] == L then [n] else []
  }

  lemma {:induction false} SymsProps(lens: Lengths, L: nat)
    ensures forall k :: 0 <= k < Count(lens, L) ==> Syms(lens, L)[k] < |lens| && lens[Syms(lens, L)[k]] == L
    ensures forall i, k :: 0 <= i < k < Count(lens, L) ==> Syms(lens, L)[i] < Syms(lens, L)[k]
  {
    if lens != [] {
      SymsProps(lens[..|lens| - 1], L);
    }
  }

  ghost function Count(lens: Lengths, L: nat): nat
  {
    |Syms(lens, L)|
  }

  /** Steps 1 and 2 of section 3.2.2: the numerically smallest code of length L. */
  ghost function NextCode(lens: Lengths, L: nat): nat
    requires L >= 1
  {
    if L == 1 then 0 else (NextCode(lens, L - 1) + Count(lens, L - 1)) * 2
  }

  /** Step 3: consecutive values for the symbols of one length, in symbol order. */
  ghost function CanonCode(lens: Lengths, s: nat): nat
    requires s < |lens| && lens[s] >= 1
  {
    NextCode(lens, lens[s]) + Count(lens[..s], lens[s])
  }

  /** The code of the k-th symbol of length L. */
  ghost function Code(lens: Lengths, L: nat, k: nat): nat
    requires L >= 1
  {
    NextCode(lens, L) + k
  }

  ghost predicate IsCode(lens: Lengths, L: nat, k: nat)
  {
    1 <= L <= MAXBITS && k < Count(lens, L)
  }

  lemma SymsStep(lens: Lengths, i: nat, L: nat)
    requires i < |lens|
    ensures Syms(lens[..i + 1], L) == Syms(lens[..i], L) + if lens[i] == L then [i] else []
  {
    assert lens[..i + 1][..i] == lens[..i];
  }

  lemma {:induction false} SymsPrefix(lens: Lengths, n: nat, L: nat)
    requires n <= |lens|
    ensures Syms(lens[..n], L) <= Syms(lens, L)
  {
    if n < |lens| {
      var m := |lens| - 1;
      SymsPrefix(lens[..m], n, L);
      assert lens[..m][..n] == lens[..n];
    } else {
      assert lens[..n] == lens;
    }
  }

  /** A used symbol is the one its rank among the symbols of its length says it is. */
  lemma SymbolRank(lens: Lengths, s: nat)
    requires s < |lens|
    ensures Count(lens[..s], lens[s]) < Count(lens, lens[s])
    ensures Syms(lens, lens[s])[Count(lens[..s], lens[s])] == s
  {
    hide Syms;
    SymsPrefix(lens, s + 1, lens[s]);
    SymsStep(lens, s, lens[s]);
  }

  /** Conversely, the k-th symbol of length L has rank k, so its canonical code is Code(L, k). */
  lemma RankSymbol(lens: Lengths, L: nat, k: nat)
    requires L >= 1 && k < Count(lens, L)
    ensures Syms(lens, L)[k] < |lens| && lens[Syms(lens, L)[k]] == L
    ensures CanonCode(lens, Syms(lens, L)[k]) == Code(lens, L, k)
  {
    SymsProps(lens, L);
    var s := Syms(lens, L)[k];
    SymbolRank(lens, s);
  }

  /** No more codes of any length than fit beside the shorter ones. */
  ghost predicate Fits(lens: Lengths)
  {
    forall L :: 1 <= L <= MAXBITS ==> NextCode(lens, L) + Count(lens, L) <= Pow2(L)
  }

  /** The Kraft sum, scaled by 2^15. */
  ghost function KraftSum(lens: Lengths): nat
    requires LengthsOk(lens)
  {
    if lens == [] then 0
    else
      var n := |lens| - 1;
      KraftSum(lens[..n]) + if lens[n] == 0 then 0 else Pow2(MAXBITS - lens[n])
  }

  /** Codes up to length L, each counted with its share of the 15-bit code space. */
  ghost function Space(lens: Lengths, L: nat): int
    requires L <= MAXBITS
  {
    if L == 0 then 0 else Space(lens, L - 1) + Shl(Count(lens, L), MAXBITS - L)
  }

  lemma {:induction false} SpaceSnoc(lens: Lengths, L: nat)
    requires lens != [] && L <= MAXBITS
    ensures var n := |lens| - 1;
            Space(lens, L) == Space(lens[..n], L) +
              if 1 <= lens[n] <= L then Pow2(MAXBITS - lens[n]) else 0
  {
    if L > 0 {
      hide Shl, Pow2;
      SpaceSnoc(lens, L - 1);
      ShlAdd(Count(lens[..|lens| - 1], L), 1, MAXBITS - L);
      ShlBit(1, MAXBITS - L);
    }
  }

  lemma {:induction false} KraftIsSpace(lens: Lengths)
    requires LengthsOk(lens)
    ensures KraftSum(lens) == Space(lens, MAXBITS)
  {
    if lens == [] {
      EmptySpace(MAXBITS);
    } else {
      hide Space;
      KraftIsSpace(lens[..|lens| - 1]);
      SpaceSnoc(lens, MAXBITS);
    }
  }

  lemma {:induction false} EmptySpace(L: nat)
    requires L <= MAXBITS
    ensures Space([], L) == 0
  {
    if L > 0 {
      EmptySpace(L - 1);
      ShlZero(MAXBITS - L);
    }
  }

  /** The first code past length L, scaled to 15 bits, is the space the codes up to L take. */
  lemma {:induction false} SpaceIsNextCode(lens: Lengths, L: nat)
    requires 1 <= L <= MAXBITS
    ensures Shl(NextCode(lens, L) + Count(lens, L), MAXBITS - L) == Space(lens, L)
  {
    hide Shl, Count;
    ShlAdd(NextCode(lens, L), Count(lens, L), MAXBITS - L);
    if L == 1 {
      ShlZero(MAXBITS - L);
    } else {
      SpaceIsNextCode(lens, L - 1);
      ShlDouble(NextCode(lens, L - 1) + Count(lens, L - 1), MAXBITS - L);
    }
  }

  lemma {:induction false} SpaceMono(lens: Lengths, L: nat, M: nat)
    requires L <= M <= MAXBITS
    ensures Space(lens, L) <= Space(lens, M)
  {
    if L < M {
      hide Shl, Count;
      SpaceMono(lens, L, M - 1);
      ShlMono(0, Count(lens, M), MAXBITS - M);
      ShlZero(MAXBITS - M);
    }
  }

  lemma FitsAt(lens: Lengths, L: nat)
    requires 1 <= L <= MAXBITS
    ensures NextCode(lens, L) + Count(lens, L) <= Pow2(L) <==> Space(lens, L) <= Pow2(MAXBITS)
  {
    hide *;
    SpaceIsNextCode(lens, L);
    ShlPow2(L, MAXBITS - L);
    ShlMono(NextCode(lens, L) + Count(lens, L), Pow2(L), MAXBITS - L);
  }

  /** Fitting length by length is the Kraft inequality. */
  lemma FitsIsKraft(lens: Lengths)
    requires LengthsOk(lens)
    ensures Fits(lens) <==> KraftSum(lens) <= Pow2(MAXBITS)
  {
    hide Shl, Pow2, Count, NextCode, Space, KraftSum;
    KraftIsSpace(lens);
    FitsAt(lens, MAXBITS);
    forall L | 1 <= L <= MAXBITS && Space(lens, MAXBITS) <= Pow2(MAXBITS)
      ensures NextCode(lens, L) + Count(lens, L) <= Pow2(L)
    {
      SpaceMono(lens, L, MAXBITS);
      FitsAt(lens, L);
    }
  }

  /** The bit string w, read low bit first, starts with the k-th codeword of length L. */
  ghost predicate Match(lens: Lengths, w: nat, L: nat, k: nat)
    requires L >= 1
  {
    Low(w, L) == Rev(L, Code(lens, L, k))
  }

  /** First 15-bit value that starts with the k-th codeword of length L. */
  ghost function Start(lens: Lengths, L: nat, k: nat): int
    requires 1 <= L <= MAXBITS
  {
    Shl(Code(lens, L, k), MAXBITS - L)
  }

  lemma CodeFits(lens: Lengths, L: nat, k: nat)
    requires Fits(lens) && IsCode(lens, L, k)
    ensures Code(lens, L, k) < Pow2(L)
  {
  }

  /** Match, in terms of the interval of 15-bit values the codeword owns. */
  lemma MatchInterval(lens: Lengths, w: nat, L: nat, k: nat)
    requires 1 <= L <= MAXBITS && Code(lens, L, k) < Pow2(L)
    ensures Match(lens, w, L, k) <==>
            Start(lens, L, k) <= Rev(MAXBITS, w) < Start(lens, L, k + 1)
  {
    hide Shl, Low, Rev, NextCode;
    Coverage(MAXBITS, L, w, Code(lens, L, k));
  }

  lemma StartOfLength(lens: Lengths, L: nat)
    requires 1 <= L <= MAXBITS
    ensures Start(lens, L, 0) == Space(lens, L - 1)
  {
    hide Shl, Count;
    if L == 1 {
      ShlZero(MAXBITS - L);
    } else {
      SpaceIsNextCode(lens, L - 1);
      ShlDouble(NextCode(lens, L - 1) + Count(lens, L - 1), MAXBITS - L);
    }
  }

  /** The intervals follow each other in (length, index) order. */
  lemma StartOrder(lens: Lengths, L: nat, k: nat, M: nat, i: nat)
    requires 1 <= L <= M <= MAXBITS
    requires if L == M then k <= i else k <= Count(lens, L)
    ensures Start(lens, L, k) <= Start(lens, M, i)
  {
    hide Shl, Count, NextCode, Space;
    if L == M {
      ShlMono(Code(lens, L, k), Code(lens, M, i), MAXBITS - L);
    } else {
      ShlMono(Code(lens, L, k), NextCode(lens, L) + Count(lens, L), MAXBITS - L);
      SpaceIsNextCode(lens, L);
      SpaceMono(lens, L, M - 1);
      StartOfLength(lens, M);
      ShlMono(Code(lens, M, 0), Code(lens, M, i), MAXBITS - M);
    }
  }

  /** Prefix property: a bit string starts with at most one codeword. */
  lemma PrefixFree(lens: Lengths, w: nat, L: nat, k: nat, M: nat, i: nat)
    requires Fits(lens) && IsCode(lens, L, k) && IsCode(lens, M, i)
    requires Match(lens, w, L, k) && Match(lens, w, M, i)
    ensures L == M && k == i
  {
    hide Shl, Low, Rev, NextCode, Count, Match, Start;
    MatchInterval(lens, w, L, k);
    MatchInterval(lens, w, M, i);
    if L < M || (L == M && k < i) {
      StartOrder(lens, L, k + 1, M, i);
    } else if M < L || (L == M && i < k) {
      StartOrder(lens, M, i + 1, L, k);
    }
  }

  // ----- the code that owns a part of the code space -----

  /** The codes use up the code space. */
  ghost predicate Complete(lens: Lengths)
  {
    Space(lens, MAXBITS) == Pow2(MAXBITS)
  }

  /** The length of the code that owns a 15-bit value. */
  lemma {:induction false} OwnerLength(lens: Lengths, key: nat, L: nat) returns (M: nat)
    requires L <= MAXBITS && key < Space(lens, L)
    ensures 1 <= M <= L && Space(lens, M - 1) <= key < Space(lens, M)
  {
    hide Count, Shl;
    if L > 0 && key < Space(lens, L - 1) {
      M := OwnerLength(lens, key, L - 1);
    } else {
      M := L;
    }
  }

  /** Bits in the space of the codes of at most `top` bits start with one of them. */
  lemma OwnerCode(lens: Lengths, w: nat, top: nat) returns (L: nat, k: nat)
    requires Fits(lens) && top <= MAXBITS && Rev(MAXBITS, w) < Space(lens, top)
    ensures IsCode(lens, L, k) && L <= top && Match(lens, w, L, k)
  {
    hide Count, Shl, Shr, Low, Rev, NextCode, Pow2, Match, Space, Start, Fits;
    var key := Rev(MAXBITS, w);
    L := OwnerLength(lens, key, top);
    StartOfLength(lens, L);
    SpaceStep(lens, L);
    var d: nat := key - Start(lens, L, 0);
    k := Shr(d, MAXBITS - L);
    StartPlus(lens, L, d);
    if k >= Count(lens, L) {
      ShlMono(Count(lens, L), k, MAXBITS - L);
    }
    CodeFits(lens, L, k);
    MatchInterval(lens, w, L, k);
  }

  lemma SpaceStep(lens: Lengths, L: nat)
    requires 1 <= L <= MAXBITS
    ensures Space(lens, L) == Space(lens, L - 1) + Shl(Count(lens, L), MAXBITS - L)
  {
  }

  lemma StartPlus(lens: Lengths, L: nat, d: nat)
    requires 1 <= L <= MAXBITS
    ensures var k := Shr(d, MAXBITS - L);
            Start(lens, L, k) <= Start(lens, L, 0) + d < Start(lens, L, k + 1) && Shl(k, MAXBITS - L) <= d
  {
    hide Shl, Shr, Low, NextCode, Pow2;
    var n, k := MAXBITS - L, Shr(d, MAXBITS - L);
    Parts(d, n);
    LowBound(d, n);
    ShlAdd(NextCode(lens, L), k, n);
    ShlAdd(NextCode(lens, L), k + 1, n);
    ShlAdd(k, 1, n);
    ShlBit(1, n);
  }

  lemma CodeBelow(lens: Lengths, L: nat, k: nat)
    requires Fits(lens) && IsCode(lens, L, k)
    ensures Code(lens, L, k) < Pow2(L)
  {
    CodeFits(lens, L, k);
  }
}
