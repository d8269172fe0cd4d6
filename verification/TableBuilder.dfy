/** The Huffman table builder as a whole, and what its result means: looking up any bit
    string that starts with a symbol's canonical codeword gives that symbol and its length. */
module TableBuilder {
  import opened Options
  import opened Bits
  import opened ReverseCode
  import opened Canonical
  import opened HuffmanTable
  import opened ShortCodes
  import opened LongCodes
  import opened SecondaryTables
  import opened TableRoom

  // ----- what the table is for -----

  /** Bits w, low bit first, start with the canonical codeword of s (most significant bit first). */
  ghost predicate StartsWith(lens: Lengths, w: nat, s: nat)
    requires s < |lens| && lens[s] >= 1
  {
    Low(w, lens[s]) == Rev(lens[s], CanonCode(lens, s))
  }

  ghost predicate Decodes(lens: Lengths, t: seq<nat>)
  {
    && |t| == TABLE_SIZE
    && forall s: nat, w: nat :: s < |lens| && lens[s] >= 1 && StartsWith(lens, w, s) ==>
         Lookup(t, w) == Decoded(s, lens[s])
  }

  lemma LookupShort(lens: Lengths, t: seq<nat>, w: nat, L: nat, k: nat)
    requires |lens| <= 512 && |t| == TABLE_SIZE && ShortDone(lens, t, 9, 0)
    requires IsCode(lens, L, k) && L <= 8 && Match(lens, w, L, k)
    ensures Lookup(t, w) == Decoded(Syms(lens, L)[k], L)
  {
    hide Low, Rev, NextCode, Syms;
    Low8(w);
    LowLow(w, L, 8);
    SymsProps(lens, L);
    EntryFields(Syms(lens, L)[k], L);
    assert Match(lens, w % 256, L, k);
  }

  lemma LookupLong(lens: Lengths, t: seq<nat>, slots: Slots, ns: nat, w: nat, L: nat, k: nat)
    requires |lens| <= 512 && Fits(lens) && LongState(lens, t, slots, ns, 9, Count(lens, 9))
    requires IsCode(lens, L, k) && L >= 9 && Match(lens, w, L, k)
    ensures Lookup(t, w) == Decoded(Syms(lens, L)[k], L)
  {
    hide Low, Rev, NextCode, Syms, CodeBits, Start, ShortDone, RestFree, Pow2, IsPtr, Value, Width, PtrEntry, LongEntry;
    assert HasSlot(lens, slots, L, k);
    MatchPrimary(lens, w, L, k);
    var x := w % 256;
    var s := slots[x];
    PtrFields(s.sec, s.sb);
    SlotRoom(s);
    var ind := Low(w / 256, s.sb);
    LowBound(w / 256, s.sb);
    Window(w, s.sb, L);
    assert CellOk(lens, Cell(t, s, ind), x + 256 * ind, 9, Count(lens, 9));
    SymsProps(lens, L);
    EntryFields(Syms(lens, L)[k], L);
  }

  /** Primary and secondary index together keep the first 8 + sb bits. */
  lemma Window(w: nat, sb: nat, L: nat)
    requires L <= 8 + sb
    ensures Low(w % 256 + 256 * Low(w / 256, sb), L) == Low(w, L)
  {
    hide *;
    Low8(w);
    LowSplit(w, 8, 8 + sb);
    Shl8(Low(w / 256, sb));
    LowLow(w, L, 8 + sb);
  }

  lemma LongStateDecodes(lens: Lengths, t: seq<nat>, slots: Slots, ns: nat)
    requires |lens| <= 512 && LengthsOk(lens) && Fits(lens)
    requires LongState(lens, t, slots, ns, 9, Count(lens, 9))
    ensures Decodes(lens, t)
  {
    hide Low, Rev, NextCode, Syms, Lookup;
    forall s: nat, w: nat | s < |lens| && lens[s] >= 1 && StartsWith(lens, w, s)
      ensures Lookup(t, w) == Decoded(s, lens[s])
    {
      var L, k := lens[s], Count(lens[..s], lens[s]);
      SymbolRank(lens, s);
      if L <= 8 {
        LookupShort(lens, t, w, L, k);
      } else {
        LookupLong(lens, t, slots, ns, w, L, k);
      }
    }
  }

  // ----- bits that start no codeword -----

  ghost predicate Assigned(lens: Lengths, w: nat)
  {
    exists s: nat :: s < |lens| && lens[s] >= 1 && StartsWith(lens, w, s)
  }

  /** Bits consumed for w when it starts no codeword: 8 if longer codes share its first 8 bits, else 1. */
  ghost function BlankLength(lens: Lengths, w: nat): nat
  {
    if Widest(lens, w % 256, MAXBITS) > 0 then 8 else 1
  }

  /** Bits that start no codeword are taken for symbol 0. */
  ghost predicate TakesZero(lens: Lengths, t: seq<nat>)
  {
    |t| == TABLE_SIZE && forall w: nat :: !Assigned(lens, w) ==> Lookup(t, w) == Decoded(0, BlankLength(lens, w))
  }

  lemma BlankLookup(lens: Lengths, t: seq<nat>, w: nat)
    requires TakesZero(lens, t) && !Assigned(lens, w)
    ensures Lookup(t, w) == Decoded(0, BlankLength(lens, w))
  {}

  lemma UnassignedMatchesNone(lens: Lengths, w: nat, L: nat, k: nat)
    requires !Assigned(lens, w) && IsCode(lens, L, k)
    ensures !Match(lens, w, L, k)
  {
    hide NextCode, Syms, Low, Rev, CanonCode;
    RankSymbol(lens, L, k);
    assert Match(lens, w, L, k) == StartsWith(lens, w, Syms(lens, L)[k]);
  }

  /** Such bits lie behind all codes of at most 8 bits. */
  lemma UnassignedKey(lens: Lengths, w: nat)
    requires Fits(lens) && !Assigned(lens, w)
    ensures Start(lens, 9, 0) <= Rev(MAXBITS, w % 256)
  {
    hide Start, Rev, Space, Fits, Match, Assigned, Low, Count;
    if Rev(MAXBITS, w) < Space(lens, 8) {
      var L, k := OwnerCode(lens, w, 8);
      UnassignedMatchesNone(lens, w, L, k);
    }
    StartOfLength(lens, 9);
    StartNine(lens);
    KeyFloor(w, Code(lens, 8, Count(lens, 8)));
    Low8(w);
  }

  /** Nothing in the secondary table of such bits either. */
  lemma UnassignedCell(lens: Lengths, t: seq<nat>, slots: Slots, ns: nat, w: nat)
    requires Fits(lens) && !Assigned(lens, w) && LongState(lens, t, slots, ns, 9, Count(lens, 9)) && w % 256 in slots
    ensures var s := slots[w % 256];
            Low(w / 256, s.sb) < Pow2(s.sb) && Cell(t, s, Low(w / 256, s.sb)) == 0
  {
    hide Low, Rev, NextCode, Syms, CodeBits, Start, ShortDone, RestFree, Pow2, PtrEntry, LongEntry, Assigned, Match, Fits, IsCode;
    var x := w % 256;
    var s := slots[x];
    var ind := Low(w / 256, s.sb);
    LowBound(w / 256, s.sb);
    assert CellOk(lens, Cell(t, s, ind), x + 256 * ind, 9, Count(lens, 9));
    forall M: nat, k: nat | IsCode(lens, M, k) && Processed(M, k, 9, Count(lens, 9))
      ensures !Match(lens, x + 256 * ind, M, k)
    {
      assert HasSlot(lens, slots, M, k);
      UnassignedMatchesNone(lens, w, M, k);
      SameWindow(lens, slots, w, M, k);
    }
  }

  /** The window that the two indices keep starts with the same codes. */
  lemma SameWindow(lens: Lengths, slots: Slots, w: nat, M: nat, k: nat)
    requires Fits(lens) && IsCode(lens, M, k) && M >= 9 && HasSlot(lens, slots, M, k) && w % 256 in slots
    ensures Match(lens, w % 256 + 256 * Low(w / 256, slots[w % 256].sb), M, k) ==> Match(lens, w, M, k)
  {
    hide Low, CodeBits, Fits, NextCode, Count, Rev, Pow2, IsCode;
    var x := w % 256;
    var v := x + 256 * Low(w / 256, slots[x].sb);
    if Match(lens, v, M, k) {
      MatchPrimary(lens, v, M, k);
      Window(w, slots[x].sb, M);
    }
  }

  lemma LongStateTakesZero(lens: Lengths, t: seq<nat>, slots: Slots, ns: nat)
    requires Fits(lens) && LongState(lens, t, slots, ns, 9, Count(lens, 9)) && Tally(lens, slots, ns, 9)
    ensures TakesZero(lens, t)
  {
    hide Assigned, Fits, LongState, Tally, Lookup, BlankLength;
    assert |t| == TABLE_SIZE by { LongStateSize(lens, t, slots, ns); }
    forall w: nat | !Assigned(lens, w)
      ensures Lookup(t, w) == Decoded(0, BlankLength(lens, w))
    {
      UnassignedLookup(lens, t, slots, ns, w);
    }
  }

  lemma LongStateSize(lens: Lengths, t: seq<nat>, slots: Slots, ns: nat)
    requires LongState(lens, t, slots, ns, 9, Count(lens, 9))
    ensures |t| == TABLE_SIZE
  {}

  lemma UnassignedLookup(lens: Lengths, t: seq<nat>, slots: Slots, ns: nat, w: nat)
    requires Fits(lens) && LongState(lens, t, slots, ns, 9, Count(lens, 9)) && Tally(lens, slots, ns, 9) && !Assigned(lens, w)
    ensures |t| == TABLE_SIZE && Lookup(t, w) == Decoded(0, BlankLength(lens, w))
  {
    hide Low, Rev, CodeBits, Start, ShortDone, Pow2, PtrEntry, Assigned, Fits, CellsOk, AllHaveSlots, Widest, IsPtr, Value, Width, Count;
    var x := w % 256;
    assert Value(0) == 0 && Width(0) == 0 && !IsPtr(0) by { ZeroFields(); }
    if x in slots {
      var s := slots[x];
      PtrFields(s.sec, s.sb);
      SlotRoom(s);
      UnassignedCell(lens, t, slots, ns, w);
    } else {
      UnassignedKey(lens, w);
      if Widest(lens, x, MAXBITS) > 0 { UsedHasSlot(lens, slots, x); }
    }
  }

  lemma ZeroFields()
    ensures Value(0) == 0 && Width(0) == 0 && !IsPtr(0)
  {}

  // ----- why a table that was built means that the lengths fit -----

  /** At most one long code so far had all bits zero, and its cell is taken. */
  ghost predicate ZeroSeen(lens: Lengths, t: seq<nat>, zero: Option<(nat, nat)>, j: nat, i: nat)
    requires |t| == TABLE_SIZE
  {
    && (forall M: nat, k: nat :: 9 <= M && IsCode(lens, M, k) && Processed(M, k, j, i) && CodeBits(lens, M, k) == 0 ==>
          zero == Some((M, k)))
    && (zero.Some? ==> IsPtr(t[0]) && t[256 + Value(t[0])] != 0)
    && (Code(lens, 9, 0) > 0 ==> zero.None? && t[0] != 0 && !IsPtr(t[0]))
  }

  lemma ZeroCells(t: seq<nat>, ns: nat, j: nat, code: nat, v: nat, t': seq<nat>, ns': nat)
    requires |t| == TABLE_SIZE && 9 <= j <= 15 && v != 0
    requires CanPlace(t, ns, j, code) && Placed(t, ns, j, code, v, t', ns')
    ensures |t'| == TABLE_SIZE
    ensures t[0] != 0 ==> t'[0] == t[0]
    ensures t[0] != 0 && t[256 + Value(t[0])] != 0 ==> t'[256 + Value(t[0])] == t[256 + Value(t[0])]
    ensures code == 0 ==> t[0] == 0 || (IsPtr(t[0]) && t[256 + Value(t[0])] == 0)
    ensures code == 0 ==> IsPtr(t'[0]) && t'[256 + Value(t'[0])] != 0
  {
    hide Low, Pow2;
    var t1 := Opened(t, ns, j, code);
    var e := t1[code % 256];
    SecondaryRoom(e);
    if t[code % 256] == 0 { PtrFields(ns, j - 8); }
    if code == 0 {
      SmallParts(0, j - 8);
      assert InRun(256 + Value(e), 256 + Value(e), Pow2(Width(e)), code / 256, j - 8);
    }
  }

  lemma ZeroLongStep(lens: Lengths, t: seq<nat>, ns: nat, j: nat, i: nat, v: nat, t': seq<nat>, ns': nat,
                     zero: Option<(nat, nat)>)
    requires |t| == TABLE_SIZE && 9 <= j <= 15 && v != 0
    requires CanPlace(t, ns, j, CodeBits(lens, j, i)) && Placed(t, ns, j, CodeBits(lens, j, i), v, t', ns')
    requires ZeroSeen(lens, t, zero, j, i)
    ensures |t'| == TABLE_SIZE
    ensures ZeroSeen(lens, t', if CodeBits(lens, j, i) == 0 then Some((j, i)) else zero, j, i + 1)
  {
    hide CodeBits, CanPlace, Placed, NextCode, Value, IsCode;
    ZeroCells(t, ns, j, CodeBits(lens, j, i), v, t', ns');
  }

  /** Codes that run past the end of the code space pass through code 0 again. */
  lemma {:induction false} FindWrap(lens: Lengths, from: nat, L: nat) returns (M: nat, k: nat)
    requires 1 <= from <= L <= MAXBITS && Code(lens, from, 0) <= Pow2(from) && Code(lens, L, Count(lens, L)) > Pow2(L)
    ensures from <= M <= L && IsCode(lens, M, k) && Code(lens, M, k) == Pow2(M)
  {
    if Code(lens, L, 0) <= Pow2(L) {
      M, k := L, Pow2(L) - Code(lens, L, 0);
    } else {
      M, k := FindWrap(lens, from, L - 1);
    }
  }

  lemma {:induction false} FindFirst(lens: Lengths, from: nat, L: nat) returns (M: nat)
    requires 1 <= from <= L <= MAXBITS && Code(lens, from, 0) == 0 && Code(lens, L, Count(lens, L)) > 0
    ensures from <= M <= L && IsCode(lens, M, 0) && Code(lens, M, 0) == 0
  {
    if Code(lens, L, 0) == 0 {
      M := L;
    } else {
      M := FindFirst(lens, from, L - 1);
    }
  }

  lemma ShortFits(lens: Lengths, L: nat)
    requires 1 <= L <= 8 && Code(lens, 9, 0) <= Pow2(9)
    ensures NextCode(lens, L) + Count(lens, L) <= Pow2(L)
  {
    hide Count, Space;
    FitsAt(lens, 8);
    SpaceMono(lens, L, 8);
    FitsAt(lens, L);
  }

  /** All long codes placed with at most one zero code: the lengths fit. */
  lemma ZeroOnceFits(lens: Lengths, t: seq<nat>, zero: Option<(nat, nat)>)
    requires |t| == TABLE_SIZE && Code(lens, 9, 0) <= Pow2(9) && ZeroSeen(lens, t, zero, 9, Count(lens, 9))
    ensures Fits(lens)
  {
    hide CodeBits, Pow2, Count, NextCode;
    forall L | 1 <= L <= MAXBITS
      ensures NextCode(lens, L) + Count(lens, L) <= Pow2(L)
    {
      if L <= 8 {
        ShortFits(lens, L);
      } else if NextCode(lens, L) + Count(lens, L) > Pow2(L) {
        var M, k := FindWrap(lens, 9, L);
        WrappedCode(lens, M, k);
        if Code(lens, 9, 0) == 0 {
          var M' := FindFirst(lens, 9, L);
          WrappedCode(lens, M', 0);
        }
      }
    }
  }

  /** Conversely no table at all decodes over-subscribed lengths: the bits of code 0 start
      with two different codewords. */
  lemma DecodesOnlyFits(lens: Lengths, t: seq<nat>)
    requires Decodes(lens, t)
    ensures Fits(lens)
  {
    hide NextCode, CanonCode, Lookup, Syms;
    forall L | 1 <= L <= MAXBITS
      ensures NextCode(lens, L) + Count(lens, L) <= Pow2(L)
    {
      if NextCode(lens, L) + Count(lens, L) > Pow2(L) {
        FirstLength(lens);
        var M, k := FindWrap(lens, 1, L);
        var M' := FindFirst(lens, 1, L);
        ZeroLookup(lens, t, M, k);
        ZeroLookup(lens, t, M', 0);
      }
    }
  }

  lemma FirstLength(lens: Lengths)
    ensures Code(lens, 1, 0) == 0
  {
  }

  lemma ZeroCodeword(lens: Lengths, M: nat, k: nat)
    requires IsCode(lens, M, k) && (Code(lens, M, k) == 0 || Code(lens, M, k) == Pow2(M))
    ensures Syms(lens, M)[k] < |lens| && lens[Syms(lens, M)[k]] == M && StartsWith(lens, 0, Syms(lens, M)[k])
    ensures CanonCode(lens, Syms(lens, M)[k]) == Code(lens, M, k)
  {
    hide NextCode, Syms, Low, CanonCode, Rev;
    RankSymbol(lens, M, k);
    WrappedCode(lens, M, k);
    RevOfLow(M, Code(lens, M, k));
    SmallParts(0, M);
  }

  lemma ZeroLookup(lens: Lengths, t: seq<nat>, M: nat, k: nat)
    requires Decodes(lens, t) && IsCode(lens, M, k) && (Code(lens, M, k) == 0 || Code(lens, M, k) == Pow2(M))
    ensures Lookup(t, 0).sym < |lens| && lens[Lookup(t, 0).sym] == M
    ensures CanonCode(lens, Lookup(t, 0).sym) == Code(lens, M, k)
  {
    hide NextCode, Syms, CanonCode, StartsWith, Lookup;
    ZeroCodeword(lens, M, k);
    assert Lookup(t, 0) == Decoded(Syms(lens, M)[k], M);
  }

  lemma RevOfLow(n: nat, x: nat)
    ensures Rev(n, x) == Rev(n, Low(x, n))
  {
    RevSplit(n, n, x);
  }

  lemma ExampleCounts(lens: Lengths)
    requires lens == [1, 1, 2]
    ensures Count(lens, 1) == 2 && Count(lens, 2) == 1 && NextCode(lens, 2) == 4
  {
    assert lens[..2] == [1, 1] && [1, 1][..1] == [1];
    assert Count([1], 1) == 1 && Count([1, 1], 1) == 2 && Count([1], 2) == 0 && Count([1, 1], 2) == 0;
  }

  /** The lengths 1, 1, 2 are over-subscribed; their codes are 0, 1 and, wrapped around, 0. */
  lemma ExampleCodes(lens: Lengths)
    requires lens == [1, 1, 2]
    ensures CodeBits(lens, 1, 0) == 0 && CodeBits(lens, 1, 1) == 1 && CodeBits(lens, 2, 0) == 0
    ensures !Fits(lens)
  {
    hide CodeBits, Syms, Low, Pow2;
    ExampleCounts(lens);
    Pow2Values();
    WrappedCode(lens, 1, 0);
    WrappedCode(lens, 2, 0);
    OneBitCode(lens);
    assert NextCode(lens, 2) + Count(lens, 2) > Pow2(2);
  }

  /** Symbol 0 of length 1 packs to an entry of 0, which also means "free"; so after the codes
      0 and 1 of length 1 the cells of code 0 of length 2 still look free. */
  lemma SymbolZeroLooksFree(t: seq<nat>, t1: seq<nat>, t2: seq<nat>)
    requires |t| == TABLE_SIZE && forall y :: 0 <= y < TABLE_SIZE ==> t[y] == 0
    requires RunFilled(t, t1, 0, 256, 0, 1, ShortEntry(0, 1))
    requires RunFilled(t1, t2, 0, 256, 1, 1, ShortEntry(1, 1))
    ensures RunClear(t2, 0, 256, 0, 2)
  {
    hide InRun;
    forall y | 0 <= y < |t2| && InRun(y, 0, 256, 0, 2)
      ensures t2[y] == 0
    {
      EvenNotOdd(y);
    }
  }

  lemma ExampleRest(lens: Lengths, L: nat)
    requires lens == [1, 1, 2] && L > 2
    ensures Count(lens, L) == 0
  {
    assert lens[..2] == [1, 1] && [1, 1][..1] == [1];
    assert Count([1], L) == 0 && Count([1, 1], L) == 0;
  }

  lemma ExampleSyms(lens: Lengths)
    requires lens == [1, 1, 2]
    ensures Syms(lens, 1) == [0, 1]
  {
    assert lens[..2] == [1, 1] && [1, 1][..1] == [1];
    assert Syms([1], 1) == [0] && Syms([1, 1], 1) == [0, 1];
  }

  /** So the first part goes through. */
  lemma ExampleTrials(lens: Lengths)
    requires lens == [1, 1, 2]
    ensures Trials(lens, 8).Some? && AllShort(lens) && LengthsOk(lens)
  {
    hide CodeBits, Syms, RunClear, Trial, Trials, Pow2;
    ExampleCounts(lens);
    ExampleCodes(lens);
    ExampleSyms(lens);
    Pow2Values();
    var z := seq(TABLE_SIZE, _ => 0);
    TrialsStart(lens, z);
    TrialsStep(lens, 1, z);
    var t1 := Filled(z, 0, 1, ShortEntry(0, 1));
    ClearZeros(z, 0, 1);
    TrialNone(lens, z, 1);
    TrialStep(lens, z, 1, 0, z, t1);
    StillZeros(z, t1);
    ClearZeros(t1, 1, 1);
    var t2 := Filled(t1, 1, 1, ShortEntry(1, 1));
    TrialStep(lens, z, 1, 1, t1, t2);
    TrialsStep(lens, 2, t2);
    SymbolZeroLooksFree(z, t1, t2);
    TrialNone(lens, t2, 2);
    var t3 := Filled(t2, 0, 2, ShortEntry(Syms(lens, 2)[0], 2));
    TrialStep(lens, t2, 2, 0, t2, t3);
    ExampleTail(lens, t3, 8);
    forall L | 9 <= L <= MAXBITS
      ensures Count(lens, L) == 0
    {
      ExampleRest(lens, L);
    }
  }

  lemma ClearZeros(t: seq<nat>, code: nat, j: nat)
    requires forall y :: 0 <= y < |t| ==> t[y] == 0
    ensures RunClear(t, 0, 256, code, j)
  {}

  lemma StillZeros(t: seq<nat>, t': seq<nat>)
    requires |t| == TABLE_SIZE && (forall y :: 0 <= y < |t| ==> t[y] == 0) && RunFilled(t, t', 0, 256, 0, 1, ShortEntry(0, 1))
    ensures forall y :: 0 <= y < |t'| ==> t'[y] == 0
  {}

  lemma {:induction false} ExampleTail(lens: Lengths, t: seq<nat>, L: nat)
    requires lens == [1, 1, 2] && L >= 2 && Trials(lens, 2) == Some(t)
    ensures Trials(lens, L) == Some(t)
  {
    hide Trials, Trial;
    if L > 2 {
      ExampleTail(lens, t, L - 1);
      ExampleRest(lens, L);
      TrialsStep(lens, L, t);
    }
  }

  lemma EvenNotOdd(y: int)
    requires InRun(y, 0, 256, 0, 2)
    ensures !InRun(y, 0, 256, 1, 1)
  {
    hide Low;
    LowLow(y, 1, 2);
    SmallParts(0, 1);
  }

  lemma OneBitCode(lens: Lengths)
    ensures CodeBits(lens, 1, 1) == 1
  {
    assert Low(1, 1) == 1 by { assert Low(0, 0) == 0; }
    assert Rev(1, 1) == 1 by { assert Rev(0, 0) == 0; }
  }

  // ----- the second part -----

  /** All that holds between two symbols of the second part. */
  ghost predicate LongInv(lens: Lengths, t: seq<nat>, slots: Slots, zero: Option<(nat, nat)>, ns: nat, j: nat, i: nat)
    requires 9 <= j <= MAXBITS
  {
    && |t| == TABLE_SIZE
    && (Fits(lens) ==> LongState(lens, t, slots, ns, j, i) && Tally(lens, slots, ns, j))
    && (|lens| > 0 && lens[0] != 1 ==> Code(lens, 9, 0) <= Pow2(9) && ZeroSeen(lens, t, zero, j, i))
  }

  lemma LongInvStart(lens: Lengths, t: seq<nat>)
    requires ShortInv(lens, t, 9, 0)
    ensures LongInv(lens, t, map[], None, 0, 15, 0)
  {
    hide Low, Rev, CodeBits, Pow2, ShortState, Start, NextCode, IsPtr, LongState, Tally;
    if Fits(lens) {
      LongInit(lens, t);
      TallyStart(lens);
    }
  }

  lemma LongInvNext(lens: Lengths, t: seq<nat>, slots: Slots, zero: Option<(nat, nat)>, ns: nat, j: nat)
    requires 10 <= j <= MAXBITS && LongInv(lens, t, slots, zero, ns, j, Count(lens, j))
    ensures LongInv(lens, t, slots, zero, ns, j - 1, 0)
  {
    hide Low, Rev, CodeBits, Pow2, Shl, Start, NextCode, IsPtr, Value, LongState, Fits, Tally;
    if Fits(lens) {
      NextLevel(lens, t, slots, ns, j);
      TallyNext(lens, slots, ns, j);
    }
  }

  /** Lengths that fit can be placed as long as there is room for a new secondary table. */
  lemma CanPlaceFits(lens: Lengths, t: seq<nat>, slots: Slots, ns: nat, j: nat, i: nat)
    requires Fits(lens) && 9 <= j <= MAXBITS && IsCode(lens, j, i) && LongState(lens, t, slots, ns, j, i)
    requires CodeBits(lens, j, i) % 256 in slots || ns < 512
    ensures CanPlace(t, ns, j, CodeBits(lens, j, i))
  {
    hide CodeBits, Pow2, Start, Rev, Fits, IsCode, CellsOk, ShortDone, AllHaveSlots, IsPtr, Value, Width, PtrEntry, CodeRunClear, RestFree;
    var x := CodeBits(lens, j, i) % 256;
    if x in slots {
      PtrFields(slots[x].sec, slots[x].sb);
      assert t[x] != 0 by { PtrNonzero(slots[x].sec, slots[x].sb); }
      LongClear(lens, t, slots, ns, j, i);
    } else {
      PrimaryFree(lens, t, slots, ns, j, i);
      var t', slots' := t[x := PtrEntry(ns, j - 8)], slots[x := Slot(ns, j - 8)];
      OpenStep(lens, t, slots, ns, j, i, x, t', slots', ns + Pow2(j - 8));
      LongClear(lens, t', slots', ns + Pow2(j - 8), j, i);
    }
  }

  lemma PtrNonzero(sec: nat, sb: nat)
    ensures PtrEntry(sec, sb) != 0
  {
  }

  lemma PlaceStep(lens: Lengths, t: seq<nat>, slots: Slots, ns: nat, j: nat, i: nat, t': seq<nat>, ns': nat)
    returns (slots': Slots)
    requires Fits(lens) && 9 <= j <= MAXBITS && IsCode(lens, j, i) && LongState(lens, t, slots, ns, j, i)
    requires CanPlace(t, ns, j, CodeBits(lens, j, i)) && Tally(lens, slots, ns, j)
    requires Placed(t, ns, j, CodeBits(lens, j, i), LongEntry(Syms(lens, j)[i], j), t', ns')
    ensures LongState(lens, t', slots', ns', j, i + 1) && Tally(lens, slots', ns', j)
  {
    hide CodeBits, Pow2, Start, Rev, Fits, CellsOk, ShortDone, AllHaveSlots, IsPtr, Value, Width, PtrEntry,
      CodeRunClear, CodeRunFilled, RestFree, LongEntry, Syms, Tally;
    var x := CodeBits(lens, j, i) % 256;
    if x in slots {
      PtrNonzero(slots[x].sec, slots[x].sb);
      slots' := slots;
      FillStep(lens, t, slots, ns, j, i, t');
    } else {
      PrimaryFree(lens, t, slots, ns, j, i);
      TallyOpen(lens, slots, ns, j, i, x);
      slots' := slots[x := Slot(ns, j - 8)];
      var t1 := t[x := PtrEntry(ns, j - 8)];
      OpenStep(lens, t, slots, ns, j, i, x, t1, slots', ns');
      FillStep(lens, t1, slots', ns', j, i, t');
    }
  }

  lemma InvStep(lens: Lengths, t: seq<nat>, slots: Slots, zero: Option<(nat, nat)>, ns: nat, j: nat, i: nat,
                t': seq<nat>, ns': nat)
    returns (slots': Slots, zero': Option<(nat, nat)>)
    requires 9 <= j <= MAXBITS && IsCode(lens, j, i) && LongInv(lens, t, slots, zero, ns, j, i)
    requires CanPlace(t, ns, j, CodeBits(lens, j, i))
    requires Placed(t, ns, j, CodeBits(lens, j, i), LongEntry(Syms(lens, j)[i], j), t', ns')
    ensures LongInv(lens, t', slots', zero', ns', j, i + 1)
  {
    hide CodeBits, Pow2, Fits, CanPlace, LongState, ZeroSeen, Code, Syms, Tally;
    slots' := slots;
    if Fits(lens) { slots' := PlaceStep(lens, t, slots, ns, j, i, t', ns'); }
    zero' := if CodeBits(lens, j, i) == 0 then Some((j, i)) else zero;
    if lens[0] != 1 { ZeroLongStep(lens, t, ns, j, i, LongEntry(Syms(lens, j)[i], j), t', ns', zero); }
  }

  /** Place the symbols of one length j >= 9. */
  method PlaceLongLength(lens: Lengths, j: nat, jcnt: nat, first: nat, firstcode: nat, next: array<nat>, table: array<nat>,
                         ns0: nat, ghost last: nat, ghost slots0: Slots, ghost zero0: Option<(nat, nat)>)
    returns (ok: bool, ns: nat, ghost slots: Slots, ghost zero: Option<(nat, nat)>)
    requires 9 <= j <= MAXBITS && table != next && table.Length == TABLE_SIZE
    requires ChainAt(Syms(lens, j), jcnt, first, last, next[..]) && firstcode == CodeBits(lens, j, 0)
    requires LongInv(lens, table[..], slots0, zero0, ns0, j, 0)
    modifies table
    ensures ok ==> LongInv(lens, table[..], slots, zero, ns, j, jcnt)
    ensures Fits(lens) && Room(lens) ==> ok
  {
    hide CodeBits, Pow2, Fits, CanPlace, Placed, LongState, ZeroSeen, Syms, Rev, Low, Shl, NextCode, Room, Tally;
    ns, slots, zero := ns0, slots0, zero0;
    var val, code, primary, secondary, sbits := first, firstcode, 0x100, 0, 0;
    var i := 0;
    while i < jcnt
      invariant 0 <= i <= jcnt
      invariant i < jcnt ==> val == Syms(lens, j)[i]
      invariant code == CodeBits(lens, j, i)
      invariant LongInv(lens, table[..], slots, zero, ns, j, i)
      invariant primary == 0x100 || Cached(table[..], j, primary, secondary, sbits)
    {
      ghost var t, ns1 := table[..], ns;
      PlaceStepReady(lens, t, slots, zero, ns, j, i);
      SymsProps(lens, j);
      ok, secondary, sbits, ns := PlaceCode(table, j, code, LongEntry(val, j), primary, secondary, sbits, ns);
      if !ok {
        return;
      }
      primary := code % 256;
      slots, zero := InvStep(lens, t, slots, zero, ns1, j, i, table[..], ns);
      if i + 1 < jcnt {
        val := next[val];
      }
      CodeBitsNext(lens, j, i);
      code := ReverseIncrement(code, j);
      i := i + 1;
    }
    ok := true;
  }

  lemma PlaceStepReady(lens: Lengths, t: seq<nat>, slots: Slots, zero: Option<(nat, nat)>, ns: nat, j: nat, i: nat)
    requires 9 <= j <= MAXBITS && IsCode(lens, j, i) && LongInv(lens, t, slots, zero, ns, j, i)
    ensures Fits(lens) && Room(lens) ==> CanPlace(t, ns, j, CodeBits(lens, j, i))
  {
    hide CodeBits, Pow2, Fits, CanPlace, ZeroSeen, Code, Tally, Room;
    if Fits(lens) && Room(lens) {
      var x := CodeBits(lens, j, i) % 256;
      if x !in slots && ns >= 512 {
        NoRoom(lens, slots, ns, j, i, x);
      }
      CanPlaceFits(lens, t, slots, ns, j, i);
    }
  }

  /** FIRSTCODE for lengths 9 to 15: where the codes of each length start. */
  method FirstCodes(lens: Lengths, count: array<nat>, code0: nat) returns (ok: bool, firstcode: array<nat>)
    requires count.Length == 16 && |lens| <= MAX_CODES && code0 == CodeBits(lens, 9, 0)
    requires forall L :: 9 <= L < 16 ==> count[L] == Count(lens, L)
    ensures fresh(firstcode) && firstcode.Length == 7
    ensures ok && forall L :: 9 <= L < 16 && count[L] > 0 ==> firstcode[L - 9] == CodeBits(lens, L, 0)
  {
    hide CodeBits, Pow2, Rev, Low, NextCode;
    firstcode := new nat[7](_ => 0);
    var code, j := code0, 9;
    while j < 16
      invariant 9 <= j <= 16 && code == CodeBits(lens, j, 0)
      invariant forall L :: 9 <= L < j && count[L] > 0 ==> firstcode[L - 9] == CodeBits(lens, L, 0)
    {
      CodeBitsLonger(lens, j);
      CodeBitsAdd(lens, j, 0, count[j]);
      FewCodes(lens, j);
      if count[j] != 0 {
        firstcode[j - 9] := code;
        ok, code := ReverseAdd(code, j, count[j]);
        if !ok {
          return false, firstcode;
        }
      }
      j := j + 1;
    }
    ok := true;
  }

  lemma FewCodes(lens: Lengths, j: nat)
    requires |lens| <= MAX_CODES && j >= 9
    ensures Count(lens, j) < Pow2(j)
  {
    Pow2Mono(9, j);
    assert Pow2(9) == 512;
  }

  /** No code is longer than 8 bits. */
  ghost predicate AllShort(lens: Lengths)
  {
    forall L :: 9 <= L <= MAXBITS ==> Count(lens, L) == 0
  }

  /** The whole second part: lengths 15 down to 9. */
  method PlaceLong(lens: Lengths, count: array<nat>, start: array<nat>, firstcode: array<nat>, next: array<nat>,
                   table: array<nat>, ghost last: seq<nat>)
    returns (ok: bool, ghost slots: Slots, ghost zero: Option<(nat, nat)>, ghost ns: nat)
    requires table != next && table != count && table != start && table != firstcode && table.Length == TABLE_SIZE
    requires Chained(lens, count[..], start[..], last, next[..]) && firstcode.Length == 7
    requires forall L :: 9 <= L < 16 && count[L] > 0 ==> firstcode[L - 9] == CodeBits(lens, L, 0)
    requires ShortInv(lens, table[..], 9, 0)
    modifies table
    ensures ok ==> LongInv(lens, table[..], slots, zero, ns, 9, Count(lens, 9))
    ensures Fits(lens) && Room(lens) ==> ok
    ensures AllShort(lens) ==> ok
  {
    hide CodeBits, Pow2, Fits, LongState, ZeroSeen, Syms, Shl, NextCode, ShortInv, LongInv, ChainAt, Room;
    LongInvStart(lens, table[..]);
    var j, nextSecondary := 15, 0;
    slots, zero, ns := map[], None, 0;
    while j >= 9
      invariant 8 <= j <= 15 && ns == nextSecondary
      invariant j >= 9 ==> LongInv(lens, table[..], slots, zero, ns, j, 0)
      invariant j == 8 ==> LongInv(lens, table[..], slots, zero, ns, 9, Count(lens, 9))
    {
      assert ChainAt(Syms(lens, j), count[j], start[j], last[j], next[..]);
      ChainCount(Syms(lens, j), count[j], start[j], last[j], next[..]);
      assert Count(lens, j) == count[j];
      if count[j] != 0 {
        ok, nextSecondary, slots, zero := PlaceLongLength(lens, j, count[j], start[j], firstcode[j - 9], next, table,
                                                          nextSecondary, last[j], slots, zero);
        if !ok {
          return;
        }
      }
      ns := nextSecondary;
      if j > 9 { LongInvNext(lens, table[..], slots, zero, ns, j); }
      j := j - 1;
    }
    ok := true;
  }

  /** Build a decoding table from code lengths.
      A table that was built decodes every canonical codeword and takes all other bits for symbol 0,
      unless the lengths are over-subscribed; and over-subscribed lengths are refused unless symbol 0 has length 1.
      Lengths that fit are accepted exactly when there is room for their secondary tables. */
  method BuildTable(lens: Lengths, next: array<nat>, table: array<nat>) returns (ok: bool)
    requires |lens| <= MAX_CODES && next.Length == MAX_CODES && table.Length == TABLE_SIZE && table != next
    modifies next, table
    ensures ok ==> LengthsOk(lens)
    ensures ok && Fits(lens) ==> Decodes(lens, table[..]) && TakesZero(lens, table[..])
    ensures ok && |lens| > 0 && lens[0] != 1 ==> Fits(lens)
    ensures LengthsOk(lens) && Fits(lens) ==> (ok <==> Room(lens))
    ensures LengthsOk(lens) && AllShort(lens) ==> (ok <==> Trials(lens, 8).Some?)
  {
    hide CodeBits, Pow2, Fits, LongState, Syms, Shl, NextCode, ShortInv, ChainAt, Decodes, TakesZero, Room, Tally, Trials;
    var count, start, firstcode, code;
    ghost var last, slots, zero, ns;
    ok, count, start, last := CountLengths(lens, next);
    if !ok {
      return false;
    }
    ghost var counts, starts, nexts := count[..], start[..], next[..];
    forall i | 0 <= i < TABLE_SIZE {
      table[i] := 0;
    }
    assert count[..] == counts && start[..] == starts && next[..] == nexts;
    ok, code := PlaceShort(lens, count, start, next, table, last);
    if !ok {
      return false;
    }
    CountsOfChains(lens, count[..], start[..], last, next[..]);
    ok, firstcode := FirstCodes(lens, count, code);
    if !ok {
      return false;
    }
    ok, slots, zero, ns := PlaceLong(lens, count, start, firstcode, next, table, last);
    if ok {
      if Fits(lens) {
        LongStateDecodes(lens, table[..], slots, ns);
        LongStateTakesZero(lens, table[..], slots, ns);
        BuiltHadRoom(lens, table[..], slots, ns);
      }
      if |lens| > 0 && lens[0] != 1 { ZeroOnceFits(lens, table[..], zero); }
    }
  }

  /** The over-subscribed lengths 1, 1, 2 are accepted, and the table does not decode them. */
  method AcceptsOversubscribed(lens: Lengths) returns (ok: bool, table: array<nat>)
    requires lens == [1, 1, 2]
    ensures ok && !Decodes(lens, table[..])
  {
    hide Decodes, TakesZero, Fits, Room, Trials, AllShort;
    ExampleTrials(lens);
    ExampleCodes(lens);
    var next := new nat[MAX_CODES](_ => 0);
    table := new nat[TABLE_SIZE](_ => 0);
    ok := BuildTable(lens, next, table);
    if Decodes(lens, table[..]) { DecodesOnlyFits(lens, table[..]); }
  }

  lemma BuiltHadRoom(lens: Lengths, t: seq<nat>, slots: Slots, ns: nat)
    requires LongState(lens, t, slots, ns, 9, Count(lens, 9)) && Tally(lens, slots, ns, 9)
    ensures Room(lens)
  {
    hide AllHaveSlots, CellsOk, Tally, Room, ShortDone, RestFree;
    WasRoom(lens, slots, ns);
  }

  lemma CountsOfChains(lens: Lengths, count: seq<nat>, start: seq<nat>, last: seq<nat>, next: seq<nat>)
    requires Chained(lens, count, start, last, next)
    ensures forall L :: 0 <= L < 16 ==> count[L] == Count(lens, L)
  {
    hide Syms;
    forall L | 0 <= L < 16
      ensures count[L] == Count(lens, L)
    {
      assert ChainAt(Syms(lens, L), count[L], start[L], last[L], next);
    }
  }
}
