/** Reading one symbol, its extra bits and its copy the fast way, and the proof that each
    agrees with the bit-by-bit reference. */
module InflateSymbols {
  import opened Bits
  import opened Canonical
  import opened HuffmanTable
  import opened TableBuilder
  import opened BitStream
  import opened RefInflate

  /** Appending a stream bit to the code is extending the window by one bit. */
  lemma AppendBit(data: seq<Byte>, p: nat, n: nat)
    requires p + n + 1 <= 8 * |data|
    ensures 2 * Rev(n, Peek(data, p, n)) + Bit(data, p + n) == Rev(n + 1, Peek(data, p, n + 1))
  {
    hide Peek, Bit, Low, Shr;
    var y, b := Peek(data, p, n + 1), Bit(data, p + n);
    PeekLow(data, p, n + 1, n);
    PeekShr(data, p, n + 1, n);
    PeekOne(data, p + n);
    RevSplit(n + 1, n, y);
    assert Rev(1, b) == b by { assert Rev(0, b / 2) == 0; }
    assert Shl(Rev(n, Peek(data, p, n)), 1) == 2 * Shl(Rev(n, Peek(data, p, n)), 0);
  }

  lemma PeekOne(data: seq<Byte>, p: nat)
    requires p + 1 <= 8 * |data|
    ensures Peek(data, p, 1) == Bit(data, p)
  {
    assert Peek(data, p + 1, 0) == 0;
  }

  /** A symbol read bit by bit is one whose codeword the window starts with. */
  lemma {:induction false} ReadSymSound(lens: Lengths, data: seq<Byte>, end: nat, p: nat, n: nat)
    requires end <= |data| && n <= MAXBITS && p + MAXBITS <= 8 * end
    ensures var r := ReadSym(lens, data, end, p + n, n, Rev(n, Peek(data, p, n)));
            && !r.NoInput?
            && (r.Found? ==> r.sym < |lens| && 1 <= lens[r.sym] <= MAXBITS && r.pos == p + lens[r.sym]
                             && Peek(data, p, lens[r.sym]) == Rev(lens[r.sym], CanonCode(lens, r.sym)))
    decreases MAXBITS - n
  {
    hide Peek, Rev, Bit, CanonCode, Pow2;
    var code := Rev(n, Peek(data, p, n));
    RevRev(n, Peek(data, p, n));
    if !(exists s: nat :: IsSymbol(lens, s, n, code)) && n < MAXBITS {
      AppendBit(data, p, n);
      ReadSymSound(lens, data, end, p, n + 1);
    }
  }

  /** The table gives the symbol that the reference reads. */
  lemma LookupAgrees(lens: Lengths, t: seq<nat>, data: seq<Byte>, end: nat, p: nat, bits: nat)
    requires Decodes(lens, t) && end <= |data| && 15 <= bits && p + bits <= 8 * end
    ensures var r := Sym(lens, data, end, p);
            r.NoCode? || (r.Found? && Lookup(t, Peek(data, p, bits)) == Decoded(r.sym, r.pos - p))
  {
    hide Peek, Rev, ReadSym, CanonCode, Lookup, Low;
    EmptyWindow(data, p);
    ReadSymSound(lens, data, end, p, 0);
    var r := Sym(lens, data, end, p);
    if r.Found? {
      PeekLow(data, p, bits, lens[r.sym]);
      assert StartsWith(lens, Peek(data, p, bits), r.sym);
    }
  }

  lemma EmptyWindow(data: seq<Byte>, p: nat)
    requires p <= 8 * |data|
    ensures Rev(0, Peek(data, p, 0)) == 0
  {
  }

  // ----- bits that start no codeword -----

  /** One step of the reference reader. */
  lemma ReadSymOne(lens: Lengths, data: seq<Byte>, end: nat, p: nat, n: nat, code: nat)
    requires end <= |data| && n <= MAXBITS
    ensures (exists s: nat :: IsSymbol(lens, s, n, code)) ==> ReadSym(lens, data, end, p, n, code).Found?
    ensures !(exists s: nat :: IsSymbol(lens, s, n, code)) && n < MAXBITS && p < 8 * end ==>
              ReadSym(lens, data, end, p, n, code) == ReadSym(lens, data, end, p + 1, n + 1, 2 * code + Bit(data, p))
  {
    hide Bit, IsSymbol;
  }

  lemma {:induction false} ReadSymFinds(lens: Lengths, data: seq<Byte>, end: nat, p: nat, n: nat, s: nat)
    requires end <= |data| && p + MAXBITS <= 8 * end && s < |lens| && n <= lens[s] <= MAXBITS && lens[s] >= 1
    requires CanonCode(lens, s) == Rev(lens[s], Peek(data, p, lens[s]))
    ensures ReadSym(lens, data, end, p + n, n, Rev(n, Peek(data, p, n))).Found?
    decreases MAXBITS - n
  {
    hide Peek, Rev, Bit, CanonCode, Pow2, ReadSym;
    var code := Rev(n, Peek(data, p, n));
    ReadSymOne(lens, data, end, p + n, n, code);
    if n == lens[s] {
      assert IsSymbol(lens, s, n, code);
    } else if !(exists s': nat :: IsSymbol(lens, s', n, code)) {
      AppendBit(data, p, n);
      ReadSymFinds(lens, data, end, p, n + 1, s);
    }
  }

  /** With a complete code every window decodes, so the inflater never departs for want of a code. */
  lemma CompleteAlwaysReads(lens: Lengths, data: seq<Byte>, end: nat, p: nat)
    requires Fits(lens) && Complete(lens) && end <= |data| && p + MAXBITS <= 8 * end
    ensures Sym(lens, data, end, p).Found?
  {
    hide Peek, Rev, ReadSym, CanonCode, Fits, Complete, Low, Syms, Pow2;
    var w := Peek(data, p, MAXBITS);
    WholeSpace(lens, w);
    var L, k := OwnerCode(lens, w, MAXBITS);
    RankSymbol(lens, L, k);
    CodeBelow(lens, L, k);
    PeekLow(data, p, MAXBITS, L);
    RevRev(L, CanonCode(lens, Syms(lens, L)[k]));
    EmptyWindow(data, p);
    ReadSymFinds(lens, data, end, p, 0, Syms(lens, L)[k]);
  }

  lemma WholeSpace(lens: Lengths, w: nat)
    requires Complete(lens)
    ensures Rev(MAXBITS, w) < Space(lens, MAXBITS)
  {}

  /** The reference reader gives up on a code only after 15 bits. */
  lemma {:induction false} NoCodeHasBits(lens: Lengths, data: seq<Byte>, end: nat, p: nat, n: nat, code: nat)
    requires end <= |data| && n <= MAXBITS && p <= 8 * end && ReadSym(lens, data, end, p, n, code).NoCode?
    ensures p + (MAXBITS - n) <= 8 * end
    decreases MAXBITS - n
  {
    hide Bit, IsSymbol;
    if n < MAXBITS && !(exists s: nat :: IsSymbol(lens, s, n, code)) && p < 8 * end {
      NoCodeHasBits(lens, data, end, p + 1, n + 1, 2 * code + Bit(data, p));
    }
  }

  /** So with a complete code it never does. */
  lemma CompleteNeverFails(lens: Lengths, data: seq<Byte>, end: nat, p: nat)
    requires Fits(lens) && Complete(lens) && end <= |data| && p <= 8 * end
    ensures !Sym(lens, data, end, p).NoCode?
  {
    hide ReadSym, Fits, Complete;
    if Sym(lens, data, end, p).NoCode? {
      NoCodeHasBits(lens, data, end, p, 0, 0);
      CompleteAlwaysReads(lens, data, end, p);
    }
  }

  /** A compressed block with complete codes is accepted or rejected; the inflater cannot depart from the
      standard in it. */
  lemma {:induction false} CompleteNeverDeparts(lit: Lengths, dist: Lengths, data: seq<Byte>, end: nat, p: nat, out: seq<Byte>)
    requires Fits(lit) && Complete(lit) && Fits(dist) && Complete(dist) && end <= |data| && p <= 8 * end
    ensures !Block(lit, dist, data, end, p, out).Departs?
    decreases 8 * end - p
  {
    hide Sym, Fits, Complete, Copy;
    CompleteNeverFails(lit, data, end, p);
    match Sym(lit, data, end, p)
    case NoInput =>
    case Found(s, p1) =>
      if s < 256 {
        CompleteNeverDeparts(lit, dist, data, end, p1, out + [s]);
      } else if s > 256 {
        var m := LzMatch(dist, data, end, p1, out, s);
        CompleteMatch(dist, data, end, p1, out, s);
        if m.Accept? { CompleteNeverDeparts(lit, dist, data, end, m.pos, m.out); }
      }
  }

  lemma CompleteMatch(dist: Lengths, data: seq<Byte>, end: nat, p: nat, out: seq<Byte>, s: nat)
    requires Fits(dist) && Complete(dist) && end <= |data| && p <= 8 * end && s > 256
    ensures !LzMatch(dist, data, end, p, out, s).Departs?
  {
    hide Fits, Complete, BackReference;
    if s <= 285 {
      match Extra(data, end, p, LENGTH_BASE[s - 257], LENGTH_EXTRA[s - 257])
      case Short =>
      case Number(len, p1) => CompleteReference(dist, data, end, p1, out, len);
    }
  }

  lemma CompleteReference(dist: Lengths, data: seq<Byte>, end: nat, p: nat, out: seq<Byte>, len: nat)
    requires Fits(dist) && Complete(dist) && end <= |data| && p <= 8 * end
    ensures !BackReference(dist, data, end, p, out, len).Departs?
  {
    hide Sym, Fits, Complete, Copy;
    CompleteNeverFails(dist, data, end, p);
  }

  /** Bits that the reference reader finds no code in start with no codeword. */
  lemma NoCodeUnassigned(lens: Lengths, data: seq<Byte>, end: nat, p: nat, bits: nat)
    requires Fits(lens) && LengthsOk(lens) && end <= |data| && 15 <= bits && p + bits <= 8 * end
    requires Sym(lens, data, end, p).NoCode?
    ensures !Assigned(lens, Peek(data, p, bits))
  {
    hide Peek, Sym, StartsWith, Fits, LengthsOk;
    var w := Peek(data, p, bits);
    if s: nat :| s < |lens| && lens[s] >= 1 && StartsWith(lens, w, s) {
      AssignedIsRead(lens, data, end, p, bits, s);
    }
  }

  lemma AssignedIsRead(lens: Lengths, data: seq<Byte>, end: nat, p: nat, bits: nat, s: nat)
    requires Fits(lens) && LengthsOk(lens) && end <= |data| && 15 <= bits && p + bits <= 8 * end
    requires s < |lens| && lens[s] >= 1 && StartsWith(lens, Peek(data, p, bits), s)
    ensures Sym(lens, data, end, p).Found?
  {
    hide Peek, Rev, ReadSym, CanonCode, Low, Pow2, Fits;
    PeekLow(data, p, bits, lens[s]);
    SymbolBelow(lens, s);
    RevRev(lens[s], CanonCode(lens, s));
    EmptyWindow(data, p);
    ReadSymFinds(lens, data, end, p, 0, s);
  }

  lemma SymbolBelow(lens: Lengths, s: nat)
    requires Fits(lens) && LengthsOk(lens) && s < |lens| && lens[s] >= 1
    ensures CanonCode(lens, s) < Pow2(lens[s])
  {
    hide Syms, NextCode, Fits;
    SymbolRank(lens, s);
    CodeBelow(lens, lens[s], Count(lens[..s], lens[s]));
  }

  lemma LookupShortEnough(t: seq<nat>, w: nat)
    requires |t| == TABLE_SIZE
    ensures 1 <= Lookup(t, w).len <= MAXBITS
  {
    hide Low;
  }

  /** What the fast reader may claim about a symbol: the reference reads it too, or reads no code. */
  ghost predicate SymAgrees(lens: Lengths, data: seq<Byte>, end: nat, p: nat, sym: nat, p': nat)
    requires end <= |data|
  {
    Sym(lens, data, end, p).NoCode? || Sym(lens, data, end, p) == Found(sym, p')
  }

  /** Decode one symbol through the primary and secondary tables. */
  method DecodeSym(r: Reservoir, t: array<nat>, ghost lens: Lengths) returns (sym: nat)
    requires r.Valid() && r.bits >= 15 && t.Length == TABLE_SIZE
    modifies r`val, r`bits
    ensures r.Valid() && old(r.Pos()) < r.Pos() <= old(r.Pos()) + 15
    ensures r.Pos() == old(r.Pos()) + old(r.bits) - r.bits
    ensures !IsPtr(old(t[r.val % 256])) ==> r.Pos() <= old(r.Pos()) + 8
    ensures Decodes(lens, t[..]) && r.pin <= r.end ==> SymAgrees(lens, r.data, r.end, old(r.Pos()), sym, r.Pos())
    ensures LengthsOk(lens) && Fits(lens) && TakesZero(lens, t[..]) && r.pin <= r.end && Sym(lens, r.data, r.end, old(r.Pos())).NoCode? ==>
              sym == 0 && r.bits == old(r.bits) - BlankLength(lens, old(r.val))
  {
    hide Peek, Sym, Decodes, Pow2, TakesZero, Assigned, BlankLength, Fits, LengthsOk;
    LookupShortEnough(t[..], r.val);
    if LengthsOk(lens) && Fits(lens) && TakesZero(lens, t[..]) && r.pin <= r.end && Sym(lens, r.data, r.end, r.Pos()).NoCode? {
      NoCodeUnassigned(lens, r.data, r.end, r.Pos(), r.bits);
      BlankLookup(lens, t[..], r.val);
    }
    if Decodes(lens, t[..]) && r.pin <= r.end {
      LookupAgrees(lens, t[..], r.data, r.end, r.Pos(), r.bits);
    }
    var e := t[r.val % 256];
    var b, v := Width(e), Value(e);
    if !IsPtr(e) {
      sym := v;
      var _ := r.Take(b + 1);
    } else {
      SecondaryIndex(e, r.val / 256);
      e := t[v + 256 + Low(r.val / 256, b)];
      b := Width(e);
      sym := Value(e);
      var _ := r.Take(b + 8);
    }
  }

  lemma SecondaryIndex(e: nat, w: nat)
    ensures Value(e) + 256 + Low(w, Width(e)) < TABLE_SIZE
  {
    LowBound(w, Width(e));
    Pow2Mono(Width(e), 7);
    Pow2Values();
  }

  // ----- closed forms for the tables of section 3.2.5 -----

  function LengthExtra(lit: nat): nat
    requires 265 <= lit < 285
  {
    (lit - 265) / 4 + 1
  }

  function LengthBase(lit: nat): int
    requires 265 <= lit < 285
  {
    var extra := LengthExtra(lit);
    Shl((lit - 265) % 4, extra) + 11 + 8 * (Pow2(extra - 1) - 1)
  }

  lemma LengthForms(lit: nat)
    requires 265 <= lit < 285
    ensures LengthExtra(lit) == LENGTH_EXTRA[lit - 257] && LengthBase(lit) == LENGTH_BASE[lit - 257]
  {
    var e := LengthExtra(lit);
    ShlSmall((lit - 265) % 4, e);
    if e == 1 { assert Pow2(0) == 1; }
    else if e == 2 { assert Pow2(1) == 2; }
    else if e == 3 { assert Pow2(2) == 4; }
    else if e == 4 { assert Pow2(3) == 8; }
    else { assert Pow2(4) == 16; }
  }

  /** Multiples of a power of two, spelled out for the few values that occur. */
  lemma ShlSmall(x: nat, n: nat)
    requires x < 4 && n >= 1
    ensures Shl(x, n) == if x == 0 then 0 else if x == 1 then Pow2(n) else if x == 2 then 2 * Pow2(n) else 3 * Pow2(n)
  {
    hide Shl, Pow2;
    ShlZero(n);
    ShlBit(1, n);
    ShlAdd(1, 1, n);
    ShlAdd(1, 2, n);
  }

  function DistExtra(d: nat): nat
    requires 4 <= d < 30
  {
    (d - 4) / 2 + 1
  }

  function DistBase(d: nat): int
    requires 4 <= d < 30
  {
    var extra := DistExtra(d);
    Shl((d - 4) % 2, extra) + 5 + 4 * (Pow2(extra - 1) - 1)
  }

  lemma DistForms(d: nat)
    requires 4 <= d < 30
    ensures DistExtra(d) == DIST_EXTRA[d] && DistBase(d) == DIST_BASE[d]
  {
    var e := DistExtra(d);
    ShlBit((d - 4) % 2, e);
    assert Pow2(4) == 16 && Pow2(8) == 256 && Pow2(12) == 4096;
    assert Pow2(2) == 4 && Pow2(6) == 64 && Pow2(10) == 1024;
    assert Pow2(1) == 2 && Pow2(3) == 8 && Pow2(5) == 32 && Pow2(7) == 128 && Pow2(9) == 512 && Pow2(11) == 2048 && Pow2(13) == 8192;
    if e < 7 {
      if e == 1 {} else if e == 2 {} else if e == 3 {} else if e == 4 {} else if e == 5 {} else {}
    } else {
      if e == 7 {} else if e == 8 {} else if e == 9 {} else if e == 10 {} else if e == 11 {} else if e == 12 {} else {}
    }
  }

  // ----- the copy -----

  lemma {:induction false} CopySplit(out: seq<Byte>, dist: nat, a: nat, b: nat)
    requires 1 <= dist <= |out|
    ensures Copy(out, dist, a + b) == Copy(Copy(out, dist, a), dist, b)
    decreases a
  {
    if a > 0 { CopySplit(out + [out[|out| - dist]], dist, a - 1, b); }
  }

  lemma CopyNone(out: seq<Byte>, dist: nat)
    requires 1 <= dist <= |out|
    ensures Copy(out, dist, 0) == out
  {
  }

  /** Up to dist bytes can be copied at once. */
  lemma {:induction false} CopyChunk(out: seq<Byte>, dist: nat, n: nat)
    requires n <= dist && 1 <= dist <= |out|
    ensures Copy(out, dist, n) == out + out[|out| - dist..|out| - dist + n]
    decreases n
  {
    if n > 0 {
      CopySplit(out, dist, n - 1, 1);
      CopyChunk(out, dist, n - 1);
      var c := Copy(out, dist, n - 1);
      assert c[|c| - dist] == out[|out| - dist + n - 1];
      assert Copy(c, dist, 1) == Copy(c + [c[|c| - dist]], dist, 0);
    } else {
      assert out[|out| - dist..|out| - dist] == [];
    }
  }

  /** A distance of one repeats the last byte. */
  lemma {:induction false} CopyLast(out: seq<Byte>, n: nat)
    requires |out| >= 1
    ensures Copy(out, 1, n) == out + seq(n, _ => out[|out| - 1])
    decreases n
  {
    if n > 0 {
      CopyLast(out + [out[|out| - 1]], n - 1);
    }
  }

  /** One non-overlapping memcpy of the match. */
  method CopySome(out: array<Byte>, pout: nat, dist: nat, n: nat)
    requires 1 <= dist <= pout && n <= dist && pout + n <= out.Length
    modifies out
    ensures out[..pout + n] == Copy(old(out[..pout]), dist, n)
  {
    hide Copy;
    ghost var cur := out[..pout];
    CopyChunk(cur, dist, n);
    assert cur[pout - dist..pout - dist + n] == out[pout - dist..pout - dist + n];
    MemCopy(out, pout, pout - dist, n);
  }

  /** Copy len bytes from dist back, in chunks that never overlap. */
  method CopyMatch(out: array<Byte>, pout: nat, dist: nat, len: nat)
    requires 1 <= dist <= pout && pout + len <= out.Length
    modifies out
    ensures out[..pout + len] == Copy(old(out[..pout]), dist, len)
  {
    hide Copy;
    CopyNone(out[..pout], dist);
    if dist >= len {
      CopySome(out, pout, dist, len);
    } else {
      var done := 0;
      while done < len
        invariant 0 <= done <= len
        invariant out[..pout + done] == Copy(old(out[..pout]), dist, done)
      {
        var n := if len - done < dist then len - done else dist;
        CopySplit(old(out[..pout]), dist, done, n);
        CopySome(out, pout + done, dist, n);
        done := done + n;
      }
    }
  }

  /** memcpy between disjoint parts of the output. */
  method MemCopy(out: array<Byte>, dst: nat, src: nat, n: nat)
    requires src + n <= dst && dst + n <= out.Length
    modifies out
    ensures out[..dst + n] == old(out[..dst]) + old(out[src..src + n])
  {
    forall i | 0 <= i < n {
      out[dst + i] := out[src + i];
    }
  }

  /** memset of the last byte, for a distance of one. */
  method RepeatLast(out: array<Byte>, pout: nat, len: nat)
    requires 1 <= pout && pout + len <= out.Length
    modifies out
    ensures out[..pout + len] == Copy(old(out[..pout]), 1, len)
  {
    CopyLast(out[..pout], len);
    var b := out[pout - 1];
    forall i | 0 <= i < len {
      out[pout + i] := b;
    }
    assert out[..pout + len] == old(out[..pout]) + seq(len, _ => b);
  }
}
