/** The main loop of the inflater on one compressed block. */
module InflateBlock {
  import opened Bits
  import opened Canonical
  import opened HuffmanTable
  import opened TableBuilder
  import opened BitStream
  import opened RefInflate
  import opened InflateSymbols

  /** The fast result is the reference result, unless the reference says the inflater departs; and not by
      refusing. */
  ghost predicate Agrees(ref: Ref, pos: nat, out: seq<Byte>)
  {
    (ref.Departs? && ref.why != CrowdedTables) || (ref.Accept? && ref.pos == pos && ref.out == out)
  }

  /** What the reference accepts is refused exactly when the output is too small or the last code begins
      too close to the end of the input. */
  ghost predicate Fair(ref: Ref, ok: bool, limit: int, size: nat)
  {
    ref.Accept? ==> (ok <==> |ref.out| <= size && ref.last <= limit)
  }

  ghost predicate NumberAgrees(data: seq<Byte>, end: nat, p: nat, base: nat, extra: nat, v: nat, p': nat)
    requires end <= |data|
  {
    Extra(data, end, p, base, extra) == Number(v, p')
  }

  /** Convert a length symbol into a length, reading its extra bits. */
  method ReadLength(r: Reservoir, lit: nat) returns (ok: bool, len: nat)
    requires r.Valid() && 257 <= lit
    modifies r
    ensures r.Valid() && r.Pos() >= old(r.Pos()) && InStep(old(r.pin), r.pin, r.end)
    ensures ok ==> lit <= 285
    ensures !ok && lit <= 285 && old(r.pin) <= r.end ==> LimitOf(old(r.pin), r.end) < old(r.Pos())
    ensures ok && r.pin <= r.end ==>
              NumberAgrees(r.data, r.end, old(r.Pos()), LENGTH_BASE[lit - 257], LENGTH_EXTRA[lit - 257], len, r.Pos())
  {
    hide Peek, Pow2, Shl, LimitOf;
    len := 0;
    if lit < 265 {
      PeekNothing(r.data, r.Pos());
      len := lit - 257 + 3;
    } else if lit == 285 {
      PeekNothing(r.data, r.Pos());
      len := 258;
    } else if lit > 285 {
      return false, 0;
    } else {
      LengthForms(lit);
      ok := r.Fetch();
      if !ok {
        return false, 0;
      }
      var x := r.Take(LengthExtra(lit));
      len := LengthBase(lit) + x;
    }
    ok := true;
  }

  /** Convert a distance symbol into a distance, reading its extra bits. */
  method ReadDistance(r: Reservoir, d: nat) returns (ok: bool, dist: nat)
    requires r.Valid() && d <= 29
    modifies r
    ensures r.Valid() && r.Pos() >= old(r.Pos()) && InStep(old(r.pin), r.pin, r.end)
    ensures ok ==> dist >= 1
    ensures old(r.pin) <= r.end ==> (ok <==> d < 4 || old(r.Pos()) <= LimitOf(old(r.pin), r.end))
    ensures ok && r.pin <= r.end ==> NumberAgrees(r.data, r.end, old(r.Pos()), DIST_BASE[d], DIST_EXTRA[d], dist, r.Pos())
  {
    hide Peek, Pow2, Shl, LimitOf;
    dist := d + 1;
    if d < 4 {
      PeekNothing(r.data, r.Pos());
    } else {
      DistForms(d);
      ok := r.Fetch();
      if !ok {
        return false, 0;
      }
      var x := r.Take(DistExtra(d));
      dist := DistBase(d) + x;
    }
    ok := true;
  }

  /** Distance symbol, distance and copy. */
  method InflateMatch(r: Reservoir, tdist: array<nat>, out: array<Byte>, pout: nat, len: nat, ghost dist: Lengths)
    returns (ok: bool, pout': nat)
    requires r.Valid() && tdist.Length == TABLE_SIZE && pout <= out.Length
    modifies r, out
    ensures r.Valid() && r.Pos() >= old(r.Pos()) && InStep(old(r.pin), r.pin, r.end)
    ensures ok ==> pout' <= out.Length
    ensures ok && Decodes(dist, old(tdist[..])) && old(r.pin) <= r.end ==>
              Agrees(BackReference(dist, r.data, r.end, old(r.Pos()), old(out[..pout]), len), r.Pos(), out[..pout'])
    ensures Decodes(dist, old(tdist[..])) && old(r.pin) <= r.end ==>
              Fair(BackReference(dist, r.data, r.end, old(r.Pos()), old(out[..pout]), len), ok, LimitOf(old(r.pin), r.end), out.Length)
  {
    hide Peek, Pow2, Sym, Decodes, Copy, LimitOf;
    pout' := pout;
    ok := r.Fetch();
    if !ok {
      return;
    }
    ghost var p0 := r.Pos();
    var d := DecodeSym(r, tdist, dist);
    ghost var p1 := r.Pos();
    if d == 0 {
      if pout == 0 || out.Length - pout < len {
        return false, pout;
      }
      PeekNothing(r.data, p1);
      RepeatLast(out, pout, len);
    } else if d > 29 {
      return false, pout;
    } else {
      var distance;
      ok, distance := ReadDistance(r, d);
      if !ok || pout < distance || out.Length - pout < len {
        return false, pout;
      }
      CopyMatch(out, pout, distance, len);
    }
    pout' := pout + len;
  }

  /** One step of the reference: where the block continues, or its final result. */
  ghost predicate StepAgrees(before: Ref, done: bool, after: Ref, pos: nat, out: seq<Byte>)
  {
    || (before.Departs? && before.why != CrowdedTables)
    || (if done then before.Accept? && before.pos == pos && before.out == out else before == after)
  }

  /** Length, distance and copy for a symbol above 256. */
  method InflateCopy(r: Reservoir, s: nat, tdist: array<nat>, out: array<Byte>, pout: nat, ghost dist: Lengths)
    returns (ok: bool, pout': nat)
    requires r.Valid() && s > 256 && tdist.Length == TABLE_SIZE && pout <= out.Length
    modifies r, out
    ensures r.Valid() && r.Pos() >= old(r.Pos()) && InStep(old(r.pin), r.pin, r.end)
    ensures ok ==> pout' <= out.Length
    ensures ok && Decodes(dist, old(tdist[..])) && old(r.pin) <= r.end ==>
              Agrees(LzMatch(dist, r.data, r.end, old(r.Pos()), old(out[..pout]), s), r.Pos(), out[..pout'])
    ensures Decodes(dist, old(tdist[..])) && old(r.pin) <= r.end ==>
              Fair(LzMatch(dist, r.data, r.end, old(r.Pos()), old(out[..pout]), s), ok, LimitOf(old(r.pin), r.end), out.Length)
  {
    hide Peek, Pow2, Decodes, BackReference, LimitOf;
    pout' := pout;
    var len;
    ok, len := ReadLength(r, s);
    if !ok {
      return;
    }
    ok, pout' := InflateMatch(r, tdist, out, pout, len, dist);
  }

  /** Body of the main loop: one literal, one match, or the end of the block. */
  method InflateOne(r: Reservoir, tlit: array<nat>, tdist: array<nat>, out: array<Byte>, pout: nat,
                    ghost lit: Lengths, ghost dist: Lengths)
    returns (ok: bool, done: bool, pout': nat)
    requires r.Valid() && tlit.Length == TABLE_SIZE && tdist.Length == TABLE_SIZE && pout <= out.Length
    modifies r, out
    ensures r.Valid() && InStep(old(r.pin), r.pin, r.end)
    ensures ok ==> r.Pos() > old(r.Pos()) && pout' <= out.Length
    ensures ok && Decodes(lit, old(tlit[..])) && Decodes(dist, old(tdist[..])) && old(r.pin) <= r.end ==>
              StepAgrees(Block(lit, dist, r.data, r.end, old(r.Pos()), old(out[..pout])), done,
                         Block(lit, dist, r.data, r.end, r.Pos(), out[..pout']), r.Pos(), out[..pout'])
    ensures (!ok || done) && Decodes(lit, old(tlit[..])) && Decodes(dist, old(tdist[..])) && old(r.pin) <= r.end ==>
              Fair(Block(lit, dist, r.data, r.end, old(r.Pos()), old(out[..pout])), ok, LimitOf(old(r.pin), r.end), out.Length)
    ensures old(r.bits) >= 15 && pout < out.Length && old(r.pin) <= r.end && LengthsOk(lit) && Fits(lit) && TakesZero(lit, old(tlit[..]))
            && Sym(lit, r.data, r.end, old(r.Pos())).NoCode? ==>
              && ok && !done && pout' == pout + 1 && out[..pout'] == old(out[..pout]) + [0]
              && r.Pos() == old(r.Pos()) + BlankLength(lit, old(r.val)) && r.bits == old(r.bits) - BlankLength(lit, old(r.val))
    ensures old(r.bits) >= 15 && old(r.pin) <= r.end && Decodes(lit, old(tlit[..]))
            && Sym(lit, r.data, r.end, old(r.Pos())).Found? && Sym(lit, r.data, r.end, old(r.Pos())).sym == 256 ==>
              ok && done && pout' == pout && out[..] == old(out[..])
  {
    hide Peek, Pow2, Sym, Decodes, LzMatch, TakesZero, BlankLength, Fits, LengthsOk, LimitOf;
    done, pout' := false, pout;
    ok := r.Fetch();
    if !ok {
      return;
    }
    var s := DecodeSym(r, tlit, lit);
    if s < 256 {
      if pout == out.Length {
        return false, false, pout;
      }
      ghost var orig := out[..pout];
      out[pout] := s;
      assert out[..pout + 1] == orig + [s];
      pout' := pout + 1;
    } else if s == 256 {
      done := true;
    } else {
      ok, pout' := InflateCopy(r, s, tdist, out, pout, dist);
    }
  }

  /** Inflate values until the end of the block. */
  method InflateCodes(r: Reservoir, tlit: array<nat>, tdist: array<nat>, out: array<Byte>, pout0: nat,
                      ghost lit: Lengths, ghost dist: Lengths)
    returns (ok: bool, pout: nat)
    requires r.Valid() && tlit.Length == TABLE_SIZE && tdist.Length == TABLE_SIZE && pout0 <= out.Length
    modifies r, out
    ensures r.Valid() && InStep(old(r.pin), r.pin, r.end)
    ensures ok ==> r.Pos() > old(r.Pos()) && pout <= out.Length
    ensures ok && Decodes(lit, old(tlit[..])) && Decodes(dist, old(tdist[..])) && old(r.pin) <= r.end ==>
              Agrees(Block(lit, dist, r.data, r.end, old(r.Pos()), old(out[..pout0])), r.Pos(), out[..pout])
    ensures Decodes(lit, old(tlit[..])) && Decodes(dist, old(tdist[..])) && old(r.pin) <= r.end ==>
              Fair(Block(lit, dist, r.data, r.end, old(r.Pos()), old(out[..pout0])), ok, LimitOf(old(r.pin), r.end), out.Length)
  {
    hide Peek, Pow2, Block, Decodes, LimitOf;
    pout := pout0;
    ghost var good := Decodes(lit, tlit[..]) && Decodes(dist, tdist[..]) && r.pin <= r.end;
    ghost var ref := if good then Block(lit, dist, r.data, r.end, r.Pos(), out[..pout]) else Reject;
    while true
      invariant r.Valid() && pout <= out.Length && r.Pos() >= old(r.Pos())
      invariant InStep(old(r.pin), r.pin, r.end)
      invariant good ==> (ref.Departs? && ref.why != CrowdedTables) || ref == Block(lit, dist, r.data, r.end, r.Pos(), out[..pout])
      decreases 8 * r.end + 24 - r.Pos()
    {
      var done;
      ok, done, pout := InflateOne(r, tlit, tdist, out, pout, lit, dist);
      if !ok || done {
        return;
      }
    }
  }
}
