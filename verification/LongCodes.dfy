/** Second part of the table builder: codes of 9 to 15 bits, which go into secondary tables
    that the primary table points to. */
module LongCodes {
  import opened Bits
  import opened ReverseCode
  import opened Canonical
  import opened HuffmanTable
  import opened ShortCodes

  // ----- one symbol, whatever the lengths are -----

  /** t after making sure that the primary cell of the code points to a secondary table. */
  ghost function Opened(t: seq<nat>, ns: nat, j: nat, code: nat): (r: seq<nat>)
    requires |t| == TABLE_SIZE && j >= 8
    ensures |r| == TABLE_SIZE
  {
    if t[code % 256] == 0 then t[code % 256 := PtrEntry(ns, j - 8)] else t
  }

  ghost function NextSecondary(t: seq<nat>, ns: nat, j: nat, code: nat): nat
    requires |t| == TABLE_SIZE && j >= 8
  {
    if t[code % 256] == 0 then ns + Pow2(j - 8) else ns
  }

  /** The cells of the secondary table at e that end in the bits of the code past the first 8. */
  ghost predicate CodeRunClear(t: seq<nat>, e: nat, j: nat, code: nat)
    requires j >= 8
  {
    RunClear(t, 256 + Value(e), Pow2(Width(e)), code / 256, j - 8)
  }

  ghost predicate CodeRunFilled(t: seq<nat>, t': seq<nat>, e: nat, j: nat, code: nat, v: nat)
    requires j >= 8
  {
    RunFilled(t, t', 256 + Value(e), Pow2(Width(e)), code / 256, j - 8, v)
  }

  lemma SecondaryRoom(e: nat)
    ensures 256 + Value(e) + Pow2(Width(e)) <= TABLE_SIZE
  {
    Pow2Mono(Width(e), 7);
    Pow2Values();
  }

  lemma CodeTail(code: nat, j: nat)
    requires j >= 8 && code < Pow2(j)
    ensures code / 256 < Pow2(j - 8)
  {
    hide *;
    Low8(code);
    LowShr(code, 8, j - 8);
    SmallParts(code, j);
    LowBound(Shr(code, 8), j - 8);
  }

  /** The cached secondary table is the one the primary cell points to, and it is large enough. */
  predicate Cached(t: seq<nat>, j: nat, primary: nat, secondary: nat, sbits: nat)
    requires |t| == TABLE_SIZE
  {
    && primary < 256
    && IsPtr(t[primary]) && Value(t[primary]) == secondary && Width(t[primary]) == sbits && sbits >= j - 8
  }

  ghost predicate CanOpen(t: seq<nat>, ns: nat, j: nat, code: nat)
    requires |t| == TABLE_SIZE && j >= 8
  {
    var e := t[code % 256];
    && (e == 0 ==> ns < 512)
    && (e != 0 ==> IsPtr(e) && Width(e) >= j - 8)
  }

  /** Find or start the secondary table for a code; primary, secondary and sbits cache the
      one of the previous symbol. */
  method OpenSecondary(table: array<nat>, j: nat, code: nat, primary: nat, secondary: nat, sbits: nat, ns: nat)
    returns (ok: bool, secondary': nat, sbits': nat, ns': nat)
    requires 9 <= j <= 15 && table.Length == TABLE_SIZE
    requires primary == code % 256 ==> Cached(table[..], j, primary, secondary, sbits)
    modifies table
    ensures ok <==> CanOpen(old(table[..]), ns, j, code)
    ensures ok ==> ns' == NextSecondary(old(table[..]), ns, j, code)
    ensures ok ==> table[..] == Opened(old(table[..]), ns, j, code)
    ensures ok ==> Cached(table[..], j, code % 256, secondary', sbits')
  {
    hide Pow2, Value, Width;
    secondary', sbits', ns' := secondary, sbits, ns;
    if code % 256 != primary {
      var e := table[code % 256];
      if e == 0 {
        if ns % 512 != ns {
          return false, secondary', sbits', ns';
        }
        secondary' := ns;
        sbits' := j - 8;
        ns' := ns + Pow2(sbits');
        table[code % 256] := secondary' + (j - 8) * 512 + 4096;
        PtrFields(secondary', sbits');
      } else {
        if !IsPtr(e) {
          return false, secondary', sbits', ns';
        }
        secondary' := Value(e);
        sbits' := Width(e);
        if sbits' < j - 8 {
          return false, secondary', sbits', ns';
        }
      }
    }
    ok := true;
  }

  ghost predicate CanPlace(t: seq<nat>, ns: nat, j: nat, code: nat)
    requires |t| == TABLE_SIZE && j >= 8
  {
    && CanOpen(t, ns, j, code)
    && CodeRunClear(Opened(t, ns, j, code), Opened(t, ns, j, code)[code % 256], j, code)
  }

  /** t' is t with the code's symbol placed in its secondary table. */
  ghost predicate Placed(t: seq<nat>, ns: nat, j: nat, code: nat, v: nat, t': seq<nat>, ns': nat)
    requires |t| == TABLE_SIZE && j >= 8
  {
    && ns' == NextSecondary(t, ns, j, code)
    && CodeRunFilled(Opened(t, ns, j, code), t', Opened(t, ns, j, code)[code % 256], j, code, v)
  }

  /** Body of the second part's loop for one symbol. */
  method PlaceCode(table: array<nat>, j: nat, code: nat, v: nat, primary: nat, secondary: nat, sbits: nat, ns: nat)
    returns (ok: bool, secondary': nat, sbits': nat, ns': nat)
    requires 9 <= j <= 15 && code < Pow2(j) && table.Length == TABLE_SIZE
    requires primary == code % 256 ==> Cached(table[..], j, primary, secondary, sbits)
    modifies table
    ensures ok <==> CanPlace(old(table[..]), ns, j, code)
    ensures ok ==> Placed(old(table[..]), ns, j, code, v, table[..], ns')
    ensures ok ==> Cached(table[..], j, code % 256, secondary', sbits')
  {
    hide Pow2, Low, RunClear, Opened, NextSecondary, CanOpen, IsPtr, Value, Width;
    ok, secondary', sbits', ns' := OpenSecondary(table, j, code, primary, secondary, sbits, ns);
    if ok {
      SecondaryRoom(table[code % 256]);
      CodeTail(code, j);
      ok := FillRun(table, secondary' + 256, Pow2(sbits'), code / 256, j - 8, v);
    }
  }
}
