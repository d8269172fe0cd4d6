/** The line number program of section 6.2.5 of DWARF 4: what each opcode does, the loop over
    the program, and an encoder whose output the loop reads back. */
module LineProgram {
  import opened Options
  import opened Bits
  import opened BitStream
  import opened DwarfReader
  import opened Quicksort
  import opened LineTable
  import opened Modular

  /** The parts of the header that the program depends on.  Files are identities; `dirs` is the
      number of include directories. */
  datatype Header = Header(minInsn: Byte, maxOps: Byte, lineBase: int, lineRange: Byte, opcodeBase: Byte,
                           opcodeLengths: seq<Byte>, files: seq<int>, dirs: nat, addrSize: nat, bigEndian: bool)

  /** The divisors are not zero, and there is a length for every standard opcode. */
  predicate HeaderOk(h: Header)
  {
    h.maxOps > 0 && h.lineRange > 0 && h.opcodeBase > 0 && |h.opcodeLengths| == h.opcodeBase - 1
  }

  /** The registers of the line number state machine. */
  datatype Regs = Regs(address: nat, opIndex: nat, file: int, line: int)

  const EMPTY_NAME: int := 0

  function Start(h: Header): Regs
  {
    Regs(0, 0, if |h.files| > 0 then h.files[0] else EMPTY_NAME, 1)
  }

  /** Conversion to int. */
  function ToInt(v: int): int
  {
    (v + 0x8000_0000) % 0x1_0000_0000 - 0x8000_0000
  }

  /** It keeps the low 32 bits. */
  lemma ToIntWraps(v: int)
    ensures -0x8000_0000 <= ToInt(v) < 0x8000_0000 && (v - ToInt(v)) % 0x1_0000_0000 == 0
  {}

  /** Operation advance, in 64 bits; the product is formed before the division. */
  function AdvanceBy(h: Header, r: Regs, adv: nat): Regs
    requires HeaderOk(h)
  {
    var k := (r.opIndex + adv) % W;
    r.(address := (r.address + h.minInsn * k % W / h.maxOps) % W, opIndex := k % h.maxOps)
  }

  /** Section 6.2.5.1 divides before it multiplies. */
  function StandardAdvance(h: Header, r: Regs, adv: nat): Regs
    requires HeaderOk(h)
  {
    var k := r.opIndex + adv;
    r.(address := (r.address + h.minInsn * (k / h.maxOps)) % W, opIndex := k % h.maxOps)
  }

  /** The code finds the standard's address exactly when the operations left over do not add up to
      another whole address unit and the product overflows 64 bits a multiple of max_ops times, if at
      all. */
  lemma AdvanceIsStandard(h: Header, r: Regs, adv: nat)
    requires HeaderOk(h)
    ensures var k := r.opIndex + adv;
            && (AdvanceBy(h, r, adv).address == StandardAdvance(h, r, adv).address <==>
                h.minInsn * k / W % h.maxOps == 0 && h.minInsn * (k % h.maxOps) < h.maxOps)
            && (k < W ==> AdvanceBy(h, r, adv).opIndex == StandardAdvance(h, r, adv).opIndex)
  {
    hide AdvanceBy, StandardAdvance;
    var m, n, k := h.minInsn, h.maxOps, r.opIndex + adv;
    AdvanceFields(h, r, adv);
    DivMod(k, n);
    ProductParts(m, k / n, n, k % n);
    LeftSmall(m, k % n, n);
    AdvanceAgrees(r.address, n, m * k, m * (k / n), m * (k % n));
  }

  /** The registers after the advance, without the wrap of the sum. */
  lemma AdvanceFields(h: Header, r: Regs, adv: nat)
    requires HeaderOk(h)
    ensures var k := r.opIndex + adv;
            && AdvanceBy(h, r, adv).address == (r.address + h.minInsn * k % W / h.maxOps) % W
            && StandardAdvance(h, r, adv).address == (r.address + h.minInsn * (k / h.maxOps)) % W
            && (k < W ==> AdvanceBy(h, r, adv).opIndex == StandardAdvance(h, r, adv).opIndex)
  {
    WrappedProduct(h.minInsn, r.opIndex + adv);
    if r.opIndex + adv < W { SmallMod(r.opIndex + adv, W); }
  }

  lemma AdvanceAgrees(a: nat, n: nat, product: nat, q: nat, left: nat)
    requires 0 < n < 256 && left < 65536 && product == n * q + left
    ensures (a + product % W / n) % W == (a + q) % W <==> product / W % n == 0 && left < n
  {
    var low := product % W;
    DivMod(low, n);
    AdvanceCore(n, q, left, product / W, low / n, low % n);
    SumsAgree(a, low / n, q);
  }

  lemma WrappedProduct(m: nat, k: nat)
    ensures m * (k % W) % W == m * k % W
  {
    var z := k / W;
    assert k == W * z + k % W;
    assert m * k == m * (k % W) + W * (m * z) by { ProductParts(m, z, W, k % W); }
    MulMod(m * z, W);
    SumMultiple(m * (k % W), W * (m * z), W);
  }

  lemma ProductParts(m: nat, q: nat, n: nat, left: nat)
    ensures m * (n * q + left) == n * (m * q) + m * left
  {}

  lemma LeftSmall(m: nat, left: nat, n: nat)
    requires m < 256 && left < n < 256
    ensures 0 <= m * left < 65536
  {
    assert m * left <= 255 * left;
  }

  /** q is the standard's advance, code the one computed, c the overflow of the product. */
  lemma AdvanceCore(n: nat, q: nat, left: nat, c: nat, code: nat, rest: nat)
    requires 0 < n < 256 && left < 65536 && rest < n && n * q + left == c * W + n * code + rest
    ensures (q - code) % W == 0 <==> c % n == 0 && left < n
  {
    var d := q - code;
    assert n * d == n * q - n * code;
    if d % W == 0 { WholeOverflow(n, d, left, c, rest); }
    if c % n == 0 && left < n { NothingLost(n, d, left, c, rest); }
  }

  lemma WholeOverflow(n: nat, d: int, left: nat, c: nat, rest: nat)
    requires 0 < n < 256 && left < 65536 && rest < n && n * d == c * W + rest - left && d % W == 0
    ensures c % n == 0 && left < n
  {
    var t := d / W;
    assert d == t * W;
    var nt := n * t;
    assert n * (t * W) == nt * W;
    assert (nt - c) * W == rest - left;
    assert nt == c;
    MulMod(t, n);
  }

  lemma NothingLost(n: nat, d: int, left: nat, c: nat, rest: nat)
    requires 0 < n < 256 && left < n && rest < n && n * d == c * W + rest - left && c % n == 0
    ensures d % W == 0
  {
    DivMod(c, n);
    var t := c / n;
    var tw := t * W;
    assert c * W == n * tw;
    assert n * (d - tw) == rest - left;
    NoMultipleBetween(n, d - tw, rest - left);
  }

  lemma NoMultipleBetween(n: nat, x: int, y: int)
    requires n * x == y && y < n && -y < n
    ensures x == 0
  {
    assert n * -x == -(n * x);
    if x >= 1 { MulGe(n, x); } else if x <= -1 { MulGe(n, -x); }
  }

  lemma SumsAgree(a: nat, x: nat, y: nat)
    ensures (a + x) % W == (a + y) % W <==> (y - x) % W == 0
  {}

  /** Two address units per instruction of two operations: one operation moves the address by 1
      where the standard does not move it. */
  lemma AdvanceDeparts(h: Header, r: Regs)
    requires HeaderOk(h) && h.minInsn == 2 && h.maxOps == 2 && r == Regs(0, 0, EMPTY_NAME, 1)
    ensures AdvanceBy(h, r, 1).address == 1 && StandardAdvance(h, r, 1).address == 0
  {}

  /** With one operation per instruction the address moves by whole instructions. */
  lemma AdvanceOne(h: Header, r: Regs, adv: nat)
    requires HeaderOk(h) && h.maxOps == 1 && r.opIndex == 0
    ensures AdvanceBy(h, r, adv) == r.(address := (r.address + h.minInsn * adv) % W)
  {
    WrappedProduct(h.minInsn, adv);
    ModAdd(h.minInsn * adv, r.address);
  }

  function LittleEndian(bs: seq<Byte>): nat
  {
    if bs == [] then 0 else bs[0] as int + 256 * LittleEndian(bs[1..])
  }

  function Reversed(bs: seq<Byte>): seq<Byte>
  {
    if bs == [] then [] else Reversed(bs[1..]) + [bs[0]]
  }

  function GetFixed(rest: seq<Byte>, under: bool, n: nat, bigEndian: bool): (g: Got)
    ensures g.value >= 0
  {
    if |rest| < n then Got(0, rest, true)
    else Got(LittleEndian(if bigEndian then Reversed(rest[..n]) else rest[..n]), rest[n..], under)
  }

  /** Sizes other than 1, 2, 4 and 8 read nothing. */
  function GetAddress(h: Header, rest: seq<Byte>, under: bool): (g: Got)
    ensures g.value >= 0
  {
    if h.addrSize in {1, 2, 4, 8} then GetFixed(rest, under, h.addrSize, h.bigEndian) else Got(0, rest, under)
  }

  /** Read and ignore n LEB128 numbers. */
  function SkipLebs(rest: seq<Byte>, under: bool, n: nat): (r: Got)
    ensures |r.rest| <= |rest|
    decreases n
  {
    if n == 0 then Got(0, rest, under)
    else
      LebShrinks(rest, under, 0, 0);
      var g := GetUleb(rest, under);
      SkipLebs(g.rest, g.under, n - 1)
  }

  /** Length of the string at the front, up to but excluding its terminator. */
  function StringLength(rest: seq<Byte>): (n: nat)
    ensures n <= |rest|
  {
    if rest == [] || rest[0] == 0 then 0 else 1 + StringLength(rest[1..])
  }

  datatype Step = Next(regs: Regs, rest: seq<Byte>, under: bool, emit: bool) | Fail

  /** Identity of the file that a define_file opcode makes; it differs for every place in the program. */
  function DefinedFile(left: nat): int
  {
    -1 - left
  }

  function DefineFile(h: Header, r: Regs, rest: seq<Byte>, under: bool): Step
  {
    var n := StringLength(rest);
    if n + 1 > |rest| then Fail
    else
      var d := GetUleb(rest[n + 1..], under);
      var s := SkipLebs(d.rest, d.under, 2);
      if !(n > 0 && rest[0] == 47) && d.value % 0x1_0000_0000 > h.dirs then Fail
      else Next(r.(file := DefinedFile(|rest|)), s.rest, s.under, false)
  }

  /** Opcode 0: a length, an extended opcode and its operands. */
  function Extended(h: Header, r: Regs, rest: seq<Byte>, under: bool): Step
  {
    var len := GetUleb(rest, under);
    var op := GetByte(len.rest, len.under);
    if op.value == 1 then Next(Start(h), op.rest, op.under, false)
    else if op.value == 2 then
      var a := GetAddress(h, op.rest, op.under);
      Next(r.(address := a.value), a.rest, a.under, false)
    else if op.value == 3 then DefineFile(h, r, op.rest, op.under)
    else if op.value == 4 then
      var g := GetUleb(op.rest, op.under);
      Next(r, g.rest, g.under, false)
    else
      var skip := (len.value - 1) % W;
      if skip > |op.rest| then Fail else Next(r, op.rest[skip..], op.under, false)
  }

  lemma UlebNonNegative(rest: seq<Byte>, under: bool)
    ensures GetUleb(rest, under).value >= 0
  {
    UlebFromNonNegative(rest, under, 0, 0);
  }

  lemma {:induction false} UlebFromNonNegative(rest: seq<Byte>, under: bool, shift: nat, acc: int)
    requires acc >= 0
    ensures UlebFrom(rest, under, shift, acc).value >= 0
    decreases |rest|
  {
    if rest != [] && rest[0] >= 128 { UlebFromNonNegative(rest[1..], under, shift + 7, AddBits(acc, rest[0], shift)); }
  }

  function SetFile(h: Header, r: Regs, rest: seq<Byte>, under: bool): Step
  {
    var g := GetUleb(rest, under);
    if g.value == 0 then Next(r.(file := EMPTY_NAME), g.rest, g.under, false)
    else if 0 < g.value <= |h.files| then Next(r.(file := h.files[g.value - 1]), g.rest, g.under, false)
    else Fail
  }

  /** Opcodes below the opcode base. */
  function Standard(h: Header, r: Regs, op: nat, rest: seq<Byte>, under: bool): Step
    requires HeaderOk(h) && 0 < op < h.opcodeBase
  {
    if op == 1 then Next(r, rest, under, true)
    else if op == 2 then
      var g := GetUleb(rest, under);
      UlebNonNegative(rest, under);
      Next(AdvanceBy(h, r, g.value), g.rest, g.under, false)
    else if op == 3 then
      var g := GetSleb(rest, under);
      Next(r.(line := r.line + ToInt(g.value)), g.rest, g.under, false)
    else if op == 4 then SetFile(h, r, rest, under)
    else if op == 5 || op == 12 then
      var g := GetUleb(rest, under);
      Next(r, g.rest, g.under, false)
    else if op == 6 || op == 7 || op == 10 || op == 11 then Next(r, rest, under, false)
    else if op == 8 then
      Next(AdvanceBy(h, r, Quotient(255 - h.opcodeBase, h.lineRange)), rest, under, false)
    else if op == 9 then
      var g := GetFixed(rest, under, 2, h.bigEndian);
      Next(r.(address := (r.address + g.value) % W, opIndex := 0), g.rest, g.under, false)
    else
      var g := SkipLebs(rest, under, h.opcodeLengths[op - 1]);
      Next(r, g.rest, g.under, false)
  }

  /** Opcodes from the opcode base on advance the address and the line and emit a row. */
  function Special(h: Header, r: Regs, op: nat, rest: seq<Byte>, under: bool): Step
    requires HeaderOk(h) && op >= h.opcodeBase
  {
    var a := op - h.opcodeBase;
    var r1 := AdvanceBy(h, r, Quotient(a, h.lineRange));
    Next(r1.(line := r1.line + h.lineBase + a % h.lineRange), rest, under, true)
  }

  function Execute(h: Header, r: Regs, rest: seq<Byte>, under: bool): Step
    requires HeaderOk(h) && rest != []
  {
    var op := rest[0] as int;
    if op >= h.opcodeBase then Special(h, r, op, rest[1..], under)
    else if op == 0 then Extended(h, r, rest[1..], under)
    else Standard(h, r, op, rest[1..], under)
  }

  lemma ExecuteShrinks(h: Header, r: Regs, rest: seq<Byte>, under: bool)
    requires HeaderOk(h) && rest != []
    ensures Execute(h, r, rest, under).Next? ==> |Execute(h, r, rest, under).rest| < |rest|
  {
    hide UlebFrom, SlebFrom, AdvanceBy, LittleEndian, Reversed;
    var tail := rest[1..];
    LebShrinks(tail, under, 0, 0);
    var len := GetUleb(tail, under);
    var op := GetByte(len.rest, len.under);
    LebShrinks(op.rest, op.under, 0, 0);
    var n := StringLength(op.rest);
    if n + 1 <= |op.rest| { LebShrinks(op.rest[n + 1..], op.under, 0, 0); }
  }

  // ----- whole programs -----

  datatype Result = Rows(rows: seq<Row>, under: bool) | Failed

  function RowOf(r: Regs): Row
  {
    Row(r.address, r.file, r.line)
  }

  /** The rows a program emits. */
  function Run(h: Header, r: Regs, rest: seq<Byte>, under: bool, rows: seq<Row>): Result
    requires HeaderOk(h)
    decreases |rest|
  {
    if rest == [] then Rows(rows, under)
    else
      ExecuteShrinks(h, r, rest, under);
      match Execute(h, r, rest, under)
      case Fail => Failed
      case Next(r1, rest1, under1, emit) =>
        Run(h, r1, rest1, under1, if emit then rows + [RowOf(r1)] else rows)
  }

  lemma RunStep(h: Header, r: Regs, rest: seq<Byte>, under: bool, rows: seq<Row>)
    requires HeaderOk(h) && rest != []
    ensures match Execute(h, r, rest, under)
            case Fail => Run(h, r, rest, under, rows).Failed?
            case Next(r1, rest1, under1, emit) =>
              Run(h, r, rest, under, rows) == Run(h, r1, rest1, under1, if emit then rows + [RowOf(r1)] else rows)
  {
    hide Execute;
    ExecuteShrinks(h, r, rest, under);
  }

  lemma RunEnd(h: Header, r: Regs, under: bool, rows: seq<Row>)
    requires HeaderOk(h)
    ensures Run(h, r, [], under, rows) == Rows(rows, under)
  {}

  // ----- the loop over the buffer -----

  /** A step was carried out: the registers and the buffer are where it leads to. */
  ghost predicate Did(step: Step, ok: bool, r: Regs, rest: seq<Byte>, under: bool)
  {
    match step
    case Fail => !ok
    case Next(r1, rest1, under1, emit) => ok && r == r1 && rest == rest1 && under == under1
  }

  method ReadFixed(buf: DwarfBuf, n: nat, bigEndian: bool) returns (v: int)
    modifies buf
    ensures Got(v, buf.rest, buf.reportedUnderflow) == GetFixed(old(buf.rest), old(buf.reportedUnderflow), n, bigEndian)
  {
    var p := buf.rest;
    var ok := buf.Advance(n);
    if !ok { return 0; }
    return LittleEndian(if bigEndian then Reversed(p[..n]) else p[..n]);
  }

  method ReadAddress(h: Header, buf: DwarfBuf) returns (v: int)
    modifies buf
    ensures Got(v, buf.rest, buf.reportedUnderflow) == GetAddress(h, old(buf.rest), old(buf.reportedUnderflow))
  {
    if h.addrSize == 1 || h.addrSize == 2 || h.addrSize == 4 || h.addrSize == 8 {
      v := ReadFixed(buf, h.addrSize, h.bigEndian);
    } else {
      v := 0;
    }
  }

  /** Ignore n LEB128 numbers. */
  method IgnoreLebs(buf: DwarfBuf, n: nat)
    modifies buf
    ensures var g := SkipLebs(old(buf.rest), old(buf.reportedUnderflow), n);
            buf.rest == g.rest && buf.reportedUnderflow == g.under
  {
    hide GetUleb;
    var i := n;
    while i > 0
      invariant SkipLebs(buf.rest, buf.reportedUnderflow, i) == SkipLebs(old(buf.rest), old(buf.reportedUnderflow), n)
    {
      var v := buf.ReadUleb();
      i := i - 1;
    }
  }

  method ReadDefineFile(h: Header, r: Regs, buf: DwarfBuf) returns (ok: bool, r': Regs)
    modifies buf
    ensures Did(DefineFile(h, r, old(buf.rest), old(buf.reportedUnderflow)), ok, r', buf.rest, buf.reportedUnderflow)
  {
    hide GetUleb, SkipLebs;
    r' := r;
    var f := buf.rest;
    ok := buf.Advance(StringLength(f) + 1);
    if !ok { return; }
    var dir := buf.ReadUleb();
    IgnoreLebs(buf, 2);
    if f[0] != 47 && dir % 0x1_0000_0000 > h.dirs { return false, r; }
    r' := r.(file := DefinedFile(|f|));
  }

  method ReadExtended(h: Header, r: Regs, buf: DwarfBuf) returns (ok: bool, r': Regs)
    modifies buf
    ensures Did(Extended(h, r, old(buf.rest), old(buf.reportedUnderflow)), ok, r', buf.rest, buf.reportedUnderflow)
  {
    hide GetUleb, DefineFile, GetAddress;
    ok, r' := true, r;
    var len := buf.ReadUleb();
    var op := buf.ReadByte();
    if op == 1 {
      r' := Start(h);
    } else if op == 2 {
      var a := ReadAddress(h, buf);
      r' := r.(address := a);
    } else if op == 3 {
      ok, r' := ReadDefineFile(h, r, buf);
    } else if op == 4 {
      var v := buf.ReadUleb();
    } else {
      ok := buf.Advance((len - 1) % W);
    }
  }

  method ReadSetFile(h: Header, r: Regs, buf: DwarfBuf) returns (ok: bool, r': Regs)
    modifies buf
    ensures Did(SetFile(h, r, old(buf.rest), old(buf.reportedUnderflow)), ok, r', buf.rest, buf.reportedUnderflow)
  {
    hide GetUleb;
    ok, r' := true, r;
    var v := buf.ReadUleb();
    if v == 0 {
      r' := r.(file := EMPTY_NAME);
    } else if 0 < v <= |h.files| {
      r' := r.(file := h.files[v - 1]);
    } else {
      ok := false;
    }
  }

  method ReadStandard(h: Header, r: Regs, op: nat, buf: DwarfBuf) returns (ok: bool, r': Regs)
    requires HeaderOk(h) && 0 < op < h.opcodeBase
    modifies buf
    ensures Did(Standard(h, r, op, old(buf.rest), old(buf.reportedUnderflow)), ok, r', buf.rest, buf.reportedUnderflow)
  {
    hide GetUleb, GetSleb, AdvanceBy, SkipLebs, GetFixed, SetFile, ToInt;
    ok, r' := true, r;
    if op == 1 {
    } else if op == 2 {
      var adv := buf.ReadUleb();
      UlebNonNegative(old(buf.rest), old(buf.reportedUnderflow));
      r' := AdvanceBy(h, r, adv);
    } else if op == 3 {
      var v := buf.ReadSleb();
      r' := r.(line := r.line + ToInt(v));
    } else if op == 4 {
      ok, r' := ReadSetFile(h, r, buf);
    } else if op == 5 || op == 12 {
      var v := buf.ReadUleb();
    } else if op == 6 || op == 7 || op == 10 || op == 11 {
    } else if op == 8 {
      r' := AdvanceBy(h, r, Quotient(255 - h.opcodeBase, h.lineRange));
    } else if op == 9 {
      var v := ReadFixed(buf, 2, h.bigEndian);
      r' := r.(address := (r.address + v) % W, opIndex := 0);
    } else {
      IgnoreLebs(buf, h.opcodeLengths[op - 1]);
    }
  }

  method ReadSpecial(h: Header, r: Regs, op: nat, ghost rest: seq<Byte>, ghost under: bool) returns (r': Regs)
    requires HeaderOk(h) && op >= h.opcodeBase
    ensures Special(h, r, op, rest, under) == Next(r', rest, under, true)
  {
    hide AdvanceBy;
    var a := op - h.opcodeBase;
    r' := AdvanceBy(h, r, Quotient(a, h.lineRange));
    r' := r'.(line := r'.line + h.lineBase + a % h.lineRange);
  }

  /** Read one opcode with its operands and carry it out; `emit` says whether it adds a row. */
  method ReadOpcode(h: Header, r: Regs, buf: DwarfBuf) returns (ok: bool, r': Regs, emit: bool)
    requires HeaderOk(h) && buf.rest != []
    modifies buf
    ensures var step := Execute(h, r, old(buf.rest), old(buf.reportedUnderflow));
            Did(step, ok, r', buf.rest, buf.reportedUnderflow) && (ok ==> emit == step.emit)
  {
    hide Execute, Special, Standard, Extended, AdvanceBy;
    ExecuteIs(h, r, buf.rest, buf.reportedUnderflow);
    var op := buf.ReadByte();
    if op >= h.opcodeBase {
      r' := ReadSpecial(h, r, op, buf.rest, buf.reportedUnderflow);
      ok, emit := true, true;
    } else if op == 0 {
      ExtendedEmitsNone(h, r, buf.rest, buf.reportedUnderflow);
      ok, r' := ReadExtended(h, r, buf);
      emit := false;
    } else {
      StandardEmits(h, r, op, buf.rest, buf.reportedUnderflow);
      ok, r' := ReadStandard(h, r, op, buf);
      emit := op == 1;
    }
  }

  /** Read a line program and add its rows to a vector: the rows that the program emits opcode by opcode,
      and a failure exactly when an opcode fails. */
  method ReadLineProgram(h: Header, buf: DwarfBuf, vec: LineVector) returns (ok: bool)
    requires HeaderOk(h) && vec.Valid()
    modifies buf, vec
    ensures vec.Valid()
    ensures ok ==> Run(h, Start(h), old(buf.rest), old(buf.reportedUnderflow), old(vec.rows)) == Rows(vec.rows, buf.reportedUnderflow)
    ensures !ok ==> Run(h, Start(h), old(buf.rest), old(buf.reportedUnderflow), old(vec.rows)).Failed?
  {
    hide Execute, Run;
    var r := Start(h);
    while |buf.rest| > 0
      invariant vec.Valid()
      invariant Run(h, r, buf.rest, buf.reportedUnderflow, vec.rows) ==
                Run(h, Start(h), old(buf.rest), old(buf.reportedUnderflow), old(vec.rows))
      decreases |buf.rest|
    {
      ExecuteShrinks(h, r, buf.rest, buf.reportedUnderflow);
      RunStep(h, r, buf.rest, buf.reportedUnderflow, vec.rows);
      var emit;
      ok, r, emit := ReadOpcode(h, r, buf);
      if !ok { return; }
      if emit {
        vec.AddLine(r.address, r.file, r.line);
      }
    }
    RunEnd(h, r, buf.reportedUnderflow, vec.rows);
    assert buf.rest == [];
    ok := true;
  }

  lemma ExecuteIs(h: Header, r: Regs, rest: seq<Byte>, under: bool)
    requires HeaderOk(h) && rest != []
    ensures var op := rest[0] as int;
            Execute(h, r, rest, under) ==
            if op >= h.opcodeBase then Special(h, r, op, rest[1..], under)
            else if op == 0 then Extended(h, r, rest[1..], under)
            else Standard(h, r, op, rest[1..], under)
  {}

  lemma ExtendedEmitsNone(h: Header, r: Regs, rest: seq<Byte>, under: bool)
    ensures Extended(h, r, rest, under).Next? ==> !Extended(h, r, rest, under).emit
  {}

  lemma StandardEmits(h: Header, r: Regs, op: nat, rest: seq<Byte>, under: bool)
    requires HeaderOk(h) && 0 < op < h.opcodeBase
    ensures Standard(h, r, op, rest, under).Next? ==> (Standard(h, r, op, rest, under).emit <==> op == 1)
  {}

  // ----- encoding rows -----

  /** One row relative to the one before: instructions to advance, lines to advance, and whether
      a special opcode should be used if it fits. */
  datatype Delta = Delta(adv: nat, lines: int, special: bool)

  function SpecialOpcode(h: Header, d: Delta): int
  {
    d.lines - h.lineBase + h.lineRange * d.adv + h.opcodeBase
  }

  predicate UseSpecial(h: Header, d: Delta)
  {
    d.special && 0 <= d.lines - h.lineBase < h.lineRange && 0 <= SpecialOpcode(h, d) <= 255
  }

  function EncodeRow(h: Header, d: Delta): seq<Byte>
  {
    if UseSpecial(h, d) then [SpecialOpcode(h, d)]
    else [2] + EncodeUleb(d.adv) + [3] + EncodeSleb(d.lines) + [1]
  }

  function EncodeRows(h: Header, ds: seq<Delta>): seq<Byte>
  {
    if ds == [] then [] else EncodeRow(h, ds[0]) + EncodeRows(h, ds[1..])
  }

  predicate Encodable(d: Delta)
  {
    d.adv < W && -0x8000_0000 <= d.lines < 0x8000_0000
  }

  /** Where a row leaves the registers. */
  function Moved(h: Header, r: Regs, d: Delta): Regs
  {
    r.(address := (r.address + h.minInsn * d.adv) % W, line := r.line + d.lines)
  }

  /** The rows that the deltas stand for. */
  function RowsOf(h: Header, r: Regs, ds: seq<Delta>): seq<Row>
    decreases |ds|
  {
    if ds == [] then [] else [RowOf(Moved(h, r, ds[0]))] + RowsOf(h, Moved(h, r, ds[0]), ds[1..])
  }

  /** Headers that the encoder can use: the opcodes 1, 2 and 3 are standard opcodes. */
  predicate Usable(h: Header)
  {
    HeaderOk(h) && h.maxOps == 1 && h.opcodeBase >= 4
  }

  lemma SpecialReads(h: Header, r: Regs, d: Delta, tail: seq<Byte>, under: bool)
    requires Usable(h) && r.opIndex == 0 && UseSpecial(h, d)
    ensures Execute(h, r, EncodeRow(h, d) + tail, under) == Next(Moved(h, r, d), tail, under, true)
  {
    hide AdvanceBy;
    var op := SpecialOpcode(h, d);
    assert (EncodeRow(h, d) + tail)[1..] == tail;
    ModIs(h.lineRange * d.adv + (d.lines - h.lineBase), h.lineRange, d.adv, d.lines - h.lineBase);
    assert op >= h.opcodeBase by { assert h.lineRange * d.adv >= 0; }
    AdvanceOne(h, r, d.adv);
  }

  lemma AdvancePcReads(h: Header, r: Regs, adv: nat, tail: seq<Byte>, under: bool)
    requires Usable(h) && r.opIndex == 0 && adv < W
    ensures Execute(h, r, [2] + EncodeUleb(adv) + tail, under) ==
            Next(r.(address := (r.address + h.minInsn * adv) % W), tail, under, false)
  {
    hide AdvanceBy, EncodeUleb, GetUleb;
    var bs: seq<Byte> := [2] + EncodeUleb(adv) + tail;
    assert bs[1..] == EncodeUleb(adv) + tail;
    UlebRoundTrip(adv, tail, under);
    AdvanceOne(h, r, adv);
  }

  lemma AdvanceLineReads(h: Header, r: Regs, lines: int, tail: seq<Byte>, under: bool)
    requires Usable(h) && -0x8000_0000 <= lines < 0x8000_0000
    ensures Execute(h, r, [3] + EncodeSleb(lines) + tail, under) == Next(r.(line := r.line + lines), tail, under, false)
  {
    hide AdvanceBy, EncodeSleb, GetSleb;
    var bs: seq<Byte> := [3] + EncodeSleb(lines) + tail;
    assert bs[1..] == EncodeSleb(lines) + tail;
    SlebRoundTrip(lines, tail, under);
  }

  lemma CopyReads(h: Header, r: Regs, tail: seq<Byte>, under: bool)
    requires Usable(h)
    ensures Execute(h, r, [1] + tail, under) == Next(r, tail, under, true)
  {
    var bs: seq<Byte> := [1] + tail;
    assert bs[1..] == tail;
  }

  /** One encoded row is read back as one emitted row. */
  lemma RowReads(h: Header, r: Regs, d: Delta, tail: seq<Byte>, under: bool, rows: seq<Row>)
    requires Usable(h) && r.opIndex == 0 && Encodable(d)
    ensures Run(h, r, EncodeRow(h, d) + tail, under, rows) ==
            Run(h, Moved(h, r, d), tail, under, rows + [RowOf(Moved(h, r, d))])
  {
    hide Run, Execute, EncodeUleb, EncodeSleb;
    if UseSpecial(h, d) {
      SpecialReads(h, r, d, tail, under);
      RunStep(h, r, EncodeRow(h, d) + tail, under, rows);
    } else {
      var t1: seq<Byte> := [1] + tail;
      var t2: seq<Byte> := [3] + EncodeSleb(d.lines) + t1;
      var t3: seq<Byte> := [2] + EncodeUleb(d.adv) + t2;
      assert EncodeRow(h, d) + tail == t3;
      var r1 := r.(address := (r.address + h.minInsn * d.adv) % W);
      AdvancePcReads(h, r, d.adv, t2, under);
      RunStep(h, r, t3, under, rows);
      AdvanceLineReads(h, r1, d.lines, t1, under);
      RunStep(h, r1, t2, under, rows);
      CopyReads(h, Moved(h, r, d), tail, under);
      RunStep(h, Moved(h, r, d), t1, under, rows);
    }
  }

  /** Round trip: running the encoding of any rows emits exactly those rows. */
  lemma {:induction false} ProgramRoundTrip(h: Header, r: Regs, ds: seq<Delta>, under: bool, rows: seq<Row>)
    requires Usable(h) && r.opIndex == 0 && forall i :: 0 <= i < |ds| ==> Encodable(ds[i])
    ensures Run(h, r, EncodeRows(h, ds), under, rows) == Rows(rows + RowsOf(h, r, ds), under)
    decreases |ds|
  {
    hide EncodeRow, Moved;
    if ds == [] {
      assert rows + [] == rows;
    } else {
      var r1 := Moved(h, r, ds[0]);
      RowReads(h, r, ds[0], EncodeRows(h, ds[1..]), under, rows);
      MovedIndex(h, r, ds[0]);
      ProgramRoundTrip(h, r1, ds[1..], under, rows + [RowOf(r1)]);
      assert rows + [RowOf(r1)] + RowsOf(h, r1, ds[1..]) == rows + RowsOf(h, r, ds);
    }
  }

  lemma MovedIndex(h: Header, r: Regs, d: Delta)
    ensures Moved(h, r, d).opIndex == r.opIndex
  {
  }

  // ----- from the bytes of a program to the answer for an address -----

  function Pow256(n: nat): nat
  {
    if n == 0 then 1 else 256 * Pow256(n - 1)
  }

  lemma {:induction false} LittleEndianBound(bs: seq<Byte>)
    ensures LittleEndian(bs) < Pow256(|bs|)
  {
    if bs != [] { LittleEndianBound(bs[1..]); }
  }

  lemma {:induction false} ReversedLength(bs: seq<Byte>)
    ensures |Reversed(bs)| == |bs|
  {
    if bs != [] { ReversedLength(bs[1..]); }
  }

  lemma Pow256Small(n: nat)
    requires n <= 8
    ensures Pow256(n) <= W
  {
    assert Pow256(2) == 65536 && Pow256(4) == 0x1_0000_0000 && Pow256(6) == 0x1_0000_0000_0000 && Pow256(8) == W;
    assert Pow256(1) == 256 && Pow256(3) == 0x100_0000 && Pow256(5) == 0x100_0000_0000 && Pow256(7) == 0x100_0000_0000_0000;
    if n <= 3 {
      if n == 0 {} else if n == 1 {} else if n == 2 {} else {}
    } else {
      if n == 4 {} else if n == 5 {} else if n == 6 {} else if n == 7 {} else {}
    }
  }

  lemma AddressBound(h: Header, rest: seq<Byte>, under: bool)
    ensures GetAddress(h, rest, under).value < W
  {
    if h.addrSize in {1, 2, 4, 8} && |rest| >= h.addrSize {
      var bs := rest[..h.addrSize];
      ReversedLength(bs);
      LittleEndianBound(bs);
      LittleEndianBound(Reversed(bs));
      Pow256Small(h.addrSize);
    }
  }

  lemma ExecuteBound(h: Header, r: Regs, rest: seq<Byte>, under: bool)
    requires HeaderOk(h) && rest != [] && r.address < W
    ensures Execute(h, r, rest, under).Next? ==> Execute(h, r, rest, under).regs.address < W
  {
    hide UlebFrom, SlebFrom, LittleEndian, Reversed, SkipLebs, GetAddress;
    var len := GetUleb(rest[1..], under);
    var op := GetByte(len.rest, len.under);
    AddressBound(h, op.rest, op.under);
  }

  /** Every emitted address fits in 64 bits. */
  lemma {:induction false} RunBound(h: Header, r: Regs, rest: seq<Byte>, under: bool, rows: seq<Row>)
    requires HeaderOk(h) && r.address < W && forall i :: 0 <= i < |rows| ==> rows[i].pc < W
    ensures Run(h, r, rest, under, rows).Rows? ==>
              forall i :: 0 <= i < |Run(h, r, rest, under, rows).rows| ==> Run(h, r, rest, under, rows).rows[i].pc < W
    decreases |rest|
  {
    if rest != [] {
      hide Execute;
      ExecuteShrinks(h, r, rest, under);
      ExecuteBound(h, r, rest, under);
      var n := Execute(h, r, rest, under);
      if n.Next? {
        RunBound(h, n.regs, n.rest, n.under, if n.emit then rows + [RowOf(n.regs)] else rows);
      }
    }
  }

  lemma {:induction false} KeptBound(rows: seq<Row>)
    requires forall i :: 0 <= i < |rows| ==> rows[i].pc < W
    ensures forall i :: 0 <= i < |Kept(rows, 0)| ==> Kept(rows, 0)[i].pc < W
  {
    if rows != [] { KeptBound(rows[..|rows| - 1]); }
  }

  /** Read a line program and look an address up in what it says. */
  method LookupInProgram(h: Header, bytes: seq<Byte>, pc: nat) returns (ok: bool, found: bool, row: Row)
    requires HeaderOk(h) && pc < TOP
    ensures ok <==> var r := Run(h, Start(h), bytes, false, []); r.Rows? && !r.under && r.rows != []
    ensures ok ==> Best(Run(h, Start(h), bytes, false, []).rows, pc) == if found then Some(row) else None
  {
    hide Run, Best, Kept, IsTable, Sorted;
    found, row := false, Row(0, 0, 0);
    RunBound(h, Start(h), bytes, false, []);
    var buf := new DwarfBuf(bytes);
    var vec := new LineVector(0);
    ok := ReadLineProgram(h, buf, vec);
    if !ok || buf.reportedUnderflow {
      return false, false, row;
    }
    KeptBound(vec.rows);
    var table;
    ok, table := FinishLines(vec);
    if ok {
      found, row := LookupLine(table, pc, vec.rows, 0);
    }
  }

  /** So an encoded program answers every address as a scan of the encoded rows does. */
  lemma EncodedAnswers(h: Header, ds: seq<Delta>, pc: nat)
    requires Usable(h) && forall i :: 0 <= i < |ds| ==> Encodable(ds[i])
    ensures var r := Run(h, Start(h), EncodeRows(h, ds), false, []);
            r.Rows? && !r.under && Best(r.rows, pc) == Best(RowsOf(h, Start(h), ds), pc)
  {
    ProgramRoundTrip(h, Start(h), ds, false, []);
    assert [] + RowsOf(h, Start(h), ds) == RowsOf(h, Start(h), ds);
  }
}
