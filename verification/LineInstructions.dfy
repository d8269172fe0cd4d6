/** Whole line number programs written by an encoder: every kind of instruction, several sequences, both
    byte orders, and the rows that reading them gives. */
module LineInstructions {
  import opened Options
  import opened Bits
  import opened BitStream
  import opened DwarfReader
  import opened LineTable
  import opened LineProgram
  import opened Modular

  // ----- numbers of fixed size -----

  /** The bytes of a number, least significant first. */
  function EncodeLittle(n: nat, v: nat): (r: seq<Byte>)
    ensures |r| == n
  {
    if n == 0 then [] else [v % 256] + EncodeLittle(n - 1, v / 256)
  }

  /** The bytes of a number, most significant first. */
  function EncodeBig(n: nat, v: nat): (r: seq<Byte>)
    ensures |r| == n
  {
    if n == 0 then [] else EncodeBig(n - 1, v / 256) + [v % 256]
  }

  function EncodeFixed(n: nat, v: nat, bigEndian: bool): (r: seq<Byte>)
    ensures |r| == n
  {
    if bigEndian then EncodeBig(n, v) else EncodeLittle(n, v)
  }

  /** Byte i counts 256^i. */
  ghost function SumLittle(bs: seq<Byte>): nat
  {
    if bs == [] then 0 else SumLittle(bs[..|bs| - 1]) + bs[|bs| - 1] as int * Pow256(|bs| - 1)
  }

  /** Every byte is worth 256 times the next. */
  ghost function SumBig(bs: seq<Byte>): nat
  {
    if bs == [] then 0 else 256 * SumBig(bs[..|bs| - 1]) + bs[|bs| - 1] as int
  }

  lemma {:induction false} LittleSnoc(bs: seq<Byte>, x: Byte)
    ensures LittleEndian(bs + [x]) == LittleEndian(bs) + x as int * Pow256(|bs|)
  {
    if bs == [] {
      assert bs + [x] == [x] && [x][1..] == [];
      assert LittleEndian([x]) == x as int + 256 * LittleEndian([x][1..]);
    } else {
      assert (bs + [x])[1..] == bs[1..] + [x];
      LittleSnoc(bs[1..], x);
      var p := Pow256(|bs| - 1);
      assert 256 * (x as int * p) == x as int * (256 * p);
    }
  }

  lemma {:induction false} LittleIsSum(bs: seq<Byte>)
    ensures LittleEndian(bs) == SumLittle(bs)
  {
    hide Pow256;
    if bs != [] {
      var m := |bs| - 1;
      LittleIsSum(bs[..m]);
      LittleSnoc(bs[..m], bs[m]);
      assert bs == bs[..m] + [bs[m]];
    }
  }

  lemma {:induction false} ReversedSnoc(bs: seq<Byte>, x: Byte)
    ensures Reversed(bs + [x]) == [x] + Reversed(bs)
  {
    if bs == [] {
      assert bs + [x] == [x] && [x][1..] == [];
      assert Reversed([x]) == Reversed([x][1..]) + [x];
    } else {
      assert (bs + [x])[1..] == bs[1..] + [x];
      ReversedSnoc(bs[1..], x);
    }
  }

  lemma {:induction false} BigIsSum(bs: seq<Byte>)
    ensures LittleEndian(Reversed(bs)) == SumBig(bs)
  {
    if bs != [] {
      var m := |bs| - 1;
      BigIsSum(bs[..m]);
      ReversedSnoc(bs[..m], bs[m]);
      assert bs == bs[..m] + [bs[m]];
      assert ([bs[m]] + Reversed(bs[..m]))[1..] == Reversed(bs[..m]);
    }
  }

  /** What a number of fixed size is worth, in either byte order. */
  lemma FixedMeans(bs: seq<Byte>, tail: seq<Byte>, under: bool, bigEndian: bool)
    ensures GetFixed(bs + tail, under, |bs|, bigEndian) == Got(if bigEndian then SumBig(bs) else SumLittle(bs), tail, under)
  {
    assert (bs + tail)[..|bs|] == bs && (bs + tail)[|bs|..] == tail;
    LittleIsSum(bs);
    BigIsSum(bs);
  }

  lemma {:induction false} LittleReads(n: nat, v: nat)
    requires v < Pow256(n)
    ensures LittleEndian(EncodeLittle(n, v)) == v
  {
    if n > 0 {
      LittleReads(n - 1, v / 256);
      assert EncodeLittle(n, v)[1..] == EncodeLittle(n - 1, v / 256);
    }
  }

  lemma {:induction false} BigIsReversed(n: nat, v: nat)
    ensures Reversed(EncodeBig(n, v)) == EncodeLittle(n, v)
  {
    if n > 0 {
      BigIsReversed(n - 1, v / 256);
      ReversedSnoc(EncodeBig(n - 1, v / 256), v % 256);
    }
  }

  /** Round trip for numbers of fixed size. */
  lemma FixedRoundTrip(n: nat, v: nat, tail: seq<Byte>, under: bool, bigEndian: bool)
    requires v < Pow256(n)
    ensures GetFixed(EncodeFixed(n, v, bigEndian) + tail, under, n, bigEndian) == Got(v, tail, under)
  {
    hide LittleEndian, Reversed, Pow256, EncodeBig, EncodeLittle;
    var bs := EncodeFixed(n, v, bigEndian);
    assert (bs + tail)[..n] == bs && (bs + tail)[n..] == tail;
    LittleReads(n, v);
    BigIsReversed(n, v);
  }

  // ----- instructions -----

  /** What a producer of line programs can write. */
  datatype Instr =
    | Emit(d: Delta)                                           // advance and emit a row
    | SetAddress(address: nat)
    | FixedAdvance(n: nat)                                     // advance by n bytes
    | ConstAdd                                                 // advance as special opcode 255 does
    | SetFile(k: nat)                                          // file k, counted from 1; 0 for no name
    | EndSequence                                              // back to the initial registers
    | NewFile(name: seq<Byte>, dir: nat, time: nat, size: nat)  // define_file
    | Flag(op: nat)                                            // opcodes without operands or effect
    | Note(op: nat, v: nat)                                    // opcodes with one operand and no effect
    | Discriminator(v: nat)
    | Private(op: nat, operands: seq<Byte>)                    // an extended opcode that is not known
    | Future(op: nat, numbers: seq<nat>)                       // a standard opcode that is not known

  predicate IsAbsolute(name: seq<Byte>)
  {
    name != [] && name[0] == 47
  }

  /** Instructions that make sense for a header with one operation per instruction. */
  predicate InstrOk(h: Header, i: Instr)
  {
    match i
    case Emit(d) => Encodable(d) && h.opcodeBase >= 4
    case SetAddress(a) => h.addrSize in {1, 2, 4, 8} && a < Pow256(h.addrSize)
    case FixedAdvance(n) => n < 65536 && h.opcodeBase > 9
    case ConstAdd => h.opcodeBase > 8
    case SetFile(k) => k <= |h.files| && k < W && h.opcodeBase > 4
    case EndSequence => true
    case NewFile(name, dir, time, size) =>
      0 !in name && dir < W && time < W && size < W && (IsAbsolute(name) || dir % 0x1_0000_0000 <= h.dirs)
    case Flag(op) => op in {6, 7, 10, 11} && op < h.opcodeBase
    case Note(op, v) => op in {5, 12} && op < h.opcodeBase && v < W
    case Discriminator(v) => v < W
    case Private(op, operands) => op < 256 && op !in {1, 2, 3, 4} && |operands| + 1 < W
    case Future(op, operands) =>
      13 <= op < h.opcodeBase && |h.opcodeLengths| == h.opcodeBase - 1 && |operands| == h.opcodeLengths[op - 1]
      && forall j :: 0 <= j < |operands| ==> operands[j] < W
  }

  function EncodeUlebs(vs: seq<nat>): seq<Byte>
  {
    if vs == [] then [] else EncodeUleb(vs[0]) + EncodeUlebs(vs[1..])
  }

  /** Operands of define_file. */
  function FileEntry(name: seq<Byte>, dir: nat, time: nat, size: nat): seq<Byte>
  {
    name + ([0] + (EncodeUleb(dir) + (EncodeUleb(time) + EncodeUleb(size))))
  }

  /** Opcode 0, the length, the extended opcode and its operands. */
  function EncodeExtended(op: Byte, operands: seq<Byte>): seq<Byte>
  {
    [0] + (EncodeUleb(|operands| + 1) + ([op] + operands))
  }

  function EncodeInstr(h: Header, i: Instr): seq<Byte>
    requires InstrOk(h, i)
  {
    match i
    case Emit(d) => EncodeRow(h, d)
    case SetAddress(a) => EncodeExtended(2, EncodeFixed(h.addrSize, a, h.bigEndian))
    case FixedAdvance(n) => [9] + EncodeFixed(2, n, h.bigEndian)
    case ConstAdd => [8]
    case SetFile(k) => [4] + EncodeUleb(k)
    case EndSequence => EncodeExtended(1, [])
    case NewFile(name, dir, time, size) => EncodeExtended(3, FileEntry(name, dir, time, size))
    case Flag(op) => [op]
    case Note(op, v) => [op] + EncodeUleb(v)
    case Discriminator(v) => EncodeExtended(4, EncodeUleb(v))
    case Private(op, operands) => EncodeExtended(op, operands)
    case Future(op, operands) => [op] + EncodeUlebs(operands)
  }

  /** What an instruction does to the registers; `left` is the number of bytes that follow it. */
  function Effect(h: Header, r: Regs, i: Instr, left: nat): Regs
    requires HeaderOk(h) && InstrOk(h, i)
  {
    match i
    case Emit(d) => Moved(h, r, d)
    case SetAddress(a) => r.(address := a)
    case FixedAdvance(n) => r.(address := (r.address + n) % W, opIndex := 0)
    case ConstAdd => r.(address := (r.address + h.minInsn * Quotient(255 - h.opcodeBase, h.lineRange)) % W)
    case SetFile(k) => r.(file := if k == 0 then EMPTY_NAME else h.files[k - 1])
    case EndSequence => Start(h)
    case NewFile(name, dir, time, size) => r.(file := DefinedFile(|FileEntry(name, dir, time, size)| + left))
    case _ => r
  }

  predicate Emits(i: Instr)
  {
    i.Emit?
  }

  // ----- one instruction -----

  /** Reading extended opcodes: the length is taken off, then the opcode. */
  lemma ExtendedOpens(op: Byte, operands: seq<Byte>, tail: seq<Byte>, under: bool)
    requires |operands| + 1 < W
    ensures var bs := EncodeExtended(op, operands) + tail;
            && bs != [] && bs[0] == 0
            && GetUleb(bs[1..], under) == Got(|operands| + 1, [op] + (operands + tail), under)
            && GetByte([op] + (operands + tail), under) == Got(op, operands + tail, under)
  {
    hide GetUleb, EncodeUleb;
    var bs := EncodeExtended(op, operands) + tail;
    assert bs[1..] == EncodeUleb(|operands| + 1) + ([op] + (operands + tail));
    UlebRoundTrip(|operands| + 1, [op] + (operands + tail), under);
    assert ([op] + (operands + tail))[1..] == operands + tail;
  }

  lemma ExtendedReads(h: Header, r: Regs, i: Instr, tail: seq<Byte>, under: bool)
    requires HeaderOk(h) && InstrOk(h, i) && |EncodeInstr(h, i)| < W
    requires i.SetAddress? || i.EndSequence? || i.Discriminator? || i.Private?
    ensures EncodeInstr(h, i) != []
    ensures Execute(h, r, EncodeInstr(h, i) + tail, under) == Next(Effect(h, r, i, |tail|), tail, under, false)
  {
    hide GetUleb, GetFixed, EncodeUleb, EncodeFixed, Pow256, DefineFile, FileEntry, EncodeExtended, Standard, Special, AdvanceBy;
    match i
    case SetAddress(a) =>
      var bs := EncodeFixed(h.addrSize, a, h.bigEndian);
      ExtendedSize(2, bs);
      ExtendedOpens(2, bs, tail, under);
      FixedRoundTrip(h.addrSize, a, tail, under, h.bigEndian);
    case EndSequence =>
      ExtendedSize(1, []);
      ExtendedOpens(1, [], tail, under);
      assert [] + tail == tail;
    case Discriminator(v) =>
      ExtendedSize(4, EncodeUleb(v));
      ExtendedOpens(4, EncodeUleb(v), tail, under);
      UlebRoundTrip(v, tail, under);
    case Private(op, operands) =>
      ExtendedSize(op, operands);
      ExtendedOpens(op, operands, tail, under);
      assert (operands + tail)[|operands|..] == tail;
  }

  lemma NewFileReads(h: Header, r: Regs, i: Instr, tail: seq<Byte>, under: bool)
    requires HeaderOk(h) && InstrOk(h, i) && |EncodeInstr(h, i)| < W && i.NewFile?
    ensures EncodeInstr(h, i) != []
    ensures Execute(h, r, EncodeInstr(h, i) + tail, under) == Next(Effect(h, r, i, |tail|), tail, under, false)
  {
    hide GetUleb, GetFixed, EncodeUleb, DefineFile, FileEntry, EncodeExtended, Standard, Special, AdvanceBy;
    var entry := FileEntry(i.name, i.dir, i.time, i.size);
    ExtendedSize(3, entry);
    ExtendedOpens(3, entry, tail, under);
    DefineFileReads(h, r, i.name, i.dir, i.time, i.size, tail, under);
  }

  lemma ExtendedSize(op: Byte, operands: seq<Byte>)
    ensures |EncodeExtended(op, operands)| >= |operands| + 2
  {
    assert EncodeUleb(|operands| + 1) != [];
  }

  lemma {:induction false} NameLength(name: seq<Byte>, more: seq<Byte>)
    requires 0 !in name
    ensures StringLength(name + ([0] + more)) == |name|
  {
    var bs := name + ([0] + more);
    if name != [] {
      assert bs[0] == name[0] && name[0] in name;
      assert bs[1..] == name[1..] + ([0] + more);
      NameLength(name[1..], more);
    }
  }

  /** Operands of define_file, with the entry read field by field. */
  lemma DefineFileReads(h: Header, r: Regs, name: seq<Byte>, dir: nat, time: nat, size: nat, tail: seq<Byte>, under: bool)
    requires 0 !in name && dir < W && time < W && size < W
    ensures var bs := FileEntry(name, dir, time, size) + tail;
            DefineFile(h, r, bs, under) ==
            if IsAbsolute(name) || dir % 0x1_0000_0000 <= h.dirs then Next(r.(file := DefinedFile(|bs|)), tail, under, false) else Fail
  {
    hide GetUleb, EncodeUleb, StringLength;
    var t1 := EncodeUleb(size) + tail;
    var t2 := EncodeUleb(time) + t1;
    var t3 := EncodeUleb(dir) + t2;
    var bs := FileEntry(name, dir, time, size) + tail;
    assert bs == name + ([0] + t3);
    NameLength(name, t3);
    assert bs[|name| + 1..] == t3;
    assert name != [] ==> bs[0] == name[0];
    UlebRoundTrip(dir, t2, under);
    SkipTwo(time, size, tail, under);
  }

  lemma SkipTwo(a: nat, b: nat, tail: seq<Byte>, under: bool)
    requires a < W && b < W
    ensures SkipLebs(EncodeUleb(a) + (EncodeUleb(b) + tail), under, 2) == Got(0, tail, under)
  {
    hide GetUleb, EncodeUleb;
    var t := EncodeUleb(b) + tail;
    UlebRoundTrip(a, t, under);
    UlebRoundTrip(b, tail, under);
    assert SkipLebs(tail, under, 0) == Got(0, tail, under);
    assert SkipLebs(t, under, 1) == Got(0, tail, under);
  }

  lemma {:induction false} SkipReads(vs: seq<nat>, tail: seq<Byte>, under: bool)
    requires forall j :: 0 <= j < |vs| ==> vs[j] < W
    ensures SkipLebs(EncodeUlebs(vs) + tail, under, |vs|) == Got(0, tail, under)
  {
    hide GetUleb, EncodeUleb;
    if vs == [] {
      assert EncodeUlebs(vs) + tail == tail;
    } else {
      var more := EncodeUlebs(vs[1..]) + tail;
      assert EncodeUlebs(vs) + tail == EncodeUleb(vs[0]) + more;
      UlebRoundTrip(vs[0], more, under);
      SkipReads(vs[1..], tail, under);
    }
  }

  lemma ConstAddReads(h: Header, r: Regs)
    requires HeaderOk(h) && h.maxOps == 1 && r.opIndex == 0
    ensures AdvanceBy(h, r, Quotient(255 - h.opcodeBase, h.lineRange))
            == r.(address := (r.address + h.minInsn * Quotient(255 - h.opcodeBase, h.lineRange)) % W)
  {
    hide Quotient;
    AdvanceOne(h, r, Quotient(255 - h.opcodeBase, h.lineRange));
  }

  lemma StandardReads(h: Header, r: Regs, i: Instr, tail: seq<Byte>, under: bool)
    requires HeaderOk(h) && InstrOk(h, i)
    requires i.SetFile? || i.Flag? || i.Note? || i.Future?
    ensures EncodeInstr(h, i) != []
    ensures Execute(h, r, EncodeInstr(h, i) + tail, under) == Next(Effect(h, r, i, |tail|), tail, under, false)
  {
    hide GetUleb, GetFixed, EncodeUleb, EncodeFixed, Pow256, Extended, Special, AdvanceBy, SkipLebs, EncodeUlebs, Quotient;
    match i
    case SetFile(k) =>
      assert ([4] + EncodeUleb(k) + tail)[1..] == EncodeUleb(k) + tail;
      UlebRoundTrip(k, tail, under);
    case Flag(op) =>
      assert ([op] + tail)[1..] == tail;
    case Note(op, v) =>
      assert ([op] + EncodeUleb(v) + tail)[1..] == EncodeUleb(v) + tail;
      UlebRoundTrip(v, tail, under);
    case Future(op, operands) =>
      assert ([op] + EncodeUlebs(operands) + tail)[1..] == EncodeUlebs(operands) + tail;
      SkipReads(operands, tail, under);
  }

  lemma AdvanceReads(h: Header, r: Regs, i: Instr, tail: seq<Byte>, under: bool)
    requires HeaderOk(h) && InstrOk(h, i) && (i.FixedAdvance? || (i.ConstAdd? && h.maxOps == 1 && r.opIndex == 0))
    ensures EncodeInstr(h, i) != []
    ensures Execute(h, r, EncodeInstr(h, i) + tail, under) == Next(Effect(h, r, i, |tail|), tail, under, false)
  {
    hide GetUleb, GetFixed, EncodeFixed, Pow256, Extended, Special, AdvanceBy, SkipLebs, Quotient;
    match i
    case FixedAdvance(n) =>
      assert ([9] + EncodeFixed(2, n, h.bigEndian) + tail)[1..] == EncodeFixed(2, n, h.bigEndian) + tail;
      assert Pow256(2) == 65536 by { TwoBytes(); }
      FixedRoundTrip(2, n, tail, under, h.bigEndian);
    case ConstAdd =>
      assert ([8] + tail)[1..] == tail;
      ConstAddReads(h, r);
  }

  lemma TwoBytes()
    ensures Pow256(2) == 65536
  {
    assert Pow256(1) == 256 * Pow256(0);
  }

  /** Any instruction is read back: its effect on the registers, its row if it emits one, and exactly its
      bytes consumed. */
  lemma InstrReads(h: Header, r: Regs, i: Instr, tail: seq<Byte>, under: bool, rows: seq<Row>)
    requires Usable(h) && r.opIndex == 0 && InstrOk(h, i) && |EncodeInstr(h, i)| < W
    ensures var r1 := Effect(h, r, i, |tail|);
            && r1.opIndex == 0
            && Run(h, r, EncodeInstr(h, i) + tail, under, rows) == Run(h, r1, tail, under, if Emits(i) then rows + [RowOf(r1)] else rows)
  {
    hide Run, Execute, EncodeRow, EncodeExtended, FileEntry, EncodeFixed, EncodeUlebs, EncodeUleb;
    if i.Emit? {
      RowReads(h, r, i.d, tail, under, rows);
    } else {
      if i.NewFile? {
        NewFileReads(h, r, i, tail, under);
      } else if i.SetAddress? || i.EndSequence? || i.Discriminator? || i.Private? {
        ExtendedReads(h, r, i, tail, under);
      } else if i.FixedAdvance? || i.ConstAdd? {
        AdvanceReads(h, r, i, tail, under);
      } else {
        StandardReads(h, r, i, tail, under);
      }
      RunStep(h, r, EncodeInstr(h, i) + tail, under, rows);
    }
  }

  // ----- whole programs -----

  ghost predicate ProgramOk(h: Header, prog: seq<Instr>)
  {
    forall k :: 0 <= k < |prog| ==> InstrOk(h, prog[k]) && |EncodeInstr(h, prog[k])| < W
  }

  ghost function EncodeProgram(h: Header, prog: seq<Instr>): seq<Byte>
    requires ProgramOk(h, prog)
  {
    if prog == [] then [] else EncodeInstr(h, prog[0]) + EncodeProgram(h, prog[1..])
  }

  /** The rows that the instructions stand for. */
  ghost function ProgramRows(h: Header, r: Regs, prog: seq<Instr>): seq<Row>
    requires HeaderOk(h) && ProgramOk(h, prog)
    decreases |prog|
  {
    if prog == [] then []
    else
      var r1 := Effect(h, r, prog[0], |EncodeProgram(h, prog[1..])|);
      (if Emits(prog[0]) then [RowOf(r1)] else []) + ProgramRows(h, r1, prog[1..])
  }

  /** Round trip for whole programs, with any number of sequences. */
  lemma {:induction false} WholeRoundTrip(h: Header, r: Regs, prog: seq<Instr>, under: bool, rows: seq<Row>)
    requires Usable(h) && r.opIndex == 0 && ProgramOk(h, prog)
    ensures Run(h, r, EncodeProgram(h, prog), under, rows) == Rows(rows + ProgramRows(h, r, prog), under)
    decreases |prog|
  {
    hide EncodeInstr, InstrOk, Execute, Effect, RowOf;
    if prog == [] {
      assert rows + [] == rows;
    } else {
      var more := EncodeProgram(h, prog[1..]);
      var r1 := Effect(h, r, prog[0], |more|);
      var rows1 := if Emits(prog[0]) then rows + [RowOf(r1)] else rows;
      InstrReads(h, r, prog[0], more, under, rows);
      WholeRoundTrip(h, r1, prog[1..], under, rows1);
      assert rows1 + ProgramRows(h, r1, prog[1..]) == rows + ProgramRows(h, r, prog);
    }
  }

  /** So reading the program and looking an address up answers as a scan of those rows does. */
  method LookupInWhole(h: Header, prog: seq<Instr>, bytes: seq<Byte>, pc: nat) returns (ok: bool, found: bool, row: Row)
    requires Usable(h) && ProgramOk(h, prog) && bytes == EncodeProgram(h, prog) && pc < TOP
    ensures ok <==> ProgramRows(h, Start(h), prog) != []
    ensures ok ==> Best(ProgramRows(h, Start(h), prog), pc) == if found then Some(row) else None
  {
    hide EncodeProgram, ProgramRows, ProgramOk, Run, Best;
    WholeRoundTrip(h, Start(h), prog, false, []);
    assert [] + ProgramRows(h, Start(h), prog) == ProgramRows(h, Start(h), prog);
    ok, found, row := LookupInProgram(h, bytes, pc);
  }

  // ----- programs that are refused -----

  /** A file number that the header does not have ends the program. */
  lemma UnknownFileFails(h: Header, r: Regs, k: nat, tail: seq<Byte>, under: bool, rows: seq<Row>)
    requires HeaderOk(h) && |h.files| < k < W && h.opcodeBase > 4
    ensures Run(h, r, [4] + EncodeUleb(k) + tail, under, rows).Failed?
  {
    hide GetUleb, EncodeUleb, Extended, Special;
    var bs: seq<Byte> := [4] + EncodeUleb(k) + tail;
    assert bs[1..] == EncodeUleb(k) + tail;
    UlebRoundTrip(k, tail, under);
    RunStep(h, r, bs, under, rows);
  }

  /** So does a new file in a directory that it does not have. */
  lemma UnknownDirectoryFails(h: Header, r: Regs, name: seq<Byte>, dir: nat, time: nat, size: nat, tail: seq<Byte>,
                              under: bool, rows: seq<Row>)
    requires HeaderOk(h) && 0 !in name && dir < W && time < W && size < W && |FileEntry(name, dir, time, size)| + 1 < W
    requires !IsAbsolute(name) && dir % 0x1_0000_0000 > h.dirs
    ensures Run(h, r, EncodeExtended(3, FileEntry(name, dir, time, size)) + tail, under, rows).Failed?
  {
    hide GetUleb, EncodeUleb, FileEntry, EncodeExtended, DefineFile, Standard, Special;
    ExtendedOpens(3, FileEntry(name, dir, time, size), tail, under);
    DefineFileReads(h, r, name, dir, time, size, tail, under);
    RunStep(h, r, EncodeExtended(3, FileEntry(name, dir, time, size)) + tail, under, rows);
  }
}
