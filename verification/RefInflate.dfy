/** A reference decoder for RFC 1951 that works bit by bit, with no tables and no read-ahead.
    Besides accepting or rejecting it can report that the stream is one on which the
    inflater is known to depart from the standard. */
module RefInflate {
  import opened Bits
  import opened Canonical
  import opened BitStream
  import opened TableRoom

  /** Where the inflater does not follow the standard. */
  datatype Why =
    | UnassignedCode         // bits that start no codeword are taken as symbol 0
    | OversubscribedLengths  // over-subscribed lengths pass when symbol 0 has length 1
    | CrowdedTables          // codes whose secondary tables have no room are refused
    | StoredOnBoundary       // a stored block whose header ends on a byte boundary loses a byte
    | StoredNearEnd          // realigning after a stored block reads past the input
    | OddTrailer             // something other than exactly a 4-byte trailer follows
    | TooShort               // four bytes or fewer are taken as an empty stream

  /** Accepted up to `pos` with output `out`; `last` is where the last code or block header began. */
  datatype Ref = Accept(pos: nat, out: seq<Byte>, last: nat) | Reject | Departs(why: Why)

  /** What every accepted part satisfies: it moves on, its last code lies inside it, output only grows. */
  ghost predicate Proper(r: Ref, p: nat, end: nat, out: seq<Byte>)
  {
    r.Accept? ==> p <= r.last < r.pos <= 8 * end && |out| <= |r.out|
  }

  // ----- symbols -----

  datatype Read = Found(sym: nat, pos: nat) | NoCode | NoInput

  ghost predicate IsSymbol(lens: Lengths, s: nat, n: nat, code: nat)
  {
    s < |lens| && n >= 1 && lens[s] == n && CanonCode(lens, s) == code
  }

  /** Section 3.2.2: append bits to the code, first bit most significant, until it is one. */
  ghost function ReadSym(lens: Lengths, data: seq<Byte>, end: nat, p: nat, n: nat, code: nat): (r: Read)
    requires end <= |data| && n <= MAXBITS
    ensures r.Found? ==> p <= r.pos && (n == 0 ==> p < r.pos) && (p <= 8 * end ==> r.pos <= 8 * end)
    decreases MAXBITS - n
  {
    if exists s: nat :: IsSymbol(lens, s, n, code) then
      var s: nat :| IsSymbol(lens, s, n, code);
      Found(s, p)
    else if n == MAXBITS then NoCode
    else if p >= 8 * end then NoInput
    else ReadSym(lens, data, end, p + 1, n + 1, 2 * code + Bit(data, p))
  }

  ghost function Sym(lens: Lengths, data: seq<Byte>, end: nat, p: nat): (r: Read)
    requires end <= |data|
    ensures r.Found? ==> p < r.pos && (p <= 8 * end ==> r.pos <= 8 * end)
  {
    ReadSym(lens, data, end, p, 0, 0)
  }

  // ----- lengths and distances, section 3.2.5 -----

  const LENGTH_BASE: seq<nat> :=
    [3, 4, 5, 6, 7, 8, 9, 10, 11, 13, 15, 17, 19, 23, 27, 31, 35, 43, 51, 59, 67, 83, 99, 115, 131, 163, 195, 227, 258]
  const LENGTH_EXTRA: seq<nat> :=
    [0, 0, 0, 0, 0, 0, 0, 0, 1, 1, 1, 1, 2, 2, 2, 2, 3, 3, 3, 3, 4, 4, 4, 4, 5, 5, 5, 5, 0]
  const DIST_BASE: seq<nat> :=
    [1, 2, 3, 4, 5, 7, 9, 13, 17, 25, 33, 49, 65, 97, 129, 193, 257, 385, 513, 769, 1025, 1537, 2049, 3073, 4097, 6145,
     8193, 12289, 16385, 24577]
  const DIST_EXTRA: seq<nat> :=
    [0, 0, 0, 0, 1, 1, 2, 2, 3, 3, 4, 4, 5, 5, 6, 6, 7, 7, 8, 8, 9, 9, 10, 10, 11, 11, 12, 12, 13, 13]

  /** Append len bytes, each the byte dist back from the end at that time. */
  function Copy(out: seq<Byte>, dist: nat, len: nat): (r: seq<Byte>)
    requires 1 <= dist <= |out|
    ensures |r| == |out| + len
    decreases len
  {
    if len == 0 then out else Copy(out + [out[|out| - dist]], dist, len - 1)
  }

  datatype Number = Number(value: nat, pos: nat) | Short

  /** base plus the next `extra` bits. */
  ghost function Extra(data: seq<Byte>, end: nat, p: nat, base: nat, extra: nat): Number
    requires end <= |data|
  {
    if p + extra > 8 * end then Short else Number(base + Peek(data, p, extra), p + extra)
  }

  lemma DistPositive(d: nat)
    requires d <= 29
    ensures DIST_BASE[d] >= 1 && (d >= 4 ==> DIST_EXTRA[d] >= 1)
  {}

  /** Distance code, its extra bits and the copy, once the length is known. */
  ghost function BackReference(dist: Lengths, data: seq<Byte>, end: nat, p: nat, out: seq<Byte>, len: nat): (r: Ref)
    requires end <= |data|
    ensures p <= 8 * end ==> Proper(r, p, end, out)
    ensures r.Accept? ==> |r.out| == |out| + len
  {
    match Sym(dist, data, end, p)
    case NoCode => Departs(UnassignedCode)
    case NoInput => Reject
    case Found(d, p1) =>
      if d > 29 then Reject
      else
        DistPositive(d);
        match Extra(data, end, p1, DIST_BASE[d], DIST_EXTRA[d])
        case Short => Reject
        case Number(distance, p2) =>
          if distance > |out| then Reject else Accept(p2, Copy(out, distance, len), if d < 4 then p else p1)
  }

  /** A length symbol: its extra bits, then the distance and the copy. */
  ghost function LzMatch(dist: Lengths, data: seq<Byte>, end: nat, p: nat, out: seq<Byte>, s: nat): (r: Ref)
    requires end <= |data| && p <= 8 * end && s > 256
    ensures Proper(r, p, end, out)
  {
    if s > 285 then Reject
    else
      match Extra(data, end, p, LENGTH_BASE[s - 257], LENGTH_EXTRA[s - 257])
      case Short => Reject
      case Number(len, p1) => BackReference(dist, data, end, p1, out, len)
  }

  /** The symbols of a compressed block up to the end-of-block code. */
  ghost function Block(lit: Lengths, dist: Lengths, data: seq<Byte>, end: nat, p: nat, out: seq<Byte>): (r: Ref)
    requires end <= |data| && p <= 8 * end
    ensures Proper(r, p, end, out)
    decreases 8 * end - p
  {
    match Sym(lit, data, end, p)
    case NoCode => Departs(UnassignedCode)
    case NoInput => Reject
    case Found(s, p1) =>
      if s < 256 then Block(lit, dist, data, end, p1, out + [s])
      else if s == 256 then Accept(p1, out, p)
      else
        var m := LzMatch(dist, data, end, p1, out, s);
        if m.Accept? then Block(lit, dist, data, end, m.pos, m.out) else m
  }

  // ----- dynamic Huffman codes, section 3.2.7 -----

  /** The order in which the lengths of the code length code are sent. */
  function Order(k: nat): (r: nat)
    requires k < 19
    ensures r < 19
  {
    [16, 17, 18, 0, 8, 7, 9, 6, 10, 5, 11, 4, 12, 3, 13, 2, 14, 1, 15][k]
  }

  /** The first k of the 3-bit code lengths at p, put in their places. */
  ghost function CodeLengths(data: seq<Byte>, p: nat, k: nat): (r: Lengths)
    requires p + 3 * k <= 8 * |data| && k <= 19
    ensures |r| == 19 && forall i :: 0 <= i < 19 ==> r[i] < 8
  {
    if k == 0 then seq(19, _ => 0)
    else
      assert Pow2(3) == 8;
      CodeLengths(data, p, k - 1)[Order(k - 1) := Peek(data, p + 3 * (k - 1), 3)]
  }

  datatype LensRes = Lens(pos: nat, lens: Lengths) | BadLens | LensDepart(w: Why)

  function Repeat(v: nat, n: nat): Lengths
  {
    seq(n, _ => v)
  }

  /** Run-length coded lengths until there are `total` of them. */
  ghost function ReadLens(cl: Lengths, data: seq<Byte>, end: nat, p: nat, total: nat, acc: Lengths): (r: LensRes)
    requires end <= |data| && p <= 8 * end && |acc| <= total
    ensures r.Lens? ==> p <= r.pos <= 8 * end && |r.lens| == total && (|acc| < total ==> p < r.pos)
    ensures r.Lens? && LengthsOk(acc) ==> LengthsOk(r.lens)
    decreases 8 * end - p
  {
    if |acc| == total then Lens(p, acc)
    else
      match Sym(cl, data, end, p)
      case NoCode => LensDepart(UnassignedCode)
      case NoInput => BadLens
      case Found(s, p1) =>
        if s < 16 then ReadLens(cl, data, end, p1, total, acc + [s])
        else if s > 18 || (s == 16 && acc == []) then BadLens
        else
          match Extra(data, end, p1, if s == 18 then 11 else 3, if s == 16 then 2 else if s == 17 then 3 else 7)
          case Short => BadLens
          case Number(n, p2) =>
            if |acc| + n > total then BadLens
            else ReadLens(cl, data, end, p2, total, acc + Repeat(if s == 16 then acc[|acc| - 1] else 0, n))
  }

  datatype Check = Good | Bad | Differs(why: Why)

  /** Over-subscribed lengths are invalid; the inflater only notices when symbol 0 is not of length 1.
      Valid lengths are no use to it if their secondary tables have no room. */
  ghost function CheckLens(lens: Lengths): Check
  {
    if Fits(lens) then if Room(lens) then Good else Differs(CrowdedTables)
    else if |lens| > 0 && lens[0] != 1 then Bad
    else Differs(OversubscribedLengths)
  }

  ghost function Compressed(lit: Lengths, dist: Lengths, data: seq<Byte>, end: nat, p: nat, out: seq<Byte>): (r: Ref)
    requires end <= |data| && p <= 8 * end
    ensures Proper(r, p, end, out)
  {
    if CheckLens(lit).Bad? then Reject
    else if CheckLens(lit).Differs? then Departs(CheckLens(lit).why)
    else if CheckLens(dist).Bad? then Reject
    else if CheckLens(dist).Differs? then Departs(CheckLens(dist).why)
    else Block(lit, dist, data, end, p, out)
  }

  ghost function Dynamic(data: seq<Byte>, end: nat, p: nat, out: seq<Byte>): (r: Ref)
    requires end <= |data| && p <= 8 * end
    ensures Proper(r, p, end, out)
  {
    if p + 14 > 8 * end then Reject
    else
      var nlit, ndist, nclen := Peek(data, p, 5) + 257, Peek(data, p + 5, 5) + 1, Peek(data, p + 10, 4) + 4;
      assert nclen <= 19 by { assert Pow2(4) == 16; }
      if nlit > 286 || ndist > 30 || p + 14 + 3 * nclen > 8 * end then Reject
      else DynamicLens(CodeLengths(data, p + 14, nclen), data, end, p + 14 + 3 * nclen, nlit, ndist, out)
  }

  ghost function DynamicLens(cl: Lengths, data: seq<Byte>, end: nat, p: nat, nlit: nat, ndist: nat, out: seq<Byte>): (r: Ref)
    requires end <= |data| && p <= 8 * end && nlit >= 257
    ensures Proper(r, p, end, out)
  {
    if CheckLens(cl).Bad? then Reject
    else if CheckLens(cl).Differs? then Departs(CheckLens(cl).why)
    else
      match ReadLens(cl, data, end, p, nlit + ndist, [])
      case BadLens => Reject
      case LensDepart(why) => Departs(why)
      case Lens(p1, lens) =>
        if lens[256] == 0 then Reject
        else Compressed(lens[..nlit], lens[nlit..], data, end, p1, out)
  }

  // ----- fixed Huffman codes, section 3.2.6, and stored blocks, section 3.2.4 -----

  function FixedLit(): Lengths
  {
    Repeat(8, 144) + Repeat(9, 112) + Repeat(7, 24) + Repeat(8, 8)
  }

  function FixedDist(): Lengths
  {
    Repeat(5, 32)
  }

  ghost function Stored(data: seq<Byte>, end: nat, p: nat, out: seq<Byte>): (r: Ref)
    requires end <= |data| && p <= 8 * end
    ensures Proper(r, p, end, out)
  {
    if p % 8 == 0 then Departs(StoredOnBoundary)
    else
      var a := p / 8 + 1;
      if a + 4 > end then Reject
      else
        var len, nlen := data[a] as int + 256 * data[a + 1] as int, data[a + 2] as int + 256 * data[a + 3] as int;
        if len + nlen != 65535 || a + 4 + len > end then Reject
        else if a + 4 + len + 3 > end then Departs(StoredNearEnd)
        else Accept(8 * (a + 4 + len), out + data[a + 4..a + 4 + len], p)
  }

  // ----- blocks and stream -----

  /** A block of the given kind, behind its header. */
  ghost function Body(kind: nat, data: seq<Byte>, end: nat, p: nat, out: seq<Byte>): (r: Ref)
    requires end <= |data| && p <= 8 * end
    ensures Proper(r, p, end, out)
  {
    match kind
    case 0 => Stored(data, end, p, out)
    case 1 => Compressed(FixedLit(), FixedDist(), data, end, p, out)
    case 2 => Dynamic(data, end, p, out)
    case _ => Reject
  }

  ghost function OneBlock(data: seq<Byte>, end: nat, p: nat, out: seq<Byte>): (r: Ref)
    requires end <= |data| && p + 3 <= 8 * end
    ensures Proper(r, p, end, out)
  {
    var kind := Peek(data, p + 1, 2);
    var b := Body(kind, data, end, p + 3, out);
    if kind == 0 && b.Accept? then b.(last := p) else b
  }

  ghost function Blocks(data: seq<Byte>, end: nat, p: nat, out: seq<Byte>): (r: Ref)
    requires end <= |data| && p <= 8 * end
    ensures Proper(r, p, end, out)
    decreases 8 * end - p
  {
    if p + 3 > 8 * end then Reject
    else
      var b := OneBlock(data, end, p, out);
      if b.Accept? && Bit(data, p) == 0 then Blocks(data, end, b.pos, b.out) else b
  }

  /** Section 2.2 of RFC 1950: two header bytes, no preset dictionary. */
  predicate HeaderOk(a: int, b: int)
  {
    a % 16 == 8 && a / 16 <= 7 && b / 32 % 2 == 0 && (256 * a + b) % 31 == 0
  }

  /** A zlib stream that fills data[..end] up to its four checksum bytes. */
  ghost function Stream(data: seq<Byte>, end: nat): Ref
    requires end <= |data|
  {
    if end <= 4 then Departs(TooShort)
    else if !HeaderOk(data[0], data[1]) then Reject
    else
      var r := Blocks(data, end, 16, []);
      if r.Accept? && (r.pos + 7) / 8 + 4 != end then Departs(OddTrailer) else r
  }

  // ----- the tables of the standard in other words -----

  /** Code lengths are sent for the repeat codes and 0 first, then from 8 outwards. */
  lemma OrderForm(k: nat)
    requires k < 19
    ensures Order(k) == if k < 3 then 16 + k else if k == 3 then 0 else if k % 2 == 0 then 8 + (k - 4) / 2 else 8 - (k - 3) / 2
  {}

  /** Section 3.2.6: the lengths of the fixed codes by symbol. */
  lemma FixedForm(s: nat)
    ensures |FixedLit()| == 288 && |FixedDist()| == 32
    ensures s < 288 ==> FixedLit()[s] == if s < 144 then 8 else if s < 256 then 9 else if s < 280 then 7 else 8
    ensures s < 32 ==> FixedDist()[s] == 5
  {}

  /** The header that a compressor writes for a window size and a level, with the check bits that make it a
      multiple of 31. */
  function HeaderFor(window: nat, level: nat): (int, int)
  {
    var a, b := 8 + 16 * window, 64 * level;
    (a, b + (31 - (256 * a + b) % 31) % 31)
  }

  /** Such headers are accepted, as long as the window is no larger than 32 kB. */
  lemma HeaderForOk(window: nat, level: nat)
    requires window < 16 && level < 4
    ensures HeaderOk(HeaderFor(window, level).0, HeaderFor(window, level).1) <==> window <= 7
  {
    hide HeaderOk;
    var a, b := 8 + 16 * window, 64 * level;
    CheckBits(256 * a + b);
    HeaderWith(window, level, (31 - (256 * a + b) % 31) % 31);
  }

  lemma HeaderWith(window: nat, level: nat, check: nat)
    requires window < 16 && level < 4 && check < 31 && (256 * (8 + 16 * window) + 64 * level + check) % 31 == 0
    ensures HeaderOk(8 + 16 * window, 64 * level + check) <==> window <= 7
  {
    LevelBits(level, check);
    assert (8 + 16 * window) % 16 == 8 && (8 + 16 * window) / 16 == window;
  }

  lemma CheckBits(x: nat)
    ensures (x + (31 - x % 31) % 31) % 31 == 0
  {}

  lemma LevelBits(level: nat, check: nat)
    requires check < 32
    ensures (64 * level + check) / 32 % 2 == 0
  {}

  /** No other check bits, no preset dictionary and no other method will do. */
  lemma HeaderRefuses(a: int, b: int, c: int)
    requires HeaderOk(a, b)
    ensures b < c < b + 31 ==> !HeaderOk(a, c)
    ensures !HeaderOk(a, b + 32) && a % 16 == 8
  {}
}
