/** From the requested byte ranges to the pointer handed out: the request check, the bitmap, the
    padded layout, and where the requested bytes end up for every address malloc may return. */
module SecretPlacement {
  import opened Options
  import opened AlignAlloc

  datatype Req = Req(offset: nat, len: nat)
  datatype Layout = Layout(size: nat, align: nat)
  const UsizeMax: nat := 0xFFFF_FFFF_FFFF_FFFF

  // ----- requests -----

  /** Byte x of the data is asked for by request r. */
  predicate In(r: Req, x: int)
  {
    r.offset <= x < r.offset + r.len
  }

  ghost predicate Covers(reqs: seq<Req>, x: int)
  {
    exists k :: 0 <= k < |reqs| && In(reqs[k], x)
  }

  ghost predicate Fits(size: nat, reqs: seq<Req>)
  {
    forall k :: 0 <= k < |reqs| ==> reqs[k].offset + reqs[k].len <= size
  }

  ghost predicate Disjoint(reqs: seq<Req>)
  {
    forall i, j, x :: 0 <= i < j < |reqs| && In(reqs[i], x) ==> !In(reqs[j], x)
  }

  type Octet = o: seq<bool> | |o| == 8 witness seq(8, _ => false)

  predicate Used(bmp: seq<Octet>, x: nat)
    requires x < 8 * |bmp|
  {
    bmp[x / 8][x % 8]
  }

  lemma UseByte(bmp: seq<Octet>, x: nat, y: nat)
    requires x < 8 * |bmp| && y < 8 * |bmp|
    ensures Used(bmp[x / 8 := bmp[x / 8][x % 8 := true]], y) == (y == x || Used(bmp, y))
  {
    assert y != x ==> y / 8 != x / 8 || y % 8 != x % 8;
  }

  /** The map holds the bytes of the first k requests and the first n of request k. */
  ghost predicate Marked(bmp: seq<Octet>, reqs: seq<Req>, k: nat, n: nat)
    requires k <= |reqs|
  {
    forall x: nat :: x < 8 * |bmp| ==> (Used(bmp, x) <==> Covers(reqs[..k], x) || (k < |reqs| && In(Req(reqs[k].offset, n), x)))
  }

  lemma MarkOne(bmp: seq<Octet>, reqs: seq<Req>, k: nat, n: nat)
    requires k < |reqs| && Marked(bmp, reqs, k, n) && reqs[k].offset + n < 8 * |bmp|
    ensures var x := reqs[k].offset + n; Marked(bmp[x / 8 := bmp[x / 8][x % 8 := true]], reqs, k, n + 1)
  {
    hide Used, Covers;
    var x := reqs[k].offset + n;
    forall y: nat | y < 8 * |bmp|
      ensures Used(bmp[x / 8 := bmp[x / 8][x % 8 := true]], y)
              <==> Covers(reqs[..k], y) || In(Req(reqs[k].offset, n + 1), y)
    {
      UseByte(bmp, x, y);
    }
  }

  lemma CoversNext(reqs: seq<Req>, k: nat, x: int)
    requires k < |reqs|
    ensures Covers(reqs[..k + 1], x) <==> Covers(reqs[..k], x) || In(reqs[k], x)
  {
    if Covers(reqs[..k], x) {
      var i :| 0 <= i < k && In(reqs[..k][i], x);
      assert In(reqs[..k + 1][i], x);
    }
    assert In(reqs[k], x) ==> In(reqs[..k + 1][k], x);
  }

  lemma MarkAll(bmp: seq<Octet>, reqs: seq<Req>, k: nat)
    requires k < |reqs| && Marked(bmp, reqs, k, reqs[k].len)
    ensures Marked(bmp, reqs, k + 1, 0)
  {
    hide Used, Covers;
    forall x: nat | x < 8 * |bmp|
      ensures Used(bmp, x) <==> Covers(reqs[..k + 1], x)
    {
      CoversNext(reqs, k, x);
    }
  }

  lemma DisjointNext(reqs: seq<Req>, k: nat)
    requires k < |reqs|
    ensures Disjoint(reqs[..k + 1]) <==> Disjoint(reqs[..k]) && forall x :: In(reqs[k], x) ==> !Covers(reqs[..k], x)
  {
    var next, now := reqs[..k + 1], reqs[..k];
    assert next[k] == reqs[k];
    assert forall i :: 0 <= i < k ==> next[i] == now[i];
  }

  lemma DisjointPrefix(reqs: seq<Req>, k: nat)
    requires k <= |reqs| && !Disjoint(reqs[..k])
    ensures !Disjoint(reqs)
  {
    var i, j, x :| 0 <= i < j < k && In(reqs[..k][i], x) && In(reqs[..k][j], x);
    assert In(reqs[i], x) && In(reqs[j], x);
  }

  lemma Collides(reqs: seq<Req>, k: nat, x: nat)
    requires k < |reqs| && In(reqs[k], x) && Covers(reqs[..k], x)
    ensures !Disjoint(reqs)
  {
    hide Disjoint, Covers, In;
    DisjointNext(reqs, k);
    DisjointPrefix(reqs, k + 1);
  }

  /** Accepts exactly a non-empty list of requests inside the data that share no byte, provided
      the scratch bitmap was granted. */
  method CheckAlignReq(size: nat, reqs: seq<Req>, granted: bool) returns (ok: bool)
    ensures ok <==> reqs != [] && granted && Fits(size, reqs) && Disjoint(reqs)
  {
    hide Covers, Disjoint, In, Used, Marked;
    if reqs == [] { return false; }
    if !granted { return false; }
    var len := (size + 7) / 8;
    var bmp := new Octet[len](_ => seq(8, _ => false));
    StartClear(bmp[..], reqs);
    for k := 0 to |reqs|
      invariant Fits(size, reqs[..k]) && Disjoint(reqs[..k])
      invariant Marked(bmp[..], reqs, k, 0)
    {
      var req := reqs[k];
      if req.offset + req.len > size { return false; }
      FreshNone(reqs, k);
      for i := 0 to req.len
        invariant Marked(bmp[..], reqs, k, i)
        invariant Fresh(reqs, k, i)
      {
        var offset := req.offset + i;
        UsedIs(bmp[..], reqs, k, i);
        if bmp[offset / 8][offset % 8] {
          Collides(reqs, k, offset);
          return false;
        }
        MarkOne(bmp[..], reqs, k, i);
        FreshNext(reqs, k, i);
        bmp[offset / 8] := bmp[offset / 8][offset % 8 := true];
      }
      MarkAll(bmp[..], reqs, k);
      FreshAll(reqs, k);
    }
    assert reqs[..|reqs|] == reqs;
    return true;
  }

  lemma StartClear(bmp: seq<Octet>, reqs: seq<Req>)
    requires forall i :: 0 <= i < |bmp| ==> bmp[i] == seq(8, _ => false)
    ensures Marked(bmp, reqs, 0, 0) && Disjoint(reqs[..0])
  {}

  lemma UsedIs(bmp: seq<Octet>, reqs: seq<Req>, k: nat, n: nat)
    requires k < |reqs| && n < reqs[k].len && Marked(bmp, reqs, k, n) && reqs[k].offset + n < 8 * |bmp|
    ensures In(reqs[k], reqs[k].offset + n)
    ensures Used(bmp, reqs[k].offset + n) <==> Covers(reqs[..k], reqs[k].offset + n)
    ensures var x := reqs[k].offset + n; Used(bmp, x) == bmp[x / 8][x % 8]
  {}

  /** The first n bytes of request k are asked for by no earlier one. */
  ghost predicate Fresh(reqs: seq<Req>, k: nat, n: nat)
    requires k < |reqs|
  {
    forall x :: In(Req(reqs[k].offset, n), x) ==> !Covers(reqs[..k], x)
  }

  lemma FreshNone(reqs: seq<Req>, k: nat)
    requires k < |reqs|
    ensures Fresh(reqs, k, 0)
  {}

  lemma FreshNext(reqs: seq<Req>, k: nat, n: nat)
    requires k < |reqs| && Fresh(reqs, k, n) && !Covers(reqs[..k], reqs[k].offset + n)
    ensures Fresh(reqs, k, n + 1)
  {
    hide Covers;
  }

  lemma FreshAll(reqs: seq<Req>, k: nat)
    requires k < |reqs| && Fresh(reqs, k, reqs[k].len) && Disjoint(reqs[..k])
    ensures Disjoint(reqs[..k + 1])
  {
    hide Covers, Disjoint;
    assert Req(reqs[k].offset, reqs[k].len) == reqs[k];
    DisjointNext(reqs, k);
  }

  // ----- the bitmap -----

  /** Line position j, relative to the start of the data, holds a requested byte. */
  ghost predicate Hit(reqs: seq<Req>, j: nat)
  {
    exists x :: x % 64 == j && Covers(reqs, x)
  }

  ghost predicate Bitmap(bmp: Word, reqs: seq<Req>)
  {
    forall j :: 0 <= j < 64 ==> (bmp[j] <==> Hit(reqs, j))
  }

  /** A run of n ones rotated to an offset marks the positions of that request. */
  lemma RunBit(r: Req, j: nat)
    requires j < 64 && r.len <= 63
    ensures Rol(Ones(r.len), r.offset)[j] <==> Hit([r], j)
  {
    hide Rol, Covers;
    RolBit(Ones(r.len), r.offset, j);
    var d := (j - r.offset) % 64;
    if d < r.len {
      CoversOne(r, r.offset + d);
      assert (r.offset + d) % 64 == j;
    }
    if Hit([r], j) {
      var x :| x % 64 == j && Covers([r], x);
      CoversOne(r, x);
      assert (x - r.offset) % 64 == d;
    }
  }

  lemma HitNext(reqs: seq<Req>, k: nat, j: nat)
    requires k < |reqs|
    ensures Hit(reqs[..k + 1], j) <==> Hit(reqs[..k], j) || Hit([reqs[k]], j)
  {
    hide Covers;
    var next, now, one := reqs[..k + 1], reqs[..k], [reqs[k]];
    if Hit(next, j) {
      var x :| x % 64 == j && Covers(next, x);
      CoversNext(reqs, k, x);
      CoversOne(reqs[k], x);
    }
    if Hit(now, j) {
      var x :| x % 64 == j && Covers(now, x);
      CoversNext(reqs, k, x);
    }
    if Hit(one, j) {
      var x :| x % 64 == j && Covers(one, x);
      CoversNext(reqs, k, x);
      CoversOne(reqs[k], x);
    }
  }

  lemma CoversOne(r: Req, x: int)
    ensures Covers([r], x) <==> In(r, x)
  {
    assert [r][0] == r;
  }

  lemma BitmapNext(bmp: Word, reqs: seq<Req>, k: nat)
    requires k < |reqs| && reqs[k].len <= 63 && Bitmap(bmp, reqs[..k])
    ensures Bitmap(Or(bmp, Rol(Ones(reqs[k].len), reqs[k].offset)), reqs[..k + 1])
  {
    hide Rol, Hit;
    forall j | 0 <= j < 64
      ensures Or(bmp, Rol(Ones(reqs[k].len), reqs[k].offset))[j] <==> Hit(reqs[..k + 1], j)
    {
      HitNext(reqs, k, j);
      RunBit(reqs[k], j);
    }
  }

  lemma LongHits(reqs: seq<Req>, k: nat)
    requires k < |reqs| && reqs[k].len > 63
    ensures Bitmap(AllOnes(), reqs)
  {
    forall j | 0 <= j < 64
      ensures Hit(reqs, j)
    {
      var x := reqs[k].offset + (j - reqs[k].offset) % 64;
      assert In(reqs[k], x) && Covers(reqs, x);
      assert x % 64 == j;
    }
  }

  /** Bit j of the bitmap is set exactly when some requested byte lies at j modulo 64. */
  method MakeBitmap(reqs: seq<Req>) returns (bmp: Word)
    ensures Bitmap(bmp, reqs)
  {
    hide Rol, Hit, Bitmap;
    bmp := Zeros();
    NoHits(bmp, reqs);
    for k := 0 to |reqs|
      invariant Bitmap(bmp, reqs[..k])
    {
      var req := reqs[k];
      if req.len > 63 {
        LongHits(reqs, k);
        return AllOnes();
      }
      BitmapNext(bmp, reqs, k);
      bmp := Or(bmp, Rol(Ones(req.len), req.offset));
    }
    assert reqs[..|reqs|] == reqs;
  }

  lemma NoHits(bmp: Word, reqs: seq<Req>)
    requires bmp == Zeros()
    ensures Bitmap(bmp, reqs[..0])
  {}

  /** With such a bitmap, an offset is safe exactly when it keeps every requested byte off the bad
      positions. */
  lemma SafeMeans(bmp: Word, reqs: seq<Req>, o: int)
    requires Bitmap(bmp, reqs)
    ensures Safe(bmp, o) <==> forall x :: Covers(reqs, x) ==> !Bad(x + o)
  {
    hide Covers;
    if Safe(bmp, o) {
      forall x | Covers(reqs, x)
        ensures !Bad(x + o)
      {
        assert Hit(reqs, x % 64);
        BadShift(x, o);
      }
    } else {
      var i :| 0 <= i < 64 && bmp[i] && Bad(i + o);
      var x :| x % 64 == i && Covers(reqs, x);
      BadShift(x, o);
    }
  }

  lemma BadShift(x: int, o: int)
    ensures Bad(x + o) <==> Bad(x % 64 + o)
  {
    assert (x + o) % 64 == (x % 64 + o) % 64;
  }
}
