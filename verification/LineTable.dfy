/** From emitted line rows to the answer for an address: dropping repeated rows, sorting,
    the sentinel, and the search, against a plain scan of all rows in emission order. */
module LineTable {
  import opened Options
  import opened Bits
  import opened Quicksort
  import opened Search

  /** One row of the line number matrix; files are compared by identity. */
  datatype Row = Row(pc: nat, file: int, line: int)

  /** A stored row with its position in the vector. */
  datatype Line = Line(pc: nat, file: int, line: int, idx: nat)

  const TOP: nat := 0xffff_ffff_ffff_ffff

  // ----- what a lookup should give -----

  /** Scan the rows in order of emission; a row wins over earlier rows with the same or a lower address. */
  function Best(rows: seq<Row>, pc: nat): Option<Row>
  {
    if rows == [] then None
    else
      var x, b := rows[|rows| - 1], Best(rows[..|rows| - 1], pc);
      if x.pc <= pc && (b.None? || x.pc >= b.value.pc) then Some(x) else b
  }

  /** Position i holds the last row of the greatest address that is at most pc. */
  ghost predicate Wins(rows: seq<Row>, pc: nat, i: nat)
  {
    && i < |rows| && rows[i].pc <= pc
    && forall j :: 0 <= j < |rows| && rows[j].pc <= pc ==> rows[j].pc < rows[i].pc || (rows[j].pc == rows[i].pc && j <= i)
  }

  lemma {:induction false} BestIsWinner(rows: seq<Row>, pc: nat, i: nat)
    requires Wins(rows, pc, i)
    ensures Best(rows, pc) == Some(rows[i])
  {
    var n := |rows| - 1;
    BestBounded(rows[..n], pc);
    if i < n {
      BestIsWinner(rows[..n], pc, i);
    } else {
      forall j | 0 <= j < n && rows[..n][j].pc <= pc
        ensures rows[..n][j].pc <= rows[n].pc
      {
        assert rows[..n][j] == rows[j];
      }
    }
  }

  /** The scan's answer is one of the rows, at most pc, and none exactly when all rows lie above pc. */
  lemma {:induction false} BestBounded(rows: seq<Row>, pc: nat)
    ensures Best(rows, pc).Some? ==> Best(rows, pc).value in rows && Best(rows, pc).value.pc <= pc
    ensures Best(rows, pc).None? <==> forall j :: 0 <= j < |rows| ==> rows[j].pc > pc
  {
    if rows != [] {
      var n := |rows| - 1;
      BestBounded(rows[..n], pc);
      forall j | 0 <= j < n
        ensures rows[..n][j] == rows[j]
      {
      }
      if Best(rows[..n], pc).None? {
        forall j | 0 <= j < n
          ensures rows[j].pc > pc
        {
          assert rows[..n][j].pc > pc;
        }
      }
    }
  }

  // ----- repeated rows -----

  /** The rows that are kept: a row is ignored when it repeats the last one kept.  The comparison
      is between the new row's own address and the relocated address of the stored row. */
  function Kept(rows: seq<Row>, base: nat): (r: seq<Row>)
    ensures |r| <= |rows| && (rows != [] ==> r != [])
  {
    if rows == [] then []
    else
      var n := |rows| - 1;
      var k, x := Kept(rows[..n], base), rows[n];
      if k != [] && k[|k| - 1] == x then k else k + [x.(pc := x.pc + base)]
  }

  /** Ignoring repeated rows does not change any answer. */
  lemma {:induction false} KeptSameAnswers(rows: seq<Row>, pc: nat)
    ensures Best(Kept(rows, 0), pc) == Best(rows, pc)
  {
    if rows != [] {
      var n := |rows| - 1;
      KeptSameAnswers(rows[..n], pc);
      var k, x := Kept(rows[..n], 0), rows[n];
      if !(k != [] && k[|k| - 1] == x) {
        assert (k + [x])[..|k|] == k;
      }
    }
  }

  function Relocated(rows: seq<Row>, base: nat): seq<Row>
  {
    seq(|rows|, i requires 0 <= i < |rows| => rows[i].(pc := rows[i].pc + base))
  }

  /** No row's own address coincides with the relocated address of an equal row before it. */
  ghost predicate NoCoincidence(rows: seq<Row>, base: nat)
  {
    forall i :: 0 < i < |rows| ==> rows[i] != rows[i - 1].(pc := rows[i - 1].pc + base)
  }

  /** Relocated modules: nothing is ignored as long as no coincidence occurs. */
  lemma {:induction false} KeptRelocated(rows: seq<Row>, base: nat)
    requires NoCoincidence(rows, base)
    ensures Kept(rows, base) == Relocated(rows, base)
  {
    if rows != [] {
      var n := |rows| - 1;
      forall i | 0 < i < n
        ensures rows[..n][i] != rows[..n][i - 1].(pc := rows[..n][i - 1].pc + base)
      {
        assert rows[i] != rows[i - 1].(pc := rows[i - 1].pc + base);
      }
      KeptRelocated(rows[..n], base);
      assert Relocated(rows, base)[..n] == Relocated(rows[..n], base);
    }
  }

  lemma {:induction false} CoincidenceDrops(rows: seq<Row>, base: nat)
    requires !NoCoincidence(rows, base)
    ensures |Kept(rows, base)| < |rows|
  {
    var n := |rows| - 1;
    var front := rows[..n];
    var i :| 0 < i < |rows| && rows[i] == rows[i - 1].(pc := rows[i - 1].pc + base);
    if i < n {
      assert front[i] == front[i - 1].(pc := front[i - 1].pc + base);
      CoincidenceDrops(front, base);
    } else if NoCoincidence(front, base) {
      KeptRelocated(front, base);
      assert Relocated(front, base)[n - 1] == rows[n];
    } else {
      CoincidenceDrops(front, base);
    }
  }

  /** A relocated module keeps all its rows exactly when no coincidence occurs. */
  lemma KeptAllIff(rows: seq<Row>, base: nat)
    ensures Kept(rows, base) == Relocated(rows, base) <==> NoCoincidence(rows, base)
  {
    if NoCoincidence(rows, base) {
      KeptRelocated(rows, base);
    } else {
      CoincidenceDrops(rows, base);
    }
  }

  /** With a coincidence the answer can be wrong: at base 16 the second row is ignored because its
      own address 16 equals the first row's relocated one, and the third row answers for 40. */
  lemma CoincidenceLosesRow(rows: seq<Row>)
    requires rows == [Row(0, 1, 5), Row(16, 1, 5), Row(8, 1, 9)]
    ensures Best(Relocated(rows, 16), 40) == Some(Row(32, 1, 5))
    ensures Best(Kept(rows, 16), 40) == Some(Row(24, 1, 9))
  {
    var r := Relocated(rows, 16);
    assert r == [Row(16, 1, 5), Row(32, 1, 5), Row(24, 1, 9)];
    assert Wins(r, 40, 1);
    BestIsWinner(r, 40, 1);
    assert rows[..2] == [Row(0, 1, 5), Row(16, 1, 5)];
    assert rows[..2][..1] == [Row(0, 1, 5)];
    assert Kept([Row(0, 1, 5)], 16) == [Row(16, 1, 5)];
    assert Kept(rows[..2], 16) == [Row(16, 1, 5)];
    assert Kept(rows, 16) == [Row(16, 1, 5), Row(24, 1, 9)];
    assert Wins(Kept(rows, 16), 40, 1);
    BestIsWinner(Kept(rows, 16), 40, 1);
  }

  // ----- the vector, the sort and the search -----

  function Stored(kept: seq<Row>): seq<Line>
  {
    seq(|kept|, i requires 0 <= i < |kept| => Line(kept[i].pc, kept[i].file, kept[i].line, i))
  }

  /** The rows read so far for one unit. */
  class LineVector {
    const base: nat
    var lines: seq<Line>
    ghost var rows: seq<Row>

    ghost predicate Valid()
      reads this
    {
      lines == Stored(Kept(rows, base))
    }

    constructor (base: nat)
      ensures Valid() && rows == [] && this.base == base
    {
      this.base := base;
      lines := [];
      rows := [];
    }

    /** Add a row unless it repeats the last one. */
    method AddLine(pc: nat, file: int, line: int)
      requires Valid()
      modifies this
      ensures Valid() && rows == old(rows) + [Row(pc, file, line)]
    {
      ghost var x, k := Row(pc, file, line), Kept(rows, base);
      assert (rows + [x])[..|rows|] == rows;
      rows := rows + [x];
      if |lines| > 0 {
        var ln := lines[|lines| - 1];
        if pc == ln.pc && file == ln.file && line == ln.line {
          return;
        }
      }
      lines := lines + [Line(pc + base, file, line, |lines|)];
      assert lines == Stored(k + [x.(pc := pc + base)]);
    }
  }

  /** Order by address, then by position in the vector. */
  function LineCompare(a: Line, b: Line): int
  {
    if a.pc < b.pc then -1 else if a.pc > b.pc then 1
    else if a.idx < b.idx then -1 else if a.idx > b.idx then 1 else 0
  }

  lemma LineCompareOrder()
    ensures TotalPreorder(LineCompare)
  {
  }

  /** Compare an address with entry i, looking at the entry behind it. */
  function LineSearch(t: seq<Line>, pc: nat, i: nat): int
  {
    if i + 1 >= |t| then -1
    else if pc < t[i].pc then -1
    else if pc >= t[i + 1].pc then 1
    else 0
  }

  function Searcher(t: seq<Line>, pc: nat): nat -> int
  {
    (i: nat) => LineSearch(t, pc, i)
  }

  /** A finished table: the stored rows in order, and a sentinel above every address. */
  ghost predicate IsTable(t: seq<Line>, kept: seq<Row>)
  {
    && |t| == |kept| + 1 && t[|kept|].pc == TOP
    && Sorted(LineCompare, t[..|kept|]) && multiset(t[..|kept|]) == multiset(Stored(kept))
    && forall i :: 0 <= i < |kept| ==> kept[i].pc <= TOP
  }

  lemma TableEntry(t: seq<Line>, kept: seq<Row>, i: nat)
    requires IsTable(t, kept) && i < |kept|
    ensures t[i].idx < |kept| && t[i] == Stored(kept)[t[i].idx]
  {
    PermIn(t[..|kept|], Stored(kept));
    assert t[..|kept|][i] in t[..|kept|];
    var j :| 0 <= j < |kept| && Stored(kept)[j] == t[i];
  }

  lemma TableHas(t: seq<Line>, kept: seq<Row>, j: nat) returns (i: nat)
    requires IsTable(t, kept) && j < |kept|
    ensures i < |kept| && t[i] == Stored(kept)[j]
  {
    PermIn(t[..|kept|], Stored(kept));
    assert Stored(kept)[j] in Stored(kept);
    i :| 0 <= i < |kept| && t[..|kept|][i] == Stored(kept)[j];
  }

  lemma TableOrder(t: seq<Line>, kept: seq<Row>, i: nat, j: nat)
    requires IsTable(t, kept) && i < j <= |kept|
    ensures t[i].pc <= t[j].pc
    ensures j < |kept| && t[i].pc == t[j].pc ==> t[i].idx <= t[j].idx
  {
    if j == |kept| {
      TableEntry(t, kept, i);
    } else {
      assert LineCompare(t[..|kept|][i], t[..|kept|][j]) <= 0;
    }
  }

  lemma SearchMonotone(t: seq<Line>, kept: seq<Row>, pc: nat)
    requires IsTable(t, kept)
    ensures Monotone(Searcher(t, pc), |kept|)
  {
    hide IsTable, Sorted;
    var cmp := Searcher(t, pc);
    forall i, j | 0 <= i < j < |kept|
      ensures (cmp(i) <= 0 ==> cmp(j) <= 0) && (cmp(i) < 0 ==> cmp(j) < 0)
    {
      TableLength(t, kept);
      TableOrder(t, kept, i, i + 1);
      if i + 1 < j { TableOrder(t, kept, i + 1, j); }
    }
  }

  lemma TableLength(t: seq<Line>, kept: seq<Row>)
    requires IsTable(t, kept)
    ensures |t| == |kept| + 1 && t[|kept|].pc == TOP
  {
  }

  /** The entry that matches an address belongs to the winning row. */
  lemma EntryWins(t: seq<Line>, kept: seq<Row>, pc: nat, k: nat)
    requires IsTable(t, kept) && k < |kept| && t[k].pc <= pc < t[k + 1].pc
    ensures t[k].idx < |kept| && Wins(kept, pc, t[k].idx)
  {
    hide IsTable, Sorted;
    TableLength(t, kept);
    TableEntry(t, kept, k);
    forall j: nat | j < |kept| && kept[j].pc <= pc
      ensures kept[j].pc < t[k].pc || (kept[j].pc == t[k].pc && j <= t[k].idx)
    {
      var i := TableHas(t, kept, j);
      if i > k {
        if k + 1 < i { TableOrder(t, kept, k + 1, i); }
      } else if i < k {
        TableOrder(t, kept, i, k);
      }
    }
  }

  /** Some entry matches any address between the lowest row and the sentinel. */
  lemma EntryExists(t: seq<Line>, kept: seq<Row>, pc: nat, j: nat) returns (k: nat)
    requires IsTable(t, kept) && pc < TOP && j < |kept| && t[j].pc <= pc
    ensures k < |kept| && t[k].pc <= pc < t[k + 1].pc
    decreases |kept| - j
  {
    k := j;
    TableLength(t, kept);
    while pc >= t[k + 1].pc
      invariant k < |kept| && t[k].pc <= pc
      decreases |kept| - k
    {
      k := k + 1;
    }
  }

  /** Sort the rows of a vector and put the sentinel behind them; nothing to do for no rows. */
  method FinishLines(vec: LineVector) returns (ok: bool, table: array<Line>)
    requires vec.Valid() && forall i :: 0 <= i < |vec.lines| ==> vec.lines[i].pc <= TOP
    ensures ok <==> vec.rows != []
    ensures ok ==> IsTable(table[..], Kept(vec.rows, vec.base))
  {
    hide Sorted, Rearranged;
    var n := |vec.lines|;
    ghost var kept := Kept(vec.rows, vec.base);
    if n == 0 {
      table := new Line[0];
      return false, table;
    }
    var lines := vec.lines;
    table := new Line[n + 1](i => if 0 <= i < n then lines[i] else Line(TOP, 0, 0, 0));
    ghost var t := table[..];
    assert t[..n] == lines;
    LineCompareOrder();
    ghost var depth := Qsort(table, 0, n, LineCompare);
    FinishedTable(t, table[..], kept);
    ok := true;
  }

  lemma FinishedTable(t: seq<Line>, u: seq<Line>, kept: seq<Row>)
    requires |t| == |kept| + 1 && t[..|kept|] == Stored(kept) && t[|kept|].pc == TOP
    requires Rearranged(t, u, 0, |kept|) && Sorted(LineCompare, u[0..|kept|])
    requires forall i :: 0 <= i < |kept| ==> Stored(kept)[i].pc <= TOP
    ensures IsTable(u, kept)
  {
    hide Sorted;
    var n := |kept|;
    assert u[0..n] == u[..n] && t[0..n] == t[..n];
    assert u[n..][0] == t[n..][0];
    forall i | 0 <= i < n
      ensures kept[i].pc <= TOP
    {
      assert Stored(kept)[i].pc <= TOP;
    }
  }

  /** Find the row for an address: the answer of the plain scan. */
  method LookupLine(table: array<Line>, pc: nat, ghost rows: seq<Row>, ghost base: nat) returns (found: bool, row: Row)
    requires pc < TOP && IsTable(table[..], Kept(rows, base))
    ensures Best(Kept(rows, base), pc) == if found then Some(row) else None
    ensures base == 0 ==> Best(rows, pc) == if found then Some(row) else None
    ensures NoCoincidence(rows, base) ==> Best(Relocated(rows, base), pc) == if found then Some(row) else None
  {
    hide IsTable, Best, Kept;
    ghost var kept := Kept(rows, base);
    var t := table[..];
    TableLength(t, kept);
    SearchMonotone(t, kept, pc);
    BestBounded(kept, pc);
    KeptSameAnswers(rows, pc);
    if NoCoincidence(rows, base) { KeptRelocated(rows, base); }
    var k := Bsearch(Searcher(t, pc), |t| - 1);
    if k < |t| - 1 {
      EntryWins(t, kept, pc, k);
      TableEntry(t, kept, k);
      BestIsWinner(kept, pc, t[k].idx);
      found, row := true, Row(t[k].pc, t[k].file, t[k].line);
    } else {
      found, row := false, Row(0, 0, 0);
      AllAbove(t, kept, pc);
    }
  }

  lemma SearchHit(t: seq<Line>, pc: nat, k: nat)
    requires k + 1 < |t| && t[k].pc <= pc < t[k + 1].pc
    ensures Searcher(t, pc)(k) == 0
  {
  }

  lemma AllAbove(t: seq<Line>, kept: seq<Row>, pc: nat)
    requires IsTable(t, kept) && pc < TOP && forall i: nat :: i < |kept| ==> Searcher(t, pc)(i) != 0
    ensures forall j :: 0 <= j < |kept| ==> kept[j].pc > pc
  {
    forall j: nat | j < |kept| && kept[j].pc <= pc
      ensures false
    {
      var i := TableHas(t, kept, j);
      var k := EntryExists(t, kept, pc, i);
      SearchHit(t, pc, k);
    }
  }
}
