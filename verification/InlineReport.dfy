/** Reporting the inlined calls at a pc, innermost first, through a callback that can stop
    the report. */
module InlineReport {
  import opened Search
  import opened PcRanges

  /** A function, the place it was inlined at, and the ranges of what is inlined into it. */
  datatype Function = Function(name: int, callerFile: int, callerLine: int, inlined: seq<Range<Function>>)

  datatype Frame = Frame(file: int, line: int, name: int)

  /** The result of the callback depends on the frames it has been given so far. */
  type Callback = seq<Frame> -> int

  // ----- what the report should be -----

  /** The last range that contains pc, by a plain scan from the end; -1 when none does. */
  function LastContaining<T>(rs: seq<Range<T>>, pc: nat): (k: int)
    ensures -1 <= k < |rs|
  {
    if rs == [] then -1
    else if Contains(rs[|rs| - 1], pc) then |rs| - 1
    else LastContaining(rs[..|rs| - 1], pc)
  }

  lemma {:induction false} LastContainingRight<T>(rs: seq<Range<T>>, pc: nat)
    ensures Right(rs, pc, LastContaining(rs, pc))
  {
    if rs != [] && !Contains(rs[|rs| - 1], pc) {
      var front := rs[..|rs| - 1];
      LastContainingRight(front, pc);
      assert forall i :: 0 <= i < |front| ==> front[i] == rs[i];
    }
  }

  lemma RightIsUnique<T>(rs: seq<Range<T>>, pc: nat, k: int, m: int)
    requires Right(rs, pc, k) && Right(rs, pc, m) && k >= -1 && m >= -1
    ensures k == m
  {}

  /** The functions inlined at pc, innermost first: at every level the last one whose range
      contains pc, down to a function into which nothing is inlined there. */
  function InlinedAt(pc: nat, f: Function): seq<Function>
    decreases f
  {
    var k := LastContaining(f.inlined, pc);
    if k < 0 then [] else InlinedAt(pc, f.inlined[k].item) + [f.inlined[k].item]
  }

  /** The chains that lookups at every level can lead to. */
  ghost predicate IsChain(pc: nat, f: Function, chain: seq<Function>)
    decreases f
  {
    if chain == [] then Lands(f.inlined, pc, -1)
    else exists k :: 0 <= k < |f.inlined| && Lands(f.inlined, pc, k) && ChainVia(pc, f, k, chain)
  }

  ghost predicate ChainVia(pc: nat, f: Function, k: nat, chain: seq<Function>)
    requires chain != [] && k < |f.inlined|
    decreases f, 0
  {
    chain[|chain| - 1] == f.inlined[k].item && IsChain(pc, f.inlined[k].item, chain[..|chain| - 1])
  }

  /** The lookups along the way are ordered: the ranges are sorted and none has ended inside one
      that contains pc. */
  ghost predicate OrderedAlong(pc: nat, f: Function)
    decreases f
  {
    && InOrder(f.inlined) && NoneEndedInside(f.inlined, pc)
    && var k := LastContaining(f.inlined, pc);
       k >= 0 ==> OrderedAlong(pc, f.inlined[k].item)
  }

  /** Then there is one chain only, the functions inlined at pc. */
  lemma {:induction false} ChainIsInlined(pc: nat, f: Function, chain: seq<Function>)
    requires OrderedAlong(pc, f) && IsChain(pc, f, chain)
    ensures chain == InlinedAt(pc, f)
    decreases f
  {
    hide Lands, Right, InOrder, NoneEndedInside, InlinedAt, OrderedAlong, LastContaining;
    var rs := f.inlined;
    AlongStep(pc, f);
    LastContainingRight(rs, pc);
    if chain == [] {
      OrderedLandsRight(rs, pc, -1);
      RightIsUnique(rs, pc, -1, LastContaining(rs, pc));
    } else {
      var k :| 0 <= k < |rs| && Lands(rs, pc, k) && ChainVia(pc, f, k, chain);
      OrderedLandsRight(rs, pc, k);
      RightIsUnique(rs, pc, k, LastContaining(rs, pc));
      var n := |chain| - 1;
      ChainIsInlined(pc, rs[k].item, chain[..n]);
      assert chain == chain[..n] + [chain[n]];
    }
  }

  lemma AlongStep(pc: nat, f: Function)
    requires OrderedAlong(pc, f)
    ensures InOrder(f.inlined) && NoneEndedInside(f.inlined, pc)
    ensures var k := LastContaining(f.inlined, pc);
            if k < 0 then InlinedAt(pc, f) == []
            else OrderedAlong(pc, f.inlined[k].item)
                 && InlinedAt(pc, f) == InlinedAt(pc, f.inlined[k].item) + [f.inlined[k].item]
  {}

  /** g is inlined into f by a range that contains pc. */
  ghost predicate InlinedInto(pc: nat, f: Function, g: Function)
  {
    exists k :: 0 <= k < |f.inlined| && f.inlined[k].item == g && Contains(f.inlined[k], pc)
  }

  /** In any case every function of the chain is inlined at pc into the next one, and the last into f. */
  lemma {:induction false} ChainContains(pc: nat, f: Function, chain: seq<Function>, i: nat)
    requires IsChain(pc, f, chain) && i < |chain|
    ensures InlinedInto(pc, if i + 1 < |chain| then chain[i + 1] else f, chain[i])
    decreases f
  {
    hide Lands;
    var rs, n := f.inlined, |chain| - 1;
    var k :| 0 <= k < |rs| && Lands(rs, pc, k) && ChainVia(pc, f, k, chain);
    LandsOnMatch(rs, pc, k);
    if i < n {
      ChainContains(pc, rs[k].item, chain[..n], i);
    }
  }

  /** Each function with a position; the position of a caller is the call site of what is inside it. */
  function Frames(chain: seq<Function>, file: int, line: int): (r: seq<Frame>)
    ensures |r| == |chain|
  {
    if chain == [] then []
    else [Frame(file, line, chain[0].name)] + Frames(chain[1..], chain[0].callerFile, chain[0].callerLine)
  }

  lemma {:induction false} FramesAt(chain: seq<Function>, file: int, line: int, i: nat)
    requires i < |chain|
    ensures Frames(chain, file, line)[i].name == chain[i].name
    ensures i == 0 ==> Frames(chain, file, line)[i].file == file && Frames(chain, file, line)[i].line == line
    ensures i > 0 ==> Frames(chain, file, line)[i].file == chain[i - 1].callerFile
                      && Frames(chain, file, line)[i].line == chain[i - 1].callerLine
  {
    if i > 0 { FramesAt(chain[1..], chain[0].callerFile, chain[0].callerLine, i - 1); }
  }

  datatype Outcome = Outcome(ret: int, log: seq<Frame>)

  /** Give the frames to the callback in order until it returns something other than 0. */
  function Deliver(frames: seq<Frame>, cb: Callback, log: seq<Frame>): Outcome
    decreases |frames|
  {
    if frames == [] then Outcome(0, log)
    else
      var log1 := log + [frames[0]];
      if cb(log1) != 0 then Outcome(cb(log1), log1) else Deliver(frames[1..], cb, log1)
  }

  /** Delivery passes on a prefix of the frames: all of them if every result is 0, otherwise up to
      the first that is not, and that result is returned. */
  lemma {:induction false} DeliverStops(frames: seq<Frame>, cb: Callback, log: seq<Frame>) returns (n: nat)
    ensures n <= |frames| && Deliver(frames, cb, log).log == log + frames[..n]
    ensures Deliver(frames, cb, log).ret == 0 ==> n == |frames|
    ensures Deliver(frames, cb, log).ret != 0 ==> n > 0 && Deliver(frames, cb, log).ret == cb(log + frames[..n])
    ensures forall m :: 1 <= m < n ==> cb(log + frames[..m]) == 0
    ensures Deliver(frames, cb, log).ret == 0 && n > 0 ==> cb(log + frames[..n]) == 0
    decreases |frames|
  {
    if frames == [] {
      n := 0;
      assert log + frames[..0] == log;
    } else {
      var log1 := log + [frames[0]];
      assert log + frames[..1] == log1;
      if cb(log1) != 0 {
        n := 1;
      } else {
        var m := DeliverStops(frames[1..], cb, log1);
        n := m + 1;
        forall k | 1 <= k <= n
          ensures log + frames[..k] == log1 + frames[1..][..k - 1]
        {
        }
      }
    }
  }

  lemma {:induction false} DeliverConcat(a: seq<Frame>, b: seq<Frame>, cb: Callback, log: seq<Frame>)
    ensures Deliver(a + b, cb, log) ==
            var o := Deliver(a, cb, log);
            if o.ret != 0 then o else Deliver(b, cb, o.log)
    decreases |a|
  {
    if a == [] {
      assert a + b == b;
    } else {
      assert (a + b)[1..] == a[1..] + b;
      DeliverConcat(a[1..], b, cb, log + [a[0]]);
    }
  }

  /** The position to report for what the whole chain is inlined into. */
  function Outer(chain: seq<Function>, file: int, line: int): (int, int)
  {
    if chain == [] then (file, line) else (chain[|chain| - 1].callerFile, chain[|chain| - 1].callerLine)
  }

  lemma {:induction false} FramesSnoc(chain: seq<Function>, g: Function, file: int, line: int)
    ensures Frames(chain + [g], file, line) ==
            Frames(chain, file, line) + [Frame(Outer(chain, file, line).0, Outer(chain, file, line).1, g.name)]
    decreases |chain|
  {
    if chain != [] {
      var c := chain[0];
      assert (chain + [g])[1..] == chain[1..] + [g];
      FramesSnoc(chain[1..], g, c.callerFile, c.callerLine);
      assert Outer(chain[1..], c.callerFile, c.callerLine) == Outer(chain, file, line);
    } else {
      assert chain + [g] == [g];
    }
  }

  // ----- the report -----

  /** Report the inlined calls of f at pc; the position is updated for the caller's own report. */
  method ReportInlined(pc: nat, f: Function, cb: Callback, log0: seq<Frame>, file0: int, line0: int)
    returns (ret: int, log: seq<Frame>, file: int, line: int, ghost chain: seq<Function>)
    ensures IsChain(pc, f, chain)
    ensures Outcome(ret, log) == Deliver(Frames(chain, file0, line0), cb, log0)
    ensures OrderedAlong(pc, f) ==>
              chain == InlinedAt(pc, f) && Outcome(ret, log) == Deliver(Frames(InlinedAt(pc, f), file0, line0), cb, log0)
    ensures ret == 0 ==> (file, line) == Outer(chain, file0, line0)
    decreases f
  {
    hide Lands, Right, InOrder, NoneEndedInside, OrderedAlong, InlinedAt;
    ret, log, file, line, chain := 0, log0, file0, line0, [];
    if |f.inlined| == 0 {
      NothingInlined(pc, f);
      return;
    }
    var found, k := FindRange(f.inlined, pc);
    if !found {
      if OrderedAlong(pc, f) { ChainIsInlined(pc, f, chain); }
      return;
    }
    var inlined := f.inlined[k].item;
    ghost var inner;
    ret, log, file, line, inner := ReportInlined(pc, inlined, cb, log, file, line);
    chain := inner + [inlined];
    ChainSnoc(pc, f, k, inner);
    if OrderedAlong(pc, f) { ChainIsInlined(pc, f, chain); }
    FramesSnoc(inner, inlined, file0, line0);
    ghost var last := Frame(Outer(inner, file0, line0).0, Outer(inner, file0, line0).1, inlined.name);
    DeliverConcat(Frames(inner, file0, line0), [last], cb, log0);
    if ret != 0 {
      return;
    }
    DeliverOne(last, cb, log);
    log := log + [Frame(file, line, inlined.name)];
    ret := cb(log);
    if ret != 0 {
      return;
    }
    file, line := inlined.callerFile, inlined.callerLine;
  }

  lemma NothingInlined(pc: nat, f: Function)
    requires f.inlined == []
    ensures IsChain(pc, f, []) && InlinedAt(pc, f) == []
  {
    assert Arrives(RangeSearcher(f.inlined, pc), 0, 0, -1) && Landing(f.inlined, pc, -1) == -1;
  }

  lemma ChainSnoc(pc: nat, f: Function, k: nat, inner: seq<Function>)
    requires k < |f.inlined| && Lands(f.inlined, pc, k) && IsChain(pc, f.inlined[k].item, inner)
    ensures IsChain(pc, f, inner + [f.inlined[k].item])
  {
    hide Lands;
    var chain := inner + [f.inlined[k].item];
    assert chain[..|chain| - 1] == inner;
    assert ChainVia(pc, f, k, chain);
  }

  lemma DeliverOne(x: Frame, cb: Callback, log: seq<Frame>)
    ensures Deliver([x], cb, log) == Outcome(cb(log + [x]), log + [x])
  {
    assert Deliver([x][1..], cb, log + [x]) == Outcome(0, log + [x]);
  }

  /** Report a pc in function f: the inlined calls, then f itself. */
  method ReportPc(pc: nat, f: Function, cb: Callback, file0: int, line0: int)
    returns (ret: int, log: seq<Frame>)
    ensures exists chain :: IsChain(pc, f, chain) && Outcome(ret, log) == Deliver(Frames(chain + [f], file0, line0), cb, [])
    ensures OrderedAlong(pc, f) ==>
              Outcome(ret, log) == Deliver(Frames(InlinedAt(pc, f) + [f], file0, line0), cb, [])
  {
    hide IsChain, OrderedAlong, InlinedAt;
    var file, line;
    ghost var chain;
    ret, log, file, line, chain := ReportInlined(pc, f, cb, [], file0, line0);
    FramesSnoc(chain, f, file0, line0);
    ghost var last := Frame(Outer(chain, file0, line0).0, Outer(chain, file0, line0).1, f.name);
    DeliverConcat(Frames(chain, file0, line0), [last], cb, []);
    if ret != 0 {
      return;
    }
    DeliverOne(last, cb, log);
    log := log + [Frame(file, line, f.name)];
    ret := cb(log);
  }
}
