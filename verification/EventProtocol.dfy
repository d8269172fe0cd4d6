/** The event of one thread: a shared counter and a futex, one waiter, any number of wakers.
    Every atomic operation and every system call is one step, and the steps of the waiter and
    the wakers interleave freely. */
module EventProtocol {

  /** Where the waiter is: outside, between its decrement and the futex call, asleep in the
      futex call, or returned from it by timeout and about to reset the counter. */
  datatype Waiter = Idle | Deciding(timed: bool) | Asleep(timed: bool) | TimedOut

  /** `pending` counts wakers that have incremented the counter but not yet made their wake call;
      waits, wakes and resets count the completed atomic updates. */
  datatype State = State(value: int, waiter: Waiter, pending: nat, waits: nat, wakes: nat, resets: nat)

  datatype Step =
    | WaitBegin(timed: bool)  // fetch_and_add -1
    | FutexWait               // sleep if the counter is still -1
    | Expire                  // the timeout of a timed wait
    | Reset                   // compare_and_swap -1 -> 0 after a timeout
    | Interrupt               // the futex call returns early
    | WakeBegin               // fetch_and_add +1
    | FutexWake               // wake one sleeper

  const INITIAL := State(0, Idle, 0, 0, 0, 0)

  predicate Can(s: State, step: Step)
  {
    match step
    case WaitBegin(_) => s.waiter.Idle?
    case FutexWait => s.waiter.Deciding?
    case Expire => s.waiter == Asleep(true)
    case Reset => s.waiter.TimedOut?
    case Interrupt => s.waiter.Asleep?
    case WakeBegin => true
    case FutexWake => s.pending > 0
  }

  function After(s: State, step: Step): State
    requires Can(s, step)
  {
    match step
    case WaitBegin(timed) =>
      s.(value := s.value - 1, waits := s.waits + 1, waiter := if s.value == 0 then Deciding(timed) else Idle)
    case FutexWait => s.(waiter := if s.value == -1 then Asleep(s.waiter.timed) else Idle)
    case Expire => s.(waiter := TimedOut)
    case Reset =>
      if s.value == -1 then s.(value := 0, resets := s.resets + 1, waiter := Idle) else s.(waiter := Idle)
    case Interrupt => s.(waiter := Idle)
    case WakeBegin =>
      s.(value := s.value + 1, wakes := s.wakes + 1, pending := if s.value != 0 then s.pending + 1 else s.pending)
    case FutexWake => s.(pending := s.pending - 1, waiter := if s.waiter.Asleep? then Idle else s.waiter)
  }

  ghost predicate IsRun(s: State, steps: seq<Step>)
    decreases |steps|
  {
    steps == [] || (Can(s, steps[0]) && IsRun(After(s, steps[0]), steps[1..]))
  }

  ghost function Final(s: State, steps: seq<Step>): State
    requires IsRun(s, steps)
    decreases |steps|
  {
    if steps == [] then s else Final(After(s, steps[0]), steps[1..])
  }

  // ----- every interleaving -----

  ghost predicate Inv(s: State)
  {
    && s.value == s.wakes - s.waits + s.resets
    && (!s.waiter.Idle? ==> s.value >= -1)
    && (s.waiter.Asleep? ==> s.value == -1 || s.pending > 0)
  }

  /** In every reachable state the counter balances the updates, and a sleeping waiter either has
      nothing to wake up for or a wake call is on its way. */
  lemma {:induction false} RunKeeps(s: State, steps: seq<Step>)
    requires Inv(s) && IsRun(s, steps)
    ensures Inv(Final(s, steps))
    decreases |steps|
  {
    if steps != [] { RunKeeps(After(s, steps[0]), steps[1..]); }
  }

  lemma InitialInv()
    ensures Inv(INITIAL) && Matched(INITIAL)
  {
  }

  /** No wakeup is lost: once the wakes cover the waits, a sleeper is woken by the next wake call,
      and there is one to be made. */
  lemma NoLostWakeup(start: State, steps: seq<Step>)
    requires Inv(start) && IsRun(start, steps)
    requires var s := Final(start, steps); s.waiter.Asleep? && s.wakes + s.resets >= s.waits
    ensures var s := Final(start, steps);
            Can(s, FutexWake) && After(s, FutexWake).waiter.Idle?
  {
    hide Final, IsRun;
    RunKeeps(start, steps);
  }

  // ----- when a wait returns without a wake -----

  /** The waits so far began with no wake call outstanding and were not interrupted. */
  ghost predicate Disciplined(s: State, steps: seq<Step>)
    requires IsRun(s, steps)
    decreases |steps|
  {
    steps == [] ||
    (&& (steps[0].WaitBegin? ==> s.pending == 0)
     && !steps[0].Interrupt?
     && Disciplined(After(s, steps[0]), steps[1..]))
  }

  ghost predicate Matched(s: State)
  {
    && s.value >= -1
    && (s.waiter.Idle? ==> s.value >= 0)
    && (s.pending > 0 ==> s.value >= 0)
  }

  lemma {:induction false} DisciplinedKeeps(s: State, steps: seq<Step>)
    requires Inv(s) && Matched(s) && IsRun(s, steps) && Disciplined(s, steps)
    ensures Matched(Final(s, steps))
    decreases |steps|
  {
    if steps != [] {
      MatchedStep(s, steps[0]);
      DisciplinedKeeps(After(s, steps[0]), steps[1..]);
    }
  }

  lemma MatchedStep(s: State, step: Step)
    requires Inv(s) && Matched(s) && Can(s, step) && (step.WaitBegin? ==> s.pending == 0) && !step.Interrupt?
    ensures Inv(After(s, step)) && Matched(After(s, step))
  {
  }

  /** In disciplined runs every wait that has returned was matched by a wake or undone by a reset. */
  lemma ReturnsAreMatched(start: State, steps: seq<Step>)
    requires Inv(start) && Matched(start) && IsRun(start, steps) && Disciplined(start, steps)
    requires Final(start, steps).waiter.Idle?
    ensures var s := Final(start, steps); s.waits <= s.wakes + s.resets
  {
    hide Final, IsRun, Disciplined;
    DisciplinedKeeps(start, steps);
    RunKeeps(start, steps);
  }

  /** A wait that starts at 0 can be sent back by a wake call while nothing has been added to the
      counter since, exactly when a wake call was outstanding as it started. */
  lemma StaleWakeIff(s: State, timed: bool)
    requires Inv(s) && s.waiter.Idle? && s.value == 0
    ensures s.pending > 0 <==>
            exists steps :: IsRun(s, [WaitBegin(timed)] + steps) && NoUpdates(steps) && Returns(After(s, WaitBegin(timed)), steps)
  {
    var s1 := After(s, WaitBegin(timed));
    if s.pending > 0 {
      var steps := [FutexWait, FutexWake];
      var all := [WaitBegin(timed)] + steps;
      assert all[1..] == steps && steps[1..] == [FutexWake] && [FutexWake][1..] == [];
      assert IsRun(After(s1, FutexWait), [FutexWake]);
      assert IsRun(s1, steps);
      assert Returns(s1, steps);
      assert NoUpdates(steps);
      assert IsRun(s, all);
    } else {
      forall steps | IsRun(s, [WaitBegin(timed)] + steps) && NoUpdates(steps) && Returns(s1, steps)
        ensures false
      {
        assert ([WaitBegin(timed)] + steps)[1..] == steps;
        QuietSleeps(s1, steps);
      }
    }
  }

  /** It happens: a wake overtakes a wait before it sleeps, its wake call comes late, and the next wait
      takes that call for its own.  Two waits have returned after one wake. */
  lemma StaleWakeRun(s: State, steps: seq<Step>, more: seq<Step>)
    requires s == INITIAL && steps == [WaitBegin(false), WakeBegin, FutexWait]
    requires more == [WaitBegin(false), FutexWait, FutexWake]
    ensures IsRun(s, steps) && Final(s, steps) == State(0, Idle, 1, 1, 1, 0)
    ensures IsRun(Final(s, steps), more) && Final(Final(s, steps), more) == State(-1, Idle, 0, 2, 1, 0)
  {
    ThreeSteps(s, steps[0], steps[1], steps[2], steps);
    ThreeSteps(Final(s, steps), more[0], more[1], more[2], more);
  }

  lemma ThreeSteps(s: State, a: Step, b: Step, c: Step, steps: seq<Step>)
    requires steps == [a, b, c] && Can(s, a) && Can(After(s, a), b) && Can(After(After(s, a), b), c)
    ensures IsRun(s, steps) && Final(s, steps) == After(After(After(s, a), b), c)
  {
    hide Can, After;
    assert steps[1..] == [b, c] && [b, c][1..] == [c] && [c][1..] == [];
    var s1 := After(s, a);
    var s2 := After(s1, b);
    assert IsRun(s2, [c]) && Final(s2, [c]) == After(s2, c);
    assert IsRun(s1, [b, c]) && Final(s1, [b, c]) == After(s2, c);
  }

  /** Only futex calls, no update of the counter and no interruption or timeout. */
  ghost predicate NoUpdates(steps: seq<Step>)
  {
    forall i :: 0 <= i < |steps| ==> steps[i].FutexWait? || steps[i].FutexWake?
  }

  ghost predicate Returns(s: State, steps: seq<Step>)
  {
    IsRun(s, steps) && Final(s, steps).waiter.Idle?
  }

  lemma {:induction false} QuietSleeps(s: State, steps: seq<Step>)
    requires s.pending == 0 && s.value == -1 && (s.waiter.Deciding? || s.waiter.Asleep?)
    requires IsRun(s, steps) && NoUpdates(steps)
    ensures !Final(s, steps).waiter.Idle?
    decreases |steps|
  {
    if steps != [] {
      var first := steps[0];
      assert first.FutexWait? || first.FutexWake?;
      forall i | 0 <= i < |steps[1..]|
        ensures steps[1..][i].FutexWait? || steps[1..][i].FutexWake?
      {
        assert steps[1..][i] == steps[i + 1];
      }
      QuietSleeps(After(s, steps[0]), steps[1..]);
    }
  }

  /** After such a return the counter is negative, and further waits return at once. */
  lemma {:induction false} NegativeNeverSleeps(s: State, timed: bool, n: nat)
    requires s.waiter.Idle? && s.value < 0
    ensures IsRun(s, seq(n, _ => WaitBegin(timed)))
    ensures Final(s, seq(n, _ => WaitBegin(timed))) == s.(value := s.value - n, waits := s.waits + n)
    decreases n
  {
    if n > 0 {
      var steps := seq(n, _ => WaitBegin(timed));
      assert steps[1..] == seq(n - 1, _ => WaitBegin(timed));
      NegativeNeverSleeps(After(s, WaitBegin(timed)), timed, n - 1);
    }
  }

  /** A timed wait gives its decrement back exactly when no wake reached the counter in time. */
  lemma TimeoutReset(s: State)
    requires Inv(s) && s.waiter.TimedOut?
    ensures After(s, Reset).resets == s.resets + 1 <==> s.wakes + s.resets < s.waits
    ensures After(s, Reset).value >= 0
  {
  }

  // ----- timed and untimed waits -----

  /** No wait begins in these steps. */
  ghost predicate SameWait(steps: seq<Step>)
  {
    forall i :: 0 <= i < |steps| ==> !steps[i].WaitBegin?
  }

  /** Between waits, or in one that is timed or not as given; only a timed wait can be past its timeout. */
  ghost predicate InWait(w: Waiter, timed: bool)
  {
    match w
    case Idle => true
    case Deciding(t) => t == timed
    case Asleep(t) => t == timed
    case TimedOut => timed
  }

  lemma {:induction false} WaitStaysTimed(s: State, steps: seq<Step>, timed: bool)
    requires InWait(s.waiter, timed) && IsRun(s, steps) && SameWait(steps)
    ensures InWait(Final(s, steps).waiter, timed)
    decreases |steps|
  {
    if steps != [] {
      assert !steps[0].WaitBegin?;
      TailSameWait(steps);
      WaitStaysTimed(After(s, steps[0]), steps[1..], timed);
    }
  }

  lemma TailSameWait(steps: seq<Step>)
    requires steps != [] && SameWait(steps)
    ensures SameWait(steps[1..])
  {
    assert forall i :: 0 <= i < |steps[1..]| ==> steps[1..][i] == steps[i + 1];
  }

  /** An untimed wait never times out, whatever happens until the next wait begins. */
  lemma UntimedNeverExpires(s: State, steps: seq<Step>, step: Step)
    requires Can(s, WaitBegin(false)) && IsRun(After(s, WaitBegin(false)), steps) && SameWait(steps)
    requires Can(Final(After(s, WaitBegin(false)), steps), step)
    ensures !Final(After(s, WaitBegin(false)), steps).waiter.TimedOut? && step != Expire && step != Reset
  {
    hide IsRun, Final;
    WaitStaysTimed(After(s, WaitBegin(false)), steps, false);
  }

  /** A timed wait that sleeps can always time out, reset the counter and return. */
  lemma TimedCanExpire(s: State, steps: seq<Step>)
    requires Can(s, WaitBegin(true)) && IsRun(After(s, WaitBegin(true)), steps) && SameWait(steps)
    requires Final(After(s, WaitBegin(true)), steps).waiter.Asleep?
    ensures var a := Final(After(s, WaitBegin(true)), steps);
            Can(a, Expire) && Can(After(a, Expire), Reset) && After(After(a, Expire), Reset).waiter.Idle?
  {
    hide IsRun, Final;
    WaitStaysTimed(After(s, WaitBegin(true)), steps, true);
  }

  /** A wake that comes first is taken by the next wait, with no system call by either side. */
  lemma WakeBeforeWait(s: State, timed: bool)
    requires s.waiter.Idle? && s.value == 0
    ensures Can(s, WakeBegin) && Can(After(s, WakeBegin), WaitBegin(timed))
    ensures After(After(s, WakeBegin), WaitBegin(timed)) == s.(waits := s.waits + 1, wakes := s.wakes + 1)
  {}

  /** A wake is followed by a wake call exactly when it does not find the counter at 0. */
  lemma WakeCallIff(s: State)
    ensures After(s, WakeBegin).pending == s.pending + 1 <==> s.value != 0
    ensures After(s, WakeBegin).pending == s.pending <==> s.value == 0
  {}

  /** From every state the waiter can return by its own steps alone. */
  lemma WaiterCanReturn(s: State) returns (steps: seq<Step>)
    ensures IsRun(s, steps) && Final(s, steps).waiter.Idle? && |steps| <= 2
    ensures forall i :: 0 <= i < |steps| ==> steps[i] in {FutexWait, Interrupt, Reset}
  {
    match s.waiter
    case Idle => steps := [];
    case Deciding(_) =>
      if s.value == -1 {
        steps := [FutexWait, Interrupt];
        assert steps[1..] == [Interrupt] && [Interrupt][1..] == [];
        assert IsRun(After(s, FutexWait), [Interrupt]);
      } else {
        steps := [FutexWait];
        assert steps[1..] == [];
      }
    case Asleep(_) =>
      steps := [Interrupt];
      assert steps[1..] == [];
    case TimedOut =>
      steps := [Reset];
      assert steps[1..] == [];
  }
}
