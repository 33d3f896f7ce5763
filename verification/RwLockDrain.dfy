/** The reader/writer lock drains: once no new calls are made and every holder
    releases, all processes get through, within a number of steps that can be read
    off the state. */
module RwLockDrain {
  import opened RwLock
  import opened RwLockSafety
  import opened WeightedSum

  /** Events of a draining run: steps of calls in progress, holders starting to
      release, and lock or mode calls that give up at P(0). */
  predicate Draining(s: State, e: Event) {
    Enabled(s, e) &&
    match e.action
    case Call(_) => false
    case CallMode(_) => false
    case CallUnlock => true
    case Advance => true
    case Fail => !s.procs[e.proc].UnlockCall?
  }

  predicate DrainRun(s: State, events: seq<Event>)
    decreases |events|
  {
    events == [] || (Draining(s, events[0]) && DrainRun(Do(s, events[0]), events[1..]))
  }

  lemma {:induction false} DrainRunFeasible(s: State, events: seq<Event>)
    requires DrainRun(s, events)
    ensures Feasible(s, events)
    decreases |events|
  {
    if events != [] { DrainRunFeasible(Do(s, events[0]), events[1..]); }
  }

  /** Steps a process still has before it, not counting the releases it performs. */
  function Rank(pc: Pc): int {
    match pc
    case Idle => 0
    case Exit => 1
    case GrantWriterCount => 2
    case GrantReadersCount(_) => 2
    case GrantWriter => 3
    case GrantReaders(_) => 3
    case UnlockDecide(_) => 4
    case UnlockDrop(_) => 5
    case UnlockCall(_) => 6
    case Holding(_) => 7
    case Blocked(_) => 8
    case LockGranted(_) => 8
    case LockQueued(_) => 9
    case LockDecide(_) => 12
    case LockCall(_) => 13
    case ModeSet(_) => 2
    case ModeCall(_) => 3
  }

  /** Each queued process costs its releaser two more steps. */
  function Waits(sh: Shared): int {
    2 * (sh.waitReaders + sh.waitWriters)
  }

  ghost function Remaining(s: State): int {
    Sum(Rank, s.procs) + Waits(s.shared)
  }

  lemma RemainingNonNegative(s: State)
    requires Inv(s)
    ensures 0 <= Remaining(s)
  {
    SumNonNegative(Rank, s.procs);
  }

  /** What a step of a process gains, against what the waiting it ends or begins costs. */
  lemma AdvanceGains(sh: Shared, pc: Pc)
    requires CanAdvance(sh, pc) && PcFacts(sh, pc)
    ensures Rank(AdvancePc(sh, pc)) + Waits(AdvanceShared(sh, pc)) < Rank(pc) + Waits(sh)
  {
  }

  lemma DrainStepDecreases(s: State, e: Event)
    requires Inv(s) && Draining(s, e)
    ensures Remaining(Do(s, e)) < Remaining(s)
  {
    var s' := Do(s, e);
    SumUpdate(Rank, s.procs, e.proc, s'.procs[e.proc]);
    if e.action.Advance? {
      AdvanceGains(s.shared, s.procs[e.proc]);
    }
  }

  /** Every draining run is finite, with a bound known at its start. */
  lemma {:induction false} DrainRunBounded(s: State, events: seq<Event>)
    requires Inv(s) && DrainRun(s, events)
    ensures |events| <= Remaining(s)
    decreases |events|
  {
    if events == [] {
      RemainingNonNegative(s);
    } else {
      DrainStepDecreases(s, events[0]);
      StepKeepsInv(s, events[0]);
      DrainRunBounded(Do(s, events[0]), events[1..]);
    }
  }

  ghost predicate AllIdle(s: State) {
    forall i :: 0 <= i < |s.procs| ==> s.procs[i].Idle?
  }

  /** No deadlock: while some process is inside a call or holds the lock, some
      draining step is enabled. */
  lemma DrainProgress(s: State) returns (e: Event)
    requires Inv(s) && !AllIdle(s)
    ensures Draining(s, e)
  {
    SumNonNegative(InControl, s.procs);
    if s.shared.control == 0 {
      var i := PositiveElement(InControl, s.procs);
      e := Event(i, Advance);
    } else {
      NoneInControl(s);
      if i :| 0 <= i < |s.procs| && !s.procs[i].Idle? && !s.procs[i].Blocked? {
        e := if s.procs[i].Holding? then Event(i, CallUnlock) else Event(i, Advance);
      } else {
        var i := BlockedCanAdvance(s);
        e := Event(i, Advance);
      }
    }
  }

  /** When everybody left is blocked, one of them has a token waiting. */
  lemma BlockedCanAdvance(s: State) returns (i: nat)
    requires Inv(s) && !AllIdle(s) && s.shared.control == 1
    requires forall i :: 0 <= i < |s.procs| ==> s.procs[i].Idle? || s.procs[i].Blocked?
    ensures i < |s.procs| && s.procs[i].Blocked? && CanAdvance(s.shared, s.procs[i])
  {
    NoneInControl(s);
    SumZero(Held(Reader), s.procs);
    SumZero(Held(Writer), s.procs);
    if s.shared.readTokens > 0 {
      SumNonNegative(Posted(Reader), s.procs);
      i := PositiveElement(Pending(Reader), s.procs);
    } else if s.shared.writeTokens > 0 {
      i := PositiveElement(Pending(Writer), s.procs);
    } else {
      i :| 0 <= i < |s.procs| && !s.procs[i].Idle?;
      CountsBound(s.procs, i);
      assert false;
    }
  }

  predicate FullyUnlocked(sh: Shared) {
    sh.control == 1 && sh.readTokens == 0 && sh.writeTokens == 0 &&
    sh.readers == 0 && sh.waitReaders == 0 && sh.writers == 0 && sh.waitWriters == 0
  }

  /** A drained lock is back in the state that Create leaves, apart from the mode. */
  lemma IdleIsUnlocked(s: State)
    requires Inv(s) && AllIdle(s)
    ensures FullyUnlocked(s.shared)
  {
    SumZero(InControl, s.procs);
    SumZero(Held(Reader), s.procs);
    SumZero(Held(Writer), s.procs);
    SumZero(Pending(Reader), s.procs);
    SumZero(Pending(Writer), s.procs);
    SumZero(Posted(Reader), s.procs);
    SumZero(Posted(Writer), s.procs);
  }

  /** From every reachable state, any draining run that cannot be continued has
      emptied the lock, and it took at most Remaining steps. */
  lemma {:induction false} LockDrains(n: nat, history: seq<Event>, drain: seq<Event>)
    requires Feasible(Initial(n), history)
    requires DrainRun(Run(Initial(n), history), drain)
    ensures Feasible(Run(Initial(n), history), drain)
    ensures |drain| <= Remaining(Run(Initial(n), history))
    ensures
      var last := Run(Run(Initial(n), history), drain);
      (forall e :: !Draining(last, e)) ==> AllIdle(last) && FullyUnlocked(last.shared)
  {
    var s := Run(Initial(n), history);
    InitialInv(n);
    RunKeepsInv(Initial(n), history);
    DrainRunFeasible(s, drain);
    DrainRunBounded(s, drain);
    RunKeepsInv(s, drain);
    var last := Run(s, drain);
    if AllIdle(last) {
      IdleIsUnlocked(last);
    } else {
      var e := DrainProgress(last);
    }
  }
}
