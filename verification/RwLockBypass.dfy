/** How long a queued writer is kept waiting when writers are preferred. */
module RwLockBypass {
  import opened RwLock
  import opened RwLockSafety
  import opened WeightedSum

  predicate IsReaderRelease(s: State, e: Event) {
    e.action.Advance? && e.proc < |s.procs| && s.procs[e.proc] == UnlockDrop(Reader)
  }

  predicate IsWriterGrant(s: State, e: Event) {
    e.action.Advance? && e.proc < |s.procs| && s.procs[e.proc] == GrantWriter
  }

  predicate IsModeStore(s: State, e: Event) {
    e.action.Advance? && e.proc < |s.procs| && s.procs[e.proc].ModeSet?
  }

  /** The run contains V(2), the grant of the lock to a queued writer. */
  predicate Grants(s: State, events: seq<Event>)
    requires Feasible(s, events)
    decreases |events|
  {
    events != [] &&
    (IsWriterGrant(s, events[0]) || Grants(Do(s, events[0]), events[1..]))
  }

  /** Reader releases in the run, up to its first grant to a writer. */
  function ReleasesBeforeGrant(s: State, events: seq<Event>): nat
    requires Feasible(s, events)
    decreases |events|
  {
    if events == [] || IsWriterGrant(s, events[0]) then 0
    else
      (if IsReaderRelease(s, events[0]) then 1 else 0) +
      ReleasesBeforeGrant(Do(s, events[0]), events[1..])
  }

  /** No step of the run stores a mode. */
  predicate ModeKept(s: State, events: seq<Event>)
    requires Feasible(s, events)
    decreases |events|
  {
    events == [] ||
    (!IsModeStore(s, events[0]) && ModeKept(Do(s, events[0]), events[1..]))
  }

  /** A writer is queued, none holds, and any release in progress is about to grant. */
  predicate Waiting(s: State) {
    && s.shared.mode.PreferWrite?
    && s.shared.writers == 0
    && s.shared.waitWriters > 0
    && forall i :: 0 <= i < |s.procs| ==> WaitingPc(s.shared, s.procs[i])
  }

  predicate WaitingPc(sh: Shared, pc: Pc) {
    match pc
    case GrantReaders(_) => false
    case GrantReadersCount(_) => false
    case GrantWriterCount => false
    case LockGranted(_) => false
    case UnlockDrop(role) => role.Reader?
    case UnlockDecide(role) => role.Reader?
    case GrantWriter => true
    case _ => InControl(pc) == 1 ==> sh.readers > 0
  }

  /** A step from Waiting that does not grant stays in Waiting; the reader counter
      falls by one exactly when the step is a reader's release. */
  lemma WaitingStep(s: State, e: Event)
    requires Inv(s) && Waiting(s) && Enabled(s, e) && !IsModeStore(s, e) && !IsWriterGrant(s, e)
    ensures Waiting(Do(s, e))
    ensures Do(s, e).shared.readers == s.shared.readers - (if IsReaderRelease(s, e) then 1 else 0)
  {
    var s' := Do(s, e);
    var pc := s.procs[e.proc];
    assert WaitingPc(s.shared, pc) && PcFacts(s.shared, pc);
    CountsBound(s.procs, e.proc);
    if InControl(pc) == 1 {
      OneInControl(s, e.proc);
    } else if s.shared.control == 1 {
      NoneInControl(s);
    }
    forall j | 0 <= j < |s'.procs| ensures WaitingPc(s'.shared, s'.procs[j]) {
      if j != e.proc {
        assert s'.procs[j] == s.procs[j] && WaitingPc(s.shared, s.procs[j]);
      }
    }
  }

  lemma GrantNeedsNoReader(s: State, e: Event)
    requires Inv(s) && Enabled(s, e) && IsWriterGrant(s, e)
    ensures s.shared.readers == 0
  {
    assert PcFacts(s.shared, s.procs[e.proc]);
  }

  lemma {:induction false} WaitingRun(s: State, events: seq<Event>)
    requires Inv(s) && Waiting(s) && Feasible(s, events) && ModeKept(s, events)
    ensures Grants(s, events) ==> ReleasesBeforeGrant(s, events) == s.shared.readers
    ensures !Grants(s, events) ==>
              Waiting(Run(s, events)) && Inv(Run(s, events)) &&
              Run(s, events).shared.readers == s.shared.readers - ReleasesBeforeGrant(s, events)
    decreases |events|
  {
    if events != [] {
      if IsWriterGrant(s, events[0]) {
        GrantNeedsNoReader(s, events[0]);
      } else {
        WaitingStep(s, events[0]);
        StepKeepsInv(s, events[0]);
        WaitingRun(Do(s, events[0]), events[1..]);
      }
    }
  }

  lemma WaitingWhenFree(s: State)
    requires Inv(s) && Waiting(s) && s.shared.control == 1
    ensures s.shared.readers > 0
  {
  }

  lemma QueuedWriterWaits(s: State, i: nat)
    requires Inv(s) && i < |s.procs| && s.procs[i] == LockQueued(Writer)
    requires s.shared.mode.PreferWrite? && s.shared.writers == 0 && s.shared.waitWriters > 0
    ensures Waiting(s)
  {
    OneInControl(s, i);
    assert PcFacts(s.shared, s.procs[i]);
    forall j | 0 <= j < |s.procs| ensures WaitingPc(s.shared, s.procs[j]) {
      if j != i { assert InControl(s.procs[j]) == 0; }
    }
  }

  /** In PreferWrite, when a writer queues while no writer holds, the next grant to a
      writer comes after exactly as many reader releases as the reader counter showed
      when it queued, however many lock calls arrive in between; and until that many
      releases have happened no grant has. Once they have, the grant cannot be missing
      when the control semaphore is next free. */
  lemma WriterGrantedAfterExactly(n: nat, history: seq<Event>, i: nat, events: seq<Event>)
    requires Feasible(Initial(n), history)
    requires
      var s := Run(Initial(n), history);
      && i < |s.procs| && s.procs[i] == LockDecide(Writer)
      && s.shared.mode.PreferWrite? && s.shared.writers == 0 && !MayGrant(s.shared, Writer)
    requires
      var s := Do(Run(Initial(n), history), Event(i, Advance));
      Feasible(s, events) && ModeKept(s, events)
    ensures
      var s := Do(Run(Initial(n), history), Event(i, Advance));
      && s.shared.readers > 0
      && ReleasesBeforeGrant(s, events) <= s.shared.readers
      && (Grants(s, events) ==> ReleasesBeforeGrant(s, events) == s.shared.readers)
      && (!Grants(s, events) && Run(s, events).shared.control == 1 ==>
            ReleasesBeforeGrant(s, events) < s.shared.readers)
  {
    var s0 := Run(Initial(n), history);
    InitialInv(n);
    RunKeepsInv(Initial(n), history);
    StepKeepsInv(s0, Event(i, Advance));
    var s := Do(s0, Event(i, Advance));
    QueuedWriterWaits(s, i);
    WaitingRun(s, events);
    if !Grants(s, events) && Run(s, events).shared.control == 1 {
      WaitingWhenFree(Run(s, events));
    }
  }
}
