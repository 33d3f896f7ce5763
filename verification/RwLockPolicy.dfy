/** Whom the two modes of the reader/writer lock let in, told by what the processes do and
    not by the tests on the counters. */
module RwLockPolicy {
  import opened RwLock
  import opened RwLockSafety
  import opened WeightedSum

  ghost predicate Holds(s: State, role: Role) {
    exists i :: HoldsAs(s, i, role)
  }

  /** Some process has queued in the role and has not got through P(1) or P(2). */
  ghost predicate Waits(s: State, role: Role) {
    exists i :: PendsAs(s, i, role)
  }

  ghost predicate PendsAs(s: State, i: nat, role: Role) {
    i < |s.procs| && Pending(role)(s.procs[i]) == 1
  }

  lemma HoldsIsSum(s: State, role: Role)
    ensures Sum(Held(role), s.procs) >= 0
    ensures Holds(s, role) <==> Sum(Held(role), s.procs) > 0
  {
    SumNonNegative(Held(role), s.procs);
    if i: nat :| HoldsAs(s, i, role) {
      SumAtLeastOne(Held(role), s.procs, i, Idle);
    }
    if Sum(Held(role), s.procs) > 0 {
      var i := PositiveElement(Held(role), s.procs);
      assert HoldsAs(s, i, role);
    }
  }

  lemma WaitsIsSum(s: State, role: Role)
    ensures Sum(Pending(role), s.procs) >= 0
    ensures Waits(s, role) <==> Sum(Pending(role), s.procs) > 0
  {
    SumNonNegative(Pending(role), s.procs);
    if i: nat :| PendsAs(s, i, role) {
      SumAtLeastOne(Pending(role), s.procs, i, Idle);
    }
    if Sum(Pending(role), s.procs) > 0 {
      var i := PositiveElement(Pending(role), s.procs);
      assert PendsAs(s, i, role);
    }
  }

  /** The counters that a process at its test reads, in terms of the processes. */
  lemma CountersInside(s: State, i: nat)
    requires Inv(s) && i < |s.procs| && s.procs[i].LockDecide?
    ensures s.shared.writers == 0 <==> !Holds(s, Writer) && s.shared.writeTokens == 0
    ensures s.shared.readers == 0 <==> !Holds(s, Reader) && s.shared.readTokens == 0
    ensures s.shared.writers == 0 && s.shared.waitWriters == 0 <==> !Holds(s, Writer) && !Waits(s, Writer)
    ensures s.shared.readers == 0 && s.shared.waitReaders == 0 <==> !Holds(s, Reader) && !Waits(s, Reader)
  {
    OneInControl(s, i);
    HoldsIsSum(s, Writer);
    HoldsIsSum(s, Reader);
    WaitsIsSum(s, Writer);
    WaitsIsSum(s, Reader);
  }

  ghost predicate Reached(n: nat, events: seq<Event>, s: State) {
    Feasible(Initial(n), events) && Run(Initial(n), events) == s
  }

  lemma ReachedInv(n: nat, events: seq<Event>, s: State)
    requires Reached(n, events, s)
    ensures Inv(s)
  {
    InitialInv(n);
    RunKeepsInv(Initial(n), events);
  }

  /** A lock call is let in at its test, and does not queue. */
  ghost predicate LetIn(s: State, i: nat)
    requires i < |s.procs| && s.procs[i].LockDecide?
  {
    Do(s, Event(i, Advance)).procs[i] == LockGranted(s.procs[i].role)
  }

  /** With readers preferred a reader is let in exactly unless a writer holds or has a
      token; waiting writers do not matter. */
  lemma PreferReadLetsReaderIn(n: nat, events: seq<Event>, s: State, i: nat)
    requires Reached(n, events, s) && i < |s.procs| && s.procs[i] == LockDecide(Reader) && s.shared.mode.PreferRead?
    ensures LetIn(s, i) <==> !Holds(s, Writer) && s.shared.writeTokens == 0
  {
    ReachedInv(n, events, s);
    CountersInside(s, i);
  }

  /** With writers preferred exactly unless a writer holds or waits. */
  lemma PreferWriteLetsReaderIn(n: nat, events: seq<Event>, s: State, i: nat)
    requires Reached(n, events, s) && i < |s.procs| && s.procs[i] == LockDecide(Reader) && s.shared.mode.PreferWrite?
    ensures LetIn(s, i) <==> !Holds(s, Writer) && !Waits(s, Writer)
  {
    ReachedInv(n, events, s);
    CountersInside(s, i);
  }

  /** With readers preferred a writer is let in exactly if nobody holds, no reader waits
      and no writer has a token. */
  lemma PreferReadLetsWriterIn(n: nat, events: seq<Event>, s: State, i: nat)
    requires Reached(n, events, s) && i < |s.procs| && s.procs[i] == LockDecide(Writer) && s.shared.mode.PreferRead?
    ensures LetIn(s, i) <==> !Holds(s, Reader) && !Waits(s, Reader) && !Holds(s, Writer) && s.shared.writeTokens == 0
  {
    ReachedInv(n, events, s);
    CountersInside(s, i);
  }

  /** With writers preferred exactly if nobody holds and nobody has a token. */
  lemma PreferWriteLetsWriterIn(n: nat, events: seq<Event>, s: State, i: nat)
    requires Reached(n, events, s) && i < |s.procs| && s.procs[i] == LockDecide(Writer) && s.shared.mode.PreferWrite?
    ensures LetIn(s, i) <==>
            !Holds(s, Reader) && s.shared.readTokens == 0 && !Holds(s, Writer) && s.shared.writeTokens == 0
  {
    ReachedInv(n, events, s);
    CountersInside(s, i);
  }

  // Who goes first when the lock is released.

  /** A release in progress lets the preferred role go first. */
  predicate InTurn(sh: Shared, pc: Pc) {
    && (pc.GrantWriter? && sh.mode.PreferRead? ==> sh.waitReaders == 0)
    && ((pc.GrantReaders? || pc.GrantReadersCount?) && sh.mode.PreferWrite? ==> sh.waitWriters == 0)
  }

  /** Readers wait only behind a writer; with readers preferred all the time, only behind
      one that holds. */
  predicate Behind(sh: Shared, always: bool) {
    && (sh.waitReaders > 0 ==> sh.writers > 0 || sh.waitWriters > 0)
    && (always && sh.waitReaders > 0 ==> sh.writers > 0)
  }

  predicate BehindPc(sh: Shared, pc: Pc, always: bool) {
    match pc
    case UnlockDecide(_) => true
    case GrantReaders(_) => true
    case GrantReadersCount(_) => true
    case GrantWriter => true
    case GrantWriterCount => true
    case _ => InControl(pc) == 1 ==> Behind(sh, always)
  }

  /** What a process in its release knows about waiting readers and writers. */
  predicate Owes(sh: Shared, pc: Pc, always: bool) {
    match pc
    case UnlockDecide(role) => role.Reader? ==> Behind(sh, false)
    case GrantWriter => always ==> sh.waitReaders == 0
    case GrantWriterCount => always ==> sh.waitReaders == 0
    case _ => true
  }

  predicate PolicyPc(sh: Shared, pc: Pc, always: bool) {
    InTurn(sh, pc) && BehindPc(sh, pc, always) && Owes(sh, pc, always)
  }

  ghost predicate Policy(s: State, always: bool) {
    && (always ==> s.shared.mode.PreferRead?)
    && (s.shared.control == 1 ==> Behind(s.shared, always))
    && forall i :: 0 <= i < |s.procs| ==> PolicyPc(s.shared, s.procs[i], always)
  }

  predicate StoresWrite(s: State, e: Event) {
    e.action.Advance? && e.proc < |s.procs| && s.procs[e.proc] == ModeSet(PreferWrite)
  }

  lemma InitialPolicy(n: nat)
    ensures Policy(Initial(n), true)
  {
  }

  lemma OwnStepKeepsPolicy(s: State, i: nat, always: bool)
    requires Inv(s) && Policy(s, always) && i < |s.procs| && CanAdvance(s.shared, s.procs[i])
    requires always ==> !StoresWrite(s, Event(i, Advance))
    ensures var s' := Do(s, Event(i, Advance));
            && (always ==> s'.shared.mode.PreferRead?)
            && (s'.shared.control == 1 ==> Behind(s'.shared, always))
            && PolicyPc(s'.shared, s'.procs[i], always)
  {
    assert PcFacts(s.shared, s.procs[i]) && PolicyPc(s.shared, s.procs[i], always);
    CountsBound(s.procs, i);
    if InControl(s.procs[i]) == 1 {
      OneInControl(s, i);
    } else if s.shared.control == 1 {
      NoneInControl(s);
    }
  }

  /** A process inside the control section sees no other counters move, and one outside
      knows nothing about them. */
  lemma OtherKeepsPolicy(s: State, e: Event, j: nat, always: bool)
    requires Inv(s) && Enabled(s, e) && j < |s.procs| && j != e.proc && PolicyPc(s.shared, s.procs[j], always)
    ensures PolicyPc(Do(s, e).shared, Do(s, e).procs[j], always)
  {
    assert Do(s, e).procs[j] == s.procs[j];
    if InControl(s.procs[e.proc]) == 1 { OneInControl(s, e.proc); }
    if InControl(s.procs[j]) == 1 { OneInControl(s, j); }
  }

  lemma StepKeepsPolicy(s: State, e: Event, always: bool)
    requires Inv(s) && Policy(s, always) && Enabled(s, e) && (always ==> !StoresWrite(s, e))
    ensures Policy(Do(s, e), always)
  {
    var s' := Do(s, e);
    assert PolicyPc(s.shared, s.procs[e.proc], always);
    if e.action.Advance? { OwnStepKeepsPolicy(s, e.proc, always); }
    forall j | 0 <= j < |s'.procs| ensures PolicyPc(s'.shared, s'.procs[j], always) {
      if j != e.proc {
        assert PolicyPc(s.shared, s.procs[j], always);
        OtherKeepsPolicy(s, e, j, always);
      }
    }
  }

  /** No step of the run stores PreferWrite. */
  predicate ReadKept(s: State, events: seq<Event>)
    requires Feasible(s, events)
    decreases |events|
  {
    events == [] || (!StoresWrite(s, events[0]) && ReadKept(Do(s, events[0]), events[1..]))
  }

  lemma {:induction false} RunKeepsPolicy(s: State, events: seq<Event>, always: bool)
    requires Inv(s) && Policy(s, always) && Feasible(s, events) && (always ==> ReadKept(s, events))
    ensures Policy(Run(s, events), always)
    decreases |events|
  {
    if events != [] {
      StepKeepsPolicy(s, events[0], always);
      StepKeepsInv(s, events[0]);
      RunKeepsPolicy(Do(s, events[0]), events[1..], always);
    }
  }

  lemma ReachedPolicy(n: nat, events: seq<Event>, s: State)
    requires Reached(n, events, s)
    ensures Inv(s) && Policy(s, false)
    ensures ReadKept(Initial(n), events) ==> Policy(s, true)
  {
    ReachedInv(n, events, s);
    InitialInv(n);
    InitialPolicy(n);
    assert Policy(Initial(n), false);
    RunKeepsPolicy(Initial(n), events, false);
    if ReadKept(Initial(n), events) { RunKeepsPolicy(Initial(n), events, true); }
  }

  /** Whoever lets a writer in does it when nobody holds, and with readers preferred when
      no reader waits. */
  lemma WriterTokenPosted(n: nat, events: seq<Event>, s: State, e: Event)
    requires Reached(n, events, s) && Enabled(s, e) && Do(s, e).shared.writeTokens > s.shared.writeTokens
    ensures !Holds(s, Reader) && !Holds(s, Writer) && s.shared.readTokens == s.shared.writeTokens == 0
    ensures s.shared.mode.PreferRead? ==> s.shared.waitReaders == 0 && !Waits(s, Reader)
    ensures Waits(s, Writer)
  {
    ReachedPolicy(n, events, s);
    var pc := s.procs[e.proc];
    assert PcFacts(s.shared, pc) && PolicyPc(s.shared, pc, false);
    OneInControl(s, e.proc);
    HoldsIsSum(s, Reader);
    HoldsIsSum(s, Writer);
    WaitsIsSum(s, Reader);
    WaitsIsSum(s, Writer);
  }

  /** Whoever lets a reader in does it when no writer holds, and with writers preferred
      when no writer waits. */
  lemma ReaderTokenPosted(n: nat, events: seq<Event>, s: State, e: Event)
    requires Reached(n, events, s) && Enabled(s, e) && Do(s, e).shared.readTokens > s.shared.readTokens
    ensures !Holds(s, Writer) && s.shared.writeTokens == 0
    ensures s.shared.mode.PreferWrite? ==> s.shared.waitWriters == 0 && !Waits(s, Writer)
    ensures Waits(s, Reader)
  {
    ReachedPolicy(n, events, s);
    var pc := s.procs[e.proc];
    assert PcFacts(s.shared, pc) && PolicyPc(s.shared, pc, false);
    OneInControl(s, e.proc);
    HoldsIsSum(s, Writer);
    WaitsIsSum(s, Reader);
    WaitsIsSum(s, Writer);
  }

  /** With readers preferred from the start, a reader without a token waits only while a
      writer holds or has one: the release of the writer lets all of them in. */
  lemma ReaderWaitsBehindHolder(n: nat, events: seq<Event>, s: State)
    requires Reached(n, events, s) && ReadKept(Initial(n), events) && s.shared.control == 1
    requires Waits(s, Reader) && s.shared.readTokens == 0
    ensures Holds(s, Writer) || s.shared.writeTokens > 0
  {
    ReachedPolicy(n, events, s);
    NoneInControl(s);
    WaitsIsSum(s, Reader);
    HoldsIsSum(s, Writer);
  }

  /** In any mode it waits only while a writer holds, has a token or waits. */
  lemma ReaderWaitsBehindWriter(n: nat, events: seq<Event>, s: State)
    requires Reached(n, events, s) && s.shared.control == 1
    requires Waits(s, Reader) && s.shared.readTokens == 0
    ensures Holds(s, Writer) || Waits(s, Writer)
  {
    ReachedPolicy(n, events, s);
    NoneInControl(s);
    WaitsIsSum(s, Reader);
    WaitsIsSum(s, Writer);
    HoldsIsSum(s, Writer);
  }

  /** A writer without a token waits only while somebody holds or has one. */
  lemma WriterWaitsBehindHolder(n: nat, events: seq<Event>, s: State)
    requires Reached(n, events, s) && s.shared.control == 1
    requires Waits(s, Writer) && s.shared.writeTokens == 0
    ensures Holds(s, Reader) || Holds(s, Writer) || s.shared.readTokens > 0
  {
    ReachedInv(n, events, s);
    NoneInControl(s);
    WaitsIsSum(s, Writer);
    HoldsIsSum(s, Reader);
    HoldsIsSum(s, Writer);
  }

  /** SetPerfer stores the mode it was given and nothing else ever changes the mode. */
  lemma ModeStored(s: State, e: Event)
    requires Enabled(s, e)
    ensures Do(s, e).shared.mode
         == if e.action.Advance? && s.procs[e.proc].ModeSet? then s.procs[e.proc].mode else s.shared.mode
    ensures e.action.CallMode? ==> Do(s, e).procs[e.proc] == ModeCall(e.action.mode)
    ensures e.action.Advance? && s.procs[e.proc].ModeCall? ==> Do(s, e).procs[e.proc] == ModeSet(s.procs[e.proc].mode)
    ensures Do(s, e).procs[e.proc].ModeSet? ==> e.action.Advance? && s.procs[e.proc].ModeCall?
  {
  }
}
