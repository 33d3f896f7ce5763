/** Safety of the reader/writer lock: what every step keeps, and what follows for
    every run from the state that Create leaves. */
module RwLockSafety {
  import opened RwLock
  import opened WeightedSum

  // Weights that classify program points.

  function InControl(pc: Pc): int {
    if pc.Idle? || pc.LockCall? || pc.Blocked? || pc.Holding? || pc.UnlockCall? || pc.ModeCall?
    then 0 else 1
  }

  /** Holds the lock in the given role, counting from the moment the lock call is
      granted to the moment UnLock lowers the counter. */
  function Held(role: Role): Pc -> int {
    (pc: Pc) =>
      if (pc.LockGranted? || pc.Holding? || pc.UnlockCall? || pc.UnlockDrop?) && pc.role == role
      then 1 else 0
  }

  function Pending(role: Role): Pc -> int {
    (pc: Pc) => if (pc.LockQueued? || pc.Blocked?) && pc.role == role then 1 else 0
  }

  /** A release that has posted a token and not yet moved the counters. */
  function Posted(role: Role): Pc -> int {
    (pc: Pc) =>
      if (role.Reader? && pc.GrantReadersCount?) || (role.Writer? && pc.GrantWriterCount?) then 1 else 0
  }

  // The invariant.

  /** Whoever holds, or has a token on its way, is in the holder counter. */
  ghost predicate HolderCounting(sh: Shared, ps: seq<Pc>) {
    && sh.readers + Sum(Posted(Reader), ps) == Sum(Held(Reader), ps) + sh.readTokens
    && sh.writers + Sum(Posted(Writer), ps) == Sum(Held(Writer), ps) + sh.writeTokens
  }

  /** Whoever waits is in the wait counter, or a token for it is there. */
  ghost predicate WaitCounting(sh: Shared, ps: seq<Pc>) {
    && sh.waitReaders + sh.readTokens == Sum(Pending(Reader), ps) + Sum(Posted(Reader), ps)
    && sh.waitWriters + sh.writeTokens == Sum(Pending(Writer), ps) + Sum(Posted(Writer), ps)
  }

  ghost predicate Exclusive(sh: Shared, ps: seq<Pc>) {
    var r := sh.readers + Sum(Posted(Reader), ps);
    var w := sh.writers + Sum(Posted(Writer), ps);
    w == 0 || (w == 1 && r == 0)
  }

  predicate NoLostWakeup(sh: Shared) {
    sh.readers == 0 && sh.writers == 0 ==> sh.waitReaders == 0 && sh.waitWriters == 0
  }

  predicate CountersNonNegative(sh: Shared) {
    0 <= sh.readers && 0 <= sh.waitReaders && 0 <= sh.writers && 0 <= sh.waitWriters
  }

  /** What the process inside the control section knows. */
  predicate PcFacts(sh: Shared, pc: Pc) {
    match pc
    case UnlockDecide(Reader) => sh.writers == 0
    case UnlockDecide(Writer) => sh.writers == 0 && sh.readers == 0
    case GrantReaders(loop) => sh.writers == 0 && loop == sh.waitReaders && (loop == 0 ==> sh.readers > 0)
    case GrantReadersCount(loop) => sh.writers == 0 && loop == sh.waitReaders && loop > 0
    case GrantWriter => sh.writers == 0 && sh.readers == 0 && sh.waitWriters > 0
    case GrantWriterCount => sh.writers == 0 && sh.readers == 0 && sh.waitWriters > 0
    case _ => InControl(pc) == 1 ==> NoLostWakeup(sh)
  }

  /** What holds even when waiting calls give up. */
  ghost predicate Core(s: State) {
    && s.shared.control + Sum(InControl, s.procs) == 1
    && HolderCounting(s.shared, s.procs)
    && Exclusive(s.shared, s.procs)
    && CountersNonNegative(s.shared)
    && (s.shared.control == 1 ==> NoLostWakeup(s.shared))
    && forall i :: 0 <= i < |s.procs| ==> PcFacts(s.shared, s.procs[i])
  }

  /** And what holds besides when none does. */
  ghost predicate Inv(s: State) {
    Core(s) && WaitCounting(s.shared, s.procs)
  }

  lemma InitialInv(n: nat)
    ensures Inv(Initial(n))
  {
    var ps := Initial(n).procs;
    SumZero(InControl, ps);
    SumZero(Posted(Reader), ps);
    SumZero(Held(Reader), ps);
    SumZero(Pending(Reader), ps);
    SumZero(Posted(Writer), ps);
    SumZero(Held(Writer), ps);
    SumZero(Pending(Writer), ps);
  }

  /** How every count changes when process i moves. */
  lemma CountsUpdate(ps: seq<Pc>, i: nat, pc: Pc)
    requires i < |ps|
    ensures var qs := ps[i := pc];
      && Sum(InControl, qs) == Sum(InControl, ps) - InControl(ps[i]) + InControl(pc)
      && (forall role :: Sum(Held(role), qs) == Sum(Held(role), ps) - Held(role)(ps[i]) + Held(role)(pc))
      && (forall role :: Sum(Pending(role), qs) == Sum(Pending(role), ps) - Pending(role)(ps[i]) + Pending(role)(pc))
      && (forall role :: Sum(Posted(role), qs) == Sum(Posted(role), ps) - Posted(role)(ps[i]) + Posted(role)(pc))
  {
    SumUpdate(InControl, ps, i, pc);
    forall role ensures Sum(Held(role), ps[i := pc]) == Sum(Held(role), ps) - Held(role)(ps[i]) + Held(role)(pc) {
      SumUpdate(Held(role), ps, i, pc);
    }
    forall role ensures Sum(Pending(role), ps[i := pc]) == Sum(Pending(role), ps) - Pending(role)(ps[i]) + Pending(role)(pc) {
      SumUpdate(Pending(role), ps, i, pc);
    }
    forall role ensures Sum(Posted(role), ps[i := pc]) == Sum(Posted(role), ps) - Posted(role)(ps[i]) + Posted(role)(pc) {
      SumUpdate(Posted(role), ps, i, pc);
    }
  }

  lemma CountsBound(ps: seq<Pc>, i: nat)
    requires i < |ps|
    ensures InControl(ps[i]) <= Sum(InControl, ps)
    ensures forall role :: 0 <= Held(role)(ps[i]) <= Sum(Held(role), ps)
    ensures forall role :: 0 <= Pending(role)(ps[i]) <= Sum(Pending(role), ps)
    ensures forall role :: 0 <= Posted(role)(ps[i]) <= Sum(Posted(role), ps)
  {
    SumAtLeastOne(InControl, ps, i, Idle);
    forall role ensures Held(role)(ps[i]) <= Sum(Held(role), ps) { SumAtLeastOne(Held(role), ps, i, Idle); }
    forall role ensures Pending(role)(ps[i]) <= Sum(Pending(role), ps) { SumAtLeastOne(Pending(role), ps, i, Idle); }
    forall role ensures Posted(role)(ps[i]) <= Sum(Posted(role), ps) { SumAtLeastOne(Posted(role), ps, i, Idle); }
  }

  /** The control semaphore admits one process, so a posted token not yet counted can
      only belong to that process. */
  lemma OneInControl(s: State, i: nat)
    requires Core(s) && i < |s.procs| && InControl(s.procs[i]) == 1
    ensures s.shared.control == 0
    ensures forall j :: 0 <= j < |s.procs| && j != i ==> InControl(s.procs[j]) == 0
    ensures forall role :: Sum(Posted(role), s.procs) == Posted(role)(s.procs[i])
  {
    var ps := s.procs;
    SumAtLeastOne(InControl, ps, i, Idle);
    forall j | 0 <= j < |ps| && j != i ensures InControl(ps[j]) == 0 {
      SumAtLeastTwo(InControl, ps, i, j, Idle);
    }
    forall role ensures Sum(Posted(role), ps) == Posted(role)(ps[i]) {
      SumConcentrated(InControl, Posted(role), ps, i, Idle);
    }
  }

  /** When nobody is inside the control section nothing is posted and uncounted. */
  lemma NoneInControl(s: State)
    requires Core(s) && s.shared.control == 1
    ensures forall j :: 0 <= j < |s.procs| ==> InControl(s.procs[j]) == 0
    ensures forall role :: Sum(Posted(role), s.procs) == 0
  {
    var ps := s.procs;
    forall j | 0 <= j < |ps| ensures InControl(ps[j]) == 0 {
      SumAtLeastOne(InControl, ps, j, Idle);
    }
    forall role ensures Sum(Posted(role), ps) == 0 {
      SumZero(Posted(role), ps);
    }
  }

  /** A step of the process inside the control section, or one that enters it, or one
      that only takes a token: the facts of all other processes survive. */
  lemma OthersKeepFacts(s: State, i: nat)
    requires Core(s) && i < |s.procs| && CanAdvance(s.shared, s.procs[i])
    ensures forall j :: 0 <= j < |s.procs| && j != i ==>
              PcFacts(AdvanceShared(s.shared, s.procs[i]), s.procs[j])
  {
    if InControl(s.procs[i]) == 1 {
      OneInControl(s, i);
    }
  }

  /** A step moves a counter exactly as it moves the process between the classes that
      the counter counts. */
  lemma ControlBalance(sh: Shared, pc: Pc)
    requires CanAdvance(sh, pc)
    ensures AdvanceShared(sh, pc).control - sh.control == InControl(pc) - InControl(AdvancePc(sh, pc))
  {
  }

  lemma ReaderBalance(sh: Shared, pc: Pc)
    requires CanAdvance(sh, pc)
    ensures
      var sh', pc' := AdvanceShared(sh, pc), AdvancePc(sh, pc);
      && sh'.readers - sh.readers + Posted(Reader)(pc') - Posted(Reader)(pc)
         == Held(Reader)(pc') - Held(Reader)(pc) + sh'.readTokens - sh.readTokens
      && sh'.waitReaders - sh.waitReaders + sh'.readTokens - sh.readTokens
         == Pending(Reader)(pc') - Pending(Reader)(pc) + Posted(Reader)(pc') - Posted(Reader)(pc)
  {
  }

  lemma WriterBalance(sh: Shared, pc: Pc)
    requires CanAdvance(sh, pc)
    ensures
      var sh', pc' := AdvanceShared(sh, pc), AdvancePc(sh, pc);
      && sh'.writers - sh.writers + Posted(Writer)(pc') - Posted(Writer)(pc)
         == Held(Writer)(pc') - Held(Writer)(pc) + sh'.writeTokens - sh.writeTokens
      && sh'.waitWriters - sh.waitWriters + sh'.writeTokens - sh.writeTokens
         == Pending(Writer)(pc') - Pending(Writer)(pc) + Posted(Writer)(pc') - Posted(Writer)(pc)
  {
  }

  lemma AdvanceKeepsHolders(s: State, i: nat)
    requires Core(s) && i < |s.procs| && CanAdvance(s.shared, s.procs[i])
    ensures var s' := Do(s, Event(i, Advance));
      s'.shared.control + Sum(InControl, s'.procs) == 1 && HolderCounting(s'.shared, s'.procs)
  {
    ControlBalance(s.shared, s.procs[i]);
    ReaderBalance(s.shared, s.procs[i]);
    WriterBalance(s.shared, s.procs[i]);
    CountsUpdate(s.procs, i, AdvancePc(s.shared, s.procs[i]));
  }

  lemma AdvanceKeepsWaiting(s: State, i: nat)
    requires WaitCounting(s.shared, s.procs) && i < |s.procs| && CanAdvance(s.shared, s.procs[i])
    ensures var s' := Do(s, Event(i, Advance)); WaitCounting(s'.shared, s'.procs)
  {
    ReaderBalance(s.shared, s.procs[i]);
    WriterBalance(s.shared, s.procs[i]);
    CountsUpdate(s.procs, i, AdvancePc(s.shared, s.procs[i]));
  }

  /** The facts about the counters that the moving process may use: its own share of
      each count, and the posted tokens that can only be its own. */
  lemma AdvanceKeepsCounters(s: State, i: nat)
    requires Core(s) && i < |s.procs| && CanAdvance(s.shared, s.procs[i])
    ensures var s' := Do(s, Event(i, Advance));
      && Exclusive(s'.shared, s'.procs)
      && CountersNonNegative(s'.shared)
      && (s'.shared.control == 1 ==> NoLostWakeup(s'.shared))
      && PcFacts(s'.shared, s'.procs[i])
  {
    var pc := s.procs[i];
    var pc' := AdvancePc(s.shared, pc);
    CountsBound(s.procs, i);
    SumUpdate(Posted(Reader), s.procs, i, pc');
    SumUpdate(Posted(Writer), s.procs, i, pc');
    if InControl(pc) == 1 {
      OneInControl(s, i);
    } else if s.shared.control == 1 {
      NoneInControl(s);
    }
  }

  lemma AdvanceKeepsCore(s: State, i: nat)
    requires Core(s) && i < |s.procs| && CanAdvance(s.shared, s.procs[i])
    ensures Core(Do(s, Event(i, Advance)))
  {
    var s' := Do(s, Event(i, Advance));
    AdvanceKeepsHolders(s, i);
    AdvanceKeepsCounters(s, i);
    OthersKeepFacts(s, i);
    forall j | 0 <= j < |s'.procs| ensures PcFacts(s'.shared, s'.procs[j]) {
      if j != i {
        assert s'.procs[j] == s.procs[j];
      }
    }
  }

  lemma CallBalance(s: State, e: Event, role: Role)
    requires Enabled(s, e) && !e.action.Advance?
    ensures
      var pc, pc' := s.procs[e.proc], Do(s, e).procs[e.proc];
      && InControl(pc) == InControl(pc') == 0
      && Held(role)(pc) == Held(role)(pc')
      && Pending(role)(pc) == Pending(role)(pc')
      && Posted(role)(pc) == Posted(role)(pc')
  {
  }

  /** A process goes from outside the control section to outside it, holding what it held,
      and nothing else changes. */
  lemma MoveKeepsCore(s: State, i: nat, pc: Pc)
    requires Core(s) && i < |s.procs| && InControl(s.procs[i]) == InControl(pc) == 0
    requires forall role :: Held(role)(s.procs[i]) == Held(role)(pc) && Posted(role)(s.procs[i]) == Posted(role)(pc)
    ensures Core(s.(procs := s.procs[i := pc]))
  {
    var s' := s.(procs := s.procs[i := pc]);
    CountsUpdate(s.procs, i, pc);
    forall j | 0 <= j < |s'.procs| ensures PcFacts(s'.shared, s'.procs[j]) {
      if j != i { assert s'.procs[j] == s.procs[j]; }
    }
  }

  lemma StepKeepsCore(s: State, e: Event)
    requires Core(s) && Enabled(s, e)
    ensures Core(Do(s, e))
  {
    if e.action.Advance? {
      AdvanceKeepsCore(s, e.proc);
    } else {
      forall role ensures Held(role)(s.procs[e.proc]) == Held(role)(Do(s, e).procs[e.proc]) { CallBalance(s, e, role); }
      CallBalance(s, e, Reader);
      MoveKeepsCore(s, e.proc, Do(s, e).procs[e.proc]);
    }
  }

  /** Starting a call, and giving one up at P(0), touch no shared state and move the
      process between two points that count alike. */
  lemma StepKeepsInv(s: State, e: Event)
    requires Inv(s) && Enabled(s, e)
    ensures Inv(Do(s, e))
  {
    StepKeepsCore(s, e);
    if e.action.Advance? {
      AdvanceKeepsWaiting(s, e.proc);
    } else {
      CallBalance(s, e, Reader);
      CallBalance(s, e, Writer);
      CountsUpdate(s.procs, e.proc, Do(s, e).procs[e.proc]);
    }
  }

  lemma {:induction false} RunKeepsInv(s: State, events: seq<Event>)
    requires Inv(s) && Feasible(s, events)
    ensures Inv(Run(s, events))
    decreases |events|
  {
    if events != [] {
      StepKeepsInv(s, events[0]);
      RunKeepsInv(Do(s, events[0]), events[1..]);
    }
  }

  /** A call that gives up at P(1) or P(2) leaves the rest in order. */
  lemma HappenKeepsCore(s: State, h: Happening)
    requires Core(s) && CanHappen(s, h)
    ensures Core(Happen(s, h))
  {
    match h
    case Step(e) => StepKeepsCore(s, e);
    case TimeOut(i) => MoveKeepsCore(s, i, Idle);
  }

  lemma {:induction false} OutcomeKeepsCore(s: State, hs: seq<Happening>)
    requires Core(s) && Possible(s, hs)
    ensures Core(Outcome(s, hs))
    decreases |hs|
  {
    if hs != [] {
      HappenKeepsCore(s, hs[0]);
      OutcomeKeepsCore(Happen(s, hs[0]), hs[1..]);
    }
  }

  // The main safety theorems.

  ghost predicate HoldsAs(s: State, i: nat, role: Role) {
    i < |s.procs| && Held(role)(s.procs[i]) == 1
  }

  /** Never a writer together with a reader or with another writer, in any
      interleaving, in either mode and across mode changes, and whichever waiting calls
      give up. */
  lemma MutualExclusion(n: nat, hs: seq<Happening>, i: nat, j: nat, role: Role)
    requires Possible(Initial(n), hs)
    requires HoldsAs(Outcome(Initial(n), hs), i, Writer)
    requires HoldsAs(Outcome(Initial(n), hs), j, role)
    ensures i == j && role == Writer
  {
    var s := Outcome(Initial(n), hs);
    InitialInv(n);
    OutcomeKeepsCore(Initial(n), hs);
    CountsBound(s.procs, i);
    CountsBound(s.procs, j);
    if i != j && role == Writer {
      SumAtLeastTwo(Held(Writer), s.procs, i, j, Idle);
    }
  }

  /** Whenever the control semaphore is free the counters say exactly who holds, who
      waits and which tokens are on their way; and no wake-up has been lost. */
  lemma CountersExactWhenFree(n: nat, events: seq<Event>)
    requires Feasible(Initial(n), events)
    requires Run(Initial(n), events).shared.control == 1
    ensures
      var s := Run(Initial(n), events);
      && s.shared.readers == Sum(Held(Reader), s.procs) + s.shared.readTokens
      && s.shared.writers == Sum(Held(Writer), s.procs) + s.shared.writeTokens
      && s.shared.waitReaders + s.shared.readTokens == Sum(Pending(Reader), s.procs)
      && s.shared.waitWriters + s.shared.writeTokens == Sum(Pending(Writer), s.procs)
      && (s.shared.readers == 0 && s.shared.writers == 0 ==>
            s.shared.waitReaders == 0 && s.shared.waitWriters == 0)
  {
    InitialInv(n);
    RunKeepsInv(Initial(n), events);
    NoneInControl(Run(Initial(n), events));
  }

  /** A blocked process implies a current holder or a token not yet consumed, while
      the control semaphore is free. */
  lemma BlockedHasCause(n: nat, events: seq<Event>, i: nat)
    requires Feasible(Initial(n), events)
    requires Run(Initial(n), events).shared.control == 1
    requires i < |Run(Initial(n), events).procs| && Run(Initial(n), events).procs[i].Blocked?
    ensures
      var s := Run(Initial(n), events);
      s.shared.readTokens > 0 || s.shared.writeTokens > 0 ||
      exists j, role :: HoldsAs(s, j, role)
  {
    var s := Run(Initial(n), events);
    CountersExactWhenFree(n, events);
    CountsBound(s.procs, i);
    if s.shared.readTokens == 0 && s.shared.writeTokens == 0 {
      if Sum(Held(Reader), s.procs) > 0 {
        var j := PositiveElement(Held(Reader), s.procs);
        assert HoldsAs(s, j, Reader);
      } else if Sum(Held(Writer), s.procs) > 0 {
        var j := PositiveElement(Held(Writer), s.procs);
        assert HoldsAs(s, j, Writer);
      } else {
        SumNonNegative(Held(Reader), s.procs);
        SumNonNegative(Held(Writer), s.procs);
      }
    }
  }

  /** The unsigned counters never wrap: they stay between 0 and the number of
      processes, at every step and not only while control is free. */
  lemma CountersInRange(n: nat, events: seq<Event>)
    requires Feasible(Initial(n), events)
    ensures
      var sh := Run(Initial(n), events).shared;
      && 0 <= sh.readers <= n && 0 <= sh.waitReaders <= n
      && 0 <= sh.writers <= 1 && 0 <= sh.waitWriters <= n
  {
    var s := Run(Initial(n), events);
    InitialInv(n);
    RunKeepsInv(Initial(n), events);
    ProcsFixed(Initial(n), events);
    CountersBounded(s);
  }

  lemma {:induction false} ProcsFixed(s: State, events: seq<Event>)
    requires Feasible(s, events)
    ensures |Run(s, events).procs| == |s.procs|
    decreases |events|
  {
    if events != [] { ProcsFixed(Do(s, events[0]), events[1..]); }
  }

  /** Holding or pending in a role, which a process does at most once. */
  function Engaged(role: Role): Pc -> int {
    (pc: Pc) => Held(role)(pc) + Pending(role)(pc)
  }

  lemma {:induction false} EngagedSum(role: Role, ps: seq<Pc>)
    ensures Sum(Held(role), ps) + Sum(Pending(role), ps) == Sum(Engaged(role), ps)
    ensures Sum(Engaged(role), ps) <= |ps|
  {
    if ps != [] { EngagedSum(role, ps[1..]); }
  }

  lemma CountersBounded(s: State)
    requires Inv(s)
    ensures s.shared.readers + s.shared.waitReaders <= |s.procs|
    ensures s.shared.writers + s.shared.waitWriters <= |s.procs|
    ensures s.shared.writers <= 1
  {
    EngagedSum(Reader, s.procs);
    EngagedSum(Writer, s.procs);
    SumNonNegative(Posted(Writer), s.procs);
  }
}
