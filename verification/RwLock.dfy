/** The inter-process reader/writer lock of libipc/ipc_sem_rw_lock.h as interleaved
    steps of any number of processes. One step is a P or V on a semaphore, a test of the
    counters, or the counter updates that stand together in the source. */
module RwLock {

  datatype Mode = PreferRead | PreferWrite

  datatype Role = Reader | Writer

  /** Where a process stands. Idle and Holding are rwlock_state_ NLocked and
      RLocked/WLocked outside any call; every other value is a point inside one. */
  datatype Pc =
    | Idle
    | LockCall(role: Role)          // RLock/WLock called, at P(0)
    | LockDecide(role: Role)        // control held, about to test the counters
    | LockGranted(role: Role)       // holder counter raised, at V(0)
    | LockQueued(role: Role)        // wait counter raised, at V(0)
    | Blocked(role: Role)           // at P(1) or P(2)
    | Holding(role: Role)
    | UnlockCall(role: Role)        // UnLock called, at P(0)
    | UnlockDrop(role: Role)        // control held, about to lower the holder counter
    | UnlockDecide(role: Role)      // holder counter lowered, about to test the wait counters
    | GrantReaders(loop: nat)       // at the test of the release loop
    | GrantReadersCount(loop: nat)  // token posted, counters still to be moved
    | GrantWriter                   // at V(2)
    | GrantWriterCount              // token posted, counters still to be moved
    | Exit                          // at the closing V(0) of UnLock or SetPerfer
    | ModeCall(mode: Mode)          // SetPerfer called, at P(0)
    | ModeSet(mode: Mode)           // control held, about to store the mode

  /** The three semaphores and the fields of SemRWLockInfo. The counters are integers
      here; that the unsigned fields never wrap is proved, not assumed. */
  datatype Shared = Shared(
    control: nat, readTokens: nat, writeTokens: nat, mode: Mode,
    readers: int, waitReaders: int, writers: int, waitWriters: int)

  datatype State = State(shared: Shared, procs: seq<Pc>)

  datatype Action =
    | Call(role: Role)        // RLock or WLock
    | CallMode(mode: Mode)    // SetPerfer
    | CallUnlock              // UnLock
    | Advance                 // the next step of the call in progress
    | Fail                    // P(0) reports an error or a timeout

  datatype Event = Event(proc: nat, action: Action)

  /** The state left by Create. */
  function Initial(n: nat): State {
    State(Shared(1, 0, 0, PreferRead, 0, 0, 0, 0), seq(n, _ => Idle))
  }

  predicate MayGrant(sh: Shared, role: Role) {
    match role
    case Reader =>
      if sh.mode.PreferRead? then sh.writers == 0
      else sh.writers == 0 && sh.waitWriters == 0
    case Writer =>
      if sh.mode.PreferRead? then sh.writers == 0 && sh.readers == 0 && sh.waitReaders == 0
      else sh.writers == 0 && sh.readers == 0
  }

  function Raise(sh: Shared, role: Role): Shared {
    match role
    case Reader => sh.(readers := sh.readers + 1)
    case Writer => sh.(writers := sh.writers + 1)
  }

  function Enqueue(sh: Shared, role: Role): Shared {
    match role
    case Reader => sh.(waitReaders := sh.waitReaders + 1)
    case Writer => sh.(waitWriters := sh.waitWriters + 1)
  }

  function Lower(sh: Shared, role: Role): Shared {
    match role
    case Reader => sh.(readers := sh.readers - 1)
    case Writer => sh.(writers := sh.writers - 1)
  }

  /** What UnLock goes on to do once it has lowered its own counter. */
  function Decide(sh: Shared, role: Role): Pc {
    if sh.mode.PreferRead? then
      if sh.waitReaders > 0 then GrantReaders(sh.waitReaders)
      else if sh.readers == 0 && sh.waitWriters > 0 then GrantWriter
      else Exit
    else
      var mine := if role.Reader? then sh.readers else sh.writers;
      if mine != 0 then Exit
      else if sh.waitWriters > 0 then GrantWriter
      else if sh.waitReaders > 0 then GrantReaders(sh.waitReaders)
      else Exit
  }

  predicate CanAdvance(sh: Shared, pc: Pc) {
    match pc
    case Idle => false
    case Holding(_) => false
    case LockCall(_) => sh.control > 0
    case UnlockCall(_) => sh.control > 0
    case ModeCall(_) => sh.control > 0
    case Blocked(Reader) => sh.readTokens > 0
    case Blocked(Writer) => sh.writeTokens > 0
    case _ => true
  }

  function AdvanceShared(sh: Shared, pc: Pc): Shared
    requires CanAdvance(sh, pc)
  {
    match pc
    case LockCall(_) => sh.(control := sh.control - 1)
    case LockDecide(role) => if MayGrant(sh, role) then Raise(sh, role) else Enqueue(sh, role)
    case LockGranted(_) => sh.(control := sh.control + 1)
    case LockQueued(_) => sh.(control := sh.control + 1)
    case Blocked(Reader) => sh.(readTokens := sh.readTokens - 1)
    case Blocked(Writer) => sh.(writeTokens := sh.writeTokens - 1)
    case UnlockCall(_) => sh.(control := sh.control - 1)
    case UnlockDrop(role) => Lower(sh, role)
    case UnlockDecide(_) => sh
    case GrantReaders(loop) => if loop > 0 then sh.(readTokens := sh.readTokens + 1) else sh
    case GrantReadersCount(_) => sh.(waitReaders := sh.waitReaders - 1, readers := sh.readers + 1)
    case GrantWriter => sh.(writeTokens := sh.writeTokens + 1)
    case GrantWriterCount => sh.(waitWriters := sh.waitWriters - 1, writers := sh.writers + 1)
    case Exit => sh.(control := sh.control + 1)
    case ModeCall(_) => sh.(control := sh.control - 1)
    case ModeSet(mode) => sh.(mode := mode)
    case _ => sh
  }

  function AdvancePc(sh: Shared, pc: Pc): Pc
    requires CanAdvance(sh, pc)
  {
    match pc
    case LockCall(role) => LockDecide(role)
    case LockDecide(role) => if MayGrant(sh, role) then LockGranted(role) else LockQueued(role)
    case LockGranted(role) => Holding(role)
    case LockQueued(role) => Blocked(role)
    case Blocked(role) => Holding(role)
    case UnlockCall(role) => UnlockDrop(role)
    case UnlockDrop(role) => UnlockDecide(role)
    case UnlockDecide(role) => Decide(sh, role)
    case GrantReaders(loop) => if loop > 0 then GrantReadersCount(loop) else Exit
    case GrantReadersCount(loop) => if loop > 0 then GrantReaders(loop - 1) else Exit
    case GrantWriter => GrantWriterCount
    case GrantWriterCount => Exit
    case Exit => Idle
    case ModeCall(mode) => ModeSet(mode)
    case ModeSet(_) => Exit
    case _ => pc
  }

  predicate Enabled(s: State, e: Event) {
    e.proc < |s.procs| &&
    var pc := s.procs[e.proc];
    match e.action
    case Call(_) => pc.Idle?
    case CallMode(_) => pc.Idle?
    case CallUnlock => pc.Holding?
    case Advance => CanAdvance(s.shared, pc)
    case Fail => pc.LockCall? || pc.UnlockCall? || pc.ModeCall?
  }

  /** The effect of one event. A failed P(0) returns at once and leaves both the shared
      state and the caller's own rwlock_state_ as they were. */
  function Do(s: State, e: Event): State
    requires Enabled(s, e)
  {
    var pc := s.procs[e.proc];
    match e.action
    case Call(role) => s.(procs := s.procs[e.proc := LockCall(role)])
    case CallMode(mode) => s.(procs := s.procs[e.proc := ModeCall(mode)])
    case CallUnlock => s.(procs := s.procs[e.proc := UnlockCall(pc.role)])
    case Advance => State(AdvanceShared(s.shared, pc), s.procs[e.proc := AdvancePc(s.shared, pc)])
    case Fail => s.(procs := s.procs[e.proc := if pc.UnlockCall? then Holding(pc.role) else Idle])
  }

  /** Whether the events can happen one after the other, starting in s. */
  predicate Feasible(s: State, events: seq<Event>)
    decreases |events|
  {
    events == [] || (Enabled(s, events[0]) && Feasible(Do(s, events[0]), events[1..]))
  }

  function Run(s: State, events: seq<Event>): State
    requires Feasible(s, events)
    decreases |events|
  {
    if events == [] then s else Run(Do(s, events[0]), events[1..])
  }

  /** A step, or a blocked lock call that gives up at P(1) or P(2): it returns and leaves
      the counters as they are. */
  datatype Happening = Step(event: Event) | TimeOut(proc: nat)

  predicate CanHappen(s: State, h: Happening) {
    match h
    case Step(e) => Enabled(s, e)
    case TimeOut(i) => i < |s.procs| && s.procs[i].Blocked?
  }

  function Happen(s: State, h: Happening): State
    requires CanHappen(s, h)
  {
    match h
    case Step(e) => Do(s, e)
    case TimeOut(i) => s.(procs := s.procs[i := Idle])
  }

  /** The same of runs in which any number of calls give up. */
  predicate Possible(s: State, hs: seq<Happening>)
    decreases |hs|
  {
    hs == [] || (CanHappen(s, hs[0]) && Possible(Happen(s, hs[0]), hs[1..]))
  }

  function Outcome(s: State, hs: seq<Happening>): State
    requires Possible(s, hs)
    decreases |hs|
  {
    if hs == [] then s else Outcome(Happen(s, hs[0]), hs[1..])
  }
}
