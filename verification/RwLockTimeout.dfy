/** What a lock call that gives up does to the reader/writer lock. At P(0) it does no
    harm; at P(1) or P(2), where its wait counter stays raised, the lock is never fully
    free again. */
module RwLockTimeout {
  import opened RwLock
  import opened RwLockSafety
  import opened RwLockDrain
  import opened WeightedSum

  /** The state after a call has given up. */
  function GiveUp(s: State, i: nat): State
    requires CanHappen(s, TimeOut(i))
  {
    Happen(s, TimeOut(i))
  }

  function Waiting(sh: Shared, role: Role): int {
    if role.Reader? then sh.waitReaders else sh.waitWriters
  }

  function Holders(sh: Shared, role: Role): int {
    if role.Reader? then sh.readers else sh.writers
  }

  function Tokens(sh: Shared, role: Role): int {
    if role.Reader? then sh.readTokens else sh.writeTokens
  }

  /** Waiting places and tokens that no process will ever claim. */
  ghost function Orphans(s: State, role: Role): int {
    Waiting(s.shared, role) + Tokens(s.shared, role) - Sum(Pending(role), s.procs) - Sum(Posted(role), s.procs)
  }

  /** Holders in the books beyond those that hold or have a token on its way. */
  ghost function Surplus(s: State, role: Role): int {
    Holders(s.shared, role) + Sum(Posted(role), s.procs) - Sum(Held(role), s.procs) - Tokens(s.shared, role)
  }

  lemma StepKeepsOrphans(s: State, e: Event, role: Role)
    requires Enabled(s, e)
    ensures Orphans(Do(s, e), role) == Orphans(s, role) && Surplus(Do(s, e), role) == Surplus(s, role)
  {
    CountsUpdate(s.procs, e.proc, Do(s, e).procs[e.proc]);
    if e.action.Advance? {
      ReaderBalance(s.shared, s.procs[e.proc]);
      WriterBalance(s.shared, s.procs[e.proc]);
    } else {
      CallBalance(s, e, role);
    }
  }

  /** A waiter that gives up leaves one orphan behind. */
  lemma GivingUpOrphans(s: State, i: nat, role: Role)
    requires CanHappen(s, TimeOut(i))
    ensures Orphans(GiveUp(s, i), role) == Orphans(s, role) + (if s.procs[i].role == role then 1 else 0)
    ensures Surplus(GiveUp(s, i), role) == Surplus(s, role)
  {
    CountsUpdate(s.procs, i, Idle);
  }

  /** How many calls of a role give up at P(1) or P(2). */
  function GiveUps(s: State, hs: seq<Happening>, role: Role): (n: nat)
    requires Possible(s, hs)
    decreases |hs|
  {
    if hs == [] then 0
    else
      (if hs[0].TimeOut? && s.procs[hs[0].proc].role == role then 1 else 0) + GiveUps(Happen(s, hs[0]), hs[1..], role)
  }

  /** Each of them adds an orphan, and nothing that happens, from any state, ever makes up
      for one. */
  lemma {:induction false} RunKeepsOrphans(s: State, hs: seq<Happening>, role: Role)
    requires Possible(s, hs)
    ensures Orphans(Outcome(s, hs), role) == Orphans(s, role) + GiveUps(s, hs, role)
    ensures Surplus(Outcome(s, hs), role) == Surplus(s, role)
    decreases |hs|
  {
    if hs != [] {
      match hs[0] {
        case Step(e) => StepKeepsOrphans(s, e, role);
        case TimeOut(i) => GivingUpOrphans(s, i, role);
      }
      RunKeepsOrphans(Happen(s, hs[0]), hs[1..], role);
    }
  }

  lemma {:induction false} SomeGivesUp(s: State, hs: seq<Happening>)
    requires Possible(s, hs)
    ensures GiveUps(s, hs, Reader) == GiveUps(s, hs, Writer) == 0 <==> forall k :: 0 <= k < |hs| ==> !hs[k].TimeOut?
    decreases |hs|
  {
    if hs != [] {
      SomeGivesUp(Happen(s, hs[0]), hs[1..]);
      if exists k :: 0 <= k < |hs| && hs[k].TimeOut? {
        var k :| 0 <= k < |hs| && hs[k].TimeOut?;
        if k > 0 { assert hs[1..][k - 1].TimeOut?; }
      } else {
        assert forall k :: 0 <= k < |hs| - 1 ==> hs[1..][k] == hs[k + 1];
      }
    }
  }

  lemma IdleCounts(s: State, role: Role)
    requires AllIdle(s)
    ensures Orphans(s, role) == Waiting(s.shared, role) + Tokens(s.shared, role)
    ensures Surplus(s, role) == Holders(s.shared, role) - Tokens(s.shared, role)
  {
    SumZero(Pending(role), s.procs);
    SumZero(Posted(role), s.procs);
    SumZero(Held(role), s.procs);
  }

  /** Whatever happens, and however many calls give up: if all processes come to rest, the
      places and tokens left of each role are just as many as the calls of it that gave up
      at P(1) or P(2), and each token left counts as a holder that nobody is. */
  lemma GivingUpLeaves(n: nat, hs: seq<Happening>, role: Role)
    requires Possible(Initial(n), hs) && AllIdle(Outcome(Initial(n), hs))
    ensures var last := Outcome(Initial(n), hs).shared;
            && Waiting(last, role) + Tokens(last, role) == GiveUps(Initial(n), hs, role)
            && Holders(last, role) == Tokens(last, role)
  {
    RunKeepsOrphans(Initial(n), hs, role);
    IdleCounts(Outcome(Initial(n), hs), role);
    assert AllIdle(Initial(n));
    IdleCounts(Initial(n), role);
  }

  /** So the lock is free again exactly if none gave up there. */
  lemma GivingUpFreesIff(n: nat, hs: seq<Happening>)
    requires Possible(Initial(n), hs) && AllIdle(Outcome(Initial(n), hs))
    ensures FullyUnlocked(Outcome(Initial(n), hs).shared) <==> forall k :: 0 <= k < |hs| ==> !hs[k].TimeOut?
  {
    InitialInv(n);
    OutcomeKeepsCore(Initial(n), hs);
    SumZero(InControl, Outcome(Initial(n), hs).procs);
    GivingUpLeaves(n, hs, Reader);
    GivingUpLeaves(n, hs, Writer);
    SomeGivesUp(Initial(n), hs);
  }

  // A lock that stands still.

  ghost predicate Leads(s: State, events: seq<Event>, t: State) {
    Feasible(s, events) && Run(s, events) == t
  }

  lemma {:induction false} LeadsOn(s: State, a: seq<Event>, t: State, b: seq<Event>, u: State)
    requires Leads(s, a, t) && Leads(t, b, u)
    ensures Leads(s, a + b, u)
    decreases |a|
  {
    if a == [] {
      assert a + b == b;
    } else {
      assert (a + b)[0] == a[0] && (a + b)[1..] == a[1..] + b;
      LeadsOn(Do(s, a[0]), a[1..], t, b, u);
    }
  }

  lemma Then(s: State, events: seq<Event>, t: State, e: Event, u: State) returns (more: seq<Event>)
    requires Leads(s, events, t) && Enabled(t, e) && u == Do(t, e)
    ensures Leads(s, more, u)
  {
    assert [e][0] == e && [e][1..] == [];
    assert Run(u, []) == u && Feasible(u, []);
    assert Run(t, [e]) == Run(u, [e][1..]);
    assert Leads(t, [e], u);
    LeadsOn(s, events, t, [e], u);
    more := events + [e];
  }

  // Two processes.

  lemma FirstAdvances(s: State, events: seq<Event>, sh: Shared, p: Pc, q: Pc) returns (more: seq<Event>)
    requires Leads(s, events, State(sh, [p, q])) && CanAdvance(sh, p)
    ensures Leads(s, more, State(AdvanceShared(sh, p), [AdvancePc(sh, p), q]))
  {
    var u := State(AdvanceShared(sh, p), [AdvancePc(sh, p), q]);
    assert [p, q][0 := AdvancePc(sh, p)] == u.procs;
    more := Then(s, events, State(sh, [p, q]), Event(0, Advance), u);
  }

  lemma SecondAdvances(s: State, events: seq<Event>, sh: Shared, p: Pc, q: Pc) returns (more: seq<Event>)
    requires Leads(s, events, State(sh, [p, q])) && CanAdvance(sh, q)
    ensures Leads(s, more, State(AdvanceShared(sh, q), [p, AdvancePc(sh, q)]))
  {
    var u := State(AdvanceShared(sh, q), [p, AdvancePc(sh, q)]);
    assert [p, q][1 := AdvancePc(sh, q)] == u.procs;
    more := Then(s, events, State(sh, [p, q]), Event(1, Advance), u);
  }

  lemma FirstCalls(s: State, events: seq<Event>, sh: Shared, q: Pc) returns (more: seq<Event>)
    requires Leads(s, events, State(sh, [Idle, q]))
    ensures Leads(s, more, State(sh, [LockCall(Writer), q]))
  {
    assert [Idle, q][0 := LockCall(Writer)] == [LockCall(Writer), q];
    more := Then(s, events, State(sh, [Idle, q]), Event(0, Call(Writer)), State(sh, [LockCall(Writer), q]));
  }

  lemma SecondCalls(s: State, events: seq<Event>, sh: Shared, p: Pc) returns (more: seq<Event>)
    requires Leads(s, events, State(sh, [p, Idle]))
    ensures Leads(s, more, State(sh, [p, LockCall(Reader)]))
  {
    assert [p, Idle][1 := LockCall(Reader)] == [p, LockCall(Reader)];
    more := Then(s, events, State(sh, [p, Idle]), Event(1, Call(Reader)), State(sh, [p, LockCall(Reader)]));
  }

  lemma FirstUnlocks(s: State, events: seq<Event>, sh: Shared, q: Pc) returns (more: seq<Event>)
    requires Leads(s, events, State(sh, [Holding(Writer), q]))
    ensures Leads(s, more, State(sh, [UnlockCall(Writer), q]))
  {
    assert [Holding(Writer), q][0 := UnlockCall(Writer)] == [UnlockCall(Writer), q];
    more := Then(s, events, State(sh, [Holding(Writer), q]), Event(0, CallUnlock), State(sh, [UnlockCall(Writer), q]));
  }

  /** Readers preferred, and nobody between P(0) and V(0). */
  function Books(readTokens: nat, readers: int, waitReaders: int, writers: int, waitWriters: int): Shared {
    Shared(1, readTokens, 0, PreferRead, readers, waitReaders, writers, waitWriters)
  }

  function Inside(sh: Shared): Shared {
    sh.(control := 0)
  }

  lemma WriterEnters() returns (events: seq<Event>)
    ensures Leads(State(Books(0, 0, 0, 0, 0), [Idle, Idle]), events, State(Books(0, 0, 0, 1, 0), [Holding(Writer), Idle]))
  {
    var none, one := Books(0, 0, 0, 0, 0), Books(0, 0, 0, 1, 0);
    var s := State(none, [Idle, Idle]);
    events := [];
    events := FirstCalls(s, events, none, Idle);
    events := FirstAdvances(s, events, none, LockCall(Writer), Idle);
    events := FirstAdvances(s, events, Inside(none), LockDecide(Writer), Idle);
    events := FirstAdvances(s, events, Inside(one), LockGranted(Writer), Idle);
  }

  lemma ReaderWaits() returns (events: seq<Event>)
    ensures Leads(State(Books(0, 0, 0, 1, 0), [Holding(Writer), Idle]), events,
                  State(Books(0, 0, 1, 1, 0), [Holding(Writer), Blocked(Reader)]))
  {
    var one, both := Books(0, 0, 0, 1, 0), Books(0, 0, 1, 1, 0);
    var s := State(one, [Holding(Writer), Idle]);
    events := [];
    events := SecondCalls(s, events, one, Holding(Writer));
    events := SecondAdvances(s, events, one, Holding(Writer), LockCall(Reader));
    events := SecondAdvances(s, events, Inside(one), Holding(Writer), LockDecide(Reader));
    events := SecondAdvances(s, events, Inside(both), Holding(Writer), LockQueued(Reader));
  }

  /** The reader has given up, and the writer lowers its counter. */
  lemma WriterLeaves() returns (events: seq<Event>)
    ensures Leads(State(Books(0, 0, 1, 1, 0), [Holding(Writer), Idle]), events,
                  State(Inside(Books(0, 0, 1, 0, 0)), [GrantReaders(1), Idle]))
  {
    var both, waits := Books(0, 0, 1, 1, 0), Books(0, 0, 1, 0, 0);
    var s := State(both, [Holding(Writer), Idle]);
    events := [];
    events := FirstUnlocks(s, events, both, Idle);
    events := FirstAdvances(s, events, both, UnlockCall(Writer), Idle);
    events := FirstAdvances(s, events, Inside(both), UnlockDrop(Writer), Idle);
    events := FirstAdvances(s, events, Inside(waits), UnlockDecide(Writer), Idle);
  }

  lemma GrantSteps()
    ensures var sh := Inside(Books(0, 0, 1, 0, 0));
            && AdvanceShared(sh, GrantReaders(1)) == Inside(Books(1, 0, 1, 0, 0))
            && AdvancePc(sh, GrantReaders(1)) == GrantReadersCount(1)
    ensures var sh := Inside(Books(1, 0, 1, 0, 0));
            && AdvanceShared(sh, GrantReadersCount(1)) == Inside(Books(1, 1, 0, 0, 0))
            && AdvancePc(sh, GrantReadersCount(1)) == GrantReaders(0)
    ensures var sh := Inside(Books(1, 1, 0, 0, 0));
            && AdvanceShared(sh, GrantReaders(0)) == sh && AdvancePc(sh, GrantReaders(0)) == Exit
            && AdvanceShared(sh, Exit) == Books(1, 1, 0, 0, 0) && AdvancePc(sh, Exit) == Idle
  {
  }

  /** It grants the lock to nobody. */
  lemma GrantToNobody(s: State, before: seq<Event>) returns (events: seq<Event>)
    requires Leads(s, before, State(Inside(Books(0, 0, 1, 0, 0)), [GrantReaders(1), Idle]))
    ensures Leads(s, events, State(Books(1, 1, 0, 0, 0), [Idle, Idle]))
  {
    var waits, posted, left := Inside(Books(0, 0, 1, 0, 0)), Inside(Books(1, 0, 1, 0, 0)), Inside(Books(1, 1, 0, 0, 0));
    GrantSteps();
    events := FirstAdvances(s, before, waits, GrantReaders(1), Idle);
    events := FirstAdvances(s, events, posted, GrantReadersCount(1), Idle);
    events := FirstAdvances(s, events, left, GrantReaders(0), Idle);
    events := FirstAdvances(s, events, left, Exit, Idle);
  }

  /** The writer calls again. */
  lemma WriterBehindNobody() returns (events: seq<Event>)
    ensures Leads(State(Books(1, 1, 0, 0, 0), [Idle, Idle]), events, State(Books(1, 1, 0, 0, 1), [Blocked(Writer), Idle]))
  {
    var left, waits := Books(1, 1, 0, 0, 0), Books(1, 1, 0, 0, 1);
    var s := State(left, [Idle, Idle]);
    events := [];
    events := FirstCalls(s, events, left, Idle);
    events := FirstAdvances(s, events, left, LockCall(Writer), Idle);
    events := FirstAdvances(s, events, Inside(left), LockDecide(Writer), Idle);
    events := FirstAdvances(s, events, Inside(waits), LockQueued(Writer), Idle);
  }

  /** After a reader has given up at P(1) the lock can deadlock: a reachable state, one
      timeout and a run later a writer waits although nobody holds, and no step that
      RwLockDrain counts on is left. */
  lemma GivingUpCanDeadlock() returns (history: seq<Event>, events: seq<Event>)
    ensures Feasible(Initial(2), history) && |Run(Initial(2), history).procs| == 2
    ensures Run(Initial(2), history).procs[1] == Blocked(Reader)
    ensures
      var s := GiveUp(Run(Initial(2), history), 1);
      && Feasible(s, events) && !AllIdle(Run(s, events))
      && (forall e :: !Draining(Run(s, events), e))
      && (forall j, role :: !HoldsAs(Run(s, events), j, role))
  {
    var none := State(Books(0, 0, 0, 0, 0), [Idle, Idle]);
    var rest := State(Books(1, 1, 0, 0, 0), [Idle, Idle]);
    var enter := WriterEnters();
    var wait := ReaderWaits();
    LeadsOn(none, enter, State(Books(0, 0, 0, 1, 0), [Holding(Writer), Idle]), wait,
            State(Books(0, 0, 1, 1, 0), [Holding(Writer), Blocked(Reader)]));
    history := enter + wait;
    assert Initial(2) == none;
    var s := GiveUp(Run(Initial(2), history), 1);
    assert s.procs == [Holding(Writer), Idle];
    var leave := WriterLeaves();
    var grant := GrantToNobody(s, leave);
    var call := WriterBehindNobody();
    LeadsOn(s, grant, rest, call, State(Books(1, 1, 0, 0, 1), [Blocked(Writer), Idle]));
    events := grant + call;
    var last := Run(s, events);
    assert last.procs[0] == Blocked(Writer) && last.procs[1] == Idle && !last.procs[0].Idle?;
  }
}
