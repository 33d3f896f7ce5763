/** What one pass through the control section does to the shared state, whatever the
    other processes do meanwhile. */
module RwLockSection {
  import opened RwLock
  import opened RwLockSafety

  /** The shared state that a process inside the control section leaves behind, if it
      runs from pc to the closing V(0) alone: first its own counter or the mode, then
      the grants it owes. */
  function Finish(sh: Shared, pc: Pc): Shared {
    FinishGrant(OwnUpdate(sh, pc), GrantsOwed(sh, pc))
  }

  function OwnUpdate(sh: Shared, pc: Pc): Shared {
    match pc
    case LockDecide(role) => if MayGrant(sh, role) then Raise(sh, role) else Enqueue(sh, role)
    case UnlockDrop(role) => Lower(sh, role)
    case ModeSet(mode) => sh.(mode := mode)
    case _ => sh
  }

  function GrantsOwed(sh: Shared, pc: Pc): Pc {
    match pc
    case LockDecide(_) => Exit
    case LockGranted(_) => Exit
    case LockQueued(_) => Exit
    case ModeSet(_) => Exit
    case UnlockDrop(role) => Decide(Lower(sh, role), role)
    case UnlockDecide(role) => Decide(sh, role)
    case _ => pc
  }

  /** Grants hand one token to each process let in, and move as many units from the
      wait counter to the holder counter. */
  function FinishGrant(sh: Shared, pc: Pc): Shared {
    match pc
    case GrantReaders(k) => sh.(readTokens := sh.readTokens + k,
      waitReaders := sh.waitReaders - k, readers := sh.readers + k, control := sh.control + 1)
    case GrantReadersCount(k) => if k == 0 then sh else sh.(readTokens := sh.readTokens + k - 1,
      waitReaders := sh.waitReaders - k, readers := sh.readers + k, control := sh.control + 1)
    case GrantWriter => sh.(writeTokens := sh.writeTokens + 1,
      waitWriters := sh.waitWriters - 1, writers := sh.writers + 1, control := sh.control + 1)
    case GrantWriterCount => sh.(
      waitWriters := sh.waitWriters - 1, writers := sh.writers + 1, control := sh.control + 1)
    case Exit => sh.(control := sh.control + 1)
    case _ => sh
  }

  /** The state without some tokens that other processes have taken. */
  function WithoutTokens(sh: Shared, r: nat, w: nat): Shared
    requires r <= sh.readTokens && w <= sh.writeTokens
  {
    sh.(readTokens := sh.readTokens - r, writeTokens := sh.writeTokens - w)
  }

  predicate TakesToken(s: State, e: Event, role: Role) {
    e.action.Advance? && e.proc < |s.procs| && s.procs[e.proc] == Blocked(role)
  }

  function TokensTaken(s: State, events: seq<Event>, role: Role): nat
    requires Feasible(s, events)
    decreases |events|
  {
    if events == [] then 0
    else (if TakesToken(s, events[0], role) then 1 else 0) + TokensTaken(Do(s, events[0]), events[1..], role)
  }

  /** Process i is inside the control section before every event of the run and has
      left it at the end. */
  predicate OnePass(s: State, i: nat, events: seq<Event>)
    requires Feasible(s, events) && i < |s.procs|
    decreases |events|
  {
    if events == [] then InControl(s.procs[i]) == 0
    else InControl(s.procs[i]) == 1 && OnePass(Do(s, events[0]), i, events[1..])
  }

  lemma OwnStep(s: State, i: nat)
    requires Inv(s) && i < |s.procs| && InControl(s.procs[i]) == 1
    ensures
      var s' := Do(s, Event(i, Advance));
      if InControl(s'.procs[i]) == 1 then Finish(s'.shared, s'.procs[i]) == Finish(s.shared, s.procs[i])
      else s'.shared == Finish(s.shared, s.procs[i])
  {
    assert PcFacts(s.shared, s.procs[i]);
  }

  /** Another process can only take tokens while the control section is occupied. */
  lemma OtherStep(s: State, i: nat, e: Event)
    requires Inv(s) && i < |s.procs| && InControl(s.procs[i]) == 1
    requires Enabled(s, e) && e.proc != i
    ensures
      var r := if TakesToken(s, e, Reader) then 1 else 0;
      var w := if TakesToken(s, e, Writer) then 1 else 0;
      && r <= s.shared.readTokens && w <= s.shared.writeTokens
      && Do(s, e).shared == WithoutTokens(s.shared, r, w)
      && Do(s, e).procs[i] == s.procs[i]
  {
    OneInControl(s, i);
  }

  lemma FinishGrantWithoutTokens(sh: Shared, pc: Pc, r: nat, w: nat)
    requires r <= sh.readTokens && w <= sh.writeTokens && (pc.GrantReadersCount? ==> pc.loop > 0)
    ensures r <= FinishGrant(sh, pc).readTokens && w <= FinishGrant(sh, pc).writeTokens
    ensures FinishGrant(WithoutTokens(sh, r, w), pc) == WithoutTokens(FinishGrant(sh, pc), r, w)
  {
  }

  lemma OwnUpdateWithoutTokens(sh: Shared, pc: Pc, r: nat, w: nat)
    requires r <= sh.readTokens && w <= sh.writeTokens
    ensures OwnUpdate(sh, pc).readTokens == sh.readTokens && OwnUpdate(sh, pc).writeTokens == sh.writeTokens
    ensures OwnUpdate(WithoutTokens(sh, r, w), pc) == WithoutTokens(OwnUpdate(sh, pc), r, w)
  {
  }

  lemma GrantsOwedWithoutTokens(sh: Shared, pc: Pc, r: nat, w: nat)
    requires r <= sh.readTokens && w <= sh.writeTokens
    ensures GrantsOwed(WithoutTokens(sh, r, w), pc) == GrantsOwed(sh, pc)
  {
  }

  /** What a process in the control section computes does not depend on the tokens. */
  lemma FinishWithoutTokens(sh: Shared, pc: Pc, r: nat, w: nat)
    requires r <= sh.readTokens && w <= sh.writeTokens && (pc.GrantReadersCount? ==> pc.loop > 0)
    ensures r <= Finish(sh, pc).readTokens && w <= Finish(sh, pc).writeTokens
    ensures Finish(WithoutTokens(sh, r, w), pc) == WithoutTokens(Finish(sh, pc), r, w)
  {
    OwnUpdateWithoutTokens(sh, pc, r, w);
    GrantsOwedWithoutTokens(sh, pc, r, w);
    FinishGrantWithoutTokens(OwnUpdate(sh, pc), GrantsOwed(sh, pc), r, w);
  }

  /** The control section is atomic: after one pass of process i, with any other
      processes' steps in between, the shared state is the one that i alone computes,
      less the tokens that blocked processes took on the way. */
  lemma {:induction false} PassIsAtomic(s: State, i: nat, events: seq<Event>)
    requires Inv(s) && i < |s.procs| && Feasible(s, events) && OnePass(s, i, events)
    requires InControl(s.procs[i]) == 1
    ensures
      var last := Finish(s.shared, s.procs[i]);
      var r := TokensTaken(s, events, Reader);
      var w := TokensTaken(s, events, Writer);
      && r <= last.readTokens && w <= last.writeTokens
      && Run(s, events).shared == WithoutTokens(last, r, w)
    decreases |events|
  {
    var e := events[0];
    var s' := Do(s, e);
    StepKeepsInv(s, e);
    assert PcFacts(s.shared, s.procs[i]);
    if e.proc == i {
      OwnStep(s, i);
      if InControl(s'.procs[i]) == 1 {
        PassIsAtomic(s', i, events[1..]);
      } else {
        assert events[1..] == [];
      }
    } else {
      OtherStep(s, i, e);
      var r := if TakesToken(s, e, Reader) then 1 else 0;
      var w := if TakesToken(s, e, Writer) then 1 else 0;
      FinishWithoutTokens(s.shared, s.procs[i], r, w);
      PassIsAtomic(s', i, events[1..]);
    }
  }
}
