/** The semaphore protocol around the message ring of libipc/ipc_msg_shm.cc: one sender
    and any number of receivers, a step for every access to shared state. */
module MsgProtocol {
  import opened WeightedSum

  /** Where the sender is in Send; need is the padded length and the word before it. */
  datatype SenderPc =
    | SIdle
    | SChecked(need: nat)      // free_size was found large enough, without the mutex
    | SInside(need: nat)       // P(0) done
    | SWritten(need: nat)      // the bytes are in the ring
    | SSpent                   // free_size lowered
    | SRaised                  // msg_num raised, V(1) still to come
    | SPosted                  // V(0) still to come

  datatype ReceiverPc =
    | RIdle
    | RCounted                 // P(1) done
    | RDenied                  // P(0) failed, V(1) still to come
    | RInside                  // P(0) done
    | RRefusing                // the buffer is too small, V(1) still to come
    | RTaken(size: nat)        // the head is behind the message
    | RLowered(size: nat)      // msg_num lowered
    | RLeaving                 // V(0) still to come

  /** The queue holds the sizes of the messages in the ring, each with its length word. */
  datatype State = State(capacity: nat, queue: seq<nat>, msgNum: int, free: int, count: int, mutex: int,
                         sender: SenderPc, receivers: seq<ReceiverPc>)

  datatype Event =
    | Send(need: nat)          // Send passes its check
    | SenderStep
    | SenderTimeout
    | Step(receiver: nat)
    | Refuse(receiver: nat)
    | Timeout(receiver: nat)   // P(0) fails

  ghost predicate Initial(s: State) {
    && s.queue == [] && s.msgNum == 0 && s.free == s.capacity && s.count == 0 && s.mutex == 1
    && s.sender == SIdle && forall i :: 0 <= i < |s.receivers| ==> s.receivers[i] == RIdle
  }

  predicate Enabled(s: State, e: Event) {
    match e
    case Send(need) => s.sender.SIdle? && need <= s.free
    case SenderStep => !s.sender.SIdle? && (s.sender.SChecked? ==> s.mutex > 0)
    case SenderTimeout => s.sender.SChecked?
    case Step(i) =>
      && i < |s.receivers|
      && (s.receivers[i].RIdle? ==> s.count > 0)
      && (s.receivers[i].RCounted? ==> s.mutex > 0)
    case Refuse(i) => i < |s.receivers| && s.receivers[i].RInside?
    case Timeout(i) => i < |s.receivers| && s.receivers[i].RCounted?
  }

  function DoSender(s: State): State
    requires !s.sender.SIdle?
  {
    match s.sender
    case SChecked(need) => s.(mutex := s.mutex - 1, sender := SInside(need))
    case SInside(need) => s.(queue := s.queue + [need], sender := SWritten(need))
    case SWritten(need) => s.(free := s.free - need, sender := SSpent)
    case SSpent => s.(msgNum := s.msgNum + 1, sender := SRaised)
    case SRaised => s.(count := s.count + 1, sender := SPosted)
    case SPosted => s.(mutex := s.mutex + 1, sender := SIdle)
  }

  /** What a receiver does to the shared state, and where it is afterwards. A receiver
      that takes from an empty ring finds a message of no size; see NoEmptyRing. */
  function DoShared(s: State, pc: ReceiverPc): State {
    match pc
    case RIdle => s.(count := s.count - 1)
    case RCounted => s.(mutex := s.mutex - 1)
    case RDenied => s.(count := s.count + 1)
    case RInside => s.(queue := if s.queue == [] then [] else s.queue[1..])
    case RRefusing => s.(count := s.count + 1)
    case RTaken(_) => s.(msgNum := s.msgNum - 1)
    case RLowered(size) => s.(free := s.free + size)
    case RLeaving => s.(mutex := s.mutex + 1)
  }

  function DoPc(s: State, pc: ReceiverPc): ReceiverPc {
    match pc
    case RIdle => RCounted
    case RCounted => RInside
    case RDenied => RIdle
    case RInside => RTaken(if s.queue == [] then 0 else s.queue[0])
    case RRefusing => RLeaving
    case RTaken(size) => RLowered(size)
    case RLowered(_) => RLeaving
    case RLeaving => RIdle
  }

  function Move(s: State, i: nat, pc: ReceiverPc): State
    requires i < |s.receivers|
  {
    s.(receivers := s.receivers[i := pc])
  }

  function Do(s: State, e: Event): State
    requires Enabled(s, e)
  {
    match e
    case Send(need) => s.(sender := SChecked(need))
    case SenderStep => DoSender(s)
    case SenderTimeout => s.(sender := SIdle)
    case Step(i) => Move(DoShared(s, s.receivers[i]), i, DoPc(s, s.receivers[i]))
    case Refuse(i) => Move(s, i, RRefusing)
    case Timeout(i) => Move(s, i, RDenied)
  }

  predicate Feasible(s: State, events: seq<Event>)
    decreases |events|
  {
    events == [] || (Enabled(s, events[0]) && Feasible(Do(s, events[0]), events[1..]))
  }

  function Run(s: State, events: seq<Event>): State
    requires Feasible(s, events)
    decreases |events|
  {
    if events == [] then s else Run(Do(s, events[0]), events[1..])
  }

  // Weights.

  /** Between P(1) and the consumption or the give-back. */
  function Claim(pc: ReceiverPc): int {
    if pc.RCounted? || pc.RDenied? || pc.RInside? || pc.RRefusing? || pc.RTaken? then 1 else 0
  }

  function Inside(pc: ReceiverPc): int {
    if pc.RIdle? || pc.RCounted? || pc.RDenied? then 0 else 1
  }

  /** Has taken a message that msg_num still counts. */
  function Taken(pc: ReceiverPc): int {
    if pc.RTaken? then 1 else 0
  }

  /** The size of a message taken that free_size does not show yet. */
  function Unreturned(pc: ReceiverPc): int {
    if pc.RTaken? || pc.RLowered? then pc.size else 0
  }

  function SenderInside(pc: SenderPc): int {
    if pc.SIdle? || pc.SChecked? then 0 else 1
  }

  /** Between raising msg_num and V(1). */
  function Owed(pc: SenderPc): int {
    if pc.SRaised? then 1 else 0
  }

  function Uncounted(pc: SenderPc): int {
    if pc.SWritten? || pc.SSpent? then 1 else 0
  }

  function Unspent(pc: SenderPc): int {
    if pc.SWritten? then pc.need else 0
  }

  ghost function Total(queue: seq<nat>): (r: nat) {
    if queue == [] then 0 else queue[0] + Total(queue[1..])
  }

  lemma {:induction false} TotalAppend(queue: seq<nat>, n: nat)
    ensures Total(queue + [n]) == Total(queue) + n
  {
    if queue != [] {
      assert (queue + [n])[1..] == queue[1..] + [n];
      TotalAppend(queue[1..], n);
    }
  }

  // The invariant, one line for each shared variable.

  ghost predicate MutexBalance(s: State) {
    s.mutex >= 0 && s.mutex + Sum(Inside, s.receivers) + SenderInside(s.sender) == 1
  }

  ghost predicate CountBalance(s: State) {
    s.count >= 0 && s.msgNum == s.count + Sum(Claim, s.receivers) + Owed(s.sender)
  }

  ghost predicate QueueBalance(s: State) {
    |s.queue| + Sum(Taken, s.receivers) == s.msgNum + Uncounted(s.sender)
  }

  ghost predicate SpaceBalance(s: State) {
    s.free + Total(s.queue) + Sum(Unreturned, s.receivers) == s.capacity + Unspent(s.sender)
  }

  /** The sender's check, made without the mutex, stays true. */
  predicate CheckHolds(s: State) {
    && s.free >= 0
    && (s.sender.SChecked? || s.sender.SInside? || s.sender.SWritten? ==> s.sender.need <= s.free)
  }

  ghost predicate Inv(s: State) {
    MutexBalance(s) && CountBalance(s) && QueueBalance(s) && SpaceBalance(s) && CheckHolds(s)
  }

  lemma InitialInv(s: State)
    requires Initial(s)
    ensures Inv(s)
  {
    SumZero(Inside, s.receivers);
    SumZero(Claim, s.receivers);
    SumZero(Taken, s.receivers);
    SumZero(Unreturned, s.receivers);
  }

  lemma WeightsNonNegative(rs: seq<ReceiverPc>)
    ensures NonNegative(Inside, rs) && NonNegative(Claim, rs) && NonNegative(Taken, rs) && NonNegative(Unreturned, rs)
    ensures Dominates(Inside, Taken, rs)
    ensures 0 <= Sum(Inside, rs) && 0 <= Sum(Claim, rs) && 0 <= Sum(Taken, rs) && 0 <= Sum(Unreturned, rs)
    ensures Sum(Taken, rs) <= Sum(Inside, rs)
  {
    SumNonNegative(Inside, rs);
    SumNonNegative(Claim, rs);
    SumNonNegative(Taken, rs);
    SumNonNegative(Unreturned, rs);
    SumMonotone(Inside, Taken, rs);
  }

  /** Whoever is inside the critical section is there alone. */
  lemma AloneInside(s: State, i: nat)
    requires MutexBalance(s) && i < |s.receivers| && Inside(s.receivers[i]) == 1
    ensures SenderInside(s.sender) == 0 && s.mutex == 0
    ensures forall j :: 0 <= j < |s.receivers| && j != i ==> Inside(s.receivers[j]) == 0
    ensures Sum(Taken, s.receivers) == Taken(s.receivers[i])
  {
    var rs := s.receivers;
    WeightsNonNegative(rs);
    SumAtLeastOne(Inside, rs, i, RIdle);
    SumConcentrated(Inside, Taken, rs, i, RIdle);
    forall j | 0 <= j < |rs| && j != i ensures Inside(rs[j]) == 0 {
      SumAtLeastTwo(Inside, rs, i, j, RIdle);
    }
  }

  /** No receiver enters an empty ring. */
  lemma NoEmptyRing(s: State, i: nat)
    requires Inv(s) && i < |s.receivers| && s.receivers[i].RInside?
    ensures s.queue != []
  {
    AloneInside(s, i);
    WeightsNonNegative(s.receivers);
    SumAtLeastOne(Claim, s.receivers, i, RIdle);
  }

  /** When the sender writes, the room it checked for is there. */
  lemma RoomIsThere(s: State)
    requires Inv(s) && s.sender.SInside?
    ensures Total(s.queue) + s.sender.need <= s.capacity
  {
    SumInsideZero(s);
  }

  lemma SumInsideZero(s: State)
    requires MutexBalance(s) && SenderInside(s.sender) == 1
    ensures Sum(Inside, s.receivers) == 0 && Sum(Unreturned, s.receivers) == 0 && s.mutex == 0
    ensures forall i :: 0 <= i < |s.receivers| ==> Inside(s.receivers[i]) == 0
  {
    var rs := s.receivers;
    WeightsNonNegative(rs);
    forall i | 0 <= i < |rs| ensures Inside(rs[i]) == 0 && Unreturned(rs[i]) == 0 {
      SumAtLeastOne(Inside, rs, i, RIdle);
    }
    SumZero(Unreturned, rs);
  }

  lemma SenderKeepsInv(s: State)
    requires Inv(s) && !s.sender.SIdle? && (s.sender.SChecked? ==> s.mutex > 0)
    ensures Inv(DoSender(s))
  {
    if s.sender.SInside? { TotalAppend(s.queue, s.sender.need); }
  }

  lemma SumsAfterMove(rs: seq<ReceiverPc>, i: nat, pc: ReceiverPc)
    requires i < |rs|
    ensures var rs' := rs[i := pc];
            && Sum(Inside, rs') == Sum(Inside, rs) - Inside(rs[i]) + Inside(pc)
            && Sum(Claim, rs') == Sum(Claim, rs) - Claim(rs[i]) + Claim(pc)
            && Sum(Taken, rs') == Sum(Taken, rs) - Taken(rs[i]) + Taken(pc)
            && Sum(Unreturned, rs') == Sum(Unreturned, rs) - Unreturned(rs[i]) + Unreturned(pc)
  {
    SumUpdate(Inside, rs, i, pc);
    SumUpdate(Claim, rs, i, pc);
    SumUpdate(Taken, rs, i, pc);
    SumUpdate(Unreturned, rs, i, pc);
  }

  lemma ReceiverTakes(s: State, i: nat)
    requires Inv(s) && Enabled(s, Step(i)) && s.receivers[i].RInside?
    ensures Inv(Do(s, Step(i)))
  {
    NoEmptyRing(s, i);
    SumsAfterMove(s.receivers, i, RTaken(s.queue[0]));
  }

  /** A step of a receiver moves each shared number as it moves the receiver. */
  lemma ReceiverBalance(s: State, pc: ReceiverPc)
    requires !pc.RInside?
    ensures var t, pc' := DoShared(s, pc), DoPc(s, pc);
            && t.mutex + Inside(pc') == s.mutex + Inside(pc)
            && t.msgNum - t.count - Claim(pc') == s.msgNum - s.count - Claim(pc)
            && t.msgNum - Taken(pc') == s.msgNum - Taken(pc)
            && t.free + Unreturned(pc') == s.free + Unreturned(pc) && t.free >= s.free
            && t.queue == s.queue && t.sender == s.sender && t.capacity == s.capacity
  {
  }

  lemma ReceiverKeepsInv(s: State, i: nat)
    requires Inv(s) && Enabled(s, Step(i)) && !s.receivers[i].RInside?
    ensures Inv(Do(s, Step(i)))
  {
    ReceiverBalance(s, s.receivers[i]);
    SumsAfterMove(s.receivers, i, DoPc(s, s.receivers[i]));
  }

  lemma StepKeepsInv(s: State, e: Event)
    requires Inv(s) && Enabled(s, e)
    ensures Inv(Do(s, e))
  {
    match e
    case SenderStep => SenderKeepsInv(s);
    case Step(i) => if s.receivers[i].RInside? { ReceiverTakes(s, i); } else { ReceiverKeepsInv(s, i); }
    case Refuse(i) => SumsAfterMove(s.receivers, i, RRefusing);
    case Timeout(i) => SumsAfterMove(s.receivers, i, RDenied);
    case Send(_) =>
    case SenderTimeout =>
  }

  lemma {:induction false} RunKeepsInv(s: State, events: seq<Event>)
    requires Inv(s) && Feasible(s, events)
    ensures Inv(Run(s, events))
    decreases |events|
  {
    if events != [] {
      StepKeepsInv(s, events[0]);
      RunKeepsInv(Do(s, events[0]), events[1..]);
    }
  }

  // What holds in every reachable state.

  /** Never two processes in the critical section. */
  lemma OneInside(s: State, events: seq<Event>, i: nat)
    requires Initial(s) && Feasible(s, events)
    requires var t := Run(s, events); i < |t.receivers| && Inside(t.receivers[i]) == 1
    ensures var t := Run(s, events);
            && SenderInside(t.sender) == 0
            && forall j :: 0 <= j < |t.receivers| && j != i ==> Inside(t.receivers[j]) == 0
  {
    InitialInv(s);
    RunKeepsInv(s, events);
    AloneInside(Run(s, events), i);
  }

  /** The count semaphore and the receivers that took one from it and neither consumed a
      message nor gave it back make up msg_num, which is one ahead between its raising
      and V(1). With nobody inside, they make up the messages in the ring. */
  lemma CountMeansMessages(s: State, events: seq<Event>)
    requires Initial(s) && Feasible(s, events)
    ensures var t := Run(s, events);
            && t.msgNum == t.count + Sum(Claim, t.receivers) + (if t.sender.SRaised? then 1 else 0)
            && (t.mutex == 1 ==> |t.queue| == t.count + Sum(Claim, t.receivers) && t.free + Total(t.queue) == t.capacity)
  {
    InitialInv(s);
    RunKeepsInv(s, events);
    var t := Run(s, events);
    if t.mutex == 1 { FreeIsExact(t); }
  }

  /** With nobody inside, the shared numbers are exact. */
  lemma FreeIsExact(t: State)
    requires Inv(t) && t.mutex == 1
    ensures |t.queue| == t.msgNum == t.count + Sum(Claim, t.receivers) && t.free + Total(t.queue) == t.capacity
  {
    WeightsNonNegative(t.receivers);
    forall i | 0 <= i < |t.receivers| ensures Unreturned(t.receivers[i]) == 0 {
      SumAtLeastOne(Inside, t.receivers, i, RIdle);
    }
    SumZero(Unreturned, t.receivers);
  }

  /** No receiver ever looks into an empty ring, and the sender never writes beyond the
      free room, although it checks that before it has the mutex. */
  lemma NoUnderrunNoOverflow(s: State, events: seq<Event>)
    requires Initial(s) && Feasible(s, events)
    ensures var t := Run(s, events);
            && (forall i :: 0 <= i < |t.receivers| && t.receivers[i].RInside? ==> t.queue != [])
            && (t.sender.SInside? ==> Total(t.queue) + t.sender.need <= t.capacity)
  {
    InitialInv(s);
    RunKeepsInv(s, events);
    var t := Run(s, events);
    forall i | 0 <= i < |t.receivers| && t.receivers[i].RInside? ensures t.queue != [] {
      NoEmptyRing(t, i);
    }
    if t.sender.SInside? { RoomIsThere(t); }
  }

  /** While a message is in the ring or the sender is in its call, some step can be
      taken that is not a new send: messages never lie there with everybody waiting. */
  lemma NoDeadlock(s: State, events: seq<Event>) returns (e: Event)
    requires Initial(s) && Feasible(s, events) && |Run(s, events).receivers| > 0
    requires Run(s, events).queue != [] || Run(s, events).sender != SIdle
    ensures Enabled(Run(s, events), e) && (e.Step? || e.SenderStep?)
  {
    InitialInv(s);
    RunKeepsInv(s, events);
    var t := Run(s, events);
    if t.mutex == 0 && SenderInside(t.sender) == 0 {
      var i := PositiveElement(Inside, t.receivers);
      e := Step(i);
    } else if t.sender != SIdle {
      e := SenderStep;
    } else if 0 < Sum(Claim, t.receivers) {
      var i := PositiveElement(Claim, t.receivers);
      e := Step(i);
    } else {
      CountMeansMessages(s, events);
      WeightsNonNegative(t.receivers);
      e := Step(0);
    }
  }
}
