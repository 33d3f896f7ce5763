/** The semaphore protocol together with the bytes of the ring: what MsgProtocol counts
    and what MsgRing stores stay one, in every interleaving. A receiver that meets a split
    body has overrun and takes no step here. */
module MsgJoined {
  import opened Common
  import opened MsgBytes
  import opened MsgRing
  import P = MsgProtocol

  /** The protocol's state, the segment without its free size, which the protocol has, the
      messages in it, and the one that the sender is about to write. */
  datatype Joined = Joined(p: P.State, seg: Segment, queue: seq<Message>, pending: Message)

  /** A step; the message is that of a new send, the memory what the write leaves. */
  datatype Move = Move(event: P.Event, message: Message, memory: seq<Byte>)

  /** The segment with the free size that goes with its messages. */
  function Exact(j: Joined): Segment {
    j.seg.(free := j.seg.end - j.seg.start - QueueLoad(j.queue))
  }

  predicate Writes(j: Joined, x: Move) {
    x.event.SenderStep? && j.p.sender.SInside?
  }

  predicate Takes(j: Joined, x: Move) {
    x.event.Step? && x.event.receiver < |j.p.receivers| && j.p.receivers[x.event.receiver].RInside? && j.queue != []
  }

  /** The protocol allows the step; a write lays the framed message at the tail, and a
      take is that of a body in one piece. */
  ghost predicate CanMove(j: Joined, x: Move) {
    && Placed(j.seg) && P.Enabled(j.p, x.event)
    && (x.event.Send? ==> Aligned(|x.message|) && 0 < |x.message| && x.event.need == |x.message| + WORD)
    && (Writes(j, x) ==> Laid(j.seg.memory, x.memory, j.seg.start, j.seg.end, j.seg.tail, Frame(j.pending)))
    && (Takes(j, x) ==> !Splits(RingOf(j.seg, j.queue)))
  }

  ghost function After(j: Joined, x: Move): Joined
    requires CanMove(j, x)
  {
    var p := P.Do(j.p, x.event);
    if x.event.Send? then j.(p := p, pending := x.message)
    else if Writes(j, x) then
      Joined(p, Stored(j.seg, x.memory, |j.pending|), j.queue + [j.pending], j.pending)
    else if Takes(j, x) then
      Joined(p, Taken(j.seg, |j.queue[0]|), j.queue[1..], j.pending)
    else j.(p := p)
  }

  ghost predicate Feasible(j: Joined, moves: seq<Move>)
    decreases |moves|
  {
    moves == [] || (CanMove(j, moves[0]) && Feasible(After(j, moves[0]), moves[1..]))
  }

  ghost function Run(j: Joined, moves: seq<Move>): Joined
    requires Feasible(j, moves)
    decreases |moves|
  {
    if moves == [] then j else Run(After(j, moves[0]), moves[1..])
  }

  /** What Create leaves. */
  ghost predicate Initial(j: Joined) {
    && P.Initial(j.p) && Placed(j.seg) && Aligned(j.seg.end) && j.queue == []
    && j.seg.head == j.seg.tail == j.seg.start && j.p.capacity == j.seg.end - j.seg.start
  }

  function Sizes(queue: seq<Message>): (sizes: seq<nat>)
    ensures |sizes| == |queue|
  {
    if queue == [] then [] else [|queue[0]| + WORD] + Sizes(queue[1..])
  }

  lemma {:induction false} SizesAppend(queue: seq<Message>, m: Message)
    ensures Sizes(queue + [m]) == Sizes(queue) + [|m| + WORD]
  {
    if queue != [] {
      assert (queue + [m])[1..] == queue[1..] + [m];
      SizesAppend(queue[1..], m);
    }
  }

  lemma {:induction false} SizesLoad(queue: seq<Message>)
    ensures P.Total(Sizes(queue)) == QueueLoad(queue)
  {
    if queue != [] {
      SizesLoad(queue[1..]);
      assert Sizes(queue)[1..] == Sizes(queue[1..]);
    }
  }

  predicate PendingOk(j: Joined) {
    j.p.sender.SChecked? || j.p.sender.SInside? ==>
      Aligned(|j.pending|) && 0 < |j.pending| && j.p.sender.need == |j.pending| + WORD
  }

  /** The protocol's invariant, and the bytes hold the messages whose sizes it counts. */
  ghost predicate Inv(j: Joined) {
    && P.Inv(j.p) && PendingOk(j)
    && Holds(Exact(j), j.queue)
    && j.p.queue == Sizes(j.queue) && j.p.capacity == j.seg.end - j.seg.start
  }

  lemma InitialInv(j: Joined)
    requires Initial(j)
    ensures Inv(j)
  {
    P.InitialInv(j.p);
    assert HEADER % WORD == 0;
    assert Stream(Exact(j))[..0] == [];
  }

  /** When the sender writes there is the room that Store asks for. */
  lemma RoomToWrite(j: Joined)
    requires Inv(j) && j.p.sender.SInside?
    ensures |j.pending| + WORD <= Exact(j).free && j.seg.tail + WORD <= j.seg.end
    ensures j.seg.head <= j.seg.tail ==> |j.pending| + WORD <= j.seg.end - j.seg.tail + (j.seg.head - j.seg.start)
    ensures j.seg.head > j.seg.tail ==> |j.pending| + WORD <= j.seg.head - j.seg.tail
  {
    P.RoomIsThere(j.p);
    SizesLoad(j.queue);
    RoomForOne(Exact(j), QueueLoad(j.queue), |j.pending|);
  }

  lemma WriteKeepsInv(j: Joined, x: Move)
    requires Inv(j) && CanMove(j, x) && Writes(j, x)
    ensures Inv(After(j, x))
  {
    var j' := After(j, x);
    P.StepKeepsInv(j.p, x.event);
    RoomToWrite(j);
    SizesAppend(j.queue, j.pending);
    EncodeAppend(j.queue, j.pending);
    assert Exact(j') == Stored(Exact(j), x.memory, |j.pending|);
    StoredHolds(Exact(j), Exact(j'), j.queue, j.pending);
  }

  /** What a take does to the sizes that the protocol counts. */
  lemma TakeKeepsSizes(j: Joined, x: Move)
    requires Inv(j) && CanMove(j, x) && Takes(j, x)
    ensures After(j, x).p.queue == Sizes(j.queue[1..])
    ensures After(j, x).p.capacity == j.p.capacity && PendingOk(After(j, x))
  {
    assert Sizes(j.queue)[1..] == Sizes(j.queue[1..]);
  }

  lemma TakeKeepsInv(j: Joined, x: Move)
    requires Inv(j) && CanMove(j, x) && Takes(j, x)
    ensures Inv(After(j, x))
  {
    var j' := After(j, x);
    P.StepKeepsInv(j.p, x.event);
    TakeKeepsSizes(j, x);
    TakenHolds(Exact(j), j.queue);
    assert Exact(j') == Taken(Exact(j), |j.queue[0]|) by {
      assert QueueLoad(j.queue) == WORD + |j.queue[0]| + QueueLoad(j.queue[1..]);
    }
  }

  lemma OtherKeepsSizes(j: Joined, x: Move)
    requires Inv(j) && CanMove(j, x) && !Writes(j, x) && !Takes(j, x)
    ensures After(j, x).p.queue == j.p.queue
    ensures After(j, x).p.capacity == j.p.capacity && PendingOk(After(j, x))
  {
    if x.event.Step? && j.p.receivers[x.event.receiver].RInside? {
      P.NoEmptyRing(j.p, x.event.receiver);
    }
  }

  lemma OtherKeepsInv(j: Joined, x: Move)
    requires Inv(j) && CanMove(j, x) && !Writes(j, x) && !Takes(j, x)
    ensures Inv(After(j, x))
  {
    P.StepKeepsInv(j.p, x.event);
    OtherKeepsSizes(j, x);
    assert Exact(After(j, x)) == Exact(j);
  }

  lemma StepKeepsInv(j: Joined, x: Move)
    requires Inv(j) && CanMove(j, x)
    ensures Inv(After(j, x))
  {
    if Writes(j, x) {
      WriteKeepsInv(j, x);
    } else if Takes(j, x) {
      TakeKeepsInv(j, x);
    } else {
      OtherKeepsInv(j, x);
    }
  }

  lemma {:induction false} RunKeepsInv(j: Joined, moves: seq<Move>)
    requires Inv(j) && Feasible(j, moves)
    ensures Inv(Run(j, moves))
    decreases |moves|
  {
    if moves != [] {
      StepKeepsInv(j, moves[0]);
      RunKeepsInv(After(j, moves[0]), moves[1..]);
    }
  }

  /** In every interleaving of one sender and any number of receivers, whenever the mutex
      is free the bytes, with the free size that the protocol shows, are a ring that holds
      exactly the messages sent and not taken; their number is msg_num, and the bytes
      between head and tail decode to them. */
  lemma RingIsRightWhenFree(j: Joined, moves: seq<Move>)
    requires Initial(j) && Feasible(j, moves) && Run(j, moves).p.mutex == 1
    ensures var t := Run(j, moves);
            var seg := t.seg.(free := t.p.free);
            && Holds(seg, t.queue) && t.p.msgNum == |t.queue|
            && Decode(Stream(seg)[..seg.end - seg.start - seg.free]) == Some(t.queue)
  {
    InitialInv(j);
    RunKeepsInv(j, moves);
    var t := Run(j, moves);
    P.FreeIsExact(t.p);
    SizesLoad(t.queue);
    assert t.seg.(free := t.p.free) == Exact(t);
    QueueIsDecoded(Exact(t), t.queue);
  }

  /** The oldest message is at the head, length and body. */
  ghost predicate OldestAtHead(s: Segment, queue: seq<Message>) {
    && queue != [] && Placed(s) && s.head + WORD <= s.end
    && ValueOf(s.memory[s.head..s.head + WORD]) == |queue[0]|
    && LiesAt(s.memory, s.start, s.end, BodyPos(s), queue[0])
  }

  lemma InsideSeesOldest(j: Joined, i: nat)
    requires Inv(j) && i < |j.p.receivers| && j.p.receivers[i].RInside?
    ensures OldestAtHead(Exact(j), j.queue)
  {
    P.NoEmptyRing(j.p, i);
    LengthAtHead(Exact(j), j.queue);
    BodyBehindHead(Exact(j), j.queue);
  }

  /** A receiver inside finds the oldest message at the head, and the sender inside finds
      room: the unlocked check is still good for the bytes. */
  lemma InsideIsSafe(j: Joined, moves: seq<Move>)
    requires Initial(j) && Feasible(j, moves)
    ensures var t := Run(j, moves);
            && (forall i :: 0 <= i < |t.p.receivers| && t.p.receivers[i].RInside? ==> OldestAtHead(Exact(t), t.queue))
            && (t.p.sender.SInside? ==> |t.pending| + WORD <= Exact(t).free && t.seg.tail + WORD <= t.seg.end)
  {
    InitialInv(j);
    RunKeepsInv(j, moves);
    var t := Run(j, moves);
    forall i | 0 <= i < |t.p.receivers| && t.p.receivers[i].RInside? ensures OldestAtHead(Exact(t), t.queue) {
      InsideSeesOldest(t, i);
    }
    if t.p.sender.SInside? { RoomToWrite(t); }
  }
}
