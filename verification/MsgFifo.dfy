/** Whole runs of sends and receives on the message ring. */
module MsgFifo {
  import opened Common
  import opened MsgBytes
  import opened MsgRing

  datatype Op =
    | Put(message: Message)    // a Send that gets the mutex, of the padded message
    | Get(room: nat)           // a Recv that gets both semaphores if there is a message

  /** The ring, and what was accepted from senders and handed to receivers so far. */
  datatype Trace = Trace(ring: Ring, accepted: seq<Message>, received: seq<Message>, overran: bool)

  /** Nothing is promised about an operation after an overrun: it is skipped. */
  function Do(t: Trace, op: Op): Trace {
    if t.overran then t
    else match op
      case Put(m) =>
        if Fits(t.ring, m) then t.(ring := AfterSend(t.ring, m), accepted := t.accepted + [m]) else t
      case Get(room) =>
        if t.ring.queue == [] then t
        else match WhatRecv(t.ring, room)
          case Failed => t
          case Overrun(_) => t.(overran := true)
          case Got(m) => t.(ring := AfterTake(t.ring), received := t.received + [m])
  }

  function Run(t: Trace, ops: seq<Op>): Trace
    decreases |ops|
  {
    if ops == [] then t else Run(Do(t, ops[0]), ops[1..])
  }

  ghost predicate InOrder(t: Trace) {
    t.accepted == t.received + t.ring.queue
  }

  predicate WholePuts(ops: seq<Op>) {
    forall i :: 0 <= i < |ops| && ops[i].Put? ==> Aligned(|ops[i].message|)
  }

  lemma DoKeepsOrder(t: Trace, op: Op)
    requires InOrder(t)
    ensures InOrder(Do(t, op))
  {
    if op.Get? && t.ring.queue != [] {
      assert t.ring.queue == [t.ring.queue[0]] + t.ring.queue[1..];
    }
  }

  /** In every run the messages handed out are, in order and byte for byte, the first of
      those accepted, and the others are in the ring. */
  lemma {:induction false} FirstInFirstOut(t: Trace, ops: seq<Op>)
    requires InOrder(t)
    ensures InOrder(Run(t, ops))
    ensures Run(t, ops).received <= Run(t, ops).accepted
    decreases |ops|
  {
    if ops != [] {
      DoKeepsOrder(t, ops[0]);
      FirstInFirstOut(Do(t, ops[0]), ops[1..]);
    }
  }

  lemma SendKeepsSound(ring: Ring, m: Message)
    requires Sound(ring) && Aligned(|m|)
    ensures Sound(AfterSend(ring, m))
    ensures Fits(ring, m) ==> Load(AfterSend(ring, m)) == Load(ring) + |m| + WORD
  {
    EncodeAppend(ring.queue, m);
  }

  lemma TakeKeepsSound(ring: Ring)
    requires Sound(ring) && ring.queue != []
    ensures Sound(AfterTake(ring))
    ensures Load(AfterTake(ring)) == Load(ring) - |ring.queue[0]| - WORD
  {
    var n := |ring.queue[0]|;
    AlignedSum(ring.head, 0);
    AlignedSum(ring.head + WORD, ring.capacity);
    AlignedSum(BodyAt(ring), n);
    AlignedSum(BodyAt(ring) + n, ring.capacity);
  }

  lemma {:induction false} RunKeepsSound(t: Trace, ops: seq<Op>)
    requires Sound(t.ring) && WholePuts(ops)
    ensures Sound(Run(t, ops).ring) && Run(t, ops).ring.capacity == t.ring.capacity
    decreases |ops|
  {
    if ops != [] {
      if ops[0].Put? {
        SendKeepsSound(t.ring, ops[0].message);
      } else if t.ring.queue != [] {
        TakeKeepsSound(t.ring);
      }
      RunKeepsSound(Do(t, ops[0]), ops[1..]);
    }
  }

  // Messages of one length.

  predicate Multiple(n: int, frame: nat)
    requires frame > 0
  {
    n % frame == 0
  }

  ghost predicate AllOf(queue: seq<Message>, len: nat) {
    forall i :: 0 <= i < |queue| ==> |queue[i]| == len
  }

  /** All messages have the length, and frames of it fill the ring. */
  ghost predicate Uniform(ring: Ring, len: nat) {
    && Sound(ring) && Aligned(len) && AllOf(ring.queue, len)
    && Multiple(ring.capacity, len + WORD) && Multiple(ring.head, len + WORD)
  }

  predicate UniformPuts(ops: seq<Op>, len: nat) {
    forall i :: 0 <= i < |ops| && ops[i].Put? ==> |ops[i].message| == len
  }

  /** A frame that starts at a multiple ends at a multiple, and so inside the ring. */
  lemma NextMultiple(head: nat, capacity: nat, frame: nat)
    requires frame > 0 && Multiple(head, frame) && Multiple(capacity, frame) && head < capacity
    ensures head + frame <= capacity
    ensures Multiple(head + frame, frame) && Multiple(head + frame - capacity, frame)
  {
    var i, j := head / frame, capacity / frame;
    assert head == frame * i && capacity == frame * j;
    if i >= j { Scale(frame, j, i); }
    Scale(frame, i + 1, j);
    MultipleOf(i + 1, frame);
    MultipleOf(i + 1 - j, frame);
    assert head + frame == frame * (i + 1);
    assert head + frame - capacity == frame * (i + 1 - j);
  }

  lemma MultipleOf(k: int, frame: nat)
    requires frame > 0
    ensures Multiple(frame * k, frame)
  {
    var q, r := (frame * k) / frame, (frame * k) % frame;
    assert r == frame * (k - q);
    if k > q { Scale(frame, 1, k - q); }
    if k < q { Scale(frame, k - q, -1); }
  }

  lemma UniformNeverSplits(ring: Ring, len: nat)
    requires Uniform(ring, len) && ring.queue != []
    ensures !Splits(ring) && Uniform(AfterTake(ring), len)
  {
    assert |ring.queue[0]| == len;
    assert Load(ring) == WORD + len + QueueLoad(ring.queue[1..]);
    NextMultiple(ring.head, ring.capacity, len + WORD);
    TakeKeepsSound(ring);
  }

  lemma {:induction false} UniformLoad(queue: seq<Message>, len: nat)
    requires AllOf(queue, len)
    ensures QueueLoad(queue) == |queue| * (len + WORD)
  {
    if queue != [] {
      UniformLoad(queue[1..], len);
      assert |queue| * (len + WORD) == (|queue| - 1) * (len + WORD) + (len + WORD);
    }
  }

  lemma UniformStep(t: Trace, op: Op, len: nat)
    requires Uniform(t.ring, len) && !t.overran && (op.Put? ==> |op.message| == len)
    ensures Uniform(Do(t, op).ring, len) && !Do(t, op).overran
  {
    if op.Put? {
      SendKeepsSound(t.ring, op.message);
    } else if t.ring.queue != [] {
      UniformNeverSplits(t.ring, len);
    }
  }

  /** A message of the length is refused exactly when capacity / frame of them are in the
      ring. */
  lemma UniformRefusal(ring: Ring, len: nat, m: Message)
    requires Uniform(ring, len) && |m| == len
    ensures Fits(ring, m) <==> |ring.queue| < ring.capacity / (len + WORD)
  {
    var frame, n := len + WORD, |ring.queue|;
    var most := ring.capacity / frame;
    UniformLoad(ring.queue, len);
    assert ring.capacity == frame * most && n * frame == frame * n;
    if n < most { Scale(frame, n + 1, most); }
    if n >= most { Scale(frame, most, n); }
  }

  /** With messages of one length whose frames fill the ring, no run ever meets a split
      body: the ring is a queue of capacity / frame messages. */
  lemma {:induction false} UniformRingIsQueue(t: Trace, ops: seq<Op>, len: nat)
    requires Uniform(t.ring, len) && !t.overran && UniformPuts(ops, len)
    ensures !Run(t, ops).overran && Uniform(Run(t, ops).ring, len)
    ensures Load(Run(t, ops).ring) == |Run(t, ops).ring.queue| * (len + WORD) <= t.ring.capacity
    decreases |ops|
  {
    if ops != [] {
      UniformStep(t, ops[0], len);
      UniformRingIsQueue(Do(t, ops[0]), ops[1..], len);
    } else {
      UniformLoad(t.ring.queue, len);
    }
  }

  // Everything accepted is delivered.

  ghost predicate RoomyGets(ops: seq<Op>, len: nat) {
    forall i :: 0 <= i < |ops| ==> ops[i].Get? && ops[i].room >= len
  }

  /** A receiver with room gets the oldest message. */
  lemma RoomyGet(t: Trace, room: nat, len: nat)
    requires Uniform(t.ring, len) && !t.overran && t.ring.queue != [] && room >= len
    ensures var u := Do(t, Get(room));
            && !u.overran && Uniform(u.ring, len) && u.accepted == t.accepted
            && u.received == t.received + [t.ring.queue[0]] && u.ring.queue == t.ring.queue[1..]
  {
    assert |t.ring.queue[0]| == len;
    UniformNeverSplits(t.ring, len);
  }

  lemma {:induction false} GetsEmpty(t: Trace, gets: seq<Op>, len: nat)
    requires Uniform(t.ring, len) && !t.overran && RoomyGets(gets, len) && |gets| >= |t.ring.queue|
    ensures var u := Run(t, gets);
            u.accepted == t.accepted && u.received == t.received + t.ring.queue && u.ring.queue == []
    decreases |gets|
  {
    if gets != [] {
      assert gets[0] == Get(gets[0].room) && RoomyGets(gets[1..], len);
      if t.ring.queue == [] {
        GetsEmpty(t, gets[1..], len);
      } else {
        RoomyGet(t, gets[0].room, len);
        GetsEmpty(Do(t, gets[0]), gets[1..], len);
        assert t.ring.queue == [t.ring.queue[0]] + t.ring.queue[1..];
      }
    }
  }

  /** After any run of messages of one length, as many receivers with room for it as there
      are messages left, or more, get everything that was accepted, in order. */
  lemma AllIsDelivered(t: Trace, ops: seq<Op>, gets: seq<Op>, len: nat)
    requires InOrder(t) && Uniform(t.ring, len) && !t.overran && UniformPuts(ops, len)
    requires RoomyGets(gets, len) && |gets| >= |Run(t, ops).ring.queue|
    ensures var u := Run(Run(t, ops), gets);
            u.accepted == Run(t, ops).accepted && u.received == u.accepted && u.ring.queue == []
  {
    UniformRingIsQueue(t, ops, len);
    FirstInFirstOut(t, ops);
    GetsEmpty(Run(t, ops), gets, len);
  }

  /** And what is accepted: a message of the length, as long as fewer than capacity / frame
      are in the ring. */
  lemma PutIsAccepted(t: Trace, m: Message, len: nat)
    requires Uniform(t.ring, len) && !t.overran && |m| == len
    ensures var u := Do(t, Put(m));
            if |t.ring.queue| < t.ring.capacity / (len + 8)
            then u.accepted == t.accepted + [m] && u.ring.queue == t.ring.queue + [m]
            else u == t
  {
    UniformRefusal(t.ring, len, m);
  }

  // Runs on the bytes.

  lemma {:induction false} RunSnoc(t: Trace, ops: seq<Op>, op: Op)
    ensures Run(t, ops + [op]) == Do(Run(t, ops), op)
    decreases |ops|
  {
    if ops == [] {
      assert [] + [op] == [op] && [op][1..] == [];
    } else {
      assert (ops + [op])[1..] == ops[1..] + [op];
      RunSnoc(Do(t, ops[0]), ops[1..], op);
    }
  }

  /** Messages are padded when they are sent, and so are rooms when they are compared. */
  predicate Performable(op: Op) {
    match op
    case Put(m) => Aligned(|m|) && 0 < |m| < OBJECT_LIMIT
    case Get(room) => Align(room) == room && 0 < room < SIZE_MODULUS
  }

  predicate AllPerformable(ops: seq<Op>) {
    forall i :: 0 <= i < |ops| ==> Performable(ops[i])
  }

  /** Senders and receivers that carry out a run on the bytes of the ring, up to the first
      overrun; a receiver with nothing to receive gives up. Whatever the lengths, what is
      received is in order the first part of what was accepted, byte for byte. */
  method Perform(shm: MsgShm, ops: seq<Op>) returns (received: seq<Message>, done: nat)
    requires shm.Valid() && shm.queue == [] && AllPerformable(ops)
    modifies shm, shm.memory
    ensures done <= |ops|
    ensures var t := Run(Trace(old(shm.Abs()), [], [], false), ops[..done]);
            && received == t.received <= t.accepted
            && (!t.overran ==> done == |ops| && shm.Valid() && shm.Abs() == t.ring)
  {
    ghost var start := Trace(shm.Abs(), [], [], false);
    ghost var t := start;
    received, done := [], 0;
    assert ops[..0] == [];
    while done < |ops|
      invariant done <= |ops| && shm.Valid() && shm.memory == old(shm.memory)
      invariant t == Run(start, ops[..done]) && t.ring == shm.Abs() && !t.overran && t.received == received
      invariant InOrder(t)
    {
      var ok;
      ok, received := PerformNext(shm, ops, done, start, t, received);
      t := Do(t, ops[done]);
      done := done + 1;
      if !ok {
        return;
      }
    }
    assert ops[..done] == ops;
  }

  lemma NextOp(start: Trace, ops: seq<Op>, done: nat, t: Trace)
    requires done < |ops| && AllPerformable(ops) && t == Run(start, ops[..done]) && InOrder(t)
    ensures Performable(ops[done])
    ensures Do(t, ops[done]) == Run(start, ops[..done + 1]) && InOrder(Do(t, ops[done]))
  {
    assert Performable(ops[done]);
    RunSnoc(start, ops[..done], ops[done]);
    assert ops[..done] + [ops[done]] == ops[..done + 1];
    DoKeepsOrder(t, ops[done]);
  }

  method PerformNext(shm: MsgShm, ops: seq<Op>, done: nat, ghost start: Trace, ghost t: Trace, before: seq<Message>)
    returns (ok: bool, received: seq<Message>)
    requires done < |ops| && AllPerformable(ops) && t == Run(start, ops[..done]) && InOrder(t)
    requires shm.Valid() && t.ring == shm.Abs() && t.received == before && !t.overran
    modifies shm, shm.memory
    ensures Do(t, ops[done]) == Run(start, ops[..done + 1]) && InOrder(Do(t, ops[done]))
    ensures ok <==> !Do(t, ops[done]).overran
    ensures ok ==> shm.Valid() && shm.memory == old(shm.memory) && shm.Abs() == Do(t, ops[done]).ring
    ensures received == Do(t, ops[done]).received
  {
    NextOp(start, ops, done, t);
    ok, received := PerformOne(shm, ops[done], t, before);
  }

  /** One operation; not ok is the overrun. */
  method PerformOne(shm: MsgShm, op: Op, ghost t: Trace, before: seq<Message>) returns (ok: bool, received: seq<Message>)
    requires shm.Valid() && t.ring == shm.Abs() && t.received == before && !t.overran && Performable(op)
    modifies shm, shm.memory
    ensures ok <==> !Do(t, op).overran
    ensures ok ==> shm.Valid() && shm.memory == old(shm.memory) && shm.Abs() == Do(t, op).ring
    ensures received == Do(t, op).received
  {
    ok, received := true, before;
    if op.Put? {
      PerformPut(shm, op.message);
    } else {
      var r := PerformGet(shm, op.room);
      if r.Got? {
        received := before + [r.message];
      }
      ok := !r.Overrun?;
    }
  }

  method PerformPut(shm: MsgShm, m: Message)
    requires shm.Valid() && Aligned(|m|) && 0 < |m| < OBJECT_LIMIT
    modifies shm, shm.memory
    ensures shm.Valid() && shm.memory == old(shm.memory)
    ensures shm.Abs() == AfterSend(old(shm.Abs()), m)
  {
    AlignedIsItself(|m|);
    assert m[..|m|] == m;
    var _ := shm.Send(m, |m|, true);
  }

  method PerformGet(shm: MsgShm, room: nat) returns (r: Received)
    requires shm.Valid() && Align(room) == room && 0 < room < SIZE_MODULUS
    modifies shm
    ensures r == if old(shm.queue) == [] then Failed else old(WhatRecv(shm.Abs(), room))
    ensures shm.memory == old(shm.memory)
    ensures !r.Overrun? ==> shm.Valid() && shm.Abs() == if r.Got? then AfterTake(old(shm.Abs())) else old(shm.Abs())
  {
    r := shm.Recv(room, shm.count > 0, true);
  }

  /** With messages of one length whose frames fill the ring the run is carried out to its
      end. */
  method PerformUniform(shm: MsgShm, ops: seq<Op>, len: nat) returns (received: seq<Message>)
    requires shm.Valid() && shm.queue == [] && AllPerformable(ops)
    requires Uniform(shm.Abs(), len) && UniformPuts(ops, len)
    modifies shm, shm.memory
    ensures shm.Valid()
    ensures var t := Run(Trace(old(shm.Abs()), [], [], false), ops);
            received == t.received <= t.accepted && shm.Abs() == t.ring
  {
    ghost var start := Trace(shm.Abs(), [], [], false);
    var done;
    received, done := Perform(shm, ops);
    UniformRingIsQueue(start, ops[..done], len);
    assert ops[..|ops|] == ops;
  }

  // The repaired receiver.

  /** The same operations, with a receiver that takes a split body too. */
  function DoRepaired(t: Trace, op: Op): Trace {
    match op
    case Put(_) => Do(t, op)
    case Get(room) =>
      if t.ring.queue == [] || room < |t.ring.queue[0]| then t
      else t.(ring := AfterTake(t.ring), received := t.received + [t.ring.queue[0]])
  }

  function RunRepaired(t: Trace, ops: seq<Op>): Trace
    decreases |ops|
  {
    if ops == [] then t else DoRepaired(RunRepaired(t, ops[..|ops| - 1]), ops[|ops| - 1])
  }

  lemma DoRepairedKeepsOrder(t: Trace, op: Op)
    requires InOrder(t)
    ensures InOrder(DoRepaired(t, op))
  {
    if op.Get? && t.ring.queue != [] {
      assert t.ring.queue == [t.ring.queue[0]] + t.ring.queue[1..];
    }
    DoKeepsOrder(t, op);
  }

  /** A repair, not what the source does: with TakeMessageRepaired in Recv every run, of
      any lengths, is carried out to its end. */
  method PerformRepaired(shm: MsgShm, ops: seq<Op>) returns (received: seq<Message>)
    requires shm.Valid() && shm.queue == [] && AllPerformable(ops)
    modifies shm, shm.memory
    ensures shm.Valid()
    ensures var t := RunRepaired(Trace(old(shm.Abs()), [], [], false), ops);
            && received == t.received && shm.Abs() == t.ring && t.accepted == t.received + t.ring.queue
  {
    ghost var start := Trace(shm.Abs(), [], [], false);
    ghost var t := start;
    received := [];
    assert ops[..0] == [];
    for i := 0 to |ops|
      invariant shm.Valid() && shm.memory == old(shm.memory)
      invariant t == RunRepaired(start, ops[..i]) && t.ring == shm.Abs() && t.received == received && !t.overran
      invariant InOrder(t)
    {
      assert ops[..i + 1][..i] == ops[..i] && Performable(ops[i]);
      DoRepairedKeepsOrder(t, ops[i]);
      received := PerformOneRepaired(shm, ops[i], t, received);
      t := DoRepaired(t, ops[i]);
    }
    assert ops[..|ops|] == ops;
  }

  method PerformOneRepaired(shm: MsgShm, op: Op, ghost t: Trace, before: seq<Message>) returns (received: seq<Message>)
    requires shm.Valid() && t.ring == shm.Abs() && t.received == before && !t.overran && Performable(op)
    modifies shm, shm.memory
    ensures shm.Valid() && shm.memory == old(shm.memory)
    ensures shm.Abs() == DoRepaired(t, op).ring && received == DoRepaired(t, op).received
  {
    received := before;
    if op.Put? {
      PerformPut(shm, op.message);
    } else if shm.count > 0 {
      var r := shm.RecvRepaired(op.room);
      if r.Got? {
        received := before + [r.message];
      }
    }
  }

  lemma AlignedIsItself(n: nat)
    requires Aligned(n) && n < OBJECT_LIMIT
    ensures Align(n) == n
  {
  }
}
