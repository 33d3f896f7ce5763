/** The message ring of libipc/ipc_msg_shm.cc as one process sees it between its own
    semaphore operations. */
module MsgRing {
  import opened Common
  import opened MsgBytes

  const HEADER: nat := 48     // sizeof(MsgShmHead): six words

  datatype Ret = Success | BadArgs | TimedOut | NoSpace

  datatype Received =
    | Got(message: Message)   // the length is returned, the bytes are in the caller's buffer
    | Failed                  // zero is returned, ret_ says why
    | Overrun(second: nat)    // the wrapped length that the second copy of a split body gets

  /** What of the ring matters to its users: its size, where the oldest message starts,
      and the messages. */
  datatype Ring = Ring(capacity: nat, head: nat, queue: seq<Message>)

  function Load(ring: Ring): nat {
    QueueLoad(ring.queue)
  }

  predicate Fits(ring: Ring, m: Message) {
    Load(ring) + |m| + WORD <= ring.capacity
  }

  function BodyAt(ring: Ring): nat {
    Turn(0, ring.capacity, ring.head + WORD)
  }

  /** The body of the oldest message goes over the end of the ring. */
  predicate Splits(ring: Ring)
    requires ring.queue != []
  {
    ring.capacity < BodyAt(ring) + |ring.queue[0]|
  }

  /** How a Send of len bytes, padded to m, ends; Success leaves ret_ alone. */
  function WhatSend(ring: Ring, m: Message, len: nat, gotMutex: bool): Ret {
    if len == 0 then BadArgs
    else if !Fits(ring, m) then NoSpace
    else if !gotMutex then TimedOut
    else Success
  }

  function AfterSend(ring: Ring, m: Message): Ring {
    if Fits(ring, m) then ring.(queue := ring.queue + [m]) else ring
  }

  function AfterTake(ring: Ring): Ring
    requires ring.queue != []
  {
    ring.(head := Turn(0, ring.capacity, BodyAt(ring) + |ring.queue[0]|), queue := ring.queue[1..])
  }

  /** What Recv computes as the length of the second part of a split body, after it has
      already moved the head back to the start of the ring. */
  function SecondLength(len: nat, capacity: nat): nat {
    (len + SIZE_MODULUS - capacity) % SIZE_MODULUS
  }

  /** What copying out the oldest message comes to. */
  function WhatTake(ring: Ring): Received
    requires ring.queue != []
  {
    if Splits(ring) then Overrun(SecondLength(|ring.queue[0]|, ring.capacity)) else Got(ring.queue[0])
  }

  function WhatRecv(ring: Ring, room: nat): Received
    requires ring.queue != []
  {
    if room < |ring.queue[0]| then Failed else WhatTake(ring)
  }

  predicate Aligned(n: int) {
    n % WORD == 0
  }

  predicate Whole(queue: seq<Message>) {
    forall i :: 0 <= i < |queue| ==> Aligned(|queue[i]|)
  }

  lemma AlignedSum(a: int, b: int)
    requires Aligned(a) && Aligned(b)
    ensures Aligned(a + b) && Aligned(a - b) && Aligned(WORD + a + b)
  {
    var i, j := a / WORD, b / WORD;
    assert a == WORD * i && b == WORD * j;
    assert a + b == WORD * (i + j) && a - b == WORD * (i - j) && WORD + a + b == WORD * (1 + i + j);
  }

  ghost predicate Sound(ring: Ring) {
    && Aligned(ring.capacity) && Aligned(ring.head)
    && ring.head <= ring.capacity && (ring.head < ring.capacity || ring.capacity == 0)
    && Whole(ring.queue) && Load(ring) <= ring.capacity
  }

  /** The wrapped length is larger than any object: the copy cannot be carried out. */
  lemma SplitOverruns(ring: Ring, room: nat)
    requires Sound(ring) && ring.queue != [] && ring.capacity < OBJECT_LIMIT && WhatRecv(ring, room).Overrun?
    ensures WhatRecv(ring, room).second > OBJECT_LIMIT
  {
    assert Load(ring) == WORD + |ring.queue[0]| + QueueLoad(ring.queue[1..]);
  }

  lemma RoundedSize(len: nat)
    requires 0 < len < OBJECT_LIMIT && Align(len) < OBJECT_LIMIT
    ensures Aligned(Align(len)) && 0 < len <= Align(len)
  {
  }

  lemma SmallSum(n: nat)
    requires n < OBJECT_LIMIT
    ensures (n + WORD) % SIZE_MODULUS == n + WORD
  {
  }

  // The segment as a value.

  datatype Segment = Segment(memory: seq<Byte>, start: nat, end: nat, head: nat, tail: nat, free: int)

  predicate Placed(s: Segment) {
    && s.start == HEADER && s.end == |s.memory| && s.start <= s.end < OBJECT_LIMIT
    && s.start <= s.head <= s.end && (s.head < s.end || s.start == s.end)
    && s.start <= s.tail <= s.end && (s.tail < s.end || s.start == s.end)
  }

  predicate WordPlaced(s: Segment) {
    Aligned(s.end) && Aligned(s.head) && Aligned(s.tail)
  }

  /** The ring's bytes from the oldest message on. */
  function Stream(s: Segment): (r: seq<Byte>)
    requires Placed(s)
    ensures |r| == s.end - s.start
  {
    From(s.memory, s.start, s.end, s.head)
  }

  predicate Balanced(s: Segment, load: nat)
    requires Placed(s)
  {
    s.free + load == s.end - s.start && s.free >= 0 && s.tail == Turn(s.start, s.end, s.head + load)
  }

  /** The ring holds exactly the messages. */
  predicate Holds(s: Segment, queue: seq<Message>) {
    && Placed(s) && WordPlaced(s) && Whole(queue) && Balanced(s, QueueLoad(queue))
    && Stream(s)[..QueueLoad(queue)] == Encode(queue)
  }

  function RingOf(s: Segment, queue: seq<Message>): Ring
    requires Placed(s)
  {
    Ring(s.end - s.start, s.head - s.start, queue)
  }

  /** The messages are what a reader of the bytes between head and tail decodes. */
  lemma QueueIsDecoded(s: Segment, queue: seq<Message>)
    requires Holds(s, queue)
    ensures Decode(Stream(s)[..s.end - s.start - s.free]) == Some(queue)
  {
    assert s.end - s.start - s.free == QueueLoad(queue);
    assert Storable(queue) by { EncodedLengths(queue, s.end); }
    DecodeEncode(queue);
  }

  lemma {:induction false} EncodedLengths(queue: seq<Message>, limit: nat)
    requires QueueLoad(queue) <= limit < SIZE_MODULUS
    ensures Storable(queue)
  {
    if queue != [] {
      EncodedLengths(queue[1..], limit);
      forall i | 0 <= i < |queue| ensures |queue[i]| < SIZE_MODULUS {
        if i > 0 { assert queue[i] == queue[1..][i - 1]; }
      }
    }
  }

  /** Where the room is that the free size promises, and that the next length is not
      split. */
  lemma RoomForOne(s: Segment, load: nat, n: nat)
    requires Placed(s) && WordPlaced(s) && Balanced(s, load) && 0 < n && n + WORD <= s.free
    ensures s.tail + WORD <= s.end
    ensures s.head <= s.tail ==> n + WORD <= s.end - s.tail + (s.head - s.start)
    ensures s.head > s.tail ==> n + WORD <= s.head - s.tail
  {
    AlignedGap(s.tail, s.end);
  }

  lemma AlignedGap(a: nat, b: nat)
    requires Aligned(a) && Aligned(b) && a < b
    ensures a + WORD <= b
  {
  }

  function Stored(s: Segment, memory: seq<Byte>, n: nat): Segment
    requires s.start <= s.end && s.start <= s.tail
  {
    s.(memory := memory, tail := Turn(s.start, s.end, s.tail + WORD + n), free := s.free - (n + WORD))
  }

  lemma StoredPlaces(s: Segment, s': Segment, load: nat, n: nat)
    requires Placed(s) && WordPlaced(s) && Balanced(s, load)
    requires |s'.memory| == |s.memory| && s' == Stored(s, s'.memory, n)
    requires Aligned(n) && n + WORD <= s.free
    ensures Placed(s') && WordPlaced(s') && Balanced(s', load + n + WORD)
  {
    AlignedSum(s.tail, n);
    AlignedSum(s.end, HEADER);
    AlignedSum(s.tail + WORD + n, s.end - s.start);
  }

  lemma StoredStream(s: Segment, s': Segment, load: nat, bytes: seq<Byte>)
    requires Placed(s) && Balanced(s, load) && |bytes| <= s.free && Placed(s')
    requires s'.start == s.start && s'.end == s.end && s'.head == s.head
    requires Laid(s.memory, s'.memory, s.start, s.end, s.tail, bytes)
    ensures Stream(s')[..load + |bytes|] == Stream(s)[..load] + bytes
  {
    LaidBehind(s.memory, s'.memory, s.start, s.end, s.head, load, bytes);
  }

  /** Laying a framed message at the tail appends it to the messages held. */
  lemma StoredHolds(s: Segment, s': Segment, queue: seq<Message>, m: Message)
    requires Holds(s, queue) && s' == Stored(s, s'.memory, |m|)
    requires Laid(s.memory, s'.memory, s.start, s.end, s.tail, Frame(m))
    requires Aligned(|m|) && |m| + WORD <= s.free
    ensures Holds(s', queue + [m])
  {
    StoredPlaces(s, s', QueueLoad(queue), |m|);
    StoredStream(s, s', QueueLoad(queue), Frame(m));
    EncodeAppend(queue, m);
  }

  lemma OldestFrame(ring: seq<Byte>, load: nat, m: Message, rest: seq<Byte>)
    requires load <= |ring| && ring[..load] == Frame(m) + rest && |m| < SIZE_MODULUS
    ensures load == WORD + |m| + |rest| && ValueOf(ring[..WORD]) == |m| && ring[WORD..WORD + |m|] == m
  {
    FrameParts(m, rest);
    assert ring[..WORD] == ring[..load][..WORD];
    assert ring[WORD..WORD + |m|] == ring[..load][WORD..WORD + |m|];
  }

  lemma OldestHeld(s: Segment, queue: seq<Message>)
    requires Holds(s, queue) && queue != []
    ensures WORD + |queue[0]| <= s.end - s.start && WORD + |queue[0]| <= QueueLoad(queue)
    ensures ValueOf(Stream(s)[..WORD]) == |queue[0]| && Stream(s)[WORD..WORD + |queue[0]|] == queue[0]
    ensures Aligned(|queue[0]|) && s.head + WORD <= s.end
  {
    assert Storable(queue) by { EncodedLengths(queue, s.end); }
    assert |queue[0]| < SIZE_MODULUS;
    OldestFrame(Stream(s), QueueLoad(queue), queue[0], Encode(queue[1..]));
    AlignedGap(s.head, s.end);
  }

  lemma StreamWord(s: Segment)
    requires Placed(s) && s.head + WORD <= s.end
    ensures |Stream(s)| >= WORD && Stream(s)[..WORD] == s.memory[s.head..s.head + WORD]
  {
  }

  /** What the first word behind the head says. */
  lemma LengthAtHead(s: Segment, queue: seq<Message>)
    requires Holds(s, queue) && queue != []
    ensures s.head + WORD <= s.end && ValueOf(s.memory[s.head..s.head + WORD]) == |queue[0]|
  {
    assert s.head + WORD <= s.end && ValueOf(Stream(s)[..WORD]) == |queue[0]| by { OldestHeld(s, queue); }
    StreamWord(s);
  }

  /** The message lies at the position, in one piece or in two around the end. */
  predicate LiesAt(memory: seq<Byte>, start: nat, end: nat, body: nat, m: Message)
    requires start <= body <= end <= |memory|
  {
    var first := end - body;
    if |m| <= first then memory[body..body + |m|] == m
    else start + (|m| - first) <= end && memory[body..end] + memory[start..start + (|m| - first)] == m
  }

  function BodyPos(s: Segment): (body: nat)
    requires Placed(s) && s.head + WORD <= s.end
    ensures s.start <= body <= s.end
  {
    Turn(s.start, s.end, s.head + WORD)
  }

  /** What copying a message out from behind its length comes to. */
  function TakeAt(s: Segment, m: Message): Received
    requires Placed(s) && s.head + WORD <= s.end
  {
    if |m| > s.end - BodyPos(s) then Overrun(SecondLength(|m|, s.end - s.start)) else Got(m)
  }

  lemma SplitsAt(s: Segment, queue: seq<Message>)
    requires Placed(s) && s.head + WORD <= s.end && queue != []
    ensures Splits(RingOf(s, queue)) <==> |queue[0]| > s.end - BodyPos(s)
  {
  }

  /** The oldest message lies behind the length at the head. */
  lemma BodyBehindHead(s: Segment, queue: seq<Message>)
    requires Holds(s, queue) && queue != []
    ensures s.head + WORD <= s.end && BodyPos(s) < s.end
    ensures LiesAt(s.memory, s.start, s.end, BodyPos(s), queue[0])
    ensures WORD + |queue[0]| <= s.end - s.start
    ensures WhatTake(RingOf(s, queue)) == TakeAt(s, queue[0])
  {
    assert WORD + |queue[0]| <= s.end - s.start && s.head + WORD <= s.end
        && Stream(s)[WORD..WORD + |queue[0]|] == queue[0] by {
      OldestHeld(s, queue);
    }
    Pieces(s, queue[0]);
    SplitsAt(s, queue);
  }

  /** What a receiver with so much room gets: nothing exactly if the room is smaller than
      the oldest message, and that message exactly if besides its body lies in one piece. */
  lemma RecvMeaning(s: Segment, queue: seq<Message>, room: nat)
    requires Holds(s, queue) && queue != []
    ensures var body := if s.head + 8 == s.end then s.start else s.head + 8;
            var r := WhatRecv(RingOf(s, queue), room);
            && (r == Failed <==> room < |queue[0]|)
            && (r == Got(queue[0]) <==> |queue[0]| <= room && body + |queue[0]| <= s.end)
            && (r.Got? ==> r.message == queue[0])
  {
    BodyBehindHead(s, queue);
  }

  lemma SliceOfSlice(bytes: seq<Byte>, from: nat, to: nat, n: nat)
    requires from <= to <= |bytes| && n <= to - from
    ensures bytes[from..to][..n] == bytes[from..from + n]
  {
  }

  lemma Pieces(s: Segment, m: Message)
    requires Placed(s) && s.head + WORD <= s.end && WORD + |m| <= s.end - s.start
    requires Stream(s)[WORD..WORD + |m|] == m
    ensures BodyPos(s) < s.end && LiesAt(s.memory, s.start, s.end, BodyPos(s), m)
  {
    var body := BodyPos(s);
    Rotated(s.memory, s.start, s.end, s.head, WORD);
    var ring, tail := From(s.memory, s.start, s.end, body), s.memory[body..s.end];
    assert ring[..|m|] == m;
    if |m| <= s.end - body {
      SliceOfSlice(s.memory, body, s.end, |m|);
      assert ring[..|m|] == tail[..|m|];
    } else {
      SliceOfSlice(s.memory, s.start, body, |m| - (s.end - body));
      assert ring[..|m|] == tail + s.memory[s.start..body][..|m| - (s.end - body)];
    }
  }

  function Taken(s: Segment, n: nat): Segment
    requires s.start <= s.end && s.start <= s.head
  {
    s.(head := Turn(s.start, s.end, Turn(s.start, s.end, s.head + WORD) + n), free := s.free + (n + WORD))
  }

  lemma TakenPlaces(s: Segment, load: nat, n: nat)
    requires Placed(s) && WordPlaced(s) && Balanced(s, load) && Aligned(n) && WORD + n <= load
    ensures Placed(Taken(s, n)) && WordPlaced(Taken(s, n)) && Balanced(Taken(s, n), load - n - WORD)
    ensures Taken(s, n).head == Turn(s.start, s.end, s.head + WORD + n)
  {
    AlignedSum(s.head, n);
    AlignedSum(s.end, HEADER);
    AlignedSum(s.head + WORD + n, s.end - s.start);
  }

  lemma TakenStream(s: Segment, load: nat, n: nat)
    requires Placed(s) && Placed(Taken(s, n)) && WORD + n <= load <= s.end - s.start
    requires Taken(s, n).head == Turn(s.start, s.end, s.head + WORD + n)
    ensures Stream(Taken(s, n))[..load - n - WORD] == Stream(s)[..load][WORD + n..]
  {
    Rotated(s.memory, s.start, s.end, s.head, WORD + n);
    var ring := Stream(s);
    assert (ring[WORD + n..] + ring[..WORD + n])[..load - n - WORD] == ring[WORD + n..load];
    assert ring[..load][WORD + n..] == ring[WORD + n..load];
  }

  lemma TakenHolds(s: Segment, queue: seq<Message>)
    requires Holds(s, queue) && queue != []
    ensures Holds(Taken(s, |queue[0]|), queue[1..])
    ensures RingOf(Taken(s, |queue[0]|), queue[1..]) == AfterTake(RingOf(s, queue))
  {
    var n, load := |queue[0]|, QueueLoad(queue);
    assert load == WORD + n + QueueLoad(queue[1..]);
    TakenPlaces(s, load, n);
    TakenStream(s, load, n);
    assert Encode(queue)[WORD + n..] == Encode(queue[1..]);
  }

  class MsgShm {
    var memory: array<Byte>     // the segment; its first HEADER bytes are the fields below
    var msgNum: nat
    var freeSize: nat
    var dataStart: nat
    var dataEnd: nat
    var msgHead: nat
    var msgTail: nat
    var count: nat              // semaphore 1
    var mutex: nat              // semaphore 0
    var ret: Ret
    ghost var queue: seq<Message>

    ghost function Contents(): Segment
      reads this, memory
    {
      Segment(memory[..], dataStart, dataEnd, msgHead, msgTail, freeSize)
    }

    ghost predicate Inside()
      reads this, memory
    {
      Holds(Contents(), queue) && msgNum == |queue|
    }

    /** Between the operations of all processes. */
    ghost predicate Valid()
      reads this, memory
    {
      Inside() && count == msgNum && mutex == 1
    }

    ghost function Abs(): (ring: Ring)
      requires Placed(Contents())
      reads this, memory
    {
      RingOf(Contents(), queue)
    }

    /** Create, for a size in which the head struct has room. */
    constructor (size: nat)
      requires HEADER <= Align(size) < OBJECT_LIMIT
      ensures Valid() && fresh(memory) && dataEnd == Align(size) && queue == []
    {
      var length := Align(size);
      memory := new Byte[length](_ => 0);
      msgNum := 0;
      freeSize := length - HEADER;
      dataStart := HEADER;
      dataEnd := length;
      msgHead := HEADER;
      msgTail := HEADER;
      count := 0;
      mutex := 1;
      ret := Success;
      queue := [];
    }

    method CopyIn(at: nat, data: seq<Byte>)
      requires at + |data| <= memory.Length
      modifies memory
      ensures memory[..] == Overwritten(old(memory[..]), at, data)
    {
      for i := 0 to |data|
        invariant memory[..] == Overwritten(old(memory[..]), at, data[..i])
      {
        memory[at + i] := data[i];
      }
      assert data[..|data|] == data;
    }

    /** The writing half of Send: the length, then the body in one piece or two. */
    method Store(data: seq<Byte>)
      requires Placed(Contents()) && 0 < |data| && msgTail + WORD <= dataEnd
      requires msgHead <= msgTail ==> |data| + WORD <= dataEnd - msgTail + (msgHead - dataStart)
      requires msgHead > msgTail ==> |data| + WORD <= msgHead - msgTail
      modifies this`msgTail, memory
      ensures msgTail == Turn(dataStart, dataEnd, old(msgTail) + WORD + |data|)
      ensures Laid(old(memory[..]), memory[..], dataStart, dataEnd, old(msgTail), Frame(data))
    {
      if msgHead <= msgTail {
        StoreOver(data);
      } else {
        StoreAhead(data);
      }
    }

    /** The head is not in front of the tail: the message may go over the end. */
    method StoreOver(data: seq<Byte>)
      requires Placed(Contents()) && 0 < |data| && msgTail + WORD <= dataEnd && msgHead <= msgTail
      requires |data| + WORD <= dataEnd - msgTail + (msgHead - dataStart)
      modifies this`msgTail, memory
      ensures msgTail == Turn(dataStart, dataEnd, old(msgTail) + WORD + |data|)
      ensures Laid(old(memory[..]), memory[..], dataStart, dataEnd, old(msgTail), Frame(data))
    {
      ghost var m0, tail := memory[..], msgTail;
      var tmpLen := dataEnd - msgTail;
      if tmpLen >= WORD {
        StoreAt(Word(|data|));
        tmpLen := tmpLen - WORD;
        msgTail := if msgTail == dataEnd then dataStart else msgTail;
      } else {
        assert false;             // no length is ever split
      }
      ghost var m1 := memory[..];
      StoreBody(data, tmpLen);
      LaidTwice(m0, m1, memory[..], dataStart, dataEnd, tail, Word(|data|), data);
    }

    /** The head is in front of the tail, and so is all the room. */
    method StoreAhead(data: seq<Byte>)
      requires Placed(Contents()) && 0 < |data| && |data| + WORD <= msgHead - msgTail
      modifies this`msgTail, memory
      ensures msgTail == Turn(dataStart, dataEnd, old(msgTail) + WORD + |data|)
      ensures Laid(old(memory[..]), memory[..], dataStart, dataEnd, old(msgTail), Frame(data))
    {
      ghost var m0, tail := memory[..], msgTail;
      StoreAt(Word(|data|));
      ghost var m1 := memory[..];
      StoreAt(data);
      if msgTail == dataEnd {
        assert false;             // the tail stays behind the head
      }
      LaidTwice(m0, m1, memory[..], dataStart, dataEnd, tail, Word(|data|), data);
    }

    /** The body, where tmpLen bytes follow up to the end of the ring. */
    method StoreBody(data: seq<Byte>, tmpLen: nat)
      requires Placed(Contents()) && 0 < |data| <= tmpLen + (msgHead - dataStart)
      requires (msgTail == dataStart && tmpLen == 0) || tmpLen == dataEnd - msgTail
      requires |data| <= dataEnd - dataStart
      modifies this`msgTail, memory
      ensures msgTail == Turn(dataStart, dataEnd, old(msgTail) + |data|)
      ensures Laid(old(memory[..]), memory[..], dataStart, dataEnd, old(msgTail), data)
    {
      if tmpLen >= |data| {
        StoreAt(data);
        msgTail := if msgTail == dataEnd then dataStart else msgTail;
      } else {
        StoreSplit(data, tmpLen);
      }
    }

    /** One memcpy to the tail, and the tail moved behind it. */
    method StoreAt(bytes: seq<Byte>)
      requires dataStart <= msgTail && msgTail + |bytes| <= dataEnd == memory.Length
      modifies this`msgTail, memory
      ensures msgTail == old(msgTail) + |bytes|
      ensures Laid(old(memory[..]), memory[..], dataStart, dataEnd, old(msgTail), bytes)
    {
      LaidStraight(memory[..], dataStart, dataEnd, msgTail, bytes);
      CopyIn(msgTail, bytes);
      msgTail := msgTail + |bytes|;
    }

    method StoreSplit(data: seq<Byte>, tmpLen: nat)
      requires Placed(Contents()) && tmpLen < |data| <= dataEnd - dataStart
      requires (msgTail == dataStart && tmpLen == 0) || tmpLen == dataEnd - msgTail
      requires |data| - tmpLen <= msgHead - dataStart
      modifies this`msgTail, memory
      ensures msgTail == Turn(dataStart, dataEnd, old(msgTail) + |data|)
      ensures Laid(old(memory[..]), memory[..], dataStart, dataEnd, old(msgTail), data)
    {
      ghost var m0, tail := memory[..], msgTail;
      StoreAt(data[..tmpLen]);
      msgTail := dataStart;
      ghost var m1 := memory[..];
      StoreAt(data[tmpLen..]);
      LaidTwice(m0, m1, memory[..], dataStart, dataEnd, tail, data[..tmpLen], data[tmpLen..]);
      assert data[..tmpLen] + data[tmpLen..] == data;
    }

    /** Send: data points to len readable bytes and to what pads them to whole words.
        gotMutex is the outcome of P(0). */
    method Send(data: seq<Byte>, len: nat, gotMutex: bool) returns (sent: nat)
      requires Valid() && len <= |data| < OBJECT_LIMIT && Align(len) <= |data|
      modifies this, memory
      ensures Valid() && memory == old(memory)
      ensures var m, r := data[..Align(len)], old(WhatSend(Abs(), data[..Align(len)], len, gotMutex));
              && sent == (if r == Success then Align(len) else 0)
              && ret == (if r == Success then old(ret) else r)
              && Abs() == (if r == Success then AfterSend(old(Abs()), m) else old(Abs()))
      ensures sent != 0 <==> len > 0 && Align(len) + 8 <= old(freeSize) && gotMutex
      ensures sent != 0 ==>
                sent == Align(len) && queue == old(queue) + [data[..Align(len)]] && freeSize == old(freeSize) - Align(len) - 8
      ensures sent == 0 ==>
                && queue == old(queue) && freeSize == old(freeSize)
                && ret == if len == 0 then BadArgs else if old(freeSize) < Align(len) + 8 then NoSpace else TimedOut
    {
      var m := data[..Align(len)];
      if len > 0 { RoundedSize(len); }
      var r := CheckSend(m, len, gotMutex);
      if r != Success {
        ret := r;
        return 0;
      }
      Deliver(m);
      return Align(len);
    }

    /** The checks of Send up to P(0), in their order. */
    method CheckSend(m: Message, len: nat, gotMutex: bool) returns (r: Ret)
      requires Valid() && |m| < OBJECT_LIMIT && (len > 0 ==> 0 < |m|)
      ensures r == WhatSend(Abs(), m, len, gotMutex)
      ensures r == if len == 0 then BadArgs else if freeSize < |m| + 8 then NoSpace
                   else if gotMutex then Success else TimedOut
      ensures r == Success ==> len > 0 && |m| + WORD <= freeSize
    {
      if len == 0 {
        return BadArgs;
      }
      SmallSum(|m|);
      if freeSize < (|m| + WORD) % SIZE_MODULUS {
        return NoSpace;
      }
      return if gotMutex then Success else TimedOut;
    }

    /** The part of Send from P(0) to V(0). */
    method Deliver(m: Message)
      requires Valid() && Aligned(|m|) && 0 < |m| && |m| + WORD <= freeSize
      modifies this`msgTail, this`freeSize, this`msgNum, this`queue, this`count, this`mutex, memory
      ensures Valid() && queue == old(queue) + [m] && Abs() == AfterSend(old(Abs()), m)
      ensures freeSize == old(freeSize) - |m| - WORD
    {
      mutex := mutex - 1;
      StoreMessage(m);
      count := count + 1;
      mutex := mutex + 1;
    }

    /** The bytes and the free size. */
    method StoreFrame(m: Message)
      requires Inside() && Aligned(|m|) && 0 < |m| && |m| + WORD <= freeSize
      modifies this`msgTail, this`freeSize, memory
      ensures Contents() == Stored(old(Contents()), memory[..], |m|)
      ensures Laid(old(memory[..]), memory[..], dataStart, dataEnd, old(msgTail), Frame(m))
    {
      RoomForOne(Contents(), QueueLoad(queue), |m|);
      Store(m);
      freeSize := freeSize - (|m| + WORD);
    }

    method StoreMessage(m: Message)
      requires Inside() && Aligned(|m|) && 0 < |m| && |m| + WORD <= freeSize
      modifies this`msgTail, this`freeSize, this`msgNum, this`queue, memory
      ensures Inside() && queue == old(queue) + [m] && freeSize == old(freeSize) - |m| - WORD
      ensures Abs() == AfterSend(old(Abs()), m)
    {
      ghost var was := Contents();
      StoreFrame(m);
      msgNum := msgNum + 1;
      StoredHolds(was, Contents(), queue, m);
      queue := queue + [m];
    }

    /** Recv into a buffer of len bytes and what pads it to whole words; gotCount and
        gotMutex are the outcomes of P(1) and P(0). It hands out the oldest message,
        unless the body of that message goes over the end of the ring. */
    method Recv(len: nat, gotCount: bool, gotMutex: bool) returns (r: Received)
      requires Valid() && len < SIZE_MODULUS && (gotCount ==> count > 0)
      modifies this
      ensures r == old(RecvOutcome(len, gotCount, gotMutex)) && memory == old(memory)
      ensures len > 0 && gotCount && gotMutex ==>
                var m := old(queue[0]);
                var body := if old(msgHead) + 8 == dataEnd then dataStart else old(msgHead) + 8;
                && (r == Failed <==> Align(len) < |m|)
                && (r == Got(m) <==> |m| <= Align(len) && body + |m| <= dataEnd)
      ensures r.Got? ==> queue == old(queue)[1..] && freeSize == old(freeSize) + |old(queue)[0]| + 8
      ensures r == Failed ==> queue == old(queue) && freeSize == old(freeSize) && msgHead == old(msgHead)
      ensures !r.Overrun? ==> Valid() && Abs() == (if r.Got? then AfterTake(old(Abs())) else old(Abs()))
      ensures ret == if r != Failed then old(ret) else if len == 0 then BadArgs
                     else if !gotCount || !gotMutex then TimedOut else NoSpace
    {
      if len == 0 {
        ret := BadArgs;
        return Failed;
      }
      if !gotCount {
        ret := TimedOut;
        return Failed;
      }
      RecvMeaning(Contents(), queue, Align(len));
      r := RecvCounted(len, gotMutex);
    }

    /** The part of Recv behind P(1). */
    method RecvCounted(len: nat, gotMutex: bool) returns (r: Received)
      requires Valid() && count > 0
      modifies this`msgHead, this`msgNum, this`freeSize, this`mutex, this`count, this`queue, this`ret
      ensures r == if gotMutex then old(WhatRecv(Abs(), Align(len))) else Failed
      ensures !r.Overrun? ==> Valid() && Abs() == (if r.Got? then AfterTake(old(Abs())) else old(Abs()))
      ensures ret == if r != Failed then old(ret) else if gotMutex then NoSpace else TimedOut
    {
      count := count - 1;
      if !gotMutex {
        ret := TimedOut;
        count := count + 1;
        return Failed;
      }
      mutex := mutex - 1;
      r := RecvInside(len);
    }

    /** The part of Recv behind P(0). */
    method RecvInside(len: nat) returns (r: Received)
      requires Inside() && queue != [] && count == |queue| - 1 && mutex == 0
      modifies this`msgHead, this`msgNum, this`freeSize, this`mutex, this`count, this`queue, this`ret
      ensures r == old(WhatRecv(Abs(), Align(len)))
      ensures !r.Overrun? ==> Valid() && Abs() == (if r.Got? then AfterTake(old(Abs())) else old(Abs()))
      ensures ret == if r == Failed then NoSpace else old(ret)
    {
      var tmpLen := PeekLength();
      if Align(len) < tmpLen {
        ret := NoSpace;
        count := count + 1;
        mutex := mutex + 1;
        return Failed;
      }
      r := TakeMessage(tmpLen);
    }

    /** The length in front of the oldest message. */
    method PeekLength() returns (tmpLen: nat)
      requires Inside() && queue != []
      ensures tmpLen == |queue[0]|
    {
      LengthAtHead(Contents(), queue);
      if dataEnd - msgHead >= WORD {
        tmpLen := ValueOf(memory[msgHead..msgHead + WORD]);
      } else {
        assert false;             // no length is ever split
      }
    }

    method TakeMessage(tmpLen: nat) returns (r: Received)
      requires Inside() && queue != [] && tmpLen == |queue[0]| && count == |queue| - 1 && mutex == 0
      modifies this`msgHead, this`msgNum, this`freeSize, this`mutex, this`queue
      ensures r == old(WhatTake(Abs()))
      ensures r.Overrun? ==> r.second > OBJECT_LIMIT
      ensures !r.Overrun? ==> Valid() && Abs() == AfterTake(old(Abs()))
    {
      ghost var was := Contents();
      BodyBehindHead(was, queue);
      r := CopyOut(tmpLen, queue[0]);
      if !r.Overrun? {
        FinishRecv(tmpLen, was);
      }
    }

    /** The head goes behind the length, and the body is copied. */
    method CopyOut(tmpLen: nat, ghost m: Message) returns (r: Received)
      requires Placed(Contents()) && msgHead + WORD <= dataEnd && tmpLen == |m| && WORD + tmpLen <= dataEnd - dataStart
      requires LiesAt(memory[..], dataStart, dataEnd, BodyPos(Contents()), m)
      modifies this`msgHead
      ensures r == TakeAt(old(Contents()), m)
      ensures r.Overrun? ==> r.second > OBJECT_LIMIT
      ensures !r.Overrun? ==> msgHead == Taken(old(Contents()), tmpLen).head
    {
      msgHead := msgHead + WORD;
      msgHead := if msgHead == dataEnd then dataStart else msgHead;
      if dataEnd - msgHead >= tmpLen {
        r := Got(memory[..][msgHead..msgHead + tmpLen]);
        msgHead := msgHead + tmpLen;
        msgHead := if msgHead == dataEnd then dataStart else msgHead;
      } else {
        msgHead := dataStart;
        r := Overrun((tmpLen + SIZE_MODULUS - (dataEnd - msgHead)) % SIZE_MODULUS);
      }
    }

    /** A repair, not what the source does: the second length is taken before the head
        moves, so that every message can be received. */
    method TakeMessageRepaired(tmpLen: nat) returns (r: Received)
      requires Inside() && queue != [] && tmpLen == |queue[0]| && count == |queue| - 1 && mutex == 0
      modifies this`msgHead, this`msgNum, this`freeSize, this`mutex, this`queue
      ensures r == Got(old(queue[0]))
      ensures Valid() && Abs() == AfterTake(old(Abs()))
    {
      ghost var was := Contents();
      BodyBehindHead(was, queue);
      r := CopyOutRepaired(tmpLen, queue[0]);
      FinishRecv(tmpLen, was);
    }

    method CopyOutRepaired(tmpLen: nat, ghost m: Message) returns (r: Received)
      requires Placed(Contents()) && msgHead + WORD <= dataEnd && tmpLen == |m|
      requires LiesAt(memory[..], dataStart, dataEnd, BodyPos(Contents()), m)
      modifies this`msgHead
      ensures r == Got(m) && msgHead == Taken(old(Contents()), tmpLen).head
    {
      var body := if msgHead + WORD == dataEnd then dataStart else msgHead + WORD;
      r := ReadBody(body, tmpLen, m);
      var first := dataEnd - body;
      msgHead := if first > tmpLen then body + tmpLen else dataStart + (tmpLen - first);
    }

    method ReadBody(body: nat, tmpLen: nat, ghost m: Message) returns (r: Received)
      requires Placed(Contents()) && msgHead + WORD <= dataEnd && tmpLen == |m| && body == BodyPos(Contents())
      requires LiesAt(memory[..], dataStart, dataEnd, BodyPos(Contents()), m)
      ensures r == Got(m)
    {
      var bytes, first := memory[..], dataEnd - body;
      if first >= tmpLen {
        r := Got(bytes[body..body + tmpLen]);
      } else {
        r := Got(bytes[body..dataEnd] + bytes[dataStart..dataStart + (tmpLen - first)]);
      }
    }

    /** Recv with the repair, when both semaphores are to be had. */
    method RecvRepaired(len: nat) returns (r: Received)
      requires Valid() && count > 0
      modifies this`msgHead, this`msgNum, this`freeSize, this`mutex, this`count, this`queue, this`ret
      ensures r == if Align(len) < |old(queue[0])| then Failed else Got(old(queue[0]))
      ensures Valid() && Abs() == if r.Got? then AfterTake(old(Abs())) else old(Abs())
    {
      count, mutex := count - 1, mutex - 1;
      var tmpLen := PeekLength();
      if Align(len) < tmpLen {
        ret := NoSpace;
        count, mutex := count + 1, mutex + 1;
        return Failed;
      }
      r := TakeMessageRepaired(tmpLen);
    }

    method FinishRecv(tmpLen: nat, ghost was: Segment)
      requires queue != [] && tmpLen == |queue[0]| && msgNum == |queue| && count == |queue| - 1 && mutex == 0
      requires Holds(was, queue) && freeSize == was.free
      requires Contents() == was.(head := Taken(was, tmpLen).head)
      modifies this`msgNum, this`freeSize, this`mutex, this`queue
      ensures Valid() && Abs() == AfterTake(old(RingOf(was, queue)))
    {
      TakenHolds(was, queue);
      msgNum := msgNum - 1;
      freeSize := freeSize + (tmpLen + WORD);
      mutex := mutex + 1;
      queue := queue[1..];
    }

    ghost function RecvOutcome(len: nat, gotCount: bool, gotMutex: bool): Received
      requires Valid() && (gotCount ==> count > 0)
      reads this, memory
    {
      if len == 0 || !gotCount || !gotMutex then Failed else WhatRecv(Abs(), Align(len))
    }
  }
}
