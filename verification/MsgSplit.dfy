/** For which rings and message lengths a receiver of the message ring can meet a body
    that goes over the end. */
module MsgSplit {
  import opened MsgBytes
  import opened MsgRing
  import opened MsgFifo

  function Fresh(capacity: nat): Trace {
    Trace(Ring(capacity, 0, []), [], [], false)
  }

  ghost predicate Overruns(capacity: nat, len: nat, ops: seq<Op>) {
    UniformPuts(ops, len) && Run(Fresh(capacity), ops).overran
  }

  // No overrun.

  /** Nothing fits into the ring. */
  ghost predicate Barren(t: Trace, len: nat) {
    t.ring.queue == [] && t.ring.capacity < len + WORD && !t.overran
  }

  lemma {:induction false} BarrenNeverSplits(t: Trace, ops: seq<Op>, len: nat)
    requires Barren(t, len) && UniformPuts(ops, len)
    ensures !Run(t, ops).overran
    decreases |ops|
  {
    if ops != [] {
      assert ops[0].Put? ==> |ops[0].message| == len;
      BarrenNeverSplits(Do(t, ops[0]), ops[1..], len);
    }
  }

  /** Bodies of one word are whole wherever they start. */
  ghost predicate OneWord(t: Trace) {
    Sound(t.ring) && AllOf(t.ring.queue, WORD) && !t.overran
  }

  lemma OneWordStep(t: Trace, op: Op)
    requires OneWord(t) && (op.Put? ==> |op.message| == WORD)
    ensures OneWord(Do(t, op))
  {
    if op.Put? {
      SendKeepsSound(t.ring, op.message);
    } else if t.ring.queue != [] {
      TakeKeepsSound(t.ring);
      assert |t.ring.queue[0]| == WORD;
      assert Load(t.ring) == WORD + WORD + QueueLoad(t.ring.queue[1..]);
      WholeBody(t.ring.capacity, t.ring.head);
    }
  }

  lemma WholeBody(capacity: nat, head: nat)
    requires Aligned(capacity) && Aligned(head) && head < capacity && 2 * WORD <= capacity
    ensures Turn(0, capacity, head + WORD) + WORD <= capacity
  {
    AlignedGap(head, capacity);
    if head + WORD < capacity {
      AlignedSum(head, 0);
      AlignedGap(head + WORD, capacity);
    }
  }

  lemma {:induction false} OneWordNeverSplits(t: Trace, ops: seq<Op>)
    requires OneWord(t) && UniformPuts(ops, WORD)
    ensures !Run(t, ops).overran
    decreases |ops|
  {
    if ops != [] {
      assert ops[0].Put? ==> |ops[0].message| == WORD;
      OneWordStep(t, ops[0]);
      OneWordNeverSplits(Do(t, ops[0]), ops[1..]);
    }
  }

  // An overrun: messages go through one at a time until one is split.

  function Rounds(m: Message, k: nat): (ops: seq<Op>)
    ensures UniformPuts(ops, |m|)
  {
    if k == 0 then [] else Rounds(m, k - 1) + [Put(m), Get(|m|)]
  }

  lemma {:induction false} RunAfter(t: Trace, a: seq<Op>, b: seq<Op>)
    ensures Run(t, a + b) == Run(Run(t, a), b)
    decreases |a|
  {
    if a == [] {
      assert a + b == b;
    } else {
      assert (a + b)[1..] == a[1..] + b;
      RunAfter(Do(t, a[0]), a[1..], b);
    }
  }

  /** The ring is empty, and a message put now starts at the head. */
  ghost predicate EmptyAt(t: Trace, capacity: nat, head: nat) {
    t.ring == Ring(capacity, head, []) && !t.overran
  }

  lemma OneRound(t: Trace, capacity: nat, head: nat, m: Message)
    requires EmptyAt(t, capacity, head) && head < capacity && |m| + WORD <= capacity
    ensures var body := Turn(0, capacity, head + WORD);
            var t' := Run(t, [Put(m), Get(|m|)]);
            if capacity < body + |m| then t'.overran else EmptyAt(t', capacity, Turn(0, capacity, body + |m|))
  {
    var t1 := Do(t, Put(m));
    assert Encode([]) == [] && Load(t.ring) == 0;
    assert t1.ring == Ring(capacity, head, [m]) by { assert [] + [m] == [m]; }
    assert [Put(m), Get(|m|)][1..] == [Get(|m|)];
    assert Run(t1, [Get(|m|)]) == Do(t1, Get(|m|));
  }

  lemma NextRound(t: Trace, m: Message, k: nat)
    ensures Run(t, Rounds(m, k + 1)) == Run(Run(t, Rounds(m, k)), [Put(m), Get(|m|)])
  {
    RunAfter(t, Rounds(m, k), [Put(m), Get(|m|)]);
  }

  /** Rounds that end at the end of the ring or before it. */
  lemma {:induction false} Lap(t: Trace, capacity: nat, head: nat, m: Message, k: nat)
    requires EmptyAt(t, capacity, head) && head < capacity && 0 < |m|
    requires head + k * (|m| + WORD) < capacity
    ensures EmptyAt(Run(t, Rounds(m, k)), capacity, head + k * (|m| + WORD))
  {
    if k > 0 {
      var frame := |m| + WORD;
      assert k * frame == (k - 1) * frame + frame;
      Lap(t, capacity, head, m, k - 1);
      OneRound(Run(t, Rounds(m, k - 1)), capacity, head + (k - 1) * frame, m);
      NextRound(t, m, k - 1);
    }
  }

  function Zeros(n: nat): Message {
    seq(n, _ => 0)
  }

  /** The first lap ends with a split body, unless just a length word fits at its end. */
  lemma FirstLap(capacity: nat, len: nat) returns (ops: seq<Op>)
    requires Aligned(capacity) && Aligned(len) && WORD < len && len + WORD <= capacity
    requires WORD < capacity % (len + WORD)
    ensures Overruns(capacity, len, ops)
  {
    var frame, m := len + WORD, Zeros(len);
    var q := capacity / frame;
    assert capacity == frame * q + capacity % frame && q * frame == frame * q;
    Lap(Fresh(capacity), capacity, 0, m, q);
    OneRound(Run(Fresh(capacity), Rounds(m, q)), capacity, q * frame, m);
    NextRound(Fresh(capacity), m, q);
    ops := Rounds(m, q + 1);
  }

  /** Where just a length word fits at the end, the body starts the next lap. */
  lemma WrapRound(capacity: nat, len: nat, q: nat)
    requires Aligned(capacity) && 0 < len && q >= 1 && capacity == q * (len + WORD) + WORD
    ensures EmptyAt(Run(Fresh(capacity), Rounds(Zeros(len), q + 1)), capacity, len)
  {
    var t0, m := Fresh(capacity), Zeros(len);
    assert q * (len + WORD) >= len + WORD;
    Lap(t0, capacity, 0, m, q);
    OneRound(Run(t0, Rounds(m, q)), capacity, q * (len + WORD), m);
    NextRound(t0, m, q);
  }

  /** That lap ends two words before the end. */
  lemma LastRound(t: Trace, capacity: nat, len: nat, q: nat)
    requires WORD + WORD <= len && q >= 1 && capacity == q * (len + WORD) + WORD
    requires EmptyAt(t, capacity, len)
    ensures Run(t, Rounds(Zeros(len), q)).overran
  {
    var m := Zeros(len);
    assert (q - 1) * (len + WORD) == q * (len + WORD) - (len + WORD);
    Lap(t, capacity, len, m, q - 1);
    OneRound(Run(t, Rounds(m, q - 1)), capacity, len + (q - 1) * (len + WORD), m);
    NextRound(t, m, q - 1);
  }

  lemma SecondLap(capacity: nat, len: nat) returns (ops: seq<Op>)
    requires Aligned(capacity) && Aligned(len) && WORD < len && len + WORD <= capacity
    requires capacity % (len + WORD) == WORD
    ensures Overruns(capacity, len, ops)
  {
    var m, q := Zeros(len), capacity / (len + WORD);
    assert capacity == (len + WORD) * q + WORD && q * (len + WORD) == (len + WORD) * q;
    AlignedGap(WORD, len);
    WrapRound(capacity, len, q);
    LastRound(Run(Fresh(capacity), Rounds(m, q + 1)), capacity, len, q);
    RunAfter(Fresh(capacity), Rounds(m, q + 1), Rounds(m, q));
    ops := Rounds(m, q + 1) + Rounds(m, q);
  }

  /** With messages of one length, some run meets a split body exactly if a message fits,
      is longer than a word, and its frames do not fill the ring. */
  lemma SplitIff(capacity: nat, len: nat)
    requires Aligned(capacity) && Aligned(len) && 0 < len
    ensures (exists ops :: Overruns(capacity, len, ops))
       <==> WORD < len && len + WORD <= capacity && capacity % (len + WORD) != 0
  {
    if capacity < len + WORD {
      forall ops | UniformPuts(ops, len) ensures !Run(Fresh(capacity), ops).overran {
        BarrenNeverSplits(Fresh(capacity), ops, len);
      }
    } else if len <= WORD {
      AlignedGap(0, len);
      forall ops | UniformPuts(ops, len) ensures !Run(Fresh(capacity), ops).overran {
        OneWordNeverSplits(Fresh(capacity), ops);
      }
    } else if capacity % (len + WORD) == 0 {
      MultipleOf(0, len + WORD);
      forall ops | UniformPuts(ops, len) ensures !Run(Fresh(capacity), ops).overran {
        UniformRingIsQueue(Fresh(capacity), ops, len);
      }
    } else {
      RestAligned(capacity, len);
      if capacity % (len + WORD) == WORD {
        var ops := SecondLap(capacity, len);
      } else {
        var ops := FirstLap(capacity, len);
      }
    }
  }

  lemma RestAligned(capacity: nat, len: nat)
    requires Aligned(capacity) && Aligned(len) && capacity % (len + WORD) != 0
    ensures capacity % (len + WORD) >= WORD
  {
    var frame := len + WORD;
    var a, b, q := capacity / WORD, frame / WORD, capacity / frame;
    assert capacity == WORD * a && frame == WORD * b;
    assert capacity % frame == WORD * a - WORD * b * q;
    assert WORD * b * q == WORD * (b * q);
  }
}
