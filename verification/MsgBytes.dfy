/** Bytes, lengths and the ring of positions that libipc/ipc_msg_shm.cc works with. */
module MsgBytes {
  import opened Common

  type Byte = x: int | 0 <= x < 256

  type Message = seq<Byte>

  const WORD: nat := 8                              // sizeof(size_t), and the alignment
  const SIZE_MODULUS: nat := 0x1_0000_0000_0000_0000
  const OBJECT_LIMIT: nat := 0x8000_0000_0000_0000  // no object of the program is as large

  /** _align, on a size_t that wraps. */
  function Align(raw: nat): nat {
    (raw + (WORD - 1)) % SIZE_MODULUS / WORD * WORD
  }

  /** The least multiple of the word that is not below the argument, except for the last
      seven values, for which the sum wraps to nothing. */
  lemma AlignRounds(raw: nat)
    requires raw < SIZE_MODULUS
    ensures Align(raw) % WORD == 0
    ensures raw + WORD <= SIZE_MODULUS <==> raw <= Align(raw)
    ensures raw <= Align(raw) ==> Align(raw) < raw + WORD
    ensures !(raw <= Align(raw)) ==> Align(raw) == 0
  {
  }

  // A size_t in memory, least significant byte first.

  function LittleEndian(n: nat, k: nat): (bytes: seq<Byte>)
    ensures |bytes| == k
    decreases k
  {
    if k == 0 then [] else [n % 256] + LittleEndian(n / 256, k - 1)
  }

  function ValueOf(bytes: seq<Byte>): nat {
    if bytes == [] then 0 else bytes[0] + 256 * ValueOf(bytes[1..])
  }

  function Power256(k: nat): (p: nat)
    ensures p > 0
  {
    if k == 0 then 1 else 256 * Power256(k - 1)
  }

  lemma {:induction false} LittleEndianValue(n: nat, k: nat)
    requires n < Power256(k)
    ensures ValueOf(LittleEndian(n, k)) == n
    decreases k
  {
    if k > 0 {
      LittleEndianValue(n / 256, k - 1);
      assert LittleEndian(n, k)[1..] == LittleEndian(n / 256, k - 1);
    }
  }

  function Word(n: nat): (bytes: seq<Byte>)
    ensures |bytes| == WORD
  {
    LittleEndian(n, WORD)
  }

  lemma WordValue(n: nat)
    requires n < SIZE_MODULUS
    ensures ValueOf(Word(n)) == n
  {
    assert Power256(4) == 0x1_0000_0000;
    assert Power256(8) == 0x1_0000_0000 * Power256(4);
    LittleEndianValue(n, WORD);
  }

  // Messages one after the other, each behind its length.

  function Frame(m: Message): (r: seq<Byte>)
    ensures |r| == WORD + |m|
  {
    Word(|m|) + m
  }

  /** The bytes that messages take, each with its length. */
  function QueueLoad(queue: seq<Message>): nat {
    if queue == [] then 0 else WORD + |queue[0]| + QueueLoad(queue[1..])
  }

  function Encode(queue: seq<Message>): (r: seq<Byte>)
    ensures |r| == QueueLoad(queue)
  {
    if queue == [] then [] else Frame(queue[0]) + Encode(queue[1..])
  }

  /** Reading messages off a stream, as a receiver that never meets the end of the ring
      would. */
  function Decode(stream: seq<Byte>): Option<seq<Message>>
    decreases |stream|
  {
    if stream == [] then Some([])
    else if |stream| < WORD then None
    else
      var len := ValueOf(stream[..WORD]);
      if |stream| < WORD + len then None
      else
        match Decode(stream[WORD + len..])
        case None => None
        case Some(rest) => Some([stream[WORD..WORD + len]] + rest)
  }

  predicate Storable(queue: seq<Message>) {
    forall i :: 0 <= i < |queue| ==> |queue[i]| < SIZE_MODULUS
  }

  lemma {:induction false} EncodeAppend(queue: seq<Message>, m: Message)
    ensures Encode(queue + [m]) == Encode(queue) + Frame(m)
    ensures QueueLoad(queue + [m]) == QueueLoad(queue) + WORD + |m|
  {
    if queue == [] {
      assert Encode([m]) == Frame(m) + Encode([]);
    } else {
      assert (queue + [m])[1..] == queue[1..] + [m];
      EncodeAppend(queue[1..], m);
    }
  }

  lemma FrameParts(m: Message, rest: seq<Byte>)
    requires |m| < SIZE_MODULUS
    ensures var stream := Frame(m) + rest;
            && stream != [] && |stream| >= WORD + |m| && ValueOf(stream[..WORD]) == |m|
            && stream[WORD..WORD + |m|] == m && stream[WORD + |m|..] == rest
  {
    WordValue(|m|);
    assert (Frame(m) + rest)[..WORD] == Word(|m|);
  }

  lemma {:induction false} DecodeEncode(queue: seq<Message>)
    requires Storable(queue)
    ensures Decode(Encode(queue)) == Some(queue)
  {
    if queue != [] {
      DecodeEncode(queue[1..]);
      FrameParts(queue[0], Encode(queue[1..]));
      assert [queue[0]] + queue[1..] == queue;
    }
  }

  // The ring of positions start .. end.

  /** A position up to one full turn ahead, brought back into the ring. */
  function Turn(start: nat, end: nat, pos: nat): nat
    requires start <= end && start <= pos
  {
    if pos >= end then pos - (end - start) else pos
  }

  /** The bytes of the ring in the order in which they follow one another from pos on. */
  function From(memory: seq<Byte>, start: nat, end: nat, pos: nat): (r: seq<Byte>)
    requires start <= pos <= end <= |memory|
    ensures |r| == end - start
  {
    memory[pos..end] + memory[start..pos]
  }

  lemma Rotated(memory: seq<Byte>, start: nat, end: nat, pos: nat, n: nat)
    requires start <= pos <= end <= |memory| && n <= end - start && (pos < end || start == end)
    ensures Turn(start, end, pos + n) <= end
    ensures var ring := From(memory, start, end, pos);
            From(memory, start, end, Turn(start, end, pos + n)) == ring[n..] + ring[..n]
  {
    var ring := From(memory, start, end, pos);
    if pos + n < end {
      assert ring[..n] == memory[pos..pos + n];
      assert ring[n..] == memory[pos + n..end] + memory[start..pos];
      assert memory[start..pos] + memory[pos..pos + n] == memory[start..pos + n];
    } else {
      var pos' := pos + n - (end - start);
      assert ring[..n] == memory[pos..end] + memory[start..pos'];
      assert ring[n..] == memory[pos'..pos];
      assert memory[pos'..pos] + memory[pos..end] == memory[pos'..end];
    }
  }

  /** The bytes were laid into the ring at pos, and nothing else changed. */
  ghost predicate Laid(before: seq<Byte>, after: seq<Byte>, start: nat, end: nat, pos: nat, bytes: seq<Byte>)
    requires start <= pos <= end <= |before|
  {
    && |after| == |before| && |bytes| <= end - start
    && after[..start] == before[..start] && after[end..] == before[end..]
    && From(after, start, end, pos) == bytes + From(before, start, end, pos)[|bytes|..]
  }

  function Overwritten(memory: seq<Byte>, pos: nat, bytes: seq<Byte>): (r: seq<Byte>)
    requires pos + |bytes| <= |memory|
    ensures |r| == |memory|
  {
    memory[..pos] + bytes + memory[pos + |bytes|..]
  }

  lemma LaidStraight(memory: seq<Byte>, start: nat, end: nat, pos: nat, bytes: seq<Byte>)
    requires start <= pos && pos + |bytes| <= end <= |memory|
    ensures Laid(memory, Overwritten(memory, pos, bytes), start, end, pos, bytes)
  {
    var after := Overwritten(memory, pos, bytes);
    assert after[pos..end] == bytes + memory[pos + |bytes|..end];
    assert after[start..pos] == memory[start..pos];
  }

  /** Two pieces laid one behind the other are one piece. */
  lemma LaidTwice(m0: seq<Byte>, m1: seq<Byte>, m2: seq<Byte>, start: nat, end: nat, pos: nat, a: seq<Byte>, b: seq<Byte>)
    requires start <= pos <= end <= |m0| && (pos < end || start == end) && |a| + |b| <= end - start
    requires Laid(m0, m1, start, end, pos, a)
    requires Turn(start, end, pos + |a|) <= end && Laid(m1, m2, start, end, Turn(start, end, pos + |a|), b)
    ensures Laid(m0, m2, start, end, pos, a + b)
  {
    var r0, r1, r2 := From(m0, start, end, pos), From(m1, start, end, pos), From(m2, start, end, pos);
    Rotated(m1, start, end, pos, |a|);
    Rotated(m2, start, end, pos, |a|);
    assert r1[|a|..] == r0[|a|..] && r1[..|a|] == a;
    assert r2[|a|..] + r2[..|a|] == b + (r1[|a|..] + r1[..|a|])[|b|..];
    assert (r1[|a|..] + r1[..|a|])[|b|..] == r0[|a| + |b|..] + a;
    RotateBack(r2, |a|, b + r0[|a| + |b|..], a);
  }

  lemma RotateBack(r: seq<Byte>, n: nat, x: seq<Byte>, y: seq<Byte>)
    requires n <= |r| && |y| == n && r[n..] + r[..n] == x + y
    ensures r == y + x
  {
    assert |r[n..]| == |x|;
    assert r[n..] == (r[n..] + r[..n])[..|x|] == x;
    assert r[..n] == (r[n..] + r[..n])[|x|..] == y;
    assert r == r[..n] + r[n..];
  }

  /** Laying bytes behind the first n bytes of the ring appends them to those. */
  lemma LaidBehind(before: seq<Byte>, after: seq<Byte>, start: nat, end: nat, pos: nat, n: nat, bytes: seq<Byte>)
    requires start <= pos <= end <= |before| && (pos < end || start == end) && n + |bytes| <= end - start
    requires Turn(start, end, pos + n) <= end && Laid(before, after, start, end, Turn(start, end, pos + n), bytes)
    ensures From(after, start, end, pos)[..n + |bytes|] == From(before, start, end, pos)[..n] + bytes
  {
    var was, now := From(before, start, end, pos), From(after, start, end, pos);
    Rotated(before, start, end, pos, n);
    Rotated(after, start, end, pos, n);
    assert (was[n..] + was[..n])[|bytes|..] == was[n + |bytes|..] + was[..n];
    RotateBack(now, n, bytes + was[n + |bytes|..], was[..n]);
  }
}
