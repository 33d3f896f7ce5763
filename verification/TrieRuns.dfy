/** Whole runs of the trie, told without paths: which write a key shows. */
module TrieRuns {
  import opened Common
  import opened TrieKeys
  import opened TrieTree

  datatype Op<T> = Put(key: seq<CChar>, value: T) | Drop(key: seq<CChar>)

  /** Keys that differ at most in bit 0x20 of their characters. */
  predicate SameKey(a: seq<CChar>, b: seq<CChar>) {
    |a| == |b| && forall i :: 0 <= i < |a| ==> SameChar(a[i], b[i])
  }

  predicate SameChar(a: CChar, b: CChar) {
    a == b || (a == b + 32 && CaseBit(a)) || (b == a + 32 && CaseBit(b))
  }

  lemma SameKeyFolds(a: seq<CChar>, b: seq<CChar>)
    requires KeyAccepted(a) && KeyAccepted(b)
    ensures SameKey(a, b) <==> Fold(a) == Fold(b)
  {
    if SameKey(a, b) {
      forall i | 0 <= i < |a| ensures Fold(a)[i] == Fold(b)[i] { SameOffset(a[i], b[i]); }
    }
    if Fold(a) == Fold(b) {
      forall i | 0 <= i < |a| ensures SameChar(a[i], b[i]) {
        assert Fold(a)[i] == Fold(b)[i];
        SameOffset(a[i], b[i]);
      }
    }
  }

  /** The keys that the trie takes. */
  predicate Takes(maxLength: nat, key: seq<CChar>) {
    0 < |key| <= maxLength && KeyAccepted(key)
  }

  /** The value of the last write under the same key, if no removal came later. Operations
      on keys that are not taken do not count. */
  function LastWrite<T>(maxLength: nat, ops: seq<Op<T>>, key: seq<CChar>): Option<T> {
    if ops == [] then None
    else
      var last := ops[|ops| - 1];
      if !Takes(maxLength, last.key) || !SameKey(last.key, key) then LastWrite(maxLength, ops[..|ops| - 1], key)
      else if last.Put? then Some(last.value) else None
  }

  /** What an insert, with memory enough, and a remove do to the elements. */
  function After<T>(maxLength: nat, model: map<Path, T>, op: Op<T>): map<Path, T> {
    if !Takes(maxLength, op.key) then model
    else match op
      case Put(key, value) => model[Fold(key) := value]
      case Drop(key) => model - {Fold(key)}
  }

  function AfterAll<T>(maxLength: nat, ops: seq<Op<T>>): map<Path, T> {
    if ops == [] then map[] else After(maxLength, AfterAll(maxLength, ops[..|ops| - 1]), ops[|ops| - 1])
  }

  /** After any run a key shows its last write, and no operation on another key matters. */
  lemma {:induction false} RunShowsLastWrite<T>(maxLength: nat, ops: seq<Op<T>>, key: seq<CChar>)
    requires KeyAccepted(key)
    ensures Element(AfterAll(maxLength, ops), Fold(key)) == LastWrite(maxLength, ops, key)
    decreases |ops|
  {
    if ops != [] {
      var last := ops[|ops| - 1];
      RunShowsLastWrite(maxLength, ops[..|ops| - 1], key);
      if Takes(maxLength, last.key) { SameKeyFolds(last.key, key); }
    }
  }

  lemma {:induction false} RejectedFailsFrom(paths: set<Path>, key: seq<CChar>, i: nat, left: nat)
    requires i <= |key| && KeyAccepted(key[..i]) && DescentOutcome(paths, key, i, left) == Success
    ensures KeyAccepted(key)
    decreases |key| - i
  {
    if i == |key| {
      assert key[..i] == key;
    } else {
      assert key[..i + 1] == key[..i] + [key[i]];
      RejectedFailsFrom(paths, key, i + 1, if Fold(key[..i + 1]) in paths then left else left - 1);
    }
  }

  /** With memory for its nodes an insert succeeds exactly for the keys that are taken. */
  lemma InsertTakes<T>(t: TrieTree<T>, key: seq<CChar>, memory: nat)
    requires |key| <= memory
    ensures t.InsertOutcome(key, memory) == Success <==> Takes(t.maxKeyLength, key)
  {
    if t.InsertOutcome(key, memory) == Success { RejectedFailsFrom(t.nodes.Keys, key, 0, memory); }
  }

  lemma {:induction false} WalkAccepts<T>(t: TrieTree<T>, key: seq<CChar>, i: nat)
    requires i <= |key| && KeyAccepted(key[..i]) && t.WalkFailureFrom(key, i) == Success
    ensures KeyAccepted(key)
    decreases |key| - i
  {
    if i == |key| {
      assert key[..i] == key;
    } else {
      assert key[..i + 1] == key[..i] + [key[i]];
      WalkAccepts(t, key, i + 1);
    }
  }

  /** remove succeeds exactly if the key is taken and has an element. */
  lemma RemoveTakes<T>(t: TrieTree<T>, key: seq<CChar>)
    requires t.Valid()
    ensures t.RemoveOutcome(key) == Success <==> Takes(t.maxKeyLength, key) && Fold(key) in t.model
    ensures t.RemoveOutcome(key) != Success ==> After(t.maxKeyLength, t.model, Drop(key)) == t.model
  {
    if t.RemoveOutcome(key) == Success { WalkAccepts(t, key, 0); }
    if Takes(t.maxKeyLength, key) && Fold(key) in t.model {
      assert Fold(key) in t.nodes;
      t.ReachableWalks(key);
    }
  }

  lemma AfterSnoc<T>(maxLength: nat, ops: seq<Op<T>>, i: nat)
    requires i < |ops|
    ensures AfterAll(maxLength, ops[..i + 1]) == After(maxLength, AfterAll(maxLength, ops[..i]), ops[i])
  {
    assert ops[..i + 1][..i] == ops[..i];
  }

  /** A client of the trie that carries out a run, with memory enough for every insert.
      No dead nodes are left unless a key has a rejected character. */
  method Perform<T>(t: TrieTree<T>, ops: seq<Op<T>>)
    requires t.Valid() && t.model == map[] && t.Tidy()
    requires forall i :: 0 <= i < |ops| ==> KeyInDictionary(ops[i].key)
    modifies t, t.repr
    ensures t.Valid() && t.model == AfterAll(t.maxKeyLength, ops)
    ensures (forall i :: 0 <= i < |ops| ==> KeyAccepted(ops[i].key)) ==> t.Tidy()
  {
    assert ops[..0] == [];
    for i := 0 to |ops|
      invariant t.Valid() && t.model == AfterAll(t.maxKeyLength, ops[..i])
      invariant forall n :: n in t.repr ==> n in old(t.repr) || fresh(n)
      invariant (forall j :: 0 <= j < i ==> KeyAccepted(ops[j].key)) ==> t.Tidy()
    {
      AfterSnoc(t.maxKeyLength, ops, i);
      PerformOne(t, ops[i]);
    }
    assert ops[..|ops|] == ops;
  }

  method PerformOne<T>(t: TrieTree<T>, op: Op<T>)
    requires t.Valid() && KeyInDictionary(op.key)
    modifies t, t.repr
    ensures t.Valid() && t.model == After(t.maxKeyLength, old(t.model), op)
    ensures forall n :: n in t.repr ==> n in old(t.repr) || fresh(n)
    ensures old(t.Tidy()) && KeyAccepted(op.key) ==> t.Tidy()
  {
    if op.Put? {
      InsertTakes(t, op.key, |op.key|);
      var _ := t.Insert(op.key, op.value, |op.key|);
    } else {
      RemoveTakes(t, op.key);
      var _ := t.Remove(op.key);
    }
  }
}
