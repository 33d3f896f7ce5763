/** What the trie reports, told without following the walk: by the nodes that are there, and
    for a trie without dead nodes by the keys that are stored. */
module TrieReasons {
  import opened TrieKeys
  import opened TrieTree

  /** The characters that are taken, and where their slots are: the digits and punctuation
      from 0x20 on share the slots of the control characters, the two cases of a letter
      share one. Index 95 would belong to '_' and DEL. */
  lemma CharTable(c: CChar)
    ensures Accepted(c) <==> 0 <= c < 128 && c != 95 && c != 127
    ensures InDictionary(c) <==> c != 95 && c != 127
    ensures 0 <= c < 128 ==> DictIndex(c) == if 32 <= c < 64 || 96 <= c then c - 32 else c
  {
  }

  /** The walk meets a rejected character after a part of the key that has its nodes. */
  ghost predicate RejectedAt<T>(t: TrieTree<T>, key: seq<CChar>, i: nat)
    reads t`nodes
  {
    i < |key| && KeyAccepted(key[..i]) && Fold(key[..i]) in t.nodes && !Accepted(key[i])
  }

  /** A node is missing for an accepted part of the key. */
  ghost predicate MissingAt<T>(t: TrieTree<T>, key: seq<CChar>, i: nat)
    reads t`nodes
  {
    i < |key| && KeyAccepted(key[..i + 1]) && Fold(key[..i + 1]) !in t.nodes
  }

  ghost predicate Arrives<T>(t: TrieTree<T>, key: seq<CChar>)
    reads t`nodes
  {
    KeyAccepted(key) && Fold(key) in t.nodes
  }

  lemma {:induction false} WalkFrom<T>(t: TrieTree<T>, key: seq<CChar>, i: nat)
    requires i <= |key| && KeyAccepted(key[..i]) && Fold(key[..i]) in t.nodes
    ensures var r := t.WalkFailureFrom(key, i);
            || (r == Success && Arrives(t, key))
            || (r == BadIndex && exists j: nat :: RejectedAt(t, key, j))
            || (r == NotFound && exists j: nat :: MissingAt(t, key, j))
    decreases |key| - i
  {
    if i == |key| {
      assert key[..i] == key;
    } else if !Accepted(key[i]) {
      assert RejectedAt(t, key, i);
    } else {
      assert key[..i + 1] == key[..i] + [key[i]];
      if Fold(key[..i + 1]) !in t.nodes {
        assert MissingAt(t, key, i);
      } else {
        WalkFrom(t, key, i + 1);
      }
    }
  }

  /** The beginnings of an accepted part of a key that has its node have theirs. */
  lemma PartPresent<T>(t: TrieTree<T>, key: seq<CChar>, i: nat, j: nat)
    requires t.Valid() && j <= i <= |key| && Fold(key[..i]) in t.nodes
    ensures Fold(key[..j]) in t.nodes
  {
    t.PrefixPresent(Fold(key[..i]), j);
    assert Fold(key[..i])[..j] == Fold(key[..j]);
  }

  lemma RejectedIsNotMissing<T>(t: TrieTree<T>, key: seq<CChar>, i: nat, j: nat)
    requires t.Valid() && RejectedAt(t, key, i)
    ensures !MissingAt(t, key, j) && !Arrives(t, key)
  {
    if j < i {
      PartPresent(t, key, i, j + 1);
    } else if j < |key| {
      assert key[..j + 1][i] == key[i];
    }
  }

  lemma ArrivingIsNotMissing<T>(t: TrieTree<T>, key: seq<CChar>, j: nat)
    requires t.Valid() && Arrives(t, key)
    ensures !MissingAt(t, key, j)
  {
    if j < |key| {
      assert key[..|key|] == key;
      PartPresent(t, key, |key|, j + 1);
    }
  }

  /** What find and remove report for a key of allowed length. */
  lemma WalkMeans<T>(t: TrieTree<T>, key: seq<CChar>)
    requires t.Valid()
    ensures t.WalkFailure(key) == Success <==> Arrives(t, key)
    ensures t.WalkFailure(key) == BadIndex <==> exists i: nat :: RejectedAt(t, key, i)
    ensures t.WalkFailure(key) == NotFound <==> exists i: nat :: MissingAt(t, key, i)
  {
    assert Fold(key[..0]) == [];
    WalkFrom(t, key, 0);
    forall i: nat, j: nat | RejectedAt(t, key, i) ensures !MissingAt(t, key, j) && !Arrives(t, key) {
      RejectedIsNotMissing(t, key, i, j);
    }
    forall j: nat | Arrives(t, key) ensures !MissingAt(t, key, j) {
      ArrivingIsNotMissing(t, key, j);
    }
  }

  /** In a trie without dead nodes a node is missing exactly if no stored key begins so. */
  lemma NodesAreBeginnings<T>(t: TrieTree<T>, part: seq<CChar>)
    requires t.Valid() && t.Tidy() && part != []
    ensures Fold(part) in t.nodes <==> exists q :: q in t.model && Fold(part) <= q
  {
    t.TidyShape();
  }

  // What an insertion reports.

  /** How many of the nodes of the key up to character k are missing, from character i on. */
  ghost function Missing(paths: set<Path>, key: seq<CChar>, i: nat, k: nat): nat
    requires i <= k <= |key|
    decreases k - i
  {
    if i == k then 0 else (if Fold(key[..i + 1]) in paths then 0 else 1) + Missing(paths, key, i + 1, k)
  }

  /** The descent succeeds exactly if the rest of the key is accepted and there is memory for
      its missing nodes, and meets a rejected character exactly if there is memory for those
      before it; else it runs out of memory. */
  lemma {:induction false} DescentMeans(paths: set<Path>, key: seq<CChar>, i: nat, left: nat)
    requires i <= |key|
    ensures var r, f := DescentOutcome(paths, key, i, left), i + FirstRejected(key[i..]);
            && f <= |key|
            && (r == Success <==> f == |key| && Missing(paths, key, i, f) <= left)
            && (r == BadIndex <==> f < |key| && Missing(paths, key, i, f) <= left)
            && (r == NoMemory <==> Missing(paths, key, i, f) > left)
    decreases |key| - i
  {
    if i < |key| {
      assert key[i..][1..] == key[i + 1..];
      if Accepted(key[i]) {
        if Fold(key[..i + 1]) in paths {
          DescentMeans(paths, key, i + 1, left);
        } else if left > 0 {
          DescentMeans(paths, key, i + 1, left - 1);
        }
      }
    }
  }

  /** The first rejected character is rejected, and none before it is. */
  lemma {:induction false} FirstRejectedIs(key: seq<CChar>)
    ensures var f := FirstRejected(key);
            KeyAccepted(key[..f]) && (f < |key| ==> !Accepted(key[f])) && (f == |key| <==> KeyAccepted(key))
  {
    if key != [] && Accepted(key[0]) {
      FirstRejectedIs(key[1..]);
      var f := FirstRejected(key[1..]);
      var part := key[..f + 1];
      forall i | 0 <= i < |part| ensures Accepted(part[i]) {
        if i > 0 { assert part[i] == key[1..][..f][i - 1]; }
      }
      if f == |key| - 1 { assert part == key; }
      if f < |key| - 1 { assert key[f + 1] == key[1..][f]; }
    }
  }

  /** What insert reports, given how many nodes can still be allocated. */
  lemma InsertMeans<T>(t: TrieTree<T>, key: seq<CChar>, memory: nat)
    ensures t.InsertOutcome(key, memory) == BadKey <==> key == [] || |key| > t.maxKeyLength
    ensures key != [] && |key| <= t.maxKeyLength ==>
              var missing := Missing(t.nodes.Keys, key, 0, FirstRejected(key));
              && (t.InsertOutcome(key, memory) == Success <==> KeyAccepted(key) && missing <= memory)
              && (t.InsertOutcome(key, memory) == BadIndex <==> !KeyAccepted(key) && missing <= memory)
              && (t.InsertOutcome(key, memory) == NoMemory <==> missing > memory)
  {
    assert key[0..] == key;
    DescentMeans(t.nodes.Keys, key, 0, memory);
    FirstRejectedIs(key);
  }
}
