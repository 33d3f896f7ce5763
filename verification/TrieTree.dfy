/** The trie of libcontainer/container_trie_tree.h: nodes with a slot per offset and a
    link to the parent, pruned from below when an element goes. */
module TrieTree {
  import opened Common
  import opened TrieKeys

  datatype Ret = Success | BadKey | BadIndex | NotFound | NoMemory

  class TTNode<T> {
    var level: int
    var offset: nat
    var data: Option<T>
    var parent: TTNode?<T>
    var slots: seq<TTNode?<T>>    // the inline array slots_[TT_DICT_SIZE]
    ghost var path: Path          // where the node hangs

    /** _TTNode_init. */
    constructor ()
      ensures level == -1 && offset == 0 && data == None && parent == null
      ensures slots == seq(DICT_SIZE, _ => null) && path == []
    {
      level, offset, data, parent, path := -1, 0, None, null, [];
      slots := seq(DICT_SIZE, _ => null);
    }
  }

  /** Every path but the root leads on to an element. */
  ghost predicate Pruned(paths: set<Path>, keys: set<Path>) {
    forall p :: p in paths && p != [] ==> Leads(keys, p)
  }

  ghost predicate Leads(keys: set<Path>, p: Path) {
    exists q :: q in keys && p <= q
  }

  /** Only beginnings of the given path may lead nowhere. */
  ghost predicate PrunedBut(paths: set<Path>, keys: set<Path>, dead: Path) {
    forall p :: p in paths && !(p <= dead) ==> Leads(keys, p)
  }

  /** All beginnings of a path, itself included. */
  ghost function Beginnings(p: Path): (s: set<Path>)
    ensures forall q :: q in s <==> q <= p
  {
    var s := set i | 0 <= i <= |p| :: p[..i];
    assert forall q :: q <= p ==> q == p[..|q|];
    s
  }

  lemma ProperBeginning(q: Path, p: Path)
    requires q <= p && q != p
    ensures p != [] && q <= p[..|p| - 1]
  {
    assert p[..|p|] == p;
    assert p[..|p| - 1][..|q|] == p[..|q|];
  }

  lemma PrunedStepRemove(paths: set<Path>, keys: set<Path>, p: Path)
    requires PrunedBut(paths, keys, p) && p != []
    ensures PrunedBut(paths - {p}, keys, p[..|p| - 1])
  {
    forall q | q in paths - {p} && !(q <= p[..|p| - 1]) ensures Leads(keys, q) {
      if q <= p { ProperBeginning(q, p); }
    }
  }

  lemma PrunedStepKeep(paths: set<Path>, keys: set<Path>, p: Path)
    requires PrunedBut(paths, keys, p) && p != [] && Leads(keys, p)
    ensures PrunedBut(paths, keys, p[..|p| - 1])
  {
    forall q | q in paths && !(q <= p[..|p| - 1]) ensures Leads(keys, q) {
      if q <= p && q != p { ProperBeginning(q, p); }
    }
  }

  lemma ChildLeads(keys: set<Path>, p: Path, c: nat)
    requires Leads(keys, p + [c])
    ensures Leads(keys, p)
  {
    var q :| q in keys && p + [c] <= q;
    assert p <= q;
  }

  lemma KeyRemoved(paths: set<Path>, keys: set<Path>, p: Path)
    requires Pruned(paths, keys)
    ensures PrunedBut(paths, keys - {p}, p)
  {
    forall q | q in paths && !(q <= p) ensures Leads(keys - {p}, q) {
      var r :| r in keys && q <= r;
      assert r in keys - {p};
    }
  }

  lemma KeyAdded(paths: set<Path>, keys: set<Path>, p: Path)
    requires Pruned(paths, keys)
    ensures Pruned(paths + Beginnings(p), keys + {p})
  {
    forall q | q in paths + Beginnings(p) && q != [] ensures Leads(keys + {p}, q) {
      if q in paths {
        var r :| r in keys && q <= r;
        assert r in keys + {p};
      } else {
        assert p in keys + {p} && q <= p;
      }
    }
  }

  lemma PathAdded(paths: set<Path>, keys: set<Path>, p: Path)
    requires Pruned(paths, keys)
    ensures PrunedBut(paths + Beginnings(p), keys, p)
  {
  }

  /** The links of one node, as a value. */
  datatype View<T> = View(level: int, offset: nat, parent: TTNode?<T>, slots: seq<TTNode?<T>>, data: Option<T>)

  ghost function ViewOf<T>(n: TTNode<T>): View<T>
    reads n
  {
    View(n.level, n.offset, n.parent, n.slots, n.data)
  }

  /** The links of the node for path p agree with the table of all nodes. */
  ghost predicate ViewOk<T>(nodes: map<Path, TTNode<T>>, p: Path, v: View<T>) {
    && Offsets(p)
    && |v.slots| == DICT_SIZE
    && (p == [] ==> v.parent == null)
    && (p != [] ==>
          && p[..|p| - 1] in nodes && v.parent == nodes[p[..|p| - 1]]
          && v.offset == p[|p| - 1] && v.level == |p|)
    && forall c: nat :: c < DICT_SIZE ==> v.slots[c] == (if p + [c] in nodes then nodes[p + [c]] else null)
  }

  ghost predicate Childless<T>(nodes: map<Path, TTNode<T>>, p: Path) {
    forall d: nat :: p + [d] !in nodes
  }

  lemma ChildNotSibling(p: Path, c: nat, q: Path, d: nat)
    ensures q + [d] == p + [c] <==> q == p && d == c
  {
    assert (q + [d])[..|q|] == q && (p + [c])[..|p|] == p;
    assert (q + [d])[|q|] == d && (p + [c])[|p|] == c;
  }

  /** Adding a path below p: the parent gains a slot, all others stay right. */
  lemma AddOther<T>(nodes: map<Path, TTNode<T>>, p: Path, c: nat, n: TTNode<T>, q: Path, v: View<T>)
    requires ViewOk(nodes, q, v) && q != p && p + [c] !in nodes
    ensures ViewOk(nodes[p + [c] := n], q, v)
  {
    forall d: nat | d < DICT_SIZE ensures q + [d] != p + [c] { ChildNotSibling(p, c, q, d); }
  }

  lemma AddParent<T>(nodes: map<Path, TTNode<T>>, p: Path, c: nat, n: TTNode<T>, v: View<T>)
    requires ViewOk(nodes, p, v) && c < DICT_SIZE && p + [c] !in nodes
    ensures ViewOk(nodes[p + [c] := n], p, v.(slots := v.slots[c := n]))
  {
    forall d: nat | d < DICT_SIZE && d != c ensures p + [d] != p + [c] { ChildNotSibling(p, c, p, d); }
  }

  lemma AddChild<T>(nodes: map<Path, TTNode<T>>, p: Path, c: nat, n: TTNode<T>)
    requires p in nodes && Offsets(p) && Offset(c)
    requires Childless(nodes, p + [c])
    ensures ViewOk(nodes[p + [c] := n], p + [c],
                   View(|p| + 1, c, nodes[p], seq(DICT_SIZE, _ => null), None))
  {
    assert (p + [c])[..|p|] == p;
    forall d: nat ensures p + [c] + [d] != p + [c] { assert |p + [c] + [d]| == |p + [c]| + 1; }
  }

  /** Removing a path without children: the parent loses a slot, all others stay right. */
  lemma RemoveOther<T>(nodes: map<Path, TTNode<T>>, p: Path, c: nat, q: Path, v: View<T>)
    requires ViewOk(nodes, q, v) && q != p && q != p + [c] && p + [c] in nodes
    requires Childless(nodes, p + [c])
    requires q in nodes
    ensures ViewOk(nodes - {p + [c]}, q, v)
  {
    forall d: nat | d < DICT_SIZE ensures q + [d] != p + [c] { ChildNotSibling(p, c, q, d); }
    if q != [] {
      assert q[..|q| - 1] + [q[|q| - 1]] == q;
      assert q[..|q| - 1] != p + [c];
    }
  }

  lemma RemoveParent<T>(nodes: map<Path, TTNode<T>>, p: Path, c: nat, v: View<T>)
    requires ViewOk(nodes, p, v) && c < DICT_SIZE && p + [c] in nodes
    ensures ViewOk(nodes - {p + [c]}, p, v.(slots := v.slots[c := null]))
  {
    forall d: nat | d < DICT_SIZE && d != c ensures p + [d] != p + [c] { ChildNotSibling(p, c, p, d); }
  }

  ghost function Element<T>(model: map<Path, T>, p: Path): Option<T> {
    if p in model then Some(model[p]) else None
  }

  ghost predicate Within<K, V>(a: map<K, V>, b: map<K, V>) {
    forall k :: k in a ==> k in b && a[k] == b[k]
  }

  lemma WithinPut<K, V>(a: map<K, V>, b: map<K, V>, k: K, v: V)
    requires Within(a, b) && k in b && b[k] == v
    ensures Within(a[k := v], b)
  {
  }

  lemma SameElements<K, V>(a: map<K, V>, b: map<K, V>)
    requires Within(a, b) && a.Keys == b.Keys
    ensures a == b
  {
  }

  /** A node's links agree with the table, its data with the elements. */
  ghost predicate EntryOk<T>(nodes: map<Path, TTNode<T>>, views: map<Path, View<T>>, model: map<Path, T>, maxLength: nat, q: Path)
    requires q in nodes && q in views
  {
    |q| <= maxLength && views[q].data == Element(model, q) && ViewOk(nodes, q, views[q])
  }

  /** Every node's links agree with the table, and no path is longer than allowed. */
  ghost predicate AllOk<T>(nodes: map<Path, TTNode<T>>, views: map<Path, View<T>>, model: map<Path, T>, maxLength: nat) {
    && nodes.Keys == views.Keys && model.Keys <= nodes.Keys
    && forall p {:trigger EntryOk(nodes, views, model, maxLength, p)} :: p in nodes ==> EntryOk(nodes, views, model, maxLength, p)
  }

  ghost function Added<T>(nodes: map<Path, TTNode<T>>, views: map<Path, View<T>>, p: Path, c: nat, n: TTNode<T>): map<Path, View<T>>
    requires p in nodes && p in views && c < |views[p].slots|
  {
    views[p := views[p].(slots := views[p].slots[c := n])]
         [p + [c] := View(|p| + 1, c, nodes[p], seq(DICT_SIZE, _ => null), None)]
  }

  ghost function Removed<T>(views: map<Path, View<T>>, p: Path, c: nat): map<Path, View<T>>
    requires p in views && c < |views[p].slots|
  {
    views[p := views[p].(slots := views[p].slots[c := null])] - {p + [c]}
  }

  lemma AddAll<T>(nodes: map<Path, TTNode<T>>, views: map<Path, View<T>>, model: map<Path, T>, maxLength: nat,
                  p: Path, c: nat, n: TTNode<T>)
    requires AllOk(nodes, views, model, maxLength) && p in nodes && p + [c] !in nodes && Offset(c) && |p| < maxLength
    requires Childless(nodes, p + [c])
    ensures ViewOk(nodes, p, views[p])
    ensures AllOk(nodes[p + [c] := n], Added(nodes, views, p, c, n), model, maxLength)
  {
    assert EntryOk(nodes, views, model, maxLength, p);
    var nodes', views' := nodes[p + [c] := n], Added(nodes, views, p, c, n);
    forall q | q in nodes' ensures EntryOk(nodes', views', model, maxLength, q)
    {
      if q in nodes {
        assert EntryOk(nodes, views, model, maxLength, q);
        AddToOld(nodes, views, p, c, n, q);
      } else {
        AddChild(nodes, p, c, n);
      }
    }
  }

  lemma AddToOld<T>(nodes: map<Path, TTNode<T>>, views: map<Path, View<T>>, p: Path, c: nat, n: TTNode<T>, q: Path)
    requires p in nodes && p + [c] !in nodes && Offset(c) && q in nodes && nodes.Keys == views.Keys
    requires ViewOk(nodes, p, views[p]) && ViewOk(nodes, q, views[q])
    ensures ViewOk(nodes[p + [c] := n], q, Added(nodes, views, p, c, n)[q])
    ensures Added(nodes, views, p, c, n)[q].data == views[q].data
  {
    if q == p {
      AddParent(nodes, p, c, n, views[p]);
    } else {
      AddOther(nodes, p, c, n, q, views[q]);
    }
  }

  lemma RemoveAll<T>(nodes: map<Path, TTNode<T>>, views: map<Path, View<T>>, model: map<Path, T>, maxLength: nat,
                     p: Path, c: nat)
    requires AllOk(nodes, views, model, maxLength) && p in nodes && p + [c] in nodes && p + [c] !in model
    requires Childless(nodes, p + [c])
    ensures ViewOk(nodes, p + [c], views[p + [c]]) && c < DICT_SIZE && ViewOk(nodes, p, views[p])
    ensures AllOk(nodes - {p + [c]}, Removed(views, p, c), model, maxLength)
  {
    assert EntryOk(nodes, views, model, maxLength, p) && EntryOk(nodes, views, model, maxLength, p + [c]);
    assert Offset((p + [c])[|p|]);
    var nodes', views' := nodes - {p + [c]}, Removed(views, p, c);
    forall q | q in nodes' ensures EntryOk(nodes', views', model, maxLength, q) {
      if q == p {
        RemoveParent(nodes, p, c, views[p]);
      } else {
        assert EntryOk(nodes, views, model, maxLength, q);
        RemoveOther(nodes, p, c, q, views[q]);
      }
    }
  }

  lemma ChangeElement<T>(nodes: map<Path, TTNode<T>>, views: map<Path, View<T>>, model: map<Path, T>, maxLength: nat,
                         p: Path, model': map<Path, T>)
    requires AllOk(nodes, views, model, maxLength) && p in nodes
    requires model'.Keys - {p} == model.Keys - {p} && forall q :: q in model && q != p ==> q in model' && model'[q] == model[q]
    ensures AllOk(nodes, views[p := views[p].(data := Element(model', p))], model', maxLength)
  {
    var views' := views[p := views[p].(data := Element(model', p))];
    forall q | q in nodes ensures EntryOk(nodes, views', model', maxLength, q) {
      assert EntryOk(nodes, views, model, maxLength, q);
      assert q != p ==> (q in model'.Keys - {p} <==> q in model.Keys - {p});
    }
    forall q | q in model' ensures q in nodes {
      if q != p { assert q in model'.Keys - {p}; }
    }
  }

  /** How the descent of an insertion ends, from character i on, given the paths that
      exist and the number of nodes that can still be allocated. */
  ghost function DescentOutcome(paths: set<Path>, key: seq<CChar>, i: nat, left: nat): (r: Ret)
    requires i <= |key|
    ensures r == Success || r == BadIndex || r == NoMemory
    ensures KeyAccepted(key) ==> r != BadIndex
    ensures |key| - i <= left ==> r != NoMemory
    decreases |key| - i
  {
    if i == |key| then Success
    else if !Accepted(key[i]) then BadIndex
    else if Fold(key[..i + 1]) in paths then DescentOutcome(paths, key, i + 1, left)
    else if left == 0 then NoMemory
    else DescentOutcome(paths, key, i + 1, left - 1)
  }

  /** The table after a descent of i levels that started from the given one. */
  ghost predicate Descended<T>(was: map<Path, TTNode<T>>, nodes: map<Path, TTNode<T>>, key: seq<CChar>, i: nat, node: TTNode<T>)
    requires i <= |key|
  {
    && KeyAccepted(key[..i])
    && Within(was, nodes)
    && nodes.Keys == was.Keys + Beginnings(Fold(key[..i]))
    && Fold(key[..i]) in nodes && nodes[Fold(key[..i])] == node
  }

  lemma DescendFacts(paths: set<Path>, key: seq<CChar>, i: nat)
    requires i < |key| && Accepted(key[i]) && KeyAccepted(key[..i])
    ensures Fold(key[..i + 1]) == Fold(key[..i]) + [DictIndex(key[i])]
    ensures Offset(DictIndex(key[i])) && KeyAccepted(key[..i + 1])
    ensures Beginnings(Fold(key[..i + 1])) == Beginnings(Fold(key[..i])) + {Fold(key[..i + 1])}
    ensures Fold(key[..i + 1]) in paths + Beginnings(Fold(key[..i])) <==> Fold(key[..i + 1]) in paths
  {
    AcceptedOffset(key[i]);
    var p, p' := Fold(key[..i]), Fold(key[..i + 1]);
    assert p' == p + [DictIndex(key[i])] && p'[..|p|] == p;
    forall q | q in Beginnings(p') && q != p' ensures q in Beginnings(p) { ProperBeginning(q, p'); }
    forall q | q in Beginnings(p) ensures q in Beginnings(p') { assert q <= p'; }
  }

  /** One level further, at the node that is there or a new one. */
  lemma DescendedNext<T>(was: map<Path, TTNode<T>>, nodes: map<Path, TTNode<T>>, nodes': map<Path, TTNode<T>>,
      key: seq<CChar>, i: nat, node: TTNode<T>, child: TTNode<T>)
    requires i < |key| && Accepted(key[i]) && Descended(was, nodes, key, i, node)
    requires var p := Fold(key[..i + 1]);
             if p in nodes then nodes' == nodes && child == nodes[p] else nodes' == nodes[p := child]
    ensures Descended(was, nodes', key, i + 1, child)
  {
    DescendFacts(was.Keys, key, i);
  }

  /** Where the first rejected character of a key is, if there is one. */
  function FirstRejected(key: seq<CChar>): (i: nat)
    ensures i <= |key|
  {
    if key == [] || !Accepted(key[0]) then 0 else 1 + FirstRejected(key[1..])
  }

  lemma {:induction false} RejectedIsFirst(key: seq<CChar>, i: nat)
    requires i < |key| && KeyAccepted(key[..i]) && !Accepted(key[i])
    ensures FirstRejected(key) == i
  {
    if i > 0 {
      assert Accepted(key[..i][0]);
      assert key[1..][..i - 1] == key[..i][1..];
      RejectedIsFirst(key[1..], i - 1);
    }
  }

  lemma LeftBehind(paths: set<Path>, paths': set<Path>, keys: set<Path>, dead: Path)
    requires Pruned(paths, keys) && paths' == paths + Beginnings(dead) && [] in paths
    requires dead in paths ==> Beginnings(dead) <= paths
    requires dead !in paths ==> !Leads(keys, dead)
    ensures Pruned(paths', keys) <==> dead in paths
  {
    assert dead in Beginnings(dead);
    if dead in paths { assert paths' == paths; }
  }

  predicate AllOffsets(keys: set<Path>) {
    forall q :: q in keys ==> Offsets(q)
  }

  /** The paths at or below a path, those below only through slots before c. */
  ghost function Below(keys: set<Path>, p: Path, c: nat): (s: set<Path>)
  {
    set q | q in keys && p <= q && (q == p || q[|p|] < c)
  }

  lemma BelowRoot(keys: set<Path>)
    requires AllOffsets(keys)
    ensures Below(keys, [], DICT_SIZE) == keys
  {
  }

  lemma BelowOwn(keys: set<Path>, p: Path)
    ensures Below(keys, p, 0) == if p in keys then {p} else {}
  {
  }

  /** One more slot adds what is below the child in it. */
  lemma BelowChild(keys: set<Path>, p: Path, c: nat)
    requires AllOffsets(keys)
    ensures Below(keys, p, c) + Below(keys, p + [c], DICT_SIZE) == Below(keys, p, c + 1)
  {
    forall q | q in Below(keys, p, c + 1) ensures q in Below(keys, p, c) || q in Below(keys, p + [c], DICT_SIZE) {
      if q != p && q[|p|] == c { assert p + [c] <= q; }
    }
  }

  lemma NextSlot(base: set<Path>, keys: set<Path>, p: Path, c: nat)
    requires AllOffsets(keys)
    ensures base + Below(keys, p, c) + Below(keys, p + [c], DICT_SIZE) == base + Below(keys, p, c + 1)
  {
    BelowChild(keys, p, c);
  }

  /** A table of nodes, their links and the elements, taken down at some moment, and the
      nodes that it is about. */
  datatype Source<T> =
    Source(nodes: map<Path, TTNode<T>>, views: map<Path, View<T>>, model: map<Path, T>, own: set<TTNode<T>>)

  ghost predicate Sound<T>(from: Source<T>, maxLength: nat) {
    && [] in from.nodes && [] !in from.model && AllOk(from.nodes, from.views, from.model, maxLength)
    && forall p :: p in from.nodes ==> from.nodes[p] in from.own
  }

  /** The nodes still have the links and data taken down. */
  ghost predicate Stands<T>(from: Source<T>)
    reads from.own
  {
    forall p :: p in from.nodes ==>
      p in from.views && from.nodes[p] in from.own && from.views[p] == ViewOf(from.nodes[p])
  }

  lemma SourceNode<T>(from: Source<T>, maxLength: nat, p: Path)
    requires Sound(from, maxLength) && Stands(from) && p in from.nodes
    ensures |p| <= maxLength && ViewOk(from.nodes, p, ViewOf(from.nodes[p]))
    ensures from.nodes[p].data == Element(from.model, p) && (p in from.model ==> p != [])
  {
    assert EntryOk(from.nodes, from.views, from.model, maxLength, p);
  }

  lemma SourceOffsets<T>(from: Source<T>, maxLength: nat)
    requires Sound(from, maxLength)
    ensures AllOffsets(from.model.Keys)
  {
    forall q | q in from.model ensures Offsets(q) { assert EntryOk(from.nodes, from.views, from.model, maxLength, q); }
  }

  lemma SourcePrefix<T>(from: Source<T>, maxLength: nat, p: Path, i: nat)
    requires Sound(from, maxLength) && p in from.nodes && i <= |p|
    ensures p[..i] in from.nodes
    decreases |p|
  {
    if i < |p| {
      assert EntryOk(from.nodes, from.views, from.model, maxLength, p);
      SourcePrefix(from, maxLength, p[..|p| - 1], i);
      assert p[..|p| - 1][..i] == p[..i];
    } else {
      assert p[..i] == p;
    }
  }

  lemma SourceAbsent<T>(from: Source<T>, maxLength: nat, p: Path, q: Path)
    requires Sound(from, maxLength) && q in from.nodes && p !in from.nodes
    ensures !(p <= q)
  {
    assert p <= q ==> q[..|p|] == p;
    if p <= q { SourcePrefix(from, maxLength, q, |p|); }
  }

  lemma SourceChild<T>(from: Source<T>, maxLength: nat, p: Path, c: nat)
    requires Sound(from, maxLength) && Stands(from) && p in from.nodes && c < DICT_SIZE
    ensures |from.nodes[p].slots| == DICT_SIZE
    ensures from.nodes[p].slots[c] != null ==>
              p + [c] in from.nodes && from.nodes[p + [c]] == from.nodes[p].slots[c] && |p| < |p + [c]| <= maxLength
    ensures from.nodes[p].slots[c] == null ==> Below(from.model.Keys, p + [c], DICT_SIZE) == {}
  {
    SourceNode(from, maxLength, p);
    if p + [c] in from.nodes {
      SourceNode(from, maxLength, p + [c]);
    } else {
      forall q | q in from.model ensures !(p + [c] <= q) {
        SourceAbsent(from, maxLength, p + [c], q);
      }
    }
  }

  class TrieTree<T> {
    const maxKeyLength: nat
    var count: int
    var root: TTNode<T>
    var lastReturn: Ret
    ghost var nodes: map<Path, TTNode<T>>   // every node by its path
    ghost var model: map<Path, T>           // the abstract value: the elements by path
    ghost var repr: set<TTNode<T>>          // every node there has been

    ghost predicate Owned()
      reads this`nodes, this`repr
    {
      forall p :: p in nodes ==> nodes[p] in repr
    }

    ghost function Views(): (vs: map<Path, View<T>>)
      requires Owned()
      reads this`nodes, this`repr, repr
      ensures vs.Keys == nodes.Keys
    {
      map p | p in nodes :: ViewOf(nodes[p])
    }

    ghost predicate Valid()
      reads this`nodes, this`model, this`root, this`repr, repr
    {
      && Owned() && [] in nodes && nodes[[]] == root
      && (forall p :: p in nodes ==> nodes[p].path == p)
      && AllOk(nodes, Views(), model, maxKeyLength) && [] !in model
    }

    lemma NodeOk(p: Path)
      requires Valid() && p in nodes
      ensures |p| <= maxKeyLength && ViewOk(nodes, p, ViewOf(nodes[p]))
      ensures nodes[p].data == Element(model, p)
    {
      assert EntryOk(nodes, Views(), model, maxKeyLength, p);
    }

    constructor (maxKeyLength: nat)
      ensures Valid() && fresh(repr)
      ensures this.maxKeyLength == maxKeyLength && model == map[] && nodes.Keys == {[]} && count == 0
    {
      this.maxKeyLength := maxKeyLength;
      count := 0;
      lastReturn := Success;
      var r := new TTNode<T>();
      root := r;
      nodes := map[[] := r];
      model := map[];
      repr := {r};
      new;
      FreshRoot();
    }

    predicate BadLength(key: seq<CChar>) {
      |key| == 0 || |key| > maxKeyLength
    }

    /** What a walk along the key reports when it does not reach a node. */
    ghost function WalkFailure(key: seq<CChar>): (r: Ret)
      reads this`nodes
    {
      WalkFailureFrom(key, 0)
    }

    ghost function WalkFailureFrom(key: seq<CChar>, i: nat): (r: Ret)
      requires i <= |key|
      reads this`nodes
      decreases |key| - i
    {
      if i == |key| then Success
      else if !Accepted(key[i]) then BadIndex
      else if Fold(key[..i + 1]) !in nodes then NotFound
      else WalkFailureFrom(key, i + 1)
    }

    /** The loop that find and remove share. */
    method Walk(key: seq<CChar>) returns (node: TTNode?<T>, ret: Ret)
      requires Valid() && KeyInDictionary(key)
      ensures ret == WalkFailure(key) && (node == null <==> ret != Success)
      ensures node != null ==> KeyAccepted(key) && Fold(key) in nodes && node == nodes[Fold(key)]
    {
      var curnode := root;
      for i := 0 to |key|
        invariant Fold(key[..i]) in nodes && curnode == nodes[Fold(key[..i])]
        invariant forall j :: 0 <= j < i ==> Accepted(key[j])
        invariant WalkFailure(key) == WalkFailureFrom(key, i)
      {
        var offset := DictIndex(key[i]);
        assert Fold(key[..i + 1]) == Fold(key[..i]) + [offset];
        if offset > DICT_SIZE {
          return null, BadIndex;
        }
        AcceptedOffset(key[i]);
        assert |curnode.slots| == DICT_SIZE
            && curnode.slots[offset] == (if Fold(key[..i + 1]) in nodes then nodes[Fold(key[..i + 1])] else null) by {
          NodeOk(Fold(key[..i]));
        }
        if curnode.slots[offset] == null {
          return null, NotFound;
        }
        curnode := curnode.slots[offset];
      }
      assert key[..|key|] == key;
      return curnode, Success;
    }

    /** find: the element, or nothing. */
    method Find(key: seq<CChar>) returns (data: Option<T>)
      requires Valid() && KeyInDictionary(key)
      modifies this`lastReturn
      ensures Valid()
      ensures data == if !BadLength(key) && KeyAccepted(key) then Element(model, Fold(key)) else None
      ensures lastReturn == if BadLength(key) then BadKey else WalkFailure(key)
    {
      if |key| == 0 || |key| > maxKeyLength {
        lastReturn := BadKey;
        return None;
      }
      var node, ret := Walk(key);
      lastReturn := ret;
      if node == null {
        if KeyAccepted(key) && Fold(key) in nodes { ReachableWalks(key); }
        return None;
      }
      NodeOk(Fold(key));
      return node.data;
    }

    /** Accepted keys whose node exists are reached. */
    lemma ReachableWalks(key: seq<CChar>)
      requires Valid() && KeyAccepted(key) && Fold(key) in nodes
      ensures WalkFailure(key) == Success
    {
      ReachableWalksFrom(key, 0);
    }

    lemma ReachableWalksFrom(key: seq<CChar>, i: nat)
      requires Valid() && KeyAccepted(key) && Fold(key) in nodes && i <= |key|
      ensures WalkFailureFrom(key, i) == Success
      decreases |key| - i
    {
      if i < |key| {
        PrefixPresent(Fold(key), i + 1);
        assert Fold(key)[..i + 1] == Fold(key[..i + 1]);
        ReachableWalksFrom(key, i + 1);
      }
    }

    lemma PrefixPresent(p: Path, i: nat)
      requires Valid() && p in nodes && i <= |p|
      ensures p[..i] in nodes
      decreases |p|
    {
      if i < |p| {
        NodeOk(p);
        PrefixPresent(p[..|p| - 1], i);
        assert p[..|p| - 1][..i] == p[..i];
      } else {
        assert p[..i] == p;
      }
    }

    /** Nothing hangs below a path that is not there. */
    lemma NothingBelow(p: Path)
      requires Valid() && p !in nodes
      ensures Childless(nodes, p)
    {
      forall d: nat ensures p + [d] !in nodes {
        assert (p + [d])[..|p|] == p;
        if p + [d] in nodes { NodeOk(p + [d]); }
      }
    }

    static method NewNode(curnode: TTNode<T>, offset: nat, level: nat, ghost path: Path) returns (n: TTNode<T>)
      ensures fresh(n) && n.data == None && n.path == path
      ensures ViewOf(n) == View(level, offset, curnode, seq(DICT_SIZE, _ => null), None)
    {
      n := new TTNode<T>();
      n.level := level;
      n.offset := offset;
      n.data := None;
      n.parent := curnode;
      n.path := path;
    }

    /** Every node carries the path it is filed under. */
    ghost predicate Filed()
      reads this`nodes, this`repr, repr
    {
      Owned() && forall p :: p in nodes ==> nodes[p].path == p
    }

    /** A new node goes into the empty slot of its parent. */
    method Hook(curnode: TTNode<T>, offset: nat, n: TTNode<T>, ghost p: Path)
      requires Valid() && p in nodes && nodes[p] == curnode && p + [offset] !in nodes
      requires Offset(offset) && |p| < maxKeyLength
      requires n !in repr && n.path == p + [offset]
      requires ViewOf(n) == View(|p| + 1, offset, curnode, seq(DICT_SIZE, _ => null), None)
      modifies this`nodes, this`repr, curnode`slots
      ensures Valid() && nodes == old(nodes)[p + [offset] := n] && repr == old(repr) + {n}
    {
      ghost var was, views := nodes, Views();
      assert |curnode.slots| == DICT_SIZE by { NodeOk(p); }
      assert AllOk(was[p + [offset] := n], Added(was, views, p, offset, n), model, maxKeyLength) by {
        NothingBelow(p + [offset]);
        AddAll(was, views, model, maxKeyLength, p, offset, n);
      }
      HookSlot(curnode, offset, n, p);
    }

    /** The slot, and what it does to the links of all nodes. */
    method HookSlot(curnode: TTNode<T>, offset: nat, n: TTNode<T>, ghost p: Path)
      requires Filed() && p in nodes && nodes[p] == curnode && offset < |curnode.slots|
      requires n !in repr && n.path == p + [offset]
      requires ViewOf(n) == View(|p| + 1, offset, curnode, seq(DICT_SIZE, _ => null), None)
      modifies this`nodes, this`repr, curnode`slots
      ensures nodes == old(nodes)[p + [offset] := n] && repr == old(repr) + {n} && Filed()
      ensures Views() == Added(old(nodes), old(Views()), p, offset, n)
    {
      SetSlot(curnode, offset, n, p);
      nodes := nodes[p + [offset] := n];
      repr := repr + {n};
    }

    /** One slot of one node. */
    method SetSlot(node: TTNode<T>, offset: nat, to: TTNode?<T>, ghost p: Path)
      requires Filed() && p in nodes && nodes[p] == node && offset < |node.slots|
      modifies node`slots
      ensures Filed() && Views() == old(Views())[p := old(Views())[p].(slots := old(node.slots)[offset := to])]
    {
      node.slots := node.slots[offset := to];
    }

    /** The body of the insertion loop: a fresh node in an empty slot. */
    method Attach(curnode: TTNode<T>, offset: nat, level: nat, ghost p: Path) returns (n: TTNode<T>)
      requires Valid() && p in nodes && nodes[p] == curnode && p + [offset] !in nodes
      requires Offset(offset) && level == |p| + 1 <= maxKeyLength
      modifies this`nodes, this`repr, curnode`slots
      ensures Valid() && fresh(n)
      ensures nodes == old(nodes)[p + [offset] := n] && repr == old(repr) + {n}
    {
      n := NewNode(curnode, offset, level, p + [offset]);
      Hook(curnode, offset, n, p);
    }

    /** Taking an empty leaf out of its parent's slot. */
    method Detach(curnode: TTNode<T>, ghost above: TTNode<T>, ghost p: Path, ghost c: nat)
      requires Valid() && p in nodes && nodes[p] == above
      requires p + [c] in nodes && nodes[p + [c]] == curnode
      requires p + [c] !in model && Childless(nodes, p + [c])
      modifies this`nodes, above`slots
      ensures Valid() && nodes == old(nodes) - {p + [c]}
    {
      RemoveAll(nodes, Views(), model, maxKeyLength, p, c);
      assert (p + [c])[..|p|] == p;
      DetachSlot(curnode, above, p, c);
    }

    /** The slot, and what it does to the links of all nodes. */
    method DetachSlot(curnode: TTNode<T>, ghost above: TTNode<T>, ghost p: Path, ghost c: nat)
      requires Filed() && p in nodes && nodes[p] == above && p + [c] in nodes && c < |above.slots|
      requires curnode.parent == above && curnode.offset == c
      modifies this`nodes, above`slots
      ensures nodes == old(nodes) - {p + [c]} && Filed()
      ensures Views() == Removed(old(Views()), p, c)
    {
      SetSlot(curnode.parent, curnode.offset, null, p);
      nodes := nodes - {p + [c]};
    }

    ghost predicate Tidy()
      reads this`nodes, this`model
    {
      Pruned(nodes.Keys, model.Keys)
    }

    /** The shape of a tidy trie is determined by its elements: the nodes are exactly
        the beginnings of the stored paths. */
    lemma TidyShape()
      requires Valid() && Tidy()
      ensures forall p :: p in nodes <==> p == [] || Leads(model.Keys, p)
    {
      forall p | Leads(model.Keys, p) ensures p in nodes { LedToPresent(p); }
    }

    lemma LedToPresent(p: Path)
      requires Valid() && Leads(model.Keys, p)
      ensures p in nodes
    {
      var q :| q in model.Keys && p <= q;
      PrefixPresent(q, |p|);
      assert q[..|p|] == p;
    }

    static method IsEmpty(node: TTNode<T>) returns (empty: bool)
      ensures empty <==> node.data == None && forall c :: 0 <= c < |node.slots| ==> node.slots[c] == null
    {
      empty := false;
      if node.data == None {
        empty := true;
        for c := 0 to |node.slots|
          invariant empty
          invariant forall d :: 0 <= d < c ==> node.slots[d] == null
        {
          if node.slots[c] != null {
            return false;
          }
        }
      }
    }

    lemma ChildrenAreSlots(p: Path)
      requires Valid() && p in nodes
      ensures |nodes[p].slots| == DICT_SIZE
      ensures forall d: nat :: d < DICT_SIZE && nodes[p].slots[d] != null ==> p + [d] in nodes && nodes[p].slots[d] == nodes[p + [d]]
      ensures forall d: nat :: p + [d] in nodes ==> d < DICT_SIZE && Offset(d) && nodes[p].slots[d] == nodes[p + [d]]
    {
      NodeOk(p);
      forall d: nat | p + [d] in nodes ensures d < DICT_SIZE && Offset(d) {
        NodeOk(p + [d]);
        assert (p + [d])[|p|] == d;
      }
    }

    lemma AboveOk(c: Path)
      requires Valid() && c in nodes && c != []
      ensures c[..|c| - 1] in nodes && nodes[c].parent == nodes[c[..|c| - 1]]
      ensures nodes[c[..|c| - 1]].parent == null <==> c[..|c| - 1] == []
    {
      NodeOk(c);
      NodeOk(c[..|c| - 1]);
    }

    /** One round of the loop below: drop the node if it is empty, go on to its parent. */
    method CleanOne(curnode: TTNode<T>, ghost c: Path) returns (next: TTNode<T>)
      requires Valid() && c in nodes && nodes[c] == curnode && c != []
      modifies this`nodes, this`repr, repr
      ensures Valid() && repr == old(repr) && (nodes == old(nodes) || nodes == old(nodes) - {c})
      ensures c[..|c| - 1] in nodes && nodes[c[..|c| - 1]] == next && (c[..|c| - 1] == [] <==> next.parent == null)
      ensures old(PrunedBut(nodes.Keys, model.Keys, c)) ==> PrunedBut(nodes.Keys, model.Keys, c[..|c| - 1])
    {
      var empty := IsEmpty(curnode);
      AboveOk(c);
      next := curnode.parent;
      if empty {
        DropEmpty(curnode, next, c);
      } else {
        if PrunedBut(nodes.Keys, model.Keys, c) { KeptStep(c); }
      }
    }

    method DropEmpty(curnode: TTNode<T>, ghost above: TTNode<T>, ghost c: Path)
      requires Valid() && c in nodes && nodes[c] == curnode && c != []
      requires c[..|c| - 1] in nodes && nodes[c[..|c| - 1]] == above
      requires curnode.data == None && forall d :: 0 <= d < |curnode.slots| ==> curnode.slots[d] == null
      modifies this`nodes, above`slots
      ensures Valid() && nodes == old(nodes) - {c}
      ensures old(PrunedBut(nodes.Keys, model.Keys, c)) ==> PrunedBut(nodes.Keys, model.Keys, c[..|c| - 1])
    {
      ghost var p := c[..|c| - 1];
      assert p + [c[|c| - 1]] == c;
      assert c !in model && Childless(nodes, c) by {
        NodeOk(c);
        ChildrenAreSlots(c);
      }
      if PrunedBut(nodes.Keys, model.Keys, c) { PrunedStepRemove(nodes.Keys, model.Keys, c); }
      Detach(curnode, above, p, c[|c| - 1]);
    }

    lemma KeptStep(c: Path)
      requires Valid() && c in nodes && c != [] && PrunedBut(nodes.Keys, model.Keys, c)
      requires nodes[c].data != None || exists d :: 0 <= d < |nodes[c].slots| && nodes[c].slots[d] != null
      ensures PrunedBut(nodes.Keys, model.Keys, c[..|c| - 1])
    {
      ChildrenAreSlots(c);
      KeptLeads(c);
      PrunedStepKeep(nodes.Keys, model.Keys, c);
    }

    /** _TTNode_clean_reverse: walk up to the root and drop the nodes found empty. If at
        the start only beginnings of the node's path could lead nowhere, the result is
        tidy. */
    method CleanReverse(node: TTNode<T>, ghost p: Path)
      requires Valid() && p in nodes && nodes[p] == node
      modifies this`nodes, this`repr, repr
      ensures Valid() && Within(nodes, old(nodes)) && repr == old(repr)
      ensures old(PrunedBut(nodes.Keys, model.Keys, p)) ==> Tidy()
    {
      ghost var tidy := PrunedBut(nodes.Keys, model.Keys, p);
      var curnode := node;
      ghost var c := p;
      NodeOk(p);
      while curnode.parent != null
        invariant Valid() && Within(nodes, old(nodes)) && repr == old(repr)
        invariant c in nodes && nodes[c] == curnode && (c == [] <==> curnode.parent == null)
        invariant tidy ==> PrunedBut(nodes.Keys, model.Keys, c)
        decreases |c|
      {
        curnode := CleanOne(curnode, c);
        c := c[..|c| - 1];
      }
    }

    lemma KeptLeads(c: Path)
      requires Valid() && c in nodes && |nodes[c].slots| == DICT_SIZE && PrunedBut(nodes.Keys, model.Keys, c)
      requires nodes[c].data != None || exists d :: 0 <= d < DICT_SIZE && nodes[c].slots[d] != null
      ensures Leads(model.Keys, c)
    {
      NodeOk(c);
      if nodes[c].data != None {
        assert c in model.Keys && c <= c;
      } else {
        var d :| 0 <= d < DICT_SIZE && nodes[c].slots[d] != null;
        ChildrenAreSlots(c);
        assert !(c + [d] <= c);
        ChildLeads(model.Keys, c, d);
      }
    }

    /** remove. */
    method Remove(key: seq<CChar>) returns (ret: Ret)
      requires Valid() && KeyInDictionary(key)
      modifies this, repr
      ensures Valid() && ret == lastReturn
      ensures ret == old(RemoveOutcome(key))
      ensures model == if ret == Success then old(model) - {Fold(key)} else old(model)
      ensures count == if ret == Success then old(count) - 1 else old(count)
      ensures Within(nodes, old(nodes)) && repr == old(repr) && (old(Tidy()) ==> Tidy())
    {
      ret := RemoveKey(key);
      SetReturn(ret);
    }

    /** _setret. */
    method SetReturn(ret: Ret)
      requires Valid()
      modifies this`lastReturn
      ensures Valid() && lastReturn == ret
    {
      lastReturn := ret;
    }

    method RemoveKey(key: seq<CChar>) returns (ret: Ret)
      requires Valid() && KeyInDictionary(key)
      modifies this`nodes, this`model, this`count, this`repr, repr
      ensures Valid()
      ensures ret == old(RemoveOutcome(key))
      ensures model == if ret == Success then old(model) - {Fold(key)} else old(model)
      ensures count == if ret == Success then old(count) - 1 else old(count)
      ensures Within(nodes, old(nodes)) && repr == old(repr) && (old(Tidy()) ==> Tidy())
    {
      if |key| == 0 || |key| > maxKeyLength {
        return BadKey;
      }
      var node;
      node, ret := Walk(key);
      if node == null {
        return ret;
      }
      NodeOk(Fold(key));
      if node.data == None {
        return NotFound;
      }
      DeleteData(node, Fold(key));
      return Success;
    }

    ghost function RemoveOutcome(key: seq<CChar>): Ret
      reads this`nodes, this`model
    {
      if BadLength(key) then BadKey
      else if WalkFailure(key) != Success then WalkFailure(key)
      else if Fold(key) !in model then NotFound
      else Success
    }

    /** _TTNode_delete_data. */
    method DeleteData(node: TTNode<T>, ghost p: Path)
      requires Valid() && p in nodes && nodes[p] == node && p in model
      modifies this`nodes, this`model, this`count, this`repr, repr
      ensures Valid() && model == old(model) - {p} && count == old(count) - 1
      ensures Within(nodes, old(nodes)) && repr == old(repr)
      ensures old(Tidy()) ==> Tidy()
    {
      DropData(node, p);
      count := count - 1;
    }

    method DropData(node: TTNode<T>, ghost p: Path)
      requires Valid() && p in nodes && nodes[p] == node && p in model
      modifies this`nodes, this`model, this`repr, repr
      ensures Valid() && model == old(model) - {p}
      ensures Within(nodes, old(nodes)) && repr == old(repr)
      ensures old(Tidy()) ==> Tidy()
    {
      if Tidy() { KeyRemoved(nodes.Keys, model.Keys, p); }
      ClearData(node, p);
      CleanReverse(node, p);
    }

    method ClearData(node: TTNode<T>, ghost p: Path)
      requires Valid() && p in nodes && nodes[p] == node
      modifies this`model, node`data
      ensures Valid() && model == old(model) - {p}
    {
      ghost var views := Views();
      assert AllOk(nodes, views[p := views[p].(data := None)], model - {p}, maxKeyLength) by {
        ChangeElement(nodes, views, model, maxKeyLength, p, model - {p});
      }
      node.data := None;
      model := model - {p};
      assert Views() == views[p := views[p].(data := None)];
    }

    method StoreData(node: TTNode<T>, value: T, ghost p: Path)
      requires Valid() && p in nodes && nodes[p] == node && p != []
      modifies this`model, node`data
      ensures Valid() && model == old(model)[p := value]
    {
      ghost var views := Views();
      assert AllOk(nodes, views[p := views[p].(data := Some(value))], model[p := value], maxKeyLength) by {
        ChangeElement(nodes, views, model, maxKeyLength, p, model[p := value]);
      }
      node.data := Some(value);
      model := model[p := value];
      assert Views() == views[p := views[p].(data := Some(value))];
    }

    /** What insert reports, with memory for a given number of further nodes. */
    ghost function InsertOutcome(key: seq<CChar>, memory: nat): Ret
      reads this`nodes
    {
      if BadLength(key) then BadKey else DescentOutcome(nodes.Keys, key, 0, memory)
    }

    /** A descent that allocates the nodes it misses. */
    method Descend(key: seq<CChar>, memory: nat) returns (node: TTNode<T>, ret: Ret, ghost reached: nat)
      requires Valid() && KeyInDictionary(key) && |key| <= maxKeyLength
      modifies this`nodes, this`repr, repr
      ensures Valid() && reached <= |key| && Descended(old(nodes), nodes, key, reached, node)
      ensures forall n :: n in repr ==> n in old(repr) || fresh(n)
      ensures ret == DescentOutcome(old(nodes.Keys), key, 0, memory)
      ensures ret == Success ==> reached == |key|
      ensures ret == BadIndex ==> reached < |key| && !Accepted(key[reached])
    {
      var curnode: TTNode<T> := root;
      var left := memory;
      ghost var was := nodes;
      assert Descended(nodes, nodes, key, 0, root) by { assert Beginnings(Fold(key[..0])) == {[]}; }
      for i := 0 to |key|
        invariant Valid() && Descended(was, nodes, key, i, curnode)
        invariant forall n :: n in repr ==> n in old(repr) || fresh(n)
        invariant DescentOutcome(was.Keys, key, 0, memory) == DescentOutcome(was.Keys, key, i, left)
      {
        var child, step;
        child, left, step := DescendStep(key, i, curnode, left, was);
        if child == null {
          return curnode, step, i;
        }
        curnode := child;
      }
      return curnode, Success, |key|;
    }

    /** The body of the loop: the next node, or the reason there is none. */
    method DescendStep(key: seq<CChar>, i: nat, curnode: TTNode<T>, left: nat, ghost was: map<Path, TTNode<T>>)
      returns (child: TTNode?<T>, left': nat, step: Ret)
      requires Valid() && KeyInDictionary(key) && i < |key| <= maxKeyLength && Descended(was, nodes, key, i, curnode)
      modifies this`nodes, this`repr, curnode`slots
      ensures Valid() && forall n :: n in repr ==> n in old(repr) || fresh(n)
      ensures child != null ==> Descended(was, nodes, key, i + 1, child)
      ensures child == null ==> nodes == old(nodes) && (step == NoMemory || (step == BadIndex && !Accepted(key[i])))
      ensures DescentOutcome(was.Keys, key, i, left)
           == if child != null then DescentOutcome(was.Keys, key, i + 1, left') else step
    {
      if DictIndex(key[i]) > DICT_SIZE {
        return null, left, BadIndex;
      }
      child, left' := DescendAt(key, i, curnode, left, was);
      step := if child == null then NoMemory else Success;
    }

    method DescendAt(key: seq<CChar>, i: nat, curnode: TTNode<T>, left: nat, ghost was: map<Path, TTNode<T>>)
      returns (child: TTNode?<T>, left': nat)
      requires Valid() && i < |key| <= maxKeyLength && Accepted(key[i]) && Descended(was, nodes, key, i, curnode)
      modifies this`nodes, this`repr, curnode`slots
      ensures Valid() && forall n :: n in repr ==> n in old(repr) || fresh(n)
      ensures child == null <==> Fold(key[..i + 1]) !in was && left == 0
      ensures child == null ==> nodes == old(nodes)
      ensures child != null ==>
                && Descended(was, nodes, key, i + 1, child)
                && left' == if Fold(key[..i + 1]) in was then left else left - 1
    {
      ghost var p := Fold(key[..i]);
      var offset := DictIndex(key[i]);
      assert p + [offset] == Fold(key[..i + 1]) && Offset(offset) && (p + [offset] in nodes <==> p + [offset] in was) by {
        DescendFacts(was.Keys, key, i);
      }
      child, left' := DescendOne(curnode, offset, i + 1, left, p);
      if child != null { DescendedNext(was, old(nodes), nodes, key, i, curnode, child); }
    }

    /** One level down, with a new node where there is none. */
    method DescendOne(curnode: TTNode<T>, offset: nat, level: nat, left: nat, ghost p: Path)
      returns (child: TTNode?<T>, left': nat)
      requires Valid() && p in nodes && nodes[p] == curnode
      requires Offset(offset) && level == |p| + 1 <= maxKeyLength
      modifies this`nodes, this`repr, curnode`slots
      ensures Valid() && forall n :: n in repr ==> n in old(repr) || fresh(n)
      ensures p + [offset] in old(nodes) ==> child == old(nodes)[p + [offset]] && left' == left && nodes == old(nodes)
      ensures p + [offset] !in old(nodes) && left == 0 ==> child == null && nodes == old(nodes)
      ensures p + [offset] !in old(nodes) && left > 0 ==>
                child != null && fresh(child) && left' == left - 1 && nodes == old(nodes)[p + [offset] := child]
    {
      left' := left;
      child := SlotOf(curnode, offset, p);
      if child == null && left > 0 {
        left' := left - 1;
        child := Attach(curnode, offset, level, p);
      }
    }

    method SlotOf(node: TTNode<T>, offset: nat, ghost p: Path) returns (child: TTNode?<T>)
      requires Valid() && p in nodes && nodes[p] == node && offset < DICT_SIZE
      ensures child == if p + [offset] in nodes then nodes[p + [offset]] else null
    {
      NodeOk(p);
      return node.slots[offset];
    }

    lemma BeginningsPresent(p: Path)
      requires Valid() && p in nodes
      ensures Beginnings(p) <= nodes.Keys
    {
      forall q | q in Beginnings(p) ensures q in nodes {
        PrefixPresent(p, |q|);
        assert p[..|q|] == q;
      }
    }

    /** A path that is not there leads nowhere, and stays so while no element is added. */
    lemma AbsentLeadsNowhere(p: Path)
      requires Valid()
      ensures p !in nodes ==> !Leads(model.Keys, p)
    {
      if Leads(model.Keys, p) { LedToPresent(p); }
    }

    /** insert, given memory for a number of further nodes. A key with a rejected
        character in the middle leaves the nodes built so far behind: then, and only
        then, the trie is no longer tidy, unless those nodes were there before. */
    method Insert(key: seq<CChar>, value: T, memory: nat) returns (data: Option<T>)
      requires Valid() && KeyInDictionary(key)
      modifies this, repr
      ensures Valid()
      ensures forall n :: n in repr ==> n in old(repr) || fresh(n)
      ensures lastReturn == old(InsertOutcome(key, memory))
      ensures data == if lastReturn == Success then Some(value) else None
      ensures model == if lastReturn == Success then old(model)[Fold(key) := value] else old(model)
      ensures count == if lastReturn == Success then old(count) + 1 else old(count)
      ensures old(Tidy()) ==>
                (Tidy() <==> lastReturn != BadIndex || Fold(key[..FirstRejected(key)]) in old(nodes))
    {
      var ret := InsertKey(key, value, memory);
      data := if ret == Success then Some(value) else None;
      Report(ret);
    }

    /** count_ and last_return_ at the end of an insertion. */
    method Report(ret: Ret)
      requires Valid()
      modifies this`count, this`lastReturn
      ensures Valid() && lastReturn == ret && count == old(count) + if ret == Success then 1 else 0
    {
      count, lastReturn := if ret == Success then count + 1 else count, ret;
    }

    method InsertKey(key: seq<CChar>, value: T, memory: nat) returns (ret: Ret)
      requires Valid() && KeyInDictionary(key)
      modifies this`nodes, this`model, this`repr, repr
      ensures Valid()
      ensures forall n :: n in repr ==> n in old(repr) || fresh(n)
      ensures ret == old(InsertOutcome(key, memory))
      ensures model == if ret == Success then old(model)[Fold(key) := value] else old(model)
      ensures old(Tidy()) ==>
                (Tidy() <==> ret != BadIndex || Fold(key[..FirstRejected(key)]) in old(nodes))
    {
      if |key| == 0 || |key| > maxKeyLength {
        return BadKey;
      }
      ghost var dead := Fold(key[..FirstRejected(key)]);
      assert (dead in nodes ==> Beginnings(dead) <= nodes.Keys) && (dead !in nodes ==> !Leads(model.Keys, dead)) by {
        AbsentLeadsNowhere(dead);
        if dead in nodes { BeginningsPresent(dead); }
      }
      ghost var was := nodes;
      var node;
      ghost var reached;
      node, ret, reached := Descend(key, memory);
      if ret == Success {
        FinishInsert(node, key, value, was);
      } else if ret == BadIndex {
        assert reached == FirstRejected(key) by { RejectedIsFirst(key, reached); }
        if Pruned(was.Keys, model.Keys) { LeftBehind(was.Keys, nodes.Keys, model.Keys, dead); }
      } else {
        AbandonInsert(node, key, reached, was);
      }
    }

    method FinishInsert(node: TTNode<T>, key: seq<CChar>, value: T, ghost was: map<Path, TTNode<T>>)
      requires Valid() && Descended(was, nodes, key, |key|, node) && |key| > 0
      modifies this`model, node`data
      ensures Valid() && model == old(model)[Fold(key) := value]
      ensures Pruned(was.Keys, old(model.Keys)) ==> Tidy()
    {
      assert key[..|key|] == key;
      StoreData(node, value, Fold(key));
      if Pruned(was.Keys, old(model.Keys)) {
        KeyAdded(was.Keys, old(model.Keys), Fold(key));
        assert model.Keys == old(model.Keys) + {Fold(key)};
      }
    }

    method AbandonInsert(node: TTNode<T>, key: seq<CChar>, ghost reached: nat, ghost was: map<Path, TTNode<T>>)
      requires Valid() && reached <= |key| && Descended(was, nodes, key, reached, node)
      modifies this`nodes, this`repr, repr
      ensures Valid() && Within(nodes, old(nodes)) && repr == old(repr)
      ensures Pruned(was.Keys, model.Keys) ==> Tidy()
    {
      if Pruned(was.Keys, model.Keys) { PathAdded(was.Keys, model.Keys, Fold(key[..reached])); }
      CleanReverse(node, Fold(key[..reached]));
    }

    /** The table of nodes with their links and the elements, as one value. */
    ghost function Snapshot(): Source<T>
      requires Owned()
      reads this`nodes, this`model, this`repr, repr
    {
      Source(nodes, Views(), model, repr)
    }

    /** _TTNode_get_key: up to the root, collecting characters, then reversed. */
    static method GetKey(node: TTNode<T>, ghost from: Source<T>, ghost maxLength: nat, ghost p: Path) returns (key: seq<CChar>)
      requires Sound(from, maxLength) && Stands(from) && p in from.nodes && from.nodes[p] == node
      ensures Offsets(p) && key == Unfold(p)
    {
      SourceNode(from, maxLength, p);
      var reversed: seq<CChar> := [];
      var curnode := node;
      ghost var i: nat := |p|;
      assert p[..i] == p;
      while curnode.parent != null
        invariant i <= |p| && p[..i] in from.nodes && from.nodes[p[..i]] == curnode
        invariant |reversed| == |p| - i
        invariant forall j :: 0 <= j < |reversed| ==> reversed[j] == ReadChar(p[|p| - 1 - j])
        decreases i
      {
        SourceNode(from, maxLength, p[..i]);
        assert p[..i][..i - 1] == p[..i - 1];
        reversed := reversed + [ReadChar(curnode.offset)];
        curnode := curnode.parent;
        i := i - 1;
      }
      SourceNode(from, maxLength, p[..i]);
      assert i == 0;
      key := seq(|reversed|, j requires 0 <= j < |reversed| => reversed[|reversed| - 1 - j]);
    }

    /** The other trie stands as it was taken down and shares no node with this one. */
    ghost predicate CopiesFrom(from: Source<T>)
      reads this`repr, this`model, from.own
    {
      Stands(from) && from.own !! repr && Within(model, from.model)
    }

    /** _TTNode_insert_tree: reinsert every element below a node of another trie. */
    method InsertTree(node: TTNode<T>, ghost from: Source<T>, ghost p: Path)
      requires Valid() && Sound(from, maxKeyLength) && CopiesFrom(from) && p in from.nodes && from.nodes[p] == node
      modifies this, repr
      ensures Valid() && CopiesFrom(from)
      ensures forall n :: n in repr ==> n in old(repr) || fresh(n)
      ensures model.Keys == old(model.Keys) + Below(from.model.Keys, p, DICT_SIZE)
      ensures old(Tidy()) ==> Tidy()
      decreases maxKeyLength - |p|, 2
    {
      BelowOwn(from.model.Keys, p);
      InsertOwn(node, from, p);
      InsertChildren(node, from, p, old(model.Keys));
    }

    method InsertOwn(node: TTNode<T>, ghost from: Source<T>, ghost p: Path)
      requires Valid() && Sound(from, maxKeyLength) && CopiesFrom(from) && p in from.nodes && from.nodes[p] == node
      modifies this, repr
      ensures Valid() && CopiesFrom(from)
      ensures forall n :: n in repr ==> n in old(repr) || fresh(n)
      ensures model.Keys == old(model.Keys) + if p in from.model then {p} else {}
      ensures old(Tidy()) ==> Tidy()
    {
      SourceNode(from, maxKeyLength, p);
      if node.data != None {
        var key := GetKey(node, from, maxKeyLength, p);
        UnfoldRoundTrip(p);
        InsertOne(key, node.data.value, from);
      }
    }

    method InsertOne(key: seq<CChar>, value: T, ghost from: Source<T>)
      requires Valid() && Sound(from, maxKeyLength) && CopiesFrom(from) && KeyAccepted(key) && !BadLength(key)
      requires Fold(key) in from.model && from.model[Fold(key)] == value
      modifies this, repr
      ensures Valid() && CopiesFrom(from)
      ensures forall n :: n in repr ==> n in old(repr) || fresh(n)
      ensures model.Keys == old(model.Keys) + {Fold(key)}
      ensures old(Tidy()) ==> Tidy()
    {
      ghost var was := model;
      InsertEnough(key, value);
      assert Within(model, from.model) by { WithinPut(was, from.model, Fold(key), value); }
    }

    /** An insertion that cannot fail. */
    method InsertEnough(key: seq<CChar>, value: T)
      requires Valid() && KeyAccepted(key) && !BadLength(key)
      modifies this, repr
      ensures Valid() && model == old(model)[Fold(key) := value]
      ensures forall n :: n in repr ==> n in old(repr) || fresh(n)
      ensures old(Tidy()) ==> Tidy()
    {
      var _ := Insert(key, value, |key|);
    }

    /** The loop over the slots of the node. */
    method InsertChildren(node: TTNode<T>, ghost from: Source<T>, ghost p: Path, ghost base: set<Path>)
      requires Valid() && Sound(from, maxKeyLength) && CopiesFrom(from) && p in from.nodes && from.nodes[p] == node
      requires model.Keys == base + Below(from.model.Keys, p, 0)
      modifies this, repr
      ensures Valid() && CopiesFrom(from)
      ensures forall n :: n in repr ==> n in old(repr) || fresh(n)
      ensures model.Keys == base + Below(from.model.Keys, p, DICT_SIZE)
      ensures old(Tidy()) ==> Tidy()
      decreases maxKeyLength - |p|, 1
    {
      ghost var tidy := Tidy();
      assert |p| <= maxKeyLength by { SourceNode(from, maxKeyLength, p); }
      for c := 0 to DICT_SIZE
        invariant Valid() && CopiesFrom(from)
        invariant forall n :: n in repr ==> n in old(repr) || fresh(n)
        invariant model.Keys == base + Below(from.model.Keys, p, c)
        invariant tidy ==> Tidy()
      {
        InsertChild(node, from, p, c, base);
      }
    }

    method InsertChild(node: TTNode<T>, ghost from: Source<T>, ghost p: Path, c: nat, ghost base: set<Path>)
      requires Valid() && Sound(from, maxKeyLength) && CopiesFrom(from) && p in from.nodes && from.nodes[p] == node
      requires c < DICT_SIZE && |p| <= maxKeyLength && model.Keys == base + Below(from.model.Keys, p, c)
      modifies this, repr
      ensures Valid() && CopiesFrom(from)
      ensures forall n :: n in repr ==> n in old(repr) || fresh(n)
      ensures model.Keys == base + Below(from.model.Keys, p, c + 1)
      ensures old(Tidy()) ==> Tidy()
      decreases maxKeyLength - |p|, 0
    {
      assert base + Below(from.model.Keys, p, c) + Below(from.model.Keys, p + [c], DICT_SIZE)
          == base + Below(from.model.Keys, p, c + 1) by {
        SourceOffsets(from, maxKeyLength);
        NextSlot(base, from.model.Keys, p, c);
      }
      SourceChild(from, maxKeyLength, p, c);
      if node.slots[c] != null {
        InsertTree(node.slots[c], from, p + [c]);
      }
    }

    /** The copy constructor: the same elements in nodes of its own, and no dead nodes,
        even if the other trie has some. */
    constructor CopyOf(other: TrieTree<T>)
      requires other.Valid()
      ensures Valid() && maxKeyLength == other.maxKeyLength && repr !! other.repr
      ensures model == other.model && Tidy()
    {
      maxKeyLength := other.maxKeyLength;
      count := 0;
      lastReturn := Success;
      var r := new TTNode<T>();
      root := r;
      nodes := map[[] := r];
      model := map[];
      repr := {r};
      new;
      FreshRoot();
      Fill(other);
    }

    method Fill(other: TrieTree<T>)
      requires Valid() && model == map[] && Tidy()
      requires other.Valid() && maxKeyLength == other.maxKeyLength && repr !! other.repr
      modifies this, repr
      ensures Valid() && model == other.model && Tidy() && repr !! other.repr
    {
      ghost var from := other.Snapshot();
      other.SnapshotOk();
      assert Below(from.model.Keys, [], DICT_SIZE) == from.model.Keys by {
        SourceOffsets(from, maxKeyLength);
        BelowRoot(from.model.Keys);
      }
      InsertTree(other.root, from, []);
      SameElements(model, from.model);
    }

    lemma SnapshotOk()
      requires Valid()
      ensures Sound(Snapshot(), maxKeyLength) && Stands(Snapshot()) && Snapshot().nodes[[]] == root
    {
    }

    lemma FreshRoot()
      requires nodes == map[[] := root] && repr == {root} && model == map[] && root.path == [] && root.data == None
      requires root.parent == null && root.slots == seq(DICT_SIZE, _ => null)
      ensures Valid() && Tidy()
    {
      RootOk(root, maxKeyLength);
      assert Views() == map[[] := ViewOf(root)];
    }
  }

  lemma RootOk<T>(r: TTNode<T>, maxLength: nat)
    requires r.parent == null && r.data == None && r.slots == seq(DICT_SIZE, _ => null)
    ensures AllOk(map[[] := r], map[[] := ViewOf(r)], map[], maxLength)
  {
    assert ViewOk(map[[] := r], [], ViewOf(r));
  }
}
