/** The tree of named nodes of libcontainer/node_tree.cc, linked through first child,
    next and previous sibling and parent. */
module NodeTree {
  import opened Common
  import opened NodePaths

  /** Where a node lies: how deep, below which node, and which of its children it is. */
  datatype Spot = Spot(depth: nat, above: ElementAny?, index: nat)

  /** Which children every node has, in order. */
  datatype Table = Table(kids: map<ElementAny, seq<ElementAny>>, spot: map<ElementAny, Spot>)

  ghost predicate Sound(t: Table) {
    && t.spot.Keys == t.kids.Keys
    && forall n, i :: n in t.kids && 0 <= i < |t.kids[n]| ==>
         t.kids[n][i] in t.kids && t.spot[t.kids[n][i]] == Spot(t.spot[n].depth + 1, n, i)
  }

  /** The position of the first node of that name. */
  function FirstNamed(list: seq<ElementAny>, name: string): (k: nat)
    ensures k <= |list|
    ensures forall j :: 0 <= j < k ==> list[j].name != name
    ensures k < |list| ==> list[k].name == name
  {
    if list == [] || list[0].name == name then 0 else 1 + FirstNamed(list[1..], name)
  }

  ghost function Child(t: Table, n: ElementAny, name: string): (c: ElementAny?)
    requires Sound(t) && n in t.kids
    ensures c != null ==> c in t.kids && t.spot[c] == Spot(t.spot[n].depth + 1, n, FirstNamed(t.kids[n], name)) && c.name == name
  {
    var k := FirstNamed(t.kids[n], name);
    if k < |t.kids[n]| then t.kids[n][k] else null
  }

  /** Where a path leads from a node, name by name. */
  ghost function Lookup(t: Table, n: ElementAny, p: Path): (r: ElementAny?)
    requires Sound(t) && n in t.kids
    ensures r != null ==> r in t.kids && t.spot[r].depth == t.spot[n].depth + |p|
    decreases |p|
  {
    if p == [] then n
    else
      var above := Lookup(t, n, p[..|p| - 1]);
      if above == null then null else Child(t, above, p[|p| - 1])
  }

  ghost function Added(t: Table, p: ElementAny, e: ElementAny): Table
    requires p in t.kids && p in t.spot
  {
    Table(t.kids[p := t.kids[p] + [e]][e := []], t.spot[e := Spot(t.spot[p].depth + 1, p, |t.kids[p]|)])
  }

  lemma AddedSound(t: Table, p: ElementAny, e: ElementAny)
    requires Sound(t) && p in t.kids && e !in t.kids
    ensures Sound(Added(t, p, e))
  {
  }

  lemma {:induction false} FirstNamedAppend(list: seq<ElementAny>, e: ElementAny, name: string)
    ensures FirstNamed(list, name) < |list| ==> FirstNamed(list + [e], name) == FirstNamed(list, name)
    ensures FirstNamed(list, name) == |list| ==>
              FirstNamed(list + [e], name) == (if e.name == name then |list| else |list| + 1)
  {
    if list != [] && list[0].name != name {
      assert (list + [e])[1..] == list[1..] + [e];
      FirstNamedAppend(list[1..], e, name);
    }
  }

  lemma AddedChild(t: Table, p: ElementAny, e: ElementAny, n: ElementAny, name: string)
    requires Sound(t) && p in t.kids && e !in t.kids && n in t.kids && Sound(Added(t, p, e))
    ensures Child(Added(t, p, e), n, name)
         == if Child(t, n, name) == null && n == p && name == e.name then e else Child(t, n, name)
  {
    FirstNamedAppend(t.kids[p], e, name);
  }

  /** The node that a path leads to knows the path: no two paths lead to one node. */
  lemma {:induction false} OnePath(t: Table, n: ElementAny, p: Path, q: Path)
    requires Sound(t) && n in t.kids && Lookup(t, n, p) != null && Lookup(t, n, p) == Lookup(t, n, q)
    ensures p == q
    decreases |p|
  {
    assert |p| == |q|;
    if p != [] {
      var a, b := Lookup(t, n, p[..|p| - 1]), Lookup(t, n, q[..|q| - 1]);
      assert a == b && p[|p| - 1] == q[|q| - 1];
      OnePath(t, n, p[..|p| - 1], q[..|q| - 1]);
      assert p == p[..|p| - 1] + [p[|p| - 1]] && q == q[..|q| - 1] + [q[|q| - 1]];
    }
  }

  /** A new leaf is found by one path more, and changes nothing for the others. */
  lemma {:induction false} AddedLookup(t: Table, p: ElementAny, e: ElementAny, n: ElementAny, at: Path, q: Path)
    requires Sound(t) && p in t.kids && e !in t.kids && n in t.kids && Sound(Added(t, p, e))
    requires Lookup(t, n, at) == p && Child(t, p, e.name) == null
    ensures Lookup(Added(t, p, e), n, q) == if q == at + [e.name] then e else Lookup(t, n, q)
    decreases |q|
  {
    if q != [] {
      var front, last := q[..|q| - 1], q[|q| - 1];
      AddedLookup(t, p, e, n, at, front);
      assert q == front + [last];
      var above := Lookup(Added(t, p, e), n, front);
      if front == at + [e.name] {
        assert above == e && Added(t, p, e).kids[e] == [];
        LongerIsAbsent(t, n, at, e.name, q);
      } else if above != null {
        AddedChild(t, p, e, above, last);
        if above == p { OnePath(t, n, at, front); }
      }
    }
  }

  /** Nothing lies below a name that is not there. */
  lemma LongerIsAbsent(t: Table, n: ElementAny, at: Path, name: string, q: Path)
    requires Sound(t) && n in t.kids && Lookup(t, n, at) != null && Child(t, Lookup(t, n, at), name) == null
    requires |q| == |at| + 2 && q[..|q| - 1] == at + [name]
    ensures Lookup(t, n, q) == null
  {
    assert (at + [name])[..|at|] == at;
    assert Lookup(t, n, at + [name]) == null;
  }

  /** Any new leaf: what was found before is found still. */
  lemma {:induction false} AddedKeeps(t: Table, p: ElementAny, e: ElementAny, n: ElementAny, q: Path)
    requires Sound(t) && p in t.kids && e !in t.kids && n in t.kids && Sound(Added(t, p, e))
    requires Lookup(t, n, q) != null
    ensures Lookup(Added(t, p, e), n, q) == Lookup(t, n, q)
    decreases |q|
  {
    if q != [] {
      var front := q[..|q| - 1];
      AddedKeeps(t, p, e, n, front);
      AddedChild(t, p, e, Lookup(t, n, front), q[|q| - 1]);
    }
  }

  ghost predicate LinkAt(n: ElementAny, list: seq<ElementAny>, i: nat)
    requires i < |list|
    reads list[i]
  {
    && list[i].parent == n
    && list[i].prev == (if i == 0 then null else list[i - 1])
    && list[i].next == (if i + 1 < |list| then list[i + 1] else null)
  }

  /** The children of a node are linked in their order. */
  ghost predicate LinkedAt(n: ElementAny, list: seq<ElementAny>)
    reads n, list
  {
    && n.child == (if list == [] then null else list[0])
    && forall i {:trigger LinkAt(n, list, i)} :: 0 <= i < |list| ==> LinkAt(n, list, i)
  }

  ghost predicate Linked(t: Table)
    requires Sound(t)
    reads t.kids.Keys
  {
    forall n :: n in t.kids ==> LinkedAt(n, t.kids[n])
  }

  /** All old nodes and the leaf linked, the tree with the leaf is. */
  lemma LinkedAdded(t: Table, p: ElementAny, e: ElementAny)
    requires Sound(t) && p in t.kids && e !in t.kids && Sound(Added(t, p, e))
    requires LinkedAt(p, t.kids[p] + [e]) && LinkedAt(e, [])
    requires forall n :: n in t.kids && n != p ==> LinkedAt(n, t.kids[n])
    ensures Linked(Added(t, p, e))
  {
  }

  lemma KidsDistinct(t: Table, n: ElementAny)
    requires Sound(t) && n in t.kids
    ensures Distinct(t.kids[n])
  {
  }

  ghost function Last(list: seq<ElementAny>): set<ElementAny> {
    if list == [] then {} else {list[|list| - 1]}
  }

  class ElementAny {
    const name: string
    var next: ElementAny?
    var prev: ElementAny?
    var parent: ElementAny?
    var child: ElementAny?

    constructor (name: string)
      ensures this.name == name && next == null && prev == null && parent == null && child == null
    {
      this.name := name;
      next, prev, parent, child := null, null, null, null;
    }

    /** SearchBrother: this node, else the nearest one before, else the nearest after. */
    method SearchBrother(ename: string, ghost p: ElementAny, ghost list: seq<ElementAny>, ghost i: nat)
      returns (r: ElementAny?, ghost j: nat)
      requires LinkedAt(p, list) && i < |list| && list[i] == this
      ensures r == null ==> forall k :: 0 <= k < |list| ==> list[k].name != ename
      ensures r != null ==> j < |list| && r == list[j] && r.name == ename
      ensures r != null && j < i ==> forall k :: j < k <= i ==> list[k].name != ename
      ensures r != null && j > i ==> forall k :: 0 <= k < j ==> list[k].name != ename
    {
      j := i;
      if name == ename {
        return this, i;
      }
      assert LinkAt(p, list, i);
      var ptr := prev;
      while ptr != null
        invariant 0 <= j <= i && ptr == (if j == 0 then null else list[j - 1])
        invariant forall k :: j <= k <= i ==> list[k].name != ename
        decreases j
      {
        j := j - 1;
        assert LinkAt(p, list, j);
        if ptr.name == ename {
          return ptr, j;
        }
        ptr := ptr.prev;
      }
      ptr := next;
      j := i;
      while ptr != null
        invariant i <= j < |list| && ptr == (if j + 1 < |list| then list[j + 1] else null)
        invariant forall k :: 0 <= k <= j ==> list[k].name != ename
        decreases |list| - j
      {
        j := j + 1;
        assert LinkAt(p, list, j);
        if ptr.name == ename {
          return ptr, j;
        }
        ptr := ptr.next;
      }
      return null, j;
    }

    method SearchChild(ename: string, ghost t: Table) returns (r: ElementAny?)
      requires Sound(t) && Linked(t) && this in t.kids
      ensures r == Child(t, this, ename)
    {
      ghost var list := t.kids[this];
      assert LinkedAt(this, list);
      if child == null {
        return null;
      }
      ghost var j;
      r, j := child.SearchBrother(ename, this, list, 0);
      assert FirstNamed(list, ename) == if r == null then |list| else j;
    }

    /** Search along a path. */
    method Search(path: string, ghost t: Table) returns (r: ElementAny?)
      requires Sound(t) && Linked(t) && this in t.kids
      ensures r == Lookup(t, this, SplitPath(path))
    {
      var parts := SplitPath(path);
      r := this;
      assert parts[..0] == [];
      for i := 0 to |parts|
        invariant r != null && r == Lookup(t, this, parts[..i])
      {
        LookupStep(t, this, parts, i);
        r := r.SearchChild(parts[i], t);
        if r == null {
          return;
        }
      }
      assert parts[..|parts|] == parts;
    }

    /** InsertNext on the first of the children: the element becomes the last. */
    method InsertNext(element: ElementAny, ghost p: ElementAny, ghost list: seq<ElementAny>)
      requires LinkedAt(p, list) && list != [] && list[0] == this && Distinct(list)
      requires element !in list && element.next == null
      modifies Last(list)`next, element`prev, element`parent
      ensures LinkedAt(p, list + [element])
    {
      var ptr := this;
      ghost var i := 0;
      assert LinkAt(p, list, 0);
      while ptr.next != null
        invariant 0 <= i < |list| && LinkedAt(p, list) && LinkAt(p, list, i) && ptr == list[i]
        decreases |list| - i
      {
        ptr := ptr.next;
        i := i + 1;
        assert LinkAt(p, list, i);
      }
      ptr.next := element;
      element.prev := ptr;
      element.parent := parent;
      forall k: nat | k < |list| + 1 ensures LinkAt(p, list + [element], k) {
        if k < |list| { assert old(LinkAt(p, list, k)); }
      }
    }

    method InsertChild(element: ElementAny, ghost list: seq<ElementAny>) returns (r: ElementAny)
      requires LinkedAt(this, list) && Distinct(list)
      requires element !in list && element.next == null && element.prev == null
      modifies this`child, Last(list)`next, element`prev, element`parent
      ensures LinkedAt(this, list + [element]) && r == element
    {
      if child == null {
        child := element;
        element.parent := this;
        return element;
      }
      child.InsertNext(element, this, list);
      return element;
    }

    /** Insert of a new leaf, in the table of all nodes. */
    method InsertLeaf(ename: string, ghost t: Table) returns (r: ElementAny)
      requires Sound(t) && Linked(t) && this in t.kids
      modifies t.kids.Keys
      ensures fresh(r) && r.name == ename
      ensures Sound(Added(t, this, r)) && Linked(Added(t, this, r))
    {
      ghost var list := t.kids[this];
      KidsDistinct(t, this);
      var element := new ElementAny(ename);
      assert LinkedAt(this, list);
      r := InsertChild(element, list);
      AddedSound(t, this, element);
      forall n | n in t.kids && n != this ensures LinkedAt(n, t.kids[n]) {
        assert old(LinkedAt(n, t.kids[n]));
        forall i: nat | i < |t.kids[n]| ensures LinkAt(n, t.kids[n], i) {
          assert old(LinkAt(n, t.kids[n], i)) && t.kids[n][i] !in list;
        }
      }
      LinkedAdded(t, this, element);
    }

    /** Insert along a path: names that are there are followed, and a leaf is added for
        every name from the first one that is not. */
    method Insert(path: string, ghost t: Table) returns (r: ElementAny, ghost t': Table)
      requires Sound(t) && Linked(t) && this in t.kids
      modifies t.kids.Keys
      ensures Sound(t') && Linked(t') && t.kids.Keys <= t'.kids.Keys && fresh(t'.kids.Keys - t.kids.Keys)
      ensures Lookup(t', this, SplitPath(path)) == r
      ensures Inserted(t, t', this, SplitPath(path)) && Keeps(t, t')
      ensures Lookup(t, this, SplitPath(path)) != null ==> t' == t
    {
      var parts := SplitPath(path);
      r := this;
      t' := t;
      var newPath := false;
      InsertedNothing(t, this);
      for i := 0 to |parts|
        invariant Sound(t') && Linked(t') && t.kids.Keys <= t'.kids.Keys && fresh(t'.kids.Keys - t.kids.Keys)
        invariant Walked(t, t', this, parts[..i], r, newPath)
      {
        r, t', newPath := r.InsertOne(parts, i, newPath, t, t', this);
      }
      assert parts[..|parts|] == parts;
    }

    /** One name: to the child of that name, or a new one. */
    method InsertOne(parts: Path, i: nat, newPath: bool, ghost t: Table, ghost t0: Table, ghost top: ElementAny)
      returns (r: ElementAny, ghost t': Table, newPath': bool)
      requires i < |parts| && IsName(parts[i]) && Sound(t) && top in t.kids
      requires Sound(t0) && Linked(t0) && t.kids.Keys <= t0.kids.Keys
      requires Walked(t, t0, top, parts[..i], this, newPath)
      modifies t0.kids.Keys
      ensures Sound(t') && Linked(t') && t0.kids.Keys <= t'.kids.Keys && fresh(t'.kids.Keys - t0.kids.Keys)
      ensures Walked(t, t', top, parts[..i + 1], r, newPath')
    {
      var name := parts[i];
      newPath' := newPath;
      t' := t0;
      assert parts[..i + 1] == parts[..i] + [name];
      if !newPath {
        SplitName(name);
        var search := Search(name, t0);
        WalkedOn(t, top, parts[..i], this, name);
        if search != null {
          return search, t', newPath';
        }
        newPath' := true;
      }
      r := InsertLeaf(name, t0);
      t' := Added(t0, this, r);
      WalkedAdd(t, t0, top, parts[..i], this, newPath, r);
    }
  }

  /** A path of which a beginning leads nowhere leads nowhere. */
  lemma {:induction false} LookupNothing(t: Table, n: ElementAny, p: Path, i: nat)
    requires Sound(t) && n in t.kids && i <= |p| && Lookup(t, n, p[..i]) == null
    ensures Lookup(t, n, p) == null
    decreases |p|
  {
    if i < |p| {
      assert p[..|p| - 1][..i] == p[..i];
      LookupNothing(t, n, p[..|p| - 1], i);
    } else {
      assert p[..i] == p;
    }
  }

  lemma LookupStep(t: Table, n: ElementAny, p: Path, i: nat)
    requires Sound(t) && n in t.kids && i < |p| && Lookup(t, n, p[..i]) != null
    ensures Lookup(t, n, p[..i + 1]) == Child(t, Lookup(t, n, p[..i]), p[i])
    ensures Lookup(t, n, p[..i + 1]) == null ==> Lookup(t, n, p) == null
  {
    assert p[..i + 1][..i] == p[..i];
    if Lookup(t, n, p[..i + 1]) == null { LookupNothing(t, n, p, i + 1); }
  }

  /** All that an insertion adds are the beginnings of its path. */
  ghost predicate Inserted(t: Table, t': Table, n: ElementAny, p: Path)
    requires Sound(t) && Sound(t') && n in t.kids && n in t'.kids
  {
    forall q :: if Lookup(t, n, q) != null then Lookup(t', n, q) == Lookup(t, n, q)
                else Lookup(t', n, q) != null <==> q <= p
  }

  /** Every path that found a node, from anywhere, still finds it. */
  ghost predicate Keeps(t: Table, t': Table)
    requires Sound(t) && Sound(t') && t.kids.Keys <= t'.kids.Keys
  {
    forall n, q :: n in t.kids && Lookup(t, n, q) != null ==> Lookup(t', n, q) == Lookup(t, n, q)
  }

  /** How far an insertion has come. */
  ghost predicate Walked(t: Table, t': Table, top: ElementAny, p: Path, r: ElementAny, newPath: bool)
    requires Sound(t) && Sound(t') && top in t.kids && t.kids.Keys <= t'.kids.Keys
  {
    && Lookup(t', top, p) == r
    && Inserted(t, t', top, p) && Keeps(t, t')
    && if newPath then r in t'.kids && t'.kids[r] == [] && Lookup(t, top, p) == null else t' == t
  }

  lemma InsertedNothing(t: Table, top: ElementAny)
    requires Sound(t) && top in t.kids
    ensures Walked(t, t, top, [], top, false)
  {
    forall q | Lookup(t, top, q) == null ensures !(q <= []) { assert q != []; }
  }

  lemma BeginningsFound(t: Table, n: ElementAny, p: Path, q: Path)
    requires Sound(t) && n in t.kids && q <= p && Lookup(t, n, p) != null
    ensures Lookup(t, n, q) != null
  {
    assert p[..|q|] == q;
    if Lookup(t, n, q) == null { LookupNothing(t, n, p, |q|); }
  }

  lemma WalkedOn(t: Table, top: ElementAny, p: Path, at: ElementAny, name: string)
    requires Sound(t) && top in t.kids && Lookup(t, top, p) == at
    ensures Lookup(t, at, [name]) == Child(t, at, name) == Lookup(t, top, p + [name])
    ensures Lookup(t, top, p + [name]) != null ==> Walked(t, t, top, p + [name], Lookup(t, top, p + [name]), false)
  {
    assert (p + [name])[..|p|] == p && [name][..0] == [];
    if Lookup(t, top, p + [name]) != null {
      forall q | q <= p + [name] ensures Lookup(t, top, q) != null { BeginningsFound(t, top, p + [name], q); }
    }
  }

  lemma WalkedAdd(t: Table, t0: Table, top: ElementAny, p: Path, at: ElementAny, newPath: bool, e: ElementAny)
    requires Sound(t) && Sound(t0) && top in t.kids && t.kids.Keys <= t0.kids.Keys
    requires Walked(t, t0, top, p, at, newPath) && Child(t0, at, e.name) == null
    requires e !in t0.kids && Sound(Added(t0, at, e))
    ensures Walked(t, Added(t0, at, e), top, p + [e.name], e, true)
  {
    var t' := Added(t0, at, e);
    var p' := p + [e.name];
    assert p'[..|p|] == p;
    forall q ensures Lookup(t', top, q) == if q == p' then e else Lookup(t0, top, q) {
      AddedLookup(t0, at, e, top, p, q);
    }
    assert Lookup(t0, top, p') == null;
    forall q | Lookup(t, top, q) == null ensures q <= p' <==> q <= p || q == p' {
      if q <= p' && q != p' { assert q == p'[..|q|] == p[..|q|]; }
    }
    forall n, q | n in t.kids && Lookup(t, n, q) != null ensures Lookup(t', n, q) == Lookup(t, n, q) {
      AddedKeeps(t0, at, e, n, q);
    }
  }
}
