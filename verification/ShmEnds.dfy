/** What pushes and pops do to linked slots when the two ends that the caller goes by need
    not be the ends of the list. */
module ShmEnds {
  import opened Common
  import opened ShmLinks

  // Nodes that are known, linked or not.

  /** No slot, or a slot that has been handed out before and so holds its own index. */
  predicate Known(nodes: seq<Node>, slot: nat) {
    slot == 0 || (slot <= |nodes| && nodes[slot - 1].index == slot)
  }

  /** The links of a node lead to known slots. */
  predicate KnownLinks(nodes: seq<Node>, i: nat)
    requires i < |nodes|
  {
    Known(nodes, nodes[i].prev) && Known(nodes, nodes[i].next)
  }

  predicate Sound(nodes: seq<Node>) {
    forall i :: 0 <= i < |nodes| ==> KnownLinks(nodes, i)
  }

  /** What every statement keeps: links to known slots, and what was known. */
  ghost predicate SoundAfter(nodes: seq<Node>, nodes': seq<Node>) {
    |nodes'| == |nodes| && Sound(nodes') && forall s: nat :: Known(nodes, s) ==> Known(nodes', s)
  }

  lemma NodeSound(nodes: seq<Node>, b: nat, node: Node)
    requires Sound(nodes) && 1 <= b <= |nodes| && node.index == b && Known(nodes, node.prev) && Known(nodes, node.next)
    ensures SoundAfter(nodes, nodes[b - 1 := node])
  {
    var nodes' := nodes[b - 1 := node];
    forall i | 0 <= i < |nodes| ensures KnownLinks(nodes', i) {
      assert KnownLinks(nodes, i);
    }
  }

  /** A node may also get an index while its links stay. */
  lemma IndexSound(nodes: seq<Node>, b: nat)
    requires Sound(nodes) && 1 <= b <= |nodes|
    ensures SoundAfter(nodes, nodes[b - 1 := nodes[b - 1].(index := b)])
  {
    assert KnownLinks(nodes, b - 1);
    NodeSound(nodes, b, nodes[b - 1].(index := b));
  }

  lemma SetNextSound(nodes: seq<Node>, slot: nat, next: nat)
    requires Sound(nodes) && Known(nodes, slot) && Known(nodes, next)
    ensures SoundAfter(nodes, SetNext(nodes, slot, next))
  {
    if slot != 0 {
      assert KnownLinks(nodes, slot - 1);
      NodeSound(nodes, slot, nodes[slot - 1].(next := next));
    }
  }

  lemma SetPrevSound(nodes: seq<Node>, slot: nat, prev: nat)
    requires Sound(nodes) && Known(nodes, slot) && Known(nodes, prev)
    ensures SoundAfter(nodes, SetPrev(nodes, slot, prev))
  {
    if slot != 0 {
      assert KnownLinks(nodes, slot - 1);
      NodeSound(nodes, slot, nodes[slot - 1].(prev := prev));
    }
  }

  lemma SplicedSound(nodes: seq<Node>, p: nat, b: nat, n: nat)
    requires Sound(nodes) && Known(nodes, p) && Known(nodes, n) && 1 <= b <= |nodes|
    ensures SoundAfter(nodes, Spliced(nodes, p, b, n))
  {
    var nodes1 := nodes[b - 1 := Node(b, p, n)];
    NodeSound(nodes, b, Node(b, p, n));
    SetNextSound(nodes1, p, b);
    SetPrevSound(SetNext(nodes1, p, b), n, b);
  }

  lemma JoinedSound(nodes: seq<Node>, p: nat, n: nat)
    requires Sound(nodes) && Known(nodes, p) && Known(nodes, n)
    ensures SoundAfter(nodes, Joined(nodes, p, n))
  {
    SetNextSound(nodes, p, n);
    SetPrevSound(SetNext(nodes, p, n), n, p);
  }

  lemma LinkedKnown(nodes: seq<Node>, order: seq<nat>, i: nat)
    requires Linked(nodes, order) && i < |order|
    ensures Known(nodes, order[i]) && order[i] != 0
    ensures nodes[order[i] - 1].prev == At(order, i - 1) && nodes[order[i] - 1].next == At(order, i + 1)
  {
    assert LinkedAt(nodes, order, i);
  }

  // What a list with two stored ends shows.

  ghost predicate Shown(nodes: seq<Node>, head: nat, tail: nat, order: seq<nat>) {
    Linked(nodes, order) && head == At(order, 0) && tail == At(order, |order| - 1)
  }

  /** There is only one sequence it can be. */
  lemma ShownUnique(nodes: seq<Node>, head: nat, tail: nat, order: seq<nat>, other: seq<nat>)
    requires Shown(nodes, head, tail, order) && Shown(nodes, head, tail, other)
    ensures order == other
  {
    SamePlaces(nodes, order, other, |order|);
    SamePlaces(nodes, order, other, |other|);
    forall i | 0 <= i < |order| && i < |other| ensures order[i] == other[i] { SamePlaces(nodes, order, other, i); }
  }

  lemma {:induction false} SamePlaces(nodes: seq<Node>, order: seq<nat>, other: seq<nat>, i: nat)
    requires Linked(nodes, order) && Linked(nodes, other) && At(order, 0) == At(other, 0)
    ensures At(order, i) == At(other, i)
  {
    if i > 0 {
      SamePlaces(nodes, order, other, i - 1);
      if i - 1 < |order| { LinkedKnown(nodes, order, i - 1); }
      if i - 1 < |other| { LinkedKnown(nodes, other, i - 1); }
    }
  }

  // A push with whatever ends the handle holds.

  /** The nodes after the statements of a push before a node, or before the cached head. */
  function BeforeLinks(nodes: seq<Node>, head: nat, node: nat, b: nat): (r: seq<Node>)
    requires Sound(nodes) && Known(nodes, head) && Known(nodes, node) && 1 <= b <= |nodes|
    ensures |r| == |nodes|
  {
    if node != 0 then assert KnownLinks(nodes, node - 1); Spliced(nodes, nodes[node - 1].prev, b, node)
    else if head == b then nodes[b - 1 := Node(b, 0, b)]
    else Spliced(nodes, 0, b, head)
  }

  /** And of a push after a node, or after the cached tail. */
  function AfterLinks(nodes: seq<Node>, tail: nat, node: nat, b: nat): (r: seq<Node>)
    requires Sound(nodes) && Known(nodes, tail) && Known(nodes, node) && 1 <= b <= |nodes|
    ensures |r| == |nodes|
  {
    if node != 0 then assert KnownLinks(nodes, node - 1); Spliced(nodes, node, b, nodes[node - 1].next)
    else if tail == b then nodes[b - 1 := Node(b, b, 0)]
    else Spliced(nodes, tail, b, 0)
  }

  lemma BeforeLinksSound(nodes: seq<Node>, head: nat, node: nat, b: nat)
    requires Sound(nodes) && Known(nodes, head) && Known(nodes, node) && 1 <= b <= |nodes|
    ensures SoundAfter(nodes, BeforeLinks(nodes, head, node, b)) && Known(BeforeLinks(nodes, head, node, b), b)
  {
    if node != 0 {
      assert KnownLinks(nodes, node - 1);
      SplicedSound(nodes, nodes[node - 1].prev, b, node);
    } else if head == b {
      NodeSound(nodes, b, Node(b, 0, b));
    } else {
      SplicedSound(nodes, 0, b, head);
    }
  }

  lemma AfterLinksSound(nodes: seq<Node>, tail: nat, node: nat, b: nat)
    requires Sound(nodes) && Known(nodes, tail) && Known(nodes, node) && 1 <= b <= |nodes|
    ensures SoundAfter(nodes, AfterLinks(nodes, tail, node, b)) && Known(AfterLinks(nodes, tail, node, b), b)
  {
    if node != 0 {
      assert KnownLinks(nodes, node - 1);
      SplicedSound(nodes, node, b, nodes[node - 1].next);
    } else if tail == b {
      NodeSound(nodes, b, Node(b, b, 0));
    } else {
      SplicedSound(nodes, tail, b, 0);
    }
  }

  /** The new slot leads on to the node, or to the cached head. */
  lemma BeforeLinksNext(nodes: seq<Node>, head: nat, node: nat, b: nat)
    requires Sound(nodes) && Known(nodes, head) && Known(nodes, node) && Known(nodes, b) && b != 0
    ensures var n := BeforeLinks(nodes, head, node, b)[b - 1].next;
            if node == 0 then n == head else n == node || (n == b && nodes[node - 1].prev == b)
  {
    if node != 0 { assert KnownLinks(nodes, node - 1); }
  }

  lemma AfterLinksPrev(nodes: seq<Node>, tail: nat, node: nat, b: nat)
    requires Sound(nodes) && Known(nodes, tail) && Known(nodes, node) && Known(nodes, b) && b != 0
    ensures var p := AfterLinks(nodes, tail, node, b)[b - 1].prev;
            if node == 0 then p == tail else p == node || (p == b && nodes[node - 1].next == b)
  {
    if node != 0 { assert KnownLinks(nodes, node - 1); }
  }

  /** Where a linked slot leads, in both directions. */
  lemma InsertedLinks(nodes: seq<Node>, order: seq<nat>, k: nat, b: nat)
    requires k <= |order| && Linked(nodes, InsertAt(order, k, b))
    ensures 1 <= b <= |nodes| && nodes[b - 1].next == At(order, k) && nodes[b - 1].prev == At(order, k - 1)
  {
    assert InsertAt(order, k, b)[k] == b;
    LinkedKnown(nodes, InsertAt(order, k, b), k);
    AtInserted(order, k, b, k + 1);
    AtInserted(order, k, b, k - 1);
  }

  /** Linking in behind a part that is given up: the new slot and what followed. */
  lemma LinkInFront(nodes: seq<Node>, order: seq<nat>, j: nat, b: nat)
    requires Linked(nodes, order) && j <= |order| && 1 <= b <= |nodes| && b !in order
    ensures Linked(Spliced(nodes, 0, b, At(order, j)), [b] + order[j..])
  {
    var nodes', order' := Spliced(nodes, 0, b, At(order, j)), [b] + order[j..];
    assert Distinct(order') && InSlots(order', |nodes'|);
    forall i | 0 <= i < |order'| ensures LinkedAt(nodes', order', i) {
      if i > 0 {
        assert order'[i] == order[j + i - 1];
        LinkedKnown(nodes, order, j + i - 1);
        assert LinkedAt(nodes, order, j + i - 1);
      }
    }
  }

  lemma LinkInEnd(nodes: seq<Node>, order: seq<nat>, j: nat, b: nat)
    requires Linked(nodes, order) && j <= |order| && 1 <= b <= |nodes| && b !in order
    ensures Linked(Spliced(nodes, At(order, j - 1), b, 0), order[..j] + [b])
  {
    var nodes', order' := Spliced(nodes, At(order, j - 1), b, 0), order[..j] + [b];
    assert Distinct(order') && InSlots(order', |nodes'|);
    forall i | 0 <= i < |order'| ensures LinkedAt(nodes', order', i) {
      if i < j {
        assert order'[i] == order[i];
        assert LinkedAt(nodes, order, i);
        assert i < j - 1 ==> order[i] != order[j - 1];
      }
    }
  }

  /** Where a push before the node should put the new slot; no node stands for the head. */
  ghost function PlaceBefore(order: seq<nat>, node: nat): (k: nat)
    requires node == 0 || node in order
    ensures k <= |order|
  {
    if node == 0 then 0 else Position(order, node)
  }

  /** Where a push after the node should put it; no node stands for the tail. */
  ghost function PlaceAfter(order: seq<nat>, node: nat): (k: nat)
    requires node == 0 || node in order
    ensures k <= |order|
  {
    if node == 0 then |order| else Position(order, node) + 1
  }

  /** How many elements are cut off when the cached head is taken for the head. */
  ghost function CutBefore(order: seq<nat>, head: nat): (j: nat)
    requires head == 0 || head in order
    ensures j <= |order| && head == At(order, j)
  {
    if head == 0 then |order| else Position(order, head)
  }

  /** How many are left when the cached tail is taken for the tail. */
  ghost function CutAfter(order: seq<nat>, tail: nat): (j: nat)
    requires tail == 0 || tail in order
    ensures j <= |order| && tail == At(order, j - 1)
  {
    if tail == 0 then 0 else Position(order, tail) + 1
  }

  /** When the cached end does for a push: without a node it must be the stored one, with
      a node the two must agree on whether it is that end. */
  predicate EndDoes(cached: nat, stored: nat, node: nat) {
    if node == 0 then cached == stored else (node == cached <==> node == stored)
  }

  /** A push before the node, through a handle with this head, comes to stand at k. */
  ghost predicate RightBefore(order: seq<nat>, head: nat, node: nat, k: nat) {
    (node == 0 || node in order) && k == PlaceBefore(order, node) && EndDoes(head, At(order, 0), node)
  }

  ghost predicate RightAfter(order: seq<nat>, tail: nat, node: nat, k: nat) {
    (node == 0 || node in order) && k == PlaceAfter(order, node) && EndDoes(tail, At(order, |order| - 1), node)
  }

  /** The new slot can be linked in at no place but the one meant. */
  lemma OnlyBefore(nodes: seq<Node>, order: seq<nat>, head: nat, node: nat, b: nat, k: nat)
    requires Sound(nodes) && Linked(nodes, order) && Known(nodes, head) && Known(nodes, node)
    requires Known(nodes, b) && b != 0 && b !in order && k <= |order|
    requires Linked(BeforeLinks(nodes, head, node, b), InsertAt(order, k, b))
    ensures (node == 0 || node in order) && k == PlaceBefore(order, node) && (node == 0 ==> head == At(order, 0))
  {
    InsertedLinks(BeforeLinks(nodes, head, node, b), order, k, b);
    BeforeLinksNext(nodes, head, node, b);
    if node != 0 { assert node == At(order, k) && k < |order| && order[k] == node; }
  }

  lemma OnlyAfter(nodes: seq<Node>, order: seq<nat>, tail: nat, node: nat, b: nat, k: nat)
    requires Sound(nodes) && Linked(nodes, order) && Known(nodes, tail) && Known(nodes, node)
    requires Known(nodes, b) && b != 0 && b !in order && k <= |order|
    requires Linked(AfterLinks(nodes, tail, node, b), InsertAt(order, k, b))
    ensures (node == 0 || node in order) && k == PlaceAfter(order, node) && (node == 0 ==> tail == At(order, |order| - 1))
  {
    InsertedLinks(AfterLinks(nodes, tail, node, b), order, k, b);
    AfterLinksPrev(nodes, tail, node, b);
    if node != 0 { assert node == At(order, k - 1) && k > 0 && order[k - 1] == node; }
  }

  /** There it is linked in, unless the cached end is taken for the stored one and is not. */
  lemma LinkedBefore(nodes: seq<Node>, order: seq<nat>, head: nat, node: nat, b: nat)
    requires Sound(nodes) && Linked(nodes, order) && Known(nodes, head) && Known(nodes, node)
    requires Known(nodes, b) && b != 0 && b !in order
    requires if node == 0 then head == At(order, 0) else node in order
    ensures Linked(BeforeLinks(nodes, head, node, b), InsertAt(order, PlaceBefore(order, node), b))
  {
    var k := PlaceBefore(order, node);
    assert BeforeLinks(nodes, head, node, b) == LinksIn(nodes, order, k, b) by {
      if node != 0 { LinkedKnown(nodes, order, k); } else { assert order != [] ==> order[0] in order; }
    }
    LinkIn(nodes, order, k, b);
  }

  lemma LinkedAfter(nodes: seq<Node>, order: seq<nat>, tail: nat, node: nat, b: nat)
    requires Sound(nodes) && Linked(nodes, order) && Known(nodes, tail) && Known(nodes, node)
    requires Known(nodes, b) && b != 0 && b !in order
    requires if node == 0 then tail == At(order, |order| - 1) else node in order
    ensures Linked(AfterLinks(nodes, tail, node, b), InsertAt(order, PlaceAfter(order, node), b))
  {
    var k := PlaceAfter(order, node);
    assert AfterLinks(nodes, tail, node, b) == LinksIn(nodes, order, k, b) by {
      if node != 0 { LinkedKnown(nodes, order, k - 1); } else { assert order != [] ==> order[|order| - 1] in order; }
    }
    LinkIn(nodes, order, k, b);
  }

  /** The list shows the new slot at a place exactly if that is the one meant and the
      cached head does. */
  lemma BeforeShown(nodes: seq<Node>, order: seq<nat>, head: nat, node: nat, b: nat, k: nat)
    requires Sound(nodes) && Linked(nodes, order) && Known(nodes, head) && Known(nodes, node)
    requires Known(nodes, b) && b != 0 && b !in order && k <= |order|
    ensures var first := if node == 0 || node == head then b else At(order, 0);
            var last := if node == 0 && head == 0 then b else At(order, |order| - 1);
            Shown(BeforeLinks(nodes, head, node, b), first, last, InsertAt(order, k, b))
            <==> RightBefore(order, head, node, k)
  {
    AtInserted(order, k, b, 0);
    AtInserted(order, k, b, |order|);
    if Linked(BeforeLinks(nodes, head, node, b), InsertAt(order, k, b)) {
      OnlyBefore(nodes, order, head, node, b, k);
    } else if RightBefore(order, head, node, k) {
      LinkedBefore(nodes, order, head, node, b);
    }
  }

  lemma AfterShown(nodes: seq<Node>, order: seq<nat>, tail: nat, node: nat, b: nat, k: nat)
    requires Sound(nodes) && Linked(nodes, order) && Known(nodes, tail) && Known(nodes, node)
    requires Known(nodes, b) && b != 0 && b !in order && k <= |order|
    ensures var first := if node == 0 && tail == 0 then b else At(order, 0);
            var last := if node == 0 || node == tail then b else At(order, |order| - 1);
            Shown(AfterLinks(nodes, tail, node, b), first, last, InsertAt(order, k, b))
            <==> RightAfter(order, tail, node, k)
  {
    AtInserted(order, k, b, 0);
    AtInserted(order, k, b, |order|);
    if Linked(AfterLinks(nodes, tail, node, b), InsertAt(order, k, b)) {
      OnlyAfter(nodes, order, tail, node, b, k);
    } else if RightAfter(order, tail, node, k) {
      LinkedAfter(nodes, order, tail, node, b);
    }
  }

  /** Without a node, and with a cached head that is linked: what comes before it is cut
      off, all of it if there is none. */
  lemma BeforeCuts(nodes: seq<Node>, order: seq<nat>, head: nat, b: nat)
    requires Sound(nodes) && Linked(nodes, order) && Known(nodes, head) && (head == 0 || head in order)
    requires Known(nodes, b) && b != 0 && b !in order
    ensures var last := if head == 0 then b else At(order, |order| - 1);
            Shown(BeforeLinks(nodes, head, 0, b), b, last, [b] + order[CutBefore(order, head)..])
  {
    LinkInFront(nodes, order, CutBefore(order, head), b);
  }

  lemma AfterCuts(nodes: seq<Node>, order: seq<nat>, tail: nat, b: nat)
    requires Sound(nodes) && Linked(nodes, order) && Known(nodes, tail) && (tail == 0 || tail in order)
    requires Known(nodes, b) && b != 0 && b !in order
    ensures var first := if tail == 0 then b else At(order, 0);
            Shown(AfterLinks(nodes, tail, 0, b), first, b, order[..CutAfter(order, tail)] + [b])
  {
    LinkInEnd(nodes, order, CutAfter(order, tail), b);
  }

  lemma BeforeOutcome(nodes: seq<Node>, order: seq<nat>, head: nat, node: nat, b: nat)
    requires Sound(nodes) && Linked(nodes, order) && Known(nodes, head) && Known(nodes, node)
    requires Known(nodes, b) && b != 0 && b !in order
    ensures var nodes' := BeforeLinks(nodes, head, node, b);
            var first := if node == 0 || node == head then b else At(order, 0);
            var last := if node == 0 && head == 0 then b else At(order, |order| - 1);
            && SoundAfter(nodes, nodes')
            && (forall k :: 0 <= k <= |order| ==>
                  (Shown(nodes', first, last, InsertAt(order, k, b)) <==> RightBefore(order, head, node, k)))
            && (node == 0 && (head == 0 || head in order) ==> Shown(nodes', first, last, [b] + order[CutBefore(order, head)..]))
  {
    BeforeLinksSound(nodes, head, node, b);
    forall k | 0 <= k <= |order|
      ensures var first := if node == 0 || node == head then b else At(order, 0);
              var last := if node == 0 && head == 0 then b else At(order, |order| - 1);
              Shown(BeforeLinks(nodes, head, node, b), first, last, InsertAt(order, k, b)) <==> RightBefore(order, head, node, k)
    {
      BeforeShown(nodes, order, head, node, b, k);
    }
    if node == 0 && (head == 0 || head in order) { BeforeCuts(nodes, order, head, b); }
  }

  lemma AfterOutcome(nodes: seq<Node>, order: seq<nat>, tail: nat, node: nat, b: nat)
    requires Sound(nodes) && Linked(nodes, order) && Known(nodes, tail) && Known(nodes, node)
    requires Known(nodes, b) && b != 0 && b !in order
    ensures var nodes' := AfterLinks(nodes, tail, node, b);
            var first := if node == 0 && tail == 0 then b else At(order, 0);
            var last := if node == 0 || node == tail then b else At(order, |order| - 1);
            && SoundAfter(nodes, nodes')
            && (forall k :: 0 <= k <= |order| ==>
                  (Shown(nodes', first, last, InsertAt(order, k, b)) <==> RightAfter(order, tail, node, k)))
            && (node == 0 && (tail == 0 || tail in order) ==> Shown(nodes', first, last, order[..CutAfter(order, tail)] + [b]))
  {
    AfterLinksSound(nodes, tail, node, b);
    forall k | 0 <= k <= |order|
      ensures var first := if node == 0 && tail == 0 then b else At(order, 0);
              var last := if node == 0 || node == tail then b else At(order, |order| - 1);
              Shown(AfterLinks(nodes, tail, node, b), first, last, InsertAt(order, k, b)) <==> RightAfter(order, tail, node, k)
    {
      AfterShown(nodes, order, tail, node, b, k);
    }
    if node == 0 && (tail == 0 || tail in order) { AfterCuts(nodes, order, tail, b); }
  }

  lemma RemovedAt(order: seq<nat>, k: nat)
    requires k < |order|
    ensures At(RemoveAt(order, k), 0) == At(order, if k == 0 then 1 else 0)
    ensures At(RemoveAt(order, k), |order| - 2) == At(order, if k == |order| - 1 then k - 1 else |order| - 1)
  {
  }

  lemma PopShownAt(nodes: seq<Node>, order: seq<nat>, k: nat)
    requires Linked(nodes, order) && k < |order|
    ensures var p, n := At(order, k - 1), At(order, k + 1);
            Shown(Joined(nodes, p, n), if p == 0 then n else At(order, 0), if n == 0 then p else At(order, |order| - 1),
                  RemoveAt(order, k))
  {
    LinkOut(nodes, order, k);
    RemovedAt(order, k);
  }

  /** What a pop of a linked node leaves, whatever the cached ends are. */
  lemma PopShown(nodes: seq<Node>, order: seq<nat>, node: nat)
    requires Linked(nodes, order) && node in order && 1 <= node <= |nodes|
    ensures var p, n := nodes[node - 1].prev, nodes[node - 1].next;
            && p <= |nodes| && n <= |nodes|
            && Shown(Joined(nodes, p, n), if p == 0 then n else At(order, 0), if n == 0 then p else At(order, |order| - 1),
                     RemoveAt(order, Position(order, node)))
  {
    var k := Position(order, node);
    LinkedKnown(nodes, order, k);
    PopShownAt(nodes, order, k);
  }

  /** Only taking out the first leaves the rest. */
  lemma RemovedFirst(order: seq<nat>, node: nat)
    requires Distinct(order) && node in order
    ensures RemoveAt(order, Position(order, node)) == order[1..] <==> node == order[0]
  {
    var k := Position(order, node);
    if k > 0 { assert RemoveAt(order, k)[0] == order[0] != order[1] == order[1..][0]; }
  }

  /** Only taking out the last leaves what comes before it. */
  lemma RemovedLast(order: seq<nat>, node: nat)
    requires Distinct(order) && node in order
    ensures RemoveAt(order, Position(order, node)) == order[..|order| - 1] <==> node == order[|order| - 1]
  {
    var k, i := Position(order, node), |order| - 2;
    if k < |order| - 1 {
      assert RemoveAt(order, k)[i] == order[i + 1] != order[i] == order[..|order| - 1][i];
    }
  }
}
