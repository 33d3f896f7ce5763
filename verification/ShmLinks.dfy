/** Index-linked nodes as plain values: when an array of nodes represents a sequence of
    slots, and what the relinking done by a push or a pop means for that sequence. */
module ShmLinks {
  import opened Common

  /** The three fields of ShmListNode. Slots are numbered from 1; 0 is no slot. */
  datatype Node = Node(index: nat, prev: nat, next: nat)

  predicate InSlots(order: seq<nat>, slots: nat) {
    forall i :: 0 <= i < |order| ==> 1 <= order[i] <= slots
  }

  /** The slot before, at or after a position; 0 beyond either end. */
  function At(order: seq<nat>, i: int): nat {
    if 0 <= i < |order| then order[i] else 0
  }

  predicate LinkedAt(nodes: seq<Node>, order: seq<nat>, i: nat)
    requires i < |order| && InSlots(order, |nodes|)
  {
    nodes[order[i] - 1] == Node(order[i], At(order, i - 1), At(order, i + 1))
  }

  /** The nodes link up, both ways, exactly as the order says. */
  predicate Linked(nodes: seq<Node>, order: seq<nat>) {
    && Distinct(order)
    && InSlots(order, |nodes|)
    && forall i :: 0 <= i < |order| ==> LinkedAt(nodes, order, i)
  }

  function InsertAt<X>(xs: seq<X>, k: nat, x: X): (r: seq<X>)
    requires k <= |xs|
  {
    xs[..k] + [x] + xs[k..]
  }

  function RemoveAt<X>(xs: seq<X>, k: nat): (r: seq<X>)
    requires k < |xs|
  {
    xs[..k] + xs[k + 1..]
  }

  function Position(order: seq<nat>, slot: nat): (k: nat)
    requires slot in order
    ensures k < |order| && order[k] == slot
  {
    if order[0] == slot then 0 else 1 + Position(order[1..], slot)
  }

  lemma PositionUnique(order: seq<nat>, k: nat)
    requires Distinct(order) && k < |order|
    ensures Position(order, order[k]) == k
  {
  }

  function SetNext(nodes: seq<Node>, slot: nat, next: nat): (r: seq<Node>)
    requires slot <= |nodes|
    ensures |r| == |nodes|
  {
    if slot == 0 then nodes else nodes[slot - 1 := nodes[slot - 1].(next := next)]
  }

  function SetPrev(nodes: seq<Node>, slot: nat, prev: nat): (r: seq<Node>)
    requires slot <= |nodes|
    ensures |r| == |nodes|
  {
    if slot == 0 then nodes else nodes[slot - 1 := nodes[slot - 1].(prev := prev)]
  }

  /** The nodes after slot b has been put between p and n, either of which may be 0. */
  function Spliced(nodes: seq<Node>, p: nat, b: nat, n: nat): (r: seq<Node>)
    requires p <= |nodes| && 1 <= b <= |nodes| && n <= |nodes|
    ensures |r| == |nodes|
  {
    SetPrev(SetNext(nodes[b - 1 := Node(b, p, n)], p, b), n, b)
  }

  /** The nodes after linking slot b in at position k. */
  ghost function LinksIn(nodes: seq<Node>, order: seq<nat>, k: nat, b: nat): (r: seq<Node>)
    requires InSlots(order, |nodes|) && k <= |order| && 1 <= b <= |nodes|
    ensures |r| == |nodes|
  {
    Spliced(nodes, At(order, k - 1), b, At(order, k))
  }

  lemma AtInserted(order: seq<nat>, k: nat, b: nat, i: int)
    requires k <= |order|
    ensures At(InsertAt(order, k, b), i) == if i < k then At(order, i) else if i == k then b else At(order, i - 1)
  {
  }

  lemma InsertedDistinct(order: seq<nat>, k: nat, b: nat, slots: nat)
    requires Distinct(order) && InSlots(order, slots) && k <= |order| && 1 <= b <= slots && b !in order
    ensures Distinct(InsertAt(order, k, b)) && InSlots(InsertAt(order, k, b), slots)
  {
    var order' := InsertAt(order, k, b);
    forall i, j | 0 <= i < j < |order'| ensures order'[i] != order'[j] {
      assert order'[i] == if i < k then order[i] else if i == k then b else order[i - 1];
      assert order'[j] == if j < k then order[j] else if j == k then b else order[j - 1];
    }
  }

  lemma LinkIn(nodes: seq<Node>, order: seq<nat>, k: nat, b: nat)
    requires Linked(nodes, order) && k <= |order| && 1 <= b <= |nodes| && b !in order
    ensures Linked(LinksIn(nodes, order, k, b), InsertAt(order, k, b))
  {
    var nodes' := LinksIn(nodes, order, k, b);
    var order' := InsertAt(order, k, b);
    InsertedDistinct(order, k, b, |nodes|);
    forall i | 0 <= i < |order'| ensures LinkedAt(nodes', order', i) {
      LinkInAt(nodes, order, k, b, i);
    }
  }

  lemma LinkInAt(nodes: seq<Node>, order: seq<nat>, k: nat, b: nat, i: nat)
    requires Linked(nodes, order) && k <= |order| && 1 <= b <= |nodes| && b !in order
    requires i <= |order| && InSlots(InsertAt(order, k, b), |nodes|)
    ensures LinkedAt(LinksIn(nodes, order, k, b), InsertAt(order, k, b), i)
  {
    var order' := InsertAt(order, k, b);
    AtInserted(order, k, b, i - 1);
    AtInserted(order, k, b, i);
    AtInserted(order, k, b, i + 1);
    assert order'[i] == At(order', i);
    if i < k {
      LinkInBefore(nodes, order, k, b, i);
    } else if i > k {
      LinkInBehind(nodes, order, k, b, i);
    }
  }

  /** A slot in front of the new one: only the last of them has a new next slot. */
  lemma LinkInBefore(nodes: seq<Node>, order: seq<nat>, k: nat, b: nat, i: nat)
    requires Linked(nodes, order) && i < k <= |order| && 1 <= b <= |nodes| && b !in order
    ensures LinksIn(nodes, order, k, b)[order[i] - 1]
         == Node(order[i], At(order, i - 1), if i == k - 1 then b else At(order, i + 1))
  {
    assert LinkedAt(nodes, order, i);
    assert order[i] != b && (k < |order| ==> order[i] != order[k]) && (i < k - 1 ==> order[i] != order[k - 1]);
  }

  /** A slot behind the new one: only the first of them has a new previous slot. */
  lemma LinkInBehind(nodes: seq<Node>, order: seq<nat>, k: nat, b: nat, i: nat)
    requires Linked(nodes, order) && k < i <= |order| && 1 <= b <= |nodes| && b !in order
    ensures LinksIn(nodes, order, k, b)[order[i - 1] - 1]
         == Node(order[i - 1], if i == k + 1 then b else At(order, i - 2), At(order, i))
  {
    assert LinkedAt(nodes, order, i - 1);
    assert order[i - 1] != b && (i > k + 1 ==> order[i - 1] != order[k]) && (k > 0 ==> order[i - 1] != order[k - 1]);
  }

  /** The nodes after linking the slot at position k out. */
  ghost function LinksOut(nodes: seq<Node>, order: seq<nat>, k: nat): (r: seq<Node>)
    requires InSlots(order, |nodes|) && k < |order|
    ensures |r| == |nodes|
  {
    Joined(nodes, At(order, k - 1), At(order, k + 1))
  }

  /** The nodes between p and n joined, either of which may be 0. */
  function Joined(nodes: seq<Node>, p: nat, n: nat): (r: seq<Node>)
    requires p <= |nodes| && n <= |nodes|
    ensures |r| == |nodes|
  {
    SetPrev(SetNext(nodes, p, n), n, p)
  }

  lemma LinkOut(nodes: seq<Node>, order: seq<nat>, k: nat)
    requires Linked(nodes, order) && k < |order|
    ensures Linked(LinksOut(nodes, order, k), RemoveAt(order, k))
  {
    var nodes' := LinksOut(nodes, order, k);
    var order' := RemoveAt(order, k);
    forall i | 0 <= i < |order'| ensures LinkedAt(nodes', order', i) {
      if i < k {
        assert LinkedAt(nodes, order, i);
      } else {
        assert order'[i] == order[i + 1];
        assert LinkedAt(nodes, order, i + 1);
      }
    }
  }

  /** Distinct slots cannot outnumber the slots there are. */
  lemma DistinctBounded(order: seq<nat>, slots: nat)
    requires Distinct(order) && InSlots(order, slots)
    ensures |order| <= slots
    ensures |order| == slots ==> forall b: nat :: 1 <= b <= slots ==> b in order
  {
    UsedSize(order);
    AllSlotsSize(slots);
    CardinalitySubset(SlotSet(order), AllSlots(slots));
  }

  ghost function AllSlots(slots: nat): (s: set<nat>)
    ensures forall b: nat :: b in s <==> 1 <= b <= slots
  {
    if slots == 0 then {} else AllSlots(slots - 1) + {slots}
  }

  lemma {:induction false} AllSlotsSize(slots: nat)
    ensures |AllSlots(slots)| == slots
  {
    if slots > 0 { AllSlotsSize(slots - 1); }
  }

  lemma {:induction false} UsedSize(order: seq<nat>)
    requires Distinct(order)
    ensures |SlotSet(order)| == |order|
  {
    if order != [] {
      SlotSetRemove(order, 0);
      UsedSize(RemoveAt(order, 0));
      assert order[0] in SlotSet(order);
    }
  }

  lemma {:induction false} CardinalitySubset(a: set<nat>, b: set<nat>)
    requires a <= b
    ensures |a| <= |b|
    ensures |a| == |b| ==> a == b
  {
    if a != {} {
      var x :| x in a;
      CardinalitySubset(a - {x}, b - {x});
    }
  }

  function Reversed<X>(xs: seq<X>): (r: seq<X>)
    ensures |r| == |xs|
  {
    if xs == [] then [] else Reversed(xs[1..]) + [xs[0]]
  }

  /** What stands at a position of the reverse. */
  lemma {:induction false} ReversedAt<X>(xs: seq<X>, i: nat)
    requires i < |xs|
    ensures Reversed(xs)[i] == xs[|xs| - 1 - i]
  {
    if i < |xs| - 1 { ReversedAt(xs[1..], i); }
  }

  lemma ReversedFrom<X>(xs: seq<X>, i: nat)
    requires i < |xs|
    ensures Reversed(xs[i..]) == Reversed(xs[i + 1..]) + [xs[i]]
  {
    assert xs[i..][1..] == xs[i + 1..];
  }

  /** The slots in use, as a set. */
  ghost function SlotSet(order: seq<nat>): (s: set<nat>)
    ensures forall b :: b in s <==> b in order
  {
    set b | b in order
  }

  lemma SlotSetInsert(order: seq<nat>, k: nat, b: nat)
    requires k <= |order|
    ensures SlotSet(InsertAt(order, k, b)) == SlotSet(order) + {b}
  {
    var order' := InsertAt(order, k, b);
    assert order'[k] == b;
    forall x | x in order ensures x in order' {
      var i :| 0 <= i < |order| && order[i] == x;
      assert order'[if i < k then i else i + 1] == x;
    }
  }

  lemma SlotSetRemove(order: seq<nat>, k: nat)
    requires k < |order| && Distinct(order)
    ensures SlotSet(RemoveAt(order, k)) == SlotSet(order) - {order[k]}
  {
    var order' := RemoveAt(order, k);
    forall x | x in order && x != order[k] ensures x in order' {
      var i :| 0 <= i < |order| && order[i] == x;
      assert order'[if i < k then i else i - 1] == x;
    }
    forall x | x in order' ensures x in order && x != order[k] {
      var i :| 0 <= i < |order'| && order'[i] == x;
      assert order[if i < k then i else i + 1] == x;
    }
  }

  /** The elements at the slots, in order. */
  function Values<T>(order: seq<nat>, data: seq<T>): (vs: seq<T>)
    requires InSlots(order, |data|)
    ensures |vs| == |order|
  {
    seq(|order|, i requires 0 <= i < |order| => data[order[i] - 1])
  }

  lemma ValuesInsert<T>(order: seq<nat>, data: seq<T>, k: nat, b: nat)
    requires InSlots(order, |data|) && k <= |order| && 1 <= b <= |data|
    ensures InSlots(InsertAt(order, k, b), |data|)
    ensures Values(InsertAt(order, k, b), data) == InsertAt(Values(order, data), k, data[b - 1])
  {
  }

  lemma ValuesUnlinked<T>(order: seq<nat>, data: seq<T>, slot: nat, x: T)
    requires InSlots(order, |data|) && 1 <= slot <= |data| && slot !in order
    ensures Values(order, data[slot - 1 := x]) == Values(order, data)
  {
  }

  lemma ValuesRemove<T>(order: seq<nat>, data: seq<T>, k: nat)
    requires InSlots(order, |data|) && k < |order|
    ensures InSlots(RemoveAt(order, k), |data|)
    ensures Values(RemoveAt(order, k), data) == RemoveAt(Values(order, data), k)
  {
  }

  /** Changing a node that is not linked changes nothing for the list. */
  lemma UnlinkedChange(nodes: seq<Node>, order: seq<nat>, slot: nat, node: Node)
    requires Linked(nodes, order) && 1 <= slot <= |nodes| && slot !in order
    ensures Linked(nodes[slot - 1 := node], order)
  {
    var nodes' := nodes[slot - 1 := node];
    forall i | 0 <= i < |order| ensures LinkedAt(nodes', order, i) {
      assert LinkedAt(nodes, order, i) && order[i] != slot;
    }
  }
}
