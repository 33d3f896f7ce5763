/** The shared-memory list of libipc/ipc_shm_list.h: a doubly linked list by slot index
    whose slots are handed out by a packed bitmap in the same memory. */
module ShmList {
  import Bitmap
  import opened Common
  import opened ShmEnds
  import opened ShmLinks

  const SIZE_MAX: nat := 0xFFFF_FFFF_FFFF_FFFF

  datatype IpcRet = Success | NotInitialized | NoSpace | BitmapError | ConstructError | BadArgs

  /** The shared memory: the ShmListInfo fields, the bitmap bytes and the data area.
      The ghost field is the sequence of linked slots. */
  class Segment<T(0)> {
    const maxNum: nat
    var curNum: nat
    var headIndex: nat
    var tailIndex: nat
    const pages: array<bv8>
    const nodes: array<Node>
    const data: array<T>
    ghost var order: seq<nat>

    /** Create: everything zero. */
    constructor (maxNum: nat)
      ensures this.maxNum == maxNum && Valid() && order == []
      ensures fresh(pages) && fresh(nodes) && fresh(data)
    {
      this.maxNum := maxNum;
      curNum, headIndex, tailIndex := 0, 0, 0;
      pages := new bv8[Bitmap.PagesFor(maxNum)](_ => 0);
      nodes := new Node[maxNum](_ => Node(0, 0, 0));
      data := new T[maxNum];
      order := [];
      new;
      assert Taken() == {};
    }

    ghost predicate Shaped() {
      && pages.Length == Bitmap.PagesFor(maxNum)
      && nodes.Length == maxNum && data.Length == maxNum
      && (pages as object) != nodes && (pages as object) != data && (nodes as object) != data
    }

    /** The slots whose bit is on. */
    ghost function Taken(): set<nat>
      reads pages
      requires Shaped()
    {
      Bitmap.BitSet(Bitmap.Bits(pages[..]), maxNum)
    }

    ghost predicate Valid()
      reads this, pages, nodes
    {
      Shaped() && Sound(nodes[..]) && Shows(order) && Counted()
    }

    /** The stored ends and the links say that these slots are the list. */
    ghost predicate Shows(list: seq<nat>)
      reads this, nodes
    {
      Shown(nodes[..], headIndex, tailIndex, list)
    }

    /** The counter and the bitmap agree with the sequence. */
    ghost predicate Counted()
      reads this, pages
      requires Shaped()
    {
      curNum == |order| && Taken() == SlotSet(order)
    }

    /** The list elements in order. */
    ghost function Contents(): (s: seq<T>)
      reads this, pages, nodes, data
      requires Valid()
      ensures |s| == |order|
    {
      Values(order, data[..])
    }
  }

  class ShmList<T(0)> {
    const seg: Segment<T>
    var open: bool      // info_ is not NULL
    var head: nat       // object_head_ as a slot, 0 for NULL
    var tail: nat       // object_tail_
    var ret: IpcRet

    constructor (seg: Segment<T>)
      requires seg.Valid()
      ensures this.seg == seg && !open && Valid()
    {
      this.seg := seg;
      open, head, tail, ret := false, 0, 0, Success;
    }

    ghost predicate Valid()
      reads this, seg, seg.pages, seg.nodes
    {
      && seg.Valid()
      && head == (if open then seg.headIndex else 0)
      && tail == (if open then seg.tailIndex else 0)
    }

    /** Open: the head object is rebuilt from the stored indices alone. */
    method Open()
      requires seg.Valid()
      modifies this
      ensures Valid() && open
      ensures seg.order == old(seg.order) && seg.Contents() == old(seg.Contents())
    {
      open := true;
      head := if seg.headIndex != 0 then seg.headIndex else 0;
      tail := if seg.tailIndex != 0 then seg.tailIndex else 0;
    }

    method Close()
      requires seg.Valid()
      modifies this
      ensures Valid() && !open
      ensures seg.order == old(seg.order) && seg.Contents() == old(seg.Contents())
    {
      open, head, tail := false, 0, 0;
    }

    function Next(node: nat): nat
      reads seg.nodes
      requires 1 <= node <= seg.nodes.Length
    {
      seg.nodes[node - 1].next
    }

    function Prev(node: nat): nat
      reads seg.nodes
      requires 1 <= node <= seg.nodes.Length
    {
      seg.nodes[node - 1].prev
    }

    /** The least slot that is not linked. */
    ghost predicate LeastFree(slot: nat)
      reads seg
    {
      && 1 <= slot <= seg.maxNum && slot !in seg.order
      && forall i: nat :: 1 <= i < slot ==> i in seg.order
    }

    /** The common beginning of both pushes: checks, Find0, construction, Set. */
    method Allocate(value: Option<T>) returns (slot: nat)
      requires seg.Valid()
      modifies this`ret, seg.pages, seg.nodes, seg.data
      ensures seg.Shaped() && SoundAfter(old(seg.nodes[..]), seg.nodes[..]) && seg.Shows(seg.order)
      ensures slot != 0 <==> open && |seg.order| < seg.maxNum && value.Some?
      ensures slot == 0 ==>
                && seg.Valid() && seg.Contents() == old(seg.Contents())
                && ret == if !open then NotInitialized else if |seg.order| < seg.maxNum then ConstructError else NoSpace
      ensures slot != 0 ==>
                && ret == old(ret)
                && LeastFree(slot)
                && seg.Taken() == SlotSet(seg.order) + {slot}
                && Known(seg.nodes[..], slot)
                && seg.data[slot - 1] == value.value
                && Values(seg.order, seg.data[..]) == old(seg.Contents())
    {
      if !open { ret := NotInitialized; return 0; }
      DistinctBounded(seg.order, seg.maxNum);
      if seg.maxNum == seg.curNum { ret := NoSpace; return 0; }
      var bm := new Bitmap.Bitmap(seg.maxNum, seg.pages);
      slot := bm.Find0();
      if slot == 0 {
        SlotsNotExhausted(bm);
        assert false;
      }
      if value.None? { ret := ConstructError; return 0; }
      seg.data[slot - 1] := value.value;
      assert Values(seg.order, seg.data[..]) == old(seg.Contents()) by {
        ValuesUnlinked(seg.order, old(seg.data[..]), slot, value.value);
        assert seg.data[..] == old(seg.data[..])[slot - 1 := value.value];
      }
      var set_ := bm.Set(slot);
      if set_ != Bitmap.Success {
        assert false;
      }
      SetIndex(slot);
    }

    /** pnode->index = bit_index. */
    method SetIndex(slot: nat)
      requires seg.Shaped() && Sound(seg.nodes[..]) && seg.Shows(seg.order) && 1 <= slot <= seg.maxNum && slot !in seg.order
      modifies seg.nodes
      ensures SoundAfter(old(seg.nodes[..]), seg.nodes[..]) && seg.Shows(seg.order) && Known(seg.nodes[..], slot)
    {
      ghost var was := seg.nodes[..];
      seg.nodes[slot - 1] := seg.nodes[slot - 1].(index := slot);
      assert seg.nodes[..] == was[slot - 1 := was[slot - 1].(index := slot)];
      IndexSound(was, slot);
      UnlinkedChange(was, seg.order, slot, seg.nodes[slot - 1]);
    }

    /** Below capacity some bit is off, so the first bitmap error exit is dead. */
    lemma SlotsNotExhausted(bm: Bitmap.Bitmap)
      requires seg.Valid() && seg.curNum != seg.maxNum
      requires bm.bits == seg.maxNum && bm.pages == seg.pages && bm.Valid()
      ensures exists i: nat :: 1 <= i <= bm.bits && i !in bm.Members()
    {
      DistinctBounded(seg.order, seg.maxNum);
      if forall b: nat :: 1 <= b <= seg.maxNum ==> b in seg.order {
        AllSlotsSize(seg.maxNum);
        UsedSize(seg.order);
        CardinalitySubset(AllSlots(seg.maxNum), SlotSet(seg.order));
        assert false;
      } else {
        var b: nat :| 1 <= b <= seg.maxNum && b !in seg.order;
        assert b !in bm.Members();
      }
    }

    /** The cached ends are slots that have been linked at some time, if not now. */
    ghost predicate Cached()
      reads this, seg.nodes
    {
      Known(seg.nodes[..], head) && Known(seg.nodes[..], tail)
    }

    /** The nodes of the list, and the ends of a handle that holds the stored ones, are
        slots that have been linked. */
    lemma NodeIsKnown(node: nat)
      requires seg.Valid() && (node == 0 || node in seg.order)
      ensures Known(seg.nodes[..], node)
    {
      if node != 0 { LinkedKnown(seg.nodes[..], seg.order, Position(seg.order, node)); }
    }

    lemma ValidIsCached()
      requires Valid()
      ensures Cached()
      ensures open && head == 0 <==> open && tail == 0
    {
      if seg.order != [] {
        NodeIsKnown(seg.order[0]);
        NodeIsKnown(seg.order[|seg.order| - 1]);
      }
    }

    /** An allocated slot that is not linked yet. */
    ghost predicate Allocated(slot: nat)
      reads this, seg, seg.pages, seg.nodes
    {
      && open && seg.Shaped() && Sound(seg.nodes[..]) && seg.Shows(seg.order) && Cached()
      && seg.curNum == |seg.order|
      && slot != 0 && slot !in seg.order && Known(seg.nodes[..], slot)
      && seg.Taken() == SlotSet(seg.order) + {slot}
    }

    // The statements on a node.

    /** node->next = next. */
    method SetNextOf(node: nat, next: nat)
      requires Sound(seg.nodes[..]) && node != 0 && Known(seg.nodes[..], node) && Known(seg.nodes[..], next)
      modifies seg.nodes
      ensures seg.nodes[..] == SetNext(old(seg.nodes[..]), node, next)
      ensures SoundAfter(old(seg.nodes[..]), seg.nodes[..])
    {
      SetNextSound(seg.nodes[..], node, next);
      seg.nodes[node - 1] := seg.nodes[node - 1].(next := next);
      assert seg.nodes[..] == SetNext(old(seg.nodes[..]), node, next);
    }

    /** node->prev = prev. */
    method SetPrevOf(node: nat, prev: nat)
      requires Sound(seg.nodes[..]) && node != 0 && Known(seg.nodes[..], node) && Known(seg.nodes[..], prev)
      modifies seg.nodes
      ensures seg.nodes[..] == SetPrev(old(seg.nodes[..]), node, prev)
      ensures SoundAfter(old(seg.nodes[..]), seg.nodes[..])
    {
      SetPrevSound(seg.nodes[..], node, prev);
      seg.nodes[node - 1] := seg.nodes[node - 1].(prev := prev);
      assert seg.nodes[..] == SetPrev(old(seg.nodes[..]), node, prev);
    }

    function IndexOf(node: nat): nat
      reads seg.nodes
      requires 1 <= node <= seg.nodes.Length
    {
      seg.nodes[node - 1].index
    }

    /** The slot goes between the node and the one before it. */
    method SpliceBefore(node: nat, slot: nat)
      requires Sound(seg.nodes[..]) && node != 0 && Known(seg.nodes[..], node) && slot != 0 && Known(seg.nodes[..], slot)
      modifies seg.nodes
      ensures seg.nodes[..] == BeforeLinks(old(seg.nodes[..]), 0, node, slot)
    {
      assert KnownLinks(seg.nodes[..], node - 1);
      SetNextOf(slot, IndexOf(node));
      if Prev(node) != 0 {
        SetPrevOf(slot, IndexOf(Prev(node)));
        SetNextOf(Prev(node), IndexOf(slot));
      } else {
        SetPrevOf(slot, 0);
      }
      SetPrevOf(node, IndexOf(slot));
    }

    /** The slot goes between the node and the one after it. */
    method SpliceAfter(node: nat, slot: nat)
      requires Sound(seg.nodes[..]) && node != 0 && Known(seg.nodes[..], node) && slot != 0 && Known(seg.nodes[..], slot)
      modifies seg.nodes
      ensures seg.nodes[..] == AfterLinks(old(seg.nodes[..]), 0, node, slot)
    {
      assert KnownLinks(seg.nodes[..], node - 1);
      SetPrevOf(slot, IndexOf(node));
      if Next(node) != 0 {
        SetNextOf(slot, IndexOf(Next(node)));
        SetPrevOf(Next(node), IndexOf(slot));
      } else {
        SetNextOf(slot, 0);
      }
      SetNextOf(node, IndexOf(slot));
    }

    /** First element of a list that the handle takes to be empty. */
    method LinkOnly(slot: nat)
      requires Sound(seg.nodes[..]) && slot != 0 && Known(seg.nodes[..], slot)
      modifies this`head, this`tail, seg`headIndex, seg`tailIndex, seg.nodes
      ensures seg.nodes[..] == Spliced(old(seg.nodes[..]), 0, slot, 0)
      ensures head == seg.headIndex == tail == seg.tailIndex == slot
    {
      head, tail := slot, slot;
      seg.headIndex, seg.tailIndex := IndexOf(slot), IndexOf(slot);
      SetPrevOf(slot, 0);
      SetNextOf(slot, 0);
    }

    /** New head in front of the cached one. */
    method LinkHead(slot: nat)
      requires Sound(seg.nodes[..]) && Cached() && head != 0 && slot != 0 && Known(seg.nodes[..], slot)
      modifies this`head, seg`headIndex, seg.nodes
      ensures seg.nodes[..] == BeforeLinks(old(seg.nodes[..]), old(head), 0, slot)
      ensures head == seg.headIndex == slot
    {
      SetPrevOf(head, IndexOf(slot));
      SetNextOf(slot, IndexOf(head));
      SetPrevOf(slot, 0);
      head := slot;
      seg.headIndex := IndexOf(slot);
    }

    /** New tail behind the cached one. */
    method LinkTail(slot: nat)
      requires Sound(seg.nodes[..]) && Cached() && tail != 0 && slot != 0 && Known(seg.nodes[..], slot)
      modifies this`tail, seg`tailIndex, seg.nodes
      ensures seg.nodes[..] == AfterLinks(old(seg.nodes[..]), old(tail), 0, slot)
      ensures tail == seg.tailIndex == slot
    {
      SetNextOf(tail, IndexOf(slot));
      SetPrevOf(slot, IndexOf(tail));
      SetNextOf(slot, 0);
      tail := slot;
      seg.tailIndex := IndexOf(slot);
    }

    /** The links of a push before. */
    method LinkBefore(node: nat, slot: nat)
      requires Allocated(slot) && Known(seg.nodes[..], node) && (node == 0 && head == 0 ==> tail == 0)
      modifies this`head, this`tail, seg`headIndex, seg`tailIndex, seg.nodes
      ensures seg.nodes[..] == BeforeLinks(old(seg.nodes[..]), old(head), node, slot)
      ensures if node == 0 || node == old(head) then head == seg.headIndex == slot
              else head == old(head) && seg.headIndex == old(seg.headIndex)
      ensures if node == 0 && old(head) == 0 then tail == seg.tailIndex == slot
              else tail == old(tail) && seg.tailIndex == old(seg.tailIndex)
    {
      if node == 0 {
        if head == 0 && tail == 0 {
          LinkOnly(slot);
        } else {
          LinkHead(slot);
        }
      } else {
        SpliceBefore(node, slot);
        if node == head {
          head := slot;
          seg.headIndex := IndexOf(slot);
        }
      }
    }

    /** The links of a push after. */
    method LinkAfter(node: nat, slot: nat)
      requires Allocated(slot) && Known(seg.nodes[..], node) && (node == 0 && tail == 0 ==> head == 0)
      modifies this`head, this`tail, seg`headIndex, seg`tailIndex, seg.nodes
      ensures seg.nodes[..] == AfterLinks(old(seg.nodes[..]), old(tail), node, slot)
      ensures if node == 0 || node == old(tail) then tail == seg.tailIndex == slot
              else tail == old(tail) && seg.tailIndex == old(seg.tailIndex)
      ensures if node == 0 && old(tail) == 0 then head == seg.headIndex == slot
              else head == old(head) && seg.headIndex == old(seg.headIndex)
    {
      if node == 0 {
        if head == 0 && tail == 0 {
          LinkOnly(slot);
        } else {
          LinkTail(slot);
        }
      } else {
        SpliceAfter(node, slot);
        if node == tail {
          tail := slot;
          seg.tailIndex := IndexOf(slot);
        }
      }
    }

    /** The links, and what list they show. */
    method RelinkBefore(node: nat, slot: nat)
      requires Allocated(slot) && Known(seg.nodes[..], node) && (node == 0 && head == 0 ==> tail == 0)
      modifies this`head, this`tail, seg`headIndex, seg`tailIndex, seg.nodes
      ensures SoundAfter(old(seg.nodes[..]), seg.nodes[..]) && Cached()
      ensures var was := old(seg.order);
              forall k :: 0 <= k <= |was| ==>
                (seg.Shows(InsertAt(was, k, slot)) <==> RightBefore(was, old(head), node, k))
      ensures var was := old(seg.order);
              node == 0 && (old(head) == 0 || old(head) in was) ==>
                seg.Shows([slot] + was[CutBefore(was, old(head))..])
      ensures old(head == seg.headIndex && tail == seg.tailIndex) ==> head == seg.headIndex && tail == seg.tailIndex
    {
      BeforeOutcome(seg.nodes[..], seg.order, head, node, slot);
      LinkBefore(node, slot);
    }

    method InsertBefore(node: nat, slot: nat)
      requires Allocated(slot) && Known(seg.nodes[..], node) && (node == 0 && head == 0 ==> tail == 0)
      modifies this`head, this`tail, seg, seg.nodes
      ensures seg.Shaped() && SoundAfter(old(seg.nodes[..]), seg.nodes[..]) && Cached()
      ensures seg.curNum == old(seg.curNum) + 1
      ensures var was := old(seg.order);
              forall k :: 0 <= k <= |was| ==>
                (seg.Shows(InsertAt(was, k, slot)) <==> RightBefore(was, old(head), node, k))
      ensures var was := old(seg.order);
              node == 0 && (old(head) == 0 || old(head) in was) ==> seg.Shows([slot] + was[CutBefore(was, old(head))..])
      ensures var was := old(seg.order);
              if node == 0 || node in was then seg.order == InsertAt(was, PlaceBefore(was, node), slot) && seg.Counted()
              else seg.order == was
      ensures var was := old(seg.order);
              (node == 0 || node in was) && EndDoes(old(head), old(seg.headIndex), node) ==>
                && seg.Valid()
                && seg.Contents() == InsertAt(Values(was, seg.data[..]), PlaceBefore(was, node), seg.data[slot - 1])
      ensures old(head == seg.headIndex && tail == seg.tailIndex) ==> head == seg.headIndex && tail == seg.tailIndex
    {
      ghost var was := seg.order;
      assert InSlots(was, seg.maxNum);
      RelinkBefore(node, slot);
      seg.curNum := seg.curNum + 1;
      if node == 0 || node in was {
        ghost var k := PlaceBefore(was, node);
        seg.order := InsertAt(was, k, slot);
        assert seg.Counted() by { SlotSetInsert(was, k, slot); }
        assert EndDoes(old(head), old(seg.headIndex), node) ==> RightBefore(was, old(head), node, k);
        ValuesInsert(was, seg.data[..], k, slot);
      }
    }

    /** The links, and what list they show. */
    method RelinkAfter(node: nat, slot: nat)
      requires Allocated(slot) && Known(seg.nodes[..], node) && (node == 0 && tail == 0 ==> head == 0)
      modifies this`head, this`tail, seg`headIndex, seg`tailIndex, seg.nodes
      ensures SoundAfter(old(seg.nodes[..]), seg.nodes[..]) && Cached()
      ensures var was := old(seg.order);
              forall k :: 0 <= k <= |was| ==>
                (seg.Shows(InsertAt(was, k, slot)) <==> RightAfter(was, old(tail), node, k))
      ensures var was := old(seg.order);
              node == 0 && (old(tail) == 0 || old(tail) in was) ==>
                seg.Shows(was[..CutAfter(was, old(tail))] + [slot])
      ensures old(head == seg.headIndex && tail == seg.tailIndex) ==> head == seg.headIndex && tail == seg.tailIndex
    {
      AfterOutcome(seg.nodes[..], seg.order, tail, node, slot);
      LinkAfter(node, slot);
    }

    method InsertAfter(node: nat, slot: nat)
      requires Allocated(slot) && Known(seg.nodes[..], node) && (node == 0 && tail == 0 ==> head == 0)
      modifies this`head, this`tail, seg, seg.nodes
      ensures seg.Shaped() && SoundAfter(old(seg.nodes[..]), seg.nodes[..]) && Cached()
      ensures seg.curNum == old(seg.curNum) + 1
      ensures var was := old(seg.order);
              forall k :: 0 <= k <= |was| ==>
                (seg.Shows(InsertAt(was, k, slot)) <==> RightAfter(was, old(tail), node, k))
      ensures var was := old(seg.order);
              node == 0 && (old(tail) == 0 || old(tail) in was) ==> seg.Shows(was[..CutAfter(was, old(tail))] + [slot])
      ensures var was := old(seg.order);
              if node == 0 || node in was then seg.order == InsertAt(was, PlaceAfter(was, node), slot) && seg.Counted()
              else seg.order == was
      ensures var was := old(seg.order);
              (node == 0 || node in was) && EndDoes(old(tail), old(seg.tailIndex), node) ==>
                && seg.Valid()
                && seg.Contents() == InsertAt(Values(was, seg.data[..]), PlaceAfter(was, node), seg.data[slot - 1])
      ensures old(head == seg.headIndex && tail == seg.tailIndex) ==> head == seg.headIndex && tail == seg.tailIndex
    {
      ghost var was := seg.order;
      assert InSlots(was, seg.maxNum);
      RelinkAfter(node, slot);
      seg.curNum := seg.curNum + 1;
      if node == 0 || node in was {
        ghost var k := PlaceAfter(was, node);
        seg.order := InsertAt(was, k, slot);
        assert seg.Counted() by { SlotSetInsert(was, k, slot); }
        assert EndDoes(old(tail), old(seg.tailIndex), node) ==> RightAfter(was, old(tail), node, k);
        ValuesInsert(was, seg.data[..], k, slot);
      }
    }

    /** What every push does besides the links, through whatever handle. It fails if the
        memory is not open, the list is full or the element cannot be constructed, and not
        otherwise; a bitmap error is not among the reasons. */
    twostate predicate Entered(slot: nat, value: Option<T>)
      requires old(seg.Valid())
      reads this, seg, seg.pages, seg.nodes, seg.data
    {
      && open == old(open) && seg.Shaped() && SoundAfter(old(seg.nodes[..]), seg.nodes[..])
      && (old(Cached()) ==> Cached())
      && (slot != 0 <==> open && |old(seg.order)| < seg.maxNum && value.Some?)
      && (if slot == 0 then
            && ret == (if !open then NotInitialized else if |old(seg.order)| < seg.maxNum then ConstructError else NoSpace)
            && head == old(head) && tail == old(tail)
            && seg.Valid() && seg.order == old(seg.order) && seg.Contents() == old(seg.Contents())
          else
            && ret == old(ret) && old(LeastFree(slot)) && value.Some?
            && seg.curNum == old(seg.curNum) + 1 && seg.Taken() == old(seg.Taken()) + {slot}
            && Values(old(seg.order), seg.data[..]) == old(seg.Contents()) && seg.data[slot - 1] == value.value)
    }

    /** The list with the new element in place. */
    twostate predicate InPlace(slot: nat, value: T, k: nat)
      requires old(seg.Valid()) && k <= |old(seg.order)|
      reads this, seg, seg.pages, seg.nodes, seg.data
    {
      && seg.Valid() && seg.order == InsertAt(old(seg.order), k, slot)
      && seg.Contents() == InsertAt(old(seg.Contents()), k, value)
    }

    /** _push_before. The result is the slot of the new element, 0 for NULL. With whatever ends
        the handle holds, the list shows the new element at a place exactly if that is the one
        meant and the cached head does for it. */
    method PushBefore(node: nat, value: Option<T>) returns (slot: nat)
      requires seg.Valid() && Cached() && Known(seg.nodes[..], node)
      requires open && node == 0 && head == 0 ==> tail == 0
      modifies this`head, this`tail, this`ret, seg, seg.pages, seg.nodes, seg.data
      ensures Entered(slot, value)
      ensures var was := old(seg.order);
              slot != 0 ==> forall k :: 0 <= k <= |was| ==>
                (seg.Shows(InsertAt(was, k, slot)) <==> RightBefore(was, old(head), node, k))
      ensures var was := old(seg.order);
              slot != 0 && (node == 0 || node in was) && EndDoes(old(head), old(seg.headIndex), node) ==>
                InPlace(slot, value.value, PlaceBefore(was, node))
      ensures var was := old(seg.order);
              slot != 0 && node == 0 && (old(head) == 0 || old(head) in was) ==>
                seg.Shows([slot] + was[CutBefore(was, old(head))..])
      ensures old(Valid()) && (node == 0 || node in old(seg.order)) ==> Valid()
    {
      slot := Allocate(value);
      if slot == 0 { return; }
      InsertBefore(node, slot);
    }

    /** _push_after. */
    method PushAfter(node: nat, value: Option<T>) returns (slot: nat)
      requires seg.Valid() && Cached() && Known(seg.nodes[..], node)
      requires open && node == 0 && tail == 0 ==> head == 0
      modifies this`head, this`tail, this`ret, seg, seg.pages, seg.nodes, seg.data
      ensures Entered(slot, value)
      ensures var was := old(seg.order);
              slot != 0 ==> forall k :: 0 <= k <= |was| ==>
                (seg.Shows(InsertAt(was, k, slot)) <==> RightAfter(was, old(tail), node, k))
      ensures var was := old(seg.order);
              slot != 0 && (node == 0 || node in was) && EndDoes(old(tail), old(seg.tailIndex), node) ==>
                InPlace(slot, value.value, PlaceAfter(was, node))
      ensures var was := old(seg.order);
              slot != 0 && node == 0 && (old(tail) == 0 || old(tail) in was) ==>
                seg.Shows(was[..CutAfter(was, old(tail))] + [slot])
      ensures old(Valid()) && (node == 0 || node in old(seg.order)) ==> Valid()
    {
      slot := Allocate(value);
      if slot == 0 { return; }
      InsertAfter(node, slot);
    }

    /** The statements of _pop on the links and the end fields. */
    method Bridge(node: nat)
      requires Sound(seg.nodes[..]) && Cached() && node != 0 && Known(seg.nodes[..], node)
      modifies this`head, this`tail, seg`headIndex, seg`tailIndex, seg.nodes
      ensures var p, n := old(Prev(node)), old(Next(node));
              && Known(old(seg.nodes[..]), p) && Known(old(seg.nodes[..]), n)
              && seg.nodes[..] == Joined(old(seg.nodes[..]), p, n)
              && (if p == 0 then head == seg.headIndex == n else head == old(head) && seg.headIndex == old(seg.headIndex))
              && (if n == 0 then tail == seg.tailIndex == p else tail == old(tail) && seg.tailIndex == old(seg.tailIndex))
    {
      assert KnownLinks(seg.nodes[..], node - 1);
      if Next(node) != 0 && Prev(node) != 0 {
        SetNextOf(Prev(node), Next(node));
        SetPrevOf(Next(node), Prev(node));
      } else if Next(node) != 0 {
        SetPrevOf(Next(node), Prev(node));
        head := Next(node);
        seg.headIndex := IndexOf(Next(node));
      } else if Prev(node) != 0 {
        SetNextOf(Prev(node), Next(node));
        tail := Prev(node);
        seg.tailIndex := IndexOf(Prev(node));
      } else {
        head, tail := 0, 0;
        seg.headIndex, seg.tailIndex := 0, 0;
      }
    }

    /** The links of a pop. */
    method Unlink(node: nat)
      requires seg.Shaped() && Sound(seg.nodes[..]) && seg.Shows(seg.order) && Cached()
      requires node != 0 && Known(seg.nodes[..], node)
      modifies this`head, this`tail, seg`headIndex, seg`tailIndex, seg.nodes
      ensures SoundAfter(old(seg.nodes[..]), seg.nodes[..]) && Cached()
      ensures node in seg.order ==> seg.Shows(RemoveAt(seg.order, Position(seg.order, node)))
      ensures old(head == seg.headIndex && tail == seg.tailIndex) ==> head == seg.headIndex && tail == seg.tailIndex
    {
      ghost var nodes, p, n := seg.nodes[..], Prev(node), Next(node);
      Bridge(node);
      assert SoundAfter(nodes, seg.nodes[..]) by { JoinedSound(nodes, p, n); }
      if node in seg.order {
        PopShown(nodes, seg.order, node);
      }
    }

    /** The bit of the slot goes off. */
    method Free(node: nat)
      requires seg.Shaped() && node != 0 && Known(seg.nodes[..], node)
      modifies seg.pages
      ensures seg.Taken() == old(seg.Taken()) - {node}
    {
      var bm := new Bitmap.Bitmap(seg.maxNum, seg.pages);
      var _ := bm.Unset(IndexOf(node));
    }

    /** The last step of a pop. The counter is unsigned. */
    method Uncount(node: nat)
      requires seg.Shaped() && Distinct(seg.order) && InSlots(seg.order, seg.maxNum)
      requires seg.curNum == |seg.order| && seg.Taken() == SlotSet(seg.order) - {node}
      modifies seg`curNum, seg`order
      ensures var was := old(seg.order);
              if node in was then
                && seg.order == RemoveAt(was, Position(was, node)) && seg.Counted()
                && InSlots(seg.order, seg.maxNum)
                && Values(seg.order, seg.data[..]) == RemoveAt(Values(was, seg.data[..]), Position(was, node))
              else
                && seg.order == was
                && seg.curNum == (if was == [] then SIZE_MAX else |was| - 1) != |seg.Taken()|
    {
      ghost var was := seg.order;
      seg.curNum := if seg.curNum == 0 then SIZE_MAX else seg.curNum - 1;
      if node in was {
        seg.order := RemoveAt(was, Position(was, node));
        SlotSetRemove(was, Position(was, node));
        ValuesRemove(was, seg.data[..], Position(was, node));
      } else {
        assert seg.Taken() == SlotSet(was);
        UsedSize(was);
      }
    }

    /** The part of _pop behind its checks. */
    method TakeOut(node: nat)
      requires seg.Valid() && Cached() && node != 0 && Known(seg.nodes[..], node)
      modifies this`head, this`tail, seg, seg.pages, seg.nodes
      ensures seg.Shaped() && SoundAfter(old(seg.nodes[..]), seg.nodes[..]) && Cached()
      ensures var was := old(seg.order);
              if node in was then
                && seg.Valid() && seg.order == RemoveAt(was, Position(was, node))
                && seg.Contents() == RemoveAt(old(seg.Contents()), Position(was, node))
              else
                && seg.order == was && seg.Taken() == old(seg.Taken())
                && seg.curNum == (if was == [] then SIZE_MAX else |was| - 1) != |seg.Taken()|
      ensures old(head == seg.headIndex && tail == seg.tailIndex) ==> head == seg.headIndex && tail == seg.tailIndex
    {
      Free(node);
      Unlink(node);
      Uncount(node);
    }

    /** _pop: the element at the node leaves the list and its slot becomes free, whatever
        ends the handle holds. At a node that has left the list before, the counter goes
        wrong. */
    method Pop(node: nat)
      requires seg.Valid() && Cached() && Known(seg.nodes[..], node)
      modifies this`head, this`tail, this`ret, seg, seg.pages, seg.nodes
      ensures open == old(open) && seg.Shaped() && SoundAfter(old(seg.nodes[..]), seg.nodes[..]) && Cached()
      ensures ret == if !open then NotInitialized else if node == 0 then BadArgs else old(ret)
      ensures !open || node == 0 ==>
                && seg.Valid() && seg.order == old(seg.order) && seg.Contents() == old(seg.Contents())
                && head == old(head) && tail == old(tail)
      ensures open && node in old(seg.order) ==>
                var k := Position(old(seg.order), node);
                && seg.Valid() && seg.order == RemoveAt(old(seg.order), k)
                && seg.Contents() == RemoveAt(old(seg.Contents()), k)
      ensures open && node != 0 && node !in old(seg.order) ==>
                && seg.order == old(seg.order) && seg.Taken() == old(seg.Taken())
                && seg.curNum == (if old(seg.curNum) == 0 then SIZE_MAX else old(seg.curNum) - 1) != |seg.Taken()|
      ensures old(Valid()) && (node == 0 || node in old(seg.order)) ==> Valid()
    {
      if !open { ret := NotInitialized; return; }
      if node == 0 { ret := BadArgs; return; }
      TakeOut(node);
    }

    /** What the node at a position shows. */
    lemma NodeAt(i: nat)
      requires seg.Valid() && i < |seg.order|
      ensures var slot := seg.order[i];
              && 1 <= slot <= seg.nodes.Length == seg.data.Length && seg.data[slot - 1] == seg.Contents()[i]
              && Next(slot) == At(seg.order, i + 1) && Prev(slot) == At(seg.order, i - 1)
    {
      assert LinkedAt(seg.nodes[..], seg.order, i);
    }

    /** A handle that holds the stored ends cuts nothing off. */
    lemma NothingCut()
      requires Valid() && open
      ensures head == 0 || head in seg.order
      ensures tail == 0 || tail in seg.order
      ensures CutBefore(seg.order, head) == 0 && CutAfter(seg.order, tail) == |seg.order|
    {
      if seg.order != [] {
        PositionUnique(seg.order, 0);
        PositionUnique(seg.order, |seg.order| - 1);
      }
    }

    /** Iteration from begin() with ++ until NULL: it ends, and gives the elements in order,
        from the cached head on. */
    method WalkForward() returns (s: seq<T>)
      requires seg.Valid() && (head == 0 || head in seg.order)
      ensures s == seg.Contents()[CutBefore(seg.order, head)..]
      ensures Valid() && open ==> s == seg.Contents()
    {
      s := [];
      var ptr := head;
      ghost var i, j := CutBefore(seg.order, head), CutBefore(seg.order, head);
      while ptr != 0
        invariant j <= i <= |seg.order|
        invariant ptr == At(seg.order, i)
        invariant s == seg.Contents()[j..i]
        decreases |seg.order| - i
      {
        NodeAt(i);
        s := s + [seg.data[ptr - 1]];
        ptr := Next(ptr);
        i := i + 1;
      }
      if Valid() && open { NothingCut(); }
    }

    /** Iteration from the cached tail with --: it ends, and gives the elements up to there
        in reverse. */
    method WalkBackward() returns (s: seq<T>)
      requires seg.Valid() && (tail == 0 || tail in seg.order)
      ensures s == Reversed(seg.Contents()[..CutAfter(seg.order, tail)])
      ensures Valid() && open ==> s == Reversed(seg.Contents())
    {
      s := [];
      var ptr := tail;
      ghost var i, all := CutAfter(seg.order, tail), seg.Contents()[..CutAfter(seg.order, tail)];
      while ptr != 0
        invariant 0 <= i <= |all| && ptr == At(seg.order, i - 1)
        invariant s == Reversed(all[i..])
        decreases i
      {
        NodeAt(i - 1);
        ReversedFrom(all, i - 1);
        s := s + [seg.data[ptr - 1]];
        ptr := Prev(ptr);
        i := i - 1;
      }
      assert all[0..] == all;
      if Valid() && open {
        NothingCut();
        assert all == seg.Contents();
      }
    }

    /** The new element comes first exactly if the cached head is the stored one. */
    method PushHead(value: Option<T>) returns (slot: nat)
      requires seg.Valid() && Cached() && (open && head == 0 ==> tail == 0)
      modifies this`head, this`tail, this`ret, seg, seg.pages, seg.nodes, seg.data
      ensures Entered(slot, value)
      ensures slot != 0 ==>
                && (seg.Shows(InsertAt(old(seg.order), 0, slot)) <==> old(head == seg.headIndex))
                && (old(head == seg.headIndex) ==> InPlace(slot, value.value, 0))
      ensures slot != 0 && old(head) == 0 ==> seg.Shows([slot])
      ensures old(Valid()) ==> Valid()
    {
      if seg.order != [] { PositionUnique(seg.order, 0); }
      slot := PushBefore(head, value);
      if slot != 0 { assert old(seg.Shows(seg.order)); assert [slot] + old(seg.order)[|old(seg.order)|..] == [slot]; }
    }

    /** The new element comes last exactly if the cached tail is the stored one. */
    method PushTail(value: Option<T>) returns (slot: nat)
      requires seg.Valid() && Cached() && (open && tail == 0 ==> head == 0)
      modifies this`head, this`tail, this`ret, seg, seg.pages, seg.nodes, seg.data
      ensures Entered(slot, value)
      ensures slot != 0 ==>
                && (seg.Shows(InsertAt(old(seg.order), |old(seg.order)|, slot)) <==> old(tail == seg.tailIndex))
                && (old(tail == seg.tailIndex) ==> InPlace(slot, value.value, |old(seg.order)|))
      ensures slot != 0 && old(tail) == 0 ==> seg.Shows([slot])
      ensures old(Valid()) ==> Valid()
    {
      if seg.order != [] { PositionUnique(seg.order, |seg.order| - 1); }
      slot := PushAfter(tail, value);
      if slot != 0 { assert old(seg.order)[..0] + [slot] == [slot]; }
    }

    /** PopHead: through an open handle the first element goes, if there is one, exactly if
        the cached head is the stored one. */
    method PopHead()
      requires seg.Valid() && Cached()
      modifies this`head, this`tail, this`ret, seg, seg.pages, seg.nodes
      ensures open == old(open)
      ensures var was := old(seg.order);
              open ==> (seg.Valid() && seg.order == (if was == [] then [] else was[1..]) <==> old(head == seg.headIndex))
      ensures old(Valid()) ==>
                && Valid() && ret == (if !open then NotInitialized else if old(seg.Contents()) == [] then BadArgs else old(ret))
                && var was := old(seg.Contents()); seg.Contents() == if !open || was == [] then was else was[1..]
    {
      if seg.order != [] { PositionUnique(seg.order, 0); }
      ghost var was := seg.order;
      if head in was { RemovedFirst(was, head); }
      Pop(head);
    }

    /** PopTail: and the last element. */
    method PopTail()
      requires seg.Valid() && Cached()
      modifies this`head, this`tail, this`ret, seg, seg.pages, seg.nodes
      ensures open == old(open)
      ensures var was := old(seg.order);
              open ==> (seg.Valid() && seg.order == (if was == [] then [] else was[..|was| - 1]) <==> old(tail == seg.tailIndex))
      ensures old(Valid()) ==>
                && Valid() && ret == (if !open then NotInitialized else if old(seg.Contents()) == [] then BadArgs else old(ret))
                && var was := old(seg.Contents()); seg.Contents() == if !open || was == [] then was else was[..|was| - 1]
    {
      if seg.order != [] { PositionUnique(seg.order, |seg.order| - 1); }
      ghost var was := seg.order;
      if tail in was { RemovedLast(was, tail); }
      Pop(tail);
    }
  }

  /** Two open handles on one segment. A push through the first leaves the second behind
      exactly if it changes an end of the list; what the second holds stays a slot that
      has been linked. */
  method PushBeforeBeside<T(0)>(a: ShmList<T>, b: ShmList<T>, node: nat, value: Option<T>) returns (slot: nat)
    requires a != b && a.seg == b.seg && a.Valid() && b.Valid() && b.open && (node == 0 || node in a.seg.order)
    modifies a, a.seg, a.seg.pages, a.seg.nodes, a.seg.data
    ensures a.Valid() && b.Cached()
    ensures b.Valid() <==> slot == 0 || old(PlaceBefore(a.seg.order, node)) > 0
  {
    a.NodeIsKnown(node);
    b.ValidIsCached();
    slot := a.PushBefore(node, value);
  }

  method PopBeside<T(0)>(a: ShmList<T>, b: ShmList<T>, node: nat)
    requires a != b && a.seg == b.seg && a.Valid() && b.Valid() && b.open && a.open && node in a.seg.order
    modifies a, a.seg, a.seg.pages, a.seg.nodes
    ensures a.Valid() && b.Cached()
    ensures var k := old(Position(a.seg.order, node)); b.Valid() <==> 0 < k < |old(a.seg.order)| - 1
  {
    a.NodeIsKnown(node);
    b.ValidIsCached();
    a.Pop(node);
  }

  /** Both handles were opened on the empty list and each pushes an element to the head:
      the first of the two is lost, and the counter still counts it. */
  method FirstIsLost<T(0)>(a: ShmList<T>, b: ShmList<T>, x: T, y: T) returns (first: nat, second: nat)
    requires a != b && a.seg == b.seg && a.Valid() && b.Valid() && a.open && b.open
    requires a.seg.order == [] && a.seg.maxNum >= 2
    modifies a, b, a.seg, a.seg.pages, a.seg.nodes, a.seg.data
    ensures first != 0 && second != 0 && first != second
    ensures a.seg.Shows([second]) && a.seg.data[second - 1] == y
    ensures a.seg.curNum == 2 && first in a.seg.Taken()
  {
    b.ValidIsCached();
    first := a.PushHead(Some(x));
    second := b.PushHead(Some(y));
  }

  /** A push to the end of a list that nobody else has changed. */
  method Append<T(0)>(list: ShmList<T>, x: T) returns (slot: nat)
    requires list.Valid() && list.open
    modifies list, list.seg, list.seg.pages, list.seg.nodes, list.seg.data
    ensures list.Valid() && list.open
    ensures slot != 0 <==> |old(list.seg.Contents())| < list.seg.maxNum
    ensures list.seg.Contents() == if slot != 0 then old(list.seg.Contents()) + [x] else old(list.seg.Contents())
    ensures slot == 0 ==> list.ret == NoSpace
  {
    list.ValidIsCached();
    slot := list.PushTail(Some(x));
  }

  method TakeFirst<T(0)>(list: ShmList<T>)
    requires list.Valid() && list.open && list.seg.Contents() != []
    modifies list, list.seg, list.seg.pages, list.seg.nodes
    ensures list.Valid() && list.open && list.seg.Contents() == old(list.seg.Contents())[1..]
  {
    list.ValidIsCached();
    list.PopHead();
  }

  /** From Create and Open exactly as many elements can be pushed as there are slots; the
      next push is refused for lack of space, and each element taken out makes room for
      one. */
  method FillUp<T(0)>(values: seq<T>, more: T) returns (list: ShmList<T>, refused: nat, error: IpcRet, last: nat)
    requires values != []
    ensures list.Valid() && list.seg.maxNum == |values|
    ensures refused == 0 && error == NoSpace
    ensures last != 0 && list.seg.Contents() == values[1..] + [more]
  {
    var seg := new Segment<T>(|values|);
    list := new ShmList(seg);
    list.Open();
    for i := 0 to |values|
      invariant fresh(list) && fresh(seg) && fresh(seg.pages) && fresh(seg.nodes) && fresh(seg.data)
      invariant list.seg == seg && seg.maxNum == |values| && list.Valid() && list.open && seg.Contents() == values[..i]
    {
      var slot := Append(list, values[i]);
      assert slot != 0 && seg.Contents() == values[..i] + [values[i]];
      assert values[..i] + [values[i]] == values[..i + 1];
    }
    assert seg.Contents() == values;
    refused := Append(list, more);
    error := list.ret;
    assert seg.Contents() == values;
    TakeFirst(list);
    assert seg.Contents() == values[1..];
    last := Append(list, more);
  }
}
