/** The packed bitmap of libcontainer/container_bitmap.h: bits 1..n, eight to a byte. */
module Bitmap {

  const PAGE_SIZE: nat := 8

  datatype BitRet = Success | NotInitialized | OutOfBounds

  function Mask(offset: nat): bv8
    requires offset < PAGE_SIZE
  {
    1 << offset
  }

  /** Bit number index (counted from 1) of the packed bytes. */
  predicate BitAt(pages: seq<bv8>, index: nat)
    requires 1 <= index <= PAGE_SIZE * |pages|
  {
    pages[(index - 1) / PAGE_SIZE] & Mask((index - 1) % PAGE_SIZE) != 0
  }

  function PagesFor(bits: nat): nat {
    (bits + (PAGE_SIZE - 1)) / PAGE_SIZE
  }

  lemma PageArithmetic(index: nat, bits: nat)
    requires 1 <= index <= bits
    ensures 0 <= (index + PAGE_SIZE - 1) / PAGE_SIZE - 1 == (index - 1) / PAGE_SIZE < PagesFor(bits)
    ensures bits <= PAGE_SIZE * PagesFor(bits)
  {
  }

  lemma MaskValues(offset: nat)
    requires offset < PAGE_SIZE
    ensures Mask(offset) == [1, 2, 4, 8, 16, 32, 64, 128][offset]
  {
    if offset == 0 {} else if offset == 1 {} else if offset == 2 {} else if offset == 3 {}
    else if offset == 4 {} else if offset == 5 {} else if offset == 6 {} else {}
  }

  /** Where a bit lies: eight to a byte from the first on, the lowest of a byte first. */
  lemma BitPlace(pages: seq<bv8>, index: nat)
    requires 1 <= index <= 8 * |pages|
    ensures BitAt(pages, index) <==> (pages[(index - 1) / 8] >> ((index - 1) % 8)) & 1 == 1
  {
    var page, o := pages[(index - 1) / 8], (index - 1) % 8;
    MaskValues(o);
    if o == 0 {} else if o == 1 {} else if o == 2 {} else if o == 3 {}
    else if o == 4 {} else if o == 5 {} else if o == 6 {} else {}
  }

  lemma OrMask(page: bv8, o: nat, k: nat)
    requires o < PAGE_SIZE && k < PAGE_SIZE
    ensures ((page | Mask(o)) & Mask(k) != 0) <==> (k == o || page & Mask(k) != 0)
  {
    MaskValues(o);
    MaskValues(k);
  }

  lemma AndNotMask(page: bv8, o: nat, k: nat)
    requires o < PAGE_SIZE && k < PAGE_SIZE
    ensures ((page & !Mask(o)) & Mask(k) != 0) <==> (k != o && page & Mask(k) != 0)
  {
    MaskValues(o);
    MaskValues(k);
  }

  function PageOf(index: nat): nat
    requires index >= 1
  {
    (index - 1) / PAGE_SIZE
  }

  /** Or-ing a one-bit mask into one byte turns on one bit of the whole map. */
  lemma SetBitOnly(pages: seq<bv8>, index: nat, i: nat)
    requires 1 <= index <= PAGE_SIZE * |pages| && 1 <= i <= PAGE_SIZE * |pages|
    ensures
      var p := PageOf(index);
      BitAt(pages[p := pages[p] | Mask((index - 1) % PAGE_SIZE)], i) <==> i == index || BitAt(pages, i)
  {
    OrMask(pages[PageOf(index)], (index - 1) % PAGE_SIZE, (i - 1) % PAGE_SIZE);
  }

  lemma UnsetBitOnly(pages: seq<bv8>, index: nat, i: nat)
    requires 1 <= index <= PAGE_SIZE * |pages| && 1 <= i <= PAGE_SIZE * |pages|
    ensures
      var p := PageOf(index);
      BitAt(pages[p := pages[p] & !Mask((index - 1) % PAGE_SIZE)], i) <==> i != index && BitAt(pages, i)
  {
    AndNotMask(pages[PageOf(index)], (index - 1) % PAGE_SIZE, (i - 1) % PAGE_SIZE);
  }

  /** The bytes as a sequence of bits; bit number i is at position i - 1. */
  ghost function Bits(pages: seq<bv8>): (bs: seq<bool>)
    ensures |bs| == PAGE_SIZE * |pages|
  {
    seq(PAGE_SIZE * |pages|, k requires 0 <= k < PAGE_SIZE * |pages| => BitAt(pages, k + 1))
  }

  lemma SetBits(pages: seq<bv8>, index: nat)
    requires 1 <= index <= PAGE_SIZE * |pages|
    ensures
      var p := PageOf(index);
      Bits(pages[p := pages[p] | Mask((index - 1) % PAGE_SIZE)]) == Bits(pages)[index - 1 := true]
  {
    forall i: nat | 1 <= i <= PAGE_SIZE * |pages| { SetBitOnly(pages, index, i); }
  }

  lemma UnsetBits(pages: seq<bv8>, index: nat)
    requires 1 <= index <= PAGE_SIZE * |pages|
    ensures
      var p := PageOf(index);
      Bits(pages[p := pages[p] & !Mask((index - 1) % PAGE_SIZE)]) == Bits(pages)[index - 1 := false]
  {
    forall i: nat | 1 <= i <= PAGE_SIZE * |pages| { UnsetBitOnly(pages, index, i); }
  }

  predicate On(bs: seq<bool>, i: nat)
    requires 1 <= i <= |bs|
  {
    bs[i - 1]
  }

  /** The set of indices, among the first n, whose bit is on. */
  ghost function BitSet(bs: seq<bool>, n: nat): (s: set<nat>)
    requires n <= |bs|
  {
    set i: nat | 1 <= i <= n && On(bs, i)
  }

  lemma BitSetUpdate(bs: seq<bool>, n: nat, index: nat, on: bool)
    requires 1 <= index <= n <= |bs|
    ensures BitSet(bs[index - 1 := on], n) == if on then BitSet(bs, n) + {index} else BitSet(bs, n) - {index}
  {
  }

  lemma SetMember(pages: seq<bv8>, index: nat, n: nat)
    requires 1 <= index <= n <= PAGE_SIZE * |pages|
    ensures
      var p := PageOf(index);
      BitSet(Bits(pages[p := pages[p] | Mask((index - 1) % PAGE_SIZE)]), n) == BitSet(Bits(pages), n) + {index}
  {
    SetBits(pages, index);
    BitSetUpdate(Bits(pages), n, index, true);
  }

  lemma UnsetMember(pages: seq<bv8>, index: nat, n: nat)
    requires 1 <= index <= n <= PAGE_SIZE * |pages|
    ensures
      var p := PageOf(index);
      BitSet(Bits(pages[p := pages[p] & !Mask((index - 1) % PAGE_SIZE)]), n) == BitSet(Bits(pages), n) - {index}
  {
    UnsetBits(pages, index);
    BitSetUpdate(Bits(pages), n, index, false);
  }

  class Bitmap {
    const bits: nat
    var pages: array?<bv8>

    /** A bitmap laid over existing memory; null is the empty bitmap, which has none. */
    constructor (bits: nat, pages: array?<bv8>)
      ensures this.bits == bits && this.pages == pages
    {
      this.bits := bits;
      this.pages := pages;
    }

    ghost predicate Valid()
      reads this
    {
      if pages == null then bits == 0 else pages.Length == PagesFor(bits)
    }

    /** The abstract value: the set of indices whose bit is on. */
    ghost function Members(): (s: set<nat>)
      reads this, pages
      requires Valid()
      ensures pages == null ==> s == {}
      ensures forall i :: i in s ==> 1 <= i <= bits
    {
      if pages == null then {}
      else BitSet(Bits(pages[..]), bits)
    }

    lemma MembersAreBits()
      requires Valid()
      ensures forall i: nat :: 1 <= i <= bits ==> (i in Members() <==> BitAt(pages[..], i))
      ensures Members() == {} <==> forall i: nat :: 1 <= i <= bits ==> i !in Members()
    {
      if Members() != {} {
        var i :| i in Members();
      }
    }

    method Set(index: nat) returns (ret: BitRet)
      requires Valid()
      modifies pages
      ensures Valid()
      ensures ret.NotInitialized? <==> pages == null
      ensures ret.OutOfBounds? <==> pages != null && !(1 <= index <= bits)
      ensures Members() == if ret.Success? then old(Members()) + {index} else old(Members())
    {
      if pages == null { return NotInitialized; }
      if index == 0 || index > bits { return OutOfBounds; }
      var pageIndex := (index + PAGE_SIZE - 1) / PAGE_SIZE;
      var pageOffset := (index - 1) % PAGE_SIZE;
      PageArithmetic(index, bits);
      SetMember(pages[..], index, bits);
      StorePage(pageIndex - 1, pages[pageIndex - 1] | Mask(pageOffset));
      return Success;
    }

    method Unset(index: nat) returns (ret: BitRet)
      requires Valid()
      modifies pages
      ensures Valid()
      ensures ret.NotInitialized? <==> pages == null
      ensures ret.OutOfBounds? <==> pages != null && !(1 <= index <= bits)
      ensures Members() == if ret.Success? then old(Members()) - {index} else old(Members())
    {
      if pages == null { return NotInitialized; }
      if index == 0 || index > bits { return OutOfBounds; }
      var pageIndex := (index + PAGE_SIZE - 1) / PAGE_SIZE;
      var pageOffset := (index - 1) % PAGE_SIZE;
      PageArithmetic(index, bits);
      UnsetMember(pages[..], index, bits);
      StorePage(pageIndex - 1, pages[pageIndex - 1] & !Mask(pageOffset));
      return Success;
    }

    method StorePage(p: nat, byte: bv8)
      requires pages != null && p < pages.Length
      modifies pages
      ensures pages[..] == old(pages[..])[p := byte]
    {
      pages[p] := byte;
    }

    method Isset(index: nat) returns (on: bool)
      requires Valid()
      ensures on <==> index in Members()
    {
      if pages == null { return false; }
      if index == 0 || index > bits { return false; }
      var pageIndex := (index + PAGE_SIZE - 1) / PAGE_SIZE;
      var pageOffset := (index - 1) % PAGE_SIZE;
      return pages[pageIndex - 1] & Mask(pageOffset) != 0;
    }

    /** The least index whose bit is off, or 0 when every bit is on. */
    method Find0() returns (index: nat)
      requires Valid()
      ensures index == 0 <==> forall i: nat :: 1 <= i <= bits ==> i in Members()
      ensures index != 0 ==> index <= bits && index !in Members()
      ensures index != 0 ==> forall i: nat :: 1 <= i < index ==> i in Members()
    {
      index := Scan(false);
      MembersAreBits();
    }

    /** The least index whose bit is on, or 0 when there is none. */
    method Find1() returns (index: nat)
      requires Valid()
      ensures index == 0 <==> Members() == {}
      ensures index != 0 ==> index in Members()
      ensures index != 0 ==> forall i: nat :: 1 <= i < index ==> i !in Members()
    {
      index := Scan(true);
      MembersAreBits();
    }

    method IsFull() returns (full: bool)
      requires Valid()
      ensures full <==> forall i: nat :: 1 <= i <= bits ==> i in Members()
    {
      var index := Find0();
      return index == 0;
    }

    /** The two nested loops that Find0 and Find1 share: pages outside, bits of a page
        inside, with a budget of bits that ends both. */
    method Scan(on: bool) returns (index: nat)
      requires Valid()
      ensures index == 0 <==> forall i: nat :: 1 <= i <= bits ==> BitAt(pages[..], i) != on
      ensures index != 0 ==> index <= bits && BitAt(pages[..], index) == on
      ensures index != 0 ==> forall i: nat :: 1 <= i < index ==> BitAt(pages[..], i) != on
    {
      var pageIndex := 0;
      var left := bits;
      var pageNum := if pages == null then 0 else pages.Length;
      while pageIndex < pageNum
        invariant 0 <= pageIndex <= pageNum
        invariant left == bits - PAGE_SIZE * pageIndex || (left == 0 && pageIndex == pageNum)
        invariant forall i: nat :: 1 <= i <= bits - left ==> BitAt(pages[..], i) != on
      {
        index, left := ScanPage(on, pageIndex, left);
        if index != 0 { return; }
        if left == 0 { break; }
        pageIndex := pageIndex + 1;
      }
      return 0;
    }

    /** The bits of one page, as long as the budget lasts. */
    method ScanPage(on: bool, pageIndex: nat, budget: nat) returns (index: nat, left: nat)
      requires Valid() && pages != null && pageIndex < pages.Length && budget == bits - PAGE_SIZE * pageIndex
      requires forall i: nat :: 1 <= i <= bits - budget ==> BitAt(pages[..], i) != on
      ensures index != 0 ==> index <= bits && BitAt(pages[..], index) == on
      ensures index != 0 ==> forall i: nat :: 1 <= i < index ==> BitAt(pages[..], i) != on
      ensures index == 0 ==> left == (if budget < PAGE_SIZE then 0 else budget - PAGE_SIZE)
      ensures index == 0 ==> forall i: nat :: 1 <= i <= bits - left ==> BitAt(pages[..], i) != on
    {
      left := budget;
      var pageOffset := 0;
      while pageOffset < PAGE_SIZE
        invariant 0 <= pageOffset <= PAGE_SIZE
        invariant 0 <= left == budget - pageOffset
        invariant forall i: nat :: 1 <= i <= bits - left ==> BitAt(pages[..], i) != on
      {
        if left == 0 { break; }
        ghost var here := PAGE_SIZE * pageIndex + pageOffset + 1;
        assert BitAt(pages[..], here) <==> pages[pageIndex] & Mask(pageOffset) != 0 by {
          assert (here - 1) / PAGE_SIZE == pageIndex && (here - 1) % PAGE_SIZE == pageOffset;
        }
        if (pages[pageIndex] & Mask(pageOffset) != 0) == on {
          return PAGE_SIZE * pageIndex + pageOffset + 1, left;
        }
        pageOffset := pageOffset + 1;
        left := left - 1;
      }
      return 0, left;
    }
  }
}
