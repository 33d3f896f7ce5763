/** The identifier generator of libcrypt/crypt_snowflake.h. */
module Snowflake {
  import opened Common
  import opened SnowflakeFields

  const SLOTS: nat := 7          // Component::End
  const INVALID_ID: int := -0x8000_0000_0000_0000

  function Slot(c: Component): (i: nat)
    ensures i < SLOTS
  {
    match c
    case Time => 1
    case TimeBack => 2
    case Mac => 3
    case Ipv4 => 4
    case Ipv6 => 5
    case Serial => 6
  }

  /** What the clock (in milliseconds) and the interfaces answer during one call. */
  datatype Reading = Reading(clock: Option<int>, mac: Option<nat>, ipv4: Option<nat>, ipv6: Option<nat>)

  predicate Outer(c: Component) {
    !c.Serial? && !c.TimeBack?
  }

  function Raw(r: Reading, actime: int, c: Component): Option<nat>
    requires Outer(c)
  {
    match c
    case Time => if r.clock.None? || r.clock.value < actime then None else Some(r.clock.value - actime)
    case Mac => r.mac
    case Ipv4 => r.ipv4
    case Ipv6 => r.ipv6
  }

  predicate Fails(comp: Composition, r: Reading, actime: int) {
    exists i :: 0 <= i < |comp| && Outer(comp[i].component) && Raw(r, actime, comp[i].component).None?
  }

  /** The value of an outer field; nothing for a component outside the composition. */
  function OuterValue(comp: Composition, r: Reading, actime: int, c: Component): nat
    requires Outer(c)
  {
    var raw := Raw(r, actime, c);
    if raw.None? then 0 else Masked(raw.value, Bits(comp, c))
  }

  /** Some outer field differs from the last one. */
  predicate Moved(comp: Composition, r: Reading, actime: int, last: Fields) {
    exists i :: 0 <= i < |comp| && Outer(comp[i].component)
             && OuterValue(comp, r, actime, comp[i].component) != Get(last, comp[i].component)
  }

  function SerialValue(bits: nat, last: Fields, moved: bool): nat {
    Masked(if moved then last.serial else last.serial + 1, bits)
  }

  function TimeBackValue(bits: nat, last: Fields, time: nat): nat {
    Masked(if time < last.time then last.timeBack + 1 else last.timeBack, bits)
  }

  /** The fields of the next identifier. The serial number is kept when an outer field
      changes and goes on when none does. */
  function Next(comp: Composition, r: Reading, actime: int, last: Fields): Fields {
    var time := OuterValue(comp, r, actime, Time);
    Fields(time,
           TimeBackValue(Bits(comp, TimeBack), last, time),
           OuterValue(comp, r, actime, Mac),
           OuterValue(comp, r, actime, Ipv4),
           OuterValue(comp, r, actime, Ipv6),
           SerialValue(Bits(comp, Serial), last, Moved(comp, r, actime, last)))
  }

  /** Compositions the generator is meant for. */
  predicate Proper(comp: Composition) {
    EachOnce(comp) && Total(comp) <= ID_BITS && Bits(comp, Serial) < 31
  }

  lemma NextInRange(comp: Composition, r: Reading, actime: int, last: Fields)
    requires EachOnce(comp)
    ensures FieldsInRange(comp, Next(comp, r, actime, last))
  {
    var f := Next(comp, r, actime, last);
    forall i | 0 <= i < |comp| ensures Get(f, comp[i].component) < Pow2(comp[i].bits) {
      BitsAt(comp, i);
    }
  }

  lemma AbsentIsZero(comp: Composition, r: Reading, actime: int, last: Fields, c: Component)
    requires !Has(comp, c)
    ensures Get(Next(comp, r, actime, last), c) == 0
  {
    BitsAbsent(comp, c);
    assert Pow2(0) == 1;
  }

  class Generator {
    const actime: int
    const composition: Composition
    var last: array<nat>         // last_comp_value_
    var curr: array<nat>         // curr_comp_value_

    ghost predicate Valid()
      reads this, last, curr
    {
      && Proper(composition) && last != curr && last.Length == curr.Length == SLOTS
      && forall c: Component :: !Has(composition, c) ==> last[Slot(c)] == 0 && curr[Slot(c)] == 0
    }

    ghost function Last(): Fields
      requires last.Length == SLOTS
      reads this, last
    {
      Fields(last[1], last[2], last[3], last[4], last[5], last[6])
    }

    lemma LastSlot(c: Component)
      requires last.Length == SLOTS
      ensures Get(Last(), c) == last[Slot(c)]
    {
    }

    constructor (actime: int, composition: Composition)
      requires Proper(composition)
      ensures Valid() && fresh(last) && fresh(curr) && Last() == Fields(0, 0, 0, 0, 0, 0)
      ensures this.actime == actime && this.composition == composition
    {
      this.actime := actime;
      this.composition := composition;
      last := new nat[SLOTS](_ => 0);
      curr := new nat[SLOTS](_ => 0);
    }

    /** ID. A failed reading leaves the last fields alone. */
    method ID(r: Reading) returns (id: int)
      requires Valid()
      modifies this, last, curr
      ensures Valid() && {last, curr} == old({last, curr})
      ensures Fails(composition, r, actime) ==> id == INVALID_ID && Last() == old(Last())
      ensures !Fails(composition, r, actime) ==>
                Last() == Next(composition, r, actime, old(Last())) && id == IdOf(composition, Last())
    {
      var ok := FillOuter(r);
      if !ok {
        return INVALID_ID;
      }
      FillInner(r);
      NextInRange(composition, r, actime, Last());
      id := Assemble(Next(composition, r, actime, Last()));
      NextIsCurr(r);
      last, curr := curr, last;
    }

    ghost predicate OuterDone(r: Reading, n: nat)
      requires Valid()
      reads this, last, curr
    {
      forall i :: 0 <= i < n && i < |composition| && Outer(composition[i].component) ==>
        && Raw(r, actime, composition[i].component).Some?
        && curr[Slot(composition[i].component)] == OuterValue(composition, r, actime, composition[i].component)
    }

    /** The first loop. */
    method FillOuter(r: Reading) returns (ok: bool)
      requires Valid()
      modifies curr
      ensures Valid()
      ensures ok <==> !Fails(composition, r, actime)
      ensures ok ==> OuterDone(r, |composition|)
    {
      for i := 0 to |composition|
        invariant Valid() && OuterDone(r, i)
      {
        var c, bits := composition[i].component, composition[i].bits;
        if Outer(c) {
          var raw := Raw(r, actime, c);
          if raw.None? {
            return false;
          }
          BitsAt(composition, i);
          curr[Slot(c)] := Masked(raw.value, bits);
        }
      }
      return true;
    }

    ghost predicate InnerDone(r: Reading, n: nat)
      requires Valid()
      reads this, last, curr
    {
      forall i :: 0 <= i < n && i < |composition| && !Outer(composition[i].component) ==>
        curr[Slot(composition[i].component)] == Get(Next(composition, r, actime, Last()), composition[i].component)
    }

    /** The second loop. */
    method FillInner(r: Reading)
      requires Valid() && OuterDone(r, |composition|)
      modifies curr
      ensures Valid() && OuterDone(r, |composition|) && InnerDone(r, |composition|)
    {
      for i := 0 to |composition|
        invariant Valid() && OuterDone(r, |composition|) && InnerDone(r, i)
      {
        if !Outer(composition[i].component) {
          FillSlot(r, i);
        }
      }
    }

    /** One slot of the second loop. */
    method FillSlot(ghost r: Reading, i: nat)
      requires Valid() && OuterDone(r, |composition|) && InnerDone(r, i)
      requires i < |composition| && !Outer(composition[i].component)
      modifies curr
      ensures Valid() && OuterDone(r, |composition|) && InnerDone(r, i + 1)
    {
      var value := GenInner(r, i);
      ghost var next := Next(composition, r, actime, Last());
      curr[Slot(composition[i].component)] := value;
      assert Last() == old(Last()) && Next(composition, r, actime, Last()) == next;
    }

    method GenInner(ghost r: Reading, i: nat) returns (value: nat)
      requires Valid() && OuterDone(r, |composition|) && i < |composition| && !Outer(composition[i].component)
      ensures value == Get(Next(composition, r, actime, Last()), composition[i].component)
    {
      BitsAt(composition, i);
      if composition[i].component.Serial? {
        value := GenSerialBit(composition[i].bits, r);
      } else {
        value := GenTimebackBit(composition[i].bits, r);
      }
    }

    /** _gen_serial_bit. */
    method GenSerialBit(bits: nat, ghost r: Reading) returns (value: nat)
      requires Valid() && OuterDone(r, |composition|)
      ensures value == SerialValue(bits, Last(), Moved(composition, r, actime, Last()))
    {
      for i := 0 to |composition|
        invariant forall j :: 0 <= j < i && Outer(composition[j].component) ==>
                    OuterValue(composition, r, actime, composition[j].component) == Get(Last(), composition[j].component)
      {
        var c := composition[i].component;
        LastSlot(c);
        if curr[Slot(c)] != last[Slot(c)] && !c.Serial? && !c.TimeBack? {
          return Masked(last[Slot(Serial)], bits);
        }
      }
      return Masked(last[Slot(Serial)] + 1, bits);
    }

    /** _gen_timeback_bit. */
    method GenTimebackBit(bits: nat, ghost r: Reading) returns (value: nat)
      requires Valid() && OuterDone(r, |composition|)
      ensures value == TimeBackValue(bits, Last(), OuterValue(composition, r, actime, Time))
    {
      TimeIsCurr(r);
      if curr[Slot(Time)] < last[Slot(Time)] {
        value := last[Slot(TimeBack)] + 1;
      } else {
        value := last[Slot(TimeBack)];
      }
      value := Masked(value, bits);
    }

    lemma TimeIsCurr(r: Reading)
      requires Valid() && OuterDone(r, |composition|)
      ensures curr[Slot(Time)] == OuterValue(composition, r, actime, Time)
    {
      if Has(composition, Time) {
        var i :| 0 <= i < |composition| && composition[i].component == Time;
      } else {
        AbsentIsZero(composition, r, actime, Last(), Time);
      }
    }

    lemma NextIsCurr(r: Reading)
      requires Valid() && OuterDone(r, |composition|) && InnerDone(r, |composition|)
      ensures Fields(curr[1], curr[2], curr[3], curr[4], curr[5], curr[6]) == Next(composition, r, actime, Last())
    {
      SlotIsNext(r, Time);
      SlotIsNext(r, TimeBack);
      SlotIsNext(r, Mac);
      SlotIsNext(r, Ipv4);
      SlotIsNext(r, Ipv6);
      SlotIsNext(r, Serial);
    }

    lemma SlotIsNext(r: Reading, c: Component)
      requires Valid() && OuterDone(r, |composition|) && InnerDone(r, |composition|)
      ensures curr[Slot(c)] == Get(Next(composition, r, actime, Last()), c)
    {
      if Has(composition, c) {
        var i :| 0 <= i < |composition| && composition[i].component == c;
      } else {
        AbsentIsZero(composition, r, actime, Last(), c);
      }
    }

    /** _assemble: the fields are shifted to their places and joined with |. */
    method Assemble(ghost f: Fields) returns (value: nat)
      requires Valid() && FieldsInRange(composition, f)
      requires forall i :: 0 <= i < |composition| ==> curr[Slot(composition[i].component)] == Get(f, composition[i].component)
      ensures value == IdOf(composition, f)
    {
      value := 0;
      var bitOffset := ID_BITS;
      ghost var q: nat := 0;
      assert composition[0..] == composition && ValuesOf(composition, f)[0..] == ValuesOf(composition, f);
      for i := 0 to |composition|
        invariant Total(composition[i..]) <= bitOffset <= ID_BITS
        invariant value == Shifted(q, bitOffset)
        invariant IdOf(composition, f) == value + Positional(composition[i..], ValuesOf(composition, f)[i..], bitOffset)
      {
        ghost var top := bitOffset;
        assert composition[i..][1..] == composition[i + 1..];
        assert ValuesOf(composition, f)[i..][1..] == ValuesOf(composition, f)[i + 1..];
        bitOffset := bitOffset - composition[i].bits;
        var v := curr[Slot(composition[i].component)];
        q := JoinField(q, top, v, composition[i].bits);
        value := Or(value, Shifted(v, bitOffset));
      }
    }

    static lemma JoinField(q: nat, top: nat, v: nat, bits: nat) returns (q': nat)
      requires bits <= top && v < Pow2(bits)
      ensures Or(Shifted(q, top), Shifted(v, top - bits)) == Shifted(q, top) + Shifted(v, top - bits)
      ensures Shifted(q, top) + Shifted(v, top - bits) == Shifted(q', top - bits)
    {
      Pow2Sum(bits, top - bits);
      ProductStep(v, Pow2(bits), Pow2(top - bits));
      OrIsSum(q, Shifted(v, top - bits), top);
      Regroup(q, Pow2(bits), v, Pow2(top - bits));
      q' := q * Pow2(bits) + v;
    }

    static lemma Regroup(q: nat, a: nat, v: nat, b: nat)
      ensures q * (a * b) + v * b == (q * a + v) * b
    {
      assert q * (a * b) == (q * a) * b;
    }
  }
}
