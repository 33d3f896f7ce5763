/** Bit fields of the identifiers of libcrypt/crypt_snowflake.h. */
module SnowflakeFields {

  /** The components, without the two bounds of the enumeration. */
  datatype Component = Time | TimeBack | Mac | Ipv4 | Ipv6 | Serial

  /** One element of a composition. */
  datatype Field = Field(component: Component, bits: nat)

  type Composition = seq<Field>

  const ID_BITS: nat := 63

  function Pow2(k: nat): (p: nat)
    ensures p > 0
  {
    if k == 0 then 1 else 2 * Pow2(k - 1)
  }

  lemma {:induction false} Pow2Sum(a: nat, b: nat)
    ensures Pow2(a + b) == Pow2(a) * Pow2(b)
  {
    if a > 0 { Pow2Sum(a - 1, b); }
  }

  /** value & ((1 << bits) - 1) for a value that is not negative. */
  function Masked(value: nat, bits: nat): (r: nat)
    ensures r < Pow2(bits)
  {
    value % Pow2(bits)
  }

  /** value << k. */
  function Shifted(value: nat, k: nat): nat {
    value * Pow2(k)
  }

  /** The operator | on values that are not negative. */
  function Or(a: nat, b: nat): nat
    decreases a + b
  {
    if a == 0 then b else if b == 0 then a
    else 2 * Or(a / 2, b / 2) + (if a % 2 == 1 || b % 2 == 1 then 1 else 0)
  }

  /** Values without common bits: | is +. */
  lemma {:induction false} OrIsSum(q: nat, b: nat, k: nat)
    requires b < Pow2(k)
    ensures Or(Shifted(q, k), b) == Shifted(q, k) + b
    decreases k
  {
    var a := Shifted(q, k);
    if a != 0 && b != 0 {
      var half := Shifted(q, k - 1);
      assert a == 2 * half by { assert Pow2(k) == 2 * Pow2(k - 1); }
      OrIsSum(q, b / 2, k - 1);
      assert a / 2 == half && a % 2 == 0;
    }
  }

  function Total(comp: Composition): nat {
    if comp == [] then 0 else comp[0].bits + Total(comp[1..])
  }

  predicate EachOnce(comp: Composition) {
    forall i, j :: 0 <= i < j < |comp| ==> comp[i].component != comp[j].component
  }

  /** The values of the fields, in the order of the composition. */
  predicate InRange(comp: Composition, values: seq<nat>) {
    |values| == |comp| && forall i :: 0 <= i < |comp| ==> values[i] < Pow2(comp[i].bits)
  }

  /** The fields put one behind the other, the first at the top of the given bits. */
  function Positional(comp: Composition, values: seq<nat>, top: nat): (r: nat)
    requires |values| == |comp| && Total(comp) <= top
  {
    if comp == [] then 0
    else Shifted(values[0], top - comp[0].bits) + Positional(comp[1..], values[1..], top - comp[0].bits)
  }

  predicate LexLess(a: seq<nat>, b: seq<nat>)
    requires |a| == |b|
  {
    a != [] && (a[0] < b[0] || (a[0] == b[0] && LexLess(a[1..], b[1..])))
  }

  lemma RestInRange(comp: Composition, values: seq<nat>)
    requires InRange(comp, values) && comp != []
    ensures InRange(comp[1..], values[1..]) && values[0] < Pow2(comp[0].bits)
  {
    forall i | 0 <= i < |comp[1..]| ensures values[1..][i] < Pow2(comp[1..][i].bits) {
      assert values[i + 1] < Pow2(comp[i + 1].bits);
    }
  }

  /** Fields in range never reach beyond the top bit. */
  lemma {:induction false} PositionalBound(comp: Composition, values: seq<nat>, top: nat)
    requires InRange(comp, values) && Total(comp) <= top
    ensures Positional(comp, values, top) < Pow2(top)
  {
    if comp != [] {
      var bits := comp[0].bits;
      RestInRange(comp, values);
      PositionalBound(comp[1..], values[1..], top - bits);
      Pow2Sum(bits, top - bits);
      ProductStep(values[0], Pow2(bits), Pow2(top - bits));
    }
  }

  lemma ProductStep(a: nat, b: nat, unit: nat)
    requires a < b
    ensures a * unit + unit <= b * unit
  {
    assert b * unit == a * unit + (b - a) * unit;
    if b - a > 1 { assert (b - a) * unit == unit + (b - a - 1) * unit; }
  }

  /** Identifiers are ordered as their fields are, lexicographically. */
  lemma {:induction false} PositionalOrder(comp: Composition, a: seq<nat>, b: seq<nat>, top: nat)
    requires InRange(comp, a) && InRange(comp, b) && Total(comp) <= top
    ensures Positional(comp, a, top) < Positional(comp, b, top) <==> LexLess(a, b)
    ensures Positional(comp, a, top) == Positional(comp, b, top) <==> a == b
  {
    if comp != [] {
      var rest := top - comp[0].bits;
      RestInRange(comp, a);
      RestInRange(comp, b);
      PositionalBound(comp[1..], a[1..], rest);
      PositionalBound(comp[1..], b[1..], rest);
      PositionalOrder(comp[1..], a[1..], b[1..], rest);
      assert a == b <==> a[0] == b[0] && a[1..] == b[1..] by { Uncons(a); Uncons(b); }
      if a[0] < b[0] {
        ProductStep(a[0], b[0], Pow2(rest));
      } else if b[0] < a[0] {
        ProductStep(b[0], a[0], Pow2(rest));
      }
    }
  }

  lemma Uncons(a: seq<nat>)
    requires a != []
    ensures a == [a[0]] + a[1..]
  {
  }

  // Values by component.

  /** The seven-slot buffers hold one value for each component. */
  datatype Fields = Fields(time: nat, timeBack: nat, mac: nat, ipv4: nat, ipv6: nat, serial: nat)

  function Get(f: Fields, c: Component): nat {
    match c
    case Time => f.time
    case TimeBack => f.timeBack
    case Mac => f.mac
    case Ipv4 => f.ipv4
    case Ipv6 => f.ipv6
    case Serial => f.serial
  }

  function ValuesOf(comp: Composition, f: Fields): (values: seq<nat>)
    ensures |values| == |comp|
  {
    seq(|comp|, i requires 0 <= i < |comp| => Get(f, comp[i].component))
  }

  predicate FieldsInRange(comp: Composition, f: Fields) {
    forall i :: 0 <= i < |comp| ==> Get(f, comp[i].component) < Pow2(comp[i].bits)
  }

  /** What _assemble is for. */
  function IdOf(comp: Composition, f: Fields): nat
    requires Total(comp) <= ID_BITS
  {
    Positional(comp, ValuesOf(comp, f), ID_BITS)
  }

  /** Equal identifiers have equal fields, and no identifier is negative as a 64-bit
      number. */
  lemma IdDetermines(comp: Composition, f: Fields, g: Fields)
    requires Total(comp) <= ID_BITS && FieldsInRange(comp, f) && FieldsInRange(comp, g)
    ensures IdOf(comp, f) < Pow2(ID_BITS)
    ensures IdOf(comp, f) == IdOf(comp, g) <==>
            forall i :: 0 <= i < |comp| ==> Get(f, comp[i].component) == Get(g, comp[i].component)
  {
    var a, b := ValuesOf(comp, f), ValuesOf(comp, g);
    PositionalBound(comp, a, ID_BITS);
    PositionalOrder(comp, a, b, ID_BITS);
    if forall i :: 0 <= i < |comp| ==> Get(f, comp[i].component) == Get(g, comp[i].component) {
      assert a == b;
    } else {
      var i :| 0 <= i < |comp| && Get(f, comp[i].component) != Get(g, comp[i].component);
      assert a[i] != b[i];
    }
  }

  lemma IdOrder(comp: Composition, f: Fields, g: Fields)
    requires Total(comp) <= ID_BITS && FieldsInRange(comp, f) && FieldsInRange(comp, g)
    ensures IdOf(comp, f) < IdOf(comp, g) <==> LexLess(ValuesOf(comp, f), ValuesOf(comp, g))
  {
    PositionalOrder(comp, ValuesOf(comp, f), ValuesOf(comp, g), ID_BITS);
  }

  predicate Has(comp: Composition, c: Component) {
    exists i :: 0 <= i < |comp| && comp[i].component == c
  }

  /** The bits of a component, none if it is not there. */
  function Bits(comp: Composition, c: Component): nat {
    if comp == [] then 0 else if comp[0].component == c then comp[0].bits else Bits(comp[1..], c)
  }

  lemma {:induction false} BitsAt(comp: Composition, i: nat)
    requires EachOnce(comp) && i < |comp|
    ensures Bits(comp, comp[i].component) == comp[i].bits
  {
    if i > 0 {
      assert comp[0].component != comp[i].component;
      EachOnceRest(comp);
      BitsAt(comp[1..], i - 1);
    }
  }

  lemma EachOnceRest(comp: Composition)
    requires EachOnce(comp) && comp != []
    ensures EachOnce(comp[1..])
  {
    forall i, j | 0 <= i < j < |comp[1..]| ensures comp[1..][i].component != comp[1..][j].component {
      assert comp[i + 1].component != comp[j + 1].component;
    }
  }

  lemma {:induction false} BitsAbsent(comp: Composition, c: Component)
    requires !Has(comp, c)
    ensures Bits(comp, c) == 0
  {
    if comp != [] {
      assert comp[0].component != c;
      forall i | 0 <= i < |comp[1..]| ensures comp[1..][i].component != c {
        assert comp[i + 1].component != c;
      }
      BitsAbsent(comp[1..], c);
    }
  }
}
