/** Cron rules and their successor function, from libtimer/timer_schedue_crontab.cc. */
module Crontab {
  import opened TimerDate
  import opened CronWheels

  const FIELDS: nat := 8

  // The places of the fields in a rule.
  const YEAR: nat := 0
  const MONTH: nat := 1
  const DAY_OF_MONTH: nat := 2
  const WEEK: nat := 3
  const DAY_OF_WEEK: nat := 4
  const HOUR: nat := 5
  const MINUTE: nat := 6
  const SECOND: nat := 7

  datatype Ret = Success | Buckle | RuleInvalid

  /** _field2date. */
  function UnitOf(field: nat): Unit
    requires field < FIELDS
  {
    if field == YEAR then Year else if field == MONTH then Month else if field == DAY_OF_MONTH then DayOfMonth
    else if field == WEEK then Week else if field == DAY_OF_WEEK then DayOfWeek
    else if field == HOUR then Hour else if field == MINUTE then Minute else Second
  }

  // Sub-rules.

  /** The parts of a field between its commas. */
  datatype Item =
    | Star
    | StarStep(step: nat)
    | Span(first: nat, last: nat)
    | Number(value: nat)
    | Fault

  datatype SubRule = SubRule(frequencies: seq<int>, values: seq<int>)

  /** The text of a field: an asterisk alone, which _parse_rule looks for, or any other
      text with its parts. A text such as "*," has the part Star and is no asterisk alone. */
  datatype FieldText = Asterisk | Parts(parts: seq<Item>)

  function ItemsOf(text: FieldText): seq<Item> {
    if text.Asterisk? then [Star] else text.parts
  }

  function ValuesOf(items: seq<Item>): seq<int> {
    if items == [] then []
    else
      var n := |items| - 1;
      ValuesOf(items[..n]) +
      (match items[n]
       case Span(a, b) => Numbers(a, b)
       case Number(v) => [v]
       case _ => [])
  }

  function Numbers(a: int, b: int): seq<int>
    decreases b - a
  {
    if a > b then [] else Numbers(a, b - 1) + [b]
  }

  function FrequenciesOf(items: seq<Item>): seq<int> {
    if items == [] then []
    else
      var n := |items| - 1;
      FrequenciesOf(items[..n]) +
      (match items[n]
       case Star => [1]
       case StarStep(step) => [step]
       case _ => [])
  }

  predicate Covers(item: Item, v: int) {
    match item
    case Span(a, b) => a <= v <= b
    case Number(n) => v == n
    case _ => false
  }

  lemma {:induction false} NumbersAre(a: int, b: int, v: int)
    ensures v in Numbers(a, b) <==> a <= v <= b
    decreases b - a
  {
    if a <= b { NumbersAre(a, b - 1, v); }
  }

  predicate Covered(items: seq<Item>, v: int) {
    exists i :: 0 <= i < |items| && Covers(items[i], v)
  }

  lemma CoveredSnoc(items: seq<Item>, v: int)
    requires items != []
    ensures Covered(items, v) <==> Covered(items[..|items| - 1], v) || Covers(items[|items| - 1], v)
  {
    var front := items[..|items| - 1];
    if Covered(front, v) {
      var i :| 0 <= i < |front| && Covers(front[i], v);
      assert Covers(items[i], v);
    }
    if Covered(items, v) {
      var i :| 0 <= i < |items| && Covers(items[i], v);
      assert i < |front| ==> Covers(front[i], v);
    }
  }

  /** The list of a field has the numbers that its items cover. */
  lemma {:induction false} ValuesCover(items: seq<Item>, v: int)
    ensures v in ValuesOf(items) <==> Covered(items, v)
    decreases |items|
  {
    if items != [] {
      var last := items[|items| - 1];
      ValuesCover(items[..|items| - 1], v);
      CoveredSnoc(items, v);
      if last.Span? { NumbersAre(last.first, last.last, v); }
    }
  }

  // sort, and erasing what unique moves to the end.

  function Inserted(x: int, xs: seq<int>): seq<int> {
    if xs == [] || x < xs[0] then [x] + xs
    else if x == xs[0] then xs
    else [xs[0]] + Inserted(x, xs[1..])
  }

  function SortedUnique(xs: seq<int>): seq<int> {
    if xs == [] then [] else Inserted(xs[0], SortedUnique(xs[1..]))
  }

  lemma {:induction false} InsertedFacts(x: int, xs: seq<int>)
    requires Ascending(xs)
    ensures Ascending(Inserted(x, xs))
    ensures forall v :: v in Inserted(x, xs) <==> v == x || v in xs
  {
    if xs != [] && x > xs[0] {
      var rest := Inserted(x, xs[1..]);
      InsertedFacts(x, xs[1..]);
      forall v | v in rest ensures v > xs[0] {
        if v in xs[1..] {
          var j :| 0 <= j < |xs[1..]| && xs[1..][j] == v;
          assert xs[j + 1] == v;
        }
      }
      forall i, j | 0 <= i < j < |[xs[0]] + rest| ensures ([xs[0]] + rest)[i] < ([xs[0]] + rest)[j] {
        assert ([xs[0]] + rest)[j] == rest[j - 1] && rest[j - 1] in rest;
      }
      assert forall v :: v in xs <==> v == xs[0] || v in xs[1..];
    }
  }

  /** The list of a field is strictly ascending and has the same elements. */
  lemma {:induction false} SortedUniqueFacts(xs: seq<int>)
    ensures Ascending(SortedUnique(xs))
    ensures forall v :: v in SortedUnique(xs) <==> v in xs
  {
    if xs != [] {
      SortedUniqueFacts(xs[1..]);
      InsertedFacts(xs[0], SortedUnique(xs[1..]));
      assert forall v :: v in xs <==> v == xs[0] || v in xs[1..];
    }
  }

  /** The largest value of a field, and the modulus of its frequencies; years have none. */
  function Largest(field: nat): (m: nat)
    requires field < FIELDS && field != YEAR
    ensures m > 0
  {
    if field == MONTH then 12 else if field == DAY_OF_MONTH then 31 else if field == WEEK then 56
    else if field == DAY_OF_WEEK then 7 else if field == HOUR then 24 else 60
  }

  predicate TooLarge(field: nat, value: int)
    requires field < FIELDS
  {
    field != YEAR && value > Largest(field)
  }

  predicate Parses(field: nat, items: seq<Item>)
    requires field < FIELDS
  {
    && items != [] && Fault !in items
    && !(ValuesOf(items) != [] && FrequenciesOf(items) != [])
    && |SortedUnique(FrequenciesOf(items))| <= 1
    && forall v :: v in ValuesOf(items) ==> !TooLarge(field, v)
  }

  /** The sub-rule of a field; without a list it is not valid. */
  function Parsed(field: nat, items: seq<Item>): SubRule
    requires field < FIELDS
  {
    if Parses(field, items) then SubRule(SortedUnique(FrequenciesOf(items)), SortedUnique(ValuesOf(items)))
    else SubRule([], [])
  }

  predicate HasRule(r: SubRule) {
    r.frequencies != [] || r.values != []
  }

  lemma {:induction false} SortedUniqueEmpty(xs: seq<int>)
    ensures SortedUnique(xs) == [] <==> xs == []
  {
  }

  /** _parse_sub_rule, and the constructor that drops the lists when it fails. */
  method ParseSubRule(field: nat, items: seq<Item>) returns (r: SubRule)
    requires field < FIELDS
    ensures r == Parsed(field, items)
  {
    if |items| == 0 {
      return SubRule([], []);
    }
    var frequencies: seq<int>, values: seq<int> := [], [];
    for i := 0 to |items|
      invariant Fault !in items[..i]
      invariant frequencies == FrequenciesOf(items[..i]) && values == ValuesOf(items[..i])
    {
      assert items[..i + 1][..i] == items[..i];
      match items[i] {
        case Star => frequencies := frequencies + [1];
        case StarStep(step) => frequencies := frequencies + [step];
        case Span(a, b) => values := AppendNumbers(values, a, b);
        case Number(v) => values := values + [v];
        case Fault => return SubRule([], []);
      }
    }
    assert items[..|items|] == items;
    SortedUniqueEmpty(frequencies);
    SortedUniqueEmpty(values);
    frequencies := SortedUnique(frequencies);
    SortedUniqueFacts(values);
    values := SortedUnique(values);
    if (|values| > 0 && |frequencies| > 0) || |frequencies| > 1 {
      return SubRule([], []);
    }
    for i := 0 to |values|
      invariant forall j :: 0 <= j < i ==> !TooLarge(field, values[j])
    {
      if TooLarge(field, values[i]) {
        assert values[i] in ValuesOf(items);
        return SubRule([], []);
      }
    }
    return SubRule(frequencies, values);
  }

  method AppendNumbers(values: seq<int>, first: int, last: int) returns (r: seq<int>)
    ensures r == values + Numbers(first, last)
  {
    r := values;
    var i := first;
    while i <= last
      invariant first <= i && (i <= last + 1 || i == first)
      invariant r == values + Numbers(first, i - 1)
      decreases last - i
    {
      r := r + [i];
      i := i + 1;
    }
    assert first <= last || Numbers(first, i - 1) == [];
  }

  /** Where a frequency starts over, and the modulus it is then taken to. */
  function Wrapped(field: nat, next: int): Advanced
    requires field < FIELDS
  {
    if field == YEAR then Advanced(next, false)
    else
      var m := Largest(field);
      if next > m || (field == MINUTE && next == m) then Advanced(next % m, true) else Advanced(next, false)
  }

  /** A frequency moves on within the range of its field, and around modulo its size; it
      starts over exactly when it moves off the range. */
  lemma WrappedInRange(field: nat, next: nat)
    requires field < FIELDS && field != YEAR
    ensures var a := Wrapped(field, next);
            && 0 <= a.value <= Largest(field) && a.value % Largest(field) == next % Largest(field)
            && (a.over <==> a.value != next) && (field == MINUTE ==> a.value < Largest(field))
  {
    var m := Largest(field);
    if Wrapped(field, next).over {
      assert (next % m) % m == next % m;
    }
  }

  function SubNext(field: nat, r: SubRule, curr: int): Advanced
    requires field < FIELDS && HasRule(r)
  {
    if r.frequencies != [] then Wrapped(field, curr + r.frequencies[0])
    else Advance(Cycle(r.values), curr)
  }

  /** A frequency steps to a value up to the last of its field, or starts over at one that is
      congruent to it. */
  predicate StepsTo(ret: Ret, next: int, to: int, last: int, size: nat)
    requires size > 0
  {
    if to <= last then ret == Success && next == to
    else ret == Buckle && 0 <= next < size && (to - next) % size == 0
  }

  lemma Congruent(to: nat, size: nat)
    requires size > 0
    ensures 0 <= to % size < size && (to - to % size) % size == 0
  {
    var q := to / size;
    assert to - to % size == size * q;
    if q > 0 {
      NextMultiple(q - 1, size);
      assert size * q == size * (q - 1) + size;
    }
  }

  lemma StepsAround(to: int, last: int, size: nat)
    requires 0 < size && 0 <= last
    ensures if to <= last then StepsTo(Success, to, to, last, size) else StepsTo(Buckle, to % size, to, last, size)
  {
    if to > last { Congruent(to, size); }
  }

  /** Where a frequency leads from a value, field by field. */
  ghost predicate FrequencyMoves(field: nat, ret: Ret, next: int, to: int) {
    && (field == 0 ==> ret == Success && next == to)
    && (field == 1 ==> StepsTo(ret, next, to, 12, 12))
    && (field == 2 ==> StepsTo(ret, next, to, 31, 31))
    && (field == 3 ==> StepsTo(ret, next, to, 56, 56))
    && (field == 4 ==> StepsTo(ret, next, to, 7, 7))
    && (field == 5 ==> StepsTo(ret, next, to, 24, 24))
    && (field == 6 ==> StepsTo(ret, next, to, 59, 60))
    && (field == 7 ==> StepsTo(ret, next, to, 60, 60))
  }

  lemma WrappedMoves(field: nat, to: int)
    requires field < FIELDS
    ensures FrequencyMoves(field, if Wrapped(field, to).over then Buckle else Success, Wrapped(field, to).value, to)
  {
    if field == 6 {
      StepsAround(to, 59, 60);
    } else if field > 0 {
      StepsAround(to, Largest(field), Largest(field));
    }
  }

  /** The first value of a list above the given one, or the first of the list. */
  ghost predicate ListMoves(values: seq<int>, ret: Ret, next: int, curr: int)
    requires values != []
  {
    && (ret == Success <==> exists v :: v in values && v > curr)
    && (ret == Success ==> next in values && next > curr)
    && (ret == Success && Ascending(values) ==> forall v :: v in values && v > curr ==> next <= v)
    && (ret != Success ==> ret == Buckle && next == values[0])
  }

  lemma AdvanceMoves(values: seq<int>, curr: int)
    requires values != []
    ensures var a := Advance(Cycle(values), curr); ListMoves(values, if a.over then Buckle else Success, a.value, curr)
  {
    var k := FirstAbove(values, curr);
    if k < |values| { assert values[k] in values; }
  }

  /** SubRule::Next. The modulus in Wrapped is only taken of positive numbers. */
  method SubRuleNext(field: nat, r: SubRule, curr: int) returns (ret: Ret, next: int)
    requires field < FIELDS
    ensures !HasRule(r) ==> ret == RuleInvalid
    ensures HasRule(r) ==> next == SubNext(field, r, curr).value
    ensures HasRule(r) ==> ret == if SubNext(field, r, curr).over then Buckle else Success
    ensures r.frequencies != [] ==> FrequencyMoves(field, ret, next, curr + r.frequencies[0])
    ensures r.frequencies == [] && r.values != [] ==> ListMoves(r.values, ret, next, curr)
  {
    next := 0;
    if |r.values| == 0 && |r.frequencies| == 0 {
      return RuleInvalid, next;
    }
    var buckle := false;
    if |r.frequencies| > 0 {
      var a := Wrapped(field, curr + r.frequencies[0]);
      WrappedMoves(field, curr + r.frequencies[0]);
      next, buckle := a.value, a.over;
    } else {
      AdvanceMoves(r.values, curr);
      buckle := true;
      var i := 0;
      while i < |r.values|
        invariant 0 <= i <= |r.values| && buckle
        invariant FirstAbove(r.values, curr) == i + FirstAbove(r.values[i..], curr)
      {
        assert r.values[i..][1..] == r.values[i + 1..];
        if r.values[i] > curr {
          next := r.values[i];
          buckle := false;
          break;
        }
        i := i + 1;
      }
      if buckle {
        next := r.values[0];
      }
    }
    ret := if buckle then Buckle else Success;
  }

  // Rules.

  datatype Rule = Rule(subs: seq<SubRule>, skipMonth: bool, skipWeek: bool, skipDayOfMonth: bool, skipDayOfWeek: bool)

  predicate Skipped(rule: Rule, field: nat) {
    || (field == WEEK && rule.skipWeek)
    || (field == MONTH && rule.skipMonth)
    || (field == DAY_OF_WEEK && rule.skipDayOfWeek)
    || (field == DAY_OF_MONTH && rule.skipDayOfMonth)
  }

  predicate Complete(rule: Rule) {
    |rule.subs| == FIELDS && AllRules(rule.subs)
  }

  /** The loop of Next over the first n fields, the last of them first. */
  function NextFrom(rule: Rule, tm: Tm, n: nat): Tm
    requires Complete(rule) && n <= FIELDS
    decreases n
  {
    if n == 0 then tm
    else if Skipped(rule, n - 1) then NextFrom(rule, tm, n - 1)
    else
      var a := SubNext(n - 1, rule.subs[n - 1], Read(tm, UnitOf(n - 1)));
      var tm' := Written(tm, a.value, UnitOf(n - 1));
      if a.over then NextFrom(rule, tm', n - 1) else tm'
  }

  predicate AllRules(subs: seq<SubRule>) {
    forall i :: 0 <= i < |subs| ==> HasRule(subs[i])
  }

  function SubsOf(fields: seq<FieldText>): (subs: seq<SubRule>)
    requires |fields| == FIELDS
    ensures |subs| == FIELDS
  {
    seq(FIELDS, i requires 0 <= i < FIELDS => Parsed(i, ItemsOf(fields[i])))
  }

  /** The rules that are taken: eight fields, at most one of Month and Week and at most
      one of the two kinds of day given, and a list for every field. */
  predicate Accepted(fields: seq<FieldText>) {
    && |fields| == FIELDS
    && (fields[WEEK] == Asterisk || fields[MONTH] == Asterisk)
    && (fields[DAY_OF_WEEK] == Asterisk || fields[DAY_OF_MONTH] == Asterisk)
    && AllRules(SubsOf(fields))
  }

  /** Of two fields that are both free, the week and the day of the week are skipped. */
  function RuleOf(fields: seq<FieldText>): Rule
    requires Accepted(fields)
  {
    Rule(SubsOf(fields), fields[WEEK] != Asterisk, fields[WEEK] == Asterisk,
         fields[DAY_OF_WEEK] != Asterisk, fields[DAY_OF_WEEK] == Asterisk)
  }

  class Cron {
    var rule: Rule

    ghost predicate Valid()
      reads this
    {
      rule.subs != [] ==> Complete(rule)
    }

    /** _parse_rule. */
    constructor (fields: seq<FieldText>)
      ensures Valid()
      ensures rule.subs != [] <==> Accepted(fields)
      ensures Accepted(fields) ==> rule == RuleOf(fields)
      ensures rule.subs != [] ==>
                && |fields| == 8 && |rule.subs| == 8
                && (forall i :: 0 <= i < 8 ==> rule.subs[i] == Parsed(i, ItemsOf(fields[i])) && HasRule(rule.subs[i]))
                && (rule.skipWeek <==> fields[3] == Asterisk) && (rule.skipMonth <==> fields[3] != Asterisk)
                && (rule.skipDayOfWeek <==> fields[4] == Asterisk) && (rule.skipDayOfMonth <==> fields[4] != Asterisk)
                && (fields[3] == Asterisk || fields[1] == Asterisk) && (fields[4] == Asterisk || fields[2] == Asterisk)
    {
      rule := Rule([], false, false, false, false);
      new;
      if |fields| != FIELDS {
        return;
      }
      var skipWeek, skipMonth := fields[WEEK] == Asterisk, false;
      if !skipWeek {
        skipMonth := fields[MONTH] == Asterisk;
        if !skipMonth {
          return;
        }
      }
      var skipDayOfWeek, skipDayOfMonth := fields[DAY_OF_WEEK] == Asterisk, false;
      if !skipDayOfWeek {
        skipDayOfMonth := fields[DAY_OF_MONTH] == Asterisk;
        if !skipDayOfMonth {
          return;
        }
      }
      var subs := ParseSubRules(fields);
      rule := Rule(subs, skipMonth, skipWeek, skipDayOfMonth, skipDayOfWeek);
    }

    static method ParseField(fields: seq<FieldText>, i: nat) returns (r: SubRule)
      requires |fields| == FIELDS && i < FIELDS
      ensures r == SubsOf(fields)[i]
    {
      r := ParseSubRule(i, ItemsOf(fields[i]));
    }

    static method ParseSubRules(fields: seq<FieldText>) returns (subs: seq<SubRule>)
      requires |fields| == FIELDS
      ensures subs == if AllRules(SubsOf(fields)) then SubsOf(fields) else []
    {
      subs := [];
      ghost var all := SubsOf(fields);
      for i := 0 to FIELDS
        invariant subs == all[..i] && AllRules(subs)
      {
        var r := ParseField(fields, i);
        if !(|r.values| != 0 || |r.frequencies| != 0) {
          return [];
        }
        subs := subs + [r];
        assert all[..i] + [all[i]] == all[..i + 1];
      }
      assert all[..FIELDS] == all;
    }

    /** Next. */
    method Next(curr: Date, next: Date) returns (ret: Ret)
      requires Valid()
      modifies next
      ensures rule.subs == [] ==> ret == RuleInvalid && next.date == old(next.date)
      ensures rule.subs != [] ==> ret == Success && next.date == NextFrom(rule, old(curr.date), FIELDS)
    {
      if |rule.subs| != FIELDS {
        return RuleInvalid;
      }
      next.date := curr.date;
      var i := FIELDS;
      while i > 0
        invariant 0 <= i <= FIELDS
        invariant NextFrom(rule, old(curr.date), FIELDS) == NextFrom(rule, next.date, i)
      {
        i := i - 1;
        if Skipped(rule, i) {
          continue;
        }
        var r, value := SubRuleNext(i, rule.subs[i], next.Get(UnitOf(i)));
        next.Set(value, UnitOf(i));
        if r == Success {
          break;
        }
      }
      return Success;
    }
  }
}
