/** Fields of a cron rule that are given by a frequency: what they list, and where they
    stand still. */
module CronFrequency {
  import opened Common
  import opened TimerDate
  import opened CronWheels
  import opened Crontab
  import opened CronSuccessor

  // The ranges of the fields.

  /** What each field is of the date, and its largest value in a rule. */
  lemma FieldTable()
    ensures UnitOf(0) == Unit.Year && UnitOf(1) == Unit.Month && UnitOf(2) == Unit.DayOfMonth && UnitOf(3) == Unit.Week
    ensures UnitOf(4) == Unit.DayOfWeek && UnitOf(5) == Unit.Hour && UnitOf(6) == Unit.Minute && UnitOf(7) == Unit.Second
    ensures Largest(1) == 12 && Largest(2) == 31 && Largest(3) == 56 && Largest(4) == 7
    ensures Largest(5) == 24 && Largest(6) == 60 && Largest(7) == 60
    ensures forall v: int :: !TooLarge(0, v)
  {
  }

  /** The parts of a field give this frequency. */
  predicate Gives(item: Item, n: int) {
    (item.Star? && n == 1) || (item.StarStep? && n == item.step)
  }

  predicate Given(items: seq<Item>, n: int) {
    exists i :: 0 <= i < |items| && Gives(items[i], n)
  }

  lemma {:induction false} FrequenciesAre(items: seq<Item>, n: int)
    ensures n in FrequenciesOf(items) <==> Given(items, n)
    decreases |items|
  {
    if items != [] {
      var front, last := items[..|items| - 1], items[|items| - 1];
      FrequenciesAre(front, n);
      if Given(front, n) {
        var i :| 0 <= i < |front| && Gives(front[i], n);
        assert Gives(items[i], n);
      }
      if Given(items, n) {
        var i :| 0 <= i < |items| && Gives(items[i], n);
        assert i < |front| ==> Gives(front[i], n);
      }
    }
  }

  lemma OneElement(xs: seq<int>)
    ensures |SortedUnique(xs)| <= 1 <==> forall m, n :: m in xs && n in xs ==> m == n
  {
    var s := SortedUnique(xs);
    SortedUniqueFacts(xs);
    if |s| > 1 { assert s[0] in xs && s[1] in xs && s[0] < s[1]; }
    if |s| == 1 {
      forall m, n | m in xs && n in xs ensures m == n { assert m in s && n in s; }
    }
    SortedUniqueEmpty(xs);
  }

  /** A field has a frequency exactly if its parts give one, only one, and no numbers; a
      list exactly if they give numbers, none too large, and no frequency; and never with
      a fault. */
  lemma ParsedExactly(field: nat, items: seq<Item>)
    requires field < FIELDS
    ensures var r := Parsed(field, items);
            && (r.frequencies != [] <==>
                  && Fault !in items && (exists n :: Given(items, n)) && (forall v :: !Covered(items, v))
                  && forall m, n :: Given(items, m) && Given(items, n) ==> m == n)
            && (r.values != [] <==>
                  && Fault !in items && (exists v :: Covered(items, v)) && (forall n :: !Given(items, n))
                  && forall v :: Covered(items, v) ==> !TooLarge(field, v))
            && (r.frequencies != [] ==> r.values == [] && |r.frequencies| == 1 && Given(items, r.frequencies[0]))
            && (r.values != [] ==> r.frequencies == [] && Ascending(r.values) && forall v :: v in r.values <==> Covered(items, v))
  {
    var fs, vs := FrequenciesOf(items), ValuesOf(items);
    forall n ensures n in fs <==> Given(items, n) { FrequenciesAre(items, n); }
    forall v ensures v in vs <==> Covered(items, v) { ValuesCover(items, v); }
    OneElement(fs);
    SortedUniqueFacts(fs);
    SortedUniqueFacts(vs);
    SortedUniqueEmpty(fs);
    SortedUniqueEmpty(vs);
    assert fs != [] ==> fs[0] in fs;
    assert vs != [] ==> vs[0] in vs;
    var r := Parsed(field, items);
    if r.frequencies != [] { assert r.frequencies[0] in fs; }
  }

  /** The values that Date::Set takes, unit by unit. */
  lemma SettableTable(v: int)
    ensures Settable(v, Unit.Year) <==> 0 <= v
    ensures Settable(v, Unit.Month) <==> 0 <= v < 12
    ensures !Settable(v, Unit.Week)
    ensures Settable(v, Unit.DayOfWeek) <==> 0 <= v < 7
    ensures Settable(v, Unit.DayOfMonth) <==> 0 <= v <= 31
    ensures Settable(v, Unit.DayOfYear) <==> 0 <= v < 366
    ensures Settable(v, Unit.Hour) <==> 0 <= v < 24
    ensures Settable(v, Unit.Minute) <==> 0 <= v < 60
    ensures Settable(v, Unit.Second) <==> 0 <= v < 60
  {
  }

  /** A frequency leads to a value inside its field that Set refuses exactly at the upper
      end of four fields, and in the week everywhere. */
  lemma RefusedExactly(field: nat, n: nat, curr: nat)
    requires field < FIELDS
    ensures var a := SubNext(field, SubRule([n], []), curr);
            !a.over && !Settable(a.value, UnitOf(field)) <==>
            || (field == MONTH && curr + n == 12)
            || (field == WEEK && curr + n <= 56)
            || (field == DAY_OF_WEEK && curr + n == 7)
            || (field == HOUR && curr + n == 24)
            || (field == SECOND && curr + n == 60)
  {
    WrappedMoves(field, curr + n);
    if field == 0 {} else if field == 1 {} else if field == 2 {} else if field == 3 {} else if field == 4 {}
    else if field == 5 {} else if field == 6 {} else {}
  }

  /** The sub-rule of a field is this frequency alone. */
  predicate Every(rule: Rule, field: nat, n: nat)
    requires Complete(rule) && field < FIELDS
  {
    rule.subs[field] == SubRule([n], []) && !Skipped(rule, field)
  }

  lemma {:induction false} SecondStays(rule: Rule, tm: Tm, n: nat)
    requires Complete(rule) && n <= SECOND
    ensures NextFrom(rule, tm, n).sec == tm.sec
    decreases n
  {
    if n > 0 {
      if Skipped(rule, n - 1) {
        SecondStays(rule, tm, n - 1);
      } else {
        var a := SubNext(n - 1, rule.subs[n - 1], Read(tm, UnitOf(n - 1)));
        assert Written(tm, a.value, UnitOf(n - 1)).sec == tm.sec;
        if a.over { SecondStays(rule, Written(tm, a.value, UnitOf(n - 1)), n - 1); }
      }
    }
  }

  /** With a frequency of seconds Next gives the present date again exactly if it leads to
      second 60. */
  lemma SecondSticksIff(rule: Rule, tm: Tm, n: nat)
    requires Complete(rule) && Every(rule, SECOND, n) && 1 <= n < 60 && 0 <= tm.sec < 60
    ensures NextFrom(rule, tm, FIELDS) == tm <==> tm.sec + n == 60
  {
    var a := SubNext(SECOND, SubRule([n], []), tm.sec);
    var tm' := Written(tm, a.value, Unit.Second);
    RefusedExactly(SECOND, n, tm.sec);
    if a.over {
      assert tm.sec + n > 60 && a.value == (tm.sec + n) % 60 == tm.sec + n - 60;
      SecondStays(rule, tm', SECOND);
      assert NextFrom(rule, tm, FIELDS).sec == a.value != tm.sec;
    } else if tm.sec + n < 60 {
      assert NextFrom(rule, tm, FIELDS) == tm.(sec := tm.sec + n);
    }
  }

  /** A rule for every second counts up to second 59 and stays there for good. */
  lemma {:induction false} EverySecondStops(rule: Rule, tm: Tm, k: nat)
    requires Complete(rule) && Every(rule, SECOND, 1) && 0 <= tm.sec < 60
    ensures Iterate(rule, tm, k) == tm.(sec := if tm.sec + k < 59 then tm.sec + k else 59)
  {
    if k > 0 {
      EverySecondStops(rule, tm, k - 1);
      var now := Iterate(rule, tm, k - 1);
      SecondSticksIff(rule, now, 1);
      if now.sec < 59 {
        assert NextFrom(rule, now, FIELDS) == now.(sec := now.sec + 1);
      }
    }
  }

  // What a frequency of minutes lists.

  lemma ModuloSum(x: nat, n: nat)
    ensures (x + n) % 60 == (x % 60 + n) % 60
  {
  }

  lemma Around(k: nat, n: nat)
    requires k > 0
    ensures k * n == (k - 1) * n + n
    ensures k * n % 60 == ((k - 1) * n % 60 + n) % 60
  {
    assert k * n == (k - 1) * n + n;
    ModuloSum((k - 1) * n, n);
  }

  lemma Sixty(n: nat, m: nat)
    requires 0 < n <= 60 && 60 % n == 0 && m == 60 / n
    ensures 0 < m && m * n == 60
  {
    assert 60 == n * m + 60 % n;
  }

  lemma PeriodOf(k: nat, n: nat, m: nat)
    requires 0 < m && m * n == 60
    ensures k * n % 60 == k % m * n && k % m * n <= 60 - n
  {
    var q, r := k / m, k % m;
    assert k == q * m + r;
    assert (q * m + r) * n == q * (m * n) + r * n;
    assert k * n == q * 60 + r * n;
    Scale(n, r, m - 1);
    assert (m - 1) * n == 60 - n;
  }

  /** A frequency that divides the hour comes round after 60 / n steps. */
  lemma DivisorPeriod(k: nat, n: nat)
    requires 0 < n <= 60 && 60 % n == 0
    ensures 60 / n > 0 && k * n % 60 == k % (60 / n) * n
  {
    var m := 60 / n;
    Sixty(n, m);
    PeriodOf(k, n, m);
  }

  lemma OverOf(k: nat, n: nat, m: nat)
    requires 0 < m && m * n == 60 && k > 0
    ensures (k - 1) * n % 60 + n >= 60 <==> k % m == 0
  {
    var r := (k - 1) % m;
    PeriodOf(k - 1, n, m);
    NextRemainder(k - 1, m);
    assert r * n + n == (r + 1) * n;
    if r < m - 1 {
      Scale(n, r + 1, m - 1);
      assert (m - 1) * n == 60 - n;
    }
  }

  lemma DivisorOver(k: nat, n: nat)
    requires 0 < n <= 60 && 60 % n == 0 && k > 0
    ensures 60 / n > 0 && ((k - 1) * n % 60 + n >= 60 <==> k % (60 / n) == 0)
  {
    var m := 60 / n;
    Sixty(n, m);
    OverOf(k, n, m);
  }

  lemma NextRemainder(x: nat, m: nat)
    requires m > 0
    ensures (x + 1) % m == if x % m == m - 1 then 0 else x % m + 1
  {
    var q, r := x / m, x % m;
    assert x == m * q + r;
    if r == m - 1 {
      assert x + 1 == m * (q + 1);
      NextMultiple(q, m);
      assert m * q + m == x + 1;
    } else {
      RemainderOf(x + 1, m, q, r + 1);
    }
  }

  lemma RemainderOf(x: nat, m: nat, q: nat, r: nat)
    requires x == m * q + r && r < m
    ensures x % m == r
  {
    var q', r' := x / m, x % m;
    assert m * (q - q') == r' - r;
    if q > q' { Scale(m, 1, q - q'); }
    if q < q' { Scale(m, q - q', -1); }
  }

  /** A frequency of minutes starts over at minute 0 each time exactly if it divides 60. */
  lemma StartsAtZeroIff(n: nat)
    requires 1 <= n <= 60
    ensures 60 % n == 0 <==> forall k: nat :: k > 0 && (k - 1) * n % 60 + n >= 60 ==> k * n % 60 == 0
  {
    if 60 % n == 0 {
      forall k: nat | k > 0 && (k - 1) * n % 60 + n >= 60 ensures k * n % 60 == 0 {
        DivisorOver(k, n);
        DivisorPeriod(k, n);
      }
    } else {
      var m := 60 / n;
      var k := m + 1;
      assert 60 == n * m + 60 % n;
      assert (k - 1) * n == n * m && k * n == n * m + n;
      assert (k - 1) * n % 60 == n * m;
      assert k * n % 60 == n - 60 % n;
    }
  }

  /** Repeated calls from minute 0: the multiples of the frequency, modulo 60; and where the
      field starts over. */
  method ListMinutes(n: nat, count: nat) returns (values: seq<int>, over: seq<bool>)
    ensures |values| == |over| == count + 1 && values[0] == 0
    ensures forall k: nat :: k <= count ==> values[k] == k * n % 60
    ensures forall k :: 0 < k <= count ==> (over[k] <==> values[k - 1] + n >= 60)
    ensures 0 < n <= 60 && 60 % n == 0 ==>
              forall k: nat :: k <= count ==> values[k] == k % (60 / n) * n && (k > 0 ==> (over[k] <==> k % (60 / n) == 0))
  {
    values, over := [0], [false];
    for i := 0 to count
      invariant |values| == |over| == i + 1 && values[0] == 0
      invariant forall k: nat :: k <= i ==> values[k] == k * n % 60
      invariant forall k :: 0 < k <= i ==> (over[k] <==> values[k - 1] + n >= 60)
    {
      var ret, next := SubRuleNext(MINUTE, SubRule([n], []), values[i]);
      Around(i + 1, n);
      assert next == (values[i] + n) % 60;
      values, over := values + [next], over + [ret == Buckle];
    }
    if 0 < n <= 60 && 60 % n == 0 {
      forall k: nat | k <= count
        ensures values[k] == k % (60 / n) * n && (k > 0 ==> (over[k] <==> k % (60 / n) == 0))
      {
        DivisorPeriod(k, n);
        if k > 0 { DivisorOver(k, n); }
      }
    }
  }
}
