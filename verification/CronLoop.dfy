/** What Next does to a date under any rule: lists and frequencies in every field, weeks and
    days of the week given or not. */
module CronLoop {
  import opened CronWheels
  import opened Crontab
  import opened TimerDate

  /** What a field shows when the loop over the first n fields comes to it: its value at the
      start, but for the week, which moves with the day of the year that is set for a day
      of the week. */
  function Shown(rule: Rule, tm: Tm, n: nat, field: nat): int
    requires Complete(rule) && field < n <= FIELDS
  {
    if field == WEEK && DAY_OF_WEEK < n && !Skipped(rule, DAY_OF_WEEK) then
      var v := SubNext(DAY_OF_WEEK, rule.subs[DAY_OF_WEEK], Read(tm, DayOfWeek)).value;
      Read(Written(tm, v, DayOfWeek), Week)
    else Read(tm, UnitOf(field))
  }

  /** Where its sub-rule leads from there. */
  function Leads(rule: Rule, tm: Tm, n: nat, field: nat): Advanced
    requires Complete(rule) && field < n <= FIELDS
  {
    SubNext(field, rule.subs[field], Shown(rule, tm, n, field))
  }

  /** The last field that is not skipped and does not start over; the year at the latest. */
  ghost predicate StopsAt(rule: Rule, tm: Tm, n: nat, stop: nat)
    requires Complete(rule) && n <= FIELDS
  {
    && stop < n && !Skipped(rule, stop) && (stop == YEAR || !Leads(rule, tm, n, stop).over)
    && forall i {:trigger Skipped(rule, i)} :: stop < i < n ==> Skipped(rule, i) || Leads(rule, tm, n, i).over
  }

  /** The field comes to hold another value. */
  predicate Moves(rule: Rule, tm: Tm, n: nat, stop: nat, field: nat)
    requires Complete(rule) && n <= FIELDS
  {
    stop <= field < n && !Skipped(rule, field) && Settable(Leads(rule, tm, n, field).value, UnitOf(field))
  }

  /** The fields from the stop on that are not skipped hold what their sub-rules lead to,
      where Set takes it; all others are as before. The day of the week shows no change. */
  ghost predicate Moved(rule: Rule, tm: Tm, r: Tm, n: nat, stop: nat)
    requires Complete(rule) && n <= FIELDS
  {
    && (forall i :: 0 <= i < FIELDS && Plain(UnitOf(i)) ==>
          Read(r, UnitOf(i)) == if Moves(rule, tm, n, stop, i) then Leads(rule, tm, n, i).value else Read(tm, UnitOf(i)))
    && r.wday == tm.wday
    && r.yday == if Moves(rule, tm, n, stop, DAY_OF_WEEK) then Quotient7(tm.yday) + Leads(rule, tm, n, DAY_OF_WEEK).value - 1
                 else tm.yday
  }

  /** The loop reads the same in the fields still to come after one has been set. */
  lemma LeadsOn(rule: Rule, tm: Tm, n: nat, field: nat)
    requires Complete(rule) && field + 1 < n <= FIELDS && !Skipped(rule, n - 1)
    ensures var tm' := Written(tm, Leads(rule, tm, n, n - 1).value, UnitOf(n - 1));
            Leads(rule, tm', n - 1, field) == Leads(rule, tm, n, field)
  {
    var tm' := Written(tm, Leads(rule, tm, n, n - 1).value, UnitOf(n - 1));
    assert Shown(rule, tm', n - 1, field) == Shown(rule, tm, n, field);
  }

  /** What writing one field does to the others. */
  lemma OneWritten(tm: Tm, field: nat, value: int)
    requires field < FIELDS
    ensures var r := Written(tm, value, UnitOf(field));
            && (forall i :: 0 <= i < FIELDS && Plain(UnitOf(i)) ==>
                  Read(r, UnitOf(i)) == if i == field && Settable(value, UnitOf(i)) then value else Read(tm, UnitOf(i)))
            && r.wday == tm.wday
            && r.yday == if field == DAY_OF_WEEK && Settable(value, DayOfWeek) then Quotient7(tm.yday) + value - 1 else tm.yday
  {
    var r := Written(tm, value, UnitOf(field));
    forall i | 0 <= i < FIELDS && Plain(UnitOf(i))
      ensures Read(r, UnitOf(i)) == if i == field && Settable(value, UnitOf(i)) then value else Read(tm, UnitOf(i))
    {
      if Plain(UnitOf(field)) && Settable(value, UnitOf(field)) { ReadWritten(tm, value, UnitOf(field), UnitOf(i)); }
    }
  }

  lemma MovedLast(rule: Rule, tm: Tm, n: nat)
    requires Complete(rule) && 0 < n <= FIELDS && !Skipped(rule, n - 1)
    ensures Moved(rule, tm, Written(tm, Leads(rule, tm, n, n - 1).value, UnitOf(n - 1)), n, n - 1)
  {
    OneWritten(tm, n - 1, Leads(rule, tm, n, n - 1).value);
  }

  lemma MovedMore(rule: Rule, tm: Tm, r: Tm, n: nat, stop: nat)
    requires Complete(rule) && 0 < n <= FIELDS && stop < n - 1 && !Skipped(rule, n - 1)
    requires Moved(rule, Written(tm, Leads(rule, tm, n, n - 1).value, UnitOf(n - 1)), r, n - 1, stop)
    ensures Moved(rule, tm, r, n, stop)
  {
    OneWritten(tm, n - 1, Leads(rule, tm, n, n - 1).value);
    forall i | 0 <= i < n - 1
      ensures Leads(rule, Written(tm, Leads(rule, tm, n, n - 1).value, UnitOf(n - 1)), n - 1, i) == Leads(rule, tm, n, i)
    {
      LeadsOn(rule, tm, n, i);
    }
  }

  lemma StopsOn(rule: Rule, tm: Tm, n: nat, stop: nat)
    requires Complete(rule) && 0 < n <= FIELDS && stop < n - 1 && !Skipped(rule, n - 1) && StopsAt(rule, tm, n, stop)
    ensures StopsAt(rule, Written(tm, Leads(rule, tm, n, n - 1).value, UnitOf(n - 1)), n - 1, stop)
  {
    forall i | 0 <= i < n - 1
      ensures Leads(rule, Written(tm, Leads(rule, tm, n, n - 1).value, UnitOf(n - 1)), n - 1, i) == Leads(rule, tm, n, i)
    {
      LeadsOn(rule, tm, n, i);
    }
  }

  /** A skipped field is passed over. */
  lemma Passed(rule: Rule, tm: Tm, r: Tm, n: nat, stop: nat)
    requires Complete(rule) && 0 < n <= FIELDS && Skipped(rule, n - 1)
    ensures StopsAt(rule, tm, n, stop) ==> StopsAt(rule, tm, n - 1, stop)
    ensures Moved(rule, tm, r, n - 1, stop) ==> Moved(rule, tm, r, n, stop)
  {
    assert forall i :: 0 <= i < n - 1 ==> Leads(rule, tm, n - 1, i) == Leads(rule, tm, n, i);
  }

  lemma {:induction false} LoopMoves(rule: Rule, tm: Tm, n: nat, stop: nat)
    requires Complete(rule) && n <= FIELDS && StopsAt(rule, tm, n, stop)
    ensures Moved(rule, tm, NextFrom(rule, tm, n), n, stop)
    decreases n
  {
    if stop == n - 1 {
      MovedLast(rule, tm, n);
      assert NextFrom(rule, tm, n) == Written(tm, Leads(rule, tm, n, n - 1).value, UnitOf(n - 1));
    } else if Skipped(rule, n - 1) {
      Passed(rule, tm, NextFrom(rule, tm, n - 1), n, stop);
      LoopMoves(rule, tm, n - 1, stop);
    } else {
      var tm' := Written(tm, Leads(rule, tm, n, n - 1).value, UnitOf(n - 1));
      StopsOn(rule, tm, n, stop);
      LoopMoves(rule, tm', n - 1, stop);
      MovedMore(rule, tm, NextFrom(rule, tm', n - 1), n, stop);
      assert Leads(rule, tm, n, n - 1).over;
    }
  }

  lemma {:induction false} StopsSomewhere(rule: Rule, tm: Tm, n: nat, from: nat) returns (stop: nat)
    requires Complete(rule) && from < n <= FIELDS
    requires forall i {:trigger Skipped(rule, i)} :: from < i < n ==> Skipped(rule, i) || Leads(rule, tm, n, i).over
    ensures StopsAt(rule, tm, n, stop)
    decreases from
  {
    if from == YEAR || (!Skipped(rule, from) && !Leads(rule, tm, n, from).over) {
      stop := from;
    } else {
      stop := StopsSomewhere(rule, tm, n, from - 1);
    }
  }

  /** For every rule and every date there is one such stop, and Next moves the fields from
      there on and no other. */
  lemma NextMovesAll(rule: Rule, tm: Tm)
    requires Complete(rule)
    ensures exists stop :: StopsAt(rule, tm, FIELDS, stop)
    ensures forall stop, other :: StopsAt(rule, tm, FIELDS, stop) && StopsAt(rule, tm, FIELDS, other) ==> stop == other
    ensures forall stop :: StopsAt(rule, tm, FIELDS, stop) ==> Moved(rule, tm, NextFrom(rule, tm, FIELDS), FIELDS, stop)
  {
    var s := StopsSomewhere(rule, tm, FIELDS, FIELDS - 1);
    forall stop | StopsAt(rule, tm, FIELDS, stop) ensures Moved(rule, tm, NextFrom(rule, tm, FIELDS), FIELDS, stop) {
      LoopMoves(rule, tm, FIELDS, stop);
    }
    forall stop, other | StopsAt(rule, tm, FIELDS, stop) && StopsAt(rule, tm, FIELDS, other) ensures stop == other {
      assert Skipped(rule, stop) || !Skipped(rule, stop);
      assert Skipped(rule, other) || !Skipped(rule, other);
    }
  }
}
