/** What repeated calls of Crontab::Next list. */
module CronSuccessor {
  import opened TimerDate
  import opened CronWheels
  import opened Crontab

  const PLACES: nat := 6

  /** The fields that are stepped through when Week and DayOfWeek are free: all but these
      two, which lie between DayOfMonth and Hour. */
  function FieldOf(place: nat): (field: nat)
    requires place < PLACES
    ensures field < FIELDS
  {
    if place <= DAY_OF_MONTH then place else place - 3 + HOUR
  }

  function TupleOf(tm: Tm): (t: seq<int>)
    ensures |t| == PLACES
  {
    [Read(tm, Unit.Year), Read(tm, Unit.Month), Read(tm, Unit.DayOfMonth),
     Read(tm, Unit.Hour), Read(tm, Unit.Minute), Read(tm, Unit.Second)]
  }

  ghost predicate Listed(rule: Rule, place: nat)
    requires |rule.subs| == FIELDS && place < PLACES
  {
    var r := rule.subs[FieldOf(place)];
    r.frequencies == [] && r.values != [] && Ascending(r.values) && forall v :: v in r.values ==> v >= 0
  }

  /** Year is a frequency, Week and DayOfWeek are free, and every other field is a list. */
  ghost predicate Calendar(rule: Rule) {
    && Complete(rule)
    && rule.skipWeek && rule.skipDayOfWeek && !rule.skipMonth && !rule.skipDayOfMonth
    && rule.subs[YEAR].frequencies != [] && rule.subs[YEAR].frequencies[0] >= 1
    && forall place :: 1 <= place < PLACES ==> Listed(rule, place)
  }

  /** Date::Set takes every value of the list. */
  predicate SetTakes(values: seq<int>, unit: Unit) {
    forall k :: 0 <= k < |values| ==> Settable(values[k], unit)
  }

  predicate AllSettable(rule: Rule)
    requires |rule.subs| == FIELDS
  {
    forall place :: 1 <= place < PLACES ==> SetTakes(rule.subs[FieldOf(place)].values, UnitOf(FieldOf(place)))
  }

  /** Set takes every value, or there is only one to be set. */
  predicate Movable(values: seq<int>, unit: Unit) {
    |values| == 1 || SetTakes(values, unit)
  }

  predicate AllMovable(rule: Rule)
    requires |rule.subs| == FIELDS
  {
    forall place :: 1 <= place < PLACES ==> Movable(rule.subs[FieldOf(place)].values, UnitOf(FieldOf(place)))
  }

  /** The grid of a rule, years counted from the given one. */
  function WheelsOf(rule: Rule, base: int): (ws: seq<Wheel>)
    requires |rule.subs| == FIELDS && rule.subs[YEAR].frequencies != [] && rule.subs[YEAR].frequencies[0] >= 0
    ensures |ws| == PLACES
  {
    seq(PLACES, place requires 0 <= place < PLACES =>
      if place == 0 then Count(base, rule.subs[YEAR].frequencies[0]) else Cycle(rule.subs[FieldOf(place)].values))
  }

  lemma CalendarWheels(rule: Rule, base: int)
    requires Calendar(rule)
    ensures Wheels(WheelsOf(rule, base)) && WheelsOf(rule, base)[0].Count?
  {
    forall i | 1 <= i < PLACES ensures WheelsOf(rule, base)[i].values != [] && Ascending(WheelsOf(rule, base)[i].values) {
      assert Listed(rule, i);
    }
  }

  /** A date whose fields are all in their lists; any year that frequency steps lead to
      from the base. */
  ghost predicate OnRule(rule: Rule, base: int, tm: Tm)
    requires Calendar(rule)
  {
    Read(tm, Unit.Year) >= 0 && OnGrid(WheelsOf(rule, base), TupleOf(tm))
  }

  // What one call does, from any date.

  /** Where the sub-rule of a place leads to. */
  ghost function Move(rule: Rule, t: seq<int>, place: nat): Advanced
    requires Calendar(rule) && |t| == PLACES && place < PLACES
  {
    assert place > 0 ==> Listed(rule, place);
    Advance(WheelsOf(rule, 0)[place], t[place])
  }

  /** What Set makes of it: values that it refuses leave the field as it is. */
  ghost function MovedTo(rule: Rule, t: seq<int>, place: nat): int
    requires Calendar(rule) && |t| == PLACES && place < PLACES
  {
    if Settable(Move(rule, t, place).value, UnitOf(FieldOf(place))) then Move(rule, t, place).value else t[place]
  }

  /** The field comes to hold the value that its sub-rule leads to. */
  ghost predicate Taken(rule: Rule, t: seq<int>, place: nat)
    requires Calendar(rule) && |t| == PLACES && place < PLACES
  {
    MovedTo(rule, t, place) == Move(rule, t, place).value
  }

  lemma WriteTuple(tm: Tm, place: nat, value: int)
    requires place < PLACES
    ensures var unit := UnitOf(FieldOf(place));
            TupleOf(Written(tm, value, unit)) == if Settable(value, unit) then TupleOf(tm)[place := value] else TupleOf(tm)
    ensures TupleOf(tm)[place] == Read(tm, UnitOf(FieldOf(place)))
  {
    if place == 0 {} else if place == 1 {} else if place == 2 {} else if place == 3 {} else if place == 4 {} else {}
  }

  /** A field's sub-rule moves as its wheel does. */
  lemma FieldMoves(rule: Rule, tm: Tm, place: nat)
    requires Calendar(rule) && place < PLACES
    ensures !Skipped(rule, FieldOf(place))
    ensures SubNext(FieldOf(place), rule.subs[FieldOf(place)], Read(tm, UnitOf(FieldOf(place))))
         == Move(rule, TupleOf(tm), place)
    ensures TupleOf(Written(tm, Move(rule, TupleOf(tm), place).value, UnitOf(FieldOf(place))))
         == TupleOf(tm)[place := MovedTo(rule, TupleOf(tm), place)]
  {
    assert place > 0 ==> Listed(rule, place);
    WriteTuple(tm, place, Move(rule, TupleOf(tm), place).value);
  }

  /** Fields between two places are skipped. */
  lemma SkipDown(rule: Rule, tm: Tm, place: nat)
    requires Calendar(rule) && 1 <= place < PLACES
    ensures NextFrom(rule, tm, FieldOf(place)) == NextFrom(rule, tm, FieldOf(place - 1) + 1)
  {
    if place == 3 {
      assert Skipped(rule, DAY_OF_WEEK) && Skipped(rule, WEEK);
      assert NextFrom(rule, tm, HOUR) == NextFrom(rule, tm, DAY_OF_WEEK) == NextFrom(rule, tm, WEEK);
    }
  }

  lemma LoopStep(rule: Rule, tm: Tm, place: nat)
    requires Complete(rule) && place < PLACES && !Skipped(rule, FieldOf(place))
    ensures var a := SubNext(FieldOf(place), rule.subs[FieldOf(place)], Read(tm, UnitOf(FieldOf(place))));
            var tm' := Written(tm, a.value, UnitOf(FieldOf(place)));
            NextFrom(rule, tm, FieldOf(place) + 1) == if a.over then NextFrom(rule, tm', FieldOf(place)) else tm'
  {
  }

  /** The places from the stop up to the given one are moved, the others stay. */
  ghost predicate MovedFrom(rule: Rule, t: seq<int>, r: seq<int>, stop: nat, place: nat)
    requires Calendar(rule) && |t| == |r| == PLACES
  {
    forall i :: 0 <= i < PLACES ==> r[i] == if stop <= i <= place then MovedTo(rule, t, i) else t[i]
  }

  /** The last of the places up to the given one that does not start over. */
  ghost function StopUpTo(rule: Rule, t: seq<int>, place: nat): (i: nat)
    requires Calendar(rule) && |t| == PLACES && place < PLACES
    ensures i <= place
  {
    if place > 0 && Move(rule, t, place).over then StopUpTo(rule, t, place - 1) else place
  }

  /** Where the loop over the fields ends. */
  ghost function StopOf(rule: Rule, t: seq<int>): (i: nat)
    requires Calendar(rule) && |t| == PLACES
    ensures i < PLACES
  {
    StopUpTo(rule, t, PLACES - 1)
  }

  lemma {:induction false} StopUpToSame(rule: Rule, t: seq<int>, u: seq<int>, place: nat)
    requires Calendar(rule) && |t| == |u| == PLACES && place < PLACES && t[..place + 1] == u[..place + 1]
    ensures StopUpTo(rule, t, place) == StopUpTo(rule, u, place)
    ensures forall i :: 0 <= i <= place ==> MovedTo(rule, t, i) == MovedTo(rule, u, i)
    decreases place
  {
    assert forall i :: 0 <= i <= place ==> t[..place + 1][i] == t[i] && u[..place + 1][i] == u[i];
    if place > 0 {
      assert t[..place] == u[..place];
      StopUpToSame(rule, t, u, place - 1);
    }
  }

  /** A place moves, and then the places before it. */
  lemma MoveOneMore(rule: Rule, t: seq<int>, r: seq<int>, place: nat)
    requires Calendar(rule) && |t| == |r| == PLACES && 0 < place < PLACES
    requires var t' := t[place := MovedTo(rule, t, place)]; MovedFrom(rule, t', r, StopUpTo(rule, t', place - 1), place - 1)
    ensures MovedFrom(rule, t, r, StopUpTo(rule, t, place - 1), place)
  {
    StopUpToSame(rule, t, t[place := MovedTo(rule, t, place)], place - 1);
  }

  /** The loop over the fields from the given place down. */
  lemma {:induction false} LoopMoves(rule: Rule, tm: Tm, place: nat)
    requires Calendar(rule) && place < PLACES
    ensures MovedFrom(rule, TupleOf(tm), TupleOf(NextFrom(rule, tm, FieldOf(place) + 1)),
                      StopUpTo(rule, TupleOf(tm), place), place)
    decreases place
  {
    var a := Move(rule, TupleOf(tm), place);
    FieldMoves(rule, tm, place);
    LoopStep(rule, tm, place);
    if a.over && place > 0 {
      var tm' := Written(tm, a.value, UnitOf(FieldOf(place)));
      SkipDown(rule, tm', place);
      LoopMoves(rule, tm', place - 1);
      MoveOneMore(rule, TupleOf(tm), TupleOf(NextFrom(rule, tm', FieldOf(place))), place);
    }
  }

  /** Next moves the places from the stop on, as far as Set takes their values, and no
      other. */
  lemma NextMoves(rule: Rule, tm: Tm)
    requires Calendar(rule)
    ensures MovedFrom(rule, TupleOf(tm), TupleOf(NextFrom(rule, tm, FIELDS)), StopOf(rule, TupleOf(tm)), PLACES - 1)
  {
    LoopMoves(rule, tm, PLACES - 1);
  }

  // The tick of the wheels.

  lemma {:induction false} StopUpToIsStop(rule: Rule, base: int, t: seq<int>, place: nat)
    requires Calendar(rule) && |t| == PLACES && place < PLACES
    ensures Wheels(WheelsOf(rule, base)[..place + 1])
    ensures StopUpTo(rule, t, place) == Stop(WheelsOf(rule, base)[..place + 1], t[..place + 1])
    decreases place
  {
    CalendarWheels(rule, base);
    StopStep(WheelsOf(rule, base), t, place);
    MoveAnyBase(rule, base, t, place);
    if place > 0 { StopUpToIsStop(rule, base, t, place - 1); }
  }

  lemma MoveAnyBase(rule: Rule, base: int, t: seq<int>, place: nat)
    requires Calendar(rule) && |t| == PLACES && place < PLACES
    ensures var w := WheelsOf(rule, base)[place];
            (w.Cycle? ==> w.values != []) && Move(rule, t, place) == Advance(w, t[place])
  {
    assert place > 0 ==> Listed(rule, place);
  }

  /** The loop ends where the tick of the wheels stops. */
  lemma StopIsStop(rule: Rule, base: int, t: seq<int>)
    requires Calendar(rule) && |t| == PLACES
    ensures Wheels(WheelsOf(rule, base)) && StopOf(rule, t) == Stop(WheelsOf(rule, base), t)
  {
    StopUpToIsStop(rule, base, t, PLACES - 1);
    assert WheelsOf(rule, base)[..PLACES] == WheelsOf(rule, base) && t[..PLACES] == t;
  }

  /** Set takes every value that is to be set. */
  ghost predicate AllTaken(rule: Rule, t: seq<int>)
    requires Calendar(rule) && |t| == PLACES
  {
    forall i :: StopOf(rule, t) <= i < PLACES ==> Taken(rule, t, i)
  }

  /** Next is one tick of the wheels exactly if Set takes every value that is to be set. */
  lemma NextIsTurnIff(rule: Rule, base: int, tm: Tm)
    requires Calendar(rule)
    ensures Wheels(WheelsOf(rule, base))
    ensures TupleOf(NextFrom(rule, tm, FIELDS)) == Turn(WheelsOf(rule, base), TupleOf(tm)) <==> AllTaken(rule, TupleOf(tm))
  {
    var ws, t, r := WheelsOf(rule, base), TupleOf(tm), TupleOf(NextFrom(rule, tm, FIELDS));
    NextMoves(rule, tm);
    StopIsStop(rule, base, t);
    forall i | 0 <= i < PLACES
      ensures r[i] == Turn(ws, t)[i] <==> (StopOf(rule, t) <= i ==> Taken(rule, t, i))
    {
      MoveAnyBase(rule, base, t, i);
      TurnAt(ws, t, i);
    }
    if r == Turn(ws, t) {
      assert forall i :: 0 <= i < PLACES ==> r[i] == Turn(ws, t)[i];
    }
  }

  /** From any date: Next gives the least date of the rule above the present one exactly
      if the fields before the stop are in their lists and Set takes every value that is
      to be set. */
  lemma NextIsLeastAboveIff(rule: Rule, base: int, tm: Tm)
    requires Calendar(rule) && OnWheel(WheelsOf(rule, base)[0], Read(tm, Unit.Year))
    ensures var ws, t, stop := WheelsOf(rule, base), TupleOf(tm), StopOf(rule, TupleOf(tm));
            LeastAbove(ws, t, TupleOf(NextFrom(rule, tm, FIELDS))) <==> OnGrid(ws[..stop], t[..stop]) && AllTaken(rule, t)
  {
    var ws, t, r := WheelsOf(rule, base), TupleOf(tm), TupleOf(NextFrom(rule, tm, FIELDS));
    NextMoves(rule, tm);
    StopIsStop(rule, base, t);
    CalendarWheels(rule, base);
    NextIsTurnIff(rule, base, tm);
    TurnIsLeastAboveIff(ws, t);
    var stop := StopOf(rule, t);
    if LeastAbove(ws, t, r) {
      forall i | 0 <= i < stop ensures OnWheel(ws[..stop][i], t[..stop][i]) {
        assert OnWheel(ws[i], r[i]);
      }
      LeastIsOne(ws, t, r, Turn(ws, t));
    }
  }

  lemma LeastIsOne(ws: seq<Wheel>, t: seq<int>, r: seq<int>, u: seq<int>)
    requires LeastAbove(ws, t, r) && LeastAbove(ws, t, u)
    ensures r == u
  {
    if r != u {
      LexTransitive(r, u, r);
    }
  }

  // Going on to a later date.

  /** The stop does not start over, all later places do. */
  lemma {:induction false} StopFacts(rule: Rule, t: seq<int>, place: nat)
    requires Calendar(rule) && |t| == PLACES && place < PLACES
    ensures !Move(rule, t, StopUpTo(rule, t, place)).over
    ensures forall i :: StopUpTo(rule, t, place) < i <= place ==> Move(rule, t, i).over
    decreases place
  {
    if place > 0 && Move(rule, t, place).over { StopFacts(rule, t, place - 1); }
  }

  lemma MoveFacts(rule: Rule, t: seq<int>, place: nat)
    requires Calendar(rule) && |t| == PLACES && place < PLACES
    ensures if Move(rule, t, place).over then Move(rule, t, place).value <= t[place] else Move(rule, t, place).value > t[place]
  {
    assert place > 0 ==> Listed(rule, place);
  }

  /** From any date: Next goes on to a later date exactly if Set takes the value that the
      stop leads to. */
  lemma NextAdvancesExactly(rule: Rule, tm: Tm)
    requires Calendar(rule)
    ensures LexLess(TupleOf(tm), TupleOf(NextFrom(rule, tm, FIELDS))) <==> Taken(rule, TupleOf(tm), StopOf(rule, TupleOf(tm)))
  {
    var t, r := TupleOf(tm), TupleOf(NextFrom(rule, tm, FIELDS));
    var stop := StopOf(rule, t);
    NextMoves(rule, tm);
    StopFacts(rule, t, PLACES - 1);
    MoveFacts(rule, t, stop);
    if Taken(rule, t, stop) {
      assert LessAt(t, r, stop);
    } else {
      forall i | 0 <= i < PLACES ensures r[i] <= t[i] { MoveFacts(rule, t, i); }
    }
  }

  // Rules and dates from which every call goes well.

  /** The date has a year of the rule, and either Set takes every value of every list, or
      every value of the lists with more than one and the date is a date of the rule. */
  ghost predicate Ready(rule: Rule, base: int, tm: Tm)
    requires Calendar(rule)
  {
    && Read(tm, Unit.Year) >= 0 && OnWheel(WheelsOf(rule, base)[0], Read(tm, Unit.Year))
    && (AllSettable(rule) || (AllMovable(rule) && OnRule(rule, base, tm)))
  }

  /** The present time is such a date, whatever it is, when Set takes every value. */
  lemma AnyDateIsReady(rule: Rule, tm: Tm)
    requires Calendar(rule) && AllSettable(rule) && Read(tm, Unit.Year) >= 0
    ensures Ready(rule, Read(tm, Unit.Year), tm)
  {
  }

  lemma ReadyTakes(rule: Rule, base: int, tm: Tm)
    requires Calendar(rule) && Ready(rule, base, tm)
    ensures AllTaken(rule, TupleOf(tm))
  {
    var t := TupleOf(tm);
    forall i | 0 <= i < PLACES ensures Taken(rule, t, i) {
      if i > 0 {
        assert Listed(rule, i) && OnWheel(WheelsOf(rule, 0)[i], Move(rule, t, i).value);
        assert AllSettable(rule) ==> SetTakes(rule.subs[FieldOf(i)].values, UnitOf(FieldOf(i)));
        if !AllSettable(rule) {
          assert Movable(rule.subs[FieldOf(i)].values, UnitOf(FieldOf(i)));
          assert OnWheel(WheelsOf(rule, base)[i], t[i]);
        }
      }
    }
  }

  lemma NextIsTurn(rule: Rule, base: int, tm: Tm)
    requires Calendar(rule) && Ready(rule, base, tm)
    ensures Wheels(WheelsOf(rule, base))
    ensures TupleOf(NextFrom(rule, tm, FIELDS)) == Turn(WheelsOf(rule, base), TupleOf(tm))
    ensures Started(WheelsOf(rule, base), TupleOf(tm))
  {
    CalendarWheels(rule, base);
    NextIsTurnIff(rule, base, tm);
    ReadyTakes(rule, base, tm);
  }

  /** Next goes on to a later date and skips no date of the rule, and what it gives is a
      date of the rule exactly if the fields before the stop are in their lists: always
      so from a date of the rule. */
  lemma NextIsSuccessor(rule: Rule, base: int, tm: Tm)
    requires Calendar(rule) && Ready(rule, base, tm)
    ensures var ws, t, next := WheelsOf(rule, base), TupleOf(tm), NextFrom(rule, tm, FIELDS);
            && Ready(rule, base, next) && LexLess(t, TupleOf(next))
            && (forall u :: OnGrid(ws, u) && LexLess(t, u) ==> u == TupleOf(next) || LexLess(TupleOf(next), u))
            && (OnRule(rule, base, next) <==> OnGrid(ws[..StopOf(rule, t)], t[..StopOf(rule, t)]))
            && (OnRule(rule, base, tm) ==> OnRule(rule, base, next))
  {
    var ws, t := WheelsOf(rule, base), TupleOf(tm);
    NextIsTurn(rule, base, tm);
    CalendarWheels(rule, base);
    StopIsStop(rule, base, t);
    TurnIsNext(ws, t);
    TurnIsLater(ws, t);
    TurnOnGridIff(ws, t);
    forall u | OnGrid(ws, u) && LexLess(t, u) ensures u == Turn(ws, t) || LexLess(Turn(ws, t), u) {
      TurnSkipsNone(ws, t, u);
    }
    if OnRule(rule, base, tm) { TurnKeepsGrid(ws, t); }
    YearRises(rule, base, tm);
  }

  lemma YearRises(rule: Rule, base: int, tm: Tm)
    requires Calendar(rule) && Ready(rule, base, tm)
    ensures Read(NextFrom(rule, tm, FIELDS), Unit.Year) >= 0
  {
    NextMoves(rule, tm);
    MoveFacts(rule, TupleOf(tm), 0);
  }

  function Iterate(rule: Rule, tm: Tm, k: nat): Tm
    requires Complete(rule)
  {
    if k == 0 then tm else NextFrom(rule, Iterate(rule, tm, k - 1), FIELDS)
  }

  lemma {:induction false} IterateIsTurns(rule: Rule, base: int, tm: Tm, k: nat)
    requires Calendar(rule) && Ready(rule, base, tm)
    ensures Wheels(WheelsOf(rule, base))
    ensures Ready(rule, base, Iterate(rule, tm, k))
    ensures TupleOf(Iterate(rule, tm, k)) == Turns(WheelsOf(rule, base), TupleOf(tm), k)
  {
    CalendarWheels(rule, base);
    if k > 0 {
      IterateIsTurns(rule, base, tm, k - 1);
      NextIsSuccessor(rule, base, Iterate(rule, tm, k - 1));
      NextIsTurn(rule, base, Iterate(rule, tm, k - 1));
    }
  }

  /** Repeated calls list the dates of the rule in strictly increasing order and skip
      none: every later one is reached, after just as many calls as there are dates up to
      it. */
  lemma NextListsAll(rule: Rule, base: int, tm: Tm, u: seq<int>) returns (k: nat)
    requires Calendar(rule) && Ready(rule, base, tm)
    requires OnGrid(WheelsOf(rule, base), u) && LexLess(TupleOf(tm), u)
    ensures k > 0 && TupleOf(Iterate(rule, tm, k)) == u
    ensures forall m: nat :: LexLess(TupleOf(Iterate(rule, tm, m)), u) <==> m < k
  {
    CalendarWheels(rule, base);
    NextIsTurn(rule, base, tm);
    k := TurnsReachAll(WheelsOf(rule, base), TupleOf(tm), u);
    IterateIsTurns(rule, base, tm, k);
    forall m: nat ensures LexLess(TupleOf(Iterate(rule, tm, m)), u) <==> m < k {
      IterateIsTurns(rule, base, tm, m);
    }
  }

  /** Calls from any date come to a date of the rule, the first of them the least above
      the start; from there on all are. */
  lemma NextComesOnRule(rule: Rule, base: int, tm: Tm) returns (k: nat)
    requires Calendar(rule) && Ready(rule, base, tm)
    ensures k > 0 && LeastAbove(WheelsOf(rule, base), TupleOf(tm), TupleOf(Iterate(rule, tm, k)))
    ensures forall m :: 0 < m < k ==> !OnRule(rule, base, Iterate(rule, tm, m))
    ensures forall m :: m >= k ==> OnRule(rule, base, Iterate(rule, tm, m))
  {
    CalendarWheels(rule, base);
    NextIsTurn(rule, base, tm);
    k := FirstOnGrid(WheelsOf(rule, base), TupleOf(tm));
    IterateIsTurns(rule, base, tm, k);
    forall m | 0 < m < k ensures !OnRule(rule, base, Iterate(rule, tm, m)) { IterateIsTurns(rule, base, tm, m); }
    forall m | m >= k ensures OnRule(rule, base, Iterate(rule, tm, m)) { IterateStaysOnRule(rule, base, tm, k, m); }
  }

  lemma {:induction false} IterateStaysOnRule(rule: Rule, base: int, tm: Tm, k: nat, m: nat)
    requires Calendar(rule) && Ready(rule, base, tm) && k <= m && OnRule(rule, base, Iterate(rule, tm, k))
    ensures OnRule(rule, base, Iterate(rule, tm, m))
    decreases m
  {
    if k < m {
      IterateStaysOnRule(rule, base, tm, k, m - 1);
      IterateIsTurns(rule, base, tm, m - 1);
      NextIsSuccessor(rule, base, Iterate(rule, tm, m - 1));
    }
  }

  // Lists with values that Date::Set refuses.

  function DateOf(t: seq<int>): (tm: Tm)
    requires |t| == PLACES
    ensures TupleOf(tm) == t
  {
    Tm(t[0] - 1900, t[1] - 1, 0, 0, t[2], t[3], t[4], t[5])
  }

  function LastOf(values: seq<int>): int
    requires values != []
  {
    values[|values| - 1]
  }

  /** The given value at one place, every later one at its last. */
  ghost function StuckTuple(rule: Rule, base: int, bad: nat, v: int): (t: seq<int>)
    requires Calendar(rule) && 1 <= bad < PLACES
    ensures |t| == PLACES
  {
    seq(PLACES, i requires 0 <= i < PLACES =>
      var values := rule.subs[FieldOf(i)].values;
      if i == 0 then base else if i == bad then v else if values == [] then 0 else LastOf(values))
  }

  lemma LastMovesOver(rule: Rule, t: seq<int>, place: nat)
    requires Calendar(rule) && |t| == PLACES && 1 <= place < PLACES && rule.subs[FieldOf(place)].values != []
    requires t[place] == LastOf(rule.subs[FieldOf(place)].values)
    ensures Move(rule, t, place).over
  {
    assert Listed(rule, place);
    AboveAt(rule.subs[FieldOf(place)].values, |rule.subs[FieldOf(place)].values| - 1);
  }

  lemma {:induction false} StopIs(rule: Rule, t: seq<int>, stop: nat, place: nat)
    requires Calendar(rule) && |t| == PLACES && stop <= place < PLACES && !Move(rule, t, stop).over
    requires forall i :: stop < i <= place ==> Move(rule, t, i).over
    ensures StopUpTo(rule, t, place) == stop
    decreases place
  {
    if stop < place { StopIs(rule, t, stop, place - 1); }
  }

  /** Where the next value of a list is refused, Next does not go on. */
  lemma RefusedIsStuck(rule: Rule, base: int, bad: nat, v: int)
    requires Calendar(rule) && 1 <= bad < PLACES
    requires var values := rule.subs[FieldOf(bad)].values; var k := FirstAbove(values, v);
             k < |values| && !Settable(values[k], UnitOf(FieldOf(bad)))
    ensures var tm := DateOf(StuckTuple(rule, base, bad, v)); !LexLess(TupleOf(tm), TupleOf(NextFrom(rule, tm, FIELDS)))
  {
    var t := StuckTuple(rule, base, bad, v);
    forall i | bad < i < PLACES ensures Move(rule, t, i).over {
      assert Listed(rule, i);
      LastMovesOver(rule, t, i);
    }
    StopIs(rule, t, bad, PLACES - 1);
    NextAdvancesExactly(rule, DateOf(t));
  }

  /** A refused value, and what lies just below it. */
  lemma StuckAnyDate(rule: Rule) returns (tm: Tm)
    requires Calendar(rule) && !AllSettable(rule)
    ensures Read(tm, Unit.Year) >= 0 && !LexLess(TupleOf(tm), TupleOf(NextFrom(rule, tm, FIELDS)))
  {
    var bad :| 1 <= bad < PLACES && !SetTakes(rule.subs[FieldOf(bad)].values, UnitOf(FieldOf(bad)));
    var values, unit := rule.subs[FieldOf(bad)].values, UnitOf(FieldOf(bad));
    assert Listed(rule, bad);
    var k: nat :| k < |values| && !Settable(values[k], unit);
    if k > 0 { AboveAt(values, k - 1); }
    var v := if k > 0 then values[k - 1] else values[0] - 1;
    RefusedIsStuck(rule, 0, bad, v);
    tm := DateOf(StuckTuple(rule, 0, bad, v));
  }

  lemma StuckOnGrid(rule: Rule, base: nat, bad: nat, v: int)
    requires Calendar(rule) && 1 <= bad < PLACES && v in rule.subs[FieldOf(bad)].values
    ensures OnRule(rule, base, DateOf(StuckTuple(rule, base, bad, v)))
  {
    var t := StuckTuple(rule, base, bad, v);
    forall i | 0 <= i < PLACES ensures OnWheel(WheelsOf(rule, base)[i], t[i]) {
      assert i > 0 ==> Listed(rule, i);
    }
  }

  /** With more than one value, the one below is in the list. */
  lemma StuckRuleDate(rule: Rule, base: nat) returns (tm: Tm)
    requires Calendar(rule) && !AllMovable(rule)
    ensures OnRule(rule, base, tm) && !LexLess(TupleOf(tm), TupleOf(NextFrom(rule, tm, FIELDS)))
  {
    var bad :| 1 <= bad < PLACES && !Movable(rule.subs[FieldOf(bad)].values, UnitOf(FieldOf(bad)));
    var values, unit := rule.subs[FieldOf(bad)].values, UnitOf(FieldOf(bad));
    assert Listed(rule, bad);
    var k: nat :| k < |values| && !Settable(values[k], unit);
    if k == 0 {
      assert values[0] in values && values[0] < values[1];
      k := 1;
    }
    AboveAt(values, k - 1);
    RefusedIsStuck(rule, base, bad, values[k - 1]);
    StuckOnGrid(rule, base, bad, values[k - 1]);
    tm := DateOf(StuckTuple(rule, base, bad, values[k - 1]));
  }

  /** Next goes on to a later date from every date exactly if Set takes every value of
      every list, and from every date of the rule exactly if it takes those of every list
      that has more than one. */
  lemma NextAdvancesIff(rule: Rule)
    requires Calendar(rule)
    ensures AllSettable(rule) <==>
            forall tm: Tm :: Read(tm, Unit.Year) >= 0 ==> LexLess(TupleOf(tm), TupleOf(NextFrom(rule, tm, FIELDS)))
    ensures AllMovable(rule) <==>
            forall base: nat, tm: Tm :: OnRule(rule, base, tm) ==>
              LexLess(TupleOf(tm), TupleOf(NextFrom(rule, tm, FIELDS)))
  {
    if AllSettable(rule) {
      forall tm: Tm | Read(tm, Unit.Year) >= 0 ensures LexLess(TupleOf(tm), TupleOf(NextFrom(rule, tm, FIELDS))) {
        NextIsSuccessor(rule, Read(tm, Unit.Year), tm);
      }
    } else {
      var tm := StuckAnyDate(rule);
    }
    if AllMovable(rule) {
      forall base: nat, tm: Tm | OnRule(rule, base, tm)
        ensures LexLess(TupleOf(tm), TupleOf(NextFrom(rule, tm, FIELDS)))
      {
        NextIsSuccessor(rule, base, tm);
      }
    } else {
      var tm := StuckRuleDate(rule, 0);
    }
  }

  // From the text of a rule.

  predicate ListItems(items: seq<Item>) {
    forall i :: 0 <= i < |items| ==> items[i].Span? || items[i].Number?
  }

  /** A field given by values in the range of the field, at least one. */
  ghost predicate ListField(field: nat, items: seq<Item>)
    requires field < FIELDS
  {
    && ListItems(items) && ValuesOf(items) != []
    && forall v :: v in ValuesOf(items) ==> !TooLarge(field, v)
  }

  ghost predicate CalendarFields(fields: seq<FieldText>) {
    && |fields| == FIELDS
    && (ItemsOf(fields[YEAR]) == [Star] || exists n: nat :: n >= 1 && ItemsOf(fields[YEAR]) == [StarStep(n)])
    && fields[WEEK] == Asterisk && fields[DAY_OF_WEEK] == Asterisk
    && forall place :: 1 <= place < PLACES ==> ListField(FieldOf(place), ItemsOf(fields[FieldOf(place)]))
  }

  lemma {:induction false} ListHasNoFrequency(items: seq<Item>)
    requires ListItems(items)
    ensures FrequenciesOf(items) == []
    decreases |items|
  {
    if items != [] {
      var n := |items| - 1;
      assert ListItems(items[..n]) by {
        forall i | 0 <= i < n ensures items[..n][i].Span? || items[..n][i].Number? { assert items[i].Span? || items[i].Number?; }
      }
      ListHasNoFrequency(items[..n]);
      assert items[n].Span? || items[n].Number?;
    }
  }

  lemma ListIsNonNegative(items: seq<Item>, v: int)
    requires v in ValuesOf(items)
    ensures v >= 0
  {
    ValuesCover(items, v);
  }

  lemma ParsedList(field: nat, items: seq<Item>)
    requires field < FIELDS && ListField(field, items)
    ensures var r := Parsed(field, items);
            && r.frequencies == [] && r.values != [] && Ascending(r.values) && (forall v :: v in r.values ==> v >= 0)
            && forall v :: v in r.values <==> v in ValuesOf(items)
  {
    var xs := ValuesOf(items);
    ListHasNoFrequency(items);
    SortedUniqueFacts(xs);
    SortedUniqueEmpty(xs);
    assert Fault !in items;
    assert items != [];
    forall v | v in xs ensures v >= 0 { ListIsNonNegative(items, v); }
    assert Parses(field, items);
  }

  lemma ParsedFrequency(field: nat, items: seq<Item>, n: nat)
    requires field < FIELDS && (items == [StarStep(n)] || (items == [Star] && n == 1))
    ensures Parsed(field, items) == SubRule([n], [])
  {
    assert items[..|items| - 1] == [];
    assert FrequenciesOf(items) == FrequenciesOf([]) + [n] == [n];
    assert ValuesOf(items) == ValuesOf([]) + [] == [];
    assert SortedUnique([n]) == [n];
  }

  /** The sub-rule of a place, and what its values are. */
  lemma PlaceFromText(fields: seq<FieldText>, place: nat)
    requires CalendarFields(fields) && 1 <= place < PLACES
    ensures var r := SubsOf(fields)[FieldOf(place)];
            && r.frequencies == [] && r.values != [] && Ascending(r.values) && (forall v :: v in r.values ==> v >= 0)
            && forall v :: v in r.values <==> v in ValuesOf(ItemsOf(fields[FieldOf(place)]))
  {
    assert ListField(FieldOf(place), ItemsOf(fields[FieldOf(place)]));
    ParsedList(FieldOf(place), ItemsOf(fields[FieldOf(place)]));
  }

  lemma FreeFromText(fields: seq<FieldText>) returns (n: nat)
    requires CalendarFields(fields)
    ensures n >= 1 && SubsOf(fields)[YEAR] == SubRule([n], [])
    ensures SubsOf(fields)[WEEK] == SubsOf(fields)[DAY_OF_WEEK] == SubRule([1], [])
  {
    if ItemsOf(fields[YEAR]) == [Star] { n := 1; } else { n :| n >= 1 && ItemsOf(fields[YEAR]) == [StarStep(n)]; }
    ParsedFrequency(YEAR, ItemsOf(fields[YEAR]), n);
    ParsedFrequency(WEEK, ItemsOf(fields[WEEK]), 1);
    ParsedFrequency(DAY_OF_WEEK, ItemsOf(fields[DAY_OF_WEEK]), 1);
  }

  lemma AllFromText(fields: seq<FieldText>, subs: seq<SubRule>)
    requires |subs| == FIELDS && HasRule(subs[YEAR]) && HasRule(subs[WEEK]) && HasRule(subs[DAY_OF_WEEK])
    requires forall place :: 1 <= place < PLACES ==> HasRule(subs[FieldOf(place)])
    ensures AllRules(subs)
  {
    assert HasRule(subs[FieldOf(1)]) && HasRule(subs[FieldOf(2)]) && HasRule(subs[FieldOf(3)])
        && HasRule(subs[FieldOf(4)]) && HasRule(subs[FieldOf(5)]);
  }

  lemma CalendarIsAccepted(fields: seq<FieldText>)
    requires CalendarFields(fields)
    ensures Accepted(fields) && fields[MONTH] != Asterisk && fields[DAY_OF_MONTH] != Asterisk
  {
    var n := FreeFromText(fields);
    forall place | 1 <= place < PLACES ensures HasRule(SubsOf(fields)[FieldOf(place)]) {
      PlaceFromText(fields, place);
    }
    AllFromText(fields, SubsOf(fields));
    StarIsNoList(fields, 1);
    StarIsNoList(fields, 2);
  }

  lemma StarIsNoList(fields: seq<FieldText>, place: nat)
    requires CalendarFields(fields) && 1 <= place < PLACES
    ensures fields[FieldOf(place)] != Asterisk
  {
    assert ListField(FieldOf(place), ItemsOf(fields[FieldOf(place)]));
    assert [Star][..0] == [];
    assert ValuesOf([Star]) == [];
  }

  /** Such a rule is taken, and the dates it stands for are those whose fields are in the
      lists. */
  lemma CalendarFromText(fields: seq<FieldText>)
    requires CalendarFields(fields)
    ensures Accepted(fields) && Calendar(RuleOf(fields))
    ensures forall place, v :: 1 <= place < PLACES ==>
              (v in RuleOf(fields).subs[FieldOf(place)].values <==> v in ValuesOf(ItemsOf(fields[FieldOf(place)])))
  {
    CalendarIsAccepted(fields);
    var n := FreeFromText(fields);
    var rule := RuleOf(fields);
    forall place | 1 <= place < PLACES
      ensures Listed(rule, place)
      ensures forall v :: v in rule.subs[FieldOf(place)].values <==> v in ValuesOf(ItemsOf(fields[FieldOf(place)]))
    {
      PlaceFromText(fields, place);
    }
  }

  /** A sub-rule that starts over with the value that is already there. */
  lemma Stays(rule: Rule, tm: Tm, n: nat)
    requires Complete(rule) && 0 < n <= FIELDS && !Skipped(rule, n - 1)
    requires var r := rule.subs[n - 1]; r.frequencies == [] && r.values == [Read(tm, UnitOf(n - 1))]
    requires Written(tm, Read(tm, UnitOf(n - 1)), UnitOf(n - 1)) == tm
    ensures NextFrom(rule, tm, n) == NextFrom(rule, tm, n - 1)
  {
  }

  const JUNE_AND_DECEMBER: Rule :=
    Rule([SubRule([1], []), SubRule([], [6, 12]), SubRule([], [1]), SubRule([1], []),
          SubRule([1], []), SubRule([], [0]), SubRule([], [0]), SubRule([], [0])], false, true, false, true)

  const JUNE: Tm := Tm(123, 5, 151, 0, 1, 0, 0, 0)

  /** December is in the lists that are taken, but not in what Set takes: from June the
      rule for June and December goes back to where it was. */
  lemma DecemberIsNotReached()
    ensures Complete(JUNE_AND_DECEMBER) && !TooLarge(MONTH, 12)
    ensures NextFrom(JUNE_AND_DECEMBER, JUNE, FIELDS) == JUNE
  {
    assert AllRules(JUNE_AND_DECEMBER.subs);
    Stays(JUNE_AND_DECEMBER, JUNE, SECOND + 1);
    Stays(JUNE_AND_DECEMBER, JUNE, MINUTE + 1);
    Stays(JUNE_AND_DECEMBER, JUNE, HOUR + 1);
    assert NextFrom(JUNE_AND_DECEMBER, JUNE, HOUR) == NextFrom(JUNE_AND_DECEMBER, JUNE, WEEK)
      by { assert NextFrom(JUNE_AND_DECEMBER, JUNE, HOUR) == NextFrom(JUNE_AND_DECEMBER, JUNE, DAY_OF_WEEK); }
    Stays(JUNE_AND_DECEMBER, JUNE, DAY_OF_MONTH + 1);
    assert FirstAbove([6, 12], 6) == 1;
  }

  /** At five o'clock, on the minute and half a minute later. */
  const AT_FIVE: Rule :=
    Rule([SubRule([1], []), SubRule([], [6]), SubRule([], [1]), SubRule([1], []),
          SubRule([1], []), SubRule([], [5]), SubRule([], [0]), SubRule([], [0, 30])], false, true, false, true)

  const AT_THREE: Tm := Tm(123, 5, 151, 0, 1, 3, 10, 0)

  lemma AtFiveLists(place: nat)
    requires 1 <= place < PLACES
    ensures var r := AT_FIVE.subs[FieldOf(place)];
            && r.frequencies == [] && r.values != [] && Ascending(r.values) && SetTakes(r.values, UnitOf(FieldOf(place)))
  {
    if place == 1 {} else if place == 2 {} else if place == 3 {} else if place == 4 {} else {}
  }

  lemma AtFiveIsCalendar()
    ensures Calendar(AT_FIVE) && AllSettable(AT_FIVE)
  {
    assert AllRules(AT_FIVE.subs);
    forall place | 1 <= place < PLACES
      ensures Listed(AT_FIVE, place) && SetTakes(AT_FIVE.subs[FieldOf(place)].values, UnitOf(FieldOf(place)))
    {
      AtFiveLists(place);
      var r := AT_FIVE.subs[FieldOf(place)];
      forall v | v in r.values ensures v >= 0 {
        var k :| 0 <= k < |r.values| && r.values[k] == v;
        assert Settable(r.values[k], UnitOf(FieldOf(place)));
      }
    }
  }

  /** Only the fields from the stop on are put into their lists: from ten past three Next
      gives half a minute later, which is no date of the rule. */
  lemma OffTheRule()
    ensures Calendar(AT_FIVE) && AllSettable(AT_FIVE) && Read(AT_THREE, Unit.Year) == 2023
    ensures NextFrom(AT_FIVE, AT_THREE, FIELDS) == AT_THREE.(sec := 30)
    ensures !OnRule(AT_FIVE, 2023, AT_THREE.(sec := 30))
  {
    AtFiveIsCalendar();
    var next := AT_THREE.(sec := 30);
    assert NextFrom(AT_FIVE, AT_THREE, FIELDS) == next by {
      assert AT_FIVE.subs[SECOND] == SubRule([], [0, 30]);
      assert FirstAbove([0, 30], 0) == 1 + FirstAbove([30], 0) == 1;
    }
    assert !OnRule(AT_FIVE, 2023, next) by {
      assert AT_FIVE.subs[HOUR] == SubRule([], [5]);
      assert WheelsOf(AT_FIVE, 2023)[3] == Cycle([5]) && TupleOf(next)[3] == 3;
      assert !OnWheel(WheelsOf(AT_FIVE, 2023)[3], TupleOf(next)[3]);
    }
  }
}
