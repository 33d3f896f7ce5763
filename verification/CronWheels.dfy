/** Counting with wheels: what stepping a date field by field through lists of values
    amounts to. The most significant wheel comes first. */
module CronWheels {
  import opened Common

  datatype Wheel =
    | Cycle(values: seq<int>)           // goes through the values, then starts over
    | Count(base: int, step: nat)       // goes up by the step, and never starts over

  datatype Advanced = Advanced(value: int, over: bool)

  ghost predicate Ascending(values: seq<int>) {
    forall i, j :: 0 <= i < j < |values| ==> values[i] < values[j]
  }

  /** The first value above the given one. */
  function FirstAbove(values: seq<int>, v: int): (k: nat)
    ensures k <= |values|
    ensures forall j :: 0 <= j < k ==> values[j] <= v
    ensures k < |values| ==> values[k] > v
  {
    if values == [] || values[0] > v then 0 else 1 + FirstAbove(values[1..], v)
  }

  function Advance(w: Wheel, v: int): Advanced
    requires w.Cycle? ==> w.values != []
  {
    match w
    case Cycle(values) =>
      var k := FirstAbove(values, v);
      if k < |values| then Advanced(values[k], false) else Advanced(values[0], true)
    case Count(_, step) => Advanced(v + step, false)
  }

  /** Only the first wheel counts without end. */
  ghost predicate Wheels(ws: seq<Wheel>) {
    forall i :: 0 <= i < |ws| ==>
      match ws[i]
      case Cycle(values) => values != [] && Ascending(values)
      case Count(_, step) => i == 0 && step > 0
  }

  predicate OnWheel(w: Wheel, v: int) {
    match w
    case Cycle(values) => v in values
    case Count(base, step) => step > 0 && (v - base) % step == 0
  }

  predicate OnGrid(ws: seq<Wheel>, t: seq<int>) {
    |t| == |ws| && forall i :: 0 <= i < |ws| ==> OnWheel(ws[i], t[i])
  }

  /** One tick: the last wheel moves, and the ones before it if it starts over. */
  function Turn(ws: seq<Wheel>, t: seq<int>): (r: seq<int>)
    requires |t| == |ws| && forall i :: 0 <= i < |ws| && ws[i].Cycle? ==> ws[i].values != []
    ensures |r| == |t|
  {
    if ws == [] then []
    else
      var n := |ws| - 1;
      var a := Advance(ws[n], t[n]);
      (if a.over then Turn(ws[..n], t[..n]) else t[..n]) + [a.value]
  }

  /** Smaller at the first place where they differ. */
  ghost predicate LessAt(t: seq<int>, u: seq<int>, p: nat)
    requires |t| == |u| && p < |t|
  {
    t[p] < u[p] && forall i :: 0 <= i < p ==> t[i] == u[i]
  }

  ghost predicate LexLess(t: seq<int>, u: seq<int>)
    requires |t| == |u|
  {
    exists p: nat :: p < |t| && LessAt(t, u, p)
  }

  // The number of a tuple.

  function IndexOn(w: Wheel, v: int): int {
    match w
    case Cycle(values) => FirstAbove(values, v) - 1
    case Count(base, step) => if step > 0 then (v - base) / step else 0
  }

  function Size(w: Wheel): nat {
    if w.Cycle? then |w.values| else 0
  }

  function Rank(ws: seq<Wheel>, t: seq<int>): int
    requires |t| == |ws|
  {
    if ws == [] then 0
    else
      var n := |ws| - 1;
      Place(Rank(ws[..n], t[..n]), Size(ws[n]), IndexOn(ws[n], t[n]))
  }

  function Place(high: int, size: nat, low: int): int {
    high * size + low
  }

  lemma PlaceRises(high: int, high': int, size: nat, low: int, low': int)
    requires (high' == high && low' == low + 1) || (high' == high + 1 && low == size - 1 && low' == 0)
    ensures Place(high', size, low') == Place(high, size, low) + 1
  {
    if high' == high + 1 {
      assert (high + 1) * size == high * size + size;
    }
  }

  lemma AboveAt(values: seq<int>, k: nat)
    requires Ascending(values) && k < |values|
    ensures FirstAbove(values, values[k]) == k + 1
  {
    assert k + 1 < |values| ==> values[k] < values[k + 1];
  }

  lemma CycleIndex(w: Wheel, v: int) returns (k: nat)
    requires w.Cycle? && Ascending(w.values) && OnWheel(w, v)
    ensures k < |w.values| && v == w.values[k] && IndexOn(w, v) == k
  {
    k :| k < |w.values| && w.values[k] == v;
    AboveAt(w.values, k);
  }

  lemma CountIndex(w: Wheel, v: int)
    requires w.Count? && OnWheel(w, v)
    ensures v == w.base + w.step * IndexOn(w, v)
    ensures IndexOn(w, v + w.step) == IndexOn(w, v) + 1 && OnWheel(w, v + w.step)
  {
    var d := v - w.base;
    assert d == w.step * (d / w.step);
    NextMultiple(d / w.step, w.step);
  }

  lemma NextMultiple(i: int, step: nat)
    requires step > 0
    ensures (step * i + step) / step == i + 1 && (step * i + step) % step == 0
  {
    var x := step * i + step;
    var q, r := x / step, x % step;
    assert x == step * (i + 1);
    assert step * (i + 1 - q) == r;
    if i + 1 > q { Scale(step, 1, i + 1 - q); }
    if i + 1 < q { Scale(step, i + 1 - q, -1); }
  }

  /** Any tuple, as long as the counting wheels are on their values. */
  ghost predicate Started(ws: seq<Wheel>, t: seq<int>) {
    Wheels(ws) && |t| == |ws| && forall i :: 0 <= i < |ws| && ws[i].Count? ==> OnWheel(ws[i], t[i])
  }

  lemma FrontStarted(ws: seq<Wheel>, t: seq<int>)
    requires Started(ws, t) && ws != []
    ensures Started(ws[..|ws| - 1], t[..|ws| - 1])
  {
    var n := |ws| - 1;
    forall i | 0 <= i < n ensures ws[..n][i] == ws[i] && t[..n][i] == t[i] {}
  }

  lemma FrontOnGrid(ws: seq<Wheel>, t: seq<int>)
    requires ws != [] && |t| == |ws|
    ensures OnGrid(ws, t) <==> OnGrid(ws[..|ws| - 1], t[..|ws| - 1]) && OnWheel(ws[|ws| - 1], t[|ws| - 1])
  {
    var n := |ws| - 1;
    forall i | 0 <= i < n ensures ws[..n][i] == ws[i] && t[..n][i] == t[i] {}
    if OnGrid(ws[..n], t[..n]) && OnWheel(ws[n], t[n]) {
      forall i | 0 <= i < |ws| ensures OnWheel(ws[i], t[i]) {
        if i < n { assert OnWheel(ws[..n][i], t[..n][i]); }
      }
    }
  }

  lemma Unsnoc(t: seq<int>, u: seq<int>)
    requires |t| == |u| > 0
    ensures t == u <==> t[..|t| - 1] == u[..|t| - 1] && t[|t| - 1] == u[|t| - 1]
  {
    assert t == t[..|t| - 1] + [t[|t| - 1]] && u == u[..|t| - 1] + [u[|t| - 1]];
  }

  lemma LexSnoc(t: seq<int>, u: seq<int>)
    requires |t| == |u| > 0
    ensures var n := |t| - 1; LexLess(t, u) <==> LexLess(t[..n], u[..n]) || (t[..n] == u[..n] && t[n] < u[n])
  {
    var n := |t| - 1;
    Unsnoc(t, u);
    if LexLess(t, u) {
      var p: nat :| p < |t| && LessAt(t, u, p);
      if p < n { assert LessAt(t[..n], u[..n], p); } else { assert t[..n] == u[..n]; }
    }
    if LexLess(t[..n], u[..n]) {
      var p: nat :| p < n && LessAt(t[..n], u[..n], p);
      assert LessAt(t, u, p);
    }
    if t[..n] == u[..n] && t[n] < u[n] {
      assert forall i :: 0 <= i < n ==> t[i] == t[..n][i] && u[i] == u[..n][i];
      assert LessAt(t, u, n);
    }
  }

  /** Counting values above another are at least a step above it. */
  lemma CountOrder(w: Wheel, v: int, x: int)
    requires w.Count? && OnWheel(w, v) && OnWheel(w, x) && v < x
    ensures IndexOn(w, v) < IndexOn(w, x) && v + w.step <= x
  {
    CountIndex(w, v);
    CountIndex(w, x);
    if IndexOn(w, x) <= IndexOn(w, v) { Scale(w.step, IndexOn(w, x), IndexOn(w, v)); }
    Scale(w.step, IndexOn(w, v) + 1, IndexOn(w, x));
  }

  /** A value of the list is in a later place than whatever lies below it. */
  lemma IndexBelow(w: Wheel, v: int, x: int)
    requires OnWheel(w, x) && (if w.Cycle? then Ascending(w.values) else OnWheel(w, v))
    ensures v < x ==> IndexOn(w, v) < IndexOn(w, x)
    ensures w.Cycle? ==> IndexOn(w, v) < Size(w) && 0 <= IndexOn(w, x) < Size(w)
  {
    if w.Cycle? {
      var k := CycleIndex(w, x);
    } else if v < x {
      CountOrder(w, v, x);
    }
  }

  lemma DigitBelow(a: int, b: int, size: nat, i: int, j: int)
    requires i < size && 0 <= j && (a < b || (a == b && i < j))
    ensures Place(a, size, i) < Place(b, size, j)
  {
    if a < b { Scale(size, a + 1, b); assert size * (a + 1) == a * size + size; }
  }

  /** Whatever lies below a tuple of the grid has a smaller number. */
  lemma {:induction false} RankBelow(ws: seq<Wheel>, t: seq<int>, u: seq<int>)
    requires Started(ws, t) && OnGrid(ws, u) && LexLess(t, u)
    ensures Rank(ws, t) < Rank(ws, u)
    decreases |ws|
  {
    var n := |ws| - 1;
    FrontStarted(ws, t);
    FrontOnGrid(ws, u);
    LexSnoc(t, u);
    IndexBelow(ws[n], t[n], u[n]);
    if LexLess(t[..n], u[..n]) { RankBelow(ws[..n], t[..n], u[..n]); }
    if ws[n].Cycle? {
      DigitBelow(Rank(ws[..n], t[..n]), Rank(ws[..n], u[..n]), Size(ws[n]), IndexOn(ws[n], t[n]), IndexOn(ws[n], u[n]));
    } else {
      assert n == 0 && t[..n] == u[..n] == [];
    }
  }

  lemma {:induction false} LexTotal(t: seq<int>, u: seq<int>, same: nat)
    requires |t| == |u| && same <= |t| && forall i :: 0 <= i < same ==> t[i] == u[i]
    ensures t == u || LexLess(t, u) || LexLess(u, t)
    decreases |t| - same
  {
    if same < |t| {
      if t[same] < u[same] {
        assert LessAt(t, u, same);
      } else if u[same] < t[same] {
        assert LessAt(u, t, same);
      } else {
        LexTotal(t, u, same + 1);
      }
    }
  }

  /** The numbers of tuples on the grid are ordered as the tuples are. */
  lemma RankOrder(ws: seq<Wheel>, t: seq<int>, u: seq<int>)
    requires Wheels(ws) && OnGrid(ws, t) && OnGrid(ws, u)
    ensures Rank(ws, t) < Rank(ws, u) <==> LexLess(t, u)
    ensures Rank(ws, t) == Rank(ws, u) <==> t == u
  {
    LexTotal(t, u, 0);
    if LexLess(t, u) { RankBelow(ws, t, u); }
    if LexLess(u, t) { RankBelow(ws, u, t); }
  }

  lemma AdvanceIndex(w: Wheel, v: int)
    requires if w.Cycle? then w.values != [] && Ascending(w.values) else OnWheel(w, v)
    ensures OnWheel(w, Advance(w, v).value)
    ensures !Advance(w, v).over ==> Advance(w, v).value > v && IndexOn(w, Advance(w, v).value) == IndexOn(w, v) + 1
    ensures Advance(w, v).over ==> w.Cycle? && IndexOn(w, v) == Size(w) - 1 && IndexOn(w, Advance(w, v).value) == 0
  {
    if w.Cycle? {
      var k := FirstAbove(w.values, v);
      AboveAt(w.values, if k < |w.values| then k else 0);
    } else {
      CountIndex(w, v);
    }
  }

  /** No value of the wheel is passed over. */
  lemma AdvanceSkipsNone(w: Wheel, v: int, x: int)
    requires OnWheel(w, x) && (if w.Cycle? then Ascending(w.values) else OnWheel(w, v))
    ensures x > v ==> !Advance(w, v).over && Advance(w, v).value <= x
    ensures Advance(w, v).over ==> Advance(w, v).value <= x
  {
    if w.Cycle? {
      var k := CycleIndex(w, x);
    } else if x > v {
      CountOrder(w, v, x);
    }
  }

  lemma StartedSnoc(ws: seq<Wheel>, r: seq<int>)
    requires Wheels(ws) && |r| == |ws| > 0
    requires Started(ws[..|ws| - 1], r[..|ws| - 1]) && OnWheel(ws[|ws| - 1], r[|ws| - 1])
    ensures Started(ws, r)
  {
    var n := |ws| - 1;
    forall i | 0 <= i < |ws| && ws[i].Count? ensures OnWheel(ws[i], r[i]) {
      if i < n { assert ws[..n][i] == ws[i] && r[..n][i] == r[i]; }
    }
  }

  /** The last digit goes up, or starts over while the number before it goes up. */
  lemma RankSnoc(ws: seq<Wheel>, t: seq<int>, r: seq<int>)
    requires |t| == |r| == |ws| > 0
    requires var n := |ws| - 1;
             var high, high' := Rank(ws[..n], t[..n]), Rank(ws[..n], r[..n]);
             || (high' == high && IndexOn(ws[n], r[n]) == IndexOn(ws[n], t[n]) + 1)
             || (high' == high + 1 && IndexOn(ws[n], t[n]) == Size(ws[n]) - 1 && IndexOn(ws[n], r[n]) == 0)
    ensures Rank(ws, r) == Rank(ws, t) + 1
  {
    var n := |ws| - 1;
    PlaceRises(Rank(ws[..n], t[..n]), Rank(ws[..n], r[..n]), Size(ws[n]), IndexOn(ws[n], t[n]), IndexOn(ws[n], r[n]));
  }

  lemma TurnParts(ws: seq<Wheel>, t: seq<int>)
    requires Wheels(ws) && |t| == |ws| > 0
    ensures Wheels(ws[..|ws| - 1])
    ensures var n := |ws| - 1; var a := Advance(ws[n], t[n]);
            && Turn(ws, t)[n] == a.value
            && Turn(ws, t)[..n] == (if a.over then Turn(ws[..n], t[..n]) else t[..n])
            && Turn(ws, t) == Turn(ws, t)[..n] + [a.value]
  {
    var n := |ws| - 1;
    forall i | 0 <= i < n ensures ws[..n][i] == ws[i] {}
  }

  /** A tick goes on to the next number, from wherever it starts. */
  lemma {:induction false} TurnIsNext(ws: seq<Wheel>, t: seq<int>)
    requires Started(ws, t) && ws != [] && ws[0].Count?
    ensures Started(ws, Turn(ws, t)) && Rank(ws, Turn(ws, t)) == Rank(ws, t) + 1
    decreases |ws|
  {
    var n := |ws| - 1;
    assert Started(ws[..n], t[..n]) by { FrontStarted(ws, t); }
    TurnParts(ws, t);
    AdvanceIndex(ws[n], t[n]);
    if Advance(ws[n], t[n]).over {
      assert n > 0 && ws[..n][0] == ws[0];
      TurnIsNext(ws[..n], t[..n]);
    }
    StartedSnoc(ws, Turn(ws, t));
    RankSnoc(ws, t, Turn(ws, t));
  }

  /** And to a larger tuple. */
  lemma {:induction false} TurnIsLater(ws: seq<Wheel>, t: seq<int>)
    requires Started(ws, t) && ws != [] && ws[0].Count?
    ensures LexLess(t, Turn(ws, t))
    decreases |ws|
  {
    var n := |ws| - 1;
    FrontStarted(ws, t);
    TurnParts(ws, t);
    AdvanceIndex(ws[n], t[n]);
    if Advance(ws[n], t[n]).over {
      assert n > 0 && ws[..n][0] == ws[0];
      TurnIsLater(ws[..n], t[..n]);
    }
    LexSnoc(t, Turn(ws, t));
  }

  lemma SnocSkips(t: seq<int>, r: seq<int>, u: seq<int>)
    requires |t| == |r| == |u| > 0 && LexLess(t, u)
    requires var n := |t| - 1;
             || (r[..n] == t[..n] && (t[n] < u[n] ==> r[n] <= u[n]))
             || (t[n] >= u[n] && r[n] <= u[n] && (u[..n] == r[..n] || LexLess(r[..n], u[..n])))
    ensures u == r || LexLess(r, u)
  {
    LexSnoc(t, u);
    LexSnoc(r, u);
    Unsnoc(r, u);
  }

  /** A tick passes over no tuple of the grid. */
  lemma {:induction false} TurnSkipsNone(ws: seq<Wheel>, t: seq<int>, u: seq<int>)
    requires Started(ws, t) && OnGrid(ws, u) && LexLess(t, u)
    ensures u == Turn(ws, t) || LexLess(Turn(ws, t), u)
    decreases |ws|
  {
    var n := |ws| - 1;
    assert Started(ws[..n], t[..n]) by { FrontStarted(ws, t); }
    assert OnGrid(ws[..n], u[..n]) && OnWheel(ws[n], u[n]) by { FrontOnGrid(ws, u); }
    AdvanceSkipsNone(ws[n], t[n], u[n]);
    TurnParts(ws, t);
    if Advance(ws[n], t[n]).over {
      assert LexLess(t[..n], u[..n]) by { LexSnoc(t, u); }
      TurnSkipsNone(ws[..n], t[..n], u[..n]);
    }
    SnocSkips(t, Turn(ws, t), u);
  }

  /** The wheel at which a tick stops: the last that does not start over. */
  function Stop(ws: seq<Wheel>, t: seq<int>): (i: nat)
    requires |t| == |ws| > 0 && forall i :: 0 <= i < |ws| && ws[i].Cycle? ==> ws[i].values != []
    ensures i < |ws|
  {
    var n := |ws| - 1;
    if n > 0 && Advance(ws[n], t[n]).over then Stop(ws[..n], t[..n]) else n
  }

  /** The stop of the wheels up to one of them. */
  lemma StopStep(ws: seq<Wheel>, t: seq<int>, i: nat)
    requires Wheels(ws) && |t| == |ws| && i < |ws|
    ensures Wheels(ws[..i]) && Wheels(ws[..i + 1])
    ensures Stop(ws[..i + 1], t[..i + 1]) == if i > 0 && Advance(ws[i], t[i]).over then Stop(ws[..i], t[..i]) else i
  {
    assert ws[..i + 1][..i] == ws[..i] && t[..i + 1][..i] == t[..i];
    forall j | 0 <= j < i ensures ws[..i][j] == ws[j] {}
    forall j | 0 <= j <= i ensures ws[..i + 1][j] == ws[j] {}
  }

  /** A tick moves the wheels from the stop on and no other. */
  lemma {:induction false} TurnAt(ws: seq<Wheel>, t: seq<int>, i: nat)
    requires |t| == |ws| && i < |ws| && forall j :: 0 <= j < |ws| && ws[j].Cycle? ==> ws[j].values != []
    ensures Turn(ws, t)[i] == if Stop(ws, t) <= i then Advance(ws[i], t[i]).value else t[i]
    decreases |ws|
  {
    var n := |ws| - 1;
    if i < n && Advance(ws[n], t[n]).over {
      TurnAt(ws[..n], t[..n], i);
    }
  }

  /** The wheels from the stop on are put on their values and the ones before it stay, so
      a tick ends on the grid exactly if those are there already. */
  lemma {:induction false} TurnOnGridIff(ws: seq<Wheel>, t: seq<int>)
    requires Started(ws, t) && ws != [] && ws[0].Count?
    ensures OnGrid(ws, Turn(ws, t)) <==> OnGrid(ws[..Stop(ws, t)], t[..Stop(ws, t)])
    decreases |ws|
  {
    var n := |ws| - 1;
    FrontStarted(ws, t);
    TurnParts(ws, t);
    AdvanceIndex(ws[n], t[n]);
    FrontOnGrid(ws, Turn(ws, t));
    if Advance(ws[n], t[n]).over {
      assert n > 0 && ws[..n][0] == ws[0];
      TurnOnGridIff(ws[..n], t[..n]);
      var i := Stop(ws[..n], t[..n]);
      assert ws[..n][..i] == ws[..i] && t[..n][..i] == t[..i];
    }
  }

  /** From the grid a tick ends on the grid. */
  lemma TurnKeepsGrid(ws: seq<Wheel>, t: seq<int>)
    requires Wheels(ws) && OnGrid(ws, t) && ws != [] && ws[0].Count?
    ensures OnGrid(ws, Turn(ws, t))
  {
    TurnOnGridIff(ws, t);
  }

  /** The least tuple on the grid above the given one. */
  ghost predicate LeastAbove(ws: seq<Wheel>, t: seq<int>, r: seq<int>) {
    && |t| == |r| == |ws| && OnGrid(ws, r) && LexLess(t, r)
    && forall u :: OnGrid(ws, u) && LexLess(t, u) ==> u == r || LexLess(r, u)
  }

  /** A tick gives the least tuple on the grid above the present one exactly if the wheels
      before the stop are on their values. */
  lemma TurnIsLeastAboveIff(ws: seq<Wheel>, t: seq<int>)
    requires Started(ws, t) && ws != [] && ws[0].Count?
    ensures LeastAbove(ws, t, Turn(ws, t)) <==> OnGrid(ws[..Stop(ws, t)], t[..Stop(ws, t)])
  {
    TurnOnGridIff(ws, t);
    TurnIsLater(ws, t);
    forall u | OnGrid(ws, u) && LexLess(t, u) ensures u == Turn(ws, t) || LexLess(Turn(ws, t), u) {
      TurnSkipsNone(ws, t, u);
    }
  }

  function Turns(ws: seq<Wheel>, t: seq<int>, k: nat): (r: seq<int>)
    requires |t| == |ws| && forall i :: 0 <= i < |ws| && ws[i].Cycle? ==> ws[i].values != []
    ensures |r| == |t|
  {
    if k == 0 then t else Turn(ws, Turns(ws, t, k - 1))
  }

  lemma LexTransitive(t: seq<int>, u: seq<int>, v: seq<int>)
    requires |t| == |u| == |v| && LexLess(t, u) && LexLess(u, v)
    ensures LexLess(t, v)
  {
    var p: nat :| p < |t| && LessAt(t, u, p);
    var q: nat :| q < |u| && LessAt(u, v, q);
    assert LessAt(t, v, if p < q then p else q);
  }

  /** What comes of so many ticks. */
  ghost predicate Risen(ws: seq<Wheel>, t: seq<int>, x: seq<int>, k: nat) {
    && Started(ws, x) && |t| == |ws| && Rank(ws, x) == Rank(ws, t) + k
    && if k > 0 then LexLess(t, x) else t == x
  }

  lemma TurnRises(ws: seq<Wheel>, t: seq<int>, x: seq<int>, k: nat)
    requires ws != [] && ws[0].Count? && Risen(ws, t, x, k)
    ensures Risen(ws, t, Turn(ws, x), k + 1)
  {
    TurnIsNext(ws, x);
    TurnIsLater(ws, x);
    if k > 0 { LexTransitive(t, x, Turn(ws, x)); }
  }

  lemma {:induction false} TurnsRise(ws: seq<Wheel>, t: seq<int>, k: nat)
    requires Started(ws, t) && ws != [] && ws[0].Count?
    ensures Risen(ws, t, Turns(ws, t, k), k)
  {
    if k > 0 {
      TurnsRise(ws, t, k - 1);
      TurnRises(ws, t, Turns(ws, t, k - 1), k - 1);
    }
  }

  /** The tuple comes to the given one of the grid with just so many ticks more. */
  ghost predicate Towards(ws: seq<Wheel>, t: seq<int>, u: seq<int>, rest: int) {
    && Started(ws, t) && |u| == |ws| && Rank(ws, t) + rest == Rank(ws, u)
    && if rest > 0 then LexLess(t, u) else t == u
  }

  lemma TurnTowards(ws: seq<Wheel>, t: seq<int>, u: seq<int>, rest: int)
    requires ws != [] && ws[0].Count? && OnGrid(ws, u) && rest > 0 && Towards(ws, t, u, rest)
    ensures Towards(ws, Turn(ws, t), u, rest - 1)
  {
    TurnIsNext(ws, t);
    TurnSkipsNone(ws, t, u);
    if LexLess(Turn(ws, t), u) { RankBelow(ws, Turn(ws, t), u); }
  }

  lemma {:induction false} TurnsTowards(ws: seq<Wheel>, t: seq<int>, u: seq<int>, rest: nat, m: nat)
    requires ws != [] && ws[0].Count? && OnGrid(ws, u) && m <= rest && Towards(ws, t, u, rest)
    ensures |t| == |ws| && Wheels(ws) && Towards(ws, Turns(ws, t, m), u, rest - m)
  {
    if m > 0 {
      TurnsTowards(ws, t, u, rest, m - 1);
      TurnTowards(ws, Turns(ws, t, m - 1), u, rest - (m - 1));
    }
  }

  /** Ticking on reaches every tuple on the grid above the first, each exactly once and
      in order, wherever it starts. */
  lemma TurnsReachAll(ws: seq<Wheel>, t: seq<int>, u: seq<int>) returns (k: nat)
    requires Started(ws, t) && ws != [] && ws[0].Count? && OnGrid(ws, u) && LexLess(t, u)
    ensures k > 0 && Turns(ws, t, k) == u
    ensures forall m: nat :: LexLess(Turns(ws, t, m), u) <==> m < k
  {
    RankBelow(ws, t, u);
    k := Rank(ws, u) - Rank(ws, t);
    TurnsTowards(ws, t, u, k, k);
    forall m: nat ensures LexLess(Turns(ws, t, m), u) <==> m < k {
      if m < k {
        TurnsTowards(ws, t, u, k, m);
      } else {
        TurnsRise(ws, t, m);
        if LexLess(Turns(ws, t, m), u) { RankBelow(ws, Turns(ws, t, m), u); }
      }
    }
  }

  // Where ticking comes on the grid.

  /** The grid goes on without end. */
  lemma GridAbove(ws: seq<Wheel>, t: seq<int>) returns (u: seq<int>)
    requires Started(ws, t) && ws != [] && ws[0].Count?
    ensures OnGrid(ws, u) && LexLess(t, u)
  {
    AdvanceIndex(ws[0], t[0]);
    u := seq(|ws|, i requires 0 <= i < |ws| =>
      if ws[i].Cycle? && ws[i].values != [] then ws[i].values[0] else Advance(ws[0], t[0]).value);
    assert LessAt(t, u, 0);
  }

  lemma {:induction false} FirstReached(ws: seq<Wheel>, t: seq<int>, last: nat) returns (k: nat)
    requires Started(ws, t) && last > 0 && OnGrid(ws, Turns(ws, t, last))
    ensures 0 < k <= last && OnGrid(ws, Turns(ws, t, k))
    ensures forall m :: 0 < m < k ==> !OnGrid(ws, Turns(ws, t, m))
    decreases last
  {
    if m: nat :| 0 < m < last && OnGrid(ws, Turns(ws, t, m)) {
      k := FirstReached(ws, t, m);
    } else {
      k := last;
    }
  }

  /** Wherever ticking starts, it comes on the grid, and first at the least tuple there
      above the start. */
  lemma FirstOnGrid(ws: seq<Wheel>, t: seq<int>) returns (k: nat)
    requires Started(ws, t) && ws != [] && ws[0].Count?
    ensures k > 0 && LeastAbove(ws, t, Turns(ws, t, k))
    ensures forall m :: 0 < m < k ==> !OnGrid(ws, Turns(ws, t, m))
  {
    var above := GridAbove(ws, t);
    var last := TurnsReachAll(ws, t, above);
    k := FirstReached(ws, t, last);
    TurnsRise(ws, t, k);
    forall u | OnGrid(ws, u) && LexLess(t, u) ensures u == Turns(ws, t, k) || LexLess(Turns(ws, t, k), u) {
      var j := TurnsReachAll(ws, t, u);
      assert j >= k;
    }
  }
}
