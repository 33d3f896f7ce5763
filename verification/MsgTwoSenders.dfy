/** Why MsgProtocol has one sender: Send compares the free size before it has the mutex, and
    with a second sender the comparison may no longer hold when the bytes are written. */
module MsgTwoSenders {
  import opened MsgProtocol

  /** The protocol with a second process in Send. */
  datatype Duo = Duo(state: State, second: SenderPc)

  datatype DuoEvent = First(event: Event) | Second(event: Event)

  /** The second sender takes the place of the first. */
  function Swap(d: Duo): Duo {
    Duo(d.state.(sender := d.second), d.state.sender)
  }

  predicate CanDo(d: Duo, e: DuoEvent) {
    match e
    case First(event) => Enabled(d.state, event)
    case Second(event) => (event.Send? || event.SenderStep? || event.SenderTimeout?) && Enabled(Swap(d).state, event)
  }

  function DoDuo(d: Duo, e: DuoEvent): Duo
    requires CanDo(d, e)
  {
    match e
    case First(event) => d.(state := Do(d.state, event))
    case Second(event) => Swap(Swap(d).(state := Do(Swap(d).state, event)))
  }

  predicate DuoFeasible(d: Duo, events: seq<DuoEvent>)
    decreases |events|
  {
    events == [] || (CanDo(d, events[0]) && DuoFeasible(DoDuo(d, events[0]), events[1..]))
  }

  function DuoRun(d: Duo, events: seq<DuoEvent>): Duo
    requires DuoFeasible(d, events)
    decreases |events|
  {
    if events == [] then d else DuoRun(DoDuo(d, events[0]), events[1..])
  }

  ghost predicate Leads(d: Duo, events: seq<DuoEvent>, last: Duo) {
    DuoFeasible(d, events) && DuoRun(d, events) == last
  }

  lemma {:induction false} Then(d: Duo, events: seq<DuoEvent>, last: Duo, e: DuoEvent) returns (more: seq<DuoEvent>)
    requires Leads(d, events, last) && CanDo(last, e)
    ensures more == events + [e] && Leads(d, more, DoDuo(last, e))
    decreases |events|
  {
    more := events + [e];
    if events == [] {
      assert more[0] == e && more[1..] == [];
    } else {
      var rest := Then(DoDuo(d, events[0]), events[1..], last, e);
      assert more[0] == events[0] && more[1..] == rest;
    }
  }

  /** A whole Send of the first sender, once its check is made. */
  lemma FirstSends(d: Duo, before: seq<DuoEvent>, last: Duo, need: nat) returns (events: seq<DuoEvent>)
    requires Leads(d, before, last) && last.state.sender == SChecked(need) && last.state.mutex == 1
    ensures Leads(d, events, last.(state := last.state.(queue := last.state.queue + [need], free := last.state.free - need,
                  msgNum := last.state.msgNum + 1, count := last.state.count + 1, sender := SIdle)))
  {
    var s := last.state;
    var step := First(SenderStep);
    events := Then(d, before, last, step);
    var inside := s.(mutex := 0, sender := SInside(need));
    assert DoDuo(last, step) == last.(state := inside);
    events := Then(d, events, last.(state := inside), step);
    var written := inside.(queue := s.queue + [need], sender := SWritten(need));
    events := Then(d, events, last.(state := written), step);
    var spent := written.(free := s.free - need, sender := SSpent);
    events := Then(d, events, last.(state := spent), step);
    var raised := spent.(msgNum := s.msgNum + 1, sender := SRaised);
    events := Then(d, events, last.(state := raised), step);
    var posted := raised.(count := s.count + 1, sender := SPosted);
    events := Then(d, events, last.(state := posted), step);
  }

  /** And of the second, up to the point where the free size is lowered. */
  lemma SecondWrites(d: Duo, before: seq<DuoEvent>, last: Duo, need: nat) returns (events: seq<DuoEvent>)
    requires Leads(d, before, last) && last.second == SChecked(need) && last.state.mutex == 1
    ensures Leads(d, events, Duo(last.state.(queue := last.state.queue + [need], free := last.state.free - need, mutex := 0),
                  SSpent))
  {
    var s := last.state;
    var step := Second(SenderStep);
    events := Then(d, before, last, step);
    var inside := Duo(s.(mutex := 0), SInside(need));
    assert DoDuo(last, step) == inside;
    events := Then(d, events, inside, step);
    var written := Duo(s.(mutex := 0, queue := s.queue + [need]), SWritten(need));
    events := Then(d, events, written, step);
  }

  /** Two messages of which each fits the empty ring and both do not: each sender finds
      room, and both are written. */
  lemma TwoSendersOverfill(s: State, a: nat, b: nat) returns (events: seq<DuoEvent>)
    requires Initial(s) && a <= s.capacity && b <= s.capacity < a + b
    ensures DuoFeasible(Duo(s, SIdle), events)
    ensures var last := DuoRun(Duo(s, SIdle), events).state;
            last.queue == [a, b] && Total(last.queue) > last.capacity && last.free == s.capacity - (a + b) < 0
  {
    var d := Duo(s, SIdle);
    events := Then(d, [], d, First(Send(a)));
    var one := Duo(s.(sender := SChecked(a)), SIdle);
    events := Then(d, events, one, Second(Send(b)));
    events := FirstSends(d, events, one.(second := SChecked(b)), a);
    var sent := s.(queue := [a], free := s.capacity - a, msgNum := 1, count := 1);
    assert s.queue + [a] == [a];
    events := SecondWrites(d, events, Duo(sent, SChecked(b)), b);
    assert [a] + [b] == [a, b] && [a, b][1..] == [b] && [b][1..] == [];
  }
}
