/**
 The playback rate while the host keeps talking: runs that mix emissions with any commands that neither
 stop playback nor change the rate.
 */
module SteadyPlay {
  import opened Engine
  import opened Timing
  import opened Traces
  import opened Wrappers

  // Anything the host may send in between: `Data` and `Ping` in particular, and whatever is refused.
  predicate Steady(e: Event) {
    e.Receive? && e.interpreted.Known? ==>
      var c := e.interpreted.command;
      !c.PointRate? && !c.Stop? && !c.EmergencyStop?
  }

  function Polls(events: seq<Event>): seq<Poll> {
    if events == [] then []
    else (if events[0].Emission? then [events[0].poll] else []) + Polls(events[1..])
  }

  // Such a run, with emissions whose instants do not decrease.
  predicate SteadyRun(events: seq<Event>) {
    (forall e <- events :: Steady(e)) && Nondecreasing(Polls(events))
  }

  // When the first slot of the run is due.
  function FirstDue(s: Engine, polls: seq<Poll>): Instant
    requires polls != []
  {
    s.next.GetOr(polls[0].armed)
  }

  // The interval the emission loop runs at, or zero where it cannot run.
  function Interval(s: Engine): nat { RateInterval(s.status.pointRate).GetOr(0) }

  // The slots an emission passes.
  function SlotsPassed(s: Engine, p: Poll): nat { Slots(s.next.GetOr(p.armed), p.fired, Interval(s)) }

  // Every emission finds as many points queued as it passes slots.
  predicate NeverStarved(s: Engine, events: seq<Event>)
    requires Inv(s)
    decreases |events|
  {
    events == [] ||
    (StepKeepsInv(s, events[0]);
     && (events[0].Emission? ==> SlotsPassed(s, events[0].poll) <= |s.buffer|)
     && NeverStarved(Step(s, events[0]).0, events[1..]))
  }

  // What a series of emissions at one interval comes to: with slots counted from the first one due to
  // the last instant, the next slot is the one after them, and a point was shown in each of them if
  // the queue never ran short -- in fewer exactly if it did.
  predicate CountsSlots(next: Option<Instant>, polls: seq<Poll>, interval: nat,
                        next': Option<Instant>, shown: nat, neverStarved: bool) {
    if polls == [] then next' == next && shown == 0 && neverStarved
    else
      var due := next.GetOr(polls[0].armed);
      var slots := Slots(due, polls[|polls| - 1].fired, interval);
      && next' == Some(due + slots * interval)
      && shown <= slots
      && (shown == slots <==> neverStarved)
  }

  predicate InStep(s: Engine, events: seq<Event>)
    requires Inv(s)
  {
    var (s', trace) := Run(s, events);
    && Emitting(s') && s'.status.pointRate == s.status.pointRate
    && |trace| == |events|
    && CountsSlots(s.next, Polls(events), Interval(s), s'.next, |Shown(trace)|, NeverStarved(s, events))
  }

  lemma SteadyCommand(s: Engine, ic: Interpreted)
    requires Inv(s) && Emitting(s) && Steady(Receive(ic))
    ensures var s1 := ProcessInterpreted(s, ic).0;
            Emitting(s1) && s1.next == s.next && s1.status.pointRate == s.status.pointRate
  {}

  lemma IntervalOf(s: Engine)
    requires Emitting(s)
    ensures RateInterval(s.status.pointRate) == Some(Interval(s)) && Interval(s) == SECOND / s.status.pointRate > 0
  {
    IntervalIsFloor(s.status.pointRate);
  }

  lemma AdvanceCounts(s: Engine, slots: nat, interval: nat)
    requires s.next.Some?
    ensures var s1 := Advance(s, slots, interval);
            s1.next == Some(s.next.value + slots * interval) && |s.buffer| - |s1.buffer| == Min(slots, |s.buffer|)
  {}

  lemma SteadyEmission(s: Engine, p: Poll)
    requires Inv(s) && Emitting(s)
    ensures var (s1, fate) := Emit(s, p);
            && Emitting(s1) && s1.status.pointRate == s.status.pointRate && !Halts(fate)
            && s1.next == Some(s.next.GetOr(p.armed) + SlotsPassed(s, p) * Interval(s))
            && |Points(fate)| == Min(SlotsPassed(s, p), |s.buffer|)
  {
    IntervalOf(s);
    FireOutcome(Arm(s, p.armed), p.fired);
    EmitAdvances(s, p);
    AdvanceCounts(Arm(s, p.armed), SlotsPassed(s, p), Interval(s));
    var (s1, fate) := Emit(s, p);
    assert |Points(fate) + s1.buffer| == |s.buffer|;
  }

  lemma CountsMore(next: Option<Instant>, p: Poll, polls: seq<Poll>, interval: nat, next': Option<Instant>,
                   shown: nat, later: nat, neverStarved: bool)
    requires interval > 0 && Nondecreasing([p] + polls)
    requires var due := next.GetOr(p.armed);
             var slots := Slots(due, p.fired, interval);
             && shown <= slots
             && CountsSlots(Some(due + slots * interval), polls, interval, next', later, neverStarved)
    ensures var slots := Slots(next.GetOr(p.armed), p.fired, interval);
            CountsSlots(next, [p] + polls, interval, next', shown + later, shown == slots && neverStarved)
  {
    var due := next.GetOr(p.armed);
    var all := [p] + polls;
    if polls != [] {
      var last := polls[|polls| - 1];
      assert all[|polls|] == last && all[0] == p;
      SlotsCompose(due, p.fired, last.fired, interval);
      var k1 := Slots(due, p.fired, interval);
      SlotTimesAdd(due, k1, Slots(due + k1 * interval, last.fired, interval), interval);
    }
  }

  lemma LaterSteady(e: Event, later: seq<Event>)
    requires SteadyRun([e] + later)
    ensures Steady(e) && SteadyRun(later)
    ensures Polls([e] + later) == (if e.Emission? then [e.poll] else []) + Polls(later)
  {
    var events := [e] + later;
    assert events[1..] == later && e == events[0] && e in events;
    assert forall x | x in later :: x in events;
    var polls, all := Polls(later), Polls(events);
    if e.Emission? {
      assert forall i | 0 <= i < |polls| :: polls[i] == all[i + 1];
    } else {
      assert all == polls;
    }
  }

  lemma NeverStarvedStep(s: Engine, e: Event, later: seq<Event>)
    requires Inv(s)
    ensures Inv(Step(s, e).0)
    ensures NeverStarved(s, [e] + later)
            <==> (e.Emission? ==> SlotsPassed(s, e.poll) <= |s.buffer|) && NeverStarved(Step(s, e).0, later)
  {
    StepKeepsInv(s, e);
    assert ([e] + later)[1..] == later;
  }

  // Over a steady run the emission clock never loses a slot, whatever the host sends in between and
  // however the emissions fall.
  lemma {:induction false} KeepsInStep(s: Engine, events: seq<Event>)
    requires Inv(s) && Emitting(s) && SteadyRun(events)
    ensures InStep(s, events)
    decreases |events|, 0
  {
    if events != [] {
      var e, later := events[0], events[1..];
      assert events == [e] + later;
      match e {
        case Receive(ic) => CommandInStep(s, ic, later);
        case Emission(p) => EmissionInStep(s, p, later);
      }
    }
  }

  lemma {:induction false} CommandInStep(s: Engine, ic: Interpreted, later: seq<Event>)
    requires Inv(s) && Emitting(s) && SteadyRun([Receive(ic)] + later)
    ensures InStep(s, [Receive(ic)] + later)
    decreases |later|, 1
  {
    var e := Receive(ic);
    var (s1, en) := Step(s, e);
    LaterSteady(e, later);
    RunStep(s, e, later);
    SteadyCommand(s, ic);
    KeepsInStep(s1, later);
    ShownStep(en, Run(s1, later).1);
    NeverStarvedStep(s, e, later);
    assert Polls([e] + later) == Polls(later);
  }

  lemma {:induction false} EmissionInStep(s: Engine, p: Poll, later: seq<Event>)
    requires Inv(s) && Emitting(s) && SteadyRun([Emission(p)] + later)
    ensures InStep(s, [Emission(p)] + later)
    decreases |later|, 1
  {
    var e := Emission(p);
    var (s1, en) := Step(s, e);
    LaterSteady(e, later);
    RunStep(s, e, later);
    IntervalOf(s);
    SteadyEmission(s, p);
    KeepsInStep(s1, later);
    var (s', trace) := Run(s1, later);
    ShownStep(en, trace);
    NeverStarvedStep(s, e, later);
    CountsMore(s.next, p, Polls(later), Interval(s), s'.next,
               |Points(en.fate)|, |Shown(trace)|, NeverStarved(s1, later));
  }

  lemma SlotsKeepRate(s: Engine, due: Instant, last: Instant, shown: nat)
    requires Emitting(s) && due < last && shown == Slots(due, last, Interval(s))
    ensures KeepsRate(shown, last - due, s.status.pointRate)
  {
    IntervalOf(s);
    RateBound(s.status.pointRate, due, last);
  }

  // The slots of the whole run, all of them shown in.
  lemma ShownInEverySlot(s: Engine, events: seq<Event>)
    requires Inv(s) && Emitting(s) && SteadyRun(events) && NeverStarved(s, events) && Polls(events) != []
    ensures var polls := Polls(events);
            |Shown(Run(s, events).1)| == Slots(FirstDue(s, polls), polls[|polls| - 1].fired, Interval(s))
  {
    KeepsInStep(s, events);
  }

  // No drift: while the queue never runs short, the number of points shown keeps to the requested rate
  // from the first slot to the last instant.
  lemma NoDrift(s: Engine, events: seq<Event>, due: Instant, last: Instant)
    requires Inv(s) && Emitting(s) && SteadyRun(events) && NeverStarved(s, events)
    requires var polls := Polls(events);
             polls != [] && due == FirstDue(s, polls) && last == polls[|polls| - 1].fired
    requires due < last
    ensures KeepsRate(|Shown(Run(s, events).1)|, last - due, s.status.pointRate)
  {
    ShownInEverySlot(s, events);
    SlotsKeepRate(s, due, last, |Shown(Run(s, events).1)|);
  }
}
