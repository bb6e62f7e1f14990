/**
 The flow control of the streaming example: each submission carries as many points as the mirrored
 status says will fit. The mirror is stale by the time the points arrive, but only on the safe side.
 */
module FlowControl {
  import opened LittleEndian
  import opened Protocol
  import opened Dac
  import opened Engine
  import opened Timing
  import opened Framing
  import opened Traces
  import opened Client
  import Session
  import opened Wrappers

  // Emissions only help: a state that differs from another by points already emitted.
  predicate Below(s: Engine, t: Engine) {
    && s.capacity == t.capacity
    && s.status.lightEngine == t.status.lightEngine
    && s.status.playback == t.status.playback
    && s.status.pointRate == t.status.pointRate
    && |s.buffer| <= |t.buffer|
    && (s.status.playback == Prepared ==> |s.buffer| == |t.buffer|)
  }

  // The state after a list of commands with no emission in between, and whether all are acknowledged.
  function EffectAll(t: Engine, cs: seq<Command>): (t': Engine)
    requires Inv(t)
    ensures Inv(t')
    decreases |cs|
  {
    if cs == [] then t
    else
      CommandKeepsInv(t, Known(cs[0]));
      EffectAll(Effect(t, cs[0]), cs[1..])
  }

  predicate Willing(t: Engine, cs: seq<Command>)
    requires Inv(t)
    decreases |cs|
  {
    cs == [] ||
    (Verdict(t, cs[0]) == ACK && (CommandKeepsInv(t, Known(cs[0])); Willing(Effect(t, cs[0]), cs[1..])))
  }

  // The rates the emission loop can run at, wherever these commands leave the DAC playing.
  predicate Playable(t: Engine, cs: seq<Command>)
    requires Inv(t)
    decreases |cs|
  {
    && (t.status.playback == Playing ==> 1 <= t.status.pointRate <= SECOND)
    && (cs == [] || (CommandKeepsInv(t, Known(cs[0])); Playable(Effect(t, cs[0]), cs[1..])))
  }

  lemma EmissionStaysBelow(s: Engine, t: Engine, p: Poll)
    requires Inv(s) && Below(s, t)
    ensures var (s', fate) := Emit(s, p);
            && Below(s', t)
            && |s'.buffer| <= |s.buffer|
            && (t.status.playback == Playing && 1 <= t.status.pointRate <= SECOND ==> !Halts(fate))
  {
    if s.status.playback == Playing {
      FireOutcome(Arm(s, p.armed), p.fired);
    }
  }

  lemma AcceptedStaysBelow(s: Engine, t: Engine, c: Command)
    requires Inv(s) && Inv(t) && Below(s, t) && Verdict(t, c) == ACK
    ensures Verdict(s, c) == ACK
    ensures Below(Effect(s, c), Effect(t, c))
  {}

  // The run of a command list under a schedule, its responses and the statuses they were built from.
  function RunOf(s: Engine, cs: seq<Command>, ticks: seq<Session.Tick>): (Engine, seq<Entry>)
    requires Inv(s) && Session.Serves(ticks) == |cs|
  {
    Run(s, Session.Schedule(cs, ticks))
  }

  function MomentsOf(s: Engine, cs: seq<Command>, ticks: seq<Session.Tick>): seq<Status>
    requires Inv(s) && Session.Serves(ticks) == |cs|
  {
    Session.Answering(s, Session.Schedule(cs, ticks))
  }

  // What is known of a run of commands that a state at or above this one would all acknowledge.
  predicate GoesWell(s: Engine, t: Engine, cs: seq<Command>, ticks: seq<Session.Tick>)
    requires Inv(s) && Inv(t) && Session.Serves(ticks) == |cs|
  {
    var (s', trace) := RunOf(s, cs, ticks);
    WentWell(s, s', trace, MomentsOf(s, cs, ticks), EffectAll(t, cs), |cs|, Playable(t, cs))
  }

  // A run from `s` to `s'` that answers `n` commands, compared with the state `t'` they lead to alone.
  predicate WentWell(s: Engine, s': Engine, trace: seq<Entry>, moments: seq<Status>, t': Engine, n: nat,
                     playable: bool) {
    && Session.NoRefusal(Session.Responses(trace))
    && (playable ==> !Session.Died(trace))
    && (!Session.Died(trace) ==>
          && Below(s', t')
          && |moments| == n
          && (n == 0 ==> |s'.buffer| <= |s.buffer|)
          && (n > 0 ==> |s'.buffer| <= moments[n - 1].bufferFullness <= |t'.buffer|))
  }

  lemma WellAfterAnswer(s: Engine, s1: Engine, s': Engine, en: Entry, trace: seq<Entry>, moments: seq<Status>,
                        t': Engine, n: nat, playable: bool)
    requires WentWell(s1, s', trace, moments, t', n, playable)
    requires Inv(s1) && en.Answered? && en.response.response == ACK
    requires n == 0 ==> |s1.buffer| <= |t'.buffer|
    ensures WentWell(s, s', [en] + trace, [s1.status] + moments, t', n + 1, playable)
  {
    Session.ResponsesStep(en, trace);
    NoRefusalStep(en.response, Session.Responses(trace));
    if trace == [] {
      assert [en] + trace == [en];
    }
  }

  // If a command list would be acknowledged throughout when run alone, it is acknowledged throughout
  // under every interleaving with emissions, from any state those emissions may already have reached;
  // and the queue is never longer than the last response says, nor that than without emissions.
  lemma {:induction false} EmissionsOnlyHelp(s: Engine, t: Engine, cs: seq<Command>, ticks: seq<Session.Tick>)
    requires Inv(s) && Inv(t) && Below(s, t) && Willing(t, cs)
    requires Session.Serves(ticks) == |cs|
    ensures GoesWell(s, t, cs, ticks)
    decreases |ticks|
  {
    if ticks != [] {
      match ticks[0] {
        case Pass(p) => PassHelps(s, t, cs, p, ticks);
        case Serve(_) => ServeHelps(s, t, cs, ticks);
      }
    }
  }

  lemma {:induction false} PassHelps(s: Engine, t: Engine, cs: seq<Command>, p: Poll, ticks: seq<Session.Tick>)
    requires Inv(s) && Inv(t) && Below(s, t) && Willing(t, cs)
    requires ticks != [] && ticks[0] == Session.Pass(p) && Session.Serves(ticks) == |cs|
    ensures GoesWell(s, t, cs, ticks)
    decreases |ticks|, 0
  {
    var (s1, en) := Step(s, Emission(p));
    var events := Session.Schedule(cs, ticks[1..]);
    EmissionStaysBelow(s, t, p);
    RunStep(s, Emission(p), events);
    Session.AnsweringStep(s, Emission(p), events);
    assert [] + Session.Answering(s1, events) == Session.Answering(s1, events);
    if Fatal(en) {
      Session.ResponsesStep(en, []);
      assert Session.Responses([en]) == [];
    } else {
      EmissionsOnlyHelp(s1, t, cs, ticks[1..]);
      var trace := Run(s1, events).1;
      Session.ResponsesStep(en, trace);
      assert [] + Session.Responses(trace) == Session.Responses(trace);
    }
  }

  lemma {:induction false} ServeHelps(s: Engine, t: Engine, cs: seq<Command>, ticks: seq<Session.Tick>)
    requires Inv(s) && Inv(t) && Below(s, t) && Willing(t, cs)
    requires ticks != [] && ticks[0].Serve? && Session.Serves(ticks) == |cs|
    ensures GoesWell(s, t, cs, ticks)
    decreases |ticks|, 0
  {
    var e := Traces.Receive(Known(cs[0]));
    var (s1, en) := Step(s, e);
    var events := Session.Schedule(cs[1..], ticks[1..]);
    CommandKeepsInv(t, Known(cs[0]));
    AcceptedStaysBelow(s, t, cs[0]);
    RunStep(s, e, events);
    Session.AnsweringStep(s, e, events);
    EmissionsOnlyHelp(s1, Effect(t, cs[0]), cs[1..], ticks[1..]);
    var (s', trace) := Run(s1, events);
    WellAfterAnswer(s, s1, s', en, trace, Session.Answering(s1, events), EffectAll(t, cs), |cs| - 1, Playable(t, cs));
  }

  // Host and emulator over the wire, for commands the DAC would all accept.

  predicate WellFormed(cs: seq<Command>, capacity: uint16, ticks: seq<Session.Tick>) {
    capacity >= 2 && AllFit(cs, capacity) && Session.WholeTicks(ticks, capacity) && Session.Serves(ticks) == |cs|
  }

  lemma AcceptedSubmission(s: Engine, mirror: Status, cs: seq<Command>, ticks: seq<Session.Tick>)
    requires Inv(s) && Willing(s, cs) && cs != [] && WellFormed(cs, s.capacity, ticks)
    ensures var x := Session.Exchange(s, mirror, cs, ticks);
            var t' := EffectAll(s, cs);
            && (x.engine, x.trace) == RunOf(s, cs, ticks)
            && Session.NoRefusal(Session.Responses(x.trace))
            && |Session.Responses(x.trace)| <= |cs|
            && (Playable(s, cs) ==> !Session.Died(x.trace))
            && (!Session.Died(x.trace) ==>
                  && x.ending == Session.SUCCESS
                  && |Session.Responses(x.trace)| == |cs|
                  && Below(x.engine, t')
                  && |x.engine.buffer| <= x.mirror.bufferFullness <= |t'.buffer|)
  {
    Session.SessionCorrect(s, mirror, cs, ticks);
    Session.ResponsesEcho(s, cs, ticks);
    EmissionsOnlyHelp(s, s, cs, ticks);
    VerdictsWithoutRefusal(mirror, Session.Responses(RunOf(s, cs, ticks).1), MomentsOf(s, cs, ticks), |cs|);
  }

  lemma VerdictsWithoutRefusal(mirror: Status, rs: seq<DacResponse>, moments: seq<Status>, expected: nat)
    requires Session.NoRefusal(rs)
    ensures Session.Verdicts(mirror, rs, moments, expected)
            == (if |rs| == expected then Success(()) else Failure(Io), Session.MirrorAfter(mirror, moments, |rs|), [])
  {
    var _ := Session.FirstRefusal(rs);
  }

  // The books of a trace hold the points of the commands it answered.
  predicate BookedFor(l: Ledger, capacity: uint16, trace: seq<Entry>, cs: seq<Command>) {
    var answered := |Session.Responses(trace)|;
    && answered <= |cs|
    && Tally(l, capacity, trace).accepted == l.accepted + Payload(cs[..answered])
  }

  lemma BookOutput(l: Ledger, capacity: uint16, fate: Fate, trace: seq<Entry>, cs: seq<Command>)
    requires BookedFor(Post(l, capacity, Output(fate)), capacity, trace, cs)
    ensures BookedFor(l, capacity, [Output(fate)] + trace, cs)
  {
    Session.ResponsesStep(Output(fate), trace);
    TallyStep(l, capacity, Output(fate), trace);
    assert [] + Session.Responses(trace) == Session.Responses(trace);
  }

  lemma NothingBooked(l: Ledger, capacity: uint16, cs: seq<Command>)
    ensures BookedFor(l, capacity, [], cs)
  {
    assert l.accepted + Payload(cs[..0]) == l.accepted;
  }

  // Every acknowledged point enters the books, in the order sent.
  lemma {:induction false} AcceptedPointsBooked(l: Ledger, s: Engine, cs: seq<Command>, ticks: seq<Session.Tick>)
    requires Inv(s) && Session.Serves(ticks) == |cs| && PrepareStream !in cs
    requires Session.NoRefusal(Session.Responses(RunOf(s, cs, ticks).1))
    ensures BookedFor(l, s.capacity, RunOf(s, cs, ticks).1, cs)
    decreases |ticks|
  {
    if ticks == [] {
      NothingBooked(l, s.capacity, cs);
    } else {
      match ticks[0] {
        case Pass(p) =>
          var (s1, en) := Step(s, Emission(p));
          var events := Session.Schedule(cs, ticks[1..]);
          RunStep(s, Emission(p), events);
          var l1 := Post(l, s.capacity, en);
          if Fatal(en) {
            NothingBooked(l1, s.capacity, cs);
            BookOutput(l, s.capacity, en.fate, [], cs);
          } else {
            var trace := Run(s1, events).1;
            Session.ResponsesStep(en, trace);
            assert [] + Session.Responses(trace) == Session.Responses(trace);
            AcceptedPointsBooked(l1, s1, cs, ticks[1..]);
            BookOutput(l, s.capacity, en.fate, trace, cs);
          }
        case Serve(_) => ServeBooked(l, s, cs, ticks);
      }
    }
  }

  lemma {:induction false} ServeBooked(l: Ledger, s: Engine, cs: seq<Command>, ticks: seq<Session.Tick>)
    requires Inv(s) && Session.Serves(ticks) == |cs| && PrepareStream !in cs
    requires ticks != [] && ticks[0].Serve?
    requires Session.NoRefusal(Session.Responses(RunOf(s, cs, ticks).1))
    ensures BookedFor(l, s.capacity, RunOf(s, cs, ticks).1, cs)
    decreases |ticks|, 0
  {
    var e := Traces.Receive(Known(cs[0]));
    var (s1, en) := Step(s, e);
    var events := Session.Schedule(cs[1..], ticks[1..]);
    RunStep(s, e, events);
    var trace := Run(s1, events).1;
    Session.ResponsesStep(en, trace);
    NoRefusalStep(en.response, Session.Responses(trace));
    assert cs[0] in cs;
    AcceptedPointsBooked(Post(l, s.capacity, en), s1, cs[1..], ticks[1..]);
    BookAnswer(l, s.capacity, en.response, trace, cs);
  }

  lemma BookAnswer(l: Ledger, capacity: uint16, r: DacResponse, trace: seq<Entry>, cs: seq<Command>)
    requires cs != [] && !cs[0].PrepareStream? && r.response == ACK
    requires var en := Answered(Known(cs[0]), r);
             BookedFor(Post(l, capacity, en), capacity, trace, cs[1..])
    ensures BookedFor(l, capacity, [Answered(Known(cs[0]), r)] + trace, cs)
  {
    var en := Answered(Known(cs[0]), r);
    Session.ResponsesStep(en, trace);
    TallyStep(l, capacity, en, trace);
    PostAccepted(l, capacity, cs[0], r);
    PayloadJoins(l.accepted, cs, |Session.Responses(trace)|);
  }

  lemma NoRefusalStep(r: DacResponse, rs: seq<DacResponse>)
    ensures Session.NoRefusal([r] + rs) <==> r.response == ACK && Session.NoRefusal(rs)
  {
    assert ([r] + rs)[0] == r;
    assert forall x | x in rs :: x in [r] + rs;
  }

  lemma PostAccepted(l: Ledger, capacity: uint16, c: Command, r: DacResponse)
    requires r.response == ACK && !c.PrepareStream?
    ensures Post(l, capacity, Answered(Known(c), r)).accepted == l.accepted + Payload([c])
  {
    assert [c][1..] == [];
  }

  lemma PayloadJoins(accepted: seq<DacPoint>, cs: seq<Command>, n: nat)
    requires cs != [] && n <= |cs| - 1
    ensures (accepted + Payload([cs[0]])) + Payload(cs[1..][..n]) == accepted + Payload(cs[..n + 1])
  {
    assert cs[..n + 1][1..] == cs[1..][..n];
    assert [cs[0]][1..] == [];
  }

  lemma {:induction false} ResponsesAppend(a: seq<Entry>, b: seq<Entry>)
    ensures Session.Responses(a + b) == Session.Responses(a) + Session.Responses(b)
    decreases |a|
  {
    if a == [] {
      assert a + b == b;
    } else {
      assert a == [a[0]] + a[1..] && a + b == [a[0]] + (a[1..] + b);
      Session.ResponsesStep(a[0], a[1..]);
      Session.ResponsesStep(a[0], a[1..] + b);
      ResponsesAppend(a[1..], b);
    }
  }

  // The example program.

  // How many points it sends next; nothing where the subtraction underflows.
  function PointsToGenerate(capacity: uint16, mirror: Status): Option<nat> {
    var n := capacity - 1 - mirror.bufferFullness;
    if n < 0 then None else Some(n)
  }

  // It sends what fills the DAC up to one point less than it can hold, as far as the mirror tells.
  lemma GeneratesToFill(capacity: uint16, mirror: Status)
    ensures var n := PointsToGenerate(capacity, mirror);
            && (n.None? <==> mirror.bufferFullness >= capacity)
            && (n.Some? ==> n.value + mirror.bufferFullness == capacity - 1)
  {}

  function Take(source: nat -> DacPoint, start: nat, n: nat): seq<DacPoint> {
    seq(n, i requires 0 <= i => source(start + i))
  }

  lemma TakeMore(source: nat -> DacPoint, n: nat, more: nat)
    ensures Take(source, 0, n) + Take(source, n, more) == Take(source, 0, n + more)
  {}

  // Between submissions of the streaming loop: the credit computed from the mirror is always covered.
  predicate Streaming(s: Engine, mirror: Status, rate: uint32) {
    && Inv(s)
    && s.capacity >= 2
    && s.status.lightEngine == Dac.Ready && s.status.playback == Playing && s.status.pointRate == rate
    && |s.buffer| <= mirror.bufferFullness <= s.capacity - 1
  }

  // The start-up of the program -- fill an empty, prepared DAC and begin -- is acknowledged exactly when
  // the DAC can hold at least two points: with none the subtraction underflows, with one nothing is
  // sent before `Begin`.
  lemma StartAcceptedIff(capacity: uint16, rate: uint32, source: nat -> DacPoint)
    ensures var prepared := Effect(Connected(capacity, INITIAL_STATUS), PrepareStream);
            var n := PointsToGenerate(capacity, prepared.status);
            && Inv(prepared)
            && (n.Some? && Willing(prepared, [Data(Take(source, 0, n.value)), Begin(0, rate)]) <==> capacity >= 2)
  {
    var prepared := Effect(Connected(capacity, INITIAL_STATUS), PrepareStream);
    var n := PointsToGenerate(capacity, prepared.status);
    if n.Some? {
      StartWilling(prepared, Take(source, 0, n.value), rate);
    }
  }

  lemma StartWilling(s: Engine, points: seq<DacPoint>, rate: uint32)
    requires Inv(s) && s.status.lightEngine == Dac.Ready && s.status.playback == Prepared && s.buffer == []
    requires |points| <= s.capacity
    ensures var cs := [Data(points), Begin(0, rate)];
            && (Willing(s, cs) <==> points != [])
            && (points != [] ==>
                  var t := EffectAll(s, cs);
                  && t.capacity == s.capacity && t.status.lightEngine == Dac.Ready && t.status.playback == Playing
                  && t.status.pointRate == rate && |t.buffer| == |points|
                  && (1 <= rate <= SECOND ==> Playable(s, cs)))
  {
    var cs := [Data(points), Begin(0, rate)];
    var s1 := Effect(s, cs[0]);
    CommandKeepsInv(s, Known(cs[0]));
    assert cs[1..] == [Begin(0, rate)] && cs[1..][1..] == [];
    assert s1.buffer == points;
    if points != [] {
      var s2 := Effect(s1, cs[1]);
      CommandKeepsInv(s1, Known(cs[1]));
      assert EffectAll(s2, []) == s2 && Willing(s2, []);
      assert EffectAll(s1, cs[1..]) == s2;
    }
  }

  lemma PreparedSubmission(s: Engine, mirror: Status, ticks: seq<Session.Tick>)
    requires Inv(s) && s.status.lightEngine == Dac.Ready && s.status.playback == Idle
    requires WellFormed([PrepareStream], s.capacity, ticks)
    ensures var x := Session.Exchange(s, mirror, [PrepareStream], ticks);
            && x.ending == Session.SUCCESS
            && x.engine.capacity == s.capacity && Inv(x.engine)
            && x.engine.status.lightEngine == Dac.Ready && x.engine.status.playback == Prepared
            && x.engine.buffer == []
            && x.mirror.bufferFullness == 0
  {
    var t := Effect(s, PrepareStream);
    CommandKeepsInv(s, Known(PrepareStream));
    assert [PrepareStream][1..] == [];
    assert EffectAll(t, []) == t && Willing(t, []) && Playable(t, []);
    AcceptedSubmission(s, mirror, [PrepareStream], ticks);
  }

  // A submission that met no refusal, and after which, if the emulator lives, the credit is covered.
  predicate GoesOn(s: Engine, x: Session.Exchanged, rate: uint32) {
    && x.engine.capacity == s.capacity
    && Session.NoRefusal(Session.Responses(x.trace))
    && (1 <= rate <= SECOND ==> !Session.Died(x.trace))
    && (!Session.Died(x.trace) ==> x.ending == Session.SUCCESS && Streaming(x.engine, x.mirror, rate))
  }

  lemma StartedSubmission(s: Engine, mirror: Status, points: seq<DacPoint>, rate: uint32, ticks: seq<Session.Tick>)
    requires Inv(s) && s.status.lightEngine == Dac.Ready && s.status.playback == Prepared && s.buffer == []
    requires 1 <= |points| == s.capacity - 1
    requires WellFormed([Data(points), Begin(0, rate)], s.capacity, ticks)
    ensures var x := Session.Exchange(s, mirror, [Data(points), Begin(0, rate)], ticks);
            GoesOn(s, x, rate)
  {
    StartWilling(s, points, rate);
    AcceptedSubmission(s, mirror, [Data(points), Begin(0, rate)], ticks);
  }

  lemma RoundWilling(s: Engine, points: seq<DacPoint>)
    requires Inv(s) && Streamable(s) && |s.buffer| + |points| <= s.capacity
    ensures var cs := [Data(points)];
            var t := EffectAll(s, cs);
            && Willing(s, cs)
            && t.capacity == s.capacity
            && t.status == s.status.(bufferFullness := |s.buffer| + |points|)
            && |t.buffer| == |s.buffer| + |points|
            && (1 <= s.status.pointRate <= SECOND ==> Playable(s, cs))
  {
    var t := Effect(s, Data(points));
    CommandKeepsInv(s, Known(Data(points)));
    assert [Data(points)][1..] == [];
    assert EffectAll(t, []) == t && Willing(t, []);
  }

  // One turn of the streaming loop never meets a refusal and leaves the credit covered again.
  lemma RoundKeepsStreaming(s: Engine, mirror: Status, rate: uint32, points: seq<DacPoint>, ticks: seq<Session.Tick>)
    requires Streaming(s, mirror, rate) && PointsToGenerate(s.capacity, mirror) == Some(|points|)
    requires WellFormed([Data(points)], s.capacity, ticks)
    ensures var x := Session.Exchange(s, mirror, [Data(points)], ticks);
            GoesOn(s, x, rate)
  {
    RoundWilling(s, points);
    AcceptedSubmission(s, mirror, [Data(points)], ticks);
  }

  // What was shown up to the last answer in a trace.
  function ShownByLastAnswer(trace: seq<Entry>): seq<DacPoint> {
    if Session.Responses(trace) == [] then []
    else (if trace[0].Output? then Points(trace[0].fate) else []) + ShownByLastAnswer(trace[1..])
  }

  lemma ShownByLastAnswerStep(en: Entry, trace: seq<Entry>)
    ensures ShownByLastAnswer([en] + trace)
            == if en.Answered? || Session.Responses(trace) != []
               then (if en.Output? then Points(en.fate) else []) + ShownByLastAnswer(trace) else []
  {
    Session.ResponsesStep(en, trace);
    assert ([en] + trace)[1..] == trace;
  }

  // The queue a run of acknowledged commands has at its last answer, by count.
  predicate AnsweredExactly(s: Engine, trace: seq<Entry>, moments: seq<Status>, cs: seq<Command>) {
    && |moments| == |cs| > 0
    && moments[|cs| - 1].bufferFullness + |ShownByLastAnswer(trace)| == |s.buffer| + |Payload(cs)|
  }

  lemma {:induction false} LastAnswerExact(s: Engine, cs: seq<Command>, ticks: seq<Session.Tick>)
    requires Inv(s) && Session.Serves(ticks) == |cs| && cs != [] && PrepareStream !in cs
    requires Session.NoRefusal(Session.Responses(RunOf(s, cs, ticks).1)) && !Session.Died(RunOf(s, cs, ticks).1)
    ensures AnsweredExactly(s, RunOf(s, cs, ticks).1, MomentsOf(s, cs, ticks), cs)
    decreases |ticks|
  {
    var later := ticks[1..];
    match ticks[0] {
      case Pass(p) =>
        var (s1, en) := Step(s, Emission(p));
        var events := Session.Schedule(cs, later);
        RunStep(s, Emission(p), events);
        Session.AnsweringStep(s, Emission(p), events);
        assert !Fatal(en);
        var trace := Run(s1, events).1;
        Session.ResponsesEcho(s1, cs, later);
        Session.ResponsesStep(en, trace);
        assert [] + Session.Responses(trace) == Session.Responses(trace);
        assert [] + Session.Answering(s1, events) == Session.Answering(s1, events);
        LastAnswerExact(s1, cs, later);
        EmissionMoves(s, p);
        ShownByLastAnswerStep(en, trace);
      case Serve(_) => ServeExact(s, cs, ticks);
    }
  }

  lemma {:induction false} ServeExact(s: Engine, cs: seq<Command>, ticks: seq<Session.Tick>)
    requires Inv(s) && Session.Serves(ticks) == |cs| && cs != [] && PrepareStream !in cs
    requires ticks != [] && ticks[0].Serve?
    requires Session.NoRefusal(Session.Responses(RunOf(s, cs, ticks).1)) && !Session.Died(RunOf(s, cs, ticks).1)
    ensures AnsweredExactly(s, RunOf(s, cs, ticks).1, MomentsOf(s, cs, ticks), cs)
    decreases |ticks|, 0
  {
    var e := Traces.Receive(Known(cs[0]));
    var (s1, en) := Step(s, e);
    var events := Session.Schedule(cs[1..], ticks[1..]);
    RunStep(s, e, events);
    Session.AnsweringStep(s, e, events);
    var trace := Run(s1, events).1;
    Session.ResponsesEcho(s1, cs[1..], ticks[1..]);
    Session.ResponsesStep(en, trace);
    NoRefusalStep(en.response, Session.Responses(trace));
    ShownByLastAnswerStep(en, trace);
    assert cs[0] in cs && forall c | c in cs[1..] :: c in cs;
    AcknowledgedQueue(s, cs[0]);
    if |cs| > 1 {
      LastAnswerExact(s1, cs[1..], ticks[1..]);
      MomentsJoin(s, s1, en, trace, Session.Answering(s1, events), cs);
    } else {
      assert Session.Answering(s1, events) == [];
      assert Payload(cs) == Carried(cs[0]) + [];
    }
  }

  lemma AcknowledgedQueue(s: Engine, c: Command)
    requires Inv(s) && !c.PrepareStream? && Verdict(s, c) == ACK
    ensures Inv(Effect(s, c)) && |Effect(s, c).buffer| == |s.buffer| + |Carried(c)|
  {
    CommandKeepsInv(s, Known(c));
  }

  lemma MomentsJoin(s: Engine, s1: Engine, en: Entry, trace: seq<Entry>, moments: seq<Status>, cs: seq<Command>)
    requires |cs| > 1 && AnsweredExactly(s1, trace, moments, cs[1..]) && en.Answered?
    requires |s1.buffer| == |s.buffer| + |Carried(cs[0])|
    ensures AnsweredExactly(s, [en] + trace, [s1.status] + moments, cs)
  {
    ShownByLastAnswerStep(en, trace);
    assert [] + ShownByLastAnswer(trace) == ShownByLastAnswer(trace);
    assert Payload(cs) == Carried(cs[0]) + Payload(cs[1..]);
  }

  // If the emulator lives, the mirror and what had been shown by the last answer make up exactly what was
  // queued and what was sent.
  predicate MirrorsExactly(s: Engine, x: Session.Exchanged, n: nat) {
    !Session.Died(x.trace) ==> x.mirror.bufferFullness + |ShownByLastAnswer(x.trace)| == |s.buffer| + n
  }

  lemma SubmissionMirrored(s: Engine, mirror: Status, cs: seq<Command>, ticks: seq<Session.Tick>)
    requires Inv(s) && cs != [] && PrepareStream !in cs && WellFormed(cs, s.capacity, ticks)
    requires Session.NoRefusal(Session.Responses(Session.Exchange(s, mirror, cs, ticks).trace))
    ensures MirrorsExactly(s, Session.Exchange(s, mirror, cs, ticks), |Payload(cs)|)
  {
    Session.SessionCorrect(s, mirror, cs, ticks);
    var trace := RunOf(s, cs, ticks).1;
    if !Session.Died(trace) {
      Session.ResponsesEcho(s, cs, ticks);
      LastAnswerExact(s, cs, ticks);
      VerdictsWithoutRefusal(mirror, Session.Responses(trace), MomentsOf(s, cs, ticks), |cs|);
    }
  }

  // One turn of the streaming loop fills the DAC: at the answer it holds one point less than it can, but
  // for the points shown since the answer before.
  lemma RoundFills(s: Engine, mirror: Status, rate: uint32, points: seq<DacPoint>, ticks: seq<Session.Tick>)
    requires Streaming(s, mirror, rate) && PointsToGenerate(s.capacity, mirror) == Some(|points|)
    requires WellFormed([Data(points)], s.capacity, ticks)
    ensures var x := Session.Exchange(s, mirror, [Data(points)], ticks);
            !Session.Died(x.trace) ==>
              x.mirror.bufferFullness + |ShownByLastAnswer(x.trace)| + (mirror.bufferFullness - |s.buffer|)
              == s.capacity - 1
  {
    RoundKeepsStreaming(s, mirror, rate, points, ticks);
    SubmissionMirrored(s, mirror, [Data(points)], ticks);
    assert Payload([Data(points)]) == points + Payload([]);
  }

  // So a turn with no emission since the answer before leaves exactly that many points queued.
  lemma QuietRoundFills(s: Engine, mirror: Status, rate: uint32, points: seq<DacPoint>, ctx: ReadContext)
    requires Streaming(s, mirror, rate) && PointsToGenerate(s.capacity, mirror) == Some(|points|)
    requires WellFormed([Data(points)], s.capacity, [Session.Serve(ctx)])
    requires mirror.bufferFullness == |s.buffer|
    ensures var x := Session.Exchange(s, mirror, [Data(points)], [Session.Serve(ctx)]);
            x.ending == Session.SUCCESS && |x.engine.buffer| == x.mirror.bufferFullness == s.capacity - 1
  {
    var ticks := [Session.Serve(ctx)];
    var e := Traces.Receive(Known(Data(points)));
    var (s1, en) := Step(s, e);
    RoundKeepsStreaming(s, mirror, rate, points, ticks);
    RoundFills(s, mirror, rate, points, ticks);
    Session.SessionCorrect(s, mirror, [Data(points)], ticks);
    assert ticks[1..] == [] && [Data(points)][1..] == [];
    assert Session.Schedule([Data(points)], ticks) == [e] + [];
    RunStep(s, e, []);
    assert [en] + [] == [en] && Run(s, [e]).1 == [en];
    ShownByLastAnswerStep(en, []);
    AcknowledgedQueue(s, Data(points));
  }

  // The books after a submission: balanced, and holding the points of the source up to a whole payload.
  predicate Booked(l: Ledger, s: Engine, source: nat -> DacPoint, upTo: nat) {
    Balanced(s, l) && l.accepted == Take(source, 0, upTo)
  }

  // After a submission of `n` more points: all of them are in the books, or none if the emulator died.
  predicate BookedWhole(l: Ledger, s: Engine, trace: seq<Entry>, source: nat -> DacPoint, sent: nat, n: nat) {
    Booked(l, s, source, sent + n) || (Session.Died(trace) && Booked(l, s, source, sent))
  }

  // A submission of the example: some points of the source, and `Begin` the first time.
  predicate Carries(cs: seq<Command>, points: seq<DacPoint>) {
    && 1 <= |cs| <= 2
    && cs[0] == Data(points)
    && (|cs| == 2 ==> cs[1].Begin?)
  }

  lemma RunBooked(l: Ledger, s: Engine, source: nat -> DacPoint, sent: nat, n: nat,
                  cs: seq<Command>, ticks: seq<Session.Tick>)
    requires Inv(s) && Booked(l, s, source, sent)
    requires Carries(cs, Take(source, sent, n)) && Session.Serves(ticks) == |cs|
    requires Session.NoRefusal(Session.Responses(RunOf(s, cs, ticks).1))
    ensures var (s', trace) := RunOf(s, cs, ticks);
            BookedWhole(Tally(l, s.capacity, trace), s', trace, source, sent, n)
  {
    var points := Take(source, sent, n);
    Conservation(s, l, Session.Schedule(cs, ticks));
    Session.ResponsesEcho(s, cs, ticks);
    AcceptedPointsBooked(l, s, cs, ticks);
    PayloadOfData(l.accepted, points, cs, |Session.Responses(RunOf(s, cs, ticks).1)|);
    TakeMore(source, sent, n);
  }

  lemma SubmissionBooked(l: Ledger, s: Engine, mirror: Status, source: nat -> DacPoint, sent: nat, n: nat,
                         cs: seq<Command>, ticks: seq<Session.Tick>)
    requires Inv(s) && Booked(l, s, source, sent)
    requires Carries(cs, Take(source, sent, n)) && WellFormed(cs, s.capacity, ticks)
    requires Session.NoRefusal(Session.Responses(Session.Exchange(s, mirror, cs, ticks).trace))
    ensures var x := Session.Exchange(s, mirror, cs, ticks);
            BookedWhole(Tally(l, s.capacity, x.trace), x.engine, x.trace, source, sent, n)
  {
    Session.SessionCorrect(s, mirror, cs, ticks);
    RunBooked(l, s, source, sent, n, cs, ticks);
  }

  lemma PayloadOfData(accepted: seq<DacPoint>, points: seq<DacPoint>, cs: seq<Command>, answered: nat)
    requires Carries(cs, points) && answered <= |cs|
    ensures accepted + Payload(cs[..answered]) == if answered == 0 then accepted else accepted + points
  {
    if answered == 0 {
      assert accepted + Payload(cs[..0]) == accepted;
    } else {
      var rest := cs[..answered][1..];
      assert rest != [] ==> rest[0].Begin? && rest[1..] == [];
      assert Payload(rest) == [];
      assert Payload(cs[..answered]) == points + [];
    }
  }

  // Queue some calls and submit them; nothing if a builder assertion fails.
  method QueueAndSubmit(s: Engine, mirror: Status, calls: seq<Call>, ticks: seq<Session.Tick>)
    returns (x: Option<Session.Exchanged>)
    requires Inv(s) && Session.WholeTicks(ticks, s.capacity)
    ensures x.None? <==> exists call <- calls :: call.CallData? && |call.points| >= 0xffff
    ensures x.Some? ==>
      && (forall c <- AllSentAs(calls) :: Sendable(c))
      && x.value == Session.Exchange(s, mirror, AllSentAs(calls), ticks)
  {
    var queue := Build(EMPTY_QUEUE, calls);
    BuilderTiling(EMPTY_QUEUE, calls);
    if queue.None? {
      return None;
    }
    assert Commands(EMPTY_QUEUE) + AllSentAs(calls) == AllSentAs(calls);
    return Some(Session.Exchange(s, mirror, Commands(queue.value), ticks));
  }

  lemma BothSentAs(a: Call, b: Call)
    ensures AllSentAs([a, b]) == [SentAs(a), SentAs(b)]
  {
    assert [a, b][1..] == [b] && [b][1..] == [];
    assert AllSentAs([b]) == [SentAs(b)];
  }

  // The state of the host program between submissions. `shownByAnswer` counts the points that had been
  // shown when the last answer was given.
  datatype StreamState = StreamState(engine: Engine, mirror: Status, sent: nat, shownByAnswer: nat,
                                     trace: seq<Entry>, ending: Session.Ending, panicked: bool)

  function LedgerOf(state: StreamState): Ledger { Tally(Ledger([], []), state.engine.capacity, state.trace) }

  // No command was refused, no subtraction or builder assertion failed, and the points accepted --
  // those shown and then those queued -- are an initial part of the source, all that was sent if the
  // last submission went well.
  predicate NothingLost(state: StreamState, source: nat -> DacPoint) {
    var l := LedgerOf(state);
    && !state.panicked
    && Session.NoRefusal(Session.Responses(state.trace))
    && l.emitted + state.engine.buffer == l.accepted
    && (forall i | 0 <= i < |l.accepted| :: l.accepted[i] == source(i))
    && (state.ending == Session.SUCCESS ==> |l.accepted| == state.sent)
  }

  predicate StillStreaming(state: StreamState, rate: uint32, source: nat -> DacPoint) {
    && NothingLost(state, source)
    && Booked(LedgerOf(state), state.engine, source, state.sent)
    && state.ending == Session.SUCCESS && !Session.Died(state.trace)
    && Streaming(state.engine, state.mirror, rate)
    && state.mirror.bufferFullness + state.shownByAnswer == state.sent
  }

  // The emulator hit a rate it cannot run at, and answers nothing more.
  predicate EmulatorDied(state: StreamState, rate: uint32, source: nat -> DacPoint) {
    && NothingLost(state, source)
    && state.ending == Session.EndingOf(state.trace, Failure(Io)) && Session.Died(state.trace)
    && !(1 <= rate <= SECOND)
  }

  // An emulator that died after its last answer ends the host's next submission.
  function AfterSubmission(state: StreamState, x: Session.Exchanged, n: nat, panicked: bool): StreamState {
    StreamState(x.engine, x.mirror, state.sent + n,
                |LedgerOf(state).emitted| + |ShownByLastAnswer(x.trace)|, state.trace + x.trace,
                if Session.Died(x.trace) then Session.EndingOf(x.trace, Failure(Io)) else x.ending,
                state.panicked || panicked)
  }

  predicate WellSent(state: StreamState, rate: uint32, source: nat -> DacPoint, x: Session.Exchanged, n: nat) {
    && GoesOn(state.engine, x, rate)
    && MirrorsExactly(state.engine, x, n)
    && BookedWhole(Tally(LedgerOf(state), state.engine.capacity, x.trace), x.engine, x.trace, source, state.sent, n)
  }

  lemma SubmissionLosesNothing(state: StreamState, rate: uint32, source: nat -> DacPoint, x: Session.Exchanged, n: nat)
    requires NothingLost(state, source) && WellSent(state, rate, source, x, n)
    requires !Session.Died(state.trace) && state.ending == Session.SUCCESS
    ensures var state' := AfterSubmission(state, x, n, false);
            if Session.Died(x.trace) then EmulatorDied(state', rate, source) else StillStreaming(state', rate, source)
  {
    TallyAppend(Ledger([], []), state.engine.capacity, state.trace, x.trace);
    ResponsesAppend(state.trace, x.trace);
    assert |LedgerOf(state).emitted + state.engine.buffer| == state.sent;
    if x.trace == [] {
      assert state.trace + x.trace == state.trace;
    } else {
      assert (state.trace + x.trace)[|state.trace + x.trace| - 1] == x.trace[|x.trace| - 1];
    }
  }

  // A prepared, empty DAC and a mirror that knows it.
  predicate JustPrepared(state: StreamState) {
    && Inv(state.engine) && state.engine.capacity >= 2
    && state.engine.status.lightEngine == Dac.Ready && state.engine.status.playback == Prepared
    && state.engine.buffer == []
    && state.mirror.bufferFullness == 0
    && state.sent == 0 && state.trace == [] && state.ending == Session.SUCCESS && !state.panicked
  }

  method PrepareDac(capacity: uint16, ticks: seq<Session.Tick>) returns (state: StreamState)
    requires capacity >= 2 && Session.WholeTicks(ticks, capacity) && Session.Serves(ticks) == 1
    ensures JustPrepared(state) && state.engine.capacity == capacity
  {
    var connected := Connected(capacity, INITIAL_STATUS);
    PreparedSubmission(connected, INITIAL_STATUS, ticks);
    assert AllSentAs([CallPrepareStream]) == [PrepareStream];
    var prepared := QueueAndSubmit(connected, INITIAL_STATUS, [CallPrepareStream], ticks);
    var x := prepared.value;
    state := StreamState(x.engine, x.mirror, 0, 0, [], x.ending, prepared.None?);
  }

  lemma NothingLostYet(state: StreamState, source: nat -> DacPoint)
    requires JustPrepared(state)
    ensures NothingLost(state, source) && Booked(LedgerOf(state), state.engine, source, 0)
    ensures !Session.Died(state.trace)
  {
    assert Take(source, 0, 0) == [];
  }

  // Fill the buffer and begin.
  method SendFirst(state: StreamState, rate: uint32, source: nat -> DacPoint, ticks: seq<Session.Tick>)
    returns (state': StreamState)
    requires JustPrepared(state)
    requires Session.WholeTicks(ticks, state.engine.capacity) && Session.Serves(ticks) == 2
    ensures StillStreaming(state', rate, source) || EmulatorDied(state', rate, source)
    ensures state'.engine.capacity == state.engine.capacity
    ensures state'.sent == state.engine.capacity - 1
    ensures state'.ending == Session.SUCCESS ==> |Session.Responses(state'.trace)| == 2
  {
    var n := PointsToGenerate(state.engine.capacity, state.mirror);
    var points := Take(source, 0, n.value);
    BothSentAs(CallData(points), CallBegin(0, rate));
    BeginGoesWell(state, rate, source, points, ticks);
    var started := QueueAndSubmit(state.engine, state.mirror, [CallData(points), CallBegin(0, rate)], ticks);
    state' := AfterSubmission(state, started.value, n.value, n.None? || started.None?);
  }

  lemma BeginGoesWell(state: StreamState, rate: uint32, source: nat -> DacPoint, points: seq<DacPoint>,
                      ticks: seq<Session.Tick>)
    requires JustPrepared(state) && points == Take(source, 0, state.engine.capacity - 1)
    requires Session.WholeTicks(ticks, state.engine.capacity) && Session.Serves(ticks) == 2
    ensures var x := Session.Exchange(state.engine, state.mirror, [Data(points), Begin(0, rate)], ticks);
            var state' := AfterSubmission(state, x, |points|, false);
            && state'.engine.capacity == state.engine.capacity
            && (StillStreaming(state', rate, source) || EmulatorDied(state', rate, source))
            && (state'.ending == Session.SUCCESS ==> |Session.Responses(state'.trace)| == 2)
  {
    NothingLostYet(state, source);
    var cs := [Data(points), Begin(0, rate)];
    StartedSubmission(state.engine, state.mirror, points, rate, ticks);
    SubmissionMirrored(state.engine, state.mirror, cs, ticks);
    FirstPayload(points, rate);
    AnswersAdded(state, Session.Exchange(state.engine, state.mirror, cs, ticks), cs, ticks);
    SubmissionBooked(LedgerOf(state), state.engine, state.mirror, source, 0, |points|, cs, ticks);
    SubmissionLosesNothing(state, rate, source, Session.Exchange(state.engine, state.mirror, cs, ticks), |points|);
  }

  lemma FirstPayload(points: seq<DacPoint>, rate: uint32)
    ensures Payload([Data(points), Begin(0, rate)]) == points
  {
    PayloadStep(Data(points), [Begin(0, rate)]);
    PayloadStep(Begin(0, rate), []);
    assert [Data(points)] + [Begin(0, rate)] == [Data(points), Begin(0, rate)];
    assert [Begin(0, rate)] + [] == [Begin(0, rate)];
  }

  // A submission that the emulator outlives adds one answer for each command.
  lemma AnswersAdded(state: StreamState, x: Session.Exchanged, cs: seq<Command>, ticks: seq<Session.Tick>)
    requires Inv(state.engine) && WellFormed(cs, state.engine.capacity, ticks)
    requires x == Session.Exchange(state.engine, state.mirror, cs, ticks)
    ensures !Session.Died(x.trace) ==>
      |Session.Responses(state.trace + x.trace)| == |Session.Responses(state.trace)| + |cs|
  {
    Session.SessionCorrect(state.engine, state.mirror, cs, ticks);
    Session.ResponsesEcho(state.engine, cs, ticks);
    ResponsesAppend(state.trace, x.trace);
  }

  // One turn of the loop: send as many points as fill the DAC, as far as the mirror tells.
  method SendMore(state: StreamState, rate: uint32, source: nat -> DacPoint, ticks: seq<Session.Tick>)
    returns (state': StreamState)
    requires StillStreaming(state, rate, source)
    requires Session.WholeTicks(ticks, state.engine.capacity) && Session.Serves(ticks) == 1
    ensures StillStreaming(state', rate, source) || EmulatorDied(state', rate, source)
    ensures state'.engine.capacity == state.engine.capacity
    ensures state'.sent - state.sent + state.mirror.bufferFullness == state.engine.capacity - 1
    ensures state'.sent == state.shownByAnswer + state.engine.capacity - 1
    ensures state'.ending == Session.SUCCESS ==>
      |Session.Responses(state'.trace)| == |Session.Responses(state.trace)| + 1
  {
    var n := PointsToGenerate(state.engine.capacity, state.mirror);
    GeneratesToFill(state.engine.capacity, state.mirror);
    var points := Take(source, state.sent, n.value);
    assert AllSentAs([CallData(points)]) == [Data(points)];
    TurnGoesWell(state, rate, source, points, ticks);
    var submitted := QueueAndSubmit(state.engine, state.mirror, [CallData(points)], ticks);
    state' := AfterSubmission(state, submitted.value, n.value, n.None? || submitted.None?);
  }

  lemma TurnWellSent(state: StreamState, rate: uint32, source: nat -> DacPoint, points: seq<DacPoint>,
                     ticks: seq<Session.Tick>)
    requires StillStreaming(state, rate, source)
    requires points == Take(source, state.sent, PointsToGenerate(state.engine.capacity, state.mirror).value)
    requires Session.WholeTicks(ticks, state.engine.capacity) && Session.Serves(ticks) == 1
    ensures WellSent(state, rate, source, Session.Exchange(state.engine, state.mirror, [Data(points)], ticks), |points|)
  {
    RoundKeepsStreaming(state.engine, state.mirror, rate, points, ticks);
    SubmissionMirrored(state.engine, state.mirror, [Data(points)], ticks);
    assert Payload([Data(points)]) == points + Payload([]);
    SubmissionBooked(LedgerOf(state), state.engine, state.mirror, source, state.sent, |points|, [Data(points)], ticks);
  }

  lemma TurnGoesWell(state: StreamState, rate: uint32, source: nat -> DacPoint, points: seq<DacPoint>,
                     ticks: seq<Session.Tick>)
    requires StillStreaming(state, rate, source)
    requires points == Take(source, state.sent, PointsToGenerate(state.engine.capacity, state.mirror).value)
    requires Session.WholeTicks(ticks, state.engine.capacity) && Session.Serves(ticks) == 1
    ensures var x := Session.Exchange(state.engine, state.mirror, [Data(points)], ticks);
            var state' := AfterSubmission(state, x, |points|, false);
            && state'.engine.capacity == state.engine.capacity
            && (StillStreaming(state', rate, source) || EmulatorDied(state', rate, source))
            && (state'.ending == Session.SUCCESS ==>
                  |Session.Responses(state'.trace)| == |Session.Responses(state.trace)| + 1)
  {
    TurnWellSent(state, rate, source, points, ticks);
    var x := Session.Exchange(state.engine, state.mirror, [Data(points)], ticks);
    AnswersAdded(state, x, [Data(points)], ticks);
    SubmissionLosesNothing(state, rate, source, x, |points|);
  }

  predicate RoundTicks(rounds: seq<seq<Session.Tick>>, capacity: uint16) {
    forall ticks <- rounds :: Session.WholeTicks(ticks, capacity) && Session.Serves(ticks) == 1
  }

  /**
   The example program against a fresh emulator: prepare, fill the buffer and begin, then keep it
   filled for any number of turns, while the emulator may emit at any moments in between. The trace
   starts after the prepare. Nothing is lost however it goes, and it goes on for as long as there are
   turns unless the rate is one the emulator cannot run at.
   */
  method StreamPoints(capacity: uint16, rate: uint32, source: nat -> DacPoint,
                      prepare: seq<Session.Tick>, start: seq<Session.Tick>, rounds: seq<seq<Session.Tick>>)
    returns (state: StreamState)
    requires capacity >= 2
    requires Session.WholeTicks(prepare, capacity) && Session.Serves(prepare) == 1
    requires Session.WholeTicks(start, capacity) && Session.Serves(start) == 2
    requires RoundTicks(rounds, capacity)
    ensures NothingLost(state, source)
    ensures state.ending == Session.SUCCESS ==>
      && Streaming(state.engine, state.mirror, rate)
      && state.mirror.bufferFullness + state.shownByAnswer == state.sent >= capacity - 1
      && |Session.Responses(state.trace)| == 2 + |rounds|
    ensures state.ending != Session.SUCCESS ==>
      Session.Died(state.trace) && state.ending == Session.EndingOf(state.trace, Failure(Io))
    ensures 1 <= rate <= SECOND ==> state.ending == Session.SUCCESS
  {
    state := PrepareDac(capacity, prepare);
    state := SendFirst(state, rate, source, start);
    var i := 0;
    while i < |rounds| && state.ending == Session.SUCCESS
      invariant 0 <= i <= |rounds|
      invariant StillStreaming(state, rate, source) || EmulatorDied(state, rate, source)
      invariant state.engine.capacity == capacity && state.sent >= capacity - 1
      invariant state.ending == Session.SUCCESS ==> |Session.Responses(state.trace)| == 2 + i
    {
      assert rounds[i] in rounds;
      state := SendMore(state, rate, source, rounds[i]);
      i := i + 1;
    }
  }
}
