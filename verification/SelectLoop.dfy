/**
 The emulator's select loop at the granularity of its await points. Each turn of the loop races a
 fresh emission future against a fresh read-and-respond future; whichever finishes first ends the turn
 and the other is dropped where it stands. Actions may come in any order; one that does not apply in
 the current state is skipped.
 */
module SelectLoop {
  import opened Protocol
  import opened Dac
  import opened Engine
  import opened Timing
  import opened Traces
  import opened Wrappers

  datatype EmitterPc =
    | Fresh    // not polled yet in this turn
    | Waiting  // awaiting its timer
    | Off      // pending for the rest of this turn: playback was not on at the first poll

  datatype ReaderPc =
    | Reading
    | Responding(interpreted: Interpreted, response: DacResponse)  // processed, still writing the response

  datatype Loop = Loop(engine: Engine, emitter: EmitterPc, reader: ReaderPc, halted: bool, unwrapFailed: bool)

  datatype Action =
    | PollEmitter(now: Instant)
    | FireTimer(now: Instant)
    | TakeCommand(interpreted: Interpreted)
    | FinishResponse

  function Turn(engine: Engine): Loop { Loop(engine, Fresh, Reading, false, false) }

  function Act(l: Loop, a: Action): (Loop, seq<Entry>)
    requires Bounded(l.engine)
  {
    if l.halted then (l, [])
    else
      match a
      case PollEmitter(now) =>
        if l.emitter != Fresh then (l, [])
        else if l.engine.status.playback == Playing then (l.(engine := Arm(l.engine, now), emitter := Waiting), [])
        else (l.(emitter := Off), [])
      case FireTimer(now) =>
        if l.emitter != Waiting then (l, [])
        else if l.engine.next.None? then (l.(halted := true, unwrapFailed := true), [])
        else
          var (e, fate) := Fire(l.engine, now);
          (Turn(e).(halted := Halts(fate)), [Output(fate)])
      case TakeCommand(ic) =>
        if l.reader.Responding? then (l, [])
        else
          var (e, r) := ProcessInterpreted(l.engine, ic);
          (l.(engine := e, reader := Responding(ic, r)), [Answered(ic, r)])
      case FinishResponse =>
        if l.reader.Reading? then (l, [])
        else (Turn(l.engine), [])
  }

  predicate Departing(r: ReaderPc) {
    r.Responding? && IsDeparture(Answered(r.interpreted, r.response))
  }

  predicate LoopInv(l: Loop) {
    && Inv(l.engine)
    && !l.unwrapFailed
    && (Departing(l.reader) ==> l.engine.status.playback == Idle)
    && (l.emitter == Waiting ==> l.engine.next.Some? && (l.engine.status.playback == Playing || Departing(l.reader)))
    && (l.emitter == Off && l.reader.Reading? ==> l.engine.status.playback != Playing)
  }

  // In every interleaving the time of the next point is present when the timer fires.
  lemma ActKeepsInv(l: Loop, a: Action)
    requires LoopInv(l)
    ensures LoopInv(Act(l, a).0)
  {
    match a {
      case TakeCommand(ic) => CommandKeepsInv(l.engine, ic);
      case FireTimer(now) => if l.emitter == Waiting { FireKeepsInv(l.engine, now); }
      case _ =>
    }
  }

  function Exec(l: Loop, actions: seq<Action>): (r: (Loop, seq<Entry>))
    requires LoopInv(l)
    ensures LoopInv(r.0)
    decreases |actions|
  {
    if actions == [] then (l, [])
    else
      ActKeepsInv(l, actions[0]);
      var (l1, en) := Act(l, actions[0]);
      var (l2, trace) := Exec(l1, actions[1..]);
      (l2, en + trace)
  }

  // The `unwrap` in the emission future never fails, over any run from any state between two turns.
  lemma UnwrapNeverFails(engine: Engine, actions: seq<Action>)
    requires Inv(engine)
    ensures !Exec(Turn(engine), actions).0.unwrapFailed
  {}

  // Output while playback is off.

  predicate FiresLate(l: Loop, a: Action) {
    !l.halted && a.FireTimer? && l.emitter == Waiting && l.engine.status.playback != Playing
  }

  // It happens in exactly one situation: the turn's command was an accepted stop or emergency stop,
  // and its response is still being written.
  lemma FiresLateIffStopUnanswered(l: Loop, a: Action)
    requires LoopInv(l) && !l.halted && a.FireTimer? && l.emitter == Waiting
    ensures FiresLate(l, a) <==> Departing(l.reader)
  {}

  predicate Departs(l: Loop, a: Action)
    requires Bounded(l.engine)
  {
    l.engine.status.playback == Playing && Act(l, a).0.engine.status.playback != Playing
  }

  function LateFirings(l: Loop, actions: seq<Action>): nat
    requires LoopInv(l)
    decreases |actions|
  {
    if actions == [] then 0
    else
      ActKeepsInv(l, actions[0]);
      (if FiresLate(l, actions[0]) then 1 else 0) + LateFirings(Act(l, actions[0]).0, actions[1..])
  }

  function Departures(l: Loop, actions: seq<Action>): nat
    requires LoopInv(l)
    decreases |actions|
  {
    if actions == [] then 0
    else
      ActKeepsInv(l, actions[0]);
      (if Departs(l, actions[0]) then 1 else 0) + Departures(Act(l, actions[0]).0, actions[1..])
  }

  predicate LatePending(l: Loop) {
    !l.halted && l.emitter == Waiting && Departing(l.reader)
  }

  // At most one emission follows each departure from `Playing`, over every run and every part of one.
  lemma {:induction false} LateOutputBounded(l: Loop, actions: seq<Action>)
    requires LoopInv(l)
    ensures LateFirings(l, actions) <= Departures(l, actions) + if LatePending(l) then 1 else 0
    decreases |actions|
  {
    if actions != [] {
      var l1 := Act(l, actions[0]).0;
      ActKeepsInv(l, actions[0]);
      LateStep(l, actions[0]);
      LateOutputBounded(l1, actions[1..]);
    }
  }

  lemma LateStep(l: Loop, a: Action)
    requires LoopInv(l)
    ensures (if FiresLate(l, a) then 1 else 0) + (if LatePending(Act(l, a).0) then 1 else 0)
            <= (if Departs(l, a) then 1 else 0) + (if LatePending(l) then 1 else 0)
  {}

  // What an emergency stop leaves possible.

  lemma ExecStep(l: Loop, a: Action, actions: seq<Action>)
    requires LoopInv(l)
    ensures LoopInv(Act(l, a).0)
    ensures var (l1, en) := Act(l, a);
            Exec(l, [a] + actions) == (Exec(l1, actions).0, en + Exec(l1, actions).1)
  {
    ActKeepsInv(l, a);
    assert ([a] + actions)[1..] == actions;
  }

  function Outputs(trace: seq<Entry>): nat {
    if trace == [] then 0 else (if trace[0].Output? then 1 else 0) + Outputs(trace[1..])
  }

  lemma {:induction false} OutputsAppend(a: seq<Entry>, b: seq<Entry>)
    ensures Outputs(a + b) == Outputs(a) + Outputs(b)
    decreases |a|
  {
    if a == [] {
      assert a + b == b;
    } else {
      assert (a + b)[1..] == a[1..] + b;
      OutputsAppend(a[1..], b);
    }
  }

  lemma StoppedAct(l: Loop, a: Action)
    requires LoopInv(l) && l.engine.status.lightEngine == EmergencyStopped
    ensures var (l', en) := Act(l, a);
            && l'.engine.status.lightEngine == EmergencyStopped
            && Outputs(en) + (if LatePending(l') then 1 else 0) <= if LatePending(l) then 1 else 0
  {
    var en := Act(l, a).1;
    assert |en| == 1 ==> en[1..] == [];
  }

  // After an accepted emergency stop one more batch is all: in every interleaving from then on at most
  // one emission follows, and none unless one was waiting while the response was being written.
  lemma {:induction false} AtMostOneBatchAfterEmergencyStop(l: Loop, actions: seq<Action>)
    requires LoopInv(l) && l.engine.status.lightEngine == EmergencyStopped
    ensures Outputs(Exec(l, actions).1) <= if LatePending(l) then 1 else 0
    decreases |actions|
  {
    if actions != [] {
      var (l1, en) := Act(l, actions[0]);
      ActKeepsInv(l, actions[0]);
      StoppedAct(l, actions[0]);
      AtMostOneBatchAfterEmergencyStop(l1, actions[1..]);
      OutputsAppend(en, Exec(l1, actions[1..]).1);
    }
  }

  // So an emission can follow exactly when one is waiting at that moment.
  lemma EmissionFollowsEmergencyStopIff(l: Loop)
    requires LoopInv(l) && l.engine.status.lightEngine == EmergencyStopped
    ensures (exists actions :: Outputs(Exec(l, actions).1) > 0) <==> LatePending(l)
  {
    if LatePending(l) {
      var a := FireTimer(l.engine.next.value);
      var (l1, en) := Act(l, a);
      ExecStep(l, a, []);
      assert en + [] == en && [a] + [] == [a] && en[1..] == [];
      assert Outputs(Exec(l, [a]).1) > 0;
    }
    forall actions | Outputs(Exec(l, actions).1) > 0
      ensures LatePending(l)
    {
      AtMostOneBatchAfterEmergencyStop(l, actions);
    }
  }

  // And light can follow -- a batch, which is never empty -- exactly when moreover there is a point left
  // to show and the rate is one the emission loop can run at.

  predicate Shows(trace: seq<Entry>) { exists k | 0 <= k < |trace| :: trace[k].Output? && trace[k].fate.Batch? }

  predicate LightPending(l: Loop) {
    LatePending(l) && l.engine.buffer != [] && 1 <= l.engine.status.pointRate <= SECOND
  }

  lemma StoppedActShows(l: Loop, a: Action)
    requires LoopInv(l) && l.engine.status.lightEngine == EmergencyStopped
    ensures var (l', en) := Act(l, a);
            (Shows(en) ==> LightPending(l)) && (LightPending(l') ==> LightPending(l))
  {
    if a.FireTimer? && l.emitter == Waiting {
      FireOutcome(l.engine, a.now);
    }
  }

  lemma {:induction false} LightNeedsPending(l: Loop, actions: seq<Action>)
    requires LoopInv(l) && l.engine.status.lightEngine == EmergencyStopped
    requires Shows(Exec(l, actions).1)
    ensures LightPending(l)
    decreases |actions|
  {
    var (l1, en) := Act(l, actions[0]);
    ActKeepsInv(l, actions[0]);
    StoppedAct(l, actions[0]);
    StoppedActShows(l, actions[0]);
    var trace := Exec(l1, actions[1..]).1;
    var k :| 0 <= k < |en + trace| && (en + trace)[k].Output? && (en + trace)[k].fate.Batch?;
    if k < |en| {
      assert en[k].Output?;
    } else {
      assert trace[k - |en|].Output?;
      LightNeedsPending(l1, actions[1..]);
    }
  }

  lemma LightFollowsEmergencyStopIff(l: Loop)
    requires LoopInv(l) && l.engine.status.lightEngine == EmergencyStopped
    ensures (exists actions :: Shows(Exec(l, actions).1)) <==> LightPending(l)
  {
    if LightPending(l) {
      var a := FireTimer(l.engine.next.value + 1);
      var (l1, en) := Act(l, a);
      FireOutcome(l.engine, a.now);
      ExecStep(l, a, []);
      assert en + [] == en && [a] + [] == [a] && en[0].Output?;
      assert Shows(Exec(l, [a]).1);
    }
    forall actions | Shows(Exec(l, actions).1)
      ensures LightPending(l)
    {
      LightNeedsPending(l, actions);
    }
  }

  // A client can bring a fresh emulator there: prepare, one point, begin, and the emergency stop while
  // the emission waits for its timer.

  lemma {:induction false} ExecAppend(l: Loop, a: seq<Action>, b: seq<Action>)
    requires LoopInv(l)
    ensures var (l1, trace1) := Exec(l, a);
            Exec(l, a + b) == (Exec(l1, b).0, trace1 + Exec(l1, b).1)
    decreases |a|
  {
    if a == [] {
      assert a + b == b && [] + Exec(l, b).1 == Exec(l, b).1;
    } else {
      ActKeepsInv(l, a[0]);
      ExecAppend(Act(l, a[0]).0, a[1..], b);
      ExecAppendStep(l, a[0], a[1..], b);
      assert a == [a[0]] + a[1..];
    }
  }

  lemma ExecAppendStep(l: Loop, x: Action, a: seq<Action>, b: seq<Action>)
    requires LoopInv(l) && LoopInv(Act(l, x).0)
    requires var (l1, trace1) := Exec(Act(l, x).0, a);
             Exec(Act(l, x).0, a + b) == (Exec(l1, b).0, trace1 + Exec(l1, b).1)
    ensures var (l1, trace1) := Exec(l, [x] + a);
            Exec(l, ([x] + a) + b) == (Exec(l1, b).0, trace1 + Exec(l1, b).1)
  {
    ExecStep(l, x, a);
    ExecStep(l, x, a + b);
    assert ([x] + a) + b == [x] + (a + b);
    var (l1, trace1) := Exec(Act(l, x).0, a);
    TraceJoins(Act(l, x).1, trace1, Exec(l1, b).1);
  }

  lemma TraceJoins(a: seq<Entry>, b: seq<Entry>, c: seq<Entry>)
    ensures a + (b + c) == (a + b) + c
  {}

  // Whatever the emission is doing, the loop takes the next command, answers it and starts a new turn.
  lemma AnswerOne(l: Loop, ic: Interpreted)
    requires LoopInv(l) && !l.halted && l.reader.Reading?
    ensures Inv(ProcessInterpreted(l.engine, ic).0)
    ensures var (s, r) := ProcessInterpreted(l.engine, ic);
            Exec(l, [TakeCommand(ic), FinishResponse]) == (Turn(s), [Answered(ic, r)])
  {
    var take, finish := TakeCommand(ic), FinishResponse;
    var (s, r) := ProcessInterpreted(l.engine, ic);
    var (l1, en1) := Act(l, take);
    CommandKeepsInv(l.engine, ic);
    ExecStep(l, take, [finish]);
    ExecStep(l1, finish, []);
    assert [finish] + [] == [finish] && [take] + [finish] == [take, finish];
    assert Act(l1, finish) == (Turn(s), []);
    assert Exec(l1, [finish]) == (Turn(s), []);
    assert en1 + [] == [Answered(ic, r)];
  }

  // A DAC that is playing its only point at 1000 points a second.
  predicate PlaysOne(s: Engine, p: DacPoint) {
    Inv(s) && s.status.playback == Playing && s.status.pointRate == 1000 && s.buffer == [p] && s.next == None
  }

  lemma StartsUp(p: DacPoint) returns (actions: seq<Action>, s: Engine)
    ensures PlaysOne(s, p)
    ensures Exec(Turn(Connected(2, INITIAL_STATUS)), actions).0 == Turn(s)
    ensures |Exec(Turn(Connected(2, INITIAL_STATUS)), actions).1| == 3
  {
    var s0 := Connected(2, INITIAL_STATUS);
    var s1 := Effect(s0, PrepareStream);
    var s2 := Effect(s1, Data([p]));
    s := Effect(s2, Begin(0, 1000));
    AnswerOne(Turn(s0), Known(PrepareStream));
    AnswerOne(Turn(s1), Known(Data([p])));
    AnswerOne(Turn(s2), Known(Begin(0, 1000)));
    assert s2.buffer == [p];
    var a, b := [TakeCommand(Known(PrepareStream)), FinishResponse], [TakeCommand(Known(Data([p]))), FinishResponse];
    var c := [TakeCommand(Known(Begin(0, 1000))), FinishResponse];
    ExecAppend(Turn(s0), a, b + c);
    ExecAppend(Turn(s1), b, c);
    actions := a + (b + c);
  }

  // An accepted emergency stop, then a batch of this point.
  predicate LateLight(trace: seq<Entry>, p: DacPoint) {
    && |trace| >= 2
    && Accepted(trace[|trace| - 2]) && trace[|trace| - 2].interpreted.command.EmergencyStop?
    && trace[|trace| - 1] == Output(Batch([p]))
  }

  lemma LightAfterEmergencyStop(p: DacPoint) returns (actions: seq<Action>)
    ensures var (l, trace) := Exec(Turn(Connected(2, INITIAL_STATUS)), actions);
            && |trace| == 5
            && LateLight(trace, p)
            && l.engine.status.lightEngine == EmergencyStopped
  {
    var start, s := StartsUp(p);
    var tail := LateBatch(s, p);
    actions := start + tail;
    ExecAppend(Turn(Connected(2, INITIAL_STATUS)), start, tail);
  }

  lemma LateBatch(s: Engine, p: DacPoint) returns (actions: seq<Action>)
    requires PlaysOne(s, p)
    ensures var (l, trace) := Exec(Turn(s), actions);
            && |trace| == 2
            && LateLight(trace, p)
            && l.engine.status.lightEngine == EmergencyStopped
  {
    var a, b, c := PollEmitter(0), TakeCommand(Known(EmergencyStop)), FireTimer(1);
    var armed := Act(Turn(s), a).0;
    var (late, en) := Act(armed, b);
    var last := Act(late, c).1;
    OnePointFires(late.engine, p);
    ExecStep(late, c, []);
    ExecStep(armed, b, [c] + []);
    ExecStep(Turn(s), a, [b] + ([c] + []));
    actions := [a] + ([b] + ([c] + []));
    assert Exec(Turn(s), actions).1 == en + last;
  }

  lemma OnePointFires(s: Engine, p: DacPoint)
    requires s.status.pointRate == 1000 && s.buffer == [p] && s.next == Some(0)
    ensures Fire(s, 1).1 == Batch([p])
    ensures Fire(s, 1).0.status.lightEngine == s.status.lightEngine
  {
    IntervalIsFloor(1000);
    assert RateInterval(1000) == Some(1_000_000) && Slots(0, 1, 1_000_000) == 1;
    FireOutcome(s, 1);
    var (s', fate) := Fire(s, 1);
    assert |fate.points| == 1 && fate.points + s'.buffer == [p];
    assert fate.points[0] == p;
  }

  // Light comes. Without any help from the client a playing DAC can always show its next points: at any
  // instants, as long as the timer fires after the slot is due. An emission that was polled while
  // playback was off stays silent until the response that ends the turn; it never sits there while the
  // DAC plays and the loop waits for a command.

  lemma {:induction false} OffStaysSilent(l: Loop, actions: seq<Action>)
    requires LoopInv(l) && l.emitter == Off && FinishResponse !in actions
    ensures Outputs(Exec(l, actions).1) == 0
    decreases |actions|
  {
    if actions != [] {
      var (l1, en) := Act(l, actions[0]);
      ActKeepsInv(l, actions[0]);
      assert actions[0] in actions && l1.emitter == Off;
      OffStaysSilent(l1, actions[1..]);
      OutputsAppend(en, Exec(l1, actions[1..]).1);
      assert en != [] ==> en[1..] == [];
    }
  }

  lemma PolledOffStaysSilent(l: Loop, now: Instant, actions: seq<Action>)
    requires LoopInv(l) && l.emitter == Fresh && l.engine.status.playback != Playing && FinishResponse !in actions
    ensures Outputs(Exec(l, [PollEmitter(now)] + actions).1) == 0
  {
    var (l1, en) := Act(l, PollEmitter(now));
    ExecStep(l, PollEmitter(now), actions);
    if l.halted {
      HaltedStays(l1, actions);
    } else {
      OffStaysSilent(l1, actions);
    }
    OutputsAppend(en, Exec(l1, actions).1);
  }

  predicate CanShow(s: Engine) {
    s.status.playback == Playing && s.buffer != [] && 1 <= s.status.pointRate <= SECOND
  }

  lemma WaitingShows(l: Loop, t: Instant)
    requires LoopInv(l) && !l.halted && l.emitter == Waiting && CanShow(l.engine) && l.engine.next.value < t
    ensures Shows(Exec(l, [FireTimer(t)]).1)
  {
    FireOutcome(l.engine, t);
    var en := Act(l, FireTimer(t)).1;
    ExecStep(l, FireTimer(t), []);
    assert [FireTimer(t)] + [] == [FireTimer(t)] && en + [] == en;
    assert en[0].Output? && en[0].fate.Batch?;
  }

  // ... whether or not a response is being written,
  lemma PolledShows(l: Loop, now: Instant, t: Instant)
    requires LoopInv(l) && !l.halted && l.emitter != Off && CanShow(l.engine)
    requires l.engine.next.GetOr(now) < t
    ensures Shows(Exec(l, [PollEmitter(now), FireTimer(t)]).1)
  {
    var poll := PollEmitter(now);
    var (l1, en) := Act(l, poll);
    ExecStep(l, poll, [FireTimer(t)]);
    assert [poll] + [FireTimer(t)] == [poll, FireTimer(t)];
    WaitingShows(l1, t);
    assert en + Exec(l1, [FireTimer(t)]).1 == Exec(l1, [FireTimer(t)]).1;
  }

  // ... and after it where the turn began with playback off.
  lemma FinishedShows(l: Loop, now: Instant, t: Instant)
    requires LoopInv(l) && !l.halted && l.reader.Responding? && CanShow(l.engine)
    requires l.engine.next.GetOr(now) < t
    ensures Shows(Exec(l, [FinishResponse, PollEmitter(now), FireTimer(t)]).1)
  {
    var rest := [PollEmitter(now), FireTimer(t)];
    ExecStep(l, FinishResponse, rest);
    assert [FinishResponse] + rest == [FinishResponse, PollEmitter(now), FireTimer(t)];
    PolledShows(Turn(l.engine), now, t);
    assert [] + Exec(Turn(l.engine), rest).1 == Exec(Turn(l.engine), rest).1;
  }

  predicate OwnActions(actions: seq<Action>) { forall a <- actions :: !a.TakeCommand? }

  predicate LightPossible(l: Loop) { !l.halted && (CanShow(l.engine) || LightPending(l)) }

  lemma OwnActShows(l: Loop, a: Action)
    requires LoopInv(l) && !a.TakeCommand?
    ensures var (l', en) := Act(l, a);
            (Shows(en) ==> LightPossible(l)) && (LightPossible(l') ==> LightPossible(l))
  {
    if a.FireTimer? && l.emitter == Waiting {
      FireOutcome(l.engine, a.now);
    }
  }

  lemma {:induction false} LightWasPossible(l: Loop, actions: seq<Action>)
    requires LoopInv(l) && OwnActions(actions) && Shows(Exec(l, actions).1)
    ensures LightPossible(l)
    decreases |actions|
  {
    var (l1, en) := Act(l, actions[0]);
    ActKeepsInv(l, actions[0]);
    assert actions[0] in actions;
    OwnActShows(l, actions[0]);
    var trace := Exec(l1, actions[1..]).1;
    var k :| 0 <= k < |en + trace| && (en + trace)[k].Output? && (en + trace)[k].fate.Batch?;
    if k < |en| {
      assert en[k].Output?;
    } else {
      assert trace[k - |en|].Output?;
      LightWasPossible(l1, actions[1..]);
    }
  }

  // The loop can show points, taking no further command, exactly when it plays points at a usable rate
  // or a late emission of some is pending.
  lemma LightComesIff(l: Loop)
    requires LoopInv(l)
    ensures (exists actions :: OwnActions(actions) && Shows(Exec(l, actions).1)) <==> LightPossible(l)
  {
    if LightPossible(l) {
      var actions := ShowingActions(l);
      assert OwnActions(actions) && Shows(Exec(l, actions).1);
    }
    forall actions | OwnActions(actions) && Shows(Exec(l, actions).1)
      ensures LightPossible(l)
    {
      LightWasPossible(l, actions);
    }
  }

  lemma ShowingActions(l: Loop) returns (actions: seq<Action>)
    requires LoopInv(l) && LightPossible(l)
    ensures OwnActions(actions) && Shows(Exec(l, actions).1)
  {
    var t := l.engine.next.GetOr(0) + 1;
    if LightPending(l) {
      var a := FireTimer(t);
      var (l1, en) := Act(l, a);
      FireOutcome(l.engine, t);
      ExecStep(l, a, []);
      actions := [a];
      assert en + [] == en && [a] + [] == [a] && en[0].Output?;
    } else if l.emitter != Off {
      PolledShows(l, 0, t);
      actions := [PollEmitter(0), FireTimer(t)];
    } else {
      FinishedShows(l, 0, t);
      actions := [FinishResponse, PollEmitter(0), FireTimer(t)];
    }
  }

  // Conservation holds of the loop itself, late output and dropped responses included.

  lemma FireBalances(s: Engine, l: Ledger, now: Instant)
    requires Inv(s) && Balanced(s, l) && s.next.Some?
    ensures var (s', fate) := Fire(s, now);
            Balanced(s', l.(emitted := l.emitted + Points(fate)))
  {
    var (s', fate) := Fire(s, now);
    assert Points(fate) + s'.buffer == s.buffer;
    LedgerMoves(l.accepted, l.emitted, Points(fate), s'.buffer);
    CountWraps(0, |l.emitted|, |Points(fate)|);
  }

  lemma ActBalances(l: Loop, ledger: Ledger, a: Action)
    requires LoopInv(l) && Balanced(l.engine, ledger)
    ensures var (l', en) := Act(l, a);
            && l'.engine.capacity == l.engine.capacity
            && Balanced(l'.engine, Tally(ledger, l.engine.capacity, en))
  {
    var en := Act(l, a).1;
    assert en != [] ==> Tally(ledger, l.engine.capacity, en) == Post(ledger, l.engine.capacity, en[0]);
    match a {
      case FireTimer(now) =>
        if l.emitter == Waiting {
          FireBalances(l.engine, ledger, now);
        }
      case TakeCommand(ic) => StepBalances(l.engine, ledger, Receive(ic));
      case _ =>
    }
  }

  lemma {:induction false} LoopConserves(l: Loop, ledger: Ledger, actions: seq<Action>)
    requires LoopInv(l) && Balanced(l.engine, ledger)
    ensures var (l', trace) := Exec(l, actions);
            Balanced(l'.engine, Tally(ledger, l.engine.capacity, trace))
    decreases |actions|
  {
    if actions != [] {
      var (l1, en) := Act(l, actions[0]);
      ActKeepsInv(l, actions[0]);
      ActBalances(l, ledger, actions[0]);
      var ledger1 := Tally(ledger, l.engine.capacity, en);
      LoopConserves(l1, ledger1, actions[1..]);
      TallyAppend(ledger, l.engine.capacity, en, Exec(l1, actions[1..]).1);
    }
  }

  // Every run without late output is a run of the atomic model.

  // The atomic model fixes the first emission time only when it emits; the loop may have done so in a
  // turn that a command then ended.
  predicate Simulates(l: Loop, s: Engine) {
    && s == l.engine.(next := s.next)
    && (s.next == l.engine.next || s.next == None)
  }

  function EventsOf(l: Loop, actions: seq<Action>): seq<Event>
    requires LoopInv(l)
    decreases |actions|
  {
    if actions == [] then []
    else
      ActKeepsInv(l, actions[0]);
      EventOf(l, actions[0]) + EventsOf(Act(l, actions[0]).0, actions[1..])
  }

  function EventOf(l: Loop, a: Action): seq<Event>
    requires LoopInv(l)
  {
    if l.halted then []
    else
      match a
      case TakeCommand(ic) => if l.reader.Reading? then [Receive(ic)] else []
      case FireTimer(now) => if l.emitter == Waiting then [Emission(Poll(l.engine.next.value, now))] else []
      case _ => []
  }

  lemma StepSimulates(l: Loop, s: Engine, a: Action)
    requires LoopInv(l) && !l.halted && Inv(s) && Simulates(l, s) && !FiresLate(l, a)
    ensures var (l', en) := Act(l, a);
            var events := EventOf(l, a);
            if events == [] then en == [] && Simulates(l', s) && !l'.halted
            else
              var (s', atomic) := Step(s, events[0]);
              && |events| == 1
              && en == [atomic]
              && Simulates(l', s')
              && l'.halted == Fatal(atomic)
  {
    if a.FireTimer? && !l.halted && l.emitter == Waiting {
      assert Arm(s, l.engine.next.value) == l.engine;
    }
  }

  lemma {:induction false} HaltedStays(l: Loop, actions: seq<Action>)
    requires LoopInv(l) && l.halted
    ensures EventsOf(l, actions) == [] && Exec(l, actions) == (l, [])
    decreases |actions|
  {
    if actions != [] {
      HaltedStays(l, actions[1..]);
    }
  }

  // So what is proved of atomic runs -- conservation, order, trace safety -- holds of the interleaved
  // loop: its responses and outputs are those of the atomic run of the same commands and emissions.
  lemma {:induction false} LoopRefinesAtomicRun(l: Loop, s: Engine, actions: seq<Action>)
    requires LoopInv(l) && !l.halted && Inv(s) && Simulates(l, s)
    requires LateFirings(l, actions) == 0
    ensures var (l', trace) := Exec(l, actions);
            var (s', atomic) := Run(s, EventsOf(l, actions));
            && trace == atomic
            && Simulates(l', s')
    decreases |actions|
  {
    if actions != [] {
      var a := actions[0];
      var (l1, en) := Act(l, a);
      ActKeepsInv(l, a);
      StepSimulates(l, s, a);
      var rest := EventsOf(l1, actions[1..]);
      if EventOf(l, a) == [] {
        assert EventOf(l, a) + rest == rest;
        LoopRefinesAtomicRun(l1, s, actions[1..]);
        assert en + Exec(l1, actions[1..]).1 == Exec(l1, actions[1..]).1;
      } else {
        var e := EventOf(l, a)[0];
        var s1 := Step(s, e).0;
        StepKeepsInv(s, e);
        assert EventsOf(l, actions)[0] == e && EventsOf(l, actions)[1..] == rest;
        if l1.halted {
          HaltedStays(l1, actions[1..]);
        } else {
          LoopRefinesAtomicRun(l1, s1, actions[1..]);
        }
      }
    }
  }
}
