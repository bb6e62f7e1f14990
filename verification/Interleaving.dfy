/**
 What holds of the select loop in every interleaving of its actions: no light without permission, no
 late output without a stop, and no refusal of a client that keeps to the flow control.
 */
module Interleaving {
  import opened LittleEndian
  import opened Protocol
  import opened Dac
  import opened Engine
  import opened Framing
  import opened Traces
  import opened SelectLoop
  import opened Client
  import opened FlowControl
  import Session
  import opened Wrappers

  // Trace safety of the loop itself.

  ghost predicate LitAt(trace: seq<Entry>, k: nat) { exists i, j, l :: Lit(trace, i, j, l, k) }

  // With everything behind it, or with everything behind the departure directly before it.
  ghost predicate LitOrJustLeft(trace: seq<Entry>, k: nat) {
    LitAt(trace, k) || (0 < k <= |trace| && IsDeparture(trace[k - 1]) && LitAt(trace, k - 1))
  }

  ghost predicate LoopExplained(past: seq<Entry>, l: Loop) {
    && Explained(past, l.engine)
    && (LatePending(l) ==> past != [] && IsDeparture(past[|past| - 1]) && LitAt(past, |past| - 1))
  }

  lemma LitStays(trace: seq<Entry>, more: seq<Entry>, k: nat)
    requires k <= |trace|
    ensures LitAt(trace, k) ==> LitAt(trace + more, k)
    ensures LitOrJustLeft(trace, k) ==> LitOrJustLeft(trace + more, k)
  {
    LitExtends(trace, more, k);
    if k > 0 {
      LitExtends(trace, more, k - 1);
    }
  }

  lemma LitExtends(trace: seq<Entry>, more: seq<Entry>, k: nat)
    requires k <= |trace|
    ensures LitAt(trace, k) ==> LitAt(trace + more, k)
  {
    if LitAt(trace, k) {
      var i, j, l :| Lit(trace, i, j, l, k);
      assert forall m | 0 <= m < k :: (trace + more)[m] == trace[m];
      assert Lit(trace + more, i, j, l, k);
    }
  }

  lemma ActExplained(past: seq<Entry>, l: Loop, a: Action)
    requires LoopInv(l) && LoopExplained(past, l)
    ensures var (l', en) := Act(l, a);
            && LoopExplained(past + en, l')
            && (en != [] && en[0].Output? && en[0].fate.Batch? ==> LitOrJustLeft(past + en, |past|))
  {
    var (l', en) := Act(l, a);
    if en == [] {
      assert past + en == past;
      assert Explained(past, l'.engine);
    } else {
      match a {
        case TakeCommand(ic) =>
          StepExplained(past, l.engine, Receive(ic));
          LitStays(past, en, |past|);
          if LatePending(l') {
            assert l.engine.status.playback == Playing;
            assert LitAt(past, |past|);
          }
        case FireTimer(now) => FireExplained(past, l, now);
      }
    }
  }

  lemma FireExplained(past: seq<Entry>, l: Loop, now: Instant)
    requires LoopInv(l) && LoopExplained(past, l) && !l.halted && l.emitter == Waiting
    ensures var (l', en) := Act(l, FireTimer(now));
            && LoopExplained(past + en, l')
            && LitOrJustLeft(past + en, |past|)
  {
    var en := Act(l, FireTimer(now)).1;
    LitStays(past, en, |past|);
    if l.engine.status.playback == Playing {
      assert Arm(l.engine, l.engine.next.value) == l.engine;
      StepExplained(past, l.engine, Emission(Poll(l.engine.next.value, now)));
      assert LitAt(past, |past|);
    } else {
      assert LatePending(l);
      assert LitOrJustLeft(past, |past|);
    }
  }

  // Every batch the loop shows, in every interleaving, has an accepted prepare, points and begin behind
  // it with no accepted stop since -- or only the one stop directly before it, whose response was still
  // being written.
  lemma {:induction false} EveryLoopBatchIsLit(past: seq<Entry>, l: Loop, actions: seq<Action>, k: nat)
    requires LoopInv(l) && LoopExplained(past, l)
    requires var trace := past + Exec(l, actions).1;
             |past| <= k < |trace| && trace[k].Output? && trace[k].fate.Batch?
    ensures LitOrJustLeft(past + Exec(l, actions).1, k)
    decreases |actions|
  {
    var (l1, en) := Act(l, actions[0]);
    ActKeepsInv(l, actions[0]);
    ActExplained(past, l, actions[0]);
    var rest := Exec(l1, actions[1..]).1;
    assert past + Exec(l, actions).1 == (past + en) + rest;
    if k < |past + en| {
      LitStays(past + en, rest, k);
    } else {
      EveryLoopBatchIsLit(past + en, l1, actions[1..], k);
    }
  }

  lemma NoLoopLightWithoutPermission(s: Engine, actions: seq<Action>, k: nat)
    requires Inv(s) && s.status.playback == Idle
    requires var trace := Exec(Turn(s), actions).1;
             k < |trace| && trace[k].Output? && trace[k].fate.Batch?
    ensures LitOrJustLeft(Exec(Turn(s), actions).1, k)
  {
    assert [] + Exec(Turn(s), actions).1 == Exec(Turn(s), actions).1;
    EveryLoopBatchIsLit([], Turn(s), actions, k);
  }

  // Without a stop the loop is atomic.

  function Received(events: seq<Event>): seq<Interpreted> {
    if events == [] then []
    else (if events[0].Receive? then [events[0].interpreted] else []) + Received(events[1..])
  }

  // What the loop takes from the stream, in order.
  function Taken(l: Loop, actions: seq<Action>): seq<Interpreted>
    requires LoopInv(l)
  {
    Received(EventsOf(l, actions))
  }

  lemma TakenStep(l: Loop, actions: seq<Action>)
    requires LoopInv(l) && actions != []
    ensures LoopInv(Act(l, actions[0]).0)
    ensures Taken(l, actions) == Received(EventOf(l, actions[0])) + Taken(Act(l, actions[0]).0, actions[1..])
  {
    ActKeepsInv(l, actions[0]);
    var head, rest := EventOf(l, actions[0]), EventsOf(Act(l, actions[0]).0, actions[1..]);
    if head == [] {
      assert head + rest == rest && [] + Received(rest) == Received(rest);
    } else {
      assert (head + rest)[1..] == rest && head[1..] == [];
      assert Received(head) == if head[0].Receive? then [head[0].interpreted] else [];
    }
  }

  lemma {:induction false} NoLateOutputWithoutStop(l: Loop, actions: seq<Action>)
    requires LoopInv(l) && !LatePending(l)
    requires forall ic <- Taken(l, actions) :: !StopsPlayback(ic)
    ensures LateFirings(l, actions) == 0
    decreases |actions|
  {
    if actions != [] {
      var a := actions[0];
      TakenStep(l, actions);
      if a.TakeCommand? && EventOf(l, a) != [] {
        assert EventOf(l, a)[1..] == [];
        assert a.interpreted in Received(EventOf(l, a)) && a.interpreted in Taken(l, actions);
      }
      assert forall ic | ic in Taken(Act(l, a).0, actions[1..]) :: ic in Taken(l, actions);
      NoLateOutputWithoutStop(Act(l, a).0, actions[1..]);
    }
  }

  // So as long as the client sends no stop, what the loop answers and shows is an atomic run.
  lemma AtomicWithoutStop(s: Engine, actions: seq<Action>)
    requires Inv(s)
    requires forall ic <- Taken(Turn(s), actions) :: !StopsPlayback(ic)
    ensures var (l, trace) := Exec(Turn(s), actions);
            var (s', atomic) := Run(s, EventsOf(Turn(s), actions));
            trace == atomic && Simulates(l, s')
  {
    NoLateOutputWithoutStop(Turn(s), actions);
    LoopRefinesAtomicRun(Turn(s), s, actions);
  }

  // No refusal in any interleaving.

  lemma OtherActsHelp(l: Loop, t: Engine, a: Action)
    requires LoopInv(l) && Inv(t) && Below(l.engine, t) && Received(EventOf(l, a)) == []
    ensures var (l', en) := Act(l, a);
            && Below(l'.engine, t)
            && |l'.engine.buffer| <= |l.engine.buffer|
            && (en == [] || (|en| == 1 && en[0].Output?))
  {}

  lemma TakingHelps(l: Loop, t: Engine, c: Command)
    requires LoopInv(l) && Inv(t) && Below(l.engine, t) && Verdict(t, c) == ACK
    requires EventOf(l, TakeCommand(Known(c))) != []
    ensures var (l', en) := Act(l, TakeCommand(Known(c)));
            && Below(l'.engine, Effect(t, c))
            && en == [Answered(Known(c), Reply(l.engine, c))]
            && en[0].response.response == ACK
            && en[0].response.dacStatus.bufferFullness == |l'.engine.buffer|
  {
    AcceptedStaysBelow(l.engine, t, c);
    CommandKeepsInv(l.engine, Known(c));
  }

  // Every command was acknowledged, and the queue is no longer than the last answer said, nor that than
  // it would be without emissions.
  predicate NeverRefused(before: Engine, after: Engine, trace: seq<Entry>, t': Engine, n: nat) {
    var rs := Session.Responses(trace);
    && Session.NoRefusal(rs)
    && |rs| == n
    && Below(after, t')
    && (n == 0 ==> |after.buffer| <= |before.buffer|)
    && (n > 0 ==> |after.buffer| <= rs[n - 1].dacStatus.bufferFullness <= |t'.buffer|)
  }

  lemma NeverRefusedOther(l: Engine, l1: Engine, l': Engine, en: seq<Entry>, trace: seq<Entry>, t': Engine, n: nat)
    requires NeverRefused(l1, l', trace, t', n)
    requires |l1.buffer| <= |l.buffer| && (en == [] || (|en| == 1 && en[0].Output?))
    ensures NeverRefused(l, l', en + trace, t', n)
  {
    if en == [] {
      assert en + trace == trace;
    } else {
      assert en + trace == [en[0]] + trace;
      Session.ResponsesStep(en[0], trace);
      assert [] + Session.Responses(trace) == Session.Responses(trace);
    }
  }

  lemma NeverRefusedAnswer(l: Engine, l1: Engine, l': Engine, en: Entry, trace: seq<Entry>, t': Engine, n: nat)
    requires NeverRefused(l1, l', trace, t', n)
    requires en.Answered? && en.response.response == ACK
    requires en.response.dacStatus.bufferFullness == |l1.buffer|
    requires n == 0 ==> |l1.buffer| <= |t'.buffer|
    ensures NeverRefused(l, l', [en] + trace, t', n + 1)
  {
    Session.ResponsesStep(en, trace);
    NoRefusalStep(en.response, Session.Responses(trace));
  }

  // A command list that would be acknowledged throughout when run alone is acknowledged throughout by
  // the select loop, in every interleaving, stops and late output included.
  lemma {:induction false} LoopNeverRefuses(l: Loop, t: Engine, cs: seq<Command>, actions: seq<Action>)
    requires LoopInv(l) && Inv(t) && Below(l.engine, t) && Willing(t, cs)
    requires Taken(l, actions) == AllKnown(cs)
    ensures var (l', trace) := Exec(l, actions);
            NeverRefused(l.engine, l'.engine, trace, EffectAll(t, cs), |cs|)
    decreases |actions|
  {
    if actions == [] {
      assert cs == [];
    } else {
      var a := actions[0];
      var (l1, en) := Act(l, a);
      TakenStep(l, actions);
      var (l', trace) := Exec(l1, actions[1..]);
      if Received(EventOf(l, a)) == [] {
        assert [] + Taken(l1, actions[1..]) == Taken(l1, actions[1..]);
        OtherActsHelp(l, t, a);
        LoopNeverRefuses(l1, t, cs, actions[1..]);
        NeverRefusedOther(l.engine, l1.engine, l'.engine, en, trace, EffectAll(t, cs), |cs|);
      } else {
        TakesNext(l, a, cs, Taken(l1, actions[1..]));
        CommandKeepsInv(t, Known(cs[0]));
        TakingHelps(l, t, cs[0]);
        LoopNeverRefuses(l1, Effect(t, cs[0]), cs[1..], actions[1..]);
        NeverRefusedAnswer(l.engine, l1.engine, l'.engine, en[0], trace, EffectAll(t, cs), |cs| - 1);
      }
    }
  }

  lemma TakesNext(l: Loop, a: Action, cs: seq<Command>, rest: seq<Interpreted>)
    requires LoopInv(l) && Received(EventOf(l, a)) != []
    requires Received(EventOf(l, a)) + rest == AllKnown(cs)
    ensures cs != [] && a == TakeCommand(Known(cs[0])) && rest == AllKnown(cs[1..])
  {
    var all := Received(EventOf(l, a)) + rest;
    assert EventOf(l, a)[1..] == [];
    assert all[0] == a.interpreted && all[1..] == rest;
    assert AllKnown(cs)[0] == Known(cs[0]) && AllKnown(cs)[1..] == AllKnown(cs[1..]);
  }

  // Lost responses. A timer that fires while a response is being written ends the turn and the write with
  // it, so that the client never gets that response.

  predicate LosesResponse(l: Loop, a: Action) {
    !l.halted && a.FireTimer? && l.emitter == Waiting && l.reader.Responding?
  }

  function Lost(l: Loop, actions: seq<Action>): nat
    requires LoopInv(l)
    decreases |actions|
  {
    if actions == [] then 0
    else
      ActKeepsInv(l, actions[0]);
      (if LosesResponse(l, actions[0]) then 1 else 0) + Lost(Act(l, actions[0]).0, actions[1..])
  }

  // The response being written.
  function Pending(l: Loop): seq<DacResponse> { if l.reader.Responding? then [l.reader.response] else [] }

  function Finished(l: Loop, a: Action): seq<DacResponse> {
    if a.FinishResponse? && !l.halted then Pending(l) else []
  }

  // The responses written to their end, in order.
  function Delivered(l: Loop, actions: seq<Action>): seq<DacResponse>
    requires LoopInv(l)
    decreases |actions|
  {
    if actions == [] then []
    else
      ActKeepsInv(l, actions[0]);
      Finished(l, actions[0]) + Delivered(Act(l, actions[0]).0, actions[1..])
  }

  lemma DeliveredStep(l: Loop, a: Action)
    requires LoopInv(l)
    ensures var (l', en) := Act(l, a);
            && LoopInv(l')
            && |Pending(l)| + |Session.Responses(en)|
               == |Finished(l, a)| + |Pending(l')| + (if LosesResponse(l, a) then 1 else 0)
            && (!LosesResponse(l, a) ==> Pending(l) + Session.Responses(en) == Finished(l, a) + Pending(l'))
  {
    ActKeepsInv(l, a);
    var en := Act(l, a).1;
    assert en != [] ==> en[1..] == [];
  }

  // Every response is delivered, lost or still being written; and the client gets every one of them, in
  // order, exactly when no timer fires while one is being written.
  lemma {:induction false} AllDeliveredIff(l: Loop, actions: seq<Action>)
    requires LoopInv(l)
    ensures var (l', trace) := Exec(l, actions);
            && |Pending(l)| + |Session.Responses(trace)|
               == |Delivered(l, actions)| + Lost(l, actions) + |Pending(l')|
            && (Pending(l) + Session.Responses(trace) == Delivered(l, actions) + Pending(l')
                <==> Lost(l, actions) == 0)
    decreases |actions|
  {
    if actions == [] {
      assert Pending(l) + [] == [] + Pending(l);
    } else {
      var a := actions[0];
      var (l1, en) := Act(l, a);
      DeliveredStep(l, a);
      AllDeliveredIff(l1, actions[1..]);
      var (l', trace) := Exec(l1, actions[1..]);
      ResponsesAppend(en, trace);
      if Lost(l, actions) == 0 {
        DeliveriesJoin(Pending(l), Session.Responses(en), Session.Responses(trace), Finished(l, a),
                       Pending(l1), Delivered(l1, actions[1..]), Pending(l'));
      } else {
        assert |Pending(l) + Session.Responses(en + trace)| != |Delivered(l, actions) + Pending(l')|;
      }
    }
  }

  lemma DeliveriesJoin(before: seq<DacResponse>, first: seq<DacResponse>, rest: seq<DacResponse>,
                       now: seq<DacResponse>, mid: seq<DacResponse>, later: seq<DacResponse>, end: seq<DacResponse>)
    requires before + first == now + mid && mid + rest == later + end
    ensures before + (first + rest) == (now + later) + end
  {
    assert before + (first + rest) == (before + first) + rest;
    assert now + (mid + rest) == (now + mid) + rest;
  }

  // The streaming client against the select loop: each turn sends as many points as the status in the
  // last response leaves room for, and ends some time after the response to it was delivered. A client
  // whose response is lost takes no further turn.

  datatype ClientTurn = ClientTurn(points: seq<DacPoint>, actions: seq<Action>)

  // The mirror after these responses.
  function MirrorOf(mirror: Status, rs: seq<DacResponse>): Status {
    if rs == [] then mirror else Updated(mirror, rs[|rs| - 1].dacStatus).0
  }

  // A run in which exactly these commands are taken and all of them answered for the client to see.
  predicate Answers(l: Loop, cs: seq<Command>, actions: seq<Action>)
    requires LoopInv(l)
  {
    Taken(l, actions) == AllKnown(cs) && |Delivered(l, actions)| == |cs|
  }

  predicate Follows(l: Loop, mirror: Status, turns: seq<ClientTurn>)
    requires LoopInv(l)
    decreases |turns|
  {
    turns == [] ||
    (&& PointsToGenerate(l.engine.capacity, mirror) == Some(|turns[0].points|)
     && Answers(l, [Data(turns[0].points)], turns[0].actions)
     && Follows(Exec(l, turns[0].actions).0, MirrorOf(mirror, Delivered(l, turns[0].actions)), turns[1..]))
  }

  function AllActions(turns: seq<ClientTurn>): seq<Action> {
    if turns == [] then [] else turns[0].actions + AllActions(turns[1..])
  }

  // The mirror behind some turns.
  function MirrorAfter(l: Loop, mirror: Status, turns: seq<ClientTurn>): Status
    requires LoopInv(l)
    decreases |turns|
  {
    if turns == [] then mirror
    else
      MirrorAfter(Exec(l, turns[0].actions).0, MirrorOf(mirror, Delivered(l, turns[0].actions)), turns[1..])
  }

  // If as many responses were delivered as commands processed, the client has seen all of them.
  lemma AllSeen(l: Loop, actions: seq<Action>)
    requires LoopInv(l) && l.reader.Reading?
    requires |Delivered(l, actions)| == |Session.Responses(Exec(l, actions).1)|
    ensures Delivered(l, actions) == Session.Responses(Exec(l, actions).1)
    ensures Exec(l, actions).0.reader.Reading?
  {
    AllDeliveredIff(l, actions);
    var rs, delivered := Session.Responses(Exec(l, actions).1), Delivered(l, actions);
    assert [] + rs == rs && delivered + [] == delivered;
  }

  lemma ReadableMirror(mirror: Status, rs: seq<DacResponse>)
    requires rs != [] && forall r <- rs :: FromProtocol(r.dacStatus).Success?
    ensures MirrorOf(mirror, rs).bufferFullness == rs[|rs| - 1].dacStatus.bufferFullness
  {
    assert rs[|rs| - 1] in rs;
  }

  // Commands the DAC would all accept, taken and answered: the client sees every response, none refuses,
  // and the last one bounds the queue.
  lemma AnsweredWell(l: Loop, mirror: Status, t: Engine, cs: seq<Command>, actions: seq<Action>)
    requires LoopInv(l) && l.reader.Reading? && Inv(t) && Below(l.engine, t) && Willing(t, cs) && cs != []
    requires Answers(l, cs, actions)
    ensures var l' := Exec(l, actions).0;
            var rs := Delivered(l, actions);
            && l'.reader.Reading?
            && Session.NoRefusal(rs)
            && Below(l'.engine, EffectAll(t, cs))
            && |l'.engine.buffer| <= MirrorOf(mirror, rs).bufferFullness <= |EffectAll(t, cs).buffer|
  {
    LoopNeverRefuses(l, t, cs, actions);
    AllSeen(l, actions);
    AnswersReadable(l, actions);
    ReadableMirror(mirror, Delivered(l, actions));
  }

  lemma TurnKeepsStreaming(l: Loop, mirror: Status, rate: uint32, points: seq<DacPoint>, actions: seq<Action>)
    requires LoopInv(l) && l.reader.Reading? && Streaming(l.engine, mirror, rate)
    requires PointsToGenerate(l.engine.capacity, mirror) == Some(|points|)
    requires Answers(l, [Data(points)], actions)
    ensures var l' := Exec(l, actions).0;
            && l'.reader.Reading?
            && Session.NoRefusal(Delivered(l, actions))
            && Streaming(l'.engine, MirrorOf(mirror, Delivered(l, actions)), rate)
  {
    RoundWilling(l.engine, points);
    AnsweredWell(l, mirror, l.engine, [Data(points)], actions);
  }

  // Every answer of the loop carries a status the host can read.
  lemma {:induction false} AnswersReadable(l: Loop, actions: seq<Action>)
    requires LoopInv(l)
    ensures forall r <- Session.Responses(Exec(l, actions).1) :: FromProtocol(r.dacStatus).Success?
    decreases |actions|
  {
    if actions != [] {
      var (l1, en) := Act(l, actions[0]);
      ActKeepsInv(l, actions[0]);
      AnswersReadable(l1, actions[1..]);
      var trace := Exec(l1, actions[1..]).1;
      if en == [] {
        assert en + trace == trace;
      } else {
        assert en + trace == [en[0]] + trace;
        Session.ResponsesStep(en[0], trace);
        if en[0].Answered? {
          var s' := l1.engine.status;
          assert en[0].response.dacStatus == ToProtocol(s');
          FromProtocolOfToProtocol(s');
        }
      }
    }
  }

  lemma {:induction false} DeliveredAppend(l: Loop, a: seq<Action>, b: seq<Action>)
    requires LoopInv(l)
    ensures Delivered(l, a + b) == Delivered(l, a) + Delivered(Exec(l, a).0, b)
    decreases |a|
  {
    if a == [] {
      assert a + b == b && [] + Delivered(l, b) == Delivered(l, b);
    } else {
      ActKeepsInv(l, a[0]);
      assert (a + b)[1..] == a[1..] + b && (a + b)[0] == a[0];
      DeliveredAppend(Act(l, a[0]).0, a[1..], b);
    }
  }

  // In any select-loop interleaving, over any number of turns, a streaming client gets one response for
  // each, none of them a refusal, and its credit stays covered.
  lemma {:induction false} StreamsThroughLoop(l: Loop, mirror: Status, rate: uint32, turns: seq<ClientTurn>)
    requires LoopInv(l) && l.reader.Reading? && Streaming(l.engine, mirror, rate) && Follows(l, mirror, turns)
    ensures var rs := Delivered(l, AllActions(turns));
            && Session.NoRefusal(rs) && |rs| == |turns|
            && Streaming(Exec(l, AllActions(turns)).0.engine, MirrorAfter(l, mirror, turns), rate)
    decreases |turns|
  {
    if turns != [] {
      var (points, actions) := (turns[0].points, turns[0].actions);
      var l1 := Exec(l, actions).0;
      TurnKeepsStreaming(l, mirror, rate, points, actions);
      StreamsThroughLoop(l1, MirrorOf(mirror, Delivered(l, actions)), rate, turns[1..]);
      ExecAppend(l, actions, AllActions(turns[1..]));
      DeliveredAppend(l, actions, AllActions(turns[1..]));
    }
  }

  // And it gets there: from a ready and idle DAC, whatever happens in between, the prepare and then the
  // first points with the begin are acknowledged and leave the credit covered.
  lemma StartsStreaming(l: Loop, rate: uint32, points: seq<DacPoint>, prepare: seq<Action>, start: seq<Action>)
    requires LoopInv(l) && l.reader.Reading?
    requires l.engine.status.lightEngine == Ready && l.engine.status.playback == Idle
    requires 1 <= |points| == l.engine.capacity - 1
    requires Answers(l, [PrepareStream], prepare)
    requires Answers(Exec(l, prepare).0, [Data(points), Begin(0, rate)], start)
    ensures var (l1, rs1) := (Exec(l, prepare).0, Delivered(l, prepare));
            var (l2, rs2) := (Exec(l1, start).0, Delivered(l1, start));
            && Session.NoRefusal(rs1) && Session.NoRefusal(rs2)
            && PointsToGenerate(l1.engine.capacity, MirrorOf(INITIAL_STATUS, rs1)) == Some(|points|)
            && l2.reader.Reading?
            && Streaming(l2.engine, MirrorOf(INITIAL_STATUS, rs2), rate)
  {
    Prepares(l, prepare);
    Begins(Exec(l, prepare).0, rate, points, start);
  }

  lemma Prepares(l: Loop, actions: seq<Action>)
    requires LoopInv(l) && l.reader.Reading?
    requires l.engine.status.lightEngine == Ready && l.engine.status.playback == Idle
    requires Answers(l, [PrepareStream], actions)
    ensures var (l', rs) := (Exec(l, actions).0, Delivered(l, actions));
            && l'.reader.Reading? && l'.engine.capacity == l.engine.capacity
            && l'.engine.status.lightEngine == Ready && l'.engine.status.playback == Prepared
            && l'.engine.buffer == []
            && Session.NoRefusal(rs) && MirrorOf(INITIAL_STATUS, rs).bufferFullness == 0
  {
    var t := Effect(l.engine, PrepareStream);
    assert [PrepareStream][1..] == [];
    CommandKeepsInv(l.engine, Known(PrepareStream));
    assert EffectAll(t, []) == t && Willing(t, []);
    AnsweredWell(l, INITIAL_STATUS, l.engine, [PrepareStream], actions);
  }

  lemma Begins(l: Loop, rate: uint32, points: seq<DacPoint>, actions: seq<Action>)
    requires LoopInv(l) && l.reader.Reading?
    requires l.engine.status.lightEngine == Ready && l.engine.status.playback == Prepared
    requires l.engine.buffer == [] && 1 <= |points| == l.engine.capacity - 1
    requires Answers(l, [Data(points), Begin(0, rate)], actions)
    ensures var (l', rs) := (Exec(l, actions).0, Delivered(l, actions));
            && l'.reader.Reading? && Session.NoRefusal(rs)
            && Streaming(l'.engine, MirrorOf(INITIAL_STATUS, rs), rate)
  {
    StartWilling(l.engine, points, rate);
    AnsweredWell(l, INITIAL_STATUS, l.engine, [Data(points), Begin(0, rate)], actions);
  }

  // A client of the builder cannot reach the emergency stop.

  lemma ActKeepsLightEngine(l: Loop, a: Action)
    requires LoopInv(l) && Known(EmergencyStop) !in Received(EventOf(l, a))
    ensures Act(l, a).0.engine.status.lightEngine == l.engine.status.lightEngine
  {
    if EventOf(l, a) != [] {
      assert EventOf(l, a)[1..] == [];
    }
  }

  lemma {:induction false} LightEngineKept(l: Loop, actions: seq<Action>)
    requires LoopInv(l) && Known(EmergencyStop) !in Taken(l, actions)
    ensures Exec(l, actions).0.engine.status.lightEngine == l.engine.status.lightEngine
    decreases |actions|
  {
    if actions != [] {
      TakenStep(l, actions);
      ActKeepsLightEngine(l, actions[0]);
      LightEngineKept(Act(l, actions[0]).0, actions[1..]);
    }
  }

  lemma {:induction false} KnownIn(cs: seq<Command>, c: Command)
    ensures Known(c) in AllKnown(cs) <==> c in cs
  {
    if cs != [] {
      assert cs == [cs[0]] + cs[1..];
      KnownIn(cs[1..], c);
    }
  }

  // Whatever calls the host queues, its own emergency-stop calls included, no interleaving ever brings
  // the emulator into emergency stop.
  lemma BuilderNeverReachesEmergencyStop(l: Loop, calls: seq<Call>, actions: seq<Action>)
    requires LoopInv(l) && Taken(l, actions) <= AllKnown(AllSentAs(calls))
    ensures Exec(l, actions).0.engine.status.lightEngine == l.engine.status.lightEngine
  {
    SentAsNamedIff(calls);
    KnownIn(AllSentAs(calls), EmergencyStop);
    LightEngineKept(l, actions);
  }
}
