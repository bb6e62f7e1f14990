/** Whole runs of the emulator, with commands and emissions as atomic steps. */
module Traces {
  import opened LittleEndian
  import opened Protocol
  import opened Dac
  import opened Engine
  import opened Timing

  datatype Event = Receive(interpreted: Interpreted) | Emission(poll: Poll)

  // What can be seen from outside: the response sent, or the outcome of an emission.
  datatype Entry = Answered(interpreted: Interpreted, response: DacResponse) | Output(fate: Fate)

  function Step(s: Engine, e: Event): (Engine, Entry)
    requires Bounded(s)
  {
    match e
    case Receive(ic) => var (s', r) := ProcessInterpreted(s, ic); (s', Answered(ic, r))
    case Emission(p) => var (s', fate) := Emit(s, p); (s', Output(fate))
  }

  predicate Fatal(en: Entry) { en.Output? && Halts(en.fate) }

  lemma StepKeepsInv(s: Engine, e: Event)
    requires Inv(s)
    ensures Inv(Step(s, e).0) && Step(s, e).0.capacity == s.capacity
  {
    match e {
      case Receive(ic) => CommandKeepsInv(s, ic);
      case Emission(p) => EmitKeepsInv(s, p);
    }
  }

  // A run ends early when an emission panics or hangs. Every reachable state satisfies the invariant.
  function Run(s: Engine, events: seq<Event>): (r: (Engine, seq<Entry>))
    requires Inv(s)
    ensures Inv(r.0) && r.0.capacity == s.capacity
    ensures |r.1| <= |events|
    decreases |events|
  {
    if events == [] then (s, [])
    else
      StepKeepsInv(s, events[0]);
      var (s1, en) := Step(s, events[0]);
      if Fatal(en) then (s1, [en])
      else
        var (s2, trace) := Run(s1, events[1..]);
        (s2, [en] + trace)
  }

  lemma RunStep(s: Engine, e: Event, events: seq<Event>)
    requires Inv(s)
    ensures Inv(Step(s, e).0) && Step(s, e).0.capacity == s.capacity
    ensures var (s1, en) := Step(s, e);
            Run(s, [e] + events)
            == if Fatal(en) then (s1, [en]) else (Run(s1, events).0, [en] + Run(s1, events).1)
  {
    StepKeepsInv(s, e);
    assert ([e] + events)[1..] == events;
  }

  // The points a trace shows, in order.
  function Shown(trace: seq<Entry>): seq<DacPoint> {
    if trace == [] then [] else (if trace[0].Output? then Points(trace[0].fate) else []) + Shown(trace[1..])
  }

  lemma ShownStep(en: Entry, trace: seq<Entry>)
    ensures Shown([en] + trace) == (if en.Output? then Points(en.fate) else []) + Shown(trace)
  {
    assert ([en] + trace)[1..] == trace;
  }

  // Bookkeeping from the trace alone: the points accepted and shown since the last accepted
  // `PrepareStream`. A cut `Data` command counts for the part that fitted.
  datatype Ledger = Ledger(accepted: seq<DacPoint>, emitted: seq<DacPoint>)

  function Post(l: Ledger, capacity: uint16, en: Entry): Ledger {
    match en
    case Answered(Known(PrepareStream), r) => if r.response == ACK then Ledger([], []) else l
    case Answered(Known(Data(points)), r) =>
      var room := capacity - (|l.accepted| - |l.emitted|);
      if r.response == ACK then l.(accepted := l.accepted + points)
      else if r.response == NAK_FULL && 0 <= room <= |points| then l.(accepted := l.accepted + points[..room])
      else l
    case Output(fate) => l.(emitted := l.emitted + Points(fate))
    case _ => l
  }

  function Tally(l: Ledger, capacity: uint16, trace: seq<Entry>): Ledger
    decreases |trace|
  {
    if trace == [] then l else Tally(Post(l, capacity, trace[0]), capacity, trace[1..])
  }

  lemma TallyStep(l: Ledger, capacity: uint16, en: Entry, trace: seq<Entry>)
    ensures Tally(l, capacity, [en] + trace) == Tally(Post(l, capacity, en), capacity, trace)
  {
    assert ([en] + trace)[1..] == trace;
  }

  lemma {:induction false} TallyAppend(l: Ledger, capacity: uint16, a: seq<Entry>, b: seq<Entry>)
    ensures Tally(l, capacity, a + b) == Tally(Tally(l, capacity, a), capacity, b)
    decreases |a|
  {
    if a == [] {
      assert a + b == b;
    } else {
      assert (a + b)[1..] == a[1..] + b;
      TallyAppend(Post(l, capacity, a[0]), capacity, a[1..], b);
    }
  }

  predicate Balanced(s: Engine, l: Ledger) {
    && l.accepted == l.emitted + s.buffer
    && s.status.pointCount == |l.emitted| % 0x1_0000_0000
  }

  lemma StepBalances(s: Engine, l: Ledger, e: Event)
    requires Inv(s) && Balanced(s, l)
    ensures var (s', en) := Step(s, e);
            Balanced(s', Post(l, s.capacity, en))
  {
    match e {
      case Receive(Known(Data(points))) =>
        assert |l.accepted| - |l.emitted| == |s.buffer|;
        if Verdict(s, Data(points)) == ACK {
          assert points[..|points|] == points;
        }
      case Receive(_) =>
      case Emission(p) => EmissionBalances(s, l, p);
    }
  }

  // An emission moves points from the front of the queue to the output and counts them.
  lemma EmissionMoves(s: Engine, p: Poll)
    ensures var (s', fate) := Emit(s, p);
            && Points(fate) + s'.buffer == s.buffer
            && s'.status.pointCount == (s.status.pointCount + |Points(fate)|) % 0x1_0000_0000
  {}

  lemma LedgerMoves(accepted: seq<DacPoint>, emitted: seq<DacPoint>, out: seq<DacPoint>, left: seq<DacPoint>)
    requires accepted == emitted + (out + left)
    ensures accepted == (emitted + out) + left
  {}

  lemma EmissionBalances(s: Engine, l: Ledger, p: Poll)
    requires Inv(s) && Balanced(s, l)
    ensures var (s', fate) := Emit(s, p);
            Balanced(s', l.(emitted := l.emitted + Points(fate)))
  {
    var (s', fate) := Emit(s, p);
    EmissionMoves(s, p);
    LedgerMoves(l.accepted, l.emitted, Points(fate), s'.buffer);
    CountWraps(0, |l.emitted|, |Points(fate)|);
  }

  // Conservation and order: over every run the points accepted since the last `PrepareStream` are, in
  // order, those shown and then those still queued, and the DAC's count is the number shown.
  lemma {:induction false} Conservation(s: Engine, l: Ledger, events: seq<Event>)
    requires Inv(s) && Balanced(s, l)
    ensures var (s', trace) := Run(s, events);
            Balanced(s', Tally(l, s.capacity, trace))
    decreases |events|
  {
    if events != [] {
      StepKeepsInv(s, events[0]);
      StepBalances(s, l, events[0]);
      var (s1, en) := Step(s, events[0]);
      var l1 := Post(l, s.capacity, en);
      if Fatal(en) {
        assert Tally(l, s.capacity, [en]) == l1;
      } else {
        Conservation(s1, l1, events[1..]);
        var trace := Run(s1, events[1..]).1;
        assert ([en] + trace)[1..] == trace;
      }
    }
  }

  // Trace safety.

  predicate Accepted(en: Entry) { en.Answered? && en.interpreted.Known? && en.response.response == ACK }

  predicate IsPrepare(en: Entry) { Accepted(en) && en.interpreted.command.PrepareStream? }
  predicate IsBegin(en: Entry) { Accepted(en) && en.interpreted.command.Begin? }

  predicate IsDeparture(en: Entry) { Accepted(en) && StopsPlayback(en.interpreted) }

  // The command ends a stream if it is accepted.
  predicate StopsPlayback(ic: Interpreted) { ic.Known? && (ic.command.Stop? || ic.command.EmergencyStop?) }

  // The number of points an answer reports in the queue.
  predicate ReportsQueued(en: Entry, fullness: nat) {
    en.Answered? ==> en.response.dacStatus.bufferFullness == fullness
  }

  predicate StillOn(trace: seq<Entry>, i: nat, k: nat) {
    && i < k <= |trace|
    && IsPrepare(trace[i])
    && forall m | i < m < k :: !IsDeparture(trace[m])
  }

  // Every answer since the prepare reports an empty queue.
  predicate NothingQueued(trace: seq<Entry>, i: nat, k: nat) {
    i < k <= |trace| && forall m | i <= m < k :: ReportsQueued(trace[m], 0)
  }

  // The first points since the prepare: a `Data` command that was not refused, answered with points in
  // the queue where every answer before it reports none.
  predicate TookFirstPoints(trace: seq<Entry>, i: nat, j: nat) {
    && i < j < |trace|
    && NothingQueued(trace, i, j)
    && trace[j].Answered? && trace[j].interpreted.Known? && trace[j].interpreted.command.Data?
    && trace[j].response.response in {ACK, NAK_FULL}
    && trace[j].response.dacStatus.bufferFullness > 0
  }

  predicate Loaded(trace: seq<Entry>, i: nat, j: nat, k: nat) {
    StillOn(trace, i, k) && j < k && TookFirstPoints(trace, i, j)
  }

  // Before position k: a prepare, then points, then a begin, and no stop since the prepare.
  predicate Lit(trace: seq<Entry>, i: nat, j: nat, l: nat, k: nat) {
    Loaded(trace, i, j, k) && j < l < k && IsBegin(trace[l])
  }

  predicate StillEmpty(trace: seq<Entry>, i: nat, k: nat) { StillOn(trace, i, k) && NothingQueued(trace, i, k) }

  ghost predicate Explained(past: seq<Entry>, s: Engine) {
    && (s.status.playback == Prepared && s.buffer == [] ==> exists i :: StillEmpty(past, i, |past|))
    && (s.status.playback == Prepared && s.buffer != [] ==> exists i, j :: Loaded(past, i, j, |past|))
    && (s.status.playback == Playing ==> exists i, j, l :: Lit(past, i, j, l, |past|))
  }

  lemma Extend(past: seq<Entry>, en: Entry)
    requires !IsDeparture(en)
    ensures forall i :: StillEmpty(past, i, |past|) && ReportsQueued(en, 0) ==> StillEmpty(past + [en], i, |past| + 1)
    ensures forall i, j :: Loaded(past, i, j, |past|) ==> Loaded(past + [en], i, j, |past| + 1)
    ensures forall i, j, l :: Lit(past, i, j, l, |past|) ==> Lit(past + [en], i, j, l, |past| + 1)
  {}

  lemma StepExplained(past: seq<Entry>, s: Engine, e: Event)
    requires Inv(s) && Explained(past, s)
    ensures var (s', en) := Step(s, e);
            Explained(past + [en], s')
  {
    var (s', en) := Step(s, e);
    var now := past + [en];
    if s'.status.playback != Idle {
      if IsPrepare(en) {
        assert StillEmpty(now, |past|, |now|);
      } else {
        assert !IsDeparture(en);
        Extend(past, en);
        if s.status.playback == Playing {
          var i, j, l :| Lit(past, i, j, l, |past|);
          assert Lit(now, i, j, l, |now|);
        } else if s.buffer == [] {
          var i :| StillEmpty(past, i, |past|);
          if s'.buffer == [] {
            assert StillEmpty(now, i, |now|);
          } else {
            assert StillOn(now, i, |now|) && NothingQueued(now, i, |past|);
            assert Loaded(now, i, |past|, |now|);
          }
        } else {
          var i, j :| Loaded(past, i, j, |past|);
          assert Loaded(now, i, j, |now|);
          if IsBegin(en) {
            assert Lit(now, i, j, |past|, |now|);
          }
        }
      }
    }
  }

  // Every batch of points shown has behind it an accepted prepare, then points that were taken, then an
  // accepted begin, with no accepted stop or emergency stop since.
  lemma {:induction false} EveryBatchIsLit(past: seq<Entry>, s: Engine, events: seq<Event>, k: nat)
    requires Inv(s) && Explained(past, s)
    requires var trace := past + Run(s, events).1;
             |past| <= k < |trace| && trace[k].Output? && trace[k].fate.Batch?
    ensures var trace := past + Run(s, events).1;
            exists i, j, l :: Lit(trace, i, j, l, k)
    decreases |events|
  {
    StepKeepsInv(s, events[0]);
    var (s1, en) := Step(s, events[0]);
    var trace := past + Run(s, events).1;
    assert trace[|past|] == en;
    if k == |past| {
      var i, j, l :| Lit(past, i, j, l, |past|);
      assert forall m | 0 <= m < k :: trace[m] == past[m];
      assert Lit(trace, i, j, l, k);
    } else {
      StepExplained(past, s, events[0]);
      assert trace == (past + [en]) + Run(s1, events[1..]).1;
      EveryBatchIsLit(past + [en], s1, events[1..], k);
    }
  }

  // From an idle connection the history before it does not matter.
  lemma NoLightWithoutPermission(s: Engine, events: seq<Event>, k: nat)
    requires Inv(s) && s.status.playback == Idle
    requires var trace := Run(s, events).1;
             k < |trace| && trace[k].Output? && trace[k].fate.Batch?
    ensures exists i, j, l :: Lit(Run(s, events).1, i, j, l, k)
  {
    assert [] + Run(s, events).1 == Run(s, events).1;
    EveryBatchIsLit([], s, events, k);
  }

  // Playback only moves from idle to prepared, from prepared to playing, and back to idle, each by the
  // accepted command made for it.
  lemma PlaybackMoves(s: Engine, e: Event)
    requires Inv(s)
    ensures var (s', en) := Step(s, e);
            var (from, to) := (s.status.playback, s'.status.playback);
            && (IsPrepare(en) <==> from == Idle && to == Prepared)
            && (IsBegin(en) <==> from == Prepared && to == Playing)
            && (from != Idle && to == Idle ==> IsDeparture(en))
            && (from != to ==> IsPrepare(en) || IsBegin(en) || IsDeparture(en))
  {
    if e.Emission? {
      EmissionMoves(s, e.poll);
    }
  }

  // The emergency-stop latch.

  function Stopped(s: Engine): Engine {
    s.(status := s.status.(lightEngine := EmergencyStopped, playback := Idle))
  }

  // How a DAC whose light engine is not ready answers anything.
  function Refusal(s: Engine, ic: Interpreted): DacResponse {
    match ic
    case Known(c) =>
      DacResponse(if c in {EmergencyStop, Ping} then ACK else NAK_INVALID, StartByte(c), ToProtocol(s.status))
    case Unknown(b) => DacResponse(NAK_INVALID, b, ToProtocol(s.status))
  }

  // Once an emergency stop has been received nothing the host can send brings the DAC back: through any
  // further run nothing is shown, the queue, the counters and the whole status stay as they were, and
  // every command but the emergency stop itself and `Ping` is refused -- `ClearEmergencyStop` included.
  lemma {:induction false} EmergencyStopLatches(s: Engine, events: seq<Event>)
    requires Inv(s) && s == Stopped(s)
    ensures var (s', trace) := Run(s, events);
            && s' == s
            && |trace| == |events|
            && forall k | 0 <= k < |trace| ::
                 match events[k]
                 case Receive(ic) => trace[k] == Answered(ic, Refusal(s, ic))
                 case Emission(_) => trace[k] == Output(NotPlaying)
    decreases |events|
  {
    if events != [] {
      var (s1, en) := Step(s, events[0]);
      assert s1 == s;
      EmergencyStopLatches(s, events[1..]);
      var tail := Run(s, events[1..]).1;
      forall k | 0 <= k < |events|
        ensures match events[k]
                case Receive(ic) => ([en] + tail)[k] == Answered(ic, Refusal(s, ic))
                case Emission(_) => ([en] + tail)[k] == Output(NotPlaying)
      {
        if k > 0 {
          assert events[1..][k - 1] == events[k];
        }
      }
    }
  }

  // An emergency stop is always accepted and leads to the latched state.
  lemma EmergencyStopEntersLatch(s: Engine)
    requires Inv(s)
    ensures Effect(s, EmergencyStop) == Stopped(s)
    ensures Verdict(s, EmergencyStop) == ACK
    ensures Stopped(Stopped(s)) == Stopped(s)
  {}

  // `ClearEmergencyStop` never changes anything; it is acknowledged exactly when there was no emergency
  // stop to clear.
  lemma ClearIsAcknowledgedIffReady(s: Engine)
    requires Inv(s)
    ensures Verdict(s, ClearEmergencyStop) == ACK <==> s.status.lightEngine == Ready
    ensures Effect(s, ClearEmergencyStop) == s
  {}
}
