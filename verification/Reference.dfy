/** What the protocol documentation says, and exactly where the emulator departs from it. */
module Reference {
  import opened LittleEndian
  import opened Protocol
  import opened Dac
  import opened Engine
  import opened Traces
  import opened Wrappers

  // What the documented DAC has and the emulator does not: a buffer of waiting rates, and conditions that
  // keep an emergency stop from being cleared.
  datatype Circumstances = Circumstances(waiting: nat, size: nat, stopCondition: bool)

  // The documented answer. Only `PrepareStream` and `ClearEmergencyStop` are documented in terms of the
  // light engine; the other rules speak of the playback state alone. `Data` has no rule of its own: its
  // refusals follow from the meaning of NAK - Full and from the playback states in which points may be
  // added. A byte that starts no known command is documented to be treated as an emergency stop.
  function DocumentedVerdict(s: Engine, ic: Interpreted, d: Circumstances): uint8 {
    var playback := s.status.playback;
    match ic
    case Unknown(_) => ACK
    case Known(PrepareStream) => if s.status.lightEngine == Ready && playback == Idle then ACK else NAK_INVALID
    case Known(Begin(_, _)) => if playback == Prepared && |s.buffer| > 0 then ACK else NAK_INVALID
    case Known(PointRate(_)) =>
      if playback != Prepared && playback != Playing then NAK_INVALID
      else if d.waiting >= d.size then NAK_FULL
      else ACK
    case Known(Data(points)) =>
      if playback == Idle then NAK_INVALID
      else if |points| > s.capacity - |s.buffer| then NAK_FULL
      else ACK
    case Known(Stop) => if playback == Playing || playback == Prepared then ACK else NAK_INVALID
    case Known(EmergencyStop) => ACK
    case Known(ClearEmergencyStop) =>
      if s.status.lightEngine != EmergencyStopped then NAK_INVALID
      else if d.stopCondition then NAK_STOP_CONDITION
      else ACK
    case Known(Ping) => ACK
  }

  // In every reachable state the emulator answers as documented, although it looks at the light engine
  // where the documentation does not -- with three exceptions: it refuses every unknown byte, it has the
  // answers to `ClearEmergencyStop` the wrong way round, and it never finds a rate buffer full.
  lemma AnswersAsDocumentedIff(s: Engine, ic: Interpreted, d: Circumstances)
    requires Inv(s)
    ensures ProcessInterpreted(s, ic).1.response == DocumentedVerdict(s, ic, d)
            <==> && ic.Known?
                 && !(ic.command.ClearEmergencyStop? && s.status.lightEngine in {Ready, EmergencyStopped})
                 && !(ic.command.PointRate? && s.status.playback != Idle && d.waiting >= d.size)
  {}

  // An unknown byte has the documented effect of an emergency stop only where there is none left to have.
  lemma UnknownByteStopsIff(s: Engine, b: uint8)
    requires Inv(s)
    ensures ProcessInterpreted(s, Unknown(b)).0 == Effect(s, EmergencyStop)
            <==> s.status.lightEngine == EmergencyStopped
  {}

  // Point rates.

  // The documented rate and the rates that wait for a point to ask for them. `passedOver` is the rate
  // given last if it is neither: the buffer had no room for it, or older rates still wait behind it.
  datatype Rates = Rates(current: uint32, waiting: seq<uint32>, passedOver: Option<uint32>)

  // What the documentation leaves open: how many rates can wait, and whether those left over are kept
  // when a new stream begins.
  datatype RateBuffer = RateBuffer(size: nat, keptAtBegin: bool)

  // The control bit that takes the next rate out of the buffer.
  predicate ChangesRate(p: DacPoint) { p.control >= 0x8000 }

  function Play(r: Rates, shown: seq<DacPoint>): Rates
    decreases |shown|
  {
    if shown == [] then r
    else if ChangesRate(shown[0]) && r.waiting != [] then
      Play(r.(current := r.waiting[0], waiting := r.waiting[1..]), shown[1..])
    else Play(r, shown[1..])
  }

  // The documented consequence of what the emulator answered or showed.
  function RatesAfter(r: Rates, b: RateBuffer, en: Entry): Rates {
    match en
    case Output(fate) => Play(r, Points(fate))
    case Answered(Known(PointRate(rate)), response) =>
      if response.response != ACK then r
      else if |r.waiting| < b.size then Rates(r.current, r.waiting + [rate], None)
      else r.(passedOver := Some(rate))
    case Answered(Known(Begin(_, rate)), response) =>
      if response.response != ACK then r
      else if b.keptAtBegin && r.waiting != [] then Rates(rate, r.waiting, Some(rate))
      else Rates(rate, [], None)
    case _ => r
  }

  function RatesAfterAll(r: Rates, b: RateBuffer, trace: seq<Entry>): Rates
    decreases |trace|
  {
    if trace == [] then r else RatesAfterAll(RatesAfter(r, b, trace[0]), b, trace[1..])
  }

  lemma RatesStep(r: Rates, b: RateBuffer, en: Entry, trace: seq<Entry>)
    ensures RatesAfterAll(r, b, [en] + trace) == RatesAfterAll(RatesAfter(r, b, en), b, trace)
  {
    assert ([en] + trace)[1..] == trace;
  }

  // The rate given last.
  function Latest(r: Rates): uint32 {
    r.passedOver.GetOr(if r.waiting == [] then r.current else r.waiting[|r.waiting| - 1])
  }

  lemma {:induction false} PlayKeepsLatest(r: Rates, shown: seq<DacPoint>)
    ensures Latest(Play(r, shown)) == Latest(r) && Play(r, shown).passedOver == r.passedOver
    ensures |Play(r, shown).waiting| <= |r.waiting|
    decreases |shown|
  {
    if shown != [] {
      if ChangesRate(shown[0]) && r.waiting != [] {
        PlayKeepsLatest(r.(current := r.waiting[0], waiting := r.waiting[1..]), shown[1..]);
      } else {
        PlayKeepsLatest(r, shown[1..]);
      }
    }
  }

  // The emulator's rate is always the one given last ...
  lemma {:induction false} RunsAtLatest(s: Engine, r: Rates, b: RateBuffer, events: seq<Event>)
    requires Inv(s) && s.status.pointRate == Latest(r)
    ensures var (s', trace) := Run(s, events);
            s'.status.pointRate == Latest(RatesAfterAll(r, b, trace))
    decreases |events|
  {
    if events != [] {
      var (s1, en) := Step(s, events[0]);
      RunStep(s, events[0], events[1..]);
      assert events == [events[0]] + events[1..];
      StepAtLatest(s, r, b, events[0]);
      if Fatal(en) {
        RatesStep(r, b, en, []);
        assert [en] + [] == [en];
      } else {
        RatesStep(r, b, en, Run(s1, events[1..]).1);
        RunsAtLatest(s1, RatesAfter(r, b, en), b, events[1..]);
      }
    }
  }

  lemma StepAtLatest(s: Engine, r: Rates, b: RateBuffer, e: Event)
    requires Inv(s) && s.status.pointRate == Latest(r)
    ensures var (s', en) := Step(s, e);
            s'.status.pointRate == Latest(RatesAfter(r, b, en))
  {
    var en := Step(s, e).1;
    if en.Output? {
      PlayKeepsLatest(r, Points(en.fate));
    }
  }

  // ... so over every run, whatever the rate buffer holds, how long it is and what a begin does with it,
  // the emulator is at the documented rate exactly when the rate given last has become the current one.
  lemma RateAsDocumentedIff(s: Engine, r: Rates, b: RateBuffer, events: seq<Event>)
    requires Inv(s) && s.status.pointRate == Latest(r)
    ensures var (s', trace) := Run(s, events);
            var r' := RatesAfterAll(r, b, trace);
            s'.status.pointRate == r'.current
            <==> match r'.passedOver
                 case Some(rate) => rate == r'.current
                 case None => r'.waiting == [] || r'.waiting[|r'.waiting| - 1] == r'.current
  {
    RunsAtLatest(s, r, b, events);
  }

  predicate Stops(e: Event) { e.Receive? && StopsPlayback(e.interpreted) }

  // While the DAC plays and the buffer has room, a rate is never passed over.
  lemma {:induction false} NonePassedOver(s: Engine, r: Rates, b: RateBuffer, events: seq<Event>)
    requires Inv(s) && s.status.playback == Playing && r.passedOver == None
    requires |r.waiting| + |events| <= b.size && forall e <- events :: !Stops(e)
    ensures RatesAfterAll(r, b, Run(s, events).1).passedOver == None
    decreases |events|
  {
    if events != [] {
      var (s1, en) := Step(s, events[0]);
      assert events == [events[0]] + events[1..] && events[0] in events;
      RunStep(s, events[0], events[1..]);
      PlaybackMoves(s, events[0]);
      if en.Output? {
        PlayKeepsLatest(r, Points(en.fate));
      }
      if Fatal(en) {
        RatesStep(r, b, en, []);
        assert [en] + [] == [en];
      } else {
        RatesStep(r, b, en, Run(s1, events[1..]).1);
        NonePassedOver(s1, RatesAfter(r, b, en), b, events[1..]);
      }
    }
  }

  // From a DAC that plays with no rate waiting, and a buffer with room, until the next stop: exactly when
  // no rate waits or the last one waiting is the current one.
  lemma RateWhilePlayingIff(s: Engine, b: RateBuffer, events: seq<Event>)
    requires Inv(s) && s.status.playback == Playing
    requires |events| <= b.size && forall e <- events :: !Stops(e)
    ensures var (s', trace) := Run(s, events);
            var r := RatesAfterAll(Rates(s.status.pointRate, [], None), b, trace);
            s'.status.pointRate == r.current <==> r.waiting == [] || r.waiting[|r.waiting| - 1] == r.current
  {
    var r := Rates(s.status.pointRate, [], None);
    RunsAtLatest(s, r, b, events);
    NonePassedOver(s, r, b, events);
  }

  // The counters.

  // `shown` is the number of points shown since the DAC was last prepared.
  predicate CountersAsDocumented(t: Status, shown: nat) {
    && (t.playback == Idle ==> t.pointRate == 0)
    && t.pointCount == if t.playback == Playing then shown else 0
  }

  // The rate a trace leaves behind: that of the last accepted command that carries one.
  function LastRate(rate: uint32, trace: seq<Entry>): uint32
    decreases |trace|
  {
    if trace == [] then rate
    else
      var en := trace[0];
      LastRate(if Accepted(en) && (en.interpreted.command.Begin? || en.interpreted.command.PointRate?)
               then en.interpreted.command.pointRate else rate,
               trace[1..])
  }

  lemma {:induction false} RateOfRun(s: Engine, events: seq<Event>)
    requires Inv(s)
    ensures var (s', trace) := Run(s, events);
            s'.status.pointRate == LastRate(s.status.pointRate, trace)
    decreases |events|
  {
    if events != [] {
      var (s1, en) := Step(s, events[0]);
      RunStep(s, events[0], events[1..]);
      assert events == [events[0]] + events[1..];
      var trace := Run(s1, events[1..]).1;
      assert ([en] + trace)[1..] == trace && [en][1..] == [];
      if !Fatal(en) {
        RateOfRun(s1, events[1..]);
      }
    }
  }

  // After any run of a fresh connection the counters are as documented exactly when a playing DAC has
  // shown fewer than 2^32 points, and an idle one a multiple of 2^32 and was last given rate zero: the
  // count wraps, and a stop resets neither.
  lemma CountersAsDocumentedIff(capacity: uint16, events: seq<Event>)
    ensures Inv(Connected(capacity, INITIAL_STATUS))
    ensures var (s', trace) := Run(Connected(capacity, INITIAL_STATUS), events);
            var shown := |Tally(Ledger([], []), capacity, trace).emitted|;
            CountersAsDocumented(s'.status, shown)
            <==> match s'.status.playback
                 case Idle => LastRate(0, trace) == 0 && shown % 0x1_0000_0000 == 0
                 case Prepared => true
                 case Playing => shown < 0x1_0000_0000
  {
    var s := Connected(capacity, INITIAL_STATUS);
    RateOfRun(s, events);
    Conservation(s, Ledger([], []), events);
  }

  // The flags.

  predicate ReceivesEmergencyStop(trace: seq<Entry>) {
    exists en <- trace :: en.Answered? && en.interpreted == Known(EmergencyStop)
  }

  // No run changes any flag, the data source or the protocol version, and only an emergency stop
  // changes the light engine.
  lemma {:induction false} FixedOverRun(s: Engine, events: seq<Event>)
    requires Inv(s)
    ensures var (s', trace) := Run(s, events);
            s'.status == s.status.(lightEngine := if ReceivesEmergencyStop(trace) then EmergencyStopped
                                                  else s.status.lightEngine,
                                   playback := s'.status.playback,
                                   bufferFullness := s'.status.bufferFullness,
                                   pointRate := s'.status.pointRate,
                                   pointCount := s'.status.pointCount)
    decreases |events|
  {
    if events != [] {
      var (s1, en) := Step(s, events[0]);
      RunStep(s, events[0], events[1..]);
      assert events == [events[0]] + events[1..];
      var trace := Run(s1, events[1..]).1;
      assert forall x :: x in [en] + trace <==> x == en || x in trace;
      if !Fatal(en) {
        FixedOverRun(s1, events[1..]);
      }
    }
  }

  // On a fresh connection clearing is acknowledged for as long as there has been nothing to clear, and
  // refused for ever once there has.
  lemma ClearAcknowledgedIffNothingToClear(capacity: uint16, events: seq<Event>)
    ensures Inv(Connected(capacity, INITIAL_STATUS))
    ensures var (s', trace) := Run(Connected(capacity, INITIAL_STATUS), events);
            && (Verdict(s', ClearEmergencyStop) == ACK <==> !ReceivesEmergencyStop(trace))
            && (Verdict(s', ClearEmergencyStop) == NAK_INVALID <==> ReceivesEmergencyStop(trace))
  {
    FixedOverRun(Connected(capacity, INITIAL_STATUS), events);
  }

  // The light-engine flags are documented to say why an emergency stop was entered, with bit 0 for a
  // stop over the network. Over the runs of a fresh connection they do exactly when there was none.
  lemma EmergencyStopFlaggedIff(capacity: uint16, events: seq<Event>)
    ensures Inv(Connected(capacity, INITIAL_STATUS))
    ensures var (s', trace) := Run(Connected(capacity, INITIAL_STATUS), events);
            (s'.status.lightEngine == EmergencyStopped <==> s'.status.lightEngineFlags % 2 == 1)
            <==> !ReceivesEmergencyStop(trace)
  {
    FixedOverRun(Connected(capacity, INITIAL_STATUS), events);
  }

  // The playback flags are documented to say how the last stream ended: bit 1 with an underflow, bit 2
  // with an emergency stop, both until the next prepare.

  datatype StreamLog = StreamLog(on: bool, endedByEmergencyStop: bool)

  function Logged(log: StreamLog, en: Entry): StreamLog {
    if IsPrepare(en) then StreamLog(true, false)
    else if IsDeparture(en) && log.on then StreamLog(false, en.interpreted.command.EmergencyStop?)
    else log
  }

  function LoggedAll(log: StreamLog, trace: seq<Entry>): StreamLog
    decreases |trace|
  {
    if trace == [] then log else LoggedAll(Logged(log, trace[0]), trace[1..])
  }

  // An emergency stop received while a stream was on.
  predicate EmergencyStopInStream(on: bool, trace: seq<Entry>)
    decreases |trace|
  {
    trace != [] &&
    ((on && IsDeparture(trace[0]) && trace[0].interpreted.command.EmergencyStop?)
     || EmergencyStopInStream(IsPrepare(trace[0]) || (on && !IsDeparture(trace[0])), trace[1..]))
  }

  predicate LogFits(log: StreamLog, s: Engine) {
    && (log.on <==> s.status.playback != Idle)
    && (log.endedByEmergencyStop ==> s.status.lightEngine != Ready)
  }

  lemma StepLogged(s: Engine, log: StreamLog, e: Event)
    requires Inv(s) && LogFits(log, s)
    ensures var (s', en) := Step(s, e);
            var log' := Logged(log, en);
            && LogFits(log', s')
            && (log'.on <==> IsPrepare(en) || (log.on && !IsDeparture(en)))
            && (log'.endedByEmergencyStop <==>
                  log.endedByEmergencyStop
                  || (log.on && IsDeparture(en) && en.interpreted.command.EmergencyStop?))
  {
    PlaybackMoves(s, e);
  }

  // Streams end with an accepted stop and in no other way, never with an underflow; and an emergency
  // stop that ends one ends the last one.
  lemma {:induction false} LogOfRun(s: Engine, log: StreamLog, events: seq<Event>)
    requires Inv(s) && LogFits(log, s)
    ensures var (s', trace) := Run(s, events);
            var log' := LoggedAll(log, trace);
            && LogFits(log', s')
            && (log'.endedByEmergencyStop <==>
                  log.endedByEmergencyStop || EmergencyStopInStream(log.on, trace))
    decreases |events|
  {
    if events != [] {
      var (s1, en) := Step(s, events[0]);
      RunStep(s, events[0], events[1..]);
      assert events == [events[0]] + events[1..];
      StepLogged(s, log, events[0]);
      var trace := if Fatal(en) then [] else Run(s1, events[1..]).1;
      assert ([en] + trace)[1..] == trace && [en] + [] == [en];
      if !Fatal(en) {
        LogOfRun(s1, Logged(log, en), events[1..]);
      }
    }
  }

  // No flag is ever set. The underflow flag is right in that, as no stream ends so; the emergency-stop
  // flag is right after a run of a fresh connection exactly when no stream was ended by one.
  lemma PlaybackFlagsAsDocumentedIff(capacity: uint16, events: seq<Event>)
    ensures Inv(Connected(capacity, INITIAL_STATUS))
    ensures var (s', trace) := Run(Connected(capacity, INITIAL_STATUS), events);
            && !Bit(s'.status.playbackFlags, 1)
            && ((Bit(s'.status.playbackFlags, 2)
                 <==> LoggedAll(StreamLog(false, false), trace).endedByEmergencyStop)
                <==> !EmergencyStopInStream(false, trace))
  {
    var s := Connected(capacity, INITIAL_STATUS);
    FixedOverRun(s, events);
    LogOfRun(s, StreamLog(false, false), events);
    assert !Bit(0, 1) && !Bit(0, 2);
  }

  // The flags of the SD-card source. The declared bits are 0 for `PLAYING` and 1 for `REPEAT`, where
  // the documentation has bit 0 and bit 1.

  const ILDA_PLAYING := 0
  const ILDA_REPEAT := 1

  predicate Contains(flags: IldaPlaybackFlags, bits: IldaPlaybackFlags) { bits == 0 || flags == 1 }

  function Bit(flags: uint16, k: nat): bool {
    if k == 0 then flags % 2 == 1 else Bit(flags / 2, k - 1)
  }

  // A decoded status says what the documentation says of the wire: about playing exactly when bit 0 is
  // set, about repeating exactly when bits 0 and 1 are equal. Bit 1 is never sent.
  lemma SourceFlagsAsDocumentedIff(s: DacStatus)
    requires FromProtocol(s).Success? && s.source == SOURCE_ILDA_PLAYBACK_SD
    ensures var status := FromProtocol(s).value;
            && status.dataSource.IldaPlayback?
            && var flags := status.dataSource.flags;
            && ((Contains(flags, ILDA_PLAYING) <==> Bit(s.sourceFlags, 0)) <==> Bit(s.sourceFlags, 0))
            && ((Contains(flags, ILDA_REPEAT) <==> Bit(s.sourceFlags, 1))
                <==> (Bit(s.sourceFlags, 0) <==> Bit(s.sourceFlags, 1)))
            && !Bit(ToProtocol(status).sourceFlags, 1)
  {}

  // The documented consequences, field by field: what each part of the state becomes under an accepted
  // command, and that nothing else touches it.
  lemma EffectFieldByField(s: Engine, c: Command)
    requires Inv(s)
    ensures var s' := Effect(s, c);
            var ok := Verdict(s, c) == ACK;
            && s'.capacity == s.capacity
            && s'.status.lightEngine == (if c.EmergencyStop? then EmergencyStopped else s.status.lightEngine)
            && s'.status.playback ==
               (if ok && c.PrepareStream? then Prepared
                else if ok && c.Begin? then Playing
                else if ok && (c.Stop? || c.EmergencyStop?) then Idle
                else s.status.playback)
            && s'.status.pointRate == (if ok && (c.Begin? || c.PointRate?) then c.pointRate else s.status.pointRate)
            && s'.status.pointCount == (if ok && c.PrepareStream? then 0 else s.status.pointCount)
            && s'.next == (if ok && c.PrepareStream? then None else s.next)
            && (c.PrepareStream? && ok ==> s'.buffer == [])
            && (c.Data? ==> s.buffer <= s'.buffer <= s.buffer + c.points)
            && (!c.Data? && !(c.PrepareStream? && ok) ==> s'.buffer == s.buffer)
            && s'.status.bufferFullness == |s'.buffer|
            && s'.status == s.status.(lightEngine := s'.status.lightEngine, playback := s'.status.playback,
                                      pointRate := s'.status.pointRate, pointCount := s'.status.pointCount,
                                      bufferFullness := s'.status.bufferFullness)
  {
    if c.Data? && Streamable(s) {
      var n := Min(|c.points|, s.capacity - |s.buffer|);
      assert s.buffer + c.points[..n] <= s.buffer + c.points;
    }
  }
}
