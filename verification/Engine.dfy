/**
 What the emulated DAC does, as functions on a state value: the answer to a command, and one emission
 of points. The class that does it in place is in module `Emulator`.
 */
module Engine {
  import opened LittleEndian
  import opened Protocol
  import opened Dac
  import opened Wrappers

  // Nanoseconds on a monotonic clock.
  type Instant = int

  datatype Engine = Engine(capacity: uint16, status: Status, buffer: seq<DacPoint>, next: Option<Instant>)

  // A new connection: nothing queued, nothing due.
  function Connected(capacity: uint16, status: Status): Engine {
    Engine(capacity, status, [], None)
  }

  const INITIAL_STATUS := Status(0, Ready, Idle, NetworkStreaming, 0, 0, 0, 0, 0)

  predicate Bounded(s: Engine) { |s.buffer| <= s.capacity }

  predicate Streamable(s: Engine) {
    s.status.lightEngine == Ready && s.status.playback in {Prepared, Playing}
  }

  // Which of ACK, NAK - Full and NAK - Invalid a command gets.
  function Verdict(s: Engine, c: Command): uint8 {
    var accepted :=
      match c
      case PrepareStream => s.status.lightEngine == Ready && s.status.playback == Idle
      case Begin(_, _) => s.status.lightEngine == Ready && s.status.playback == Prepared && s.buffer != []
      case PointRate(_) => Streamable(s)
      case Data(_) => Streamable(s)
      case Stop => Streamable(s)
      case ClearEmergencyStop => s.status.lightEngine == Ready
      case EmergencyStop => true
      case Ping => true;
    if !accepted then NAK_INVALID
    else if c.Data? && |s.buffer| + |c.points| > s.capacity then NAK_FULL
    else ACK
  }

  // The state a command leaves behind. A `Data` command that does not fit is cut, not refused.
  function Effect(s: Engine, c: Command): Engine
    requires Bounded(s)
  {
    if Verdict(s, c) == NAK_INVALID then s
    else
      match c
      case PrepareStream =>
        s.(buffer := [], next := None,
           status := s.status.(playback := Prepared, pointCount := 0, bufferFullness := 0))
      case Begin(_, rate) => s.(status := s.status.(playback := Playing, pointRate := rate))
      case PointRate(rate) => s.(status := s.status.(pointRate := rate))
      case Data(points) =>
        var buffer := s.buffer + points[..Min(|points|, s.capacity - |s.buffer|)];
        s.(buffer := buffer, status := s.status.(bufferFullness := |buffer|))
      case Stop => s.(status := s.status.(playback := Idle))
      case EmergencyStop => s.(status := s.status.(lightEngine := EmergencyStopped, playback := Idle))
      case ClearEmergencyStop => s
      case Ping => s
  }

  // The response is built after the state has changed.
  function Reply(s: Engine, c: Command): DacResponse
    requires Bounded(s)
  {
    DacResponse(Verdict(s, c), StartByte(c), ToProtocol(Effect(s, c).status))
  }

  datatype Interpreted = Known(command: Command) | Unknown(startByte: uint8)

  function ProcessInterpreted(s: Engine, ic: Interpreted): (Engine, DacResponse)
    requires Bounded(s)
  {
    match ic
    case Known(c) => (Effect(s, c), Reply(s, c))
    case Unknown(b) => (s, DacResponse(NAK_INVALID, b, ToProtocol(s.status)))
  }

  // The time between two points, or nothing for rate zero, where building the duration panics.
  // The arithmetic is exact here; that the program's floating point gives the same is proved in module
  // `Doubles`.
  function RateInterval(hz: uint32): Option<nat> {
    if hz == 0 then None
    else
      var secsf := 1.0 / (hz as real);
      var secs := secsf.Floor;
      var nanos := (1_000_000_000.0 * (secsf - secs as real)).Floor;
      Some(secs * 1_000_000_000 + nanos)
  }

  // How many emission slots have passed at `now` when the next one is due at `next`.
  function Slots(next: Instant, now: Instant, interval: nat): nat {
    if now <= next || interval == 0 then 0 else (now - next + interval - 1) / interval
  }

  datatype Fate =
    | Batch(points: seq<DacPoint>)
    | Underflowed
    | NotPlaying
    | Panicked   // rate zero
    | Diverges   // a rate above one gigahertz rounds to an interval of zero: the loop never catches up

  function Points(f: Fate): seq<DacPoint> { if f.Batch? then f.points else [] }

  predicate Halts(f: Fate) { f.Panicked? || f.Diverges? }

  // First poll of the emission future: fix the time of the first point.
  function Arm(s: Engine, now: Instant): Engine {
    s.(next := Some(s.next.GetOr(now)))
  }

  // Let a number of slots pass: each takes a point from the queue while there is one. The two counters
  // are updated through 16-bit and 32-bit casts.
  function Advance(s: Engine, slots: nat, interval: nat): (s': Engine)
    requires s.next.Some?
  {
    var n := Min(slots, |s.buffer|);
    s.(buffer := s.buffer[n..],
       next := Some(s.next.value + slots * interval),
       status := s.status.(bufferFullness := (|s.buffer| - n) % 0x1_0000,
                           pointCount := (s.status.pointCount + n) % 0x1_0000_0000))
  }

  // The timer has fired: pop one point per slot passed.
  function Fire(s: Engine, now: Instant): (Engine, Fate)
    requires s.next.Some?
  {
    match RateInterval(s.status.pointRate)
    case None => (s, Panicked)
    case Some(interval) =>
      if interval == 0 && s.next.value < now then (s, Diverges)
      else
        var s' := Advance(s, Slots(s.next.value, now, interval), interval);
        var out := s.buffer[..|s.buffer| - |s'.buffer|];
        (s', if out == [] then Underflowed else Batch(out))
  }

  // An emission whose future was first polled at `armed` and whose timer let it go on at `fired`.
  datatype Poll = Poll(armed: Instant, fired: Instant)

  function Emit(s: Engine, p: Poll): (Engine, Fate) {
    if s.status.playback == Playing then Fire(Arm(s, p.armed), p.fired) else (s, NotPlaying)
  }

  // What holds of every state a connection can reach.
  predicate Inv(s: Engine) {
    && Bounded(s)
    && s.status.bufferFullness == |s.buffer|
    && (s.status.playback != Idle ==> s.status.lightEngine == Ready)
    && (s.status.playback == Prepared ==> s.status.pointCount == 0 && s.next == None)
  }

  lemma CommandKeepsInv(s: Engine, ic: Interpreted)
    requires Inv(s)
    ensures Inv(ProcessInterpreted(s, ic).0)
  {}

  lemma FireKeepsInv(s: Engine, now: Instant)
    requires Inv(s) && s.next.Some?
    ensures Inv(Fire(s, now).0)
  {}

  lemma EmitKeepsInv(s: Engine, p: Poll)
    requires Inv(s)
    ensures Inv(Emit(s, p).0)
  {
    if s.status.playback == Playing {
      FireKeepsInv(Arm(s, p.armed), p.fired);
    }
  }

  // A data command takes the longest prefix of its points that fits, and is acknowledged exactly when
  // that is the whole payload.
  lemma DataTakesLongestPrefix(s: Engine, points: seq<DacPoint>) returns (taken: nat)
    requires Bounded(s) && Streamable(s)
    ensures var s' := Effect(s, Data(points));
            && taken <= |points|
            && s'.buffer == s.buffer + points[..taken]
            && |s'.buffer| <= s.capacity
            && (taken < |points| ==> |s'.buffer| == s.capacity)
            && (Verdict(s, Data(points)) == ACK <==> taken == |points|)
            && (Verdict(s, Data(points)) == NAK_FULL <==> taken < |points|)
  {
    taken := Min(|points|, s.capacity - |s.buffer|);
  }
}
