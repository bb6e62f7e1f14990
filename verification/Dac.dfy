/** The DAC's status as typed values, and its conversion from and to the wire representation. */
module Dac {
  import opened LittleEndian
  import opened Protocol
  import opened Wrappers

  datatype LightEngine = Ready | Warmup | Cooldown | EmergencyStopped

  datatype Playback = Idle | Prepared | Playing

  // A flag set holds only the bits its type declares; reading one from the wire drops the others.
  type LightEngineFlags = x: int | 0 <= x < 0x40
  type PlaybackFlags = x: int | 0 <= x < 0x8
  type IldaPlaybackFlags = x: int | 0 <= x < 0x2

  datatype DataSource =
    | NetworkStreaming
    | IldaPlayback(flags: IldaPlaybackFlags)
    | InternalAbstractGenerator

  datatype Status = Status(
    protocol: uint8,
    lightEngine: LightEngine,
    playback: Playback,
    dataSource: DataSource,
    lightEngineFlags: LightEngineFlags,
    playbackFlags: PlaybackFlags,
    bufferFullness: uint16,
    pointRate: uint32,
    pointCount: uint32)

  datatype ProtocolError = UnknownLightEngineState | UnknownPlaybackState | UnknownDataSource

  function LightEngineFromProtocol(state: uint8): Option<LightEngine> {
    if state == LIGHT_ENGINE_READY then Some(Ready)
    else if state == LIGHT_ENGINE_WARMUP then Some(Warmup)
    else if state == LIGHT_ENGINE_COOLDOWN then Some(Cooldown)
    else if state == LIGHT_ENGINE_EMERGENCY_STOP then Some(EmergencyStopped)
    else None
  }

  function LightEngineToProtocol(l: LightEngine): uint8 {
    match l
    case Ready => LIGHT_ENGINE_READY
    case Warmup => LIGHT_ENGINE_WARMUP
    case Cooldown => LIGHT_ENGINE_COOLDOWN
    case EmergencyStopped => LIGHT_ENGINE_EMERGENCY_STOP
  }

  function PlaybackFromProtocol(state: uint8): Option<Playback> {
    if state == PLAYBACK_IDLE then Some(Idle)
    else if state == PLAYBACK_PREPARED then Some(Prepared)
    else if state == PLAYBACK_PLAYING then Some(Playing)
    else None
  }

  function PlaybackToProtocol(p: Playback): uint8 {
    match p
    case Idle => PLAYBACK_IDLE
    case Prepared => PLAYBACK_PREPARED
    case Playing => PLAYBACK_PLAYING
  }

  function DataSourceFromProtocol(source: uint8, flags: uint16): Option<DataSource> {
    if source == SOURCE_NETWORK_STREAMING then Some(NetworkStreaming)
    else if source == SOURCE_ILDA_PLAYBACK_SD then Some(IldaPlayback(flags % 0x2))
    else if source == SOURCE_INTERNAL_ABSTRACT_GENERATOR then Some(InternalAbstractGenerator)
    else None
  }

  function DataSourceToProtocol(d: DataSource): (uint8, uint16) {
    match d
    case NetworkStreaming => (SOURCE_NETWORK_STREAMING, 0)
    case IldaPlayback(flags) => (SOURCE_ILDA_PLAYBACK_SD, flags)
    case InternalAbstractGenerator => (SOURCE_INTERNAL_ABSTRACT_GENERATOR, 0)
  }

  function FromProtocol(s: DacStatus): Result<Status, ProtocolError> {
    match LightEngineFromProtocol(s.lightEngineState)
    case None => Failure(UnknownLightEngineState)
    case Some(lightEngine) =>
      match PlaybackFromProtocol(s.playbackState)
      case None => Failure(UnknownPlaybackState)
      case Some(playback) =>
        match DataSourceFromProtocol(s.source, s.sourceFlags)
        case None => Failure(UnknownDataSource)
        case Some(dataSource) =>
          Success(Status(s.protocol, lightEngine, playback, dataSource,
                         s.lightEngineFlags % 0x40, s.playbackFlags % 0x8,
                         s.bufferFullness, s.pointRate, s.pointCount))
  }

  function ToProtocol(s: Status): DacStatus {
    var (source, sourceFlags) := DataSourceToProtocol(s.dataSource);
    DacStatus(s.protocol, LightEngineToProtocol(s.lightEngine), PlaybackToProtocol(s.playback), source,
              s.lightEngineFlags, s.playbackFlags, sourceFlags,
              s.bufferFullness, s.pointRate, s.pointCount)
  }

  /** The DAC description both ends hold; the host keeps its copy current from the responses. */
  class DacState {
    const bufferCapacity: uint16
    const maxPointRate: uint32
    var status: Status

    constructor (bufferCapacity: uint16, maxPointRate: uint32, status: Status)
      ensures this.bufferCapacity == bufferCapacity && this.maxPointRate == maxPointRate
      ensures this.status == status
    {
      this.bufferCapacity := bufferCapacity;
      this.maxPointRate := maxPointRate;
      this.status := status;
    }

    // The fields are overwritten one by one, so a failure leaves those before it already changed.
    method UpdateStatus(s: DacStatus) returns (r: Result<(), ProtocolError>)
      modifies this
      ensures r.Success? <==> FromProtocol(s).Success?
      ensures r.Success? ==> status == FromProtocol(s).value
      ensures r.Failure? ==> r.error == FromProtocol(s).error
      ensures r.Failure? ==> status == PartlyUpdated(old(status), s, r.error)
    {
      status := status.(protocol := s.protocol);
      match LightEngineFromProtocol(s.lightEngineState) {
        case None => return Failure(UnknownLightEngineState);
        case Some(lightEngine) => status := status.(lightEngine := lightEngine);
      }
      match PlaybackFromProtocol(s.playbackState) {
        case None => return Failure(UnknownPlaybackState);
        case Some(playback) => status := status.(playback := playback);
      }
      match DataSourceFromProtocol(s.source, s.sourceFlags) {
        case None => return Failure(UnknownDataSource);
        case Some(dataSource) => status := status.(dataSource := dataSource);
      }
      status := status.(lightEngineFlags := s.lightEngineFlags % 0x40);
      status := status.(playbackFlags := s.playbackFlags % 0x8);
      status := status.(bufferFullness := s.bufferFullness);
      status := status.(pointRate := s.pointRate);
      status := status.(pointCount := s.pointCount);
      return Success(());
    }
  }

  // What a failed update leaves behind: the states that were still recognised have been taken over,
  // the point counters and flags have not.
  function PartlyUpdated(old': Status, s: DacStatus, e: ProtocolError): Status {
    var s1 := old'.(protocol := s.protocol);
    var s2 := s1.(lightEngine := LightEngineFromProtocol(s.lightEngineState).GetOr(s1.lightEngine));
    var s3 := s2.(playback := PlaybackFromProtocol(s.playbackState).GetOr(s2.playback));
    match e
    case UnknownLightEngineState => s1
    case UnknownPlaybackState => s2
    case UnknownDataSource => s3
  }

  // The mirror after a response that passed the checks, and the error if its status is unreadable.
  function Updated(old': Status, s: DacStatus): (Status, Option<ProtocolError>) {
    match FromProtocol(s)
    case Success(status) => (status, None)
    case Failure(e) => (PartlyUpdated(old', s, e), Some(e))
  }

  // The wire status with the undeclared flag bits cleared.
  function Canonical(s: DacStatus): DacStatus {
    s.(lightEngineFlags := s.lightEngineFlags % 0x40,
       playbackFlags := s.playbackFlags % 0x8,
       sourceFlags := if s.source == SOURCE_ILDA_PLAYBACK_SD then s.sourceFlags % 0x2 else 0)
  }

  // Nothing the DAC can represent is lost on the wire.
  lemma FromProtocolOfToProtocol(s: Status)
    ensures FromProtocol(ToProtocol(s)) == Success(s)
  {
    match s.dataSource {
      case IldaPlayback(flags) => assert flags % 0x2 == flags;
      case _ =>
    }
  }

  // A status is readable exactly when its three state bytes are known, and converting it back only
  // clears undeclared flags; doing so twice changes nothing more.
  lemma ToProtocolOfFromProtocol(s: DacStatus)
    ensures FromProtocol(s).Success? <==> s.lightEngineState < 4 && s.playbackState < 3 && s.source < 3
    ensures FromProtocol(s).Success? ==> ToProtocol(FromProtocol(s).value) == Canonical(s)
    ensures FromProtocol(Canonical(s)) == FromProtocol(s)
    ensures Canonical(Canonical(s)) == Canonical(s)
  {
  }

  // Two readable wire statuses mean the same exactly when they differ in undeclared flags only.
  lemma SameStatusIffSameCanonical(a: DacStatus, b: DacStatus)
    requires FromProtocol(a).Success? && FromProtocol(b).Success?
    ensures FromProtocol(a) == FromProtocol(b) <==> Canonical(a) == Canonical(b)
  {
    ToProtocolOfFromProtocol(a);
    ToProtocolOfFromProtocol(b);
  }

  // The host's view after an update never depends on what it believed before, if the update succeeds.
  lemma UpdateAfterToProtocol(mirror: Status, s: Status)
    ensures Updated(mirror, ToProtocol(s)) == (s, None)
  {
    FromProtocolOfToProtocol(s);
  }

  // The wire form carries every field under its own name, and the states by their documented numbers.
  lemma StatusOnTheWire(s: Status)
    ensures var w := ToProtocol(s);
            && w.protocol == s.protocol
            && w.lightEngineState == (match s.lightEngine
                                      case Ready => 0
                                      case Warmup => 1
                                      case Cooldown => 2
                                      case EmergencyStopped => 3)
            && w.playbackState == (match s.playback case Idle => 0 case Prepared => 1 case Playing => 2)
            && w.source == (match s.dataSource
                            case NetworkStreaming => 0
                            case IldaPlayback(_) => 1
                            case InternalAbstractGenerator => 2)
            && w.lightEngineFlags == s.lightEngineFlags && w.playbackFlags == s.playbackFlags
            && w.bufferFullness == s.bufferFullness
            && w.pointRate == s.pointRate && w.pointCount == s.pointCount
  {}

  // A status that cannot be read is taken over up to the first unknown state and no further.
  lemma UnreadableUpdate(mirror: Status, w: DacStatus)
    requires FromProtocol(w).Failure?
    ensures var (status, error) := Updated(mirror, w);
            && error == Some(FromProtocol(w).error)
            && (error == Some(UnknownLightEngineState) <==> w.lightEngineState > 3)
            && (error == Some(UnknownPlaybackState) <==> w.lightEngineState <= 3 && w.playbackState > 2)
            && status.protocol == w.protocol
            && (w.lightEngineState > 3 ==> status == mirror.(protocol := w.protocol))
            && (w.lightEngineState <= 3 ==> Some(status.lightEngine) == LightEngineFromProtocol(w.lightEngineState))
            && (w.lightEngineState <= 3 && w.playbackState > 2 ==> status.playback == mirror.playback)
            && (w.lightEngineState <= 3 && w.playbackState <= 2 ==>
                  Some(status.playback) == PlaybackFromProtocol(w.playbackState))
            && status == mirror.(protocol := status.protocol, lightEngine := status.lightEngine,
                                 playback := status.playback)
  {}
}
