/**
 The wire types and, for each, the byte layout as a function: `XBytes` is what the writer emits and
 `XAt` what the reader sees at the front of its input. The loops that produce and consume these
 bytes are in module `ProtocolIO`.
 */
module Protocol {
  import opened LittleEndian
  import opened Wrappers

  datatype DacStatus = DacStatus(
    protocol: uint8,
    lightEngineState: uint8,
    playbackState: uint8,
    source: uint8,
    lightEngineFlags: uint16,
    playbackFlags: uint16,
    sourceFlags: uint16,
    bufferFullness: uint16,
    pointRate: uint32,
    pointCount: uint32)

  datatype DacPoint = DacPoint(
    control: uint16, x: int16, y: int16,
    r: uint16, g: uint16, b: uint16,
    i: uint16, u1: uint16, u2: uint16)

  datatype DacResponse = DacResponse(response: uint8, command: uint8, dacStatus: DacStatus)

  const LIGHT_ENGINE_READY: uint8 := 0
  const LIGHT_ENGINE_WARMUP: uint8 := 1
  const LIGHT_ENGINE_COOLDOWN: uint8 := 2
  const LIGHT_ENGINE_EMERGENCY_STOP: uint8 := 3

  const PLAYBACK_IDLE: uint8 := 0
  const PLAYBACK_PREPARED: uint8 := 1
  const PLAYBACK_PLAYING: uint8 := 2

  const SOURCE_NETWORK_STREAMING: uint8 := 0
  const SOURCE_ILDA_PLAYBACK_SD: uint8 := 1
  const SOURCE_INTERNAL_ABSTRACT_GENERATOR: uint8 := 2

  const ACK: uint8 := 0x61
  const NAK_FULL: uint8 := 0x46
  const NAK_INVALID: uint8 := 0x49
  const NAK_STOP_CONDITION: uint8 := 0x21

  const STATUS_SIZE: nat := 20
  const POINT_SIZE: nat := 18
  const RESPONSE_SIZE: nat := 22
  const BEGIN_SIZE: nat := 7
  const POINT_RATE_SIZE: nat := 5

  datatype Command =
    | PrepareStream
    | Begin(lowWaterMark: uint16, pointRate: uint32)
    | PointRate(pointRate: uint32)
    | Data(points: seq<DacPoint>)
    | Stop
    | EmergencyStop
    | ClearEmergencyStop
    | Ping

  const PREPARE_STREAM_BYTE: uint8 := 0x70
  const BEGIN_BYTE: uint8 := 0x62
  const POINT_RATE_BYTE: uint8 := 0x74
  const DATA_BYTE: uint8 := 0x64
  const STOP_BYTE: uint8 := 0x73
  const EMERGENCY_STOP_BYTE: uint8 := 0x00
  const EMERGENCY_STOP_ALT_BYTE: uint8 := 0xff
  const CLEAR_EMERGENCY_STOP_BYTE: uint8 := 0x63
  const PING_BYTE: uint8 := 0x3f

  function StartByte(c: Command): uint8 {
    match c
    case PrepareStream => PREPARE_STREAM_BYTE
    case Begin(_, _) => BEGIN_BYTE
    case PointRate(_) => POINT_RATE_BYTE
    case Data(_) => DATA_BYTE
    case Stop => STOP_BYTE
    case EmergencyStop => EMERGENCY_STOP_BYTE
    case ClearEmergencyStop => CLEAR_EMERGENCY_STOP_BYTE
    case Ping => PING_BYTE
  }

  // The layouts of the fixed-size types.

  function StatusBytes(s: DacStatus): (b: Bytes)
    ensures |b| == STATUS_SIZE
  {
    [s.protocol, s.lightEngineState, s.playbackState, s.source,
     Byte0(s.lightEngineFlags), Byte1(s.lightEngineFlags),
     Byte0(s.playbackFlags), Byte1(s.playbackFlags),
     Byte0(s.sourceFlags), Byte1(s.sourceFlags),
     Byte0(s.bufferFullness), Byte1(s.bufferFullness),
     Byte0(s.pointRate), Byte1(s.pointRate), Byte2(s.pointRate), Byte3(s.pointRate),
     Byte0(s.pointCount), Byte1(s.pointCount), Byte2(s.pointCount), Byte3(s.pointCount)]
  }

  function StatusAt(b: Bytes): DacStatus
    requires |b| >= STATUS_SIZE
  {
    DacStatus(b[0], b[1], b[2], b[3],
              ToUint16(b[4], b[5]), ToUint16(b[6], b[7]),
              ToUint16(b[8], b[9]), ToUint16(b[10], b[11]),
              ToUint32(b[12], b[13], b[14], b[15]), ToUint32(b[16], b[17], b[18], b[19]))
  }

  function PointBytes(p: DacPoint): (b: Bytes)
    ensures |b| == POINT_SIZE
  {
    [Byte0(p.control), Byte1(p.control),
     Byte0(Bits(p.x)), Byte1(Bits(p.x)), Byte0(Bits(p.y)), Byte1(Bits(p.y)),
     Byte0(p.r), Byte1(p.r), Byte0(p.g), Byte1(p.g), Byte0(p.b), Byte1(p.b),
     Byte0(p.i), Byte1(p.i), Byte0(p.u1), Byte1(p.u1), Byte0(p.u2), Byte1(p.u2)]
  }

  function PointAt(b: Bytes): DacPoint
    requires |b| >= POINT_SIZE
  {
    DacPoint(ToUint16(b[0], b[1]), Signed(ToUint16(b[2], b[3])), Signed(ToUint16(b[4], b[5])),
             ToUint16(b[6], b[7]), ToUint16(b[8], b[9]), ToUint16(b[10], b[11]),
             ToUint16(b[12], b[13]), ToUint16(b[14], b[15]), ToUint16(b[16], b[17]))
  }

  function ResponseBytes(r: DacResponse): (b: Bytes)
    ensures |b| == RESPONSE_SIZE
  {
    [r.response, r.command] + StatusBytes(r.dacStatus)
  }

  function ResponseAt(b: Bytes): DacResponse
    requires |b| >= RESPONSE_SIZE
  {
    DacResponse(b[0], b[1], StatusAt(b[2..]))
  }

  function ResponsesBytes(rs: seq<DacResponse>): (b: Bytes)
    ensures |b| == RESPONSE_SIZE * |rs|
  {
    if rs == [] then [] else ResponseBytes(rs[0]) + ResponsesBytes(rs[1..])
  }

  // Point lists.

  function PointsBytes(ps: seq<DacPoint>): (b: Bytes)
    ensures |b| == POINT_SIZE * |ps|
  {
    if ps == [] then [] else PointBytes(ps[0]) + PointsBytes(ps[1..])
  }

  function PointsAt(b: Bytes, n: nat): (ps: seq<DacPoint>)
    requires |b| >= POINT_SIZE * n
    ensures |ps| == n
    decreases n
  {
    if n == 0 then [] else [PointAt(b)] + PointsAt(b[POINT_SIZE..], n - 1)
  }

  // Commands.

  // `Data` carries its point count in 16 bits; the writer refuses longer payloads.
  predicate Sendable(c: Command) {
    c.Data? ==> |c.points| < 0x1_0000
  }

  function Size(c: Command): nat {
    match c
    case Begin(_, _) => BEGIN_SIZE
    case PointRate(_) => POINT_RATE_SIZE
    case Data(ps) => 3 + POINT_SIZE * |ps|
    case _ => 1
  }

  function CommandBytes(c: Command): (b: Bytes)
    requires Sendable(c)
    ensures |b| == Size(c)
  {
    [StartByte(c)] +
    match c
    case Begin(low, rate) => [Byte0(low), Byte1(low), Byte0(rate), Byte1(rate), Byte2(rate), Byte3(rate)]
    case PointRate(rate) => [Byte0(rate), Byte1(rate), Byte2(rate), Byte3(rate)]
    case Data(ps) => [Byte0(|ps|), Byte1(|ps|)] + PointsBytes(ps)
    case _ => []
  }

  function CommandsBytes(cs: seq<Command>): Bytes
    requires forall c <- cs :: Sendable(c)
  {
    if cs == [] then [] else CommandBytes(cs[0]) + CommandsBytes(cs[1..])
  }

  datatype ReadError = UnexpectedEof | InvalidData

  datatype Parse = Parsed(command: Command, size: nat) | Failed(error: ReadError)

  // The payload of a `Data` command whose header announced `n` points.
  function ParsePoints(n: uint16, payload: Bytes): Parse {
    if |payload| < POINT_SIZE * n then Failed(UnexpectedEof)
    else Parsed(Data(PointsAt(payload, n)), 3 + POINT_SIZE * n)
  }

  // What the runtime command reader makes of the bytes in front of it.
  function ParseCommand(b: Bytes): Parse {
    if |b| == 0 then Failed(UnexpectedEof)
    else if b[0] == PREPARE_STREAM_BYTE then Parsed(PrepareStream, 1)
    else if b[0] == BEGIN_BYTE then
      if |b| < BEGIN_SIZE then Failed(UnexpectedEof)
      else Parsed(Begin(ToUint16(b[1], b[2]), ToUint32(b[3], b[4], b[5], b[6])), BEGIN_SIZE)
    else if b[0] == POINT_RATE_BYTE then
      if |b| < POINT_RATE_SIZE then Failed(UnexpectedEof)
      else Parsed(PointRate(ToUint32(b[1], b[2], b[3], b[4])), POINT_RATE_SIZE)
    else if b[0] == DATA_BYTE then
      if |b| < 3 then Failed(UnexpectedEof) else ParsePoints(ToUint16(b[1], b[2]), b[3..])
    else if b[0] == STOP_BYTE then Parsed(Stop, 1)
    else if b[0] == EMERGENCY_STOP_BYTE || b[0] == EMERGENCY_STOP_ALT_BYTE then Parsed(EmergencyStop, 1)
    else if b[0] == CLEAR_EMERGENCY_STOP_BYTE then Parsed(ClearEmergencyStop, 1)
    else if b[0] == PING_BYTE then Parsed(Ping, 1)
    else Failed(InvalidData)
  }

  // The other decoder: one reader for each command type, which checks the start byte itself. The
  // emulator picks the type from a peeked byte and then calls its reader.

  datatype Kind =
    | PrepareStreamKind
    | BeginKind
    | PointRateKind
    | DataKind
    | StopKind
    | EmergencyStopKind
    | ClearEmergencyStopKind
    | PingKind

  function KindOf(c: Command): Kind {
    match c
    case PrepareStream => PrepareStreamKind
    case Begin(_, _) => BeginKind
    case PointRate(_) => PointRateKind
    case Data(_) => DataKind
    case Stop => StopKind
    case EmergencyStop => EmergencyStopKind
    case ClearEmergencyStop => ClearEmergencyStopKind
    case Ping => PingKind
  }

  function KindByte(k: Kind): uint8 {
    match k
    case PrepareStreamKind => PREPARE_STREAM_BYTE
    case BeginKind => BEGIN_BYTE
    case PointRateKind => POINT_RATE_BYTE
    case DataKind => DATA_BYTE
    case StopKind => STOP_BYTE
    case EmergencyStopKind => EMERGENCY_STOP_BYTE
    case ClearEmergencyStopKind => CLEAR_EMERGENCY_STOP_BYTE
    case PingKind => PING_BYTE
  }

  // The type the emulator picks for a peeked byte: it does not know the alternative emergency stop.
  function PeekedKind(start: uint8): Option<Kind> {
    if start == PREPARE_STREAM_BYTE then Some(PrepareStreamKind)
    else if start == BEGIN_BYTE then Some(BeginKind)
    else if start == POINT_RATE_BYTE then Some(PointRateKind)
    else if start == DATA_BYTE then Some(DataKind)
    else if start == STOP_BYTE then Some(StopKind)
    else if start == EMERGENCY_STOP_BYTE then Some(EmergencyStopKind)
    else if start == CLEAR_EMERGENCY_STOP_BYTE then Some(ClearEmergencyStopKind)
    else if start == PING_BYTE then Some(PingKind)
    else None
  }

  // Only the emergency stop has a second start byte.
  predicate AcceptsStart(k: Kind, start: uint8) {
    start == KindByte(k) || (k.EmergencyStopKind? && start == EMERGENCY_STOP_ALT_BYTE)
  }

  // The fields of a command, its start byte already read. The size counts that byte.
  function ParseFields(k: Kind, fields: Bytes): Parse {
    match k
    case BeginKind =>
      if |fields| < 6 then Failed(UnexpectedEof)
      else Parsed(Begin(ToUint16(fields[0], fields[1]), ToUint32(fields[2], fields[3], fields[4], fields[5])), 7)
    case PointRateKind =>
      if |fields| < 4 then Failed(UnexpectedEof)
      else Parsed(PointRate(ToUint32(fields[0], fields[1], fields[2], fields[3])), 5)
    case DataKind =>
      if |fields| < 2 then Failed(UnexpectedEof) else ParsePoints(ToUint16(fields[0], fields[1]), fields[2..])
    case PrepareStreamKind => Parsed(PrepareStream, 1)
    case StopKind => Parsed(Stop, 1)
    case EmergencyStopKind => Parsed(EmergencyStop, 1)
    case ClearEmergencyStopKind => Parsed(ClearEmergencyStop, 1)
    case PingKind => Parsed(Ping, 1)
  }

  function ParseAs(k: Kind, b: Bytes): Parse {
    if |b| == 0 then Failed(UnexpectedEof)
    else if !AcceptsStart(k, b[0]) then Failed(InvalidData)
    else ParseFields(k, b[1..])
  }

  // The two decoders are one: a type's reader succeeds exactly when the runtime reader yields a command
  // of that type, with the same command and size; and at the start byte of its type it fails as the
  // runtime reader does.
  lemma DecodersAgree(k: Kind, b: Bytes)
    ensures ParseAs(k, b).Parsed? <==> ParseCommand(b).Parsed? && KindOf(ParseCommand(b).command) == k
    ensures ParseAs(k, b).Parsed? ==> ParseAs(k, b) == ParseCommand(b)
    ensures b != [] && AcceptsStart(k, b[0]) ==> ParseAs(k, b) == ParseCommand(b)
  {
    if b != [] && AcceptsStart(k, b[0]) {
      var fields := b[1..];
      assert forall i | 0 <= i < |fields| :: fields[i] == b[i + 1];
      if |b| >= 3 {
        assert fields[2..] == b[3..];
      }
    }
  }

  // A start byte is unknown to the runtime reader exactly when no type's reader takes it, and no two
  // types take the same one.
  lemma StartByteDecidesKind(b: Bytes)
    requires b != []
    ensures ParseCommand(b) == Failed(InvalidData) <==> forall k :: ParseAs(k, b) == Failed(InvalidData)
    ensures forall k, k' | AcceptsStart(k, b[0]) && AcceptsStart(k', b[0]) :: k == k'
  {
    forall k
      ensures ParseAs(k, b) == Failed(InvalidData) <==> !AcceptsStart(k, b[0])
    {
      DecodersAgree(k, b);
    }
    if ParseCommand(b) != Failed(InvalidData) {
      assert AcceptsStart(PeekedKind(b[0]).GetOr(EmergencyStopKind), b[0]);
    }
  }

  // Both directions of every codec: reading back what was written gives the value, and writing back
  // what was read gives the bytes.

  lemma StatusRoundTrip(s: DacStatus, rest: Bytes)
    ensures StatusAt(StatusBytes(s) + rest) == s
  {
    Uint16RoundTrip(s.lightEngineFlags);
    Uint16RoundTrip(s.playbackFlags);
    Uint16RoundTrip(s.sourceFlags);
    Uint16RoundTrip(s.bufferFullness);
    Uint32RoundTrip(s.pointRate);
    Uint32RoundTrip(s.pointCount);
  }

  lemma StatusReprint(b: Bytes)
    requires |b| >= STATUS_SIZE
    ensures StatusBytes(StatusAt(b)) == b[..STATUS_SIZE]
  {
    Uint16Injective(b[4], b[5]);
    Uint16Injective(b[6], b[7]);
    Uint16Injective(b[8], b[9]);
    Uint16Injective(b[10], b[11]);
    Uint32Injective(b[12], b[13], b[14], b[15]);
    Uint32Injective(b[16], b[17], b[18], b[19]);
  }

  lemma PointRoundTrip(p: DacPoint, rest: Bytes)
    ensures PointAt(PointBytes(p) + rest) == p
  {
    Uint16RoundTrip(p.control);
    Uint16RoundTrip(Bits(p.x));
    Uint16RoundTrip(Bits(p.y));
    Uint16RoundTrip(p.r);
    Uint16RoundTrip(p.g);
    Uint16RoundTrip(p.b);
    Uint16RoundTrip(p.i);
    Uint16RoundTrip(p.u1);
    Uint16RoundTrip(p.u2);
  }

  lemma PointReprint(b: Bytes)
    requires |b| >= POINT_SIZE
    ensures PointBytes(PointAt(b)) == b[..POINT_SIZE]
  {
    Uint16Injective(b[0], b[1]);
    Uint16Injective(b[2], b[3]);
    Uint16Injective(b[4], b[5]);
    Uint16Injective(b[6], b[7]);
    Uint16Injective(b[8], b[9]);
    Uint16Injective(b[10], b[11]);
    Uint16Injective(b[12], b[13]);
    Uint16Injective(b[14], b[15]);
    Uint16Injective(b[16], b[17]);
  }

  lemma ResponseAtStep(response: uint8, command: uint8, tail: Bytes)
    requires |tail| >= STATUS_SIZE
    ensures ResponseAt([response, command] + tail) == DacResponse(response, command, StatusAt(tail))
  {
    assert ([response, command] + tail)[2..] == tail;
  }

  lemma ResponseRoundTrip(r: DacResponse, rest: Bytes)
    ensures ResponseAt(ResponseBytes(r) + rest) == r
  {
    StatusRoundTrip(r.dacStatus, rest);
    ResponseAtStep(r.response, r.command, StatusBytes(r.dacStatus) + rest);
    assert ResponseBytes(r) + rest == [r.response, r.command] + (StatusBytes(r.dacStatus) + rest);
  }

  lemma ResponseReprint(b: Bytes)
    requires |b| >= RESPONSE_SIZE
    ensures ResponseBytes(ResponseAt(b)) == b[..RESPONSE_SIZE]
  {
    StatusReprint(b[2..]);
    assert b[..RESPONSE_SIZE] == [b[0], b[1]] + b[2..][..STATUS_SIZE];
  }

  lemma PointsAtStep(head: Bytes, tail: Bytes, n: nat)
    requires |head| == POINT_SIZE && |tail| >= POINT_SIZE * n
    ensures PointsAt(head + tail, n + 1) == [PointAt(head + tail)] + PointsAt(tail, n)
  {
    assert (head + tail)[POINT_SIZE..] == tail;
  }

  lemma {:induction false} PointsRoundTrip(ps: seq<DacPoint>, rest: Bytes)
    ensures PointsAt(PointsBytes(ps) + rest, |ps|) == ps
  {
    if ps != [] {
      var head := PointBytes(ps[0]);
      var tail := PointsBytes(ps[1..]);
      PointRoundTrip(ps[0], tail + rest);
      PointsRoundTrip(ps[1..], rest);
      PointsAtStep(head, tail + rest, |ps| - 1);
      assert PointsBytes(ps) + rest == head + (tail + rest);
    }
  }

  lemma TakeSplits(b: Bytes, m: nat, n: nat)
    requires |b| >= m + n
    ensures b[..m + n] == b[..m] + b[m..][..n]
  {}

  lemma PointsBytesStep(p: DacPoint, ps: seq<DacPoint>)
    ensures PointsBytes([p] + ps) == PointBytes(p) + PointsBytes(ps)
  {
    assert ([p] + ps)[1..] == ps;
  }

  lemma {:induction false} PointsReprint(b: Bytes, n: nat)
    requires |b| >= POINT_SIZE * n
    ensures PointsBytes(PointsAt(b, n)) == b[..POINT_SIZE * n]
    decreases n
  {
    if n != 0 {
      var rest := b[POINT_SIZE..];
      PointReprint(b);
      PointsReprint(rest, n - 1);
      TakeSplits(b, POINT_SIZE, POINT_SIZE * (n - 1));
      PointsBytesStep(PointAt(b), PointsAt(rest, n - 1));
    }
  }

  lemma BytesBeginWithStart(c: Command, rest: Bytes)
    requires Sendable(c)
    ensures CommandBytes(c) + rest != [] && (CommandBytes(c) + rest)[0] == StartByte(c)
  {}

  function DataHeaderBytes(n: uint16): Bytes { [DATA_BYTE, Byte0(n), Byte1(n)] }

  lemma HeaderJoins(start: uint8, low: uint8, high: uint8, body: Bytes, rest: Bytes)
    ensures ([start] + ([low, high] + body)) + rest == [start, low, high] + (body + rest)
  {}

  lemma DataBytes(points: seq<DacPoint>, rest: Bytes)
    requires Sendable(Data(points))
    ensures CommandBytes(Data(points)) + rest == DataHeaderBytes(|points|) + (PointsBytes(points) + rest)
  {
    HeaderJoins(DATA_BYTE, Byte0(|points|), Byte1(|points|), PointsBytes(points), rest);
  }

  // The numeric payloads, so that the two lemmas below only do case analysis.
  lemma BeginLayout(low: uint16, rate: uint32, rest: Bytes)
    ensures ParseCommand(CommandBytes(Begin(low, rate)) + rest) == Parsed(Begin(low, rate), BEGIN_SIZE)
  {
    Uint16RoundTrip(low);
    Uint32RoundTrip(rate);
    var b := CommandBytes(Begin(low, rate)) + rest;
    assert b == [BEGIN_BYTE, Byte0(low), Byte1(low), Byte0(rate), Byte1(rate), Byte2(rate), Byte3(rate)] + rest;
  }

  lemma PointRateLayout(rate: uint32, rest: Bytes)
    ensures ParseCommand(CommandBytes(PointRate(rate)) + rest) == Parsed(PointRate(rate), POINT_RATE_SIZE)
  {
    Uint32RoundTrip(rate);
    var b := CommandBytes(PointRate(rate)) + rest;
    assert b == [POINT_RATE_BYTE, Byte0(rate), Byte1(rate), Byte2(rate), Byte3(rate)] + rest;
  }

  lemma DataHeader(n: uint16, payload: Bytes)
    ensures ParseCommand(DataHeaderBytes(n) + payload) == ParsePoints(n, payload)
  {
    var b := DataHeaderBytes(n) + payload;
    assert b[3..] == payload;
    Uint16RoundTrip(n);
  }

  lemma DataLayout(ps: seq<DacPoint>, rest: Bytes)
    requires Sendable(Data(ps))
    ensures ParseCommand(CommandBytes(Data(ps)) + rest) == Parsed(Data(ps), Size(Data(ps)))
  {
    DataBytes(ps, rest);
    DataHeader(|ps|, PointsBytes(ps) + rest);
    PointsRoundTrip(ps, rest);
  }

  // Parsing what was printed gives the command back, whatever bytes follow it.
  lemma ParseOfPrint(c: Command, rest: Bytes)
    requires Sendable(c)
    ensures ParseCommand(CommandBytes(c) + rest) == Parsed(c, Size(c))
  {
    match c {
      case Begin(low, rate) => BeginLayout(low, rate, rest);
      case PointRate(rate) => PointRateLayout(rate, rest);
      case Data(ps) => DataLayout(ps, rest);
      case _ => assert CommandBytes(c) + rest == [StartByte(c)] + rest;
    }
  }

  lemma DataReprint(b: Bytes)
    requires |b| >= 3 && |b| >= 3 + POINT_SIZE * ToUint16(b[1], b[2]) && b[0] == DATA_BYTE
    ensures var n := ToUint16(b[1], b[2]);
            CommandBytes(Data(PointsAt(b[3..], n))) == b[..3 + POINT_SIZE * n]
  {
    var n := ToUint16(b[1], b[2]);
    var ps := PointsAt(b[3..], n);
    Uint16Injective(b[1], b[2]);
    PointsReprint(b[3..], n);
    TakeSplits(b, 3, POINT_SIZE * n);
    assert b[..3] == [b[0], b[1], b[2]] == DataHeaderBytes(n);
    DataBytes(ps, []);
    assert CommandBytes(Data(ps)) + [] == CommandBytes(Data(ps)) && PointsBytes(ps) + [] == PointsBytes(ps);
  }

  // Printing what was parsed gives back exactly the bytes consumed, save that the alternative
  // emergency-stop byte is normalised to the primary one.
  lemma PrintOfParse(b: Bytes)
    requires ParseCommand(b).Parsed?
    ensures var Parsed(c, n) := ParseCommand(b);
            && Sendable(c)
            && 1 <= n <= |b|
            && n == Size(c)
            && CommandBytes(c) ==
               (if b[0] == EMERGENCY_STOP_ALT_BYTE then [EMERGENCY_STOP_BYTE] else b[..n])
  {
    if b[0] == BEGIN_BYTE {
      Uint16Injective(b[1], b[2]);
      Uint32Injective(b[3], b[4], b[5], b[6]);
      assert b[..BEGIN_SIZE] == [b[0], b[1], b[2], b[3], b[4], b[5], b[6]];
    } else if b[0] == POINT_RATE_BYTE {
      Uint32Injective(b[1], b[2], b[3], b[4]);
      assert b[..POINT_RATE_SIZE] == [b[0], b[1], b[2], b[3], b[4]];
    } else if b[0] == DATA_BYTE {
      DataReprint(b);
    } else {
      assert b[..1] == [b[0]];
    }
  }

  // The layouts as the protocol documents them: which byte stands for what, and where each field lies.

  lemma CodesAreDocumented()
    ensures ACK == 'a' as int && NAK_FULL == 'F' as int && NAK_INVALID == 'I' as int
    ensures NAK_STOP_CONDITION == '!' as int
    ensures EMERGENCY_STOP_ALT_BYTE == 0xff
  {}

  lemma StartByteIsDocumented(c: Command)
    ensures StartByte(c) == match c
                            case PrepareStream => 'p' as int
                            case Begin(_, _) => 'b' as int
                            case PointRate(_) => 't' as int
                            case Data(_) => 'd' as int
                            case Stop => 's' as int
                            case EmergencyStop => 0
                            case ClearEmergencyStop => 'c' as int
                            case Ping => '?' as int
  {}

  // The field at this offset, low byte first.
  predicate Holds16(b: Bytes, offset: nat, x: uint16) {
    offset + 2 <= |b| && b[offset] as int + 0x100 * b[offset + 1] as int == x
  }

  predicate Holds32(b: Bytes, offset: nat, x: uint32) {
    && offset + 4 <= |b|
    && b[offset] as int + 0x100 * b[offset + 1] as int
       + 0x1_0000 * b[offset + 2] as int + 0x100_0000 * b[offset + 3] as int == x
  }

  lemma StatusLayout(s: DacStatus)
    ensures var b := StatusBytes(s);
            && |b| == 20
            && b[0] == s.protocol && b[1] == s.lightEngineState && b[2] == s.playbackState && b[3] == s.source
            && Holds16(b, 4, s.lightEngineFlags) && Holds16(b, 6, s.playbackFlags)
            && Holds16(b, 8, s.sourceFlags) && Holds16(b, 10, s.bufferFullness)
            && Holds32(b, 12, s.pointRate) && Holds32(b, 16, s.pointCount)
  {
    var b := StatusBytes(s);
    Field16(b, 4, s.lightEngineFlags);
    Field16(b, 6, s.playbackFlags);
    Field16(b, 8, s.sourceFlags);
    Field16(b, 10, s.bufferFullness);
    Field32(b, 12, s.pointRate);
    Field32(b, 16, s.pointCount);
  }

  lemma Field16(b: Bytes, offset: nat, x: uint16)
    requires offset + 2 <= |b| && b[offset] == Byte0(x) && b[offset + 1] == Byte1(x)
    ensures Holds16(b, offset, x)
  {}

  lemma Field32(b: Bytes, offset: nat, x: uint32)
    requires offset + 4 <= |b| && b[offset] == Byte0(x) && b[offset + 1] == Byte1(x)
    requires b[offset + 2] == Byte2(x) && b[offset + 3] == Byte3(x)
    ensures Holds32(b, offset, x)
  {
    Uint32RoundTrip(x);
  }

  // Signed coordinates are in two's complement.
  lemma PointLayout(p: DacPoint)
    ensures var b := PointBytes(p);
            && |b| == 18
            && Holds16(b, 0, p.control)
            && Holds16(b, 2, if p.x < 0 then 0x1_0000 + p.x else p.x)
            && Holds16(b, 4, if p.y < 0 then 0x1_0000 + p.y else p.y)
            && Holds16(b, 6, p.r) && Holds16(b, 8, p.g) && Holds16(b, 10, p.b)
            && Holds16(b, 12, p.i) && Holds16(b, 14, p.u1) && Holds16(b, 16, p.u2)
  {
    var b := PointBytes(p);
    Field16(b, 0, p.control);
    Field16(b, 2, Bits(p.x));
    Field16(b, 4, Bits(p.y));
    Field16(b, 6, p.r);
    Field16(b, 8, p.g);
    Field16(b, 10, p.b);
    Field16(b, 12, p.i);
    Field16(b, 14, p.u1);
    Field16(b, 16, p.u2);
  }

  lemma ResponseLayout(r: DacResponse)
    ensures var b := ResponseBytes(r);
            |b| == 22 && b[0] == r.response && b[1] == r.command && b[2..] == StatusBytes(r.dacStatus)
  {}

  lemma {:induction false} PointsLayout(ps: seq<DacPoint>, i: nat)
    requires i < |ps|
    ensures |PointsBytes(ps)| == 18 * |ps|
    ensures PointsBytes(ps)[18 * i..18 * (i + 1)] == PointBytes(ps[i])
    decreases i
  {
    var head, tail := PointBytes(ps[0]), PointsBytes(ps[1..]);
    if i > 0 {
      PointsLayout(ps[1..], i - 1);
      assert (head + tail)[18 * i..18 * (i + 1)] == tail[18 * (i - 1)..18 * i];
    }
  }

  lemma DataFields(n: uint16, body: Bytes, b: Bytes)
    requires b + [] == DataHeaderBytes(n) + (body + [])
    ensures Holds16(b, 1, n) && b[3..] == body
  {
    assert b + [] == b && body + [] == body;
    Field16(b, 1, n);
  }

  lemma CommandLayout(c: Command)
    requires Sendable(c)
    ensures var b := CommandBytes(c);
            && |b| >= 1 && b[0] == StartByte(c)
            && match c
               case Begin(low, rate) => |b| == 7 && Holds16(b, 1, low) && Holds32(b, 3, rate)
               case PointRate(rate) => |b| == 5 && Holds32(b, 1, rate)
               case Data(ps) => |b| == 3 + 18 * |ps| && Holds16(b, 1, |ps|) && b[3..] == PointsBytes(ps)
               case _ => |b| == 1
  {
    var b := CommandBytes(c);
    match c {
      case Begin(low, rate) =>
        Field16(b, 1, low);
        Field32(b, 3, rate);
      case PointRate(rate) => Field32(b, 1, rate);
      case Data(ps) =>
        DataBytes(ps, []);
        DataFields(|ps|, PointsBytes(ps), b);
      case _ =>
    }
  }
}
