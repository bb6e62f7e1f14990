/** The host's side: queueing commands, submitting them at once, and taking in the responses. */
module Client {
  import opened LittleEndian
  import opened Protocol
  import opened ProtocolIO
  import opened Tcp
  import opened Dac
  import opened Wrappers

  // The command queue.

  datatype QueuedCommand =
    | QueuedPrepareStream
    | QueuedBegin(lowWaterMark: uint16, pointRate: uint32)
    | QueuedPointRate(pointRate: uint32)
    | QueuedData(start: nat, end: nat)   // a range of the shared point buffer
    | QueuedStop
    | QueuedEmergencyStop
    | QueuedClearEmergencyStop
    | QueuedPing

  datatype Queue = Queue(commands: seq<QueuedCommand>, points: seq<DacPoint>)

  const EMPTY_QUEUE := Queue([], [])

  predicate InRange(q: QueuedCommand, n: nat) {
    q.QueuedData? ==> q.start <= q.end <= n && q.end - q.start < 0xffff
  }

  // The data ranges of the queue, taken in order, cover the first `n` points without gap or overlap.
  predicate Tiles(qs: seq<QueuedCommand>, n: nat)
    ensures Tiles(qs, n) ==> forall q <- qs :: InRange(q, n)
    decreases |qs|
  {
    if qs == [] then n == 0
    else
      var last := qs[|qs| - 1];
      var before := qs[..|qs| - 1];
      assert qs == before + [last];
      match last
      case QueuedData(start, end) => start <= end == n && end - start < 0xffff && Tiles(before, start)
      case _ => Tiles(before, n)
  }

  function Resolve(q: QueuedCommand, points: seq<DacPoint>): (c: Command)
    requires InRange(q, |points|)
    ensures Sendable(c)
  {
    match q
    case QueuedPrepareStream => PrepareStream
    case QueuedBegin(low, rate) => Begin(low, rate)
    case QueuedPointRate(rate) => PointRate(rate)
    case QueuedData(start, end) => Data(points[start..end])
    case QueuedStop => Stop
    case QueuedEmergencyStop => EmergencyStop
    case QueuedClearEmergencyStop => ClearEmergencyStop
    case QueuedPing => Ping
  }

  // Every kind of queued command is sent under its own start byte.
  lemma QueuedStartByte(q: QueuedCommand, points: seq<DacPoint>)
    requires InRange(q, |points|)
    ensures StartByte(Resolve(q, points)) == match q
                                             case QueuedPrepareStream => 'p' as int
                                             case QueuedBegin(_, _) => 'b' as int
                                             case QueuedPointRate(_) => 't' as int
                                             case QueuedData(_, _) => 'd' as int
                                             case QueuedStop => 's' as int
                                             case QueuedEmergencyStop => 0
                                             case QueuedClearEmergencyStop => 'c' as int
                                             case QueuedPing => '?' as int
  {}

  // The commands a queue stands for.
  function Resolved(qs: seq<QueuedCommand>, points: seq<DacPoint>): (cs: seq<Command>)
    requires forall q <- qs :: InRange(q, |points|)
    ensures |cs| == |qs|
    ensures forall c <- cs :: Sendable(c)
  {
    if qs == [] then [] else [Resolve(qs[0], points)] + Resolved(qs[1..], points)
  }

  // The calls a user of the queue can make.
  datatype Call =
    | CallPrepareStream
    | CallBegin(lowWaterMark: uint16, pointRate: uint32)
    | CallPointRate(pointRate: uint32)
    | CallData(points: seq<DacPoint>)
    | CallStop
    | CallEmergencyStop
    | CallClearEmergencyStop
    | CallPing

  // A call, or nothing where the program panics on a payload of 65535 points or more. The calls for an
  // emergency stop and for clearing one queue an ordinary stop, as the program does.
  function Enqueue(q: Queue, call: Call): Option<Queue> {
    match call
    case CallPrepareStream => Some(q.(commands := q.commands + [QueuedPrepareStream]))
    case CallBegin(low, rate) => Some(q.(commands := q.commands + [QueuedBegin(low, rate)]))
    case CallPointRate(rate) => Some(q.(commands := q.commands + [QueuedPointRate(rate)]))
    case CallData(points) =>
      if |points| >= 0xffff then None
      else
        Some(Queue(q.commands + [QueuedData(|q.points|, |q.points| + |points|)], q.points + points))
    case CallStop => Some(q.(commands := q.commands + [QueuedStop]))
    case CallEmergencyStop => Some(q.(commands := q.commands + [QueuedStop]))
    case CallClearEmergencyStop => Some(q.(commands := q.commands + [QueuedStop]))
    case CallPing => Some(q.(commands := q.commands + [QueuedPing]))
  }

  function Build(q: Queue, calls: seq<Call>): Option<Queue>
    decreases |calls|
  {
    if calls == [] then Some(q)
    else
      match Enqueue(q, calls[0])
      case None => None
      case Some(q') => Build(q', calls[1..])
  }

  // The command each call is named after, and the one it is sent as.
  function Named(call: Call): Command {
    match call
    case CallPrepareStream => PrepareStream
    case CallBegin(low, rate) => Begin(low, rate)
    case CallPointRate(rate) => PointRate(rate)
    case CallData(points) => Data(points)
    case CallStop => Stop
    case CallEmergencyStop => EmergencyStop
    case CallClearEmergencyStop => ClearEmergencyStop
    case CallPing => Ping
  }

  function AllNamed(calls: seq<Call>): seq<Command> {
    if calls == [] then [] else [Named(calls[0])] + AllNamed(calls[1..])
  }

  function SentAs(call: Call): Command {
    match call
    case CallPrepareStream => PrepareStream
    case CallBegin(low, rate) => Begin(low, rate)
    case CallPointRate(rate) => PointRate(rate)
    case CallData(points) => Data(points)
    case CallStop => Stop
    case CallEmergencyStop => Stop
    case CallClearEmergencyStop => Stop
    case CallPing => Ping
  }

  function AllSentAs(calls: seq<Call>): seq<Command> {
    if calls == [] then [] else [SentAs(calls[0])] + AllSentAs(calls[1..])
  }

  // The points carried by a command, and by a list of them.
  function Carried(c: Command): seq<DacPoint> { if c.Data? then c.points else [] }

  function Payload(cs: seq<Command>): seq<DacPoint> {
    if cs == [] then [] else Carried(cs[0]) + Payload(cs[1..])
  }

  predicate WellQueued(q: Queue) { Tiles(q.commands, |q.points|) }

  function Commands(q: Queue): seq<Command>
    requires WellQueued(q)
  {
    Resolved(q.commands, q.points)
  }

  // Later points do not disturb the ranges already queued.
  lemma {:induction false} ResolvedStable(qs: seq<QueuedCommand>, q: QueuedCommand, points: seq<DacPoint>,
                                          more: seq<DacPoint>)
    requires forall x <- qs :: InRange(x, |points|)
    requires InRange(q, |points + more|)
    ensures forall x <- qs + [q] :: InRange(x, |points + more|)
    ensures Resolved(qs + [q], points + more) == Resolved(qs, points) + [Resolve(q, points + more)]
    decreases |qs|
  {
    if qs == [] {
      assert qs + [q] == [q];
      assert Resolved([q][1..], points + more) == [];
    } else {
      assert (qs + [q])[1..] == qs[1..] + [q];
      ResolvedStable(qs[1..], q, points, more);
      assert qs[0] in qs && InRange(qs[0], |points|);
      assert Resolve(qs[0], points + more) == Resolve(qs[0], points);
    }
  }

  lemma EnqueueTiles(q: Queue, call: Call)
    requires WellQueued(q) && Enqueue(q, call).Some?
    ensures var q' := Enqueue(q, call).value;
            WellQueued(q') && Commands(q') == Commands(q) + [SentAs(call)]
  {
    var q' := Enqueue(q, call).value;
    var added := q'.commands[|q.commands|];
    assert q'.commands == q.commands + [added];
    assert q'.commands[..|q'.commands| - 1] == q.commands;
    var more := q'.points[|q.points|..];
    assert q'.points == q.points + more;
    assert Resolve(added, q'.points) == SentAs(call) by {
      if call.CallData? {
        assert q'.points[added.start..added.end] == call.points;
      }
    }
    ResolvedStable(q.commands, added, q.points, more);
  }

  // Builder tiling: any sequence of calls queues the commands the calls are sent as, in order, over
  // ranges that tile the point buffer; it fails exactly when some payload is too long.
  lemma {:induction false} BuilderTiling(q: Queue, calls: seq<Call>)
    requires WellQueued(q)
    ensures Build(q, calls).None? <==> exists call <- calls :: call.CallData? && |call.points| >= 0xffff
    ensures Build(q, calls).Some? ==>
      var q' := Build(q, calls).value;
      && WellQueued(q')
      && Commands(q') == Commands(q) + AllSentAs(calls)
    decreases |calls|
  {
    if calls == [] {
      assert Commands(q) + [] == Commands(q);
    } else {
      var next := Enqueue(q, calls[0]);
      if next.Some? {
        EnqueueTiles(q, calls[0]);
        BuilderTiling(next.value, calls[1..]);
        var rest := AllSentAs(calls[1..]);
        assert Commands(q) + [SentAs(calls[0])] + rest == Commands(q) + ([SentAs(calls[0])] + rest);
        assert calls == [calls[0]] + calls[1..];
      } else {
        assert calls[0] in calls;
      }
    }
  }

  predicate AboutEmergencyStop(call: Call) { call.CallEmergencyStop? || call.CallClearEmergencyStop? }

  // What is sent is what the calls are named after exactly when none of them is about the emergency
  // stop; and no call ever sends an emergency stop or clears one.
  lemma {:induction false} SentAsNamedIff(calls: seq<Call>)
    ensures AllSentAs(calls) == AllNamed(calls) <==> forall call <- calls :: !AboutEmergencyStop(call)
    ensures EmergencyStop !in AllSentAs(calls) && ClearEmergencyStop !in AllSentAs(calls)
  {
    if calls != [] {
      SentAsNamedIff(calls[1..]);
      var sent, named := AllSentAs(calls), AllNamed(calls);
      assert sent[1..] == AllSentAs(calls[1..]) && named[1..] == AllNamed(calls[1..]);
      assert sent == [sent[0]] + sent[1..] && named == [named[0]] + named[1..];
      assert sent[0] == named[0] <==> !AboutEmergencyStop(calls[0]);
      assert forall call :: call in calls <==> call == calls[0] || call in calls[1..];
    }
  }

  lemma PayloadStep(c: Command, cs: seq<Command>)
    ensures Payload([c] + cs) == Carried(c) + Payload(cs)
  {
    assert ([c] + cs)[1..] == cs;
  }

  lemma {:induction false} PayloadAppend(cs: seq<Command>, c: Command)
    ensures Payload(cs + [c]) == Payload(cs) + Carried(c)
    decreases |cs|
  {
    if cs == [] {
      assert cs + [c] == [c] + [];
      PayloadStep(c, []);
      assert Carried(c) + [] == [] + Carried(c);
    } else {
      var tail := cs[1..];
      assert cs == [cs[0]] + tail && cs + [c] == [cs[0]] + (tail + [c]);
      PayloadStep(cs[0], tail);
      PayloadStep(cs[0], tail + [c]);
      PayloadAppend(tail, c);
    }
  }

  // What a tiled queue sends is its whole point buffer, each point once and in order.
  lemma {:induction false} QueueSendsWholeBuffer(qs: seq<QueuedCommand>, points: seq<DacPoint>)
    requires Tiles(qs, |points|)
    ensures Payload(Resolved(qs, points)) == points
    decreases |qs|
  {
    if qs != [] {
      var last := qs[|qs| - 1];
      var before := qs[..|qs| - 1];
      assert qs == before + [last];
      var start := if last.QueuedData? then last.start else |points|;
      assert points == points[..start] + points[start..];
      ResolvedStable(before, last, points[..start], points[start..]);
      QueueSendsWholeBuffer(before, points[..start]);
      PayloadAppend(Resolved(before, points[..start]), Resolve(last, points));
    }
  }

  // Responses.

  datatype Nak = Full | Invalid | StopCondition

  function NakFromProtocol(b: uint8): Option<Nak> {
    if b == NAK_FULL then Some(Full)
    else if b == NAK_INVALID then Some(Invalid)
    else if b == NAK_STOP_CONDITION then Some(StopCondition)
    else None
  }

  datatype ResponseErrorKind = UnexpectedCommand(command: uint8) | Refused(nak: Nak)

  datatype CommunicationError =
    | Io
    | Unreadable(error: ProtocolError)
    | BadResponse(response: DacResponse, kind: ResponseErrorKind)

  type Outcome = Result<(), CommunicationError>

  function CheckErrors(r: DacResponse, expected: uint8): Outcome {
    if r.command != expected then Failure(BadResponse(r, UnexpectedCommand(r.command)))
    else
      match NakFromProtocol(r.response)
      case Some(nak) => Failure(BadResponse(r, Refused(nak)))
      case None => Success(())
  }

  // One response: the outcome, the mirrored status and the bytes left to read afterwards. The mirror
  // only moves when the response passed the checks.
  function RecvOne(mirror: Status, incoming: Bytes, expected: uint8): (Outcome, Status, Bytes) {
    if |incoming| < RESPONSE_SIZE then (Failure(Io), mirror, [])
    else
      var response := ResponseAt(incoming);
      var rest := incoming[RESPONSE_SIZE..];
      match CheckErrors(response, expected)
      case Failure(e) => (Failure(e), mirror, rest)
      case Success(_) =>
        match Updated(mirror, response.dacStatus)
        case (status, Some(e)) => (Failure(Unreadable(e)), status, rest)
        case (status, None) => (Success(()), status, rest)
  }

  // What the checks amount to, in the codes of the wire: success is an echo of the right command with none
  // of the three refusals; a wrong echo is reported as such, whatever it answers.
  lemma ChecksIff(r: DacResponse, expected: uint8)
    ensures CheckErrors(r, expected).Success?
            <==> r.command == expected && r.response !in {'F' as int, 'I' as int, '!' as int}
    ensures r.command != expected ==> CheckErrors(r, expected) == Failure(BadResponse(r, UnexpectedCommand(r.command)))
    ensures r.command == expected ==>
      && (r.response == 'F' as int ==> CheckErrors(r, expected) == Failure(BadResponse(r, Refused(Full))))
      && (r.response == 'I' as int ==> CheckErrors(r, expected) == Failure(BadResponse(r, Refused(Invalid))))
      && (r.response == '!' as int ==> CheckErrors(r, expected) == Failure(BadResponse(r, Refused(StopCondition))))
  {}

  // One response taken in: too few bytes are an I/O error; a response that fails the checks is consumed
  // and leaves the mirror as it was; any other moves the mirror, as far as its status can be read.
  lemma RecvOneIff(mirror: Status, incoming: Bytes, expected: uint8)
    ensures |incoming| < 22 ==> RecvOne(mirror, incoming, expected) == (Failure(Io), mirror, [])
    ensures |incoming| >= 22 ==>
      var r := ResponseAt(incoming);
      var (outcome, status, rest) := RecvOne(mirror, incoming, expected);
      && rest == incoming[22..]
      && (outcome.Success? <==>
            && r.command == expected && r.response !in {'F' as int, 'I' as int, '!' as int}
            && FromProtocol(r.dacStatus).Success?)
      && (outcome.Success? ==> status == FromProtocol(r.dacStatus).value)
      && (r.command != expected ==>
            outcome == Failure(BadResponse(r, UnexpectedCommand(r.command))) && status == mirror)
      && (r.response in {'F' as int, 'I' as int, '!' as int} ==> outcome.Failure? && status == mirror)
  {
    if |incoming| >= RESPONSE_SIZE {
      ChecksIff(ResponseAt(incoming), expected);
    }
  }

  // One response per command, until one fails.
  function RecvAll(mirror: Status, incoming: Bytes, expected: Bytes): (Outcome, Status, Bytes)
    decreases |expected|
  {
    if expected == [] then (Success(()), mirror, incoming)
    else
      var (outcome, status, rest) := RecvOne(mirror, incoming, expected[0]);
      if outcome.Failure? then (outcome, status, rest) else RecvAll(status, rest, expected[1..])
  }

  function StartBytes(cs: seq<Command>): (b: Bytes)
    ensures |b| == |cs|
  {
    if cs == [] then [] else [StartByte(cs[0])] + StartBytes(cs[1..])
  }

  // What reaches the wire when a command list is sent, one write each, up to a write that fails.
  function SentBytes(fates: Fates, cs: seq<Command>): Bytes
    requires forall c <- cs :: Sendable(c)
    decreases |cs|
  {
    if cs == [] then []
    else
      var out := Written(NextFate(fates), CommandBytes(cs[0]));
      if NextFate(fates) == Fails then out else out + SentBytes(Later(fates), cs[1..])
  }

  // None of the next `n` writes fails.
  predicate AllTaken(fates: Fates, n: nat) {
    n == 0 || (NextFate(fates) != Fails && AllTaken(Later(fates), n - 1))
  }

  // Every one of these writes takes all it is given.
  predicate WholeWrites(fates: Fates, cs: seq<Command>)
    requires forall c <- cs :: Sendable(c)
    decreases |cs|
  {
    cs == [] ||
    (Written(NextFate(fates), CommandBytes(cs[0])) == CommandBytes(cs[0]) && WholeWrites(Later(fates), cs[1..]))
  }

  /** The host's end of a connection, with the buffers it reuses from one submission to the next. */
  class HostStream {
    const dac: DacState
    const tcp: TcpStream
    var commandBuffer: seq<QueuedCommand>
    var pointBuffer: seq<DacPoint>
    var bytes: Bytes

    function Queued(): Queue
      reads this
    {
      Queue(commandBuffer, pointBuffer)
    }

    constructor (dac: DacState, tcp: TcpStream)
      ensures this.dac == dac && this.tcp == tcp
      ensures Queued() == EMPTY_QUEUE
    {
      this.dac := dac;
      this.tcp := tcp;
      commandBuffer, pointBuffer, bytes := [], [], [];
    }

    // Start a new queue. What an earlier, abandoned queue left in the buffers is dropped.
    method QueueCommands()
      modifies this
      ensures Queued() == EMPTY_QUEUE
    {
      commandBuffer := [];
      pointBuffer := [];
    }

    // One builder call; `panicked` when the payload is too long.
    method AddCall(call: Call) returns (panicked: bool)
      modifies this
      ensures panicked <==> Enqueue(old(Queued()), call).None?
      ensures !panicked ==> Queued() == Enqueue(old(Queued()), call).value
    {
      match call {
        case CallPrepareStream => commandBuffer := commandBuffer + [QueuedPrepareStream];
        case CallBegin(low, rate) => commandBuffer := commandBuffer + [QueuedBegin(low, rate)];
        case CallPointRate(rate) => commandBuffer := commandBuffer + [QueuedPointRate(rate)];
        case CallData(points) =>
          var start := |pointBuffer|;
          pointBuffer := pointBuffer + points;
          var end := |pointBuffer|;
          if end - start >= 0xffff {
            return true;
          }
          commandBuffer := commandBuffer + [QueuedData(start, end)];
        case CallStop => commandBuffer := commandBuffer + [QueuedStop];
        case CallEmergencyStop => commandBuffer := commandBuffer + [QueuedStop];
        case CallClearEmergencyStop => commandBuffer := commandBuffer + [QueuedStop];
        case CallPing => commandBuffer := commandBuffer + [QueuedPing];
      }
      return false;
    }

    // One command in one write, which may fail or fall short.
    method SendCommand(c: Command) returns (ok: bool)
      requires Sendable(c)
      modifies this`bytes, tcp`outgoing, tcp`fates
      ensures ok <==> NextFate(old(tcp.fates)) != Fails
      ensures tcp.outgoing == old(tcp.outgoing) + Written(NextFate(old(tcp.fates)), CommandBytes(c))
      ensures tcp.fates == Later(old(tcp.fates))
    {
      var writer := new Writer();
      var written := writer.WriteCommand(c);
      bytes := writer.out;
      assert [] + CommandBytes(c) == CommandBytes(c);
      ok := tcp.Write(bytes);
    }

    method RecvResponse(expected: uint8) returns (r: Outcome)
      modifies this`bytes, tcp`incoming, dac
      ensures (r, dac.status, tcp.incoming) == RecvOne(old(dac.status), old(tcp.incoming), expected)
    {
      var scratch := new uint8[RESPONSE_SIZE];
      var ok := tcp.ReadExact(scratch, RESPONSE_SIZE);
      bytes := scratch[..];
      if !ok {
        return Failure(Io);
      }
      assert bytes == old(tcp.incoming)[..RESPONSE_SIZE];
      var reader := new Reader(bytes);
      var read := reader.ReadResponse();
      var response := read.value;
      ResponseOfPrefix(old(tcp.incoming));
      var check := CheckErrors(response, expected);
      if check.Failure? {
        return check;
      }
      var update := dac.UpdateStatus(response.dacStatus);
      if update.Failure? {
        return Failure(Unreadable(update.error));
      }
      return Success(());
    }

    // Drain the command buffer into the stream, noting the byte each response has to echo. A write that
    // fails ends it, with the rest of the queue dropped.
    method SendQueued() returns (ok: bool, commandBytes: Bytes)
      requires WellQueued(Queued())
      modifies this`commandBuffer, this`bytes, tcp`outgoing, tcp`fates
      ensures tcp.outgoing == old(tcp.outgoing) + SentBytes(old(tcp.fates), old(Commands(Queued())))
      ensures ok == AllTaken(old(tcp.fates), |old(commandBuffer)|)
      ensures ok ==> commandBytes == StartBytes(old(Commands(Queued())))
      ensures commandBuffer == []
    {
      var queued := commandBuffer;
      commandBuffer := [];
      commandBytes := [];
      ghost var cs := Resolved(queued, pointBuffer);
      ghost var goal := SendGoal(tcp.outgoing + SentBytes(tcp.fates, cs), AllTaken(tcp.fates, |cs|), StartBytes(cs));
      assert queued[0..] == queued && [] + StartBytes(cs) == StartBytes(cs);
      for i := 0 to |queued|
        invariant commandBuffer == []
        invariant Sending(tcp.outgoing, tcp.fates, commandBytes, Resolved(queued[i..], pointBuffer)) == goal
      {
        var command := Resolve(queued[i], pointBuffer);
        ResolvedFrom(queued, pointBuffer, i);
        SendingStep(tcp.outgoing, tcp.fates, commandBytes, command, Resolved(queued[i + 1..], pointBuffer));
        var taken := SendCommand(command);
        if !taken {
          return false, commandBytes;
        }
        commandBytes := commandBytes + [StartByte(command)];
      }
      SendingEnds(tcp.outgoing, tcp.fates, commandBytes);
      return true, commandBytes;
    }

    // Wait for one response each; the first that is not as expected ends it.
    method TakeResponses(commandBytes: Bytes) returns (r: Outcome)
      modifies this`bytes, tcp`incoming, dac
      ensures (r, dac.status, tcp.incoming) == RecvAll(old(dac.status), old(tcp.incoming), commandBytes)
    {
      assert commandBytes[0..] == commandBytes;
      for i := 0 to |commandBytes|
        invariant RecvAll(old(dac.status), old(tcp.incoming), commandBytes)
                  == RecvAll(dac.status, tcp.incoming, commandBytes[i..])
      {
        assert commandBytes[i..][1..] == commandBytes[i + 1..];
        var received := RecvResponse(commandBytes[i]);
        if received.Failure? {
          return received;
        }
      }
      return Success(());
    }

    // Write every queued command, then wait for one response each. A write that fails ends the call
    // before any response is read; otherwise the first response that is not as expected ends the wait,
    // and those behind it stay in the stream.
    method Submit() returns (r: Outcome)
      requires WellQueued(Queued())
      modifies this`commandBuffer, this`bytes, tcp, dac
      ensures tcp.outgoing == old(tcp.outgoing) + SentBytes(old(tcp.fates), old(Commands(Queued())))
      ensures (r, dac.status, tcp.incoming)
              == if AllTaken(old(tcp.fates), |old(commandBuffer)|)
                 then RecvAll(old(dac.status), old(tcp.incoming), StartBytes(old(Commands(Queued()))))
                 else (Failure(Io), old(dac.status), old(tcp.incoming))
      ensures commandBuffer == []
    {
      var sent, commandBytes := SendQueued();
      if !sent {
        return Failure(Io);
      }
      r := TakeResponses(commandBytes);
    }
  }

  lemma ResponseOfPrefix(b: Bytes)
    requires |b| >= RESPONSE_SIZE
    ensures ResponseAt(b[..RESPONSE_SIZE]) == ResponseAt(b)
  {}

  lemma ResolvedFrom(qs: seq<QueuedCommand>, points: seq<DacPoint>, i: nat)
    requires i < |qs| && forall q <- qs :: InRange(q, |points|)
    ensures Resolved(qs[i..], points) == [Resolve(qs[i], points)] + Resolved(qs[i + 1..], points)
  {
    assert qs[i..][1..] == qs[i + 1..];
  }

  // Where the sending loop is heading: the bytes on the wire at its end, whether all writes succeed, and
  // the start bytes noted if they do.
  datatype SendGoal = SendGoal(out: Bytes, taken: bool, starts: Bytes)

  ghost function Sending(sent: Bytes, fates: Fates, starts: Bytes, left: seq<Command>): SendGoal
    requires forall c <- left :: Sendable(c)
  {
    SendGoal(sent + SentBytes(fates, left), AllTaken(fates, |left|), starts + StartBytes(left))
  }

  lemma SendingStep(sent: Bytes, fates: Fates, starts: Bytes, c: Command, rest: seq<Command>)
    requires Sendable(c) && forall x <- rest :: Sendable(x)
    ensures forall x <- [c] + rest :: Sendable(x)
    ensures var out := sent + Written(NextFate(fates), CommandBytes(c));
            var goal := Sending(sent, fates, starts, [c] + rest);
            if NextFate(fates) == Fails then goal.out == out && !goal.taken
            else goal == Sending(out, Later(fates), starts + [StartByte(c)], rest)
  {
    assert ([c] + rest)[1..] == rest;
    var bytes := Written(NextFate(fates), CommandBytes(c));
    assert sent + (bytes + SentBytes(Later(fates), rest)) == (sent + bytes) + SentBytes(Later(fates), rest);
    assert starts + ([StartByte(c)] + StartBytes(rest)) == (starts + [StartByte(c)]) + StartBytes(rest);
  }

  lemma SendingEnds(sent: Bytes, fates: Fates, starts: Bytes)
    ensures Sending(sent, fates, starts, []) == SendGoal(sent, true, starts)
  {}

  // Nothing is sent after a write that fails: what is on the wire is what the writes before it took.
  lemma {:induction false} SendingStopsAtFailure(fates: Fates, cs: seq<Command>, k: nat)
    requires forall c <- cs :: Sendable(c)
    requires k < |cs| && k < |fates| && fates[k] == Fails && Fails !in fates[..k]
    ensures SentBytes(fates, cs) == SentBytes(fates[..k], cs[..k]) && !AllTaken(fates, |cs|)
    decreases k
  {
    if k == 0 {
      assert cs[..0] == [];
    } else {
      assert fates[0] in fates[..k] && fates[..k][1..] == fates[1..][..k - 1] && cs[..k][1..] == cs[1..][..k - 1];
      SendingStopsAtFailure(fates[1..], cs[1..], k - 1);
    }
  }

  // The host does not look at how much a write took: what arrives is the bytes of the whole command
  // list exactly when every one of the writes was whole, and a submission can report that all was sent
  // when it was not.
  lemma {:induction false} SentWholeIff(fates: Fates, cs: seq<Command>)
    requires forall c <- cs :: Sendable(c)
    ensures |SentBytes(fates, cs)| <= |CommandsBytes(cs)|
    ensures SentBytes(fates, cs) == CommandsBytes(cs) <==> WholeWrites(fates, cs)
    ensures WholeWrites(fates, cs) ==> AllTaken(fates, |cs|)
    decreases |cs|
  {
    if cs != [] {
      var head, out := CommandBytes(cs[0]), Written(NextFate(fates), CommandBytes(cs[0]));
      var sent, all := SentBytes(Later(fates), cs[1..]), CommandsBytes(cs[1..]);
      SentWholeIff(Later(fates), cs[1..]);
      if NextFate(fates) == Fails {
        assert |SentBytes(fates, cs)| == 0 < |CommandsBytes(cs)|;
      } else if |out| == |head| {
        assert out == head;
        assert head + sent == head + all <==> sent == all by {
          assert (head + sent)[|head|..] == sent && (head + all)[|head|..] == all;
        }
      } else {
        assert |out + sent| < |head + all|;
      }
    }
  }
}
