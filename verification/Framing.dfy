/**
 How the emulator cuts the TCP byte stream into commands: it peeks at the stream, decides how many
 bytes the command has, reads exactly those into a scratch buffer it reuses, and decodes from there.
 */
module Framing {
  import opened LittleEndian
  import opened Protocol
  import opened ProtocolIO
  import opened Tcp
  import opened Engine
  import opened Wrappers

  datatype ReadFailure =
    | Closed        // the peek saw no byte
    | Eof           // the stream ended, or the scratch buffer did, within the command
    | OutOfBounds   // the command is longer than the scratch buffer: the slice panics
    | WrongType     // the reader of the command's type rejects its start byte

  datatype ReadOutcome = Got(interpreted: Interpreted, rest: Bytes) | Lost(failure: ReadFailure)

  // What one read finds in place: old scratch bytes, and how much of the stream had arrived when the
  // header of a `Data` command was peeked at.
  datatype ReadContext = ReadContext(scratch: Bytes, available: nat)

  // The number of bytes the scratch buffer is given for a DAC of this capacity.
  function ScratchSize(capacity: uint16): nat { 1 + 2 + POINT_SIZE * capacity }

  predicate Usable(ctx: ReadContext) { |ctx.scratch| >= 3 && ctx.available >= 1 }

  // The header as it lies in the scratch buffer after peeking: arrived bytes over stale ones.
  function PeekedHeader(ctx: ReadContext, wire: Bytes): (header: Bytes)
    requires Usable(ctx) && wire != []
    ensures |header| == 3
  {
    var seen := Min(3, Min(ctx.available, |wire|));
    wire[..seen] + ctx.scratch[seen..3]
  }

  lemma PeekedHeaderAt(ctx: ReadContext, wire: Bytes, k: nat)
    requires Usable(ctx) && wire != [] && k < 3
    ensures PeekedHeader(ctx, wire)[k] == if k < Min(3, Min(ctx.available, |wire|)) then wire[k] else ctx.scratch[k]
  {}

  // How many bytes the reader asks for, or nothing for a start byte it does not know.
  function RequestedSize(ctx: ReadContext, wire: Bytes): Option<nat>
    requires Usable(ctx) && wire != []
  {
    match PeekedKind(wire[0])
    case None => None
    case Some(BeginKind) => Some(BEGIN_SIZE)
    case Some(PointRateKind) => Some(POINT_RATE_SIZE)
    case Some(DataKind) =>
      var header := PeekedHeader(ctx, wire);
      Some(3 + POINT_SIZE * ToUint16(header[1], header[2]))
    case Some(_) => Some(1)
  }

  // One read. The reader of the peeked type decodes the command from the whole scratch buffer, so bytes
  // left from earlier reads follow those just received. A byte that starts no command is reported but
  // stays in the stream.
  function ReadFrom(ctx: ReadContext, wire: Bytes): ReadOutcome
    requires Usable(ctx)
  {
    if wire == [] then Lost(Closed)
    else
      match RequestedSize(ctx, wire)
      case None => Got(Unknown(wire[0]), wire)
      case Some(size) =>
        if |ctx.scratch| < size then Lost(OutOfBounds)
        else if |wire| < size then Lost(Eof)
        else
          match ParseAs(PeekedKind(wire[0]).value, wire[..size] + ctx.scratch[size..])
          case Parsed(c, _) => Got(Known(c), wire[size..])
          case Failed(e) => Lost(DecodeFailure(e))
  }

  function DecodeFailure(e: ReadError): ReadFailure {
    match e
    case UnexpectedEof => Eof
    case InvalidData => WrongType
  }

  lemma PeekedOver(before: Bytes, scratch: Bytes, seen: Bytes)
    requires |before| == |scratch| >= 3 && 1 <= |seen| <= 3
    requires before[1..] == scratch[1..]
    ensures seen + before[|seen|..] == (seen + scratch[|seen|..3]) + scratch[3..]
  {
    assert before[|seen|..] == before[1..][|seen| - 1..];
    assert scratch[|seen|..] == scratch[1..][|seen| - 1..];
    assert scratch[|seen|..] == scratch[|seen|..3] + scratch[3..];
  }

  // Peek at the header of a `Data` command, whose first byte has been peeked at already; how many of
  // its bytes were seen is not looked at.
  method PeekPointCount(bytes: array<uint8>, tcp: TcpStream, available: nat, ghost scratch: Bytes)
    returns (nPoints: uint16)
    requires bytes.Length == |scratch| >= 3 && available >= 1 && tcp.incoming != []
    requires bytes[1..] == scratch[1..]
    modifies bytes
    ensures var header := PeekedHeader(ReadContext(scratch, available), tcp.incoming);
            && nPoints == ToUint16(header[1], header[2])
            && bytes[..] == header + scratch[3..]
  {
    ghost var before := bytes[..];
    ghost var header := PeekedHeader(ReadContext(scratch, available), tcp.incoming);
    var seen := tcp.Peek(bytes, 3, available);
    PeekedOver(before, scratch, tcp.incoming[..seen]);
    assert bytes[..] == tcp.incoming[..seen] + before[seen..];
    assert bytes[1] == header[1] && bytes[2] == header[2];
    var reader := new Reader(bytes[1..3]);
    var count := reader.ReadU16();
    return count.value;
  }

  // Peek at the stream and decide how many bytes to read; the stream is not consumed.
  method PeekSize(bytes: array<uint8>, tcp: TcpStream, available: nat)
    returns (r: Result<Option<(Kind, nat)>, ReadFailure>)
    requires bytes.Length >= 3 && available >= 1
    modifies bytes
    ensures r.Failure? <==> tcp.incoming == []
    ensures r.Failure? ==> r.error == Closed
    ensures r.Success? ==>
      match RequestedSize(ReadContext(old(bytes[..]), available), tcp.incoming)
      case None => r.value == None
      case Some(size) => r.value == Some((PeekedKind(tcp.incoming[0]).value, size))
    ensures r.Success? ==> bytes[0] == tcp.incoming[0]
    ensures bytes[3..] == old(bytes[..])[3..]
    ensures tcp.incoming != [] && tcp.incoming[0] != DATA_BYTE ==> bytes[1..] == old(bytes[..])[1..]
  {
    bytes[0] := 0;
    var len := tcp.Peek(bytes, 1, available);
    if len == 0 {
      return Failure(Closed);
    }
    var start := bytes[0];
    assert start == tcp.incoming[0];
    assert bytes[1..] == old(bytes[..])[1..];
    match PeekedKind(start) {
      case None => return Success(None);
      case Some(BeginKind) => return Success(Some((BeginKind, BEGIN_SIZE)));
      case Some(PointRateKind) => return Success(Some((PointRateKind, POINT_RATE_SIZE)));
      case Some(DataKind) =>
        var nPoints := PeekPointCount(bytes, tcp, available, old(bytes[..]));
        return Success(Some((DataKind, 3 + POINT_SIZE * nPoints)));
      case Some(kind) => return Success(Some((kind, 1)));
    }
  }

  method ReadFromTcpStream(bytes: array<uint8>, tcp: TcpStream, available: nat)
    returns (r: Result<Interpreted, ReadFailure>)
    requires bytes.Length >= 3 && available >= 1
    modifies bytes, tcp`incoming
    ensures match ReadFrom(ReadContext(old(bytes[..]), available), old(tcp.incoming))
            case Got(ic, rest) => r == Success(ic) && tcp.incoming == rest
            case Lost(failure) =>
              r == Failure(failure) && (failure in {Closed, OutOfBounds} ==> tcp.incoming == old(tcp.incoming))
  {
    var requested :- PeekSize(bytes, tcp, available);
    if requested.None? {
      return Success(Unknown(bytes[0]));
    }
    var (kind, size) := requested.value;
    if bytes.Length < size {
      return Failure(OutOfBounds);
    }
    ghost var ctx := ReadContext(old(bytes[..]), available);
    assert bytes[size..] == ctx.scratch[size..] by {
      if tcp.incoming[0] == DATA_BYTE {
        assert bytes[size..] == bytes[3..][size - 3..];
      } else {
        assert bytes[size..] == bytes[1..][size - 1..];
      }
    }
    var ok := tcp.ReadExact(bytes, size);
    if !ok {
      return Failure(Eof);
    }
    assert bytes[..] == old(tcp.incoming)[..size] + ctx.scratch[size..];
    var reader := new Reader(bytes[..]);
    var command := reader.ReadAs(kind);
    if command.Failure? {
      return Failure(DecodeFailure(command.error));
    }
    return Success(Known(command.value));
  }

  lemma RequestedByHeader(ctx: ReadContext, n: uint16, payload: Bytes)
    requires Usable(ctx) && ctx.available >= 3
    ensures RequestedSize(ctx, DataHeaderBytes(n) + payload) == Some(3 + POINT_SIZE * n)
  {
    var wire := DataHeaderBytes(n) + payload;
    assert PeekedHeader(ctx, wire) == wire[..3];
    Uint16RoundTrip(n);
  }

  // A command's bytes are read back by the reader the emulator picks for its start byte.
  lemma PickedReaderReadsBack(c: Command, rest: Bytes)
    requires Sendable(c)
    ensures PeekedKind(StartByte(c)) == Some(KindOf(c))
    ensures ParseAs(KindOf(c), CommandBytes(c) + rest) == Parsed(c, Size(c))
  {
    ParseOfPrint(c, rest);
    DecodersAgree(KindOf(c), CommandBytes(c) + rest);
  }

  lemma RequestedByStart(ctx: ReadContext, c: Command, wire: Bytes)
    requires Usable(ctx) && wire != [] && !c.Data? && wire[0] == StartByte(c)
    ensures RequestedSize(ctx, wire) == Some(Size(c))
  {}

  lemma RequestsOwnSize(ctx: ReadContext, c: Command, rest: Bytes)
    requires Usable(ctx) && Sendable(c) && (c.Data? ==> ctx.available >= 3)
    ensures RequestedSize(ctx, CommandBytes(c) + rest) == Some(Size(c))
  {
    if c.Data? {
      DataBytes(c.points, rest);
      RequestedByHeader(ctx, |c.points|, PointsBytes(c.points) + rest);
    } else {
      BytesBeginWithStart(c, rest);
      RequestedByStart(ctx, c, CommandBytes(c) + rest);
    }
  }

  // A read that asks for exactly the first part of the stream delivers what that part parses as.
  lemma ReadsFirstPart(ctx: ReadContext, c: Command, part: Bytes, rest: Bytes)
    requires Usable(ctx) && part != [] && PeekedKind(part[0]).Some?
    requires RequestedSize(ctx, part + rest) == Some(|part|)
    requires |part| <= |ctx.scratch| ==>
      ParseAs(PeekedKind(part[0]).value, part + ctx.scratch[|part|..]) == Parsed(c, |part|)
    ensures ReadFrom(ctx, part + rest)
            == if |part| <= |ctx.scratch| then Got(Known(c), rest) else Lost(OutOfBounds)
  {
    assert (part + rest)[..|part|] == part && (part + rest)[|part|..] == rest;
  }

  // The bytes of a command, followed by anything, are read back as that command, whatever the scratch
  // buffer held before -- provided it is long enough, and a `Data` header arrived in one piece.
  lemma ReadsBack(ctx: ReadContext, c: Command, rest: Bytes)
    requires Usable(ctx) && Sendable(c) && (c.Data? ==> ctx.available >= 3)
    ensures ReadFrom(ctx, CommandBytes(c) + rest)
            == if Size(c) <= |ctx.scratch| then Got(Known(c), rest) else Lost(OutOfBounds)
  {
    RequestsOwnSize(ctx, c, rest);
    PickedReaderReadsBack(c, if Size(c) <= |ctx.scratch| then ctx.scratch[Size(c)..] else []);
    ReadsFirstPart(ctx, c, CommandBytes(c), rest);
  }

  ghost predicate AlwaysReadsBack(c: Command, available: nat, scratchSize: nat)
    requires Sendable(c) && scratchSize >= 3 && available >= 1
  {
    forall scratch: Bytes, rest: Bytes | |scratch| == scratchSize ::
      ReadFrom(ReadContext(scratch, available), CommandBytes(c) + rest) == Got(Known(c), rest)
  }

  // The emulator does not look at how many bytes its second peek returned. Stale scratch bytes stay out
  // of the result exactly when that peek found all three header bytes.
  lemma StaleBytesIrrelevantIff(points: seq<DacPoint>, available: nat, scratchSize: nat)
    requires Sendable(Data(points)) && available >= 1 && scratchSize >= Size(Data(points))
    ensures AlwaysReadsBack(Data(points), available, scratchSize) <==> available >= 3
  {
    var c := Data(points);
    if available >= 3 {
      forall scratch: Bytes, rest: Bytes | |scratch| == scratchSize
        ensures ReadFrom(ReadContext(scratch, available), CommandBytes(c) + rest) == Got(Known(c), rest)
      {
        ReadsBack(ReadContext(scratch, available), c, rest);
      }
    } else {
      // A leftover high byte that differs from the one still on its way announces a different length.
      var stale: uint8 := (Byte1(|points|) + 1) % 0x100;
      ShortPeekMisreads(points, available, scratchSize, stale);
    }
  }

  lemma ShortPeekMisreads(points: seq<DacPoint>, available: nat, scratchSize: nat, stale: uint8)
    requires Sendable(Data(points)) && 1 <= available < 3 && scratchSize >= 3
    requires stale != Byte1(|points|)
    ensures !AlwaysReadsBack(Data(points), available, scratchSize)
  {
    var c := Data(points);
    var scratch: Bytes := seq(scratchSize, _ => stale);
    var ctx := ReadContext(scratch, available);
    var wire := CommandBytes(c) + [];
    assert wire[0] == DATA_BYTE;
    var header := PeekedHeader(ctx, wire);
    PeekedHeaderAt(ctx, wire, 2);
    assert header[2] == ctx.scratch[2] == stale;
    Uint16Injective(header[1], header[2]);
    assert ToUint16(header[1], header[2]) != |points|;
    var outcome := ReadFrom(ctx, wire);
    if outcome.Got? {
      assert |outcome.rest| == |wire| - (3 + POINT_SIZE * ToUint16(header[1], header[2])) != 0;
    }
    assert outcome != Got(Known(c), []);
  }

  // The emulator's outcome compared with the runtime reader's parse of the same stream.
  predicate Agrees(outcome: ReadOutcome, parse: Parse, wire: Bytes, scratchSize: nat)
    requires wire != [] && (parse.Parsed? ==> parse.size <= |wire|)
  {
    var delivered := parse.Parsed? && wire[0] != EMERGENCY_STOP_ALT_BYTE && parse.size <= scratchSize;
    match outcome
    case Got(Known(c), rest) => delivered && c == parse.command && rest == wire[parse.size..]
    case Got(Unknown(b), rest) =>
      && !delivered && b == wire[0] && rest == wire
      && (parse == Failed(InvalidData) || b == EMERGENCY_STOP_ALT_BYTE)
    case Lost(failure) => !delivered && parse != Failed(InvalidData) && failure != WrongType
  }

  // The emulator, with its own decoder, and the runtime reader agree on every stream: the emulator
  // delivers a command exactly when the runtime reader does, the same one, consuming the same bytes,
  // save that it does not know the alternative emergency-stop byte and needs room for the whole command.
  // The reader of a type never rejects the byte it was picked for.
  lemma ReadersAgree(ctx: ReadContext, wire: Bytes)
    requires Usable(ctx) && ctx.available >= 3 && wire != []
    ensures ParseCommand(wire).Parsed? ==> ParseCommand(wire).size <= |wire|
    ensures Agrees(ReadFrom(ctx, wire), ParseCommand(wire), wire, |ctx.scratch|)
  {
    var parse := ParseCommand(wire);
    if PeekedKind(wire[0]).None? {
      assert parse == Failed(InvalidData) || wire[0] == EMERGENCY_STOP_ALT_BYTE;
    } else if parse.Parsed? {
      var Parsed(c, n) := parse;
      PrintOfParse(wire);
      assert wire == CommandBytes(c) + wire[n..];
      ReadsBack(ctx, c, wire[n..]);
    } else {
      Truncated(ctx, wire);
    }
  }

  // The stream ends within a command.
  lemma Truncated(ctx: ReadContext, wire: Bytes)
    requires Usable(ctx) && ctx.available >= 3
    requires wire != [] && PeekedKind(wire[0]).Some? && !ParseCommand(wire).Parsed?
    ensures ReadFrom(ctx, wire) in {Lost(Eof), Lost(OutOfBounds)} && ParseCommand(wire) == Failed(UnexpectedEof)
  {
    if wire[0] == DATA_BYTE && |wire| >= 3 {
      assert PeekedHeader(ctx, wire) == wire[..3];
      assert RequestedSize(ctx, wire) == Some(3 + POINT_SIZE * ToUint16(wire[1], wire[2]));
    }
  }

  function Reports(b: uint8, n: nat): seq<Interpreted> { seq(n, _ => Unknown(b)) }

  lemma UnknownRead(ctx: ReadContext, wire: Bytes)
    requires Usable(ctx)
    requires wire != [] && (wire[0] == EMERGENCY_STOP_ALT_BYTE || ParseCommand(wire) == Failed(InvalidData))
    ensures ReadFrom(ctx, wire) == Got(Unknown(wire[0]), wire)
  {
    assert PeekedKind(wire[0]) == None;
  }

  lemma ReportsStep(b: uint8, n: nat)
    ensures Reports(b, n + 1) == [Unknown(b)] + Reports(b, n)
  {}

  // A start byte that is not known is never consumed, so every further read reports it again.
  lemma {:induction false} UnknownByteIsNeverConsumed(contexts: seq<ReadContext>, wire: Bytes)
    requires forall ctx <- contexts :: Usable(ctx)
    requires wire != [] && (wire[0] == EMERGENCY_STOP_ALT_BYTE || ParseCommand(wire) == Failed(InvalidData))
    ensures SplitWire(contexts, wire) == Some((Reports(wire[0], |contexts|), wire))
  {
    if contexts == [] {
      assert Reports(wire[0], 0) == [];
    } else {
      UnknownRead(contexts[0], wire);
      UnknownByteIsNeverConsumed(contexts[1..], wire);
      ReportsStep(wire[0], |contexts| - 1);
    }
  }

  // Why a read fails: nothing at all arrives, the scratch buffer is too short for what the header asks
  // for, or the stream ends first; nothing else can go wrong in a read that has its header whole.
  lemma FailuresIff(ctx: ReadContext, wire: Bytes)
    requires Usable(ctx)
    ensures ReadFrom(ctx, wire) == Lost(Closed) <==> wire == []
    ensures ReadFrom(ctx, wire) == Lost(OutOfBounds)
            <==> wire != [] && RequestedSize(ctx, wire).Some? && RequestedSize(ctx, wire).value > |ctx.scratch|
    ensures ReadFrom(ctx, wire) != Lost(WrongType)
    ensures ctx.available >= 3 ==>
      (ReadFrom(ctx, wire) == Lost(Eof)
       <==> && wire != [] && RequestedSize(ctx, wire).Some?
            && |wire| < RequestedSize(ctx, wire).value <= |ctx.scratch|)
  {
    if wire != [] && RequestedSize(ctx, wire).Some? {
      var size := RequestedSize(ctx, wire).value;
      if size <= |ctx.scratch| && size <= |wire| {
        var read := wire[..size] + ctx.scratch[size..];
        DecodersAgree(PeekedKind(wire[0]).value, read);
        if ctx.available >= 3 {
          EnoughRead(ctx, wire, size);
        }
      }
    }
  }

  // As many bytes as were asked for make a command.
  lemma EnoughRead(ctx: ReadContext, wire: Bytes, size: nat)
    requires Usable(ctx) && ctx.available >= 3 && wire != []
    requires RequestedSize(ctx, wire) == Some(size) && size <= |wire| && size <= |ctx.scratch|
    ensures ParseAs(PeekedKind(wire[0]).value, wire[..size] + ctx.scratch[size..]).Parsed?
  {
    var read := wire[..size] + ctx.scratch[size..];
    assert read[0] == wire[0] && |read| == |ctx.scratch|;
    if wire[0] == DATA_BYTE {
      assert PeekedHeader(ctx, wire) == wire[..3];
      assert read[1] == wire[1] && read[2] == wire[2];
      var fields := read[1..];
      assert fields[0] == read[1] && fields[1] == read[2];
    }
  }

  // A command cut short is an unexpected end of the stream, wherever it is cut behind its header.
  lemma CutCommand(ctx: ReadContext, c: Command, n: nat)
    requires Usable(ctx) && ctx.available >= 3 && Sendable(c) && Size(c) <= |ctx.scratch|
    requires 1 <= n < Size(c) && (c.Data? ==> n >= 3)
    ensures ReadFrom(ctx, CommandBytes(c)[..n]) == Lost(Eof)
  {
    var (wire, part) := (CommandBytes(c), CommandBytes(c)[..n]);
    assert wire + [] == wire;
    RequestsOwnSize(ctx, c, []);
    BytesBeginWithStart(c, []);
    assert part[0] == wire[0];
    if c.Data? {
      assert PeekedHeader(ctx, part) == part[..3] == wire[..3] == PeekedHeader(ctx, wire);
    }
  }

  // A command list a DAC of this capacity can take in.
  predicate Fits(c: Command, capacity: uint16) { c.Data? ==> |c.points| <= capacity }

  predicate AllFit(cs: seq<Command>, capacity: uint16) {
    forall c {:trigger c in cs} | c in cs :: Fits(c, capacity)
  }

  // The scratch buffer the emulator allocates holds every such command and every response exactly when
  // the capacity is at least two: below that even the fixed-size messages overrun it.
  lemma ScratchSufficesIff(capacity: uint16)
    ensures (forall c: Command | Fits(c, capacity) :: Size(c) <= ScratchSize(capacity))
            && RESPONSE_SIZE <= ScratchSize(capacity)
            <==> capacity >= 2
  {
    if capacity >= 2 {
      forall c: Command | Fits(c, capacity)
        ensures Size(c) <= ScratchSize(capacity)
      {
        if c.Data? {
          assert POINT_SIZE * |c.points| <= POINT_SIZE * capacity;
        }
      }
    }
  }

  // Read one command per context; nothing if a read fails.
  function SplitWire(contexts: seq<ReadContext>, wire: Bytes): Option<(seq<Interpreted>, Bytes)>
    requires forall ctx <- contexts :: Usable(ctx)
  {
    if contexts == [] then Some(([], wire))
    else
      match ReadFrom(contexts[0], wire)
      case Lost(_) => None
      case Got(ic, rest) =>
        match SplitWire(contexts[1..], rest)
        case None => None
        case Some((ics, left)) => Some(([ic] + ics, left))
  }

  function AllKnown(cs: seq<Command>): (ics: seq<Interpreted>) {
    if cs == [] then [] else [Known(cs[0])] + AllKnown(cs[1..])
  }

  // What a run of reads finds: stale bytes of any kind, but whole headers.
  predicate WholeHeaders(contexts: seq<ReadContext>, capacity: uint16) {
    forall ctx <- contexts :: |ctx.scratch| == ScratchSize(capacity) && ctx.available >= 3
  }

  // Framing round trip: the concatenated bytes of any list of commands that fit are cut back into that
  // list, with exactly the following bytes left over, whatever lies in the scratch buffer at each read.
  lemma {:induction false} FramingRoundTrip(cs: seq<Command>, rest: Bytes, capacity: uint16, contexts: seq<ReadContext>)
    requires capacity >= 2 && |contexts| == |cs| && WholeHeaders(contexts, capacity)
    requires AllFit(cs, capacity)
    ensures SplitWire(contexts, CommandsBytes(cs) + rest) == Some((AllKnown(cs), rest))
  {
    if cs == [] {
      assert CommandsBytes(cs) + rest == rest;
    } else {
      assert Fits(cs[0], capacity) && AllFit(cs[1..], capacity) by {
        assert cs[0] in cs;
        assert forall c | c in cs[1..] :: c in cs;
      }
      var tail := CommandsBytes(cs[1..]);
      assert CommandsBytes(cs) + rest == CommandBytes(cs[0]) + (tail + rest);
      ScratchSufficesIff(capacity);
      ReadsBack(contexts[0], cs[0], tail + rest);
      FramingRoundTrip(cs[1..], rest, capacity, contexts[1..]);
    }
  }
}
