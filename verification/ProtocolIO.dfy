/**
 The writers and readers of the protocol types: each appends to, or consumes from, a byte stream one
 field at a time, and is proved against the layouts in module `Protocol`.
 */
module ProtocolIO {
  import opened LittleEndian
  import opened Protocol
  import opened Wrappers

  // One turn of the point-writing loop moves one point's bytes from "still to write" to "written".
  lemma PointsStep(written: Bytes, points: seq<DacPoint>, i: nat)
    requires i < |points|
    ensures (written + PointBytes(points[i])) + PointsBytes(points[i + 1..]) == written + PointsBytes(points[i..])
  {
    assert points[i..][1..] == points[i + 1..];
  }

  lemma DropSplits(b: Bytes, m: nat, n: nat)
    requires |b| >= m + n
    ensures b[m + n..] == b[m..][n..]
  {}

  // One turn of the point-reading loop moves one point from "still to read" to "read".
  lemma CountDown(had: seq<DacPoint>, before: Bytes, n: nat)
    requires |before| >= POINT_SIZE * (n + 1)
    ensures had + PointsAt(before, n + 1) == (had + [PointAt(before)]) + PointsAt(before[POINT_SIZE..], n)
  {}

  /** A growable byte buffer. Writing to it cannot fail. */
  class Writer {
    var out: Bytes

    constructor ()
      ensures out == []
    {
      out := [];
    }

    method WriteU8(x: uint8)
      modifies this
      ensures out == old(out) + [x]
    {
      out := out + [x];
    }

    method WriteU16(x: uint16)
      modifies this
      ensures out == old(out) + [Byte0(x), Byte1(x)]
    {
      out := out + [Byte0(x), Byte1(x)];
    }

    method WriteU32(x: uint32)
      modifies this
      ensures out == old(out) + [Byte0(x), Byte1(x), Byte2(x), Byte3(x)]
    {
      out := out + [Byte0(x), Byte1(x), Byte2(x), Byte3(x)];
    }

    method WriteI16(x: int16)
      modifies this
      ensures out == old(out) + [Byte0(Bits(x)), Byte1(Bits(x))]
    {
      WriteU16(Bits(x));
    }

    method WriteStatus(s: DacStatus)
      modifies this
      ensures out == old(out) + StatusBytes(s)
    {
      WriteU8(s.protocol);
      WriteU8(s.lightEngineState);
      WriteU8(s.playbackState);
      WriteU8(s.source);
      WriteU16(s.lightEngineFlags);
      WriteU16(s.playbackFlags);
      WriteU16(s.sourceFlags);
      WriteU16(s.bufferFullness);
      WriteU32(s.pointRate);
      WriteU32(s.pointCount);
    }

    method WritePoint(p: DacPoint)
      modifies this
      ensures out == old(out) + PointBytes(p)
    {
      WriteU16(p.control);
      WriteI16(p.x);
      WriteI16(p.y);
      WriteU16(p.r);
      WriteU16(p.g);
      WriteU16(p.b);
      WriteU16(p.i);
      WriteU16(p.u1);
      WriteU16(p.u2);
    }

    method WriteResponse(r: DacResponse)
      modifies this
      ensures out == old(out) + ResponseBytes(r)
    {
      WriteU8(r.response);
      WriteU8(r.command);
      WriteStatus(r.dacStatus);
      assert out == old(out) + ([r.response, r.command] + StatusBytes(r.dacStatus));
    }

    method WritePoints(points: seq<DacPoint>)
      modifies this
      ensures out == old(out) + PointsBytes(points)
    {
      assert points[0..] == points;
      for i := 0 to |points|
        invariant out + PointsBytes(points[i..]) == old(out) + PointsBytes(points)
      {
        ghost var before := out;
        WritePoint(points[i]);
        PointsStep(before, points, i);
      }
      assert out + [] == out;
    }

    // An over-long payload is refused before anything is written.
    method WriteData(points: seq<DacPoint>) returns (res: Result<(), ReadError>)
      modifies this
      ensures res.Success? <==> Sendable(Data(points))
      ensures out == if res.Success? then old(out) + CommandBytes(Data(points)) else old(out)
    {
      if |points| > 0xffff {
        return Failure(InvalidData);
      }
      WriteU8(DATA_BYTE);
      WriteU16(|points|);
      WritePoints(points);
      ghost var body := PointsBytes(points);
      assert out == old(out) + ([DATA_BYTE] + ([Byte0(|points|), Byte1(|points|)] + body));
      return Success(());
    }

    method WriteCommand(c: Command) returns (res: Result<(), ReadError>)
      modifies this
      ensures res.Success? <==> Sendable(c)
      ensures out == if res.Success? then old(out) + CommandBytes(c) else old(out)
    {
      if c.Data? {
        res := WriteData(c.points);
        return;
      }
      WriteU8(StartByte(c));
      match c {
        case Begin(low, rate) =>
          WriteU16(low);
          WriteU32(rate);
        case PointRate(rate) =>
          WriteU32(rate);
        case _ =>
      }
      assert out == old(out) + CommandBytes(c);
      return Success(());
    }
  }

  // A read that turned out as the parse says: the same error, or the same command and the bytes after it.
  predicate Reads(parse: Parse, input: Bytes, r: Result<Command, ReadError>, left: Bytes) {
    match parse
    case Failed(e) => r == Failure(e)
    case Parsed(c, n) => n <= |input| && r == Success(c) && left == input[n..]
  }

  /**
   A byte slice that is consumed from the front. When it runs out the read fails; nothing is promised
   about what is left then, because no caller reads on.
   */
  class Reader {
    var data: Bytes

    constructor (data: Bytes)
      ensures this.data == data
    {
      this.data := data;
    }

    method ReadU8() returns (r: Result<uint8, ReadError>)
      modifies this
      ensures |old(data)| >= 1 ==> r == Success(old(data)[0]) && data == old(data)[1..]
      ensures |old(data)| < 1 ==> r == Failure(UnexpectedEof)
    {
      if |data| < 1 {
        return Failure(UnexpectedEof);
      }
      r := Success(data[0]);
      data := data[1..];
    }

    method ReadU16() returns (r: Result<uint16, ReadError>)
      modifies this
      ensures |old(data)| >= 2 ==> r == Success(ToUint16(old(data)[0], old(data)[1])) && data == old(data)[2..]
      ensures |old(data)| < 2 ==> r == Failure(UnexpectedEof)
    {
      if |data| < 2 {
        return Failure(UnexpectedEof);
      }
      r := Success(ToUint16(data[0], data[1]));
      data := data[2..];
    }

    method ReadU32() returns (r: Result<uint32, ReadError>)
      modifies this
      ensures |old(data)| >= 4 ==>
        r == Success(ToUint32(old(data)[0], old(data)[1], old(data)[2], old(data)[3])) && data == old(data)[4..]
      ensures |old(data)| < 4 ==> r == Failure(UnexpectedEof)
    {
      if |data| < 4 {
        return Failure(UnexpectedEof);
      }
      r := Success(ToUint32(data[0], data[1], data[2], data[3]));
      data := data[4..];
    }

    method ReadI16() returns (r: Result<int16, ReadError>)
      modifies this
      ensures |old(data)| >= 2 ==>
        r == Success(Signed(ToUint16(old(data)[0], old(data)[1]))) && data == old(data)[2..]
      ensures |old(data)| < 2 ==> r == Failure(UnexpectedEof)
    {
      var bits :- ReadU16();
      return Success(Signed(bits));
    }

    method ReadThreeU16() returns (r: Result<(uint16, uint16, uint16), ReadError>)
      modifies this
      ensures |old(data)| >= 6 ==>
        && r == Success((ToUint16(old(data)[0], old(data)[1]), ToUint16(old(data)[2], old(data)[3]),
                         ToUint16(old(data)[4], old(data)[5])))
        && data == old(data)[6..]
      ensures |old(data)| < 6 ==> r == Failure(UnexpectedEof)
    {
      var a :- ReadU16();
      var b :- ReadU16();
      var c :- ReadU16();
      return Success((a, b, c));
    }

    method ReadStatus() returns (r: Result<DacStatus, ReadError>)
      modifies this
      ensures |old(data)| >= STATUS_SIZE ==> r == Success(StatusAt(old(data))) && data == old(data)[STATUS_SIZE..]
      ensures |old(data)| < STATUS_SIZE ==> r == Failure(UnexpectedEof)
    {
      ghost var input := data;
      var protocol :- ReadU8();
      assert data == input[1..];
      var lightEngineState :- ReadU8();
      assert data == input[2..];
      var playbackState :- ReadU8();
      assert data == input[3..];
      var source :- ReadU8();
      assert data == input[4..];
      var flags :- ReadThreeU16();
      assert data == input[10..];
      var bufferFullness :- ReadU16();
      assert data == input[12..];
      var pointRate :- ReadU32();
      assert data == input[16..];
      var pointCount :- ReadU32();
      assert data == input[20..];
      return Success(DacStatus(protocol, lightEngineState, playbackState, source,
                               flags.0, flags.1, flags.2,
                               bufferFullness, pointRate, pointCount));
    }

    method ReadPoint() returns (r: Result<DacPoint, ReadError>)
      modifies this
      ensures |old(data)| >= POINT_SIZE ==> r == Success(PointAt(old(data))) && data == old(data)[POINT_SIZE..]
      ensures |old(data)| < POINT_SIZE ==> r == Failure(UnexpectedEof)
    {
      ghost var input := data;
      var control :- ReadU16();
      assert data == input[2..];
      var x :- ReadI16();
      assert data == input[4..];
      var y :- ReadI16();
      assert data == input[6..];
      var colour :- ReadThreeU16();
      assert data == input[12..];
      var rest :- ReadThreeU16();
      assert data == input[18..];
      return Success(DacPoint(control, x, y, colour.0, colour.1, colour.2, rest.0, rest.1, rest.2));
    }

    method ReadResponse() returns (r: Result<DacResponse, ReadError>)
      modifies this
      ensures |old(data)| >= RESPONSE_SIZE ==> r == Success(ResponseAt(old(data))) && data == old(data)[RESPONSE_SIZE..]
      ensures |old(data)| < RESPONSE_SIZE ==> r == Failure(UnexpectedEof)
    {
      var response :- ReadU8();
      var command :- ReadU8();
      assert |old(data)| >= 2 && data == old(data)[2..];
      var dacStatus :- ReadStatus();
      return Success(DacResponse(response, command, dacStatus));
    }

    // Counts `n` down to zero, pushing one point at a time.
    method ReadPoints(nPoints: uint16) returns (r: Result<seq<DacPoint>, ReadError>)
      modifies this
      ensures |old(data)| >= POINT_SIZE * nPoints ==>
        r == Success(PointsAt(old(data), nPoints)) && data == old(data)[POINT_SIZE * nPoints..]
      ensures |old(data)| < POINT_SIZE * nPoints ==> r == Failure(UnexpectedEof)
    {
      var n := nPoints;
      var points := [];
      ghost var input := data;
      while n > 0
        invariant 0 <= n <= nPoints
        invariant |input| >= POINT_SIZE * (nPoints - n)
        invariant data == input[POINT_SIZE * (nPoints - n)..]
        invariant |input| >= POINT_SIZE * nPoints ==> PointsAt(input, nPoints) == points + PointsAt(data, n)
      {
        ghost var before, had := data, points;
        var point :- ReadPoint();
        points := points + [point];
        n := n - 1;
        DropSplits(input, POINT_SIZE * (nPoints - n - 1), POINT_SIZE);
        if |input| >= POINT_SIZE * nPoints {
          CountDown(had, before, n);
        }
      }
      assert points + PointsAt(data, 0) == points;
      return Success(points);
    }

    method ReadBeginFields() returns (r: Result<Command, ReadError>)
      modifies this
      ensures |old(data)| >= 6 ==>
        && r == Success(Begin(ToUint16(old(data)[0], old(data)[1]),
                              ToUint32(old(data)[2], old(data)[3], old(data)[4], old(data)[5])))
        && data == old(data)[6..]
      ensures |old(data)| < 6 ==> r == Failure(UnexpectedEof)
    {
      var low :- ReadU16();
      var rate :- ReadU32();
      return Success(Begin(low, rate));
    }

    method ReadPointRateFields() returns (r: Result<Command, ReadError>)
      modifies this
      ensures |old(data)| >= 4 ==>
        && r == Success(PointRate(ToUint32(old(data)[0], old(data)[1], old(data)[2], old(data)[3])))
        && data == old(data)[4..]
      ensures |old(data)| < 4 ==> r == Failure(UnexpectedEof)
    {
      var rate :- ReadU32();
      return Success(PointRate(rate));
    }

    method ReadDataFields() returns (r: Result<Command, ReadError>)
      modifies this
      ensures |old(data)| < 2 ==> r == Failure(UnexpectedEof)
      ensures |old(data)| >= 2 ==>
        match ParsePoints(ToUint16(old(data)[0], old(data)[1]), old(data)[2..])
        case Failed(e) => r == Failure(e)
        case Parsed(c, n) => r == Success(c) && data == old(data)[n - 1..]
    {
      var n :- ReadU16();
      var points :- ReadPoints(n);
      return Success(Data(points));
    }

    // The readers of the command types, each of which checks its start byte.

    // `PrepareStream`, `Stop`, `ClearEmergencyStop` and `Ping` are a start byte and nothing else.
    method ReadUnit(c: Command) returns (r: Result<Command, ReadError>)
      requires c in {PrepareStream, Stop, ClearEmergencyStop, Ping}
      modifies this
      ensures Reads(ParseAs(KindOf(c), old(data)), old(data), r, data)
    {
      var start :- ReadU8();
      if start != StartByte(c) {
        return Failure(InvalidData);
      }
      return Success(c);
    }

    method ReadEmergencyStop() returns (r: Result<Command, ReadError>)
      modifies this
      ensures Reads(ParseAs(EmergencyStopKind, old(data)), old(data), r, data)
    {
      var start :- ReadU8();
      if start != EMERGENCY_STOP_BYTE && start != EMERGENCY_STOP_ALT_BYTE {
        return Failure(InvalidData);
      }
      return Success(EmergencyStop);
    }

    method ReadBegin() returns (r: Result<Command, ReadError>)
      modifies this
      ensures Reads(ParseAs(BeginKind, old(data)), old(data), r, data)
    {
      var start :- ReadU8();
      if start != BEGIN_BYTE {
        return Failure(InvalidData);
      }
      r := ReadBeginFields();
    }

    method ReadPointRate() returns (r: Result<Command, ReadError>)
      modifies this
      ensures Reads(ParseAs(PointRateKind, old(data)), old(data), r, data)
    {
      var start :- ReadU8();
      if start != POINT_RATE_BYTE {
        return Failure(InvalidData);
      }
      r := ReadPointRateFields();
    }

    method ReadData() returns (r: Result<Command, ReadError>)
      modifies this
      ensures Reads(ParseAs(DataKind, old(data)), old(data), r, data)
    {
      var start :- ReadU8();
      if start != DATA_BYTE {
        return Failure(InvalidData);
      }
      r := ReadDataFields();
    }

    // The reader of the type picked beforehand.
    method ReadAs(k: Kind) returns (r: Result<Command, ReadError>)
      modifies this
      ensures Reads(ParseAs(k, old(data)), old(data), r, data)
    {
      match k {
        case PrepareStreamKind => r := ReadUnit(PrepareStream);
        case BeginKind => r := ReadBegin();
        case PointRateKind => r := ReadPointRate();
        case DataKind => r := ReadData();
        case StopKind => r := ReadUnit(Stop);
        case EmergencyStopKind => r := ReadEmergencyStop();
        case ClearEmergencyStopKind => r := ReadUnit(ClearEmergencyStop);
        case PingKind => r := ReadUnit(Ping);
      }
    }

    // The runtime reader: the first byte decides which command follows.
    method ReadCommand() returns (r: Result<Command, ReadError>)
      modifies this
      ensures Reads(ParseCommand(old(data)), old(data), r, data)
    {
      var start :- ReadU8();
      if start == PREPARE_STREAM_BYTE {
        return Success(PrepareStream);
      } else if start == BEGIN_BYTE {
        r := ReadBeginFields();
      } else if start == POINT_RATE_BYTE {
        r := ReadPointRateFields();
      } else if start == DATA_BYTE {
        r := ReadDataFields();
      } else if start == STOP_BYTE {
        return Success(Stop);
      } else if start == EMERGENCY_STOP_BYTE || start == EMERGENCY_STOP_ALT_BYTE {
        return Success(EmergencyStop);
      } else if start == CLEAR_EMERGENCY_STOP_BYTE {
        return Success(ClearEmergencyStop);
      } else if start == PING_BYTE {
        return Success(Ping);
      } else {
        return Failure(InvalidData);
      }
    }
  }
}
