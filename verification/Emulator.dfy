/** The emulated DAC in place: command processing and the catch-up emission loop. */
module Emulator {
  import opened LittleEndian
  import opened Protocol
  import opened Dac
  import opened Engine
  import opened Timing
  import opened Wrappers

  class EmulatedDac {
    const dac: DacState
    var buffer: seq<DacPoint>
    var nextPointEmission: Option<Instant>

    function Abs(): Engine
      reads this, dac
    {
      Engine(dac.bufferCapacity, dac.status, buffer, nextPointEmission)
    }

    constructor (dac: DacState)
      ensures this.dac == dac
      ensures Abs() == Connected(dac.bufferCapacity, dac.status)
      ensures buffer == [] && nextPointEmission == None
    {
      this.dac := dac;
      buffer := [];
      nextPointEmission := None;
    }

    // The `Data` case of the next method.
    method AddPoints(points: seq<DacPoint>) returns (verdict: uint8)
      requires Bounded(Abs())
      modifies this`buffer, dac
      ensures Abs() == Effect(old(Abs()), Data(points))
      ensures verdict == Verdict(old(Abs()), Data(points))
    {
      if dac.status.lightEngine != Ready || dac.status.playback !in {Prepared, Playing} {
        return NAK_INVALID;
      }
      var currentLen := |buffer|;
      var targetLen := currentLen + |points|;
      var newLen := Min(targetLen, dac.bufferCapacity);
      buffer := buffer + points[..newLen - currentLen];
      verdict := if targetLen <= dac.bufferCapacity then ACK else NAK_FULL;
      dac.status := dac.status.(bufferFullness := |buffer| % 0x1_0000);
    }

    method ProcessCommand(command: Command) returns (response: DacResponse)
      requires Bounded(Abs())
      modifies this, dac
      ensures Abs() == Effect(old(Abs()), command)
      ensures response == Reply(old(Abs()), command)
    {
      var verdict := NAK_INVALID;
      var ready := dac.status.lightEngine == Ready;
      var playback := dac.status.playback;
      match command {
        case PrepareStream =>
          if ready && playback == Idle {
            dac.status := dac.status.(playback := Prepared);
            dac.status := dac.status.(pointCount := 0);
            dac.status := dac.status.(bufferFullness := 0);
            buffer := [];
            nextPointEmission := None;
            verdict := ACK;
          }
        case Begin(_, rate) =>
          if ready && playback == Prepared && buffer != [] {
            dac.status := dac.status.(playback := Playing);
            dac.status := dac.status.(pointRate := rate);
            verdict := ACK;
          }
        case PointRate(rate) =>
          if ready && (playback == Prepared || playback == Playing) {
            dac.status := dac.status.(pointRate := rate);
            verdict := ACK;
          }
        case Data(points) =>
          verdict := AddPoints(points);
        case Stop =>
          if ready && (playback == Prepared || playback == Playing) {
            dac.status := dac.status.(playback := Idle);
            verdict := ACK;
          }
        case EmergencyStop =>
          dac.status := dac.status.(lightEngine := EmergencyStopped);
          dac.status := dac.status.(playback := Idle);
          verdict := ACK;
        case ClearEmergencyStop =>
          if ready {
            dac.status := dac.status.(lightEngine := Ready);
            verdict := ACK;
          }
        case Ping =>
          verdict := ACK;
      }
      response := DacResponse(verdict, StartByte(command), ToProtocol(dac.status));
    }

    method ProcessInterpretedCommand(ic: Interpreted) returns (response: DacResponse)
      requires Bounded(Abs())
      modifies this, dac
      ensures (Abs(), response) == ProcessInterpreted(old(Abs()), ic)
    {
      match ic {
        case Known(c) => response := ProcessCommand(c);
        case Unknown(b) => response := DacResponse(NAK_INVALID, b, ToProtocol(dac.status));
      }
    }

    // The part of the emission future after its timer. An interval of zero with a slot due would keep
    // the loop turning for ever; that outcome is returned instead of entered.
    method CatchUp(now: Instant) returns (fate: Fate)
      requires nextPointEmission.Some?
      modifies this, dac
      ensures (Abs(), fate) == Fire(old(Abs()), now)
    {
      var rate := RateInterval(dac.status.pointRate);
      if rate.None? {
        return Panicked;
      }
      var interval := rate.value;
      var next := nextPointEmission.value;
      if interval == 0 && next < now {
        return Diverges;
      }
      var output: seq<DacPoint> := [];
      ghost var start := next;
      ghost var slots: nat := 0;
      while next < now
        invariant dac.status == old(dac.status)
        invariant next == start + slots * interval
        invariant slots > 0 ==> start + (slots - 1) * interval < now
        invariant |output| == Min(slots, |old(buffer)|)
        invariant output == old(buffer)[..|output|] && buffer == old(buffer)[|output|..]
        decreases now - next
      {
        next := next + interval;
        if buffer != [] {
          output := output + [buffer[0]];
          buffer := buffer[1..];
        }
        assert (slots + 1) * interval == slots * interval + interval;
        slots := slots + 1;
      }
      nextPointEmission := Some(next);
      if interval > 0 {
        SlotsUnique(start, now, interval, slots);
      } else {
        assert slots == 0;
      }
      dac.status := dac.status.(bufferFullness := |buffer| % 0x1_0000);
      dac.status := dac.status.(pointCount := (dac.status.pointCount + |output|) % 0x1_0000_0000);
      fate := if output == [] then Underflowed else Batch(output);
    }

    // The emission future from its first poll on.
    method EmitPoints(p: Poll) returns (fate: Fate)
      modifies this, dac
      ensures (Abs(), fate) == Emit(old(Abs()), p)
    {
      if dac.status.playback != Playing {
        return NotPlaying;
      }
      if nextPointEmission.None? {
        nextPointEmission := Some(p.armed);
      }
      fate := CatchUp(p.fired);
    }
  }
}
