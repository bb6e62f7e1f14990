/**
 A whole submission over the wire: the host's command bytes are read, processed and answered by the
 emulator, with emissions at any moments in between, and the host takes in the responses.
 */
module Session {
  import opened LittleEndian
  import opened Protocol
  import opened ProtocolIO
  import opened Tcp
  import opened Dac
  import opened Engine
  import opened Emulator
  import opened Framing
  import opened Traces
  import opened Client
  import opened Wrappers

  // The emulator's side, one command at a time. The response is written through the scratch buffer, so
  // that has to be long enough for it too.
  function ServeOne(s: Engine, ctx: ReadContext, wire: Bytes): Option<(Engine, Entry, Bytes)>
    requires Bounded(s) && Usable(ctx)
  {
    match ReadFrom(ctx, wire)
    case Lost(_) => None
    case Got(ic, rest) =>
      if |ctx.scratch| < RESPONSE_SIZE then None
      else var (s', r) := ProcessInterpreted(s, ic); Some((s', Answered(ic, r), rest))
  }

  /** The emulator's end of a connection. */
  class ServedStream {
    const emulated: EmulatedDac
    const tcp: TcpStream
    const bytes: array<uint8>

    predicate Valid()
      reads this, emulated, emulated.dac
    {
      bytes.Length == ScratchSize(emulated.dac.bufferCapacity) && Bounded(emulated.Abs())
    }

    constructor (dac: DacState, tcp: TcpStream)
      ensures Valid() && fresh(emulated) && fresh(bytes)
      ensures this.tcp == tcp && emulated.dac == dac
      ensures emulated.Abs() == Connected(dac.bufferCapacity, dac.status)
    {
      this.tcp := tcp;
      emulated := new EmulatedDac(dac);
      bytes := new uint8[ScratchSize(dac.bufferCapacity)];
    }

    // The response goes out through the scratch buffer, in one write.
    method Respond(response: DacResponse) returns (ok: bool)
      requires bytes.Length >= RESPONSE_SIZE
      modifies bytes, tcp`outgoing, tcp`fates
      ensures tcp.outgoing == old(tcp.outgoing) + Written(NextFate(old(tcp.fates)), ResponseBytes(response))
      ensures ok <==> NextFate(old(tcp.fates)) != Fails
    {
      var writer := new Writer();
      writer.WriteResponse(response);
      var encoded := writer.out;
      assert encoded == ResponseBytes(response);
      forall i | 0 <= i < RESPONSE_SIZE {
        bytes[i] := encoded[i];
      }
      assert bytes[..RESPONSE_SIZE] == encoded;
      ok := tcp.Write(bytes[..RESPONSE_SIZE]);
    }

    method ReadCommandAndRespond(available: nat) returns (ok: bool)
      requires Valid() && available >= 1
      modifies tcp, bytes, emulated, emulated.dac
      ensures match ServeOne(old(emulated.Abs()), ReadContext(old(bytes[..]), available), old(tcp.incoming))
              case None => !ok
              case Some((s, entry, rest)) =>
                && Valid()
                && emulated.Abs() == s
                && tcp.incoming == rest
                && tcp.outgoing == old(tcp.outgoing) + Written(NextFate(old(tcp.fates)), ResponseBytes(entry.response))
                && (ok <==> NextFate(old(tcp.fates)) != Fails)
    {
      var read := ReadFromTcpStream(bytes, tcp, available);
      if read.Failure? || bytes.Length < RESPONSE_SIZE {
        return false;
      }
      var response := emulated.ProcessInterpretedCommand(read.value);
      ok := Respond(response);
    }
  }

  // What the emulator does next: serve a command, or poll an emission.
  datatype Tick = Serve(ctx: ReadContext) | Pass(poll: Poll)

  predicate WholeTicks(ticks: seq<Tick>, capacity: uint16) {
    forall t <- ticks :: t.Serve? ==> |t.ctx.scratch| == ScratchSize(capacity) && t.ctx.available >= 3
  }

  function Serves(ticks: seq<Tick>): nat {
    if ticks == [] then 0 else (if ticks[0].Serve? then 1 else 0) + Serves(ticks[1..])
  }

  // The emulator over a byte stream: the final state, what happened, and the bytes written.
  function ServeAll(s: Engine, wire: Bytes, ticks: seq<Tick>): (Engine, seq<Entry>, Bytes)
    requires Inv(s) && WholeTicks(ticks, s.capacity)
    decreases |ticks|
  {
    if ticks == [] then (s, [], [])
    else
      match ticks[0]
      case Pass(p) =>
        StepKeepsInv(s, Emission(p));
        var (s1, fate) := Emit(s, p);
        if Halts(fate) then (s1, [Output(fate)], [])
        else
          var (s2, trace, out) := ServeAll(s1, wire, ticks[1..]);
          (s2, [Output(fate)] + trace, out)
      case Serve(ctx) =>
        match ServeOne(s, ctx, wire)
        case None => (s, [], [])
        case Some((s1, entry, rest)) =>
          StepKeepsInv(s, Traces.Receive(entry.interpreted));
          var (s2, trace, out) := ServeAll(s1, rest, ticks[1..]);
          (s2, [entry] + trace, ResponseBytes(entry.response) + out)
  }

  // The same ticks over the command list itself.
  function Schedule(cs: seq<Command>, ticks: seq<Tick>): seq<Event>
    requires Serves(ticks) == |cs|
    decreases |ticks|
  {
    if ticks == [] then []
    else
      match ticks[0]
      case Pass(p) => [Emission(p)] + Schedule(cs, ticks[1..])
      case Serve(_) => [Traces.Receive(Known(cs[0]))] + Schedule(cs[1..], ticks[1..])
  }

  function Responses(trace: seq<Entry>): seq<DacResponse> {
    if trace == [] then []
    else (if trace[0].Answered? then [trace[0].response] else []) + Responses(trace[1..])
  }

  // The emulator's status at the moment each response was built.
  function Answering(s: Engine, events: seq<Event>): seq<Status>
    requires Inv(s)
    decreases |events|
  {
    if events == [] then []
    else
      StepKeepsInv(s, events[0]);
      var (s1, en) := Step(s, events[0]);
      (if events[0].Receive? then [s1.status] else []) +
      (if Fatal(en) then [] else Answering(s1, events[1..]))
  }

  predicate Died(trace: seq<Entry>) { trace != [] && Fatal(trace[|trace| - 1]) }

  lemma AnsweringStep(s: Engine, e: Event, events: seq<Event>)
    requires Inv(s)
    ensures Inv(Step(s, e).0)
    ensures var (s1, en) := Step(s, e);
            Answering(s, [e] + events)
            == (if e.Receive? then [s1.status] else []) + if Fatal(en) then [] else Answering(s1, events)
  {
    StepKeepsInv(s, e);
    assert ([e] + events)[1..] == events;
  }

  lemma ResponsesStep(en: Entry, trace: seq<Entry>)
    ensures Responses([en] + trace) == (if en.Answered? then [en.response] else []) + Responses(trace)
    ensures trace != [] ==> Died([en] + trace) == Died(trace)
  {
    assert ([en] + trace)[1..] == trace;
  }

  lemma ServeOneReadsBack(s: Engine, ctx: ReadContext, c: Command, tail: Bytes)
    requires Inv(s) && s.capacity >= 2 && Fits(c, s.capacity)
    requires |ctx.scratch| == ScratchSize(s.capacity) && ctx.available >= 3
    ensures var (s1, entry) := Step(s, Traces.Receive(Known(c)));
            ServeOne(s, ctx, CommandBytes(c) + tail) == Some((s1, entry, tail))
  {
    ScratchSufficesIff(s.capacity);
    ReadsBack(ctx, c, tail);
  }

  lemma ServeAllServes(s: Engine, ctx: ReadContext, wire: Bytes, s1: Engine, entry: Entry, rest: Bytes,
                       ticks: seq<Tick>)
    requires Inv(s) && WholeTicks([Serve(ctx)] + ticks, s.capacity)
    requires Usable(ctx) && ServeOne(s, ctx, wire) == Some((s1, entry, rest))
    ensures Inv(s1) && s1.capacity == s.capacity && WholeTicks(ticks, s.capacity)
    ensures var (s2, trace, out) := ServeAll(s1, rest, ticks);
            ServeAll(s, wire, [Serve(ctx)] + ticks) == (s2, [entry] + trace, ResponseBytes(entry.response) + out)
  {
    var all := [Serve(ctx)] + ticks;
    assert all[1..] == ticks;
    assert forall t | t in ticks :: t in all;
    StepKeepsInv(s, Traces.Receive(entry.interpreted));
  }

  lemma ServeAllPasses(s: Engine, p: Poll, wire: Bytes, ticks: seq<Tick>)
    requires Inv(s) && WholeTicks([Pass(p)] + ticks, s.capacity)
    ensures var (s1, fate) := Emit(s, p);
            && Inv(s1) && s1.capacity == s.capacity && WholeTicks(ticks, s.capacity)
            && var (s2, trace, out) := ServeAll(s1, wire, ticks);
               ServeAll(s, wire, [Pass(p)] + ticks)
               == if Halts(fate) then (s1, [Output(fate)], []) else (s2, [Output(fate)] + trace, out)
  {
    var all := [Pass(p)] + ticks;
    assert all[1..] == ticks;
    assert forall t | t in ticks :: t in all;
    StepKeepsInv(s, Emission(p));
  }

  // Serving the bytes of a command list is running that list: the same states, outputs and responses.
  lemma {:induction false} ServeAllRefinesRun(s: Engine, cs: seq<Command>, rest: Bytes, ticks: seq<Tick>)
    requires Inv(s) && s.capacity >= 2
    requires AllFit(cs, s.capacity) && WholeTicks(ticks, s.capacity) && Serves(ticks) == |cs|
    ensures var (s', trace) := Run(s, Schedule(cs, ticks));
            ServeAll(s, CommandsBytes(cs) + rest, ticks) == (s', trace, ResponsesBytes(Responses(trace)))
    decreases |ticks|, 0
  {
    if ticks != [] {
      assert ticks == [ticks[0]] + ticks[1..];
      match ticks[0] {
        case Pass(p) => PassRefines(s, cs, rest, p, ticks[1..]);
        case Serve(ctx) => ServeRefines(s, cs, rest, ctx, ticks[1..]);
      }
    }
  }

  lemma {:induction false} PassRefines(s: Engine, cs: seq<Command>, rest: Bytes, p: Poll, ticks: seq<Tick>)
    requires Inv(s) && s.capacity >= 2
    requires AllFit(cs, s.capacity) && WholeTicks([Pass(p)] + ticks, s.capacity) && Serves([Pass(p)] + ticks) == |cs|
    ensures var (s', trace) := Run(s, Schedule(cs, [Pass(p)] + ticks));
            ServeAll(s, CommandsBytes(cs) + rest, [Pass(p)] + ticks) == (s', trace, ResponsesBytes(Responses(trace)))
    decreases |ticks|, 1
  {
    var (s1, fate) := Emit(s, p);
    assert ([Pass(p)] + ticks)[1..] == ticks;
    ServeAllPasses(s, p, CommandsBytes(cs) + rest, ticks);
    RunStep(s, Emission(p), Schedule(cs, ticks));
    if Halts(fate) {
      ResponsesStep(Output(fate), []);
    } else {
      ServeAllRefinesRun(s1, cs, rest, ticks);
      var trace := Run(s1, Schedule(cs, ticks)).1;
      ResponsesStep(Output(fate), trace);
      assert Responses([Output(fate)] + trace) == Responses(trace);
    }
  }

  lemma {:induction false} ServeRefines(s: Engine, cs: seq<Command>, rest: Bytes, ctx: ReadContext, ticks: seq<Tick>)
    requires Inv(s) && s.capacity >= 2
    requires AllFit(cs, s.capacity)
    requires WholeTicks([Serve(ctx)] + ticks, s.capacity) && Serves([Serve(ctx)] + ticks) == |cs|
    ensures var (s', trace) := Run(s, Schedule(cs, [Serve(ctx)] + ticks));
            ServeAll(s, CommandsBytes(cs) + rest, [Serve(ctx)] + ticks) == (s', trace, ResponsesBytes(Responses(trace)))
    decreases |ticks|, 1
  {
    assert ([Serve(ctx)] + ticks)[1..] == ticks && Serve(ctx) in [Serve(ctx)] + ticks;
    assert Fits(cs[0], s.capacity) && AllFit(cs[1..], s.capacity) by {
      assert cs[0] in cs;
      assert forall c | c in cs[1..] :: c in cs;
    }
    var later := CommandsBytes(cs[1..]) + rest;
    var wire := CommandBytes(cs[0]) + later;
    assert CommandsBytes(cs) + rest == wire;
    var e := Traces.Receive(Known(cs[0]));
    ServeOneReadsBack(s, ctx, cs[0], later);
    StepKeepsInv(s, e);
    ServeAllRefinesRun(Step(s, e).0, cs[1..], rest, ticks);
    ServeJoins(s, ctx, wire, e, later, Schedule(cs[1..], ticks), ticks);
  }

  // A stream that ends, or breaks off within a command.

  lemma LostReadEnds(s: Engine, wire: Bytes, ctx: ReadContext, ticks: seq<Tick>)
    requires Inv(s) && WholeTicks([Serve(ctx)] + ticks, s.capacity)
    requires |ctx.scratch| >= 3 && ReadFrom(ctx, wire).Lost?
    ensures ServeAll(s, wire, [Serve(ctx)] + ticks) == (s, [], [])
  {}

  // Serving these bytes under these ticks comes to this run.
  predicate ServedAs(s: Engine, wire: Bytes, ticks: seq<Tick>, events: seq<Event>)
    requires Inv(s) && WholeTicks(ticks, s.capacity)
  {
    var (s', trace) := Run(s, events);
    ServeAll(s, wire, ticks) == (s', trace, ResponsesBytes(Responses(trace)))
  }

  // The first read that finds no whole command ends the service: everything before it is served as ever,
  // and nothing happens after it, neither answers nor emissions.
  lemma {:induction false} ServiceEnds(s: Engine, cs: seq<Command>, rest: Bytes, ticks: seq<Tick>, ctx: ReadContext,
                                       later: seq<Tick>)
    requires Inv(s) && s.capacity >= 2 && AllFit(cs, s.capacity) && Serves(ticks) == |cs|
    requires WholeTicks(ticks + [Serve(ctx)] + later, s.capacity)
    requires |ctx.scratch| >= 3 && ctx.available >= 1 && ReadFrom(ctx, rest).Lost?
    ensures ServedAs(s, CommandsBytes(cs) + rest, ticks + [Serve(ctx)] + later, Schedule(cs, ticks))
    decreases |ticks|
  {
    if ticks == [] {
      assert CommandsBytes(cs) + rest == rest && ticks + [Serve(ctx)] + later == [Serve(ctx)] + later;
      LostReadEnds(s, rest, ctx, later);
    } else {
      var tail := ticks[1..] + [Serve(ctx)] + later;
      assert ticks + [Serve(ctx)] + later == [ticks[0]] + tail;
      assert forall t | t in tail :: t in [ticks[0]] + tail;
      match ticks[0] {
        case Pass(p) =>
          StepKeepsInv(s, Emission(p));
          if !Halts(Emit(s, p).1) {
            ServiceEnds(Emit(s, p).0, cs, rest, ticks[1..], ctx, later);
          }
          PassJoins(s, p, CommandsBytes(cs) + rest, Schedule(cs, ticks[1..]), tail);
        case Serve(first) =>
          var e := Traces.Receive(Known(cs[0]));
          assert Fits(cs[0], s.capacity) && AllFit(cs[1..], s.capacity) by {
            assert cs[0] in cs;
            assert forall c | c in cs[1..] :: c in cs;
          }
          var wire := CommandsBytes(cs[1..]) + rest;
          assert CommandsBytes(cs) + rest == CommandBytes(cs[0]) + wire;
          assert ([Serve(first)] + tail)[0] in [Serve(first)] + tail;
          ServeOneReadsBack(s, first, cs[0], wire);
          StepKeepsInv(s, e);
          ServiceEnds(Step(s, e).0, cs[1..], rest, ticks[1..], ctx, later);
          ServeJoins(s, first, CommandBytes(cs[0]) + wire, e, wire, Schedule(cs[1..], ticks[1..]), tail);
      }
    }
  }

  // One emission passed, then the rest as in a run, is the run with that emission in front.
  lemma PassJoins(s: Engine, p: Poll, wire: Bytes, events: seq<Event>, ticks: seq<Tick>)
    requires Inv(s) && WholeTicks([Pass(p)] + ticks, s.capacity)
    requires var (s1, fate) := Emit(s, p);
             Inv(s1) && s1.capacity == s.capacity && WholeTicks(ticks, s.capacity)
             && (!Halts(fate) ==> ServedAs(s1, wire, ticks, events))
    ensures ServedAs(s, wire, [Pass(p)] + ticks, [Emission(p)] + events)
  {
    var (s1, fate) := Emit(s, p);
    ServeAllPasses(s, p, wire, ticks);
    RunStep(s, Emission(p), events);
    var trace := if Halts(fate) then [] else Run(s1, events).1;
    ResponsesStep(Output(fate), trace);
    assert [] + Responses(trace) == Responses(trace) && [Output(fate)] + [] == [Output(fate)];
  }

  // One command served, then the rest as in a run, is the run with that command in front.
  lemma ServeJoins(s: Engine, ctx: ReadContext, wire: Bytes, e: Event, later: Bytes, events: seq<Event>,
                   ticks: seq<Tick>)
    requires Inv(s) && e.Receive? && WholeTicks([Serve(ctx)] + ticks, s.capacity)
    requires Usable(ctx) && ServeOne(s, ctx, wire) == Some((Step(s, e).0, Step(s, e).1, later))
    requires var s1 := Step(s, e).0;
             && Inv(s1) && WholeTicks(ticks, s1.capacity)
             && var (s2, trace) := Run(s1, events);
                ServeAll(s1, later, ticks) == (s2, trace, ResponsesBytes(Responses(trace)))
    ensures var (s', trace) := Run(s, [e] + events);
            ServeAll(s, wire, [Serve(ctx)] + ticks) == (s', trace, ResponsesBytes(Responses(trace)))
  {
    var (s1, entry) := Step(s, e);
    var trace := Run(s1, events).1;
    ServeAllServes(s, ctx, wire, s1, entry, later, ticks);
    RunStep(s, e, events);
    ResponsesStep(entry, trace);
    ResponsesBytesStep(entry.response, Responses(trace));
  }

  // A stream that starts with a byte the emulator does not know.

  // What the same ticks come to then: each read finds the same byte again.
  function Blocked(b: uint8, ticks: seq<Tick>): seq<Event> {
    if ticks == [] then []
    else
      [match ticks[0] case Serve(_) => Traces.Receive(Unknown(b)) case Pass(p) => Emission(p)] + Blocked(b, ticks[1..])
  }

  function Passes(ticks: seq<Tick>): seq<Event> {
    if ticks == [] then []
    else (match ticks[0] case Serve(_) => [] case Pass(p) => [Emission(p)]) + Passes(ticks[1..])
  }

  predicate AllRefused(rs: seq<DacResponse>, b: uint8) {
    forall r <- rs :: r.response == NAK_INVALID && r.command == b
  }

  lemma AllRefusedStep(r: DacResponse, rs: seq<DacResponse>, b: uint8)
    requires r.response == NAK_INVALID && r.command == b && AllRefused(rs, b)
    ensures AllRefused([r] + rs, b)
  {
    assert forall x | x in [r] + rs :: x == r || x in rs;
  }

  predicate BlockedBy(s: Engine, wire: Bytes, ticks: seq<Tick>)
    requires Inv(s) && WholeTicks(ticks, s.capacity) && wire != []
  {
    var (s', trace) := Run(s, Blocked(wire[0], ticks));
    && ServeAll(s, wire, ticks) == (s', trace, ResponsesBytes(Responses(trace)))
    && AllRefused(Responses(trace), wire[0])
    && s' == Run(s, Passes(ticks)).0
  }

  // Such a byte blocks the stream for ever, whatever follows it: every read reports it again, every
  // answer is NAK - Invalid with the byte echoed, and the state is that of the emissions alone.
  lemma {:induction false} UnknownByteBlocksStream(s: Engine, wire: Bytes, ticks: seq<Tick>)
    requires Inv(s) && s.capacity >= 2 && WholeTicks(ticks, s.capacity)
    requires wire != [] && (wire[0] == EMERGENCY_STOP_ALT_BYTE || ParseCommand(wire) == Failed(InvalidData))
    ensures BlockedBy(s, wire, ticks)
    decreases |ticks|
  {
    if ticks != [] {
      var later := ticks[1..];
      assert ticks == [ticks[0]] + later;
      match ticks[0] {
        case Pass(p) =>
          StepKeepsInv(s, Emission(p));
          if !Halts(Emit(s, p).1) {
            UnknownByteBlocksStream(Emit(s, p).0, wire, later);
          }
          BlockedPass(s, wire, p, later);
        case Serve(ctx) =>
          UnknownByteBlocksStream(s, wire, later);
          BlockedServe(s, wire, ctx, later);
      }
    }
  }

  lemma BlockedPass(s: Engine, wire: Bytes, p: Poll, later: seq<Tick>)
    requires Inv(s) && WholeTicks([Pass(p)] + later, s.capacity) && wire != []
    requires var (s1, fate) := Emit(s, p);
             Inv(s1) && s1.capacity == s.capacity && WholeTicks(later, s.capacity)
             && (!Halts(fate) ==> BlockedBy(s1, wire, later))
    ensures BlockedBy(s, wire, [Pass(p)] + later)
  {
    var (s1, fate) := Emit(s, p);
    var ticks := [Pass(p)] + later;
    assert ticks[1..] == later;
    assert Blocked(wire[0], ticks) == [Emission(p)] + Blocked(wire[0], later);
    assert Passes(ticks) == [Emission(p)] + Passes(later);
    ServeAllPasses(s, p, wire, later);
    RunStep(s, Emission(p), Blocked(wire[0], later));
    RunStep(s, Emission(p), Passes(later));
    var trace := if Halts(fate) then [] else Run(s1, Blocked(wire[0], later)).1;
    ResponsesStep(Output(fate), trace);
    assert [] + Responses(trace) == Responses(trace);
    assert [Output(fate)] + [] == [Output(fate)];
  }

  lemma BlockedServe(s: Engine, wire: Bytes, ctx: ReadContext, later: seq<Tick>)
    requires Inv(s) && s.capacity >= 2 && WholeTicks([Serve(ctx)] + later, s.capacity)
    requires wire != [] && (wire[0] == EMERGENCY_STOP_ALT_BYTE || ParseCommand(wire) == Failed(InvalidData))
    requires WholeTicks(later, s.capacity) && BlockedBy(s, wire, later)
    ensures BlockedBy(s, wire, [Serve(ctx)] + later)
  {
    var b, ticks := wire[0], [Serve(ctx)] + later;
    var e := Traces.Receive(Unknown(b));
    var entry := Step(s, e).1;
    assert ticks[1..] == later && Serve(ctx) in ticks;
    assert Blocked(b, ticks) == [e] + Blocked(b, later);
    assert Passes(ticks) == [] + Passes(later) == Passes(later);
    ScratchSufficesIff(s.capacity);
    UnknownRead(ctx, wire);
    assert ServeOne(s, ctx, wire) == Some((s, entry, wire));
    ServeAllServes(s, ctx, wire, s, entry, wire, later);
    RunStep(s, e, Blocked(b, later));
    var trace := Run(s, Blocked(b, later)).1;
    ResponsesStep(entry, trace);
    ResponsesBytesStep(entry.response, Responses(trace));
    AllRefusedStep(entry.response, Responses(trace), b);
  }

  lemma ResponsesBytesStep(r: DacResponse, rs: seq<DacResponse>)
    ensures ResponsesBytes([r] + rs) == ResponseBytes(r) + ResponsesBytes(rs)
  {
    assert ([r] + rs)[1..] == rs;
  }

  predicate Echoes(cs: seq<Command>, trace: seq<Entry>, moments: seq<Status>) {
    var rs := Responses(trace);
    && |moments| == |rs| <= |cs|
    && (|rs| < |cs| ==> Died(trace))
    && forall k | 0 <= k < |rs| :: rs[k].command == StartByte(cs[k]) && rs[k].dacStatus == ToProtocol(moments[k])
  }

  lemma EchoPass(cs: seq<Command>, fate: Fate, trace: seq<Entry>, moments: seq<Status>)
    requires if Halts(fate) then trace == [] && moments == [] else Echoes(cs, trace, moments)
    ensures Echoes(cs, [Output(fate)] + trace, [] + moments)
  {
    ResponsesStep(Output(fate), trace);
    assert [] + moments == moments && [] + Responses(trace) == Responses(trace);
    if trace == [] {
      assert [Output(fate)] + trace == [Output(fate)];
    }
  }

  lemma EchoServe(cs: seq<Command>, en: Entry, status: Status, trace: seq<Entry>, moments: seq<Status>)
    requires cs != [] && Echoes(cs[1..], trace, moments)
    requires en.Answered? && en.response.command == StartByte(cs[0]) && en.response.dacStatus == ToProtocol(status)
    ensures Echoes(cs, [en] + trace, [status] + moments)
  {
    ResponsesStep(en, trace);
    var rs, later := Responses([en] + trace), Responses(trace);
    forall k | 0 <= k < |rs|
      ensures rs[k].command == StartByte(cs[k]) && rs[k].dacStatus == ToProtocol(([status] + moments)[k])
    {
      if k > 0 {
        assert rs[k] == later[k - 1] && cs[k] == cs[1..][k - 1];
      }
    }
  }

  // Every response echoes the start byte of the command in its place and carries the status of that
  // moment; there is one per command unless an emission ended the run.
  lemma {:induction false} ResponsesEcho(s: Engine, cs: seq<Command>, ticks: seq<Tick>)
    requires Inv(s) && Serves(ticks) == |cs|
    ensures var events := Schedule(cs, ticks);
            Echoes(cs, Run(s, events).1, Answering(s, events))
    decreases |ticks|
  {
    if ticks != [] {
      match ticks[0] {
        case Pass(p) =>
          var (s1, fate) := Emit(s, p);
          var events := Schedule(cs, ticks[1..]);
          RunStep(s, Emission(p), events);
          AnsweringStep(s, Emission(p), events);
          if Halts(fate) {
            EchoPass(cs, fate, [], []);
          } else {
            ResponsesEcho(s1, cs, ticks[1..]);
            EchoPass(cs, fate, Run(s1, events).1, Answering(s1, events));
          }
        case Serve(_) =>
          var e := Traces.Receive(Known(cs[0]));
          var (s1, en) := Step(s, e);
          var events := Schedule(cs[1..], ticks[1..]);
          RunStep(s, e, events);
          AnsweringStep(s, e, events);
          ResponsesEcho(s1, cs[1..], ticks[1..]);
          EchoServe(cs, en, s1.status, Run(s1, events).1, Answering(s1, events));
      }
    }
  }

  // The host's side.

  predicate NoRefusal(rs: seq<DacResponse>) {
    forall r <- rs :: r.response == ACK
  }

  predicate EmulatorsCode(r: DacResponse) { r.response in {ACK, NAK_FULL, NAK_INVALID} }

  // The emulator answers ACK, NAK - Full or NAK - Invalid.
  lemma {:induction false} EmulatorAnswers(s: Engine, events: seq<Event>)
    requires Inv(s)
    ensures forall r <- Responses(Run(s, events).1) :: EmulatorsCode(r)
    decreases |events|
  {
    if events != [] {
      var (s1, en) := Step(s, events[0]);
      RunStep(s, events[0], events[1..]);
      assert events == [events[0]] + events[1..];
      var trace := if Fatal(en) then [] else Run(s1, events[1..]).1;
      ResponsesStep(en, trace);
      assert [en] + [] == [en];
      assert en.Answered? ==> EmulatorsCode(en.response);
      if !Fatal(en) {
        EmulatorAnswers(s1, events[1..]);
      }
    }
  }


  // The position of the first refusal, or the length if there is none.
  function FirstRefusal(rs: seq<DacResponse>): (j: nat)
    ensures j <= |rs|
    ensures forall k | 0 <= k < j :: NakFromProtocol(rs[k].response).None?
    ensures j < |rs| ==> rs[j] in rs && NakFromProtocol(rs[j].response).Some?
  {
    if rs == [] || NakFromProtocol(rs[0].response).Some? then 0 else 1 + FirstRefusal(rs[1..])
  }

  // The mirror after taking in the first `n` of the statuses.
  function MirrorAfter(mirror: Status, moments: seq<Status>, n: nat): Status {
    if 0 < n <= |moments| then moments[n - 1] else mirror
  }

  // What a host sees that expects one response per command and gets these.
  function Verdicts(mirror: Status, rs: seq<DacResponse>, moments: seq<Status>, expected: nat): (Outcome, Status,
                    Bytes) {
    var j := FirstRefusal(rs);
    if j < |rs| then
      (Failure(BadResponse(rs[j], Refused(NakFromProtocol(rs[j].response).value))),
       MirrorAfter(mirror, moments, j), ResponsesBytes(rs[j + 1..]))
    else if |rs| == expected then (Success(()), MirrorAfter(mirror, moments, |rs|), [])
    else (Failure(Io), MirrorAfter(mirror, moments, |rs|), [])
  }

  lemma RecvOneOf(mirror: Status, r: DacResponse, moment: Status, tail: Bytes, expected: uint8)
    requires r.command == expected && r.dacStatus == ToProtocol(moment)
    ensures RecvOne(mirror, ResponseBytes(r) + tail, expected)
            == match NakFromProtocol(r.response)
               case Some(nak) => (Failure(BadResponse(r, Refused(nak))), mirror, tail)
               case None => (Success(()), moment, tail)
  {
    ResponseRoundTrip(r, tail);
    assert (ResponseBytes(r) + tail)[RESPONSE_SIZE..] == tail;
    UpdateAfterToProtocol(mirror, moment);
  }

  // From a synchronised stream, taking in responses succeeds exactly when all are there and none is a
  // refusal; the first refusal ends it with exactly the responses up to it consumed, and the mirror at
  // the response before.
  lemma {:induction false} PipelinedResponses(mirror: Status, rs: seq<DacResponse>, moments: seq<Status>,
                                              expected: Bytes)
    requires |moments| == |rs| <= |expected|
    requires forall k | 0 <= k < |rs| :: rs[k].command == expected[k] && rs[k].dacStatus == ToProtocol(moments[k])
    ensures RecvAll(mirror, ResponsesBytes(rs), expected) == Verdicts(mirror, rs, moments, |expected|)
    decreases |rs|
  {
    if rs != [] {
      var r, later, tail := rs[0], rs[1..], ResponsesBytes(rs[1..]);
      assert rs == [r] + later && moments == [moments[0]] + moments[1..];
      RecvOneOf(mirror, r, moments[0], tail, expected[0]);
      RecvAllStep(mirror, ResponseBytes(r) + tail, expected);
      if NakFromProtocol(r.response).Some? {
        VerdictsRefused(mirror, r, later, moments, |expected|);
      } else {
        VerdictsAccepted(mirror, r, later, moments[0], moments[1..], |expected| - 1);
        PipelinedResponses(moments[0], later, moments[1..], expected[1..]);
      }
    }
  }

  lemma RecvAllStep(mirror: Status, incoming: Bytes, expected: Bytes)
    requires expected != []
    ensures var (outcome, status, rest) := RecvOne(mirror, incoming, expected[0]);
            RecvAll(mirror, incoming, expected)
            == if outcome.Failure? then (outcome, status, rest) else RecvAll(status, rest, expected[1..])
  {}

  lemma VerdictsRefused(mirror: Status, r: DacResponse, rs: seq<DacResponse>, moments: seq<Status>, n: nat)
    requires NakFromProtocol(r.response).Some?
    ensures Verdicts(mirror, [r] + rs, moments, n)
            == (Failure(BadResponse(r, Refused(NakFromProtocol(r.response).value))), mirror, ResponsesBytes(rs))
  {
    FirstRefusalStep(r, rs);
    assert ([r] + rs)[1..] == rs;
  }

  lemma VerdictsAccepted(mirror: Status, r: DacResponse, rs: seq<DacResponse>, moment: Status, moments: seq<Status>,
                         n: nat)
    requires |moments| == |rs| <= n && NakFromProtocol(r.response).None?
    ensures Verdicts(mirror, [r] + rs, [moment] + moments, n + 1) == Verdicts(moment, rs, moments, n)
  {
    var all := [r] + rs;
    var j := FirstRefusal(rs);
    FirstRefusalStep(r, rs);
    MirrorAfterStep(mirror, moment, moments, j);
    if j < |rs| {
      assert all[j + 1] == rs[j];
      assert all[j + 2..] == rs[j + 1..];
    }
  }

  lemma MirrorAfterStep(mirror: Status, moment: Status, moments: seq<Status>, n: nat)
    requires n <= |moments|
    ensures MirrorAfter(mirror, [moment] + moments, n + 1) == MirrorAfter(moment, moments, n)
  {}

  lemma FirstRefusalStep(r: DacResponse, rs: seq<DacResponse>)
    ensures FirstRefusal([r] + rs) == if NakFromProtocol(r.response).Some? then 0 else 1 + FirstRefusal(rs)
  {
    assert ([r] + rs)[1..] == rs;
  }

  lemma StartByteAt(cs: seq<Command>, k: nat)
    requires k < |cs|
    ensures StartBytes(cs)[k] == StartByte(cs[k])
  {
    if k > 0 {
      StartByteAt(cs[1..], k - 1);
    }
  }

  // One submission: the host's bytes through the emulator and its answers back to the host.
  // How it ends for the host. An emulator that panics drops the connection; one that never leaves its
  // catch-up loop keeps it open, so a host that runs out of responses waits for ever.
  datatype Ending = Returns(outcome: Outcome) | WaitsForEver

  const SUCCESS := Returns(Success(()))

  predicate Hangs(trace: seq<Entry>) { trace != [] && trace[|trace| - 1] == Output(Diverges) }

  function EndingOf(trace: seq<Entry>, outcome: Outcome): Ending {
    if outcome == Failure(Io) && Hangs(trace) then WaitsForEver else Returns(outcome)
  }

  datatype Exchanged = Exchanged(engine: Engine, trace: seq<Entry>, ending: Ending, mirror: Status, unread: Bytes)

  function Exchange(s: Engine, mirror: Status, cs: seq<Command>, ticks: seq<Tick>): Exchanged
    requires Inv(s) && WholeTicks(ticks, s.capacity) && forall c <- cs :: Sendable(c)
  {
    var (s', trace, incoming) := ServeAll(s, CommandsBytes(cs), ticks);
    var (outcome, status, unread) := RecvAll(mirror, incoming, StartBytes(cs));
    Exchanged(s', trace, EndingOf(trace, outcome), status, unread)
  }

  // The whole of it, for every command list that fits and every interleaving with emissions: the
  // emulator goes through the run of that list, and the host's result is the one its verdicts demand.
  lemma SessionCorrect(s: Engine, mirror: Status, cs: seq<Command>, ticks: seq<Tick>)
    requires Inv(s) && s.capacity >= 2
    requires AllFit(cs, s.capacity) && WholeTicks(ticks, s.capacity) && Serves(ticks) == |cs|
    ensures var events := Schedule(cs, ticks);
            var (s', trace) := Run(s, events);
            var moments := Answering(s, events);
            var (outcome, status, unread) := Verdicts(mirror, Responses(trace), moments, |cs|);
            Exchange(s, mirror, cs, ticks) == Exchanged(s', trace, EndingOf(trace, outcome), status, unread)
  {
    var events := Schedule(cs, ticks);
    var rs := Responses(Run(s, events).1);
    ServeAllRefinesRun(s, cs, [], ticks);
    assert CommandsBytes(cs) + [] == CommandsBytes(cs);
    ResponsesEcho(s, cs, ticks);
    forall k | 0 <= k < |rs|
      ensures rs[k].command == StartBytes(cs)[k]
    {
      StartByteAt(cs, k);
    }
    PipelinedResponses(mirror, rs, Answering(s, events), StartBytes(cs));
  }

  function RefusalOf(r: DacResponse): Nak { if r.response == 'F' as int then Full else Invalid }

  predicate IsFirstRefusal(rs: seq<DacResponse>, j: nat) {
    j < |rs| && rs[j].response != 'a' as int && forall k | 0 <= k < j :: rs[k].response == 'a' as int
  }

  // How a submission of `n` commands should end for the host, told from the answers and the emulator's
  // fate alone: in success exactly when every command was acknowledged; with the first refusal, and what
  // follows it unread; and where the emulator died before it answered, with an I/O error or never.
  ghost predicate EndsRightly(rs: seq<DacResponse>, n: nat, trace: seq<Entry>, ending: Ending, unread: Bytes) {
    && |rs| <= n
    && (ending == SUCCESS <==> |rs| == n && NoRefusal(rs))
    && (forall j: nat | IsFirstRefusal(rs, j) ::
          && ending == Returns(Failure(BadResponse(rs[j], Refused(RefusalOf(rs[j])))))
          && unread == ResponsesBytes(rs[j + 1..]))
    && (NoRefusal(rs) && |rs| < n ==>
          && Died(trace)
          && ending == if trace[|trace| - 1] == Output(Diverges) then WaitsForEver else Returns(Failure(Io)))
  }

  lemma SessionEndings(s: Engine, mirror: Status, cs: seq<Command>, ticks: seq<Tick>)
    requires Inv(s) && s.capacity >= 2
    requires AllFit(cs, s.capacity) && WholeTicks(ticks, s.capacity) && Serves(ticks) == |cs|
    ensures var x := Exchange(s, mirror, cs, ticks);
            EndsRightly(Responses(x.trace), |cs|, x.trace, x.ending, x.unread)
  {
    var events := Schedule(cs, ticks);
    var trace := Run(s, events).1;
    SessionCorrect(s, mirror, cs, ticks);
    ResponsesEcho(s, cs, ticks);
    EmulatorAnswers(s, events);
    VerdictsEndRightly(Responses(trace), |cs|, trace, mirror, Answering(s, events));
  }

  lemma VerdictsEndRightly(rs: seq<DacResponse>, n: nat, trace: seq<Entry>, mirror: Status, moments: seq<Status>)
    requires |rs| <= n && (|rs| < n ==> Died(trace))
    requires forall r <- rs :: EmulatorsCode(r)
    ensures var (outcome, _, unread) := Verdicts(mirror, rs, moments, n);
            EndsRightly(rs, n, trace, EndingOf(trace, outcome), unread)
  {
    var j := FirstRefusal(rs);
    FirstRefusalInCodes(rs);
    if j < |rs| {
      assert rs[j] in rs;
      CodeOf(rs[j]);
      var (outcome, _, unread) := Verdicts(mirror, rs, moments, n);
      assert outcome == Failure(BadResponse(rs[j], Refused(RefusalOf(rs[j])))) && unread == ResponsesBytes(rs[j + 1..]);
    }
  }

  lemma CodeOf(r: DacResponse)
    requires EmulatorsCode(r)
    ensures NakFromProtocol(r.response) == if r.response == 'a' as int then None else Some(RefusalOf(r))
  {
    ChecksIff(r, r.command);
  }

  lemma FirstRefusalInCodes(rs: seq<DacResponse>)
    requires forall r <- rs :: EmulatorsCode(r)
    ensures FirstRefusal(rs) == |rs| <==> NoRefusal(rs)
    ensures forall j: nat | IsFirstRefusal(rs, j) :: j == FirstRefusal(rs)
  {
    var j := FirstRefusal(rs);
    forall k | 0 <= k < |rs|
      ensures NakFromProtocol(rs[k].response).None? <==> rs[k].response == 'a' as int
    {
      assert rs[k] in rs;
      CodeOf(rs[k]);
    }
    if j == |rs| {
      assert forall r | r in rs :: r.response == ACK;
    } else {
      assert rs[j] in rs && rs[j].response != ACK;
    }
    forall i: nat | IsFirstRefusal(rs, i)
      ensures i == j
    {
      assert NakFromProtocol(rs[i].response).Some?;
    }
  }

  // What a refused submission left unread is the first thing the next one takes in: it is rejected
  // exactly when it answers a command of another kind, and otherwise passes for the answer to the first
  // command of the new submission.
  lemma StaleResponseRejectedIff(mirror: Status, unread: Bytes, expected: Bytes)
    requires expected != [] && |unread| >= RESPONSE_SIZE
    requires var stale := ResponseAt(unread);
             stale.response == ACK && FromProtocol(stale.dacStatus).Success?
    ensures var stale := ResponseAt(unread);
            RecvAll(mirror, unread, expected)
            == if stale.command == expected[0]
               then RecvAll(FromProtocol(stale.dacStatus).value, unread[RESPONSE_SIZE..], expected[1..])
               else (Failure(BadResponse(stale, UnexpectedCommand(stale.command))), mirror, unread[RESPONSE_SIZE..])
  {
    RecvAllStep(mirror, unread, expected);
    RecvOneIff(mirror, unread, expected[0]);
    assert ACK == 'a' as int;
  }

  // Mirror agreement: after a successful nonempty submission the host's status is the emulator's at the
  // moment it built the last response, and nothing is left unread.
  lemma MirrorAgreement(s: Engine, mirror: Status, cs: seq<Command>, ticks: seq<Tick>)
    requires Inv(s) && s.capacity >= 2 && cs != []
    requires AllFit(cs, s.capacity) && WholeTicks(ticks, s.capacity) && Serves(ticks) == |cs|
    requires Exchange(s, mirror, cs, ticks).ending == SUCCESS
    ensures var x := Exchange(s, mirror, cs, ticks);
            var moments := Answering(s, Schedule(cs, ticks));
            && |moments| == |cs|
            && x.mirror == moments[|cs| - 1]
            && x.unread == []
  {
    SessionCorrect(s, mirror, cs, ticks);
    ResponsesEcho(s, cs, ticks);
  }
}
