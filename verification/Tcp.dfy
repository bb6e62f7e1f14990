/** One end of a TCP connection: the bytes that will arrive, up to the end of the stream, and those sent. */
module Tcp {
  import opened LittleEndian
  import opened Wrappers

  // What becomes of one call of `write`: it may take fewer bytes than it was given, or fail.
  datatype WriteOutcome = Entirely | Partly(n: nat) | Fails

  // What becomes of the writes to come, in order; entire where the list ends.
  type Fates = seq<WriteOutcome>

  function NextFate(fates: Fates): WriteOutcome { if fates == [] then Entirely else fates[0] }

  function Later(fates: Fates): Fates { if fates == [] then [] else fates[1..] }

  function Written(w: WriteOutcome, bytes: Bytes): Bytes {
    match w
    case Entirely => bytes
    case Partly(n) => bytes[..Min(n, |bytes|)]
    case Fails => []
  }

  class TcpStream {
    var incoming: Bytes
    var outgoing: Bytes
    var fates: Fates

    constructor (incoming: Bytes, fates: Fates)
      ensures this.incoming == incoming && outgoing == [] && this.fates == fates
    {
      this.incoming := incoming;
      this.outgoing := [];
      this.fates := fates;
    }

    // Copy up to `n` of the bytes that have arrived to the front of `bytes` without consuming them.
    method Peek(bytes: array<uint8>, n: nat, available: nat) returns (seen: nat)
      requires n <= bytes.Length
      modifies bytes
      ensures seen == Min(n, Min(available, |incoming|))
      ensures bytes[..] == incoming[..seen] + old(bytes[seen..])
    {
      seen := Min(n, Min(available, |incoming|));
      for i := 0 to seen
        invariant bytes[..i] == incoming[..i]
        invariant bytes[i..] == old(bytes[i..])
      {
        bytes[i] := incoming[i];
      }
    }

    // Consume exactly `n` bytes into the front of `bytes`, or the rest of a stream that ends first.
    method ReadExact(bytes: array<uint8>, n: nat) returns (ok: bool)
      requires n <= bytes.Length
      modifies this`incoming, bytes
      ensures ok <==> n <= |old(incoming)|
      ensures incoming == if ok then old(incoming)[n..] else []
      ensures ok ==> bytes[..] == old(incoming)[..n] + old(bytes[n..])
    {
      ok := n <= |incoming|;
      var seen := Peek(bytes, n, n);
      incoming := incoming[seen..];
    }

    // One `write`. Neither end of the program looks at how many bytes were taken.
    method Write(bytes: Bytes) returns (ok: bool)
      modifies this`outgoing, this`fates
      ensures ok <==> NextFate(old(fates)) != Fails
      ensures outgoing == old(outgoing) + Written(NextFate(old(fates)), bytes)
      ensures match NextFate(old(fates))
              case Entirely => outgoing == old(outgoing) + bytes
              case Partly(n) => n <= |bytes| ==> outgoing == old(outgoing) + bytes[..n]
              case Fails => outgoing == old(outgoing)
      ensures fates == Later(old(fates))
    {
      var fate := NextFate(fates);
      fates := Later(fates);
      outgoing := outgoing + Written(fate, bytes);
      ok := fate != Fails;
    }
  }
}
