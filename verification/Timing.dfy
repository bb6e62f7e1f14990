/** The emission clock: what the catch-up loop computes, and what that means for the playback rate. */
module Timing {
  import opened LittleEndian
  import opened Protocol
  import opened Dac
  import opened Engine
  import opened Wrappers

  const SECOND: nat := 1_000_000_000

  lemma MulMonotone(a: int, b: int, c: nat)
    requires a <= b
    ensures a * c <= b * c
  {
    assert (b - a) * c >= 0;
  }

  // The interval is the whole number of nanoseconds in one period, and it is missing or empty exactly
  // for the rates the emission loop cannot run at.
  lemma IntervalIsFloor(hz: uint32)
    ensures RateInterval(hz).None? <==> hz == 0
    ensures hz != 0 ==> RateInterval(hz) == Some(SECOND / hz)
    ensures RateInterval(hz) == Some(0) <==> hz > SECOND
  {
    if hz != 0 {
      var h := hz as real;
      var period := 1.0 / h;
      assert period * h == 1.0;
      var q := SECOND / hz;
      assert q * hz <= SECOND < (q + 1) * hz;
      if hz == 1 {
        assert period == 1.0;
      } else {
        assert 0.0 < period < 1.0 by {
          if period >= 1.0 {
            RealMulMonotone(1.0, period, h);
          }
        }
        assert period.Floor == 0;
        var x := 1_000_000_000.0 * period;
        assert x * h == 1_000_000_000.0;
        FloorOfQuotient(x, h, q, hz);
      }
      if q == 0 {
        assert SECOND < hz;
      } else {
        MulMonotone(1, q, hz);
      }
    }
  }

  lemma RealMulMonotone(a: real, b: real, c: real)
    requires a <= b && c >= 0.0
    ensures a * c <= b * c
  {
    assert (b - a) * c >= 0.0;
  }

  lemma RealMulStrict(a: real, b: real, c: real)
    requires a < b && c > 0.0
    ensures a * c < b * c
  {
    assert (b - a) * c > 0.0;
  }

  lemma FloorOfQuotient(x: real, h: real, q: nat, hz: nat)
    requires hz > 0 && h == hz as real
    requires q * hz <= SECOND < (q + 1) * hz
    requires x * h == SECOND as real
    ensures x.Floor == q
  {
    var r := q as real;
    assert r * h == (q * hz) as real;
    assert (r + 1.0) * h == ((q + 1) * hz) as real;
    if x < r {
      RealMulStrict(x, r, h);
    }
    if x >= r + 1.0 {
      RealMulMonotone(r + 1.0, x, h);
    }
  }

  // The program computes the reciprocal and its product with 10^9 in 64-bit floating point, each with a
  // relative error of at most 2^-53.
  const UNIT_ROUNDOFF: real := 1.0 / 9_007_199_254_740_992.0

  predicate Rounded(computed: real, exact: real) {
    exact * (1.0 - UNIT_ROUNDOFF) <= computed <= exact * (1.0 + UNIT_ROUNDOFF)
  }

  // However those two results are rounded, the interval is the exact one, or one nanosecond shorter, the
  // latter only at rates that divide 10^9. (At 1 Hz nothing is rounded.)
  lemma RoundedInterval(hz: uint32, reciprocal: real, nanos: real)
    requires hz >= 2
    requires Rounded(reciprocal, 1.0 / hz as real) && Rounded(nanos, 1_000_000_000.0 * reciprocal)
    ensures 0.0 < reciprocal < 1.0
    ensures nanos.Floor == SECOND / hz || (SECOND % hz == 0 && nanos.Floor == SECOND / hz - 1)
  {
    var h := hz as real;
    var exact := 1.0 / h;
    var x := reciprocal * h;
    assert exact * h == 1.0;
    ScaledRounding(reciprocal, exact, h, 1.0);
    if reciprocal >= 1.0 {
      RealMulMonotone(1.0, reciprocal, h);
    }
    if reciprocal <= 0.0 {
      RealMulMonotone(reciprocal, 0.0, h);
    }
    ScaledRounding(nanos, 1_000_000_000.0 * reciprocal, h, 1_000_000_000.0 * x);
    NearlyBillion(nanos * h, x);
    FloorOfNearQuotient(nanos, h, SECOND / hz, hz);
  }

  lemma ScaledRounding(computed: real, exact: real, h: real, scaled: real)
    requires Rounded(computed, exact) && h >= 0.0 && scaled == exact * h
    ensures scaled * (1.0 - UNIT_ROUNDOFF) <= computed * h <= scaled * (1.0 + UNIT_ROUNDOFF)
  {
    RealMulMonotone(exact * (1.0 - UNIT_ROUNDOFF), computed, h);
    RealMulMonotone(computed, exact * (1.0 + UNIT_ROUNDOFF), h);
  }

  lemma NearlyBillion(y: real, x: real)
    requires 1.0 - UNIT_ROUNDOFF <= x <= 1.0 + UNIT_ROUNDOFF
    requires (1_000_000_000.0 * x) * (1.0 - UNIT_ROUNDOFF) <= y <= (1_000_000_000.0 * x) * (1.0 + UNIT_ROUNDOFF)
    ensures 999_999_999.0 < y < 1_000_000_001.0
  {}

  lemma RealDivide(a: real, b: real, h: real, ah: real, bh: real)
    requires h > 0.0 && ah == a * h && bh == b * h && ah < bh
    ensures a < b
  {
    if a >= b {
      RealMulMonotone(b, a, h);
    }
  }

  lemma ProductAsReal(n: int, hz: nat)
    ensures n as real * hz as real == (n * hz) as real
  {
    var (r, h) := (n as real, hz as real);
    assert r * h == (n * hz) as real;
  }

  // Comparing a quotient with a whole number, where the product is known to the nearest whole number.
  lemma QuotientBelow(y: real, h: real, n: int, product: int)
    requires h > 0.0 && n as real * h == product as real
    requires y * h < 1_000_000_001.0 && product >= SECOND + 1
    ensures y < n as real
  {
    var r := n as real;
    RealDivide(y, r, h, y * h, product as real);
  }

  lemma QuotientAbove(y: real, h: real, n: int, product: int)
    requires h > 0.0 && n as real * h == product as real
    requires y * h > 999_999_999.0 && product <= SECOND - 1
    ensures n as real < y
  {
    var r := n as real;
    RealDivide(r, y, h, product as real, y * h);
  }

  lemma FloorOfNearQuotient(y: real, h: real, q: nat, hz: nat)
    requires hz > 0 && h == hz as real && q == SECOND / hz
    requires 999_999_999.0 < y * h < 1_000_000_001.0
    ensures y.Floor == q || (SECOND % hz == 0 && y.Floor == q - 1)
  {
    assert q * hz + SECOND % hz == SECOND;
    assert (q + 1) * hz == q * hz + hz && (q - 1) * hz == q * hz - hz;
    ProductAsReal(q + 1, hz);
    ProductAsReal(q, hz);
    ProductAsReal(q - 1, hz);
    QuotientBelow(y, h, q + 1, (q + 1) * hz);
    QuotientAbove(y, h, q - 1, (q - 1) * hz);
    if SECOND % hz > 0 {
      QuotientAbove(y, h, q, q * hz);
    }
    FloorBetween(y, q);
  }

  lemma FloorBetween(y: real, q: nat)
    requires q as real - 1.0 <= y < q as real + 1.0
    ensures y.Floor == if y < q as real then q - 1 else q
  {}

  // The slot count is the ceiling of the elapsed time over the interval.
  lemma SlotsAreCeiling(next: Instant, now: Instant, interval: nat)
    requires interval > 0
    ensures var k := Slots(next, now, interval);
            && now <= next + k * interval
            && (k > 0 ==> next + (k - 1) * interval < now)
  {
    if next < now {
      var t := now - next + interval - 1;
      var k := t / interval;
      assert t == k * interval + t % interval;
      assert (k - 1) * interval == k * interval - interval;
    }
  }

  // ... and it is the only number with that property, so a loop that counts slots finds it.
  lemma SlotsUnique(next: Instant, now: Instant, interval: nat, k: nat)
    requires interval > 0
    requires now <= next + k * interval
    requires k > 0 ==> next + (k - 1) * interval < now
    ensures k == Slots(next, now, interval)
  {
    var m := Slots(next, now, interval);
    SlotsAreCeiling(next, now, interval);
    if k < m {
      MulMonotone(k, m - 1, interval);
    } else if m < k {
      MulMonotone(m, k - 1, interval);
    }
  }

  // The catch-up loop ends exactly when it has nothing to do or a positive interval to do it with.
  lemma CatchUpEndsIff(next: Instant, now: Instant, interval: nat)
    ensures (exists k: nat :: now <= next + k * interval) <==> now <= next || interval > 0
  {
    if now <= next {
      assert now <= next + 0 * interval;
    } else if interval > 0 {
      SlotsAreCeiling(next, now, interval);
      assert now <= next + Slots(next, now, interval) * interval;
    }
  }

  // Stopping at an intermediate instant and going on passes the same slots as going there directly.
  lemma SlotsCompose(next: Instant, t1: Instant, t2: Instant, interval: nat)
    requires interval > 0 && t1 <= t2
    ensures var k1 := Slots(next, t1, interval);
            Slots(next, t2, interval) == k1 + Slots(next + k1 * interval, t2, interval)
  {
    var k1 := Slots(next, t1, interval);
    var mid := next + k1 * interval;
    var k2 := Slots(mid, t2, interval);
    SlotsAreCeiling(next, t1, interval);
    SlotsAreCeiling(mid, t2, interval);
    assert (k1 + k2) * interval == k1 * interval + k2 * interval;
    assert (k1 + k2 - 1) * interval == k1 * interval + (k2 - 1) * interval;
    SlotsUnique(next, t2, interval, k1 + k2);
  }

  // A number of points shown over an elapsed time that is right for the rate.
  predicate KeepsRate(shown: nat, elapsed: int, hz: uint32) {
    && elapsed * hz <= shown * SECOND
    && (shown - 1) * (SECOND - hz) <= elapsed * hz
  }

  // Over an elapsed time T the slot count follows the requested rate with no accumulating error: it is
  // never behind it, and ahead of it by no more than the first slot and the rounding of the interval.
  lemma RateBound(hz: uint32, next: Instant, now: Instant)
    requires 1 <= hz <= SECOND && next < now
    ensures KeepsRate(Slots(next, now, RateInterval(hz).value), now - next, hz)
  {
    IntervalIsFloor(hz);
    var interval := SECOND / hz;
    var k := Slots(next, now, interval);
    SlotsAreCeiling(next, now, interval);
    assert SECOND == interval * hz + SECOND % hz;
    NeverBehind(k, interval, hz, now - next);
    NeverFarAhead(k, interval, hz, now - next);
  }

  lemma NeverBehind(k: nat, interval: nat, hz: nat, elapsed: nat)
    requires elapsed <= k * interval && interval * hz <= SECOND
    ensures elapsed * hz <= k * SECOND
  {
    MulMonotone(elapsed, k * interval, hz);
    assert (k * interval) * hz == (interval * hz) * k;
    MulMonotone(interval * hz, SECOND, k);
  }

  lemma NeverFarAhead(k: nat, interval: nat, hz: nat, elapsed: nat)
    requires k > 0 ==> (k - 1) * interval < elapsed
    requires SECOND - hz < interval * hz && hz <= SECOND
    ensures (k - 1) * (SECOND - hz) <= elapsed * hz
  {
    if k > 0 {
      MulMonotone((k - 1) * interval, elapsed, hz);
      assert ((k - 1) * interval) * hz == (interval * hz) * (k - 1);
      MulMonotone(SECOND - hz, interval * hz, k - 1);
    } else {
      assert (k - 1) * (SECOND - hz) <= 0 <= elapsed * hz;
    }
  }

  // One emission: either the rate is unusable, or one point leaves per slot while there are points,
  // and the outcome is `Underflowed` exactly when no slot was due or nothing was queued.
  lemma FireOutcome(s: Engine, now: Instant)
    requires s.next.Some?
    ensures var (s', fate) := Fire(s, now);
            && (fate.Panicked? <==> s.status.pointRate == 0)
            && (fate.Diverges? <==> s.status.pointRate > SECOND && s.next.value < now)
            && (fate.Underflowed? ==> s'.buffer == s.buffer)
            && (!Halts(fate) ==>
                  && (fate.Underflowed? <==> now <= s.next.value || s.buffer == [])
                  && Points(fate) + s'.buffer == s.buffer
                  && |Points(fate)|
                     == Min(|s.buffer|, Slots(s.next.value, now, RateInterval(s.status.pointRate).value)))
  {
    IntervalIsFloor(s.status.pointRate);
    if s.next.value < now && 1 <= s.status.pointRate <= SECOND {
      SlotsAreCeiling(s.next.value, now, RateInterval(s.status.pointRate).value);
    }
  }

  // A sequence of emissions with no command in between.
  function EmitAll(s: Engine, polls: seq<Poll>): (Engine, seq<DacPoint>)
    decreases |polls|
  {
    if polls == [] then (s, [])
    else
      var (s1, fate) := Emit(s, polls[0]);
      var (s2, out) := EmitAll(s1, polls[1..]);
      (s2, Points(fate) + out)
  }

  predicate Nondecreasing(polls: seq<Poll>) {
    forall i, j | 0 <= i < j < |polls| :: polls[i].fired <= polls[j].fired
  }

  predicate Emitting(s: Engine) {
    s.status.playback == Playing && 1 <= s.status.pointRate <= SECOND
  }

  lemma CountWraps(c: nat, a: nat, b: nat)
    ensures ((c + a) % 0x1_0000_0000 + b) % 0x1_0000_0000 == (c + (a + b)) % 0x1_0000_0000
  {
    var q := (c + a) / 0x1_0000_0000;
    assert c + (a + b) == (c + a) % 0x1_0000_0000 + b + q * 0x1_0000_0000;
  }

  lemma DropTwice(buffer: seq<DacPoint>, k1: nat, k2: nat)
    ensures var n1 := Min(k1, |buffer|);
            var n2 := Min(k2, |buffer[n1..]|);
            && n1 + n2 == Min(k1 + k2, |buffer|)
            && buffer[n1..][n2..] == buffer[n1 + n2..]
  {}

  lemma AdvanceTwice(s: Engine, k1: nat, k2: nat, interval: nat)
    requires s.next.Some?
    ensures Advance(Advance(s, k1, interval), k2, interval) == Advance(s, k1 + k2, interval)
  {
    var n1 := Min(k1, |s.buffer|);
    DropTwice(s.buffer, k1, k2);
    CountWraps(s.status.pointCount, n1, Min(k2, |s.buffer| - n1));
    SlotTimesAdd(s.next.value, k1, k2, interval);
  }

  lemma SlotTimesAdd(next: Instant, k1: nat, k2: nat, interval: nat)
    ensures next + (k1 + k2) * interval == (next + k1 * interval) + k2 * interval
  {}

  // At a usable rate an emission is an advance by the slots passed, and hands out what it removes.
  lemma EmitAdvances(s: Engine, p: Poll)
    requires Emitting(s)
    ensures var (s', fate) := Emit(s, p);
            var armed := Arm(s, p.armed);
            var interval := SECOND / s.status.pointRate;
            && interval > 0
            && s' == Advance(armed, Slots(armed.next.value, p.fired, interval), interval)
            && Points(fate) + s'.buffer == s.buffer
            && Emitting(s')
  {
    IntervalIsFloor(s.status.pointRate);
  }

  lemma PrefixesJoin(buffer: seq<DacPoint>, out1: seq<DacPoint>, left1: seq<DacPoint>,
                     out2: seq<DacPoint>, left2: seq<DacPoint>, out: seq<DacPoint>)
    requires out1 + left1 == buffer && out2 + left2 == left1 && out + left2 == buffer
    ensures out1 + out2 == out
  {
    assert (out1 + out2) + left2 == out + left2;
    assert out1 + out2 == buffer[..|out|];
  }

  lemma AdvanceToSlots(armed: Engine, t1: Instant, t2: Instant, interval: nat)
    requires armed.next.Some? && interval > 0 && t1 <= t2
    ensures var mid := Advance(armed, Slots(armed.next.value, t1, interval), interval);
            Advance(mid, Slots(mid.next.value, t2, interval), interval)
            == Advance(armed, Slots(armed.next.value, t2, interval), interval)
  {
    var k1 := Slots(armed.next.value, t1, interval);
    var mid := Advance(armed, k1, interval);
    SlotsCompose(armed.next.value, t1, t2, interval);
    AdvanceTwice(armed, k1, Slots(mid.next.value, t2, interval), interval);
  }

  // Two emissions in a row are one emission at the later instant.
  lemma EmitTwice(s: Engine, p: Poll, q: Poll)
    requires Emitting(s) && p.fired <= q.fired
    ensures var (s1, f1) := Emit(s, p);
            var (s2, f2) := Emit(s1, q);
            var (once, f) := Emit(s, Poll(p.armed, q.fired));
            && Emitting(s1)
            && s2 == once
            && Points(f1) + Points(f2) == Points(f)
  {
    var (s1, f1) := Emit(s, p);
    var (s2, f2) := Emit(s1, q);
    var (once, f) := Emit(s, Poll(p.armed, q.fired));
    var armed := Arm(s, p.armed);
    var interval := SECOND / s.status.pointRate;
    EmitAdvances(s, p);
    assert Arm(s1, q.armed) == s1;
    EmitAdvances(s1, q);
    EmitAdvances(s, Poll(p.armed, q.fired));
    AdvanceToSlots(armed, p.fired, q.fired, interval);
    PrefixesJoin(s.buffer, Points(f1), s1.buffer, Points(f2), s2.buffer, Points(f));
  }

  // However often the emission future is polled, at a fixed rate with no command in between, the
  // output, the queue, the next slot and the counters are those of one emission at the last instant.
  lemma {:induction false} PollScheduleIndependence(s: Engine, polls: seq<Poll>)
    requires Emitting(s) && polls != [] && Nondecreasing(polls)
    ensures var (s', fate) := Emit(s, Poll(polls[0].armed, polls[|polls| - 1].fired));
            EmitAll(s, polls) == (s', Points(fate))
    decreases |polls|
  {
    var (s1, f1) := Emit(s, polls[0]);
    if |polls| == 1 {
      assert EmitAll(s1, polls[1..]) == (s1, []);
      assert Points(f1) + [] == Points(f1);
    } else {
      var rest := polls[1..];
      var last := polls[|polls| - 1];
      assert rest[|rest| - 1] == last;
      EmitTwice(s, polls[0], Poll(rest[0].armed, last.fired));
      PollScheduleIndependence(s1, rest);
    }
  }
}
