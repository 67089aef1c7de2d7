/**
 The circuit breaker's decayed failure pressure: an incremental recurrence,
 and the sum over all past events it stands for.
 */
module CircuitPressure {
  import opened Common
  import opened HalfLife
  import opened Backoff

  datatype Circuit = Circuit(threshold: real, halfLife: Duration, cooldown: Duration, rate: real) {
    function Fading(): HalfLife {
      HalfLife(Millis(halfLife), rate)
    }

    /** Accepted by the source's `validate`, with a well-formed decay factor. */
    ghost predicate Valid() {
      threshold > 0.0 && Millis(halfLife) > 0 && Fading().Valid()
    }
  }

  /** The pressure after one more eligible event. */
  function Recorded(circuit: Circuit, pressure: real, last: Option<Duration>, now: Duration): (r: Result<real, BackoffError>) {
    match last
    case None => Ok(1.0 + pressure * 0.0)
    case Some(previous) =>
      if now < previous then Err(TimeReversed)
      else
        match DurationMillis(now - previous)
        case Err(e) => Err(e)
        case Ok(elapsed) =>
          if DurationMillis(circuit.halfLife).Err? then Err(BackoffRange)
          else Ok(1.0 + pressure * circuit.Fading().Decay(elapsed))
  }

  // ----- what the recurrence computes ----------------------------------------

  ghost predicate NonDecreasing(times: seq<Duration>) {
    forall i, j :: 0 <= i <= j < |times| ==> times[i] <= times[j]
  }

  ghost function Gap(times: seq<Duration>, j: nat): (nanos: nat)
    requires NonDecreasing(times) && 0 < j < |times|
  {
    times[j] - times[j - 1]
  }

  /** The recurrence run over a whole list of event times. */
  ghost function Pressure(h: HalfLife, times: seq<Duration>): real
    requires NonDecreasing(times)
  {
    var n := |times|;
    if n == 0 then 0.0
    else if n == 1 then 1.0
    else 1.0 + Pressure(h, times[..n - 1]) * h.Decay(Millis(Gap(times, n - 1)))
  }

  /** Whole milliseconds the recurrence has counted since event `i`. */
  ghost function Age(times: seq<Duration>, i: nat): (millis: nat)
    requires NonDecreasing(times) && i < |times|
    decreases |times| - i
  {
    if i == |times| - 1 then 0 else Millis(Gap(times, i + 1)) + Age(times, i + 1)
  }

  /** Nanoseconds dropped by counting gap by gap since event `i`. */
  ghost function Lost(times: seq<Duration>, i: nat): (nanos: nat)
    requires NonDecreasing(times) && i < |times|
    decreases |times| - i
  {
    if i == |times| - 1 then 0 else Gap(times, i + 1) % NANOS_PER_MILLI + Lost(times, i + 1)
  }

  ghost function Ages(times: seq<Duration>): (ages: seq<nat>)
    requires NonDecreasing(times)
  {
    seq(|times|, i requires 0 <= i < |times| => Age(times, i))
  }

  /** Milliseconds by the clock between each event and the last one. */
  ghost function ClockAges(times: seq<Duration>): (ages: seq<nat>)
    requires NonDecreasing(times)
  {
    seq(|times|, i requires 0 <= i < |times| => Millis(times[|times| - 1] - times[i]))
  }

  ghost function DecaySum(h: HalfLife, ages: seq<nat>): real {
    if ages == [] then 0.0 else DecaySum(h, ages[..|ages| - 1]) + h.Decay(ages[|ages| - 1])
  }

  lemma {:induction false} AgeOfLonger(times: seq<Duration>, i: nat)
    requires NonDecreasing(times) && i < |times| - 1
    ensures Age(times, i) == Age(times[..|times| - 1], i) + Millis(Gap(times, |times| - 1))
    decreases |times| - i
  {
    if i == |times| - 2 {
    } else {
      AgeOfLonger(times, i + 1);
    }
  }

  lemma DecaySumSnoc(h: HalfLife, ages: seq<nat>, n: nat)
    requires |ages| == n + 1
    ensures DecaySum(h, ages) == DecaySum(h, ages[..n]) + h.Decay(ages[n])
  {
  }

  lemma {:induction false} DecaySumShift(h: HalfLife, ages: seq<nat>, shifted: seq<nat>, extra: nat)
    requires |ages| == |shifted| && forall i :: 0 <= i < |ages| ==> shifted[i] == ages[i] + extra
    ensures DecaySum(h, shifted) == DecaySum(h, ages) * h.Decay(extra)
  {
    if ages == [] {
    } else {
      var n := |ages| - 1;
      calc {
        DecaySum(h, shifted);
        { DecaySumSnoc(h, shifted, n); }
        DecaySum(h, shifted[..n]) + h.Decay(shifted[n]);
        { DecaySumShift(h, ages[..n], shifted[..n], extra); DecayAdd(h, ages[n], extra, shifted[n]); }
        DecaySum(h, ages[..n]) * h.Decay(extra) + h.Decay(ages[n]) * h.Decay(extra);
        { Distribute(DecaySum(h, ages[..n]), h.Decay(ages[n]), h.Decay(extra)); }
        (DecaySum(h, ages[..n]) + h.Decay(ages[n])) * h.Decay(extra);
        { DecaySumSnoc(h, ages, n); }
        DecaySum(h, ages) * h.Decay(extra);
      }
    }
  }

  lemma DecayAdd(h: HalfLife, a: nat, b: nat, sum: nat)
    requires sum == a + b
    ensures h.Decay(sum) == h.Decay(a) * h.Decay(b)
  {
    PowAdd(h.rate, a, b);
  }

  lemma Distribute(x: real, y: real, z: real)
    ensures (x + y) * z == x * z + y * z
  {
  }

  lemma AgesOfLonger(times: seq<Duration>)
    requires NonDecreasing(times) && |times| > 1
    ensures var n, front := |times| - 1, Ages(times[..|times| - 1]);
      forall i :: 0 <= i < n ==> Ages(times)[..n][i] == front[i] + Millis(Gap(times, n))
  {
    forall i | 0 <= i < |times| - 1 ensures Age(times, i) == Age(times[..|times| - 1], i) + Millis(Gap(times, |times| - 1)) {
      AgeOfLonger(times, i);
    }
  }

  lemma DecaySumLast(h: HalfLife, times: seq<Duration>)
    requires NonDecreasing(times) && times != []
    ensures DecaySum(h, Ages(times)) == DecaySum(h, Ages(times)[..|times| - 1]) + 1.0
  {
    assert Ages(times)[|times| - 1] == 0;
  }

  /** The running pressure is the sum of every past event's decayed weight. */
  lemma {:induction false} PressureIsDecaySum(h: HalfLife, times: seq<Duration>)
    requires NonDecreasing(times)
    ensures Pressure(h, times) == DecaySum(h, Ages(times))
  {
    var n := |times|;
    if n == 0 {
    } else {
      DecaySumLast(h, times);
      if n > 1 {
        PressureIsDecaySum(h, times[..n - 1]);
        AgesOfLonger(times);
        DecaySumShift(h, Ages(times[..n - 1]), Ages(times)[..n - 1], Millis(Gap(times, n - 1)));
      }
    }
  }

  // ----- against the clock -------------------------------------------------------

  lemma {:induction false} ClockAge(times: seq<Duration>, i: nat)
    requires NonDecreasing(times) && i < |times|
    ensures times[|times| - 1] - times[i] == Age(times, i) * NANOS_PER_MILLI + Lost(times, i)
    ensures Lost(times, i) <= Lost(times, 0)
    decreases |times| - i
  {
    if i == |times| - 1 {
    } else {
      ClockAge(times, i + 1);
    }
    LostShrinks(times, 0, i);
  }

  lemma {:induction false} LostShrinks(times: seq<Duration>, i: nat, j: nat)
    requires NonDecreasing(times) && i <= j < |times|
    ensures Lost(times, j) <= Lost(times, i)
    decreases j - i
  {
    if i == j {
    } else {
      LostShrinks(times, i + 1, j);
    }
  }

  lemma MillisSplit(whole: nat, lost: nat)
    ensures Millis(whole * NANOS_PER_MILLI + lost) == whole + Millis(lost)
    ensures Millis(lost) == 0 <==> lost < NANOS_PER_MILLI
  {
  }

  lemma {:induction false} DecaySumCompare(h: HalfLife, younger: seq<nat>, older: seq<nat>)
    requires h.Valid()
    requires |younger| == |older| && forall i :: 0 <= i < |older| ==> younger[i] <= older[i]
    ensures DecaySum(h, older) <= DecaySum(h, younger)
    ensures DecaySum(h, older) == DecaySum(h, younger) <==> older == younger
  {
    if older == [] {
    } else {
      var n := |older| - 1;
      DecaySumCompare(h, younger[..n], older[..n]);
      DecayAntitone(h, younger[n], older[n]);
      assert older == older[..n] + [older[n]] && younger == younger[..n] + [younger[n]];
    }
  }

  /**
   The pressure never falls below the sum of decay(now - t) over all events, and
   it equals that sum exactly when the sub-millisecond parts of the gaps between
   events add up to less than a millisecond.
   */
  lemma PressureAgainstClock(h: HalfLife, times: seq<Duration>)
    requires h.Valid() && NonDecreasing(times) && times != []
    ensures DecaySum(h, ClockAges(times)) <= Pressure(h, times)
    ensures Pressure(h, times) == DecaySum(h, ClockAges(times)) <==> Lost(times, 0) < NANOS_PER_MILLI
  {
    PressureIsDecaySum(h, times);
    forall i | 0 <= i < |times|
      ensures ClockAges(times)[i] == Ages(times)[i] + Millis(Lost(times, i))
      ensures Lost(times, i) <= Lost(times, 0)
    {
      ClockAge(times, i);
      MillisSplit(Age(times, i), Lost(times, i));
    }
    DecaySumCompare(h, Ages(times), ClockAges(times));
    MillisSplit(0, Lost(times, 0));
    if Lost(times, 0) < NANOS_PER_MILLI {
      forall i | 0 <= i < |times| ensures ClockAges(times)[i] == Ages(times)[i] {
        MillisSplit(0, Lost(times, i));
      }
      assert ClockAges(times) == Ages(times);
    } else {
      assert ClockAges(times)[0] != Ages(times)[0];
    }
  }

  /** The difference is real: three events within 1.2 ms count as simultaneous. */
  lemma PressureOvercounts(h: HalfLife)
    requires h.Valid()
    ensures var times := [0, 600_000, 1_200_000];
      NonDecreasing(times) && Pressure(h, times) == 3.0 && DecaySum(h, ClockAges(times)) < 3.0
  {
    var times := [0, 600_000, 1_200_000];
    assert times[..2][..1] == [0] && times[..2] == [0, 600_000];
    assert Pressure(h, [0]) == 1.0;
    assert Pressure(h, [0, 600_000]) == 2.0;
    assert Lost(times, 2) == 0 && Lost(times, 1) == 600_000 && Lost(times, 0) == 1_200_000;
    PressureAgainstClock(h, times);
  }

  /** Whole-millisecond clocks lose nothing. */
  lemma {:induction false} WholeMillisLoseNothing(times: seq<Duration>, i: nat)
    requires NonDecreasing(times) && i < |times|
    requires forall k :: 0 <= k < |times| ==> times[k] % NANOS_PER_MILLI == 0
    ensures Lost(times, i) == 0
    decreases |times| - i
  {
    if i == |times| - 1 {
    } else {
      WholeMillisLoseNothing(times, i + 1);
      assert times[i] % NANOS_PER_MILLI == 0 && times[i + 1] % NANOS_PER_MILLI == 0;
    }
  }

  /** On whole milliseconds the pressure is the sum of decay(now - t) over all events. */
  lemma PressureOnWholeMillis(h: HalfLife, times: seq<Duration>)
    requires h.Valid() && NonDecreasing(times)
    requires forall k :: 0 <= k < |times| ==> times[k] % NANOS_PER_MILLI == 0
    ensures Pressure(h, times) == DecaySum(h, ClockAges(times))
  {
    if times != [] {
      WholeMillisLoseNothing(times, 0);
      PressureAgainstClock(h, times);
    }
  }

  /** Events a half-life apart can never add up to two. */
  lemma SpacedEventsStayBelowTwo(h: HalfLife, times: seq<Duration>)
    requires h.Valid() && h.millis > 0 && NonDecreasing(times)
    requires forall j :: 0 < j < |times| ==> Millis(Gap(times, j)) >= h.millis
    ensures 0.0 <= Pressure(h, times) < 2.0
  {
    forall j | 0 < j < |times| ensures Halves(h, times, j) {
      DecayHalves(h, Millis(Gap(times, j)));
    }
    HalvingGaps(h, times);
  }

  ghost predicate Halves(h: HalfLife, times: seq<Duration>, j: nat)
    requires NonDecreasing(times) && 0 < j < |times|
  {
    0.0 < h.Decay(Millis(Gap(times, j))) <= 0.5
  }

  lemma {:induction false} HalvingGaps(h: HalfLife, times: seq<Duration>)
    requires NonDecreasing(times) && forall j :: 0 < j < |times| ==> Halves(h, times, j)
    ensures 0.0 <= Pressure(h, times) < 2.0
  {
    var n := |times|;
    if n <= 1 {
    } else {
      var front := times[..n - 1];
      forall j | 0 < j < |front| ensures Halves(h, front, j) {
        assert Halves(h, times, j) && Gap(front, j) == Gap(times, j);
      }
      HalvingGaps(h, front);
      var p, d := Pressure(h, front), h.Decay(Millis(Gap(times, n - 1)));
      assert Halves(h, times, n - 1);
      HalfOfBelowTwo(p, d);
      assert Pressure(h, times) == 1.0 + p * d;
    }
  }

  lemma HalfOfBelowTwo(p: real, d: real)
    requires 0.0 <= p < 2.0 && 0.0 < d <= 0.5
    ensures 0.0 <= p * d < 1.0
  {
    MulMonotone(d, 0.5, p);
    MulMonotone(0.0, p, d);
  }
}
