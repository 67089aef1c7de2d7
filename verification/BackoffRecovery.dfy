/**
 How quiet time enters the backoff, stated on the event itself: the interval decays
 toward base by one half per half-life, for every whole number of milliseconds, and
 one logistic pulse follows.
 */
module BackoffRecovery {
  import opened Common
  import opened HalfLife
  import opened Backoff

  // ----- powers -------------------------------------------------------------------------------

  lemma {:induction false} PowMul(r: real, a: nat, b: nat)
    ensures Pow(r, a * b) == Pow(Pow(r, a), b)
  {
    if b == 0 {
      assert a * b == 0;
    } else {
      var whole := a * (b - 1);
      assert a * b == a + whole;
      PowMul(r, a, b - 1);
      PowAdd(r, a, whole);
    }
  }

  /** Decay over `e` milliseconds is the `e`-th power of the root of one half that the half-life calls for. */
  lemma DecayIsRoot(h: HalfLife, e: nat)
    requires h.Valid() && h.millis > 0
    ensures 0.0 < h.Decay(e) <= 1.0 && Pow(h.Decay(e), h.millis) == Pow(0.5, e)
  {
    PowRange(h.rate, e);
    PowMul(h.rate, e, h.millis);
    PowMul(h.rate, h.millis, e);
    assert e * h.millis == h.millis * e;
  }

  /** After a whole number of half-lives the decay is that power of one half. */
  lemma DecayByHalves(h: HalfLife, n: nat)
    requires h.Valid() && h.millis > 0
    ensures h.Decay(n * h.millis) == Pow(0.5, n)
  {
    PowMul(h.rate, h.millis, n);
    assert n * h.millis == h.millis * n;
  }

  // ----- one event ------------------------------------------------------------------------------

  /** `p` is the logistic pulse from `x`: a m x / (a + (m - 1) x). */
  ghost predicate IsPulse(p: real, x: real, a: real, m: real) {
    p * (a + (m - 1.0) * x) == a * m * x
  }

  /** The interval `c` is the pulse from `x`, rounded up to a whole millisecond. */
  ghost predicate IsRoundedPulse(c: int, x: real, a: real, m: real) {
    exists p: real :: IsPulse(p, x, a, m) && c as real - 1.0 < p <= c as real
  }

  /** Whole milliseconds of quiet before an event at `now`; none before the first event. */
  ghost predicate QuietFor(s: State, now: Duration, e: nat) {
    match s.last
    case None => e == 0
    case Some(last) => last <= now && e == (now - last) / 1_000_000 <= U64_MAX
  }

  lemma QuietElapsed(s: State, now: Duration, e: nat)
    ensures QuietFor(s, now, e) <==> ElapsedMillis(s.last, now) == Ok(e)
  {
  }

  lemma PulseRounds(x: real, a: real, m: real)
    requires x > 0.0 && a > 0.0 && m >= 1.0
    ensures IsRoundedPulse(Ceil(Pulse(x, a, m)), x, a, m)
  {
    PulseEquation(x, a, m);
    assert IsPulse(Pulse(x, a, m), x, a, m);
  }

  /** The interval whose distance from base has shrunk to the fraction `d`. */
  function Decayed(base: nat, current: nat, d: real): real {
    base as real + (current - base) as real * d
  }

  lemma NextIsRoundedPulse(base: nat, current: nat, asymptote: nat, multiplier: Multiplier, h: HalfLife, e: nat)
    requires multiplier.Valid() && h.Valid() && h.millis > 0
    requires 0 < base <= U64_MAX && 0 < asymptote <= U64_MAX && Between(current, base, asymptote)
    ensures NextMillis(base, current, asymptote, multiplier, h, e).Ok?
    ensures IsRoundedPulse(NextMillis(base, current, asymptote, multiplier, h, e).value,
                           Recovered(base, current, h, e), asymptote as real, multiplier.Value())
  {
    NextWithin(base, current, asymptote, multiplier, h, e);
    RecoveredBetween(base, current, h, e);
    MultiplierAtLeastOne(multiplier);
    PulseRounds(Recovered(base, current, h, e), asymptote as real, multiplier.Value());
  }

  lemma RecoveredIsDecayed(base: nat, current: nat, h: HalfLife, e: nat)
    ensures Recovered(base, current, h, e) == Decayed(base, current, h.Decay(e))
  {
  }

  /** The factor by which the distance from base has shrunk after `e` quiet milliseconds. */
  ghost predicate IsDecay(d: real, halfLife: nat, e: nat) {
    0.0 < d <= 1.0 && Pow(d, halfLife) == Pow(0.5, e)
  }

  /** The interval an event leaves behind, given the decay factor. */
  ghost predicate RecoversWith(policy: Policy, s: State, next: State, now: Duration, d: real)
    requires policy.Valid()
  {
    var base, current := Millis(policy.base), Millis(s.current);
    && next.last == Some(now)
    && next.current == Millis(next.current) * 1_000_000
    && IsRoundedPulse(Millis(next.current), Decayed(base, current, d), Millis(policy.asymptote) as real,
                      policy.multiplier.Value())
  }

  /** Every event, after any quiet time: accepted, its interval the rounded pulse from the decayed one. */
  lemma RecoversExactly(policy: Policy, s: State, now: Duration, e: nat)
    requires policy.Valid() && InRange(policy, s) && QuietFor(s, now, e)
    ensures OnBackoff(policy, s, now).Ok?
    ensures IsDecay(policy.Recovery().Decay(e), Millis(policy.recovery), e)
    ensures RecoversWith(policy, s, OnBackoff(policy, s, now).value, now, policy.Recovery().Decay(e))
  {
    var base, current, asymptote := Millis(policy.base), Millis(s.current), Millis(policy.asymptote);
    EventIsNext(policy, s, now, e);
    DecayIsRoot(policy.Recovery(), e);
    NextIsRoundedPulse(base, current, asymptote, policy.multiplier, policy.Recovery(), e);
    RecoveredIsDecayed(base, current, policy.Recovery(), e);
    WholeMillis(NextMillis(base, current, asymptote, policy.multiplier, policy.Recovery(), e).value);
  }

  lemma EventIsNext(policy: Policy, s: State, now: Duration, e: nat)
    requires policy.Valid() && InRange(policy, s) && QuietFor(s, now, e)
    ensures var next := NextMillis(Millis(policy.base), Millis(s.current), Millis(policy.asymptote), policy.multiplier,
                                   policy.Recovery(), e);
      next.Ok? && OnBackoff(policy, s, now) == Ok(State(next.value * 1_000_000, Some(now)))
  {
    QuietElapsed(s, now, e);
    OnBackoffInRange(policy, s, now);
  }

  lemma WholeMillis(m: nat)
    ensures Millis(m * 1_000_000) == m
  {
  }

  /** An event is refused exactly when the clock ran backwards or the quiet time does not fit 64 bits. */
  lemma RefusedExactly(policy: Policy, s: State, now: Duration)
    requires policy.Valid() && InRange(policy, s)
    ensures OnBackoff(policy, s, now) == Err(TimeReversed) <==> s.last.Some? && now < s.last.value
    ensures OnBackoff(policy, s, now) == Err(BackoffRange)
       <==> s.last.Some? && s.last.value <= now && (now - s.last.value) / 1_000_000 > U64_MAX
    ensures OnBackoff(policy, s, now).Ok? <==> exists e: nat :: QuietFor(s, now, e)
  {
    OnBackoffInRange(policy, s, now);
    if ElapsedMillis(s.last, now).Ok? {
      QuietElapsed(s, now, ElapsedMillis(s.last, now).value);
    } else if e: nat :| QuietFor(s, now, e) {
      QuietElapsed(s, now, e);
    }
  }

  /** After `n` half-lives of quiet the distance from base has halved `n` times. */
  lemma RecoversByHalves(policy: Policy, s: State, now: Duration, n: nat)
    requires policy.Valid() && InRange(policy, s) && QuietFor(s, now, n * Millis(policy.recovery))
    ensures OnBackoff(policy, s, now).Ok?
    ensures RecoversWith(policy, s, OnBackoff(policy, s, now).value, now, Pow(0.5, n))
  {
    RecoversExactly(policy, s, now, n * Millis(policy.recovery));
    DecayByHalves(policy.Recovery(), n);
  }

  /** An event that comes later finds an interval at least as near to the pulse from base. */
  lemma LaterIsNearer(policy: Policy, s: State, early: Duration, late: Duration)
    requires policy.Valid() && InRange(policy, s) && early <= late
    requires OnBackoff(policy, s, early).Ok? && OnBackoff(policy, s, late).Ok?
    ensures var sooner := Millis(OnBackoff(policy, s, early).value.current);
      var later := Millis(OnBackoff(policy, s, late).value.current);
      var pulse := Millis(OnBackoff(policy, Start(policy), 0).value.current);
      && (Millis(s.current) >= Millis(policy.base) ==> pulse <= later <= sooner)
      && (Millis(s.current) <= Millis(policy.base) ==> sooner <= later <= pulse)
  {
    OnBackoffInRange(policy, s, early);
    OnBackoffInRange(policy, s, late);
    OnBackoffInRange(policy, Start(policy), 0);
    var e, l := ElapsedMillis(s.last, early).value, ElapsedMillis(s.last, late).value;
    NextMonotone(Millis(policy.base), Millis(s.current), Millis(policy.asymptote), policy.multiplier, policy.Recovery(),
                 e, l);
  }
}
