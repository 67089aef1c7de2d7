/**
 The half-life logistic backoff: each restart is delayed by an interval that
 relaxes toward a base while nothing happens and is pulsed along a logistic
 curve toward an asymptote by each event. Recurrences are exact reals where the
 source uses floating point; durations are nanoseconds, as in the source, and
 truncated to milliseconds where it truncates them.
 */
module Backoff {
  import opened Common
  import opened HalfLife

  const NANOS_PER_MILLI: nat := 1_000_000

  type Duration = nat

  datatype BackoffError = InvalidBackoff | BackoffRange | TimeReversed

  datatype Multiplier = Multiplier(numerator: nat, denominator: nat) {
    ghost predicate Valid() {
      0 < denominator <= numerator
    }

    function Value(): real
      requires denominator > 0
    {
      numerator as real / denominator as real
    }
  }

  function Millis(d: Duration): (m: nat) {
    d / NANOS_PER_MILLI
  }

  function DurationMillis(d: Duration): (r: Result<nat, BackoffError>) {
    if Millis(d) <= U64_MAX then Ok(Millis(d)) else Err(BackoffRange)
  }

  function Ceil(x: real): (n: int)
    ensures n as real - 1.0 < x <= n as real
  {
    -((-x).Floor)
  }

  // ----- one pulse -----------------------------------------------------------

  /** The interval after `elapsed` quiet milliseconds, before the pulse. */
  function Recovered(base: nat, current: nat, h: HalfLife, elapsed: nat): real {
    base as real + (current - base) as real * h.Decay(elapsed)
  }

  /** The logistic pulse in the source's reciprocal form; the reciprocal of zero is infinite and yields zero. */
  function Pulse(x: real, asymptote: real, m: real): real
    requires x >= 0.0 && asymptote > 0.0 && m >= 1.0
  {
    if x == 0.0 then 0.0
    else
      var normalized := x / asymptote;
      PositiveQuotients(x, asymptote, m);
      asymptote * (m / (1.0 / normalized + (m - 1.0)))
  }

  function NextMillis(base: nat, current: nat, asymptote: nat, multiplier: Multiplier, h: HalfLife, elapsed: nat)
    : (r: Result<nat, BackoffError>)
    requires multiplier.Valid() && h.Valid()
  {
    if base == 0 || asymptote == 0 || h.millis == 0 then Err(InvalidBackoff)
    else
      var next := Ceil(NextInterval(base, current, asymptote, multiplier, h, elapsed));
      Ok(Min(Max(next, 0), U64_MAX))
  }

  /** The next interval before it is rounded up to whole milliseconds. */
  function NextInterval(base: nat, current: nat, asymptote: nat, multiplier: Multiplier, h: HalfLife, elapsed: nat): real
    requires multiplier.Valid() && h.Valid() && base > 0 && asymptote > 0
  {
    RecoveredBetween(base, current, h, elapsed);
    MultiplierAtLeastOne(multiplier);
    Pulse(Recovered(base, current, h, elapsed), asymptote as real, multiplier.Value())
  }

  lemma MultiplierAtLeastOne(multiplier: Multiplier)
    requires multiplier.Valid()
    ensures multiplier.Value() >= 1.0
    ensures multiplier.Value() > 1.0 <==> multiplier.numerator > multiplier.denominator
  {
    var n, d := multiplier.numerator as real, multiplier.denominator as real;
    assert multiplier.Value() * d == n;
    if multiplier.Value() < 1.0 {
      MulPositive(1.0 - multiplier.Value(), d);
    } else if multiplier.Value() > 1.0 {
      MulPositive(multiplier.Value() - 1.0, d);
    }
  }

  lemma PositiveQuotients(x: real, asymptote: real, m: real)
    requires x > 0.0 && asymptote > 0.0 && m >= 1.0
    ensures x / asymptote > 0.0
    ensures 1.0 / (x / asymptote) + (m - 1.0) > 0.0
  {
  }

  lemma RecoveredBetween(base: nat, current: nat, h: HalfLife, elapsed: nat)
    requires h.Valid()
    ensures Min(base, current) as real <= Recovered(base, current, h, elapsed) <= Max(base, current) as real
  {
    PowRange(h.rate, elapsed);
    Interpolates(base as real, (current - base) as real, h.Decay(elapsed));
  }

  lemma Interpolates(b: real, delta: real, d: real)
    requires 0.0 <= d <= 1.0
    ensures delta >= 0.0 ==> b <= b + delta * d <= b + delta
    ensures delta <= 0.0 ==> b + delta <= b + delta * d <= b
  {
    if delta >= 0.0 {
      Shrinks(delta, d);
    } else {
      Shrinks(-delta, d);
      Negated(delta, d);
    }
  }

  lemma Shrinks(x: real, d: real)
    requires x >= 0.0 && 0.0 <= d <= 1.0
    ensures 0.0 <= x * d <= x
  {
    MulMonotone(d, 1.0, x);
    MulMonotone(0.0, d, x);
  }

  lemma Negated(x: real, y: real)
    ensures (-x) * y == -(x * y) && x * (-y) == -(x * y)
  {
  }

  /** The pulse cleared of fractions: p (a + (m-1) x) == a m x. */
  lemma PulseEquation(x: real, a: real, m: real)
    requires x > 0.0 && a > 0.0 && m >= 1.0
    ensures a + (m - 1.0) * x > 0.0
    ensures Pulse(x, a, m) * (a + (m - 1.0) * x) == a * m * x
  {
    PositiveQuotients(x, a, m);
    var inverse := 1.0 / (x / a);
    var den := inverse + (m - 1.0);
    var q := m / den;
    assert inverse * (x / a) == 1.0;
    assert inverse * x == a by {
      assert (x / a) * a == x;
      assert inverse * x == (inverse * (x / a)) * a;
    }
    assert den * x == a + (m - 1.0) * x;
    assert q * den == m;
    assert a * q * (den * x) == a * (q * den) * x;
    MulMonotone(0.0, m - 1.0, x);
  }

  lemma SignOfFactor(p: real, d: real, q: real)
    requires d > 0.0 && p * d == q
    ensures q >= 0.0 <==> p >= 0.0
    ensures q > 0.0 <==> p > 0.0
  {
    if p > 0.0 {
      MulPositive(p, d);
    } else if p < 0.0 {
      MulPositive(-p, d);
      assert (-p) * d == -q;
    }
  }

  /** A pulse moves toward the asymptote and never past it. */
  lemma PulseTowardAsymptote(x: real, a: real, m: real)
    requires x > 0.0 && a > 0.0 && m >= 1.0
    ensures x <= a ==> x <= Pulse(x, a, m) <= a
    ensures x >= a ==> a <= Pulse(x, a, m) <= x
    ensures x < a && m > 1.0 ==> x < Pulse(x, a, m)
  {
    PulseEquation(x, a, m);
    var p, d := Pulse(x, a, m), a + (m - 1.0) * x;
    var gain := x * ((m - 1.0) * (a - x));
    assert (p - x) * d == gain by {
      assert (p - x) * d == p * d - x * d;
      assert x * d == x * a + x * ((m - 1.0) * x);
      assert gain == x * ((m - 1.0) * a) - x * ((m - 1.0) * x);
      assert a * m * x == x * ((m - 1.0) * a) + x * a;
    }
    assert (a - p) * d == a * (a - x) by {
      assert (a - p) * d == a * d - p * d;
      assert a * d == a * a + a * ((m - 1.0) * x);
      assert a * m * x == a * ((m - 1.0) * x) + a * x;
    }
    SignOfFactor(p - x, d, gain);
    SignOfFactor(x - p, d, -gain);
    SignOfFactor(a - p, d, a * (a - x));
    SignOfFactor(p - a, d, -(a * (a - x)));
    ProductSigns(a, a - x);
    GainSigns(x, m - 1.0, a - x);
  }

  lemma ProductSigns(u: real, v: real)
    requires u >= 0.0
    ensures v >= 0.0 ==> u * v >= 0.0
    ensures v <= 0.0 ==> u * v <= 0.0
    ensures u > 0.0 && v > 0.0 ==> u * v > 0.0
  {
  }

  lemma GainSigns(x: real, k: real, e: real)
    requires x > 0.0 && k >= 0.0
    ensures e >= 0.0 ==> x * (k * e) >= 0.0
    ensures e <= 0.0 ==> x * (k * e) <= 0.0
    ensures e > 0.0 && k > 0.0 ==> x * (k * e) > 0.0
  {
    ProductSigns(k, e);
    ProductSigns(x, k * e);
  }

  lemma PulseMonotone(x: real, y: real, a: real, m: real)
    requires 0.0 < x <= y && a > 0.0 && m >= 1.0
    ensures Pulse(x, a, m) <= Pulse(y, a, m)
  {
    PulseEquation(x, a, m);
    PulseEquation(y, a, m);
    PulseOrder(Pulse(x, a, m), Pulse(y, a, m), a + (m - 1.0) * x, a + (m - 1.0) * y, x, y, a, m, m - 1.0);
  }

  lemma PulseOrder(p: real, q: real, dx: real, dy: real, x: real, y: real, a: real, m: real, k: real)
    requires 0.0 < x <= y && a > 0.0 && m > 0.0 && dx > 0.0 && dy > 0.0
    requires dx == a + k * x && dy == a + k * y
    requires p * dx == a * m * x && q * dy == a * m * y
    ensures p <= q
  {
    MulPositive(a, m);
    MulMonotone(x, y, a);
    assert x * dy == x * a + k * (x * y);
    assert y * dx == y * a + k * (x * y);
    QuotientOrder(p, q, dx, dy, a * m, x, y);
  }

  /** Fractions c x / dx and c y / dy compare as x dy and y dx do. */
  lemma QuotientOrder(p: real, q: real, dx: real, dy: real, c: real, x: real, y: real)
    requires dx > 0.0 && dy > 0.0 && c > 0.0
    requires p * dx == c * x && q * dy == c * y
    requires x * dy <= y * dx
    ensures p <= q
  {
    MulMonotone(x * dy, y * dx, c);
    MulPositive(dx, dy);
    assert p * (dx * dy) == (x * dy) * c by {
      assert p * (dx * dy) == (p * dx) * dy;
      assert (c * x) * dy == (x * dy) * c;
    }
    assert q * (dx * dy) == (y * dx) * c by {
      assert q * (dx * dy) == (q * dy) * dx;
      assert (c * y) * dx == (y * dx) * c;
    }
    CancelFactor(p, q, dx * dy);
  }

  lemma CancelFactor(p: real, q: real, d: real)
    requires d > 0.0 && p * d <= q * d
    ensures p <= q
  {
    if p > q {
      MulPositive(p - q, d);
    }
  }

  // ----- intervals -----------------------------------------------------------

  ghost predicate Between(x: int, a: int, b: int) {
    Min(a, b) <= x <= Max(a, b)
  }

  lemma CeilWithin(x: real, lo: int, hi: int)
    requires lo as real <= x <= hi as real
    ensures lo <= Ceil(x) <= hi
  {
  }

  lemma CeilMonotone(x: real, y: real)
    requires x <= y
    ensures Ceil(x) <= Ceil(y)
  {
  }

  /** The interval stays between base and asymptote, whatever the quiet time. */
  lemma NextWithin(base: nat, current: nat, asymptote: nat, multiplier: Multiplier, h: HalfLife, elapsed: nat)
    requires multiplier.Valid() && h.Valid() && h.millis > 0
    requires 0 < base <= U64_MAX && 0 < asymptote <= U64_MAX
    requires Between(current, base, asymptote)
    ensures NextMillis(base, current, asymptote, multiplier, h, elapsed).Ok?
    ensures Between(NextMillis(base, current, asymptote, multiplier, h, elapsed).value, base, asymptote)
    ensures NextMillis(base, current, asymptote, multiplier, h, elapsed).value
         == Ceil(NextInterval(base, current, asymptote, multiplier, h, elapsed))
  {
    var x, a, m := Recovered(base, current, h, elapsed), asymptote as real, multiplier.Value();
    RecoveredBetween(base, current, h, elapsed);
    MultiplierAtLeastOne(multiplier);
    PulseTowardAsymptote(x, a, m);
    CeilWithin(Pulse(x, a, m), Min(base, asymptote), Max(base, asymptote));
  }

  lemma RecoveredMonotone(base: nat, current: nat, h: HalfLife, early: nat, late: nat)
    requires h.Valid() && early <= late
    ensures current >= base ==> Recovered(base, current, h, late) <= Recovered(base, current, h, early)
    ensures current <= base ==> Recovered(base, current, h, early) <= Recovered(base, current, h, late)
  {
    DecayAntitone(h, early, late);
    var d, e := h.Decay(late), h.Decay(early);
    var delta := (current - base) as real;
    if current >= base {
      MulMonotone(d, e, delta);
    }
    if current <= base {
      MulMonotone(d, e, -delta);
      assert d * -delta == -(delta * d) && e * -delta == -(delta * e);
    }
  }

  /** With more quiet time the next interval moves monotonically toward the pulse from base. */
  lemma NextMonotone(base: nat, current: nat, asymptote: nat, multiplier: Multiplier, h: HalfLife, early: nat, late: nat)
    requires multiplier.Valid() && h.Valid() && h.millis > 0
    requires 0 < base <= U64_MAX && 0 < asymptote <= U64_MAX
    requires Between(current, base, asymptote) && early <= late
    ensures var pulse := NextMillis(base, base, asymptote, multiplier, h, 0).value;
      var sooner := NextMillis(base, current, asymptote, multiplier, h, early).value;
      var later := NextMillis(base, current, asymptote, multiplier, h, late).value;
      && (current >= base ==> pulse <= later <= sooner)
      && (current <= base ==> sooner <= later <= pulse)
  {
    var a, m := asymptote as real, multiplier.Value();
    NextWithin(base, base, asymptote, multiplier, h, 0);
    NextWithin(base, current, asymptote, multiplier, h, early);
    NextWithin(base, current, asymptote, multiplier, h, late);
    RecoveredBetween(base, base, h, 0);
    RecoveredBetween(base, current, h, early);
    RecoveredBetween(base, current, h, late);
    RecoveredMonotone(base, current, h, early, late);
    MultiplierAtLeastOne(multiplier);
    var b, x, y := Recovered(base, base, h, 0), Recovered(base, current, h, early), Recovered(base, current, h, late);
    if current >= base {
      OrderedPulses(b, y, x, a, m);
    }
    if current <= base {
      OrderedPulses(x, y, b, a, m);
    }
  }

  lemma OrderedPulses(x: real, y: real, z: real, a: real, m: real)
    requires 0.0 < x <= y <= z && a > 0.0 && m >= 1.0
    ensures Ceil(Pulse(x, a, m)) <= Ceil(Pulse(y, a, m)) <= Ceil(Pulse(z, a, m))
  {
    PulseMonotone(x, y, a, m);
    PulseMonotone(y, z, a, m);
    CeilMonotone(Pulse(x, a, m), Pulse(y, a, m));
    CeilMonotone(Pulse(y, a, m), Pulse(z, a, m));
  }

  // ----- the backoff state over runs -------------------------------------------

  datatype Policy = Policy(
    base: Duration, multiplier: Multiplier, asymptote: Duration, recovery: Duration, rate: real)
  {
    function Recovery(): HalfLife {
      HalfLife(Millis(recovery), rate)
    }

    /** Accepted by the source's `validate`, with a well-formed multiplier and decay factor. */
    ghost predicate Valid() {
      && multiplier.Valid() && Recovery().Valid()
      && 0 < Millis(base) <= U64_MAX && 0 < Millis(asymptote) <= U64_MAX && 0 < Millis(recovery) <= U64_MAX
    }
  }

  datatype State = State(current: Duration, last: Option<Duration>)

  function Start(policy: Policy): (s: State) {
    State(policy.base, None)
  }

  function Elapsed(last: Option<Duration>, now: Duration): (r: Result<Duration, BackoffError>) {
    if last.None? then Ok(0)
    else if now < last.value then Err(TimeReversed)
    else Ok(now - last.value)
  }

  function ElapsedMillis(last: Option<Duration>, now: Duration): (r: Result<nat, BackoffError>) {
    match Elapsed(last, now)
    case Err(e) => Err(e)
    case Ok(elapsed) => DurationMillis(elapsed)
  }

  /** One backoff event: the new state, whose interval is the wait to schedule. */
  function OnBackoff(policy: Policy, s: State, now: Duration): (r: Result<State, BackoffError>)
    requires policy.Valid()
  {
    if Elapsed(s.last, now).Err? then Err(TimeReversed)
    else if DurationMillis(s.current).Err? then Err(BackoffRange)
    else
      match ElapsedMillis(s.last, now)
      case Err(e) => Err(e)
      case Ok(elapsed) =>
        match NextMillis(Millis(policy.base), Millis(s.current), Millis(policy.asymptote),
                         policy.multiplier, policy.Recovery(), elapsed)
        case Err(e) => Err(e)
        case Ok(next) => Ok(State(next * NANOS_PER_MILLI, Some(now)))
  }

  class BackoffState {
    const policy: Policy
    var current: Duration
    var last: Option<Duration>

    ghost function View(): State
      reads this
    {
      State(current, last)
    }

    constructor (policy: Policy)
      ensures this.policy == policy && View() == Start(policy)
    {
      this.policy := policy;
      current, last := policy.base, None;
    }

    method Observe(now: Duration) returns (r: Result<Duration, BackoffError>)
      requires policy.Valid()
      modifies this
      ensures match OnBackoff(policy, old(View()), now)
              case Ok(next) => View() == next && r == Ok(next.current)
              case Err(e) => View() == old(View()) && r == Err(e)
    {
      var elapsed: Duration := 0;
      if last.Some? {
        if now < last.value {
          return Err(TimeReversed);
        }
        elapsed := now - last.value;
      }
      if DurationMillis(current).Err? {
        return Err(BackoffRange);
      }
      if DurationMillis(elapsed).Err? {
        return Err(BackoffRange);
      }
      var next := NextMillis(Millis(policy.base), Millis(current), Millis(policy.asymptote),
                             policy.multiplier, policy.Recovery(), Millis(elapsed));
      current, last := next.value * NANOS_PER_MILLI, Some(now);
      return Ok(current);
    }
  }

  /** Every interval the state can hold: base and asymptote bound it. */
  ghost predicate InRange(policy: Policy, s: State) {
    Between(Millis(s.current), Millis(policy.base), Millis(policy.asymptote))
  }

  lemma OnBackoffInRange(policy: Policy, s: State, now: Duration)
    requires policy.Valid() && InRange(policy, s)
    ensures OnBackoff(policy, s, now).Ok? <==> ElapsedMillis(s.last, now).Ok?
    ensures OnBackoff(policy, s, now).Ok? ==> InRange(policy, OnBackoff(policy, s, now).value)
  {
    if ElapsedMillis(s.last, now).Ok? {
      NextWithin(Millis(policy.base), Millis(s.current), Millis(policy.asymptote),
                 policy.multiplier, policy.Recovery(), ElapsedMillis(s.last, now).value);
    }
  }

  /** State after offering events at `times`, refused ones leaving it as it was. */
  function After(policy: Policy, times: seq<Duration>): (s: State)
    requires policy.Valid()
  {
    if times == [] then Start(policy)
    else
      var s := After(policy, times[..|times| - 1]);
      match OnBackoff(policy, s, times[|times| - 1])
      case Ok(next) => next
      case Err(_) => s
  }

  /** For any event times at all, every interval lies between base and asymptote. */
  lemma {:induction false} AlwaysInRange(policy: Policy, times: seq<Duration>)
    requires policy.Valid()
    ensures InRange(policy, After(policy, times))
  {
    if times == [] {
    } else {
      var front := times[..|times| - 1];
      AlwaysInRange(policy, front);
      OnBackoffInRange(policy, After(policy, front), times[|times| - 1]);
    }
  }

  // ----- bursts ----------------------------------------------------------------

  function Repeat(t: Duration, n: nat): (times: seq<Duration>)
    ensures |times| == n
  {
    seq(n, _ => t)
  }

  function BurstMillis(policy: Policy, t: Duration, n: nat): (m: nat)
    requires policy.Valid()
  {
    Millis(After(policy, Repeat(t, n)).current)
  }

  lemma RecoveredAtOnce(base: nat, current: nat, h: HalfLife)
    ensures Recovered(base, current, h, 0) == current as real
  {
  }

  /** An immediate pulse below the asymptote gains at least one millisecond. */
  lemma ImmediateGain(base: nat, current: nat, asymptote: nat, multiplier: Multiplier, h: HalfLife)
    requires multiplier.Valid() && multiplier.numerator > multiplier.denominator
    requires h.Valid() && h.millis > 0
    requires 0 < base <= current <= asymptote <= U64_MAX
    ensures var next := NextMillis(base, current, asymptote, multiplier, h, 0);
      next.Ok? && (if current < asymptote then current < next.value <= asymptote else next.value == asymptote)
  {
    NextWithin(base, current, asymptote, multiplier, h, 0);
    MultiplierAtLeastOne(multiplier);
    RecoveredAtOnce(base, current, h);
    PulseTowardAsymptote(current as real, asymptote as real, multiplier.Value());
  }

  lemma BurstUnfolds(policy: Policy, t: Duration, n: nat)
    requires policy.Valid()
    ensures After(policy, Repeat(t, n + 1)) ==
            match OnBackoff(policy, After(policy, Repeat(t, n)), t)
            case Ok(next) => next
            case Err(_) => After(policy, Repeat(t, n))
  {
    assert Repeat(t, n + 1)[..n] == Repeat(t, n);
  }

  lemma {:induction false} BurstLast(policy: Policy, t: Duration, n: nat)
    requires policy.Valid()
    ensures n > 0 ==> After(policy, Repeat(t, n)).last == Some(t)
    ensures n == 0 ==> After(policy, Repeat(t, n)).last == None
  {
    if n == 0 {
    } else {
      BurstLast(policy, t, n - 1);
      BurstUnfolds(policy, t, n - 1);
      AlwaysInRange(policy, Repeat(t, n - 1));
      OnBackoffInRange(policy, After(policy, Repeat(t, n - 1)), t);
    }
  }

  lemma SameInstant(policy: Policy, s: State, t: Duration)
    requires policy.Valid() && InRange(policy, s) && (s.last == None || s.last == Some(t))
    ensures OnBackoff(policy, s, t).Ok?
    ensures NextMillis(Millis(policy.base), Millis(s.current), Millis(policy.asymptote),
                       policy.multiplier, policy.Recovery(), 0) == Ok(Millis(OnBackoff(policy, s, t).value.current))
  {
    OnBackoffInRange(policy, s, t);
  }

  lemma BurstStep(policy: Policy, t: Duration, n: nat)
    requires policy.Valid()
    ensures NextMillis(Millis(policy.base), BurstMillis(policy, t, n), Millis(policy.asymptote),
                       policy.multiplier, policy.Recovery(), 0) == Ok(BurstMillis(policy, t, n + 1))
  {
    BurstLast(policy, t, n);
    BurstUnfolds(policy, t, n);
    AlwaysInRange(policy, Repeat(t, n));
    SameInstant(policy, After(policy, Repeat(t, n)), t);
  }

  /** A burst with a growing multiplier climbs every step, reaches the asymptote in time, and stays there. */
  lemma {:induction false} BurstClimbs(policy: Policy, t: Duration, n: nat)
    requires policy.Valid() && policy.multiplier.numerator > policy.multiplier.denominator
    requires Millis(policy.base) < Millis(policy.asymptote)
    ensures Min(Millis(policy.base) + n, Millis(policy.asymptote)) <= BurstMillis(policy, t, n) <= Millis(policy.asymptote)
    ensures BurstMillis(policy, t, n) < Millis(policy.asymptote) ==> BurstMillis(policy, t, n) < BurstMillis(policy, t, n + 1)
    ensures n >= Millis(policy.asymptote) - Millis(policy.base) ==> BurstMillis(policy, t, n) == Millis(policy.asymptote)
  {
    if n > 0 {
      BurstClimbs(policy, t, n - 1);
      BurstStep(policy, t, n - 1);
      ImmediateGain(Millis(policy.base), BurstMillis(policy, t, n - 1), Millis(policy.asymptote),
                    policy.multiplier, policy.Recovery());
    } else {
      assert Repeat(t, 0) == [];
    }
    BurstStep(policy, t, n);
    ImmediateGain(Millis(policy.base), BurstMillis(policy, t, n), Millis(policy.asymptote),
                  policy.multiplier, policy.Recovery());
  }
}
