/**
 Exponential decay by half-life, in exact arithmetic.

 The source computes 2^-(elapsed / half_life) in floating point. Here a
 half-life carries `rate`, the factor kept over one millisecond, so that the
 decay over `k` milliseconds is `rate` to the `k`-th power and the laws of decay
 are theorems rather than assumptions.
 */
module HalfLife {
  function Pow(r: real, k: nat): real {
    if k == 0 then 1.0 else r * Pow(r, k - 1)
  }

  datatype HalfLife = HalfLife(millis: nat, rate: real) {
    function Decay(elapsed: nat): real {
      Pow(rate, elapsed)
    }

    /** `rate` is the positive root of rate^millis == 1/2; a zero half-life carries any factor. */
    ghost predicate Valid() {
      0.0 < rate < 1.0 && (millis > 0 ==> Pow(rate, millis) == 0.5)
    }
  }

  lemma MulPositive(a: real, b: real)
    requires a > 0.0 && b > 0.0
    ensures a * b > 0.0
  {
  }

  lemma MulMonotone(a: real, b: real, c: real)
    requires a <= b && c >= 0.0
    ensures a * c <= b * c
  {
    assert (b - a) * c >= 0.0;
  }

  lemma {:induction false} PowRange(r: real, k: nat)
    requires 0.0 < r < 1.0
    ensures 0.0 < Pow(r, k) <= 1.0
    ensures k > 0 ==> Pow(r, k) < 1.0
  {
    if k == 0 {
    } else {
      PowRange(r, k - 1);
      MulPositive(r, Pow(r, k - 1));
      MulMonotone(Pow(r, k - 1), 1.0, r);
    }
  }

  lemma Regrouped(r: real, x: real, y: real)
    ensures r * (x * y) == (r * x) * y
  {
  }

  lemma {:induction false} PowAdd(r: real, a: nat, b: nat)
    ensures Pow(r, a + b) == Pow(r, a) * Pow(r, b)
  {
    if a == 0 {
    } else {
      calc {
        Pow(r, a + b);
        r * Pow(r, a - 1 + b);
        { PowAdd(r, a - 1, b); }
        r * (Pow(r, a - 1) * Pow(r, b));
        { Regrouped(r, Pow(r, a - 1), Pow(r, b)); }
        (r * Pow(r, a - 1)) * Pow(r, b);
        Pow(r, a) * Pow(r, b);
      }
    }
  }

  lemma ScaleDown(x: real, y: real)
    requires x > 0.0 && 0.0 < y <= 1.0
    ensures y * x <= x
    ensures y < 1.0 ==> y * x < x
  {
    MulMonotone(y, 1.0, x);
    if y < 1.0 {
      MulPositive(1.0 - y, x);
      assert (1.0 - y) * x == x - y * x;
    }
  }

  lemma PowStep(r: real, k: nat)
    requires 0.0 < r < 1.0 && k > 0
    ensures Pow(r, k) < Pow(r, k - 1)
  {
    var x := Pow(r, k - 1);
    PowRange(r, k - 1);
    ScaleDown(x, r);
    assert Pow(r, k) == r * x;
  }

  lemma {:induction false} PowAntitone(r: real, a: nat, b: nat)
    requires 0.0 < r < 1.0 && a <= b
    ensures Pow(r, b) <= Pow(r, a)
    ensures a < b ==> Pow(r, b) < Pow(r, a)
    decreases b
  {
    if a == b {
    } else {
      PowAntitone(r, a, b - 1);
      PowStep(r, b);
    }
  }

  /** Longer silence decays further, strictly. */
  lemma DecayAntitone(h: HalfLife, a: nat, b: nat)
    requires h.Valid() && a <= b
    ensures h.Decay(b) <= h.Decay(a)
    ensures a < b ==> h.Decay(b) < h.Decay(a)
  {
    PowAntitone(h.rate, a, b);
  }

  /** One half-life or more of silence keeps at most half. */
  lemma DecayHalves(h: HalfLife, elapsed: nat)
    requires h.Valid() && 0 < h.millis <= elapsed
    ensures 0.0 < h.Decay(elapsed) <= 0.5
  {
    DecayAntitone(h, h.millis, elapsed);
    PowRange(h.rate, elapsed);
  }
}
