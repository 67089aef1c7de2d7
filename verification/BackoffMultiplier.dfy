/** Backoff multipliers: rationals between 1 and 100, kept in lowest terms. */
module BackoffMultiplier {
  import opened Common
  import opened Backoff
  import opened DecimalBudget

  function GcdOf(a: nat, b: nat): (g: nat)
    decreases b
  {
    if b == 0 then a else GcdOf(b, a % b)
  }

  /** The remainder loop, which yields the greatest common divisor. */
  method Gcd(a: nat, b: nat) returns (left: nat)
    ensures left == GcdOf(a, b)
    ensures Divides(left, a) && Divides(left, b)
    ensures forall d: nat :: Divides(d, a) && Divides(d, b) ==> Divides(d, left)
    ensures forall d: nat :: Divides(d, a) && Divides(d, b) && (a > 0 || b > 0) ==> d <= left
  {
    GcdDivides(a, b);
    forall d: nat | Divides(d, a) && Divides(d, b)
      ensures Divides(d, GcdOf(a, b)) && (a > 0 || b > 0 ==> d <= GcdOf(a, b))
    {
      GcdGreatest(a, b, d);
    }
    left := a;
    var right: nat := b;
    while right != 0
      invariant GcdOf(left, right) == GcdOf(a, b)
      decreases right
    {
      var remainder: nat := left % right;
      left := right;
      right := remainder;
    }
  }

  ghost predicate Divides(d: nat, n: nat) {
    exists q: nat :: n == q * d
  }

  lemma DividesBy(d: nat, n: nat, q: nat)
    requires n == q * d
    ensures Divides(d, n)
  {
  }

  lemma {:induction false} GcdDivides(a: nat, b: nat)
    ensures Divides(GcdOf(a, b), a) && Divides(GcdOf(a, b), b)
    decreases b
  {
    var g := GcdOf(a, b);
    if b == 0 {
      DividesBy(g, a, 1);
      DividesBy(g, b, 0);
    } else {
      GcdDivides(b, a % b);
      var p: nat :| b == p * g;
      var q: nat :| a % b == q * g;
      CombineMultiples(a, b, p, q, g);
    }
  }

  lemma CombineMultiples(a: nat, b: nat, p: nat, q: nat, g: nat)
    requires b > 0 && b == p * g && a % b == q * g
    ensures Divides(g, a)
  {
    var k := a / b;
    assert a == k * b + a % b;
    assert k * (p * g) == (k * p) * g;
    assert (k * p) * g + q * g == (k * p + q) * g;
    DividesBy(g, a, k * p + q);
  }

  /** The greatest common divisor is an integer combination of its arguments. */
  lemma {:induction false} Bezout(a: nat, b: nat) returns (x: int, y: int)
    ensures x * a + y * b == GcdOf(a, b)
    decreases b
  {
    if b == 0 {
      x, y := 1, 0;
    } else {
      var u, v := Bezout(b, a % b);
      x, y := v, u - v * (a / b);
      BezoutStep(a, b, u, v);
    }
  }

  lemma BezoutStep(a: nat, b: nat, u: int, v: int)
    requires b > 0
    ensures v * a + (u - v * (a / b)) * b == u * b + v * (a % b)
  {
    var k, r := a / b, a % b;
    assert a == k * b + r;
    assert v * (k * b + r) == v * (k * b) + v * r;
    assert (u - v * k) * b == u * b - (v * k) * b;
    assert v * (k * b) == (v * k) * b;
  }

  /** Every common divisor divides it: it is the greatest in the divisibility order, and so in size. */
  lemma GcdGreatest(a: nat, b: nat, d: nat)
    requires Divides(d, a) && Divides(d, b)
    ensures Divides(d, GcdOf(a, b))
    ensures a > 0 || b > 0 ==> d <= GcdOf(a, b)
  {
    var p: nat :| a == p * d;
    var q: nat :| b == q * d;
    var x, y := Bezout(a, b);
    CombinedFactor(x, y, p, q, d);
    if a > 0 || b > 0 {
      GcdPositive(a, b);
      assert d == 0 ==> a == 0 && b == 0;
      NonNegativeFactor(x * p + y * q, d, GcdOf(a, b));
      DividesBy(d, GcdOf(a, b), x * p + y * q);
      DivisorAtMost(d, GcdOf(a, b));
    } else {
      DividesBy(d, GcdOf(a, b), 0);
    }
  }

  lemma CombinedFactor(x: int, y: int, p: int, q: int, d: int)
    ensures x * (p * d) + y * (q * d) == (x * p + y * q) * d
  {
    assert x * (p * d) == (x * p) * d && y * (q * d) == (y * q) * d;
  }

  lemma {:induction false} GcdPositive(a: nat, b: nat)
    requires a > 0 || b > 0
    ensures GcdOf(a, b) > 0
    decreases b
  {
    if b == 0 {
    } else {
      GcdPositive(b, a % b);
    }
  }

  /** A factor coprime to `n` that divides `n * k` divides `k`. */
  lemma CoprimeFactor(n: nat, d: nat, k: nat, q: nat)
    requires GcdOf(n, d) == 1 && n * k == q * d
    ensures Divides(d, k)
  {
    var x, y := Bezout(n, d);
    var m := x * q + y * k;
    BezoutFactor(x, y, n, d, k, q);
    if d == 0 {
      DividesBy(d, k, 0);
    } else {
      NonNegativeFactor(m, d, k);
      DividesBy(d, k, m);
    }
  }

  lemma BezoutFactor(x: int, y: int, n: int, d: int, k: int, q: int)
    requires x * n + y * d == 1 && n * k == q * d
    ensures k == (x * q + y * k) * d
  {
    calc {
      k;
      (x * n + y * d) * k;
      (x * n) * k + (y * d) * k;
      { assert (x * n) * k == x * (n * k); }
      x * (q * d) + (y * d) * k;
      { assert x * (q * d) == (x * q) * d; assert (y * d) * k == (y * k) * d; }
      (x * q) * d + (y * k) * d;
      (x * q + y * k) * d;
    }
  }

  lemma NonNegativeFactor(m: int, d: nat, k: nat)
    requires d > 0 && k == m * d
    ensures m >= 0
  {
    if m < 0 {
      NextMultiple(m, 0, d);
    }
  }

  lemma NextMultiple(m: int, n: int, d: nat)
    requires m < n
    ensures m * d + d <= n * d
  {
    var k: nat := n - m - 1;
    assert k * d >= 0;
    assert n * d == (m + 1 + k) * d == m * d + d + k * d;
  }

  lemma MutualDivisors(a: nat, b: nat)
    requires a > 0 && b > 0 && Divides(a, b) && Divides(b, a)
    ensures a == b
  {
    DivisorAtMost(a, b);
    DivisorAtMost(b, a);
  }

  lemma DivisorAtMost(d: nat, n: nat)
    requires n > 0 && Divides(d, n)
    ensures d <= n
  {
    var q: nat :| n == q * d;
    if q > 0 {
      NextMultiple(0, q, d);
    }
  }

  /** Two fractions in lowest terms with the same value are the same fraction. */
  lemma LowestTermsUnique(a: Multiplier, b: Multiplier)
    requires a.Valid() && b.Valid()
    requires GcdOf(a.numerator, a.denominator) == 1 && GcdOf(b.numerator, b.denominator) == 1
    requires a.numerator * b.denominator == b.numerator * a.denominator
    ensures a == b
  {
    CoprimeFactor(a.numerator, a.denominator, b.denominator, b.numerator);
    CoprimeFactor(b.numerator, b.denominator, a.denominator, a.numerator);
    MutualDivisors(a.denominator, b.denominator);
    SameFactor(a.numerator, b.numerator, a.denominator);
  }

  lemma SameFactor(m: nat, n: nat, d: nat)
    requires d > 0 && m * d == n * d
    ensures m == n
  {
    if m < n {
      NextMultiple(m, n, d);
    } else if n < m {
      NextMultiple(n, m, d);
    }
  }

  // ----- construction ---------------------------------------------------------------------

  /** The accepted multiplier, reduced; `None` outside 1 through 100. */
  function New(numerator: nat, denominator: nat): (r: Option<Multiplier>) {
    if denominator == 0 || numerator < denominator || numerator > denominator * 100 then None
    else
      GcdPositive(numerator, denominator);
      var g := GcdOf(numerator, denominator);
      Some(Multiplier(Quotient(numerator, g), Quotient(denominator, g)))
  }

  function Quotient(n: nat, g: nat): (q: nat)
    requires g > 0
    ensures q * g <= n < q * g + g
  {
    NonNegativeQuotient(n, g);
    n / g
  }

  lemma NonNegativeQuotient(n: nat, g: nat)
    requires g > 0
    ensures n / g >= 0
  {
    if n / g < 0 {
      NextMultiple(n / g, 0, g);
    }
  }

  lemma ExactQuotient(n: nat, g: nat)
    requires g > 0 && Divides(g, n)
    ensures Quotient(n, g) * g == n
  {
    var q: nat :| n == q * g;
    RemainderUnique(n, g, q, 0);
  }

  /** Reduction keeps the value and leaves no common factor. */
  lemma NewIsReduced(numerator: nat, denominator: nat)
    requires New(numerator, denominator).Some?
    ensures var m := New(numerator, denominator).value;
      && m.Valid()
      && m.numerator * denominator == numerator * m.denominator
      && GcdOf(m.numerator, m.denominator) == 1
  {
    var g := GcdOf(numerator, denominator);
    var m := New(numerator, denominator).value;
    GcdPositive(numerator, denominator);
    GcdDivides(numerator, denominator);
    ExactQuotient(numerator, g);
    ExactQuotient(denominator, g);
    ReducedValue(m.numerator, m.denominator, g);
    ReducedOrder(m.numerator, m.denominator, g);
    ReducedCoprime(m.numerator, m.denominator, g);
  }

  lemma ReducedValue(p: nat, q: nat, g: nat)
    ensures p * (q * g) == (p * g) * q
  {
  }

  lemma ReducedOrder(p: nat, q: nat, g: nat)
    requires g > 0 && 0 < q * g <= p * g
    ensures 0 < q <= p
  {
    if q > p {
      NextMultiple(p, q, g);
    }
  }

  lemma ReducedCoprime(p: nat, q: nat, g: nat)
    requires g > 0 && GcdOf(p * g, q * g) == g
    ensures GcdOf(p, q) == 1
  {
    GcdScales(p, q, g);
    SameFactor(GcdOf(p, q), 1, g);
  }

  lemma {:induction false} GcdScales(p: nat, q: nat, g: nat)
    requires g > 0
    ensures GcdOf(p * g, q * g) == GcdOf(p, q) * g
    decreases q
  {
    if q == 0 {
    } else {
      ScaledRemainder(p, q, g);
      GcdScales(q, p % q, g);
    }
  }

  lemma ScaledRemainder(p: nat, q: nat, g: nat)
    requires g > 0 && q > 0
    ensures q * g > 0 && (p * g) % (q * g) == (p % q) * g
  {
    var k, r := p / q, p % q;
    assert p * g == k * (q * g) + r * g by {
      assert p == k * q + r;
      assert (k * q + r) * g == (k * q) * g + r * g;
      assert (k * q) * g == k * (q * g);
    }
    NextMultiple(r, q, g);
    RemainderUnique(p * g, q * g, k, r * g);
  }

  lemma RemainderUnique(n: nat, d: nat, k: nat, r: nat)
    requires d > 0 && r < d && n == k * d + r
    ensures n % d == r
  {
    var j, s := n / d, n % d;
    assert n == j * d + s;
    if j < k {
      NextMultiple(j, k, d);
    } else if k < j {
      NextMultiple(k, j, d);
    }
  }

  /** Accepted multipliers are equal as data exactly when they are equal as numbers. */
  lemma CanonicalForm(a: nat, b: nat, c: nat, d: nat)
    requires New(a, b).Some? && New(c, d).Some?
    ensures New(a, b) == New(c, d) <==> a * d == c * b
  {
    var m, n := New(a, b).value, New(c, d).value;
    NewIsReduced(a, b);
    NewIsReduced(c, d);
    CrossProducts(a, b, c, d, m, n);
    if a * d == c * b {
      LowestTermsUnique(m, n);
    }
  }

  lemma CrossProducts(a: nat, b: nat, c: nat, d: nat, m: Multiplier, n: Multiplier)
    requires b > 0 && d > 0 && m.Valid() && n.Valid()
    requires m.numerator * b == a * m.denominator && n.numerator * d == c * n.denominator
    ensures a * d == c * b <==> m.numerator * n.denominator == n.numerator * m.denominator
  {
    var p, q, r, s := m.numerator, m.denominator, n.numerator, n.denominator;
    Crossed(p, b, a, q, s, d);
    Crossed(r, d, c, s, q, b);
    PositiveProduct(b, d);
    PositiveProduct(q, s);
    ScaledPair(p * s, r * q, a * d, c * b, b * d, q * s);
  }

  lemma Crossed(p: nat, b: nat, a: nat, q: nat, s: nat, d: nat)
    requires p * b == a * q
    ensures (p * s) * (b * d) == (a * d) * (q * s)
  {
    assert (p * s) * (b * d) == (p * b) * (s * d);
    assert (a * d) * (q * s) == (a * q) * (s * d);
  }

  lemma ScaledPair(u: nat, v: nat, x: nat, y: nat, k: nat, l: nat)
    requires k > 0 && l > 0 && u * k == x * l && v * k == y * l
    ensures x == y <==> u == v
  {
    if x == y {
      SameFactor(u, v, k);
    }
    if u == v {
      SameFactor(x, y, l);
    }
  }

  lemma PositiveProduct(a: nat, b: nat)
    requires a > 0 && b > 0
    ensures a * b > 0
  {
  }

  // ----- text -----------------------------------------------------------------------------

  datatype ParseError = Syntax | Range

  /** The digits as one fraction of 64-bit integers, reduced to 32 bits, then checked and stored. */
  function Parse(text: string): (r: Result<Multiplier, ParseError>) {
    var decimal := ParseDecimal(text);
    if decimal.None? then Err(Syntax)
    else
      var digits := decimal.value.FractionDigits();
      var whole, denominator := Value(decimal.value.whole), Pow10(|digits|);
      if |digits| > U32_MAX || denominator > U64_MAX || whole > U64_MAX || Value(digits) > U64_MAX then Err(Range)
      else if whole * denominator + Value(digits) > U64_MAX then Err(Range)
      else
        var numerator := whole * denominator + Value(digits);
        GcdPositive(numerator, denominator);
        var g := GcdOf(numerator, denominator);
        if Quotient(numerator, g) > U32_MAX || Quotient(denominator, g) > U32_MAX then Err(Range)
        else
          match New(Quotient(numerator, g), Quotient(denominator, g))
          case None => Err(Syntax)
          case Some(multiplier) => Ok(multiplier)
  }

  /** An accepted token denotes exactly the stored fraction, which is in lowest terms. */
  lemma ParseIsExact(text: string)
    requires Parse(text).Ok?
    ensures ParseDecimal(text).Some?
    ensures var d, m := ParseDecimal(text).value, Parse(text).value;
      && Writes(text, d.whole, d.fraction)
      && m.Valid()
      && GcdOf(m.numerator, m.denominator) == 1
      && m.numerator * d.Denominator() == d.Numerator() * m.denominator
  {
    var d, m := ParseDecimal(text).value, Parse(text).value;
    ParsedIsWritten(text);
    ValueConcat(d.whole, d.FractionDigits());
    var n, k := d.Numerator(), d.Denominator();
    var g := GcdOf(n, k);
    GcdPositive(n, k);
    GcdDivides(n, k);
    ExactQuotient(n, g);
    ExactQuotient(k, g);
    var p, q := Quotient(n, g), Quotient(k, g);
    NewIsReduced(p, q);
    ScaledRatio(m.numerator, m.denominator, p, q, g);
  }

  lemma ScaledRatio(a: nat, b: nat, p: nat, q: nat, g: nat)
    requires a * q == p * b
    ensures a * (q * g) == (p * g) * b
  {
    assert a * (q * g) == (a * q) * g;
    assert (p * g) * b == (p * b) * g;
  }

  // ----- which texts are accepted -----------------------------------------------------------

  predicate SameRatio(p: nat, q: nat, n: nat, k: nat) {
    p * k == n * q
  }

  /** The number `n / k` is a quotient of two 32-bit numbers. */
  ghost predicate IsRatio32(n: nat, k: nat) {
    exists p: nat, q: nat :: SameRatio(p, q, n, k) && p <= U32_MAX && 0 < q <= U32_MAX
  }

  /** Of all pairs writing a number, the one in lowest terms is smallest on both sides. */
  lemma LowestTermsLeast(p: nat, q: nat, p0: nat, q0: nat, g: nat)
    requires g > 0 && q > 0 && q0 > 0 && GcdOf(p0, q0) == 1 && SameRatio(p, q, p0 * g, q0 * g)
    ensures p0 <= p && q0 <= q
  {
    CancelRatio(p, q, p0, q0, g);
    CoprimeFactor(p0, q0, q, p);
    DivisorAtMost(q0, q);
    SmallerSide(p, q, p0, q0);
  }

  lemma CancelRatio(p: nat, q: nat, p0: nat, q0: nat, g: nat)
    requires g > 0 && p * (q0 * g) == (p0 * g) * q
    ensures p0 * q == p * q0
  {
    assert p * (q0 * g) == (p * q0) * g;
    assert (p0 * g) * q == (p0 * q) * g;
    SameFactor(p * q0, p0 * q, g);
  }

  lemma SmallerSide(p: nat, q: nat, p0: nat, q0: nat)
    requires p0 * q == p * q0 && 0 < q0 <= q
    ensures p0 <= p
  {
    if p < p0 {
      ProductMonotone(p0, q0, q);
      NextMultiple(p, p0, q0);
    }
  }

  lemma ProductMonotone(m: nat, a: nat, b: nat)
    requires a <= b
    ensures m * a <= m * b
  {
    assert m * (b - a) >= 0;
  }

  lemma ReducedRange(p0: nat, q0: nat, g: nat)
    requires g > 0
    ensures q0 * g <= p0 * g <==> q0 <= p0
    ensures p0 * g <= (q0 * g) * 100 <==> p0 <= q0 * 100
  {
    assert (q0 * g) * 100 == (q0 * 100) * g;
    ScaledOrder(q0, p0, g);
    ScaledOrder(p0, q0 * 100, g);
  }

  lemma ScaledOrder(a: nat, b: nat, g: nat)
    requires g > 0
    ensures a * g <= b * g <==> a <= b
  {
    if a <= b {
      assert (b - a) * g >= 0;
    } else {
      NextMultiple(b, a, g);
    }
  }

  lemma {:induction false} Pow10Square(k: nat)
    ensures Pow10(k) >= (k + 1) * (k + 1)
  {
    if k == 0 {
    } else {
      Pow10Square(k - 1);
      assert (k + 1) * (k + 1) == k * k + 2 * k + 1;
      assert k * k >= k;
    }
  }

  lemma FewDigits(k: nat)
    requires Pow10(k) <= U64_MAX
    ensures k <= U32_MAX
  {
    Pow10Square(k);
    if k > U32_MAX {
      ProductMonotone(k + 1, 0x1_0000_0000, k + 1);
    }
  }

  /** The greatest common divisor splits a pair with positive second side into its lowest terms. */
  lemma LowestTerms(n: nat, k: nat) returns (p0: nat, q0: nat, g: nat)
    requires k > 0
    ensures g == GcdOf(n, k) > 0 && p0 == Quotient(n, g) && q0 == Quotient(k, g) > 0
    ensures n == p0 * g && k == q0 * g && GcdOf(p0, q0) == 1
  {
    g := GcdOf(n, k);
    GcdPositive(n, k);
    GcdDivides(n, k);
    ExactQuotient(n, g);
    ExactQuotient(k, g);
    p0, q0 := Quotient(n, g), Quotient(k, g);
    ReducedCoprime(p0, q0, g);
  }

  lemma Ratio32Reduced(n: nat, k: nat, p0: nat, q0: nat, g: nat)
    requires g > 0 && q0 > 0 && n == p0 * g && k == q0 * g && GcdOf(p0, q0) == 1
    ensures IsRatio32(n, k) <==> p0 <= U32_MAX && q0 <= U32_MAX
  {
    if IsRatio32(n, k) {
      var p: nat, q: nat :| SameRatio(p, q, n, k) && p <= U32_MAX && 0 < q <= U32_MAX;
      LowestTermsLeast(p, q, p0, q0, g);
    }
    if p0 <= U32_MAX && q0 <= U32_MAX {
      assert SameRatio(p0, q0, n, k) by {
        assert p0 * (q0 * g) == (p0 * g) * q0;
      }
    }
  }

  /** What the text's two integers must satisfy, stated on the reduced pair the code works with. */
  lemma ParseReduced(text: string, d: Decimal, n: nat, k: nat)
    requires ParseDecimal(text) == Some(d) && n == d.Numerator() && k == d.Denominator()
    ensures Parse(text).Ok? <==>
      && n <= U64_MAX && k <= U64_MAX
      && Quotient(n, GcdPart(n, k)) <= U32_MAX && Quotient(k, GcdPart(n, k)) <= U32_MAX
      && New(Quotient(n, GcdPart(n, k)), Quotient(k, GcdPart(n, k))).Some?
    ensures Parse(text) == Err(Range) <==>
      !(&& n <= U64_MAX && k <= U64_MAX
        && Quotient(n, GcdPart(n, k)) <= U32_MAX && Quotient(k, GcdPart(n, k)) <= U32_MAX)
  {
    var whole, fraction := Value(d.whole), Value(d.FractionDigits());
    ValueConcat(d.whole, d.FractionDigits());
    AtMostProduct(whole, k);
    if k <= U64_MAX {
      FewDigits(|d.FractionDigits()|);
    }
  }

  function GcdPart(n: nat, k: nat): (g: nat)
    requires k > 0
    ensures g > 0
  {
    GcdPositive(n, k);
    GcdOf(n, k)
  }

  lemma AtMostProduct(w: nat, k: nat)
    requires k > 0
    ensures w <= w * k
  {
    ProductMonotone(w, 1, k);
  }

  /**
   Exactly the well-formed decimals are accepted whose two integers fit 64 bits, whose
   value is a quotient of two 32-bit numbers, and which lie between 1 and 100. Of the others
   those that fail only to fit are refused for their range, the rest as no multiplier at all.
   */
  lemma ParseAccepts(text: string)
    ensures Parse(text).Ok? <==>
      && ParseDecimal(text).Some?
      && var d := ParseDecimal(text).value;
      && d.Numerator() <= U64_MAX && d.Denominator() <= U64_MAX
      && IsRatio32(d.Numerator(), d.Denominator())
      && d.Denominator() <= d.Numerator() <= d.Denominator() * 100
    ensures Parse(text) == Err(Range) <==>
      && ParseDecimal(text).Some?
      && var d := ParseDecimal(text).value;
      !(d.Numerator() <= U64_MAX && d.Denominator() <= U64_MAX && IsRatio32(d.Numerator(), d.Denominator()))
  {
    if ParseDecimal(text).Some? {
      var d := ParseDecimal(text).value;
      var p0, q0, g := LowestTerms(d.Numerator(), d.Denominator());
      ParseReduced(text, d, d.Numerator(), d.Denominator());
      Ratio32Reduced(d.Numerator(), d.Denominator(), p0, q0, g);
      ReducedRange(p0, q0, g);
    }
  }

  /**
   For every decimal written, whole digits and fraction digits: whether it is accepted,
   and the stored fraction, which is exactly the number written.
   */
  lemma ParsesAsWritten(text: string, whole: string, fraction: Option<string>)
    requires Writes(text, whole, fraction)
    ensures var f := if fraction.Some? then fraction.value else "";
      var k := Pow10(|f|);
      var n := Value(whole) * k + Value(f);
      && (Parse(text).Ok? <==> n <= U64_MAX && k <= U64_MAX && IsRatio32(n, k) && k <= n <= k * 100)
      && (Parse(text).Ok? ==> Parse(text).value.numerator * k == n * Parse(text).value.denominator)
  {
    WrittenParses(text, whole, fraction);
    WrittenValue(whole, fraction);
    ParseAccepts(text);
    if Parse(text).Ok? {
      ParseIsExact(text);
    }
  }

  /** Two accepted tokens give the same multiplier exactly when they write the same number. */
  lemma ParseCanonical(a: string, b: string)
    requires Parse(a).Ok? && Parse(b).Ok?
    ensures ParseDecimal(a).Some? && ParseDecimal(b).Some?
    ensures var x, y := ParseDecimal(a).value, ParseDecimal(b).value;
      Parse(a) == Parse(b) <==> x.Numerator() * y.Denominator() == y.Numerator() * x.Denominator()
  {
    ParseIsExact(a);
    ParseIsExact(b);
    var x, y := ParseDecimal(a).value, ParseDecimal(b).value;
    var m, n := Parse(a).value, Parse(b).value;
    CrossProducts(x.Numerator(), x.Denominator(), y.Numerator(), y.Denominator(), m, n);
    if x.Numerator() * y.Denominator() == y.Numerator() * x.Denominator() {
      LowestTermsUnique(m, n);
    }
  }
}
