/** Byte-size and duration tokens: exact decimal scaling with checked overflow. */
module DecimalBudget {
  import opened Common

  // ----- digits ----------------------------------------------------------------------------

  predicate IsDigit(c: char) {
    '0' <= c <= '9'
  }

  predicate AllDigits(s: string) {
    forall i :: 0 <= i < |s| ==> IsDigit(s[i])
  }

  function Value(digits: string): (v: nat)
    requires AllDigits(digits)
  {
    if digits == [] then 0
    else 10 * Value(digits[..|digits| - 1]) + (digits[|digits| - 1] as int - '0' as int)
  }

  function Pow10(k: nat): (p: nat)
    ensures p >= 1
  {
    if k == 0 then 1 else 10 * Pow10(k - 1)
  }

  lemma AppendDigit(a: nat, p: nat, b: nat, digit: nat)
    ensures 10 * (a * p + b) + digit == a * (10 * p) + (10 * b + digit)
  {
  }

  lemma {:induction false} ValueConcat(a: string, b: string)
    requires AllDigits(a) && AllDigits(b)
    ensures AllDigits(a + b)
    ensures Value(a + b) == Value(a) * Pow10(|b|) + Value(b)
  {
    if b == [] {
      assert a + b == a;
    } else {
      var front, last := b[..|b| - 1], b[|b| - 1];
      ValueConcat(a, front);
      assert (a + b)[..|a + b| - 1] == a + front;
      AppendDigit(Value(a), Pow10(|front|), Value(front), last as int - '0' as int);
    }
  }

  // ----- syntax ------------------------------------------------------------------------------

  datatype Decimal = Decimal(whole: string, fraction: Option<string>) {
    ghost predicate Valid() {
      AllDigits(whole) && (fraction.Some? ==> AllDigits(fraction.value))
    }

    function FractionDigits(): (digits: string) {
      if fraction.Some? then fraction.value else []
    }

    /** The token's digits read as one number: its value times ten to the number of fraction digits. */
    function Numerator(): (n: nat)
      requires Valid()
    {
      Value(whole + FractionDigits())
    }

    function Denominator(): (d: nat)
      ensures d >= 1
    {
      Pow10(|FractionDigits()|)
    }
  }

  predicate IsNumberChar(c: char) {
    IsDigit(c) || c == '.'
  }

  /** Where the number ends and the unit begins. */
  function NumberEnd(s: string, i: nat): (n: nat)
    requires i <= |s|
    ensures i <= n <= |s|
    ensures n < |s| ==> !IsNumberChar(s[n])
    ensures forall k :: i <= k < n ==> IsNumberChar(s[k])
    decreases |s| - i
  {
    if i == |s| || !IsNumberChar(s[i]) then i else NumberEnd(s, i + 1)
  }

  function FirstDot(s: string, i: nat): (n: nat)
    requires i <= |s|
    ensures i <= n <= |s|
    ensures n < |s| ==> s[n] == '.'
    ensures forall k :: i <= k < n ==> s[k] != '.'
    decreases |s| - i
  {
    if i == |s| || s[i] == '.' then i else FirstDot(s, i + 1)
  }

  function ParseDecimal(number: string): (r: Option<Decimal>)
    ensures r.Some? ==> r.value.Valid()
  {
    var dot := FirstDot(number, 0);
    var whole := number[..dot];
    if whole == [] || !AllDigits(whole) then None
    else if dot == |number| then Some(Decimal(whole, None))
    else
      var fraction := number[dot + 1..];
      if fraction == [] || !AllDigits(fraction) then None else Some(Decimal(whole, Some(fraction)))
  }

  // ----- scaling -------------------------------------------------------------------------------

  /** The fraction's share, rounded up; `None` on 128-bit overflow. */
  function ScaledFraction(digits: string, multiplier: nat): (r: Option<nat>)
    requires AllDigits(digits)
  {
    var denominator := Pow10(|digits|);
    if Value(digits) > U128_MAX || Value(digits) * multiplier > U128_MAX || denominator > U128_MAX
       || Value(digits) * multiplier + (denominator - 1) > U128_MAX
    then None
    else Some((Value(digits) * multiplier + (denominator - 1)) / denominator)
  }

  /** Whole and fraction scaled separately, as the source does; `None` on overflow. */
  function Scaled(d: Decimal, multiplier: nat): (r: Option<nat>)
    requires d.Valid()
  {
    if Value(d.whole) > U128_MAX || Value(d.whole) * multiplier > U128_MAX then None
    else
      var whole := Value(d.whole) * multiplier;
      var fraction := if d.fraction.Some? then ScaledFraction(d.fraction.value, multiplier) else Some(0);
      if fraction.None? || whole + fraction.value > U128_MAX || whole + fraction.value > U64_MAX then None
      else Some(whole + fraction.value)
  }

  /** `v` is `n / d` rounded up. */
  ghost predicate IsCeiling(v: int, n: int, d: int) {
    (v - 1) * d < n <= v * d
  }

  lemma CeilingDivision(n: nat, d: nat)
    requires d > 0
    ensures IsCeiling((n + (d - 1)) / d, n, d)
  {
    var q, r := (n + (d - 1)) / d, (n + (d - 1)) % d;
    assert n + (d - 1) == q * d + r;
    assert (q - 1) * d == q * d - d;
  }

  lemma CeilingShift(v: int, n: int, d: int, w: int)
    requires IsCeiling(v, n, d)
    ensures IsCeiling(w + v, w * d + n, d)
  {
    assert (w + v) * d == w * d + v * d;
    assert (w + v - 1) * d == w * d + (v - 1) * d;
  }

  lemma CeilingUnique(v: int, w: int, n: int, d: int)
    requires d > 0 && IsCeiling(v, n, d) && IsCeiling(w, n, d)
    ensures v == w
  {
    if v < w {
      assert v * d <= (w - 1) * d by { LeMul(v, w - 1, d); }
    } else if w < v {
      assert w * d <= (v - 1) * d by { LeMul(w, v - 1, d); }
    }
  }

  lemma LeMul(a: int, b: int, d: int)
    requires a <= b && d > 0
    ensures a * d <= b * d
  {
    assert (b - a) * d >= 0;
  }

  lemma SplitArithmetic(w: nat, f: nat, m: nat, d: nat)
    requires d > 0
    ensures IsCeiling(w * m + (f * m + (d - 1)) / d, (w * d + f) * m, d)
  {
    CeilingDivision(f * m, d);
    CeilingShift((f * m + (d - 1)) / d, f * m, d, w * m);
    Rearranged(w, f, m, d);
  }

  lemma Rearranged(w: int, f: int, m: int, d: int)
    ensures (w * d + f) * m == (w * m) * d + f * m
  {
    assert (w * d + f) * m == (w * d) * m + f * m;
    assert (w * d) * m == (w * m) * d;
  }

  /** The token's value times the unit, rounded up over the whole product. */
  function Ceiling(d: Decimal, multiplier: nat): (v: nat)
    requires d.Valid()
  {
    (d.Numerator() * multiplier + (d.Denominator() - 1)) / d.Denominator()
  }

  lemma SplitExactly(w: nat, f: nat, m: nat, d: nat, n: nat)
    requires d > 0 && n == w * d + f
    ensures w * m + (f * m + (d - 1)) / d == (n * m + (d - 1)) / d
    ensures IsCeiling((n * m + (d - 1)) / d, n * m, d)
  {
    SplitArithmetic(w, f, m, d);
    CeilingDivision(n * m, d);
    CeilingUnique(w * m + (f * m + (d - 1)) / d, (n * m + (d - 1)) / d, n * m, d);
  }

  /** Rounding only the fraction loses nothing: whole plus rounded fraction is the ceiling of the whole product. */
  lemma SplitCeiling(d: Decimal, multiplier: nat)
    requires d.Valid()
    ensures Value(d.whole) * multiplier
          + (Value(d.FractionDigits()) * multiplier + (d.Denominator() - 1)) / d.Denominator() == Ceiling(d, multiplier)
    ensures IsCeiling(Ceiling(d, multiplier), d.Numerator() * multiplier, d.Denominator())
  {
    ValueConcat(d.whole, d.FractionDigits());
    SplitExactly(Value(d.whole), Value(d.FractionDigits()), multiplier, d.Denominator(), d.Numerator());
  }

  /** The only tokens refused although their value fits: fractions too long for 128-bit arithmetic. */
  predicate FractionFits(d: Decimal, multiplier: nat)
    requires d.Valid()
  {
    d.fraction.Some? ==>
      d.Denominator() <= U128_MAX && Value(d.fraction.value) * multiplier + (d.Denominator() - 1) <= U128_MAX
  }

  /** Exactly which tokens are accepted, and with what value. */
  lemma ScaledExactly(d: Decimal, multiplier: nat)
    requires d.Valid() && multiplier > 0
    ensures Scaled(d, multiplier)
         == if FractionFits(d, multiplier) && Ceiling(d, multiplier) <= U64_MAX then Some(Ceiling(d, multiplier)) else None
    ensures IsCeiling(Ceiling(d, multiplier), d.Numerator() * multiplier, d.Denominator())
  {
    SplitCeiling(d, multiplier);
    AtLeast(Value(d.whole), multiplier);
    var whole := Value(d.whole) * multiplier;
    if d.fraction.Some? {
      FractionExactly(d.fraction.value, multiplier);
    } else {
      NothingLeft(multiplier);
      assert Value([]) == 0 && Pow10(0) == 1;
      assert Ceiling(d, multiplier) == whole;
    }
  }

  lemma NothingLeft(m: nat)
    ensures (0 * m + (1 - 1)) / 1 == 0
  {
  }

  lemma FractionExactly(digits: string, multiplier: nat)
    requires AllDigits(digits) && multiplier > 0
    ensures var d := Pow10(|digits|);
      ScaledFraction(digits, multiplier) ==
        if d <= U128_MAX && Value(digits) * multiplier + (d - 1) <= U128_MAX
        then Some((Value(digits) * multiplier + (d - 1)) / d) else None
  {
    AtLeast(Value(digits), multiplier);
  }

  lemma AtLeast(n: nat, m: nat)
    requires m > 0
    ensures n <= n * m
  {
    assert n * m == n + n * (m - 1);
  }

  // ----- tokens ----------------------------------------------------------------------------------

  datatype ByteSizeError = MissingNumber | InvalidUnit(unit: string) | InvalidDecimal | Overflow
  datatype DurationError = UnsupportedUnit(text: string) | InvalidSyntax | TooLarge

  function ByteUnit(unit: string): (m: Option<nat>)
    ensures m.Some? ==> m.value > 0
  {
    if unit == "" || unit == "B" then Some(1)
    else if unit == "KB" then Some(1_000)
    else if unit == "MB" then Some(1_000_000)
    else if unit == "GB" then Some(1_000_000_000)
    else if unit == "TB" then Some(1_000_000_000_000)
    else if unit == "PB" then Some(1_000_000_000_000_000)
    else if unit == "EB" then Some(1_000_000_000_000_000_000)
    else if unit == "KiB" then Some(0x400)
    else if unit == "MiB" then Some(0x10_0000)
    else if unit == "GiB" then Some(0x4000_0000)
    else if unit == "TiB" then Some(0x100_0000_0000)
    else if unit == "PiB" then Some(0x4_0000_0000_0000)
    else if unit == "EiB" then Some(0x1000_0000_0000_0000)
    else None
  }

  /** Milliseconds per unit. */
  function DurationUnit(unit: string): (m: Option<nat>)
    ensures m.Some? ==> m.value > 0
  {
    if unit == "ms" then Some(1)
    else if unit == "s" then Some(1_000)
    else if unit == "m" then Some(60_000)
    else if unit == "h" then Some(3_600_000)
    else None
  }

  function ParseByteSize(input: string): (r: Result<nat, ByteSizeError>) {
    var split := NumberEnd(input, 0);
    var number, unit := input[..split], input[split..];
    if number == [] then Err(MissingNumber)
    else if ByteUnit(unit).None? then Err(InvalidUnit(unit))
    else if ParseDecimal(number).None? then Err(InvalidDecimal)
    else
      match Scaled(ParseDecimal(number).value, ByteUnit(unit).value)
      case Some(bytes) => Ok(bytes)
      case None => Err(Overflow)
  }

  function ParseDuration(input: string): (r: Result<nat, DurationError>) {
    var split := NumberEnd(input, 0);
    var number, unit := input[..split], input[split..];
    if DurationUnit(unit).None? then Err(UnsupportedUnit(unit))
    else if ParseDecimal(number).None? then Err(InvalidSyntax)
    else
      match Scaled(ParseDecimal(number).value, DurationUnit(unit).value)
      case Some(millis) => Ok(millis)
      case None => Err(TooLarge)
  }

  // ----- texts and what they write ------------------------------------------------------------

  ghost predicate IsNumeral(s: string) {
    s != [] && AllDigits(s)
  }

  /** A decimal as written: digits, or digits, a point and digits. */
  ghost predicate Writes(text: string, whole: string, fraction: Option<string>) {
    && IsNumeral(whole)
    && match fraction
       case None => text == whole
       case Some(f) => IsNumeral(f) && text == whole + "." + f
  }

  lemma DotAfter(whole: string, rest: string)
    requires AllDigits(whole) && (rest == [] || rest[0] == '.')
    ensures FirstDot(whole + rest, 0) == |whole|
  {
    var s := whole + rest;
    assert forall k :: 0 <= k < |whole| ==> IsDigit(s[k]);
    if rest != [] {
      assert s[|whole|] == '.';
    }
  }

  lemma WrittenParses(text: string, whole: string, fraction: Option<string>)
    requires Writes(text, whole, fraction)
    ensures ParseDecimal(text) == Some(Decimal(whole, fraction))
  {
    match fraction
    case None =>
      DotAfter(whole, []);
      assert whole + [] == whole && text[..|whole|] == whole;
    case Some(f) =>
      DotAfter(whole, "." + f);
      assert text == whole + ("." + f);
      assert text[..|whole|] == whole && text[|whole| + 1..] == f;
  }

  lemma ParsedIsWritten(text: string)
    requires ParseDecimal(text).Some?
    ensures var d := ParseDecimal(text).value; Writes(text, d.whole, d.fraction)
  {
    var dot := FirstDot(text, 0);
    assert text == text[..dot] + text[dot..];
    if dot < |text| {
      assert text == text[..dot] + "." + text[dot + 1..];
    }
  }

  /** A text parses to exactly the digits it writes, all of them, and nothing else parses. */
  lemma DecimalParsesAsWritten(text: string, whole: string, fraction: Option<string>)
    ensures ParseDecimal(text) == Some(Decimal(whole, fraction)) <==> Writes(text, whole, fraction)
  {
    if Writes(text, whole, fraction) {
      WrittenParses(text, whole, fraction);
    }
    if ParseDecimal(text).Some? {
      ParsedIsWritten(text);
    }
  }

  function Digit10(c: char): (n: int) {
    c as int - '0' as int
  }

  /** The digits in decimal notation: each further digit counts ten times less. */
  lemma ValueGrows(digits: string, last: char)
    requires AllDigits(digits) && IsDigit(last)
    ensures AllDigits(digits + [last]) && Value(digits + [last]) == 10 * Value(digits) + Digit10(last)
  {
    assert (digits + [last])[..|digits|] == digits;
  }

  /** A token as written: a decimal followed by a unit that starts with neither a digit nor a point. */
  ghost predicate IsToken(input: string, number: string, unit: string) {
    input == number + unit && (unit == [] || !IsNumberChar(unit[0]))
  }

  lemma TokenSplits(input: string, number: string, unit: string)
    requires IsToken(input, number, unit) && forall i :: 0 <= i < |number| ==> IsNumberChar(number[i])
    ensures NumberEnd(input, 0) == |number| && input[..|number|] == number && input[|number|..] == unit
  {
    assert forall k :: 0 <= k < |number| ==> IsNumberChar(input[k]);
    if unit != [] {
      assert input[|number|] == unit[0];
    }
  }

  lemma WrittenIsNumber(number: string, whole: string, fraction: Option<string>)
    requires Writes(number, whole, fraction)
    ensures forall i :: 0 <= i < |number| ==> IsNumberChar(number[i])
  {
  }

  /** The value written, as numerator over a power of ten: the digits with the point left out. */
  lemma WrittenValue(whole: string, fraction: Option<string>)
    requires IsNumeral(whole) && (fraction.Some? ==> IsNumeral(fraction.value))
    ensures var d := Decimal(whole, fraction);
      && d.Valid()
      && d.Denominator() == Pow10(if fraction.Some? then |fraction.value| else 0)
      && d.Numerator() == Value(whole) * d.Denominator() + (if fraction.Some? then Value(fraction.value) else 0)
  {
    var d := Decimal(whole, fraction);
    ValueConcat(whole, d.FractionDigits());
  }

  /** Which size tokens are accepted, and their value, for every number and unit written. */
  lemma SizeAsWritten(input: string, number: string, unit: string, whole: string, fraction: Option<string>)
    requires Writes(number, whole, fraction) && IsToken(input, number, unit)
    ensures var d := Decimal(whole, fraction);
      && (ParseByteSize(input).Ok? <==>
            && ByteUnit(unit).Some? && d.Valid() && FractionFits(d, ByteUnit(unit).value)
            && Ceiling(d, ByteUnit(unit).value) <= U64_MAX)
      && (ParseByteSize(input).Ok? ==>
            IsCeiling(ParseByteSize(input).value, d.Numerator() * ByteUnit(unit).value, d.Denominator()))
  {
    WrittenParses(number, whole, fraction);
    WrittenIsNumber(number, whole, fraction);
    TokenSplits(input, number, unit);
    if ByteUnit(unit).Some? {
      ScaledExactly(Decimal(whole, fraction), ByteUnit(unit).value);
    }
  }

  /** Which duration tokens are accepted, and their value in milliseconds, for every number and unit written. */
  lemma DurationAsWritten(input: string, number: string, unit: string, whole: string, fraction: Option<string>)
    requires Writes(number, whole, fraction) && IsToken(input, number, unit)
    ensures var d := Decimal(whole, fraction);
      && (ParseDuration(input).Ok? <==>
            && DurationUnit(unit).Some? && d.Valid() && FractionFits(d, DurationUnit(unit).value)
            && Ceiling(d, DurationUnit(unit).value) <= U64_MAX)
      && (ParseDuration(input).Ok? ==>
            IsCeiling(ParseDuration(input).value, d.Numerator() * DurationUnit(unit).value, d.Denominator()))
  {
    WrittenParses(number, whole, fraction);
    WrittenIsNumber(number, whole, fraction);
    TokenSplits(input, number, unit);
    if DurationUnit(unit).Some? {
      ScaledExactly(Decimal(whole, fraction), DurationUnit(unit).value);
    }
  }

  const NUMBER_CHARS: string := "0123456789."

  lemma NumberChars(c: char)
    ensures IsNumberChar(c) <==> c in NUMBER_CHARS
  {
    assert forall i :: 0 <= i < 10 ==> NUMBER_CHARS[i] as int == '0' as int + i;
    if IsDigit(c) {
      assert NUMBER_CHARS[c as int - '0' as int] == c;
    }
    assert NUMBER_CHARS[10] == '.';
  }

  ghost predicate IsDecimal(number: string) {
    exists whole, fraction :: Writes(number, whole, fraction)
  }

  lemma DecimalExactly(number: string)
    ensures IsDecimal(number) <==> ParseDecimal(number).Some?
  {
    if ParseDecimal(number).Some? {
      ParsedIsWritten(number);
    }
    if whole, fraction :| Writes(number, whole, fraction) {
      WrittenParses(number, whole, fraction);
    }
  }

  /** A token is its longest run of digits and dots, and a unit; what is wrong with it first is what it is refused for. */
  lemma RefusalsExactly(number: string, unit: string)
    requires forall c :: c in number ==> c in NUMBER_CHARS
    requires unit != [] ==> unit[0] !in NUMBER_CHARS
    ensures var size, duration := ParseByteSize(number + unit), ParseDuration(number + unit);
      && (size == Err(MissingNumber) <==> number == [])
      && (size == Err(InvalidUnit(unit)) <==> number != [] && ByteUnit(unit).None?)
      && (size == Err(InvalidDecimal) <==> number != [] && ByteUnit(unit).Some? && !IsDecimal(number))
      && (size.Ok? || size == Err(Overflow) <==> ByteUnit(unit).Some? && IsDecimal(number))
      && (duration == Err(UnsupportedUnit(unit)) <==> DurationUnit(unit).None?)
      && (duration == Err(InvalidSyntax) <==> DurationUnit(unit).Some? && !IsDecimal(number))
      && (duration.Ok? || duration == Err(TooLarge) <==> DurationUnit(unit).Some? && IsDecimal(number))
  {
    forall i | 0 <= i < |number| ensures IsNumberChar(number[i]) {
      NumberChars(number[i]);
    }
    if unit != [] {
      NumberChars(unit[0]);
    }
    TokenSplits(number + unit, number, unit);
    DecimalExactly(number);
  }

  /** Every accepted token writes a decimal and a unit, and is the exact ceiling of their product. */
  lemma AcceptedTokensAreExact(input: string)
    requires ParseByteSize(input).Ok? || ParseDuration(input).Ok?
    ensures exists number, unit, whole, fraction ::
      && IsToken(input, number, unit) && Writes(number, whole, fraction)
      && var d := Decimal(whole, fraction);
      && d.Valid()
      && (ParseByteSize(input).Ok? ==>
            && ByteUnit(unit).Some?
            && IsCeiling(ParseByteSize(input).value, d.Numerator() * ByteUnit(unit).value, d.Denominator()))
      && (ParseDuration(input).Ok? ==>
            && DurationUnit(unit).Some?
            && IsCeiling(ParseDuration(input).value, d.Numerator() * DurationUnit(unit).value, d.Denominator()))
  {
    var split := NumberEnd(input, 0);
    var number, unit := input[..split], input[split..];
    var d := ParseDecimal(number).value;
    ParsedIsWritten(number);
    assert IsToken(input, number, unit);
    SizeAsWritten(input, number, unit, d.whole, d.fraction);
    DurationAsWritten(input, number, unit, d.whole, d.fraction);
  }

  // ----- units ----------------------------------------------------------------------------------

  const PREFIXES: string := "KMGTPE"

  function Power(b: nat, k: nat): (p: nat) {
    if k == 0 then 1 else b * Power(b, k - 1)
  }

  /** A prefix and B stand for powers of 1000, a prefix and iB for powers of 1024. */
  lemma ByteUnitValues(k: nat)
    requires k < 6
    ensures ByteUnit([PREFIXES[k]] + "B") == Some(Power(1000, k + 1))
    ensures ByteUnit([PREFIXES[k]] + "iB") == Some(Power(1024, k + 1))
    ensures ByteUnit("") == ByteUnit("B") == Some(1)
  {
    Powers();
    assert [PREFIXES[k]] + "B" == ["KB", "MB", "GB", "TB", "PB", "EB"][k];
    assert [PREFIXES[k]] + "iB" == ["KiB", "MiB", "GiB", "TiB", "PiB", "EiB"][k];
  }

  /** There are no other byte units. */
  lemma ByteUnitsOnly(unit: string)
    ensures ByteUnit(unit).Some? ==>
      || unit in {"", "B"}
      || (|unit| == 2 && unit[0] in PREFIXES && unit[1..] == "B")
      || (|unit| == 3 && unit[0] in PREFIXES && unit[1..] == "iB")
  {
    assert forall k :: 0 <= k < 6 ==> PREFIXES[k] in PREFIXES;
  }

  /** Durations count in milliseconds, a thousand to the second, sixty seconds to the minute, sixty minutes to the hour. */
  lemma DurationUnitValues(unit: string)
    ensures DurationUnit(unit) == match unit
      case "ms" => Some(1)
      case "s" => Some(1000)
      case "m" => Some(60 * 1000)
      case "h" => Some(60 * 60 * 1000)
      case _ => None
  {
  }

  lemma Powers()
    ensures Power(1000, 1) == 1_000 && Power(1000, 2) == 1_000_000 && Power(1000, 3) == 1_000_000_000
    ensures Power(1000, 4) == 1_000_000_000_000 && Power(1000, 5) == 1_000_000_000_000_000
    ensures Power(1000, 6) == 1_000_000_000_000_000_000
    ensures Power(1024, 1) == 0x400 && Power(1024, 2) == 0x10_0000 && Power(1024, 3) == 0x4000_0000
    ensures Power(1024, 4) == 0x100_0000_0000 && Power(1024, 5) == 0x4_0000_0000_0000
    ensures Power(1024, 6) == 0x1000_0000_0000_0000
  {
  }

  lemma UnitsDisjoint(unit: string)
    ensures ByteUnit(unit).None? || DurationUnit(unit).None?
  {
  }

  /** No token is both a size and a duration. */
  lemma GrammarsDisjoint(input: string)
    ensures ParseByteSize(input).Err? || ParseDuration(input).Err?
  {
    UnitsDisjoint(input[NumberEnd(input, 0)..]);
  }

  // ----- display -------------------------------------------------------------------------------------

  function Digit(n: nat): (c: char)
    requires n < 10
    ensures IsDigit(c) && c as int - '0' as int == n
  {
    ('0' as int + n) as char
  }

  function Digits(n: nat): (s: string)
    ensures s != [] && AllDigits(s)
  {
    if n < 10 then [Digit(n)] else Digits(n / 10) + [Digit(n % 10)]
  }

  function Display(bytes: nat): (s: string) {
    Digits(bytes) + "B"
  }

  lemma {:induction false} DigitsValue(n: nat)
    ensures Value(Digits(n)) == n
  {
    if n < 10 {
      assert [Digit(n)][..0] == [];
    } else {
      DigitsValue(n / 10);
      assert Digits(n)[..|Digits(n)| - 1] == Digits(n / 10);
    }
  }

  /** Parsing a displayed size gives it back. */
  lemma DisplayRoundTrip(bytes: nat)
    requires bytes <= U64_MAX
    ensures ParseByteSize(Display(bytes)) == Ok(bytes)
  {
    var digits, text := Digits(bytes), Display(bytes);
    DigitsValue(bytes);
    assert forall k :: 0 <= k < |digits| ==> IsDigit(text[k]);
    assert text[|digits|] == 'B';
    assert NumberEnd(text, 0) == |digits|;
    assert text[..|digits|] == digits && text[|digits|..] == "B";
    assert FirstDot(digits, 0) == |digits| by {
      assert forall k :: 0 <= k < |digits| ==> IsDigit(digits[k]);
    }
    assert digits[..|digits|] == digits;
    assert ParseDecimal(digits) == Some(Decimal(digits, None));
  }

  // ----- budgets ---------------------------------------------------------------------------------------

  datatype BudgetToken = Memory(raw: string, bytes: nat) | Time(rawTime: string, millis: nat)
  datatype BudgetError = Encoding | Malformed | Ambiguous | TooMany | DuplicateMemory | DuplicateTime

  predicate IsAscii(s: string) {
    forall i :: 0 <= i < |s| ==> s[i] < 128 as char
  }

  function ParseBudget(raw: string): (r: Result<BudgetToken, BudgetError>) {
    if !IsAscii(raw) then Err(Encoding)
    else if raw == [] || raw[0] != '+' then Err(Malformed)
    else
      var value := raw[1..];
      if value == [] || value[0] == '+' then Err(Malformed)
      else
        match (ParseByteSize(value), ParseDuration(value))
        case (Ok(bytes), Err(_)) => Ok(Memory(raw, bytes))
        case (Err(_), Ok(millis)) => Ok(Time(raw, millis))
        case (Ok(_), Ok(_)) => Err(Ambiguous)
        case (Err(_), Err(_)) => Err(Malformed)
  }

  lemma NumbersAreAscii(input: string, n: nat)
    requires n <= |input| && forall k :: 0 <= k < n ==> IsNumberChar(input[k])
    ensures IsAscii(input[..n])
  {
  }

  lemma TokensAreAscii(input: string)
    requires ParseByteSize(input).Ok? || ParseDuration(input).Ok?
    ensures IsAscii(input)
  {
    var n := NumberEnd(input, 0);
    NumbersAreAscii(input, n);
    UnitsAreAscii(input[n..]);
    assert input == input[..n] + input[n..];
  }

  lemma UnitsAreAscii(unit: string)
    requires ByteUnit(unit).Some? || DurationUnit(unit).Some?
    ensures IsAscii(unit)
  {
  }

  /**
   A budget is a plus sign and a size, or a plus sign and a duration, and never both: the
   ambiguity branch is dead. Text outside ASCII is told apart from what is merely malformed.
   */
  lemma BudgetExactly(raw: string, token: BudgetToken)
    ensures ParseBudget(raw) == Ok(token) <==>
      && raw != [] && raw[0] == '+'
      && match token
         case Memory(text, bytes) => text == raw && ParseByteSize(raw[1..]) == Ok(bytes)
         case Time(text, millis) => text == raw && ParseDuration(raw[1..]) == Ok(millis)
    ensures ParseBudget(raw) == Err(Encoding) <==> exists i :: 0 <= i < |raw| && raw[i] as int >= 0x80
    ensures ParseBudget(raw).Err? ==> ParseBudget(raw).error in {Encoding, Malformed}
  {
    if raw != [] {
      GrammarsDisjoint(raw[1..]);
      if |raw| == 1 || raw[1] == '+' {
        PlusIsNoToken(raw[1..]);
      }
      if raw[0] == '+' && (ParseByteSize(raw[1..]).Ok? || ParseDuration(raw[1..]).Ok?) {
        TokensAreAscii(raw[1..]);
        assert raw == [raw[0]] + raw[1..];
      }
    }
  }

  lemma PlusIsNoToken(input: string)
    requires input == [] || input[0] == '+'
    ensures ParseByteSize(input).Err? && ParseDuration(input).Err?
  {
    assert NumberEnd(input, 0) == 0;
    assert input[..0] == [];
  }
}
