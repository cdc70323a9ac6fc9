/** JSON numbers stored as u64, i64 or a finite binary64: reading their spelling and comparing them exactly. */
module NumericComparison {
  import opened Options
  import Decimal

  datatype Ordering = Less | Equal | Greater

  function Reverse(o: Ordering): Ordering {
    match o case Less => Greater case Equal => Equal case Greater => Less
  }

  function Pow2(n: nat): (p: nat)
    ensures p > 0
  {
    if n == 0 then 1 else 2 * Pow2(n - 1)
  }

  // ----- Storage -----

  /** A finite binary64: (-1)^negative * mantissa * 2^exponent; zero keeps its sign. */
  datatype Float = Float(negative: bool, mantissa: nat, exponent: int) {
    /** The value as the fraction `Numerator() / Denominator()`. */
    function Numerator(): int {
      var magnitude := if exponent >= 0 then mantissa * Pow2(exponent) else mantissa;
      if negative then -magnitude else magnitude
    }

    function Denominator(): (d: int)
      ensures d > 0
    {
      if exponent >= 0 then 1 else Pow2(-exponent)
    }

    ghost function Value(): real {
      Numerator() as real / Denominator() as real
    }
  }

  const I64_MIN := -0x8000_0000_0000_0000
  const I64_MAX := 0x7FFF_FFFF_FFFF_FFFF
  const U64_MAX := 0xFFFF_FFFF_FFFF_FFFF

  /** What `serde_json::Number` holds: a nonnegative integer, a negative integer, or a finite float. */
  datatype Number = PosInt(u: nat) | NegInt(i: int) | Double(f: Float) {
    predicate Valid() {
      match this
      case PosInt(u) => u <= U64_MAX
      case NegInt(i) => I64_MIN <= i < 0
      case Double(_) => true
    }

    ghost function Value(): real {
      match this
      case PosInt(u) => u as real
      case NegInt(i) => i as real
      case Double(f) => f.Value()
    }
  }

  lemma {:induction false} Pow2Sum(a: nat, b: nat)
    ensures Pow2(a + b) == Pow2(a) * Pow2(b)
  {
    if a > 0 {
      Pow2Sum(a - 1, b);
    }
  }

  /** The bounds are those of 64-bit integers. */
  lemma Widths()
    ensures I64_MIN == 0 - Pow2(63) && I64_MAX == Pow2(63) - 1 && U64_MAX == Pow2(64) - 1
  {
    assert Pow2(4) == 16 && Pow2(3) == 8;
    Pow2Sum(4, 4);
    Pow2Sum(8, 8);
    Pow2Sum(16, 16);
    Pow2Sum(32, 32);
    assert Pow2(64) == 2 * Pow2(63);
  }

  // ----- Comparison -----

  function CompareInts(a: int, b: int): Ordering {
    if a < b then Less else if a == b then Equal else Greater
  }

  /** `float as i128`, in range: rounding toward zero. */
  function Truncate(f: Float): int {
    var n, d := f.Numerator(), f.Denominator();
    if n >= 0 then n / d else -(-n / d)
  }

  /** The sign of `float.fract()`. */
  function FractSign(f: Float): Ordering {
    CompareInts(f.Numerator(), Truncate(f) * f.Denominator())
  }

  /** `float` against an integer constant that binary64 represents. */
  function CompareToConstant(f: Float, k: int): Ordering {
    CompareInts(f.Numerator(), k * f.Denominator())
  }

  function CompareIntegerFloat(integer: int, float: Float): Ordering {
    if CompareToConstant(float, 18_446_744_073_709_551_616) != Less then Less
    else if CompareToConstant(float, -9_223_372_036_854_775_808) == Less then Greater
    else
      match CompareInts(integer, Truncate(float))
      case Equal => (match FractSign(float) case Greater => Less case Less => Greater case Equal => Equal)
      case ordering => ordering
  }

  /** Finite floats compare by value; both zeros are equal. */
  function CompareFloats(f: Float, g: Float): Ordering {
    CompareInts(f.Numerator() * g.Denominator(), g.Numerator() * f.Denominator())
  }

  function Integer(n: Number): Option<int> {
    match n case PosInt(u) => Some(u) case NegInt(i) => Some(i) case Double(_) => None
  }

  function Compare(left: Number, right: Number): Ordering {
    match (left, right)
    case (Double(f), Double(g)) => CompareFloats(f, g)
    case (Double(f), _) => Reverse(CompareIntegerFloat(Integer(right).value, f))
    case (_, Double(g)) => CompareIntegerFloat(Integer(left).value, g)
    case _ => CompareInts(Integer(left).value, Integer(right).value)
  }

  ghost function CompareReals(a: real, b: real): Ordering {
    if a < b then Less else if a == b then Equal else Greater
  }

  lemma ScaleReals(a: real, b: real, p: real)
    requires p > 0.0
    ensures CompareReals(a, b) == CompareReals(a * p, b * p)
  {}

  lemma FractionTimes(n: int, d: int)
    requires d > 0
    ensures (n as real / d as real) * d as real == n as real
  {}

  /** A fraction against an integer, by cross-multiplication. */
  lemma CompareFraction(n: int, d: int, k: int)
    requires d > 0
    ensures CompareInts(n, k * d) == CompareReals(n as real / d as real, k as real)
  {
    FractionTimes(n, d);
    ScaleReals(n as real / d as real, k as real, d as real);
    assert (k * d) as real == k as real * d as real;
  }

  lemma CompareFractions(n: int, d: int, m: int, e: int)
    requires d > 0 && e > 0
    ensures CompareInts(n * e, m * d) == CompareReals(n as real / d as real, m as real / e as real)
  {
    var x, y, p, q := n as real / d as real, m as real / e as real, d as real, e as real;
    FractionTimes(n, d);
    FractionTimes(m, e);
    ScaleReals(x, y, p);
    ScaleReals(x * p, y * p, q);
    assert x * p * q == n as real * q == (n * e) as real;
    assert y * p * q == m as real * p == (m * d) as real by {
      assert y * p * q == y * q * p;
    }
  }

  lemma DivisionBounds(n: nat, d: int)
    requires d > 0
    ensures n / d * d <= n < (n / d + 1) * d && n / d >= 0
  {
    assert n == n / d * d + n % d;
  }

  lemma TruncateBounds(f: Float)
    ensures var t, n, d := Truncate(f), f.Numerator(), f.Denominator();
            if n >= 0 then t * d <= n < (t + 1) * d && t >= 0 else (t - 1) * d < n <= t * d && t <= 0
  {
    var n, d := f.Numerator(), f.Denominator();
    DivisionBounds(if n >= 0 then n else -n, d);
  }

  lemma MulMonotone(a: int, b: int, d: int)
    requires d > 0 && a < b
    ensures a * d < b * d && (a + 1) * d <= b * d
  {}

  lemma IntegerFloatExact(integer: int, f: Float)
    requires I64_MIN <= integer <= U64_MAX
    ensures CompareIntegerFloat(integer, f) == CompareReals(integer as real, f.Value())
  {
    var n, d, t := f.Numerator(), f.Denominator(), Truncate(f);
    CompareFraction(n, d, 18_446_744_073_709_551_616);
    CompareFraction(n, d, -9_223_372_036_854_775_808);
    CompareFraction(n, d, integer);
    TruncateBounds(f);
    if integer < t {
      MulMonotone(integer, t, d);
    } else if integer > t {
      MulMonotone(t, integer, d);
    }
  }

  /** Two to a power, also below one. */
  ghost function Power2(n: int): (p: real)
    ensures p > 0.0
    decreases if n < 0 then -n else n
  {
    if n == 0 then 1.0 else if n > 0 then 2.0 * Power2(n - 1) else Power2(n + 1) / 2.0
  }

  lemma {:induction false} PowersAgree(n: nat)
    ensures Power2(n) == Pow2(n) as real && Power2(-(n as int)) * Pow2(n) as real == 1.0
  {
    if n > 0 {
      PowersAgree(n - 1);
      var p, q := Power2(1 - (n as int)), Pow2(n - 1) as real;
      assert Pow2(n) as real == 2.0 * q && Power2(-(n as int)) == p / 2.0;
      assert p / 2.0 * (2.0 * q) == p * q;
    }
  }

  lemma WholeFloat(m: nat, e: nat)
    ensures (m * Pow2(e)) as real == m as real * Power2(e)
  {
    PowersAgree(e);
    hide *;
    assert (m * Pow2(e)) as real == m as real * Pow2(e) as real;
  }

  lemma SmallFloat(m: real, e: nat)
    ensures m / Pow2(e) as real == m * Power2(-(e as int))
  {
    PowersAgree(e);
    Reciprocal(m, Power2(-(e as int)), Pow2(e) as real);
  }

  /** The value of a float is its mantissa times its power of two, with its sign. */
  lemma FloatValue(f: Float)
    ensures f.Value() == if f.negative then -(f.mantissa as real * Power2(f.exponent))
                         else f.mantissa as real * Power2(f.exponent)
  {
    hide Pow2, Power2;
    var m := f.mantissa as real;
    if f.exponent >= 0 {
      WholeFloat(f.mantissa, f.exponent);
    } else {
      SmallFloat(m, -f.exponent);
      SmallFloat(-m, -f.exponent);
      Negated(m, Power2(f.exponent));
    }
  }

  lemma Negated(m: real, p: real)
    ensures (-m) * p == -(m * p)
  {}

  lemma Reciprocal(m: real, p: real, q: real)
    requires q > 0.0 && p * q == 1.0
    ensures m / q == m * p
  {
    assert m * p * q == m * (p * q);
  }

  /** No integer is ever rounded: the verdict is the order of the exact values. */
  lemma CompareExact(left: Number, right: Number)
    requires left.Valid() && right.Valid()
    ensures Compare(left, right) == CompareReals(left.Value(), right.Value())
  {
    match (left, right) {
      case (Double(f), Double(g)) =>
        CompareFractions(f.Numerator(), f.Denominator(), g.Numerator(), g.Denominator());
      case (Double(f), _) => IntegerFloatExact(Integer(right).value, f);
      case (_, Double(g)) => IntegerFloatExact(Integer(left).value, g);
      case _ =>
    }
  }

  /** So it is a total preorder across the mixed types, and antisymmetric up to equal value. */
  lemma TotalPreorder(a: Number, b: Number, c: Number)
    requires a.Valid() && b.Valid() && c.Valid()
    ensures Compare(a, a) == Equal && Compare(b, a) == Reverse(Compare(a, b))
    ensures Compare(a, b) != Greater && Compare(b, c) != Greater ==> Compare(a, c) != Greater
    ensures Compare(a, b) != Greater && Compare(b, a) != Greater ==> a.Value() == b.Value()
    ensures Compare(a, b) == Equal && Compare(b, c) == Equal ==> Compare(a, c) == Equal
  {
    hide Compare, Number.Value;
    CompareExact(a, a);
    CompareExact(a, b);
    CompareExact(b, a);
    CompareExact(b, c);
    CompareExact(a, c);
  }

  // ----- Spelling -----

  function SkipDigits(s: string): string {
    if s != "" && Decimal.IsDigit(s[0]) then SkipDigits(s[1..]) else s
  }

  function SkipInteger(s: string): Option<string> {
    if s == "" || !Decimal.IsDigit(s[0]) then None
    else if s[0] == '0' then Some(s[1..])
    else Some(SkipDigits(s))
  }

  function SkipFraction(s: string): string {
    if |s| >= 2 && s[0] == '.' && Decimal.IsDigit(s[1]) then SkipDigits(s[1..]) else s
  }

  function SkipExponent(s: string): string {
    if s == "" || s[0] !in {'e', 'E'} then s
    else
      var unsigned := if |s| >= 2 && s[1] in {'+', '-'} then s[2..] else s[1..];
      if unsigned != "" && Decimal.IsDigit(unsigned[0]) then SkipDigits(unsigned) else s
  }

  /** The JSON number production, matched to the end of the text. */
  predicate IsNumber(raw: string) {
    var rest := SkipInteger(if "-" <= raw then raw[1..] else raw);
    rest.Some? && SkipExponent(SkipFraction(rest.value)) == ""
  }

  predicate IsIntegral(raw: string) {
    forall c :: c in raw ==> c !in {'.', 'e', 'E'}
  }

  datatype ParseError = BadSpelling | OutOfRange | Overflow | Underflow

  /** Decimal-to-binary rounding is used as given: a finite float, or `None` beyond the largest. */
  function ParseNumber(raw: string, round: string -> Option<Float>): Result<Number, ParseError> {
    if !IsNumber(raw) then Err(BadSpelling)
    else if IsIntegral(raw) then
      if "-" <= raw then
        match Decimal.ParseNegative(raw, I64_MAX)
        case Some(i) => Ok(if i < 0 then NegInt(i) else PosInt(i))
        case None => Err(OutOfRange)
      else
        match Decimal.ParseUnsigned(raw, U64_MAX)
        case Some(u) => Ok(PosInt(u))
        case None => Err(OutOfRange)
    else
      match round(raw)
      case None => Err(Overflow)
      case Some(f) => if f.mantissa == 0 && MantissaNonzero(raw) then Err(Underflow) else Ok(Double(f))
  }

  /** A digit other than zero stands before the exponent, so the spelled value is not zero. */
  predicate MantissaNonzero(raw: string) {
    exists i :: 0 <= i < |raw| && '1' <= raw[i] <= '9' && forall j :: 0 <= j < i ==> raw[j] !in {'e', 'E'}
  }

  lemma {:induction false} SkipDigitsStops(s: string)
    ensures SkipDigits(s) != "" ==> SkipDigits(s)[0] in s && !Decimal.IsDigit(SkipDigits(s)[0])
    ensures SkipDigits(s) == "" ==> Decimal.AllDigits(s)
    ensures forall c :: c in SkipDigits(s) ==> c in s
  {
    if s != "" && Decimal.IsDigit(s[0]) {
      SkipDigitsStops(s[1..]);
    }
  }

  function Digits(raw: string): string {
    if "-" <= raw then raw[1..] else raw
  }

  lemma IntegralRest(rest: string)
    requires IsIntegral(rest)
    ensures SkipExponent(SkipFraction(rest)) == rest
  {
    assert rest != "" ==> rest[0] in rest;
  }

  lemma IntegralIsDigits(raw: string)
    requires IsNumber(raw) && IsIntegral(raw)
    ensures Digits(raw) != "" && Decimal.AllDigits(Digits(raw))
  {
    var s := Digits(raw);
    assert forall c :: c in s ==> c in raw;
    var rest := SkipInteger(s).value;
    if s[0] != '0' {
      SkipDigitsStops(s);
    }
    assert forall c :: c in rest ==> c in s;
    IntegralRest(rest);
  }

  /** The integer a spelling writes. */
  ghost function IntegerValue(raw: string): int
    requires Decimal.AllDigits(Digits(raw))
  {
    if "-" <= raw then 0 - Decimal.Value(Digits(raw)) else Decimal.Value(Digits(raw))
  }

  /** An integral spelling is stored exactly, or refused exactly when it is out of range. */
  lemma ParseIntegerExact(raw: string, round: string -> Option<Float>)
    requires IsNumber(raw) && IsIntegral(raw)
    ensures Decimal.AllDigits(Digits(raw))
    ensures match ParseNumber(raw, round)
            case Ok(n) => n.Valid() && n.Value() == IntegerValue(raw) as real && I64_MIN <= IntegerValue(raw) <= U64_MAX
            case Err(e) => e == OutOfRange && !(I64_MIN <= IntegerValue(raw) <= U64_MAX)
  {
    IntegralIsDigits(raw);
  }

  /** Two integral spellings compare as the integers they write, however many digits binary64 would drop. */
  lemma IntegralSpellingsCompare(left: string, right: string, round: string -> Option<Float>)
    requires IsNumber(left) && IsIntegral(left) && IsNumber(right) && IsIntegral(right)
    requires ParseNumber(left, round).Ok? && ParseNumber(right, round).Ok?
    ensures Decimal.AllDigits(Digits(left)) && Decimal.AllDigits(Digits(right))
    ensures Compare(ParseNumber(left, round).value, ParseNumber(right, round).value)
            == CompareInts(IntegerValue(left), IntegerValue(right))
  {
    ParseIntegerExact(left, round);
    ParseIntegerExact(right, round);
    CompareExact(ParseNumber(left, round).value, ParseNumber(right, round).value);
  }

  // ----- The number production -----

  /** `number = [ "-" ] int [ frac ] [ exp ]` (section 6 of RFC 8259), its parts one after the other. */
  datatype Spelling = Spelling(sign: string, whole: string, fraction: string, exponent: string) {
    ghost function Text(): string {
      sign + (whole + (fraction + exponent))
    }

    ghost predicate Valid() {
      && (sign == "" || sign == "-")
      && Decimal.AllDigits(whole) && whole != "" && (whole[0] == '0' ==> |whole| == 1)
      && (fraction == "" || (|fraction| > 1 && fraction[0] == '.' && Decimal.AllDigits(fraction[1..])))
      && (exponent == "" ||
          (exponent[0] in {'e', 'E'} && Decimal.AllDigits(ExponentDigits()) && ExponentDigits() != ""))
    }

    /** The digits of the exponent, behind the letter and the sign. */
    ghost function ExponentDigits(): string {
      if |exponent| < 2 then "" else if exponent[1] in {'+', '-'} then exponent[2..] else exponent[1..]
    }

    /** The number without its exponent, as digits: the decimal point stands before the last `Scale()` of them. */
    ghost function Mantissa(): string {
      whole + (if fraction == "" then "" else fraction[1..])
    }

    ghost function Scale(): nat {
      if fraction == "" then 0 else |fraction| - 1
    }

    ghost function Exponent(): int
      requires Valid()
    {
      var magnitude: int := if exponent == "" then 0 else Decimal.Value(ExponentDigits());
      if exponent != "" && exponent[1] == '-' then -magnitude else magnitude
    }

    lemma MantissaDigits()
      requires Valid()
      ensures Decimal.AllDigits(Mantissa())
    {}

    /** The value written. */
    ghost function Value(): real
      requires Valid()
    {
      MantissaDigits();
      var magnitude := Decimal.Value(Mantissa()) as real * Power10(Exponent() - Scale());
      if sign == "-" then -magnitude else magnitude
    }
  }

  ghost function Power10(n: int): (p: real)
    ensures p > 0.0
    decreases if n < 0 then -n else n
  {
    if n == 0 then 1.0 else if n > 0 then 10.0 * Power10(n - 1) else Power10(n + 1) / 10.0
  }

  /** Digits end where something else starts. */
  predicate NoDigitAhead(s: string) {
    s == "" || !Decimal.IsDigit(s[0])
  }

  lemma {:induction false} SkipAllDigits(digits: string, rest: string)
    requires Decimal.AllDigits(digits) && NoDigitAhead(rest)
    ensures SkipDigits(digits + rest) == rest
  {
    if digits == "" {
      assert digits + rest == rest;
    } else {
      assert (digits + rest)[1..] == digits[1..] + rest;
      SkipAllDigits(digits[1..], rest);
    }
  }

  lemma {:induction false} SkippedDigits(s: string) returns (digits: string)
    ensures Decimal.AllDigits(digits) && s == digits + SkipDigits(s) && NoDigitAhead(SkipDigits(s))
  {
    if s != "" && Decimal.IsDigit(s[0]) {
      var more := SkippedDigits(s[1..]);
      digits := [s[0]] + more;
    } else {
      digits := "";
    }
  }

  lemma SkipsParts(n: Spelling)
    requires n.Valid()
    ensures SkipInteger(n.whole + (n.fraction + n.exponent)) == Some(n.fraction + n.exponent)
    ensures SkipFraction(n.fraction + n.exponent) == n.exponent
    ensures SkipExponent(n.exponent) == ""
  {
    SkipsWhole(n);
    SkipsFraction(n);
    SkipsExponent(n);
  }

  lemma SkipsWhole(n: Spelling)
    requires n.Valid()
    ensures SkipInteger(n.whole + (n.fraction + n.exponent)) == Some(n.fraction + n.exponent)
  {
    var rest := n.fraction + n.exponent;
    assert NoDigitAhead(rest) by {
      assert n.fraction != "" ==> rest[0] == '.';
      assert n.fraction == "" ==> rest == n.exponent;
    }
    if n.whole[0] == '0' {
      assert (n.whole + rest)[1..] == rest;
    } else {
      SkipAllDigits(n.whole, rest);
    }
  }

  lemma SkipsFraction(n: Spelling)
    requires n.Valid()
    ensures SkipFraction(n.fraction + n.exponent) == n.exponent
  {
    if n.fraction != "" {
      assert (n.fraction + n.exponent)[1..] == n.fraction[1..] + n.exponent;
      SkipAllDigits(n.fraction[1..], n.exponent);
    } else {
      assert n.fraction + n.exponent == n.exponent;
    }
  }

  lemma SkipsExponent(n: Spelling)
    requires n.Valid()
    ensures SkipExponent(n.exponent) == ""
  {
    if n.exponent != "" {
      assert n.ExponentDigits() + "" == n.ExponentDigits();
      SkipAllDigits(n.ExponentDigits(), "");
    }
  }

  lemma WholePart(s: string) returns (whole: string)
    requires SkipInteger(s).Some?
    ensures Decimal.AllDigits(whole) && whole != "" && (whole[0] == '0' ==> |whole| == 1)
    ensures s == whole + SkipInteger(s).value
  {
    if s[0] == '0' {
      whole := s[..1];
    } else {
      whole := SkippedDigits(s);
    }
  }

  lemma FractionPart(s: string) returns (fraction: string)
    ensures fraction == "" || (|fraction| > 1 && fraction[0] == '.' && Decimal.AllDigits(fraction[1..]))
    ensures s == fraction + SkipFraction(s)
  {
    if |s| >= 2 && s[0] == '.' && Decimal.IsDigit(s[1]) {
      var digits := SkippedDigits(s[1..]);
      fraction := "." + digits;
      assert fraction[1..] == digits;
      assert s == [s[0]] + s[1..];
    } else {
      fraction := "";
    }
  }

  lemma ExponentPart(s: string)
    requires s != "" && SkipExponent(s) == ""
    ensures s[0] in {'e', 'E'}
    ensures var digits := Spelling("", "", "", s).ExponentDigits(); Decimal.AllDigits(digits) && digits != ""
  {
    var digits := SkippedDigits(if |s| >= 2 && s[1] in {'+', '-'} then s[2..] else s[1..]);
  }

  /** The parts of a number. */
  lemma SpellingOf(raw: string) returns (n: Spelling)
    requires IsNumber(raw)
    ensures n.Valid() && n.Text() == raw
  {
    hide SkipInteger, SkipFraction, SkipExponent;
    var s := if "-" <= raw then raw[1..] else raw;
    assert "-" <= raw ==> raw == "-" + s;
    var whole := WholePart(s);
    var rest := SkipInteger(s).value;
    var fraction := FractionPart(rest);
    var exponent := SkipFraction(rest);
    n := Spelling(if "-" <= raw then "-" else "", whole, fraction, exponent);
    if exponent != "" {
      ExponentPart(exponent);
    }
  }

  /** The spellings accepted are exactly the numbers of the grammar. */
  lemma NumberExact(raw: string)
    ensures IsNumber(raw) <==> exists n: Spelling :: n.Valid() && n.Text() == raw
  {
    if IsNumber(raw) {
      var n := SpellingOf(raw);
    }
    forall n: Spelling | n.Valid() && n.Text() == raw ensures IsNumber(raw) {
      SpelledIsNumber(n);
    }
  }

  lemma SpelledIsNumber(n: Spelling)
    requires n.Valid()
    ensures IsNumber(n.Text())
  {
    hide SkipInteger, SkipFraction, SkipExponent;
    var rest := n.whole + (n.fraction + n.exponent);
    SkipsParts(n);
    if n.sign == "-" {
      assert n.Text()[1..] == rest;
    } else {
      assert n.Text() == rest && rest[0] == n.whole[0];
    }
  }

  // ----- Floating-point spellings -----

  lemma {:induction false} ZeroDigits(s: string)
    requires Decimal.AllDigits(s)
    ensures Decimal.Value(s) == 0 <==> forall i :: 0 <= i < |s| ==> s[i] == '0'
  {
    if s != "" {
      ZeroDigits(s[..|s| - 1]);
    }
  }

  /** A spelling is of zero exactly when every digit of its mantissa is, whatever its exponent. */
  lemma ZeroValue(n: Spelling)
    requires n.Valid()
    ensures n.Value() == 0.0 <==> forall i :: 0 <= i < |n.Mantissa()| ==> n.Mantissa()[i] == '0'
  {
    n.MantissaDigits();
    ZeroDigits(n.Mantissa());
    var m, p := Decimal.Value(n.Mantissa()) as real, Power10(n.Exponent() - n.Scale());
    assert m * p == 0.0 <==> m == 0.0;
  }

  /** Before the exponent a spelling has only its sign, the point and the digits of its mantissa. */
  lemma BeforeExponent(n: Spelling, i: nat)
    requires n.Valid() && i < |n.Text()| - |n.exponent|
    ensures n.Text()[i] !in {'e', 'E'}
    ensures '1' <= n.Text()[i] <= '9' ==> exists k :: 0 <= k < |n.Mantissa()| && n.Mantissa()[k] == n.Text()[i]
  {
    var t, m, a, b := n.Text(), n.Mantissa(), |n.sign|, |n.whole|;
    if i < a {
      assert t[i] == n.sign[i];
    } else if i < a + b {
      assert t[i] == n.whole[i - a] == m[i - a];
    } else {
      assert t[i] == n.fraction[i - a - b];
      assert i > a + b ==> m[i - a - 1] == n.fraction[i - a - b];
    }
  }

  lemma InMantissa(n: Spelling, k: nat)
    requires n.Valid() && k < |n.Mantissa()|
    ensures exists i: nat :: i < |n.Text()| - |n.exponent| && n.Text()[i] == n.Mantissa()[k]
  {
    var t, m, a, b := n.Text(), n.Mantissa(), |n.sign|, |n.whole|;
    if k < b {
      assert t[a + k] == n.whole[k] == m[k];
    } else {
      assert t[a + k + 1] == n.fraction[k - b + 1] == m[k];
    }
  }

  lemma ExponentLetter(n: Spelling)
    requires n.Valid() && n.exponent != ""
    ensures n.Text()[|n.Text()| - |n.exponent|] in {'e', 'E'}
  {
    assert n.Text()[|n.Text()| - |n.exponent|] == n.exponent[0];
  }

  lemma FirstNonzero(n: Spelling)
    requires n.Valid() && MantissaNonzero(n.Text())
    ensures exists k :: 0 <= k < |n.Mantissa()| && n.Mantissa()[k] != '0'
  {
    hide Spelling.Text, Spelling.Mantissa, Spelling.Valid;
    var t := n.Text();
    var i: nat :| i < |t| && '1' <= t[i] <= '9' && forall j :: 0 <= j < i ==> t[j] !in {'e', 'E'};
    ExponentWithin(n);
    BeforeExponent(n, i);
  }

  lemma ExponentWithin(n: Spelling)
    requires n.Valid()
    ensures var end := |n.Text()| - |n.exponent|; end >= 0 && (end < |n.Text()| ==> n.Text()[end] in {'e', 'E'})
  {
    if n.exponent != "" {
      ExponentLetter(n);
    }
  }

  /** The test for a nonzero mantissa finds exactly the spellings of a nonzero value. */
  lemma NonzeroExact(n: Spelling)
    requires n.Valid()
    ensures MantissaNonzero(n.Text()) <==> n.Value() != 0.0
  {
    hide Spelling.Text, Spelling.Mantissa, Spelling.Value;
    var t, m, end := n.Text(), n.Mantissa(), |n.Text()| - |n.exponent|;
    ZeroValue(n);
    n.MantissaDigits();
    if MantissaNonzero(t) {
      FirstNonzero(n);
    }
    if n.Value() != 0.0 {
      var k :| 0 <= k < |m| && m[k] != '0';
      InMantissa(n, k);
      var i: nat :| i < end && t[i] == m[k];
      forall j: nat | j < i ensures t[j] !in {'e', 'E'} {
        BeforeExponent(n, j);
      }
    }
  }

  /**
   * A spelling with a fraction or an exponent is stored as it rounds, and refused in two cases: it rounds
   * beyond the largest float, or it is of a nonzero value and rounds to zero.
   */
  lemma ParseFloatExact(n: Spelling, round: string -> Option<Float>)
    requires n.Valid() && (n.fraction != "" || n.exponent != "")
    ensures var rounded := round(n.Text());
            ParseNumber(n.Text(), round) ==
            if rounded.None? then Err(Overflow)
            else if rounded.value.Value() == 0.0 && n.Value() != 0.0 then Err(Underflow)
            else Ok(Double(rounded.value))
  {
    hide Spelling.Text, Spelling.Value, MantissaNonzero, IsNumber, IsIntegral;
    SpelledIsNumber(n);
    NotIntegral(n);
    NonzeroExact(n);
    if round(n.Text()).Some? {
      ZeroFloat(round(n.Text()).value);
    }
  }

  lemma NotIntegral(n: Spelling)
    requires n.Valid()
    ensures IsIntegral(n.Text()) <==> n.fraction == "" && n.exponent == ""
  {
    var t, a := n.Text(), |n.sign| + |n.whole|;
    if n.fraction != "" {
      assert t[a] == '.' && t[a] in t;
    } else if n.exponent != "" {
      assert t[a] == n.exponent[0] && t[a] in t;
    } else {
      assert t == n.sign + n.whole;
    }
  }

  lemma ZeroFloat(f: Float)
    ensures f.Value() == 0.0 <==> f.mantissa == 0
  {
    FractionTimes(f.Numerator(), f.Denominator());
    if f.exponent >= 0 && f.mantissa > 0 {
      assert f.mantissa * Pow2(f.exponent) > 0;
    }
  }
}
