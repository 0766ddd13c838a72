/**
 Decimals: an integer with a precision and a scale. Addition and subtraction refuse exactly what does
 not fit, multiplication always fits, floor and ceiling under truncating division are the mathematical
 ones, and no intermediate passes ten to the precision.
 */
module Decimals {

  import opened Basics

  const LIMIT: int := 38

  datatype Result = Overflow | Ok(value: int)

  datatype Params = Params(precision: int, scale: int)

  function Pow10(n: nat): (r: nat)
    ensures r > 0
  {
    if n == 0 then 1 else 10 * Pow10(n - 1)
  }

  lemma {:induction false} Pow10Adds(a: nat, b: nat)
    ensures Pow10(a + b) == Pow10(a) * Pow10(b)
    decreases a
  {
    if a > 0 { Pow10Adds(a - 1, b); }
  }

  lemma {:induction false} Pow10Grows(a: nat, b: nat)
    requires a <= b
    ensures Pow10(a) <= Pow10(b)
    decreases b
  {
    if a < b { Pow10Grows(a, b - 1); }
  }

  ghost predicate Fits(x: int, precision: nat) {
    -(Pow10(precision) as int) < x < Pow10(precision)
  }

  function Max(a: int, b: int): int { if a > b then a else b }

  // ---------- What a decimal stands for ----------

  /** The number a decimal of a scale stands for. */
  ghost function Rational(x: int, scale: nat): real {
    x as real / Pow10(scale) as real
  }

  lemma {:induction false} Fraction(x: real, p: real, v: real)
    requires p > 0.0
    ensures x / p == v <==> x == v * p
  {
    assert x / p * p == x;
  }

  lemma {:induction false} RationalIs(x: int, scale: nat, v: real)
    ensures Rational(x, scale) == v <==> x as real == v * Pow10(scale) as real
  {
    Fraction(x as real, Pow10(scale) as real, v);
  }

  lemma {:induction false} RationalSum(x: int, y: int, scale: nat)
    ensures Rational(x + y, scale) == Rational(x, scale) + Rational(y, scale)
    ensures Rational(x - y, scale) == Rational(x, scale) - Rational(y, scale)
  {
    var p, u, v := Pow10(scale) as real, Rational(x, scale), Rational(y, scale);
    RationalIs(x, scale, u);
    RationalIs(y, scale, v);
    assert (u + v) * p == u * p + v * p && (u - v) * p == u * p - v * p;
    RationalIs(x + y, scale, u + v);
    RationalIs(x - y, scale, u - v);
  }

  lemma {:induction false} Interchange(u: real, p: real, v: real, q: real)
    ensures (u * p) * (v * q) == (u * v) * (p * q)
  {
    assert (u * p) * (v * q) == u * (p * (v * q)) == u * ((p * v) * q) == u * ((v * p) * q) == u * (v * (p * q));
  }

  lemma {:induction false} AsReals(m: int, n: int)
    ensures (m * n) as real == m as real * n as real
  {
  }

  lemma {:induction false} Fractions(x: real, p: real, y: real, q: real)
    requires p > 0.0 && q > 0.0 && p * q > 0.0
    ensures x * y / (p * q) == (x / p) * (y / q)
  {
    var u, v := x / p, y / q;
    Fraction(x, p, u);
    Fraction(y, q, v);
    Interchange(u, p, v, q);
    Fraction(x * y, p * q, u * v);
  }

  lemma {:induction false} RationalProduct(x: int, s: nat, y: int, t: nat)
    ensures Rational(x * y, s + t) == Rational(x, s) * Rational(y, t)
  {
    Pow10Adds(s, t);
    AsReals(x, y);
    AsReals(Pow10(s), Pow10(t));
    Fractions(x as real, Pow10(s) as real, y as real, Pow10(t) as real);
  }

  // ---------- Addition and subtraction ----------

  /** `DecimalAdd::operation` */
  function Add(left: int, right: int, precision: nat): Result {
    var bound: int := Pow10(precision);
    if (right > 0 && bound - right <= left) || (right < 0 && -bound - right >= left) then Overflow else Ok(left + right)
  }

  /** `DecimalSubtract::operation` */
  function Subtract(left: int, right: int, precision: nat): Result {
    var bound: int := Pow10(precision);
    if (right > 0 && -bound + right >= left) || (right < 0 && bound + right <= left) then Overflow else Ok(left - right)
  }

  /** Refused exactly when the sum does not fit, and no intermediate exceeds ten to the precision. */
  lemma {:induction false} AddExactlyFits(left: int, right: int, precision: nat)
    requires Fits(left, precision) && Fits(right, precision)
    ensures Add(left, right, precision) == if Fits(left + right, precision) then Ok(left + right) else Overflow
    ensures right > 0 ==> 0 < Pow10(precision) - right < Pow10(precision)
    ensures right < 0 ==> -(Pow10(precision) as int) < -(Pow10(precision) as int) - right < 0
  {
  }

  lemma {:induction false} SubtractExactlyFits(left: int, right: int, precision: nat)
    requires Fits(left, precision) && Fits(right, precision)
    ensures Subtract(left, right, precision) == if Fits(left - right, precision) then Ok(left - right) else Overflow
    ensures Subtract(left, right, precision) == Add(left, -right, precision)
    ensures right > 0 ==> -(Pow10(precision) as int) < -(Pow10(precision) as int) + right < 0
    ensures right < 0 ==> 0 < Pow10(precision) + right < Pow10(precision)
  {
  }

  /** `resultingParams` of addition and subtraction. */
  function AddParams(a: Params, b: Params): Params {
    var whole := Max(a.precision - a.scale, b.precision - b.scale);
    var p := Min(LIMIT, Max(a.scale, b.scale) + whole + 1);
    var s := Min(p, Max(a.scale, b.scale));
    Params(p, if whole < Min(LIMIT, p) - s then Min(p, LIMIT) - whole else s)
  }

  predicate Valid(t: Params) {
    0 <= t.scale <= t.precision && 0 < t.precision <= LIMIT
  }

  /** The result is not cut at the precision limit. */
  predicate Unclamped(a: Params, b: Params) {
    Max(a.scale, b.scale) + Max(a.precision - a.scale, b.precision - b.scale) + 1 <= LIMIT
  }

  /** The cast of an operand to a larger scale. */
  function Rescale(x: int, from: nat, to: nat): int
    requires from <= to
  {
    Pow10(to - from) * x
  }

  /** The cast keeps the number. */
  lemma {:induction false} RescaleKeeps(x: int, from: nat, to: nat)
    requires from <= to
    ensures Rational(Rescale(x, from, to), to) == Rational(x, from)
  {
    var k := to - from;
    RationalProduct(Pow10(k), k, x, from);
    RationalIs(Pow10(k), k, 1.0);
    assert Rational(Pow10(k), k) == 1.0;
  }

  lemma {:induction false} UnclampedParams(a: Params, b: Params)
    requires Valid(a) && Valid(b) && Unclamped(a, b)
    ensures var r := AddParams(a, b);
            && Valid(r) && r.scale == Max(a.scale, b.scale) + 1
            && r.precision - r.scale == Max(a.precision - a.scale, b.precision - b.scale)
  {
  }

  lemma {:induction false} RescaleFits(x: int, from: Params, to: Params)
    requires Valid(from) && Valid(to) && Fits(x, from.precision)
    requires from.scale <= to.scale && from.precision - from.scale <= to.precision - to.scale
    ensures Fits(Rescale(x, from.scale, to.scale), to.precision)
  {
    var k := to.scale - from.scale;
    Pow10Adds(k, from.precision);
    Pow10Grows(k + from.precision, to.precision);
    Scaled(x, Pow10(k), Pow10(from.precision));
  }

  lemma {:induction false} Scaled(x: int, k: int, bound: int)
    requires k > 0 && -bound < x < bound
    ensures -(k * bound) < k * x < k * bound
  {
  }

  /** Unclamped addition rescales both operands exactly and yields their sum, or refuses what does not fit. */
  lemma {:induction false} UnclampedAddIsExact(x: int, a: Params, y: int, b: Params)
    requires Valid(a) && Valid(b) && Unclamped(a, b) && Fits(x, a.precision) && Fits(y, b.precision)
    ensures var r := AddParams(a, b);
            && a.scale <= r.scale && b.scale <= r.scale && r.precision >= 0
            && Fits(Rescale(x, a.scale, r.scale), r.precision) && Fits(Rescale(y, b.scale, r.scale), r.precision)
            && Add(Rescale(x, a.scale, r.scale), Rescale(y, b.scale, r.scale), r.precision) ==
                 var sum := Rescale(x, a.scale, r.scale) + Rescale(y, b.scale, r.scale);
                 if Fits(sum, r.precision) then Ok(sum) else Overflow
  {
    UnclampedParams(a, b);
    var r := AddParams(a, b);
    RescaleFits(x, a, r);
    RescaleFits(y, b, r);
    AddExactlyFits(Rescale(x, a.scale, r.scale), Rescale(y, b.scale, r.scale), r.precision);
  }

  /** What unclamped addition and subtraction return stands for the sum and the difference of what the operands stand for. */
  lemma {:induction false} UnclampedAddsNumbers(x: int, a: Params, y: int, b: Params)
    requires Valid(a) && Valid(b) && Unclamped(a, b) && Fits(x, a.precision) && Fits(y, b.precision)
    ensures var r := AddParams(a, b); a.scale <= r.scale && b.scale <= r.scale && r.precision >= 0
    ensures var r := AddParams(a, b);
            var sum := Add(Rescale(x, a.scale, r.scale), Rescale(y, b.scale, r.scale), r.precision);
            sum.Ok? ==> Rational(sum.value, r.scale) == Rational(x, a.scale) + Rational(y, b.scale)
    ensures var r := AddParams(a, b);
            var difference := Subtract(Rescale(x, a.scale, r.scale), Rescale(y, b.scale, r.scale), r.precision);
            difference.Ok? ==> Rational(difference.value, r.scale) == Rational(x, a.scale) - Rational(y, b.scale)
  {
    UnclampedParams(a, b);
    var r := AddParams(a, b);
    RescaleKeeps(x, a.scale, r.scale);
    RescaleKeeps(y, b.scale, r.scale);
    RationalSum(Rescale(x, a.scale, r.scale), Rescale(y, b.scale, r.scale), r.scale);
  }

  /** The extra digit goes to the scale, not to the whole part: the largest decimals of a type cannot be added. */
  lemma {:induction false} LargestSumOverflows(t: Params)
    requires Valid(t) && Unclamped(t, t)
    ensures var r, x := AddParams(t, t), Pow10(t.precision) - 1;
            && t.scale <= r.scale && r.precision >= 0
            && Add(Rescale(x, t.scale, r.scale), Rescale(x, t.scale, r.scale), r.precision) == Overflow
  {
    UnclampedParams(t, t);
    var r, x := AddParams(t, t), Pow10(t.precision) - 1;
    assert Pow10(1) == 10 && Pow10(t.precision) >= 10;
    assert r.precision == t.precision + 1 && Rescale(x, t.scale, r.scale) == 10 * x;
  }

  // ---------- Casts, and sums of any two types ----------

  /** Division by a power of ten with half of it added away from zero. */
  function Rounded(x: int, k: nat): int
    requires k > 0
  {
    Quotient(Pow10(k - 1) * (if x < 0 then -5 else 5) + x, Pow10(k))
  }

  /** The nearest multiple, ties away from zero. */
  lemma {:induction false} RoundedIsNearest(x: int, k: nat)
    requires k > 0
    ensures var unit, near := Pow10(k), 2 * Rounded(x, k) * Pow10(k);
            if x < 0 then near - unit < 2 * x <= near + unit else near - unit <= 2 * x < near + unit
  {
    var half: nat := 5 * Pow10(k - 1);
    var q := QuotientOf((if x < 0 then -x else x) + half, Pow10(k));
    assert (-q) * Pow10(k) == -(q * Pow10(k));
    assert Rounded(x, k) == if x < 0 then -q else q;
    assert 2 * Rounded(x, k) * Pow10(k) == 2 * (Rounded(x, k) * Pow10(k));
  }

  /** `CastBetweenDecimal::operation` */
  function CastBetween(x: int, from: Params, to: Params): Result
    requires Valid(from) && Valid(to)
  {
    var y := if from.scale <= to.scale then Rescale(x, from.scale, to.scale) else Rounded(x, from.scale - to.scale);
    if Pow10(to.precision) <= y || -(Pow10(to.precision) as int) >= y then Overflow else Ok(y)
  }

  /** To a scale at least as large the cast keeps the number, and refuses exactly what does not fit. */
  lemma {:induction false} CastKeepsNumber(x: int, from: Params, to: Params)
    requires Valid(from) && Valid(to) && from.scale <= to.scale
    ensures CastBetween(x, from, to).Ok? <==> Fits(Rescale(x, from.scale, to.scale), to.precision)
    ensures CastBetween(x, from, to).Ok? ==> Rational(CastBetween(x, from, to).value, to.scale) == Rational(x, from.scale)
  {
    RescaleKeeps(x, from.scale, to.scale);
  }

  /** The result of an addition has the larger scale, and one digit more if the limit leaves room for it. */
  lemma {:induction false} AddParamsExactly(a: Params, b: Params)
    requires Valid(a) && Valid(b)
    ensures var r, scale, whole := AddParams(a, b), Max(a.scale, b.scale), Max(a.precision - a.scale, b.precision - b.scale);
            && Valid(r) && r.scale == (if Unclamped(a, b) then scale + 1 else scale)
            && r.precision == (if Unclamped(a, b) then scale + whole + 1 else LIMIT)
  {
  }

  /** Addition of decimals of any two types: both cast to the type of the result, then added. */
  function AddDecimals(x: int, a: Params, y: int, b: Params): Result
    requires Valid(a) && Valid(b)
  {
    AddParamsExactly(a, b);
    var r := AddParams(a, b);
    var left, right := CastBetween(x, a, r), CastBetween(y, b, r);
    if left.Overflow? || right.Overflow? then Overflow else Add(left.value, right.value, r.precision)
  }

  /** For any two types, at the limit of the precision too: what is returned stands for the sum of the numbers, and it is refused
      exactly when a number or the sum does not fit the type of the result. */
  lemma {:induction false} SumIsExact(x: int, a: Params, y: int, b: Params)
    requires Valid(a) && Valid(b)
    ensures Valid(AddParams(a, b)) && a.scale <= AddParams(a, b).scale && b.scale <= AddParams(a, b).scale
    ensures var r := AddParams(a, b); var u, v := Rescale(x, a.scale, r.scale), Rescale(y, b.scale, r.scale);
            && (AddDecimals(x, a, y, b).Ok? <==> Fits(u, r.precision) && Fits(v, r.precision) && Fits(u + v, r.precision))
            && (AddDecimals(x, a, y, b).Ok? ==>
                  Rational(AddDecimals(x, a, y, b).value, r.scale) == Rational(x, a.scale) + Rational(y, b.scale))
  {
    AddParamsExactly(a, b);
    var r := AddParams(a, b);
    var u, v := Rescale(x, a.scale, r.scale), Rescale(y, b.scale, r.scale);
    CastIs(x, a, r, u);
    CastIs(y, b, r, v);
    RescaleKeeps(x, a.scale, r.scale);
    RescaleKeeps(y, b.scale, r.scale);
    AddCast(CastBetween(x, a, r), CastBetween(y, b, r), u, v, r.precision, r.scale);
  }

  lemma {:induction false} CastIs(x: int, from: Params, to: Params, u: int)
    requires Valid(from) && Valid(to) && from.scale <= to.scale && u == Rescale(x, from.scale, to.scale)
    ensures CastBetween(x, from, to) == if Fits(u, to.precision) then Ok(u) else Overflow
  {
  }

  lemma {:induction false} AddCast(left: Result, right: Result, u: int, v: int, precision: nat, scale: nat)
    requires left == (if Fits(u, precision) then Ok(u) else Overflow) && right == (if Fits(v, precision) then Ok(v) else Overflow)
    ensures var sum := if left.Overflow? || right.Overflow? then Overflow else Add(left.value, right.value, precision);
            && (sum.Ok? <==> Fits(u, precision) && Fits(v, precision) && Fits(u + v, precision))
            && (sum.Ok? ==> Rational(sum.value, scale) == Rational(u, scale) + Rational(v, scale))
  {
    if Fits(u, precision) && Fits(v, precision) { AddExactlyFits(u, v, precision); }
    RationalSum(u, v, scale);
  }

  // ---------- Multiplication ----------

  /** `DecimalMultiply::operation` */
  function Multiply(left: int, right: int, precision: nat): Result {
    var bound: int := Pow10(precision);
    if left * right <= -bound || left * right >= bound then Overflow else Ok(left * right)
  }

  /** `resultingParams` of multiplication; None is the refusal at bind time. */
  function MultiplyParams(a: Params, b: Params): Option<Params> {
    if a.precision + b.precision + 1 > LIMIT then None else Some(Params(a.precision + b.precision + 1, a.scale + b.scale))
  }

  lemma {:induction false} ProductBound(x: int, m: int, y: int, n: int)
    requires -m < x < m && -n < y < n
    ensures -(m * n) < x * y < m * n
  {
    assert (m - x) * (n + y) > 0 && (m + x) * (n - y) > 0;
    assert (m - x) * (n - y) > 0 && (m + x) * (n + y) > 0;
    assert (m - x) * (n + y) + (m + x) * (n - y) == 2 * (m * n) - 2 * (x * y);
    assert (m - x) * (n - y) + (m + x) * (n + y) == 2 * (m * n) + 2 * (x * y);
  }

  /** Under the precision it is given, a product is never refused. */
  lemma {:induction false} MultiplyNeverOverflows(x: int, a: Params, y: int, b: Params)
    requires Valid(a) && Valid(b) && Fits(x, a.precision) && Fits(y, b.precision) && MultiplyParams(a, b).Some?
    ensures Multiply(x, y, MultiplyParams(a, b).value.precision) == Ok(x * y)
  {
    ProductBound(x, Pow10(a.precision), y, Pow10(b.precision));
    Pow10Adds(a.precision, b.precision);
  }

  /** And it stands for the product of what the operands stand for. */
  lemma {:induction false} MultiplyMultipliesNumbers(x: int, a: Params, y: int, b: Params)
    requires Valid(a) && Valid(b) && Fits(x, a.precision) && Fits(y, b.precision) && MultiplyParams(a, b).Some?
    ensures var r := MultiplyParams(a, b).value;
            && r.precision >= 0 && r.scale >= 0 && Valid(r) && Multiply(x, y, r.precision).Ok?
            && Rational(Multiply(x, y, r.precision).value, r.scale) == Rational(x, a.scale) * Rational(y, b.scale)
  {
    MultiplyNeverOverflows(x, a, y, b);
    RationalProduct(x, a.scale, y, b.scale);
  }

  // ---------- Floor and ceiling ----------

  /** The remainder of truncating division. */
  function Rem(a: int, b: nat): int
    requires b > 0
  {
    a - Quotient(a, b) * b
  }

  lemma {:induction false} QuotientOf(c: nat, b: nat) returns (q: int)
    requires b > 0
    ensures q == c / b && q >= 0 && 0 <= c - q * b < b
  {
    q := c / b;
    assert c == q * b + c % b;
    assert q <= -1 ==> q * b <= -1 * b;
  }

  lemma {:induction false} DivRem(a: int, b: nat)
    requires b > 0
    ensures a >= 0 ==> Quotient(a, b) >= 0 && 0 <= Rem(a, b) < b
    ensures a < 0 ==> Quotient(a, b) <= 0 && Rem(a, b) <= 0 && -(b as int) < Rem(a, b)
    ensures a == Quotient(a, b) * b + Rem(a, b)
  {
    var q := QuotientOf(if a < 0 then -a else a, b);
    assert (-q) * b == -(q * b);
  }

  lemma {:induction false} DivExact(q: int, b: nat)
    requires b > 0
    ensures Quotient(q * b, b) == q
  {
    DivRem(q * b, b);
    var d, r := Quotient(q * b, b) - q, Rem(q * b, b);
    assert d * b == -r by { assert d * b == Quotient(q * b, b) * b - q * b; }
    Zero(d, b, r);
  }

  lemma {:induction false} Zero(d: int, b: int, r: int)
    requires b > 0 && d * b == -r && -b < r < b
    ensures d == 0
  {
    assert d >= 1 ==> d * b >= b;
    assert d <= -1 ==> d * b <= -b;
  }

  /** The multiple that `DecimalFloor` divides. */
  function FloorMultiple(x: int, scale: nat): int {
    var unit := Pow10(scale);
    if x < 0 then x - (if Rem(x, unit) == 0 then 0 else unit + Rem(x, unit)) else x - Rem(x, unit)
  }

  /** `DecimalFloor::operation` */
  function Floor(x: int, scale: nat): int {
    Quotient(FloorMultiple(x, scale), Pow10(scale))
  }

  /** The multiple that `DecimalCeil` divides. */
  function CeilMultiple(x: int, scale: nat): int {
    var unit := Pow10(scale);
    if x < 0 then x - Rem(x, unit) else x + (if Rem(x, unit) == 0 then 0 else unit - Rem(x, unit))
  }

  /** `DecimalCeil::operation` */
  function Ceil(x: int, scale: nat): int {
    Quotient(CeilMultiple(x, scale), Pow10(scale))
  }

  lemma {:induction false} FloorQuotient(x: int, unit: nat) returns (q: int)
    requires unit > 0
    ensures q * unit == if x < 0 then x - (if Rem(x, unit) == 0 then 0 else unit + Rem(x, unit)) else x - Rem(x, unit)
    ensures q * unit <= x < q * unit + unit
  {
    DivRem(x, unit);
    q := if x < 0 && Rem(x, unit) != 0 then Quotient(x, unit) - 1 else Quotient(x, unit);
    assert (Quotient(x, unit) - 1) * unit == Quotient(x, unit) * unit - unit;
  }

  lemma {:induction false} CeilQuotient(x: int, unit: nat) returns (q: int)
    requires unit > 0
    ensures q * unit == if x < 0 then x - Rem(x, unit) else x + (if Rem(x, unit) == 0 then 0 else unit - Rem(x, unit))
    ensures q * unit - unit < x <= q * unit
  {
    DivRem(x, unit);
    q := if x >= 0 && Rem(x, unit) != 0 then Quotient(x, unit) + 1 else Quotient(x, unit);
    assert (Quotient(x, unit) + 1) * unit == Quotient(x, unit) * unit + unit;
  }

  /** Floor is the mathematical one. */
  lemma {:induction false} FloorIsFloor(x: int, scale: nat)
    ensures var unit := Pow10(scale);
            FloorMultiple(x, scale) == Floor(x, scale) * unit && Floor(x, scale) * unit <= x < Floor(x, scale) * unit + unit
  {
    var q := FloorQuotient(x, Pow10(scale));
    DivExact(q, Pow10(scale));
  }

  /** And ceiling the mathematical one. */
  lemma {:induction false} CeilIsCeil(x: int, scale: nat)
    ensures var unit := Pow10(scale);
            CeilMultiple(x, scale) == Ceil(x, scale) * unit && Ceil(x, scale) * unit - unit < x <= Ceil(x, scale) * unit
  {
    var q := CeilQuotient(x, Pow10(scale));
    DivExact(q, Pow10(scale));
  }

  /** The multiples of a unit next to a number within a larger multiple stay within it. */
  lemma {:induction false} StaysWithin(low: int, high: int, x: int, unit: int, n: int)
    requires unit > 0 && -(n * unit) < x < n * unit
    requires low * unit <= x < low * unit + unit && high * unit - unit < x <= high * unit
    ensures -(n * unit) <= low * unit <= n * unit && -(n * unit) <= high * unit <= n * unit
  {
    assert (low + 1) * unit == low * unit + unit && (high - 1) * unit == high * unit - unit;
    assert low + 1 <= -n ==> (low + 1) * unit <= -n * unit;
    assert high - 1 >= n ==> (high - 1) * unit >= n * unit;
    assert low >= -n ==> low * unit >= -n * unit;
    assert high <= n ==> high * unit <= n * unit;
  }

  /** The intermediates of floor and ceiling do not exceed ten to the precision. */
  lemma {:induction false} IntermediatesBounded(x: int, t: Params)
    requires Valid(t) && Fits(x, t.precision)
    ensures var bound: int := Pow10(t.precision);
            -bound <= FloorMultiple(x, t.scale) <= bound && -bound <= CeilMultiple(x, t.scale) <= bound
  {
    var unit, whole: int := Pow10(t.scale), Pow10(t.precision - t.scale);
    Pow10Adds(t.precision - t.scale, t.scale);
    var low := FloorQuotient(x, unit);
    var high := CeilQuotient(x, unit);
    StaysWithin(low, high, x, unit, whole);
  }
}
