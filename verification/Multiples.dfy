// multipleOf: exact decimal divisibility with 64-bit coefficients.

module Multiples {
  import opened JsonValue
  import opened Pointer
  import opened NumberText
  import opened Syntax
  import opened DoubleText

  // ---- Divisibility of decimals ----

  ghost predicate Divides(d: int, x: int) {
    exists k: int :: x == d * k
  }

  lemma ModDivides(d: nat, x: nat)
    requires d > 0
    ensures x % d == 0 <==> Divides(d, x)
  {
    if x % d == 0 { assert x == d * (x / d); }
    if Divides(d, x) {
      var k :| x == d * k;
      assert d * (k - x / d) == x % d;
      SmallMultiple(d, k - x / d, x % d);
    }
  }

  lemma SmallMultiple(d: nat, e: int, r: nat)
    requires r == d * e && r < d
    ensures r == 0
  {
    assert e >= 1 ==> d * e >= d;
    assert e <= -1 ==> d * e + d <= 0;
  }

  lemma ScaleDivides(c: int, d: int, x: int)
    requires c > 0
    ensures Divides(c * d, c * x) <==> Divides(d, x)
  {
    if Divides(d, x) {
      var k :| x == d * k;
      assert c * x == c * d * k;
    }
    if Divides(c * d, c * x) {
      var k :| c * x == c * d * k;
      Cancel(c, x, d * k) by { assert c * d * k == c * (d * k); }
    }
  }

  lemma Cancel(c: int, x: int, y: int)
    requires c > 0 && c * x == c * y
    ensures x == y
  {
    assert c * (x - y) == 0;
  }

  function Power(b: nat, n: nat): (p: nat)
    requires b > 0
    ensures p > 0
  {
    if n == 0 then 1 else b * Power(b, n - 1)
  }

  lemma {:induction false} PowerTen(n: nat)
    ensures Power(10, n) == Power(2, n) * Power(5, n)
    decreases n
  {
    if n > 0 {
      PowerTen(n - 1);
      var a, b := Power(2, n - 1), Power(5, n - 1);
      assert 10 * (a * b) == (2 * a) * (5 * b);
    }
  }

  // m1 * 10^e1 is an integer multiple of m2 * 10^e2, both brought to the
  // exponent e.
  ghost predicate MultipleAt(m1: nat, e1: int, m2: nat, e2: int, e: int)
    requires e <= e1 && e <= e2
  {
    Divides(m2 * Power(10, e2 - e), m1 * Power(10, e1 - e))
  }

  function Lower(a: int, b: int): int {
    if a < b then a else b
  }

  ghost predicate Multiple(m1: nat, e1: int, m2: nat, e2: int) {
    MultipleAt(m1, e1, m2, e2, Lower(e1, e2))
  }

  lemma TenMore(m: nat, n: nat)
    ensures m * Power(10, n + 1) == 10 * (m * Power(10, n))
  {
    assert Power(10, n + 1) == 10 * Power(10, n);
  }

  // The common exponent does not matter.
  lemma {:induction false} AnyExponent(m1: nat, e1: int, m2: nat, e2: int, e: int, f: int)
    requires f <= e <= e1 && e <= e2
    ensures MultipleAt(m1, e1, m2, e2, e) <==> MultipleAt(m1, e1, m2, e2, f)
    decreases e - f
  {
    if f < e {
      TenMore(m2, e2 - e);
      TenMore(m1, e1 - e);
      ScaleDivides(10, m2 * Power(10, e2 - e), m1 * Power(10, e1 - e));
      AnyExponent(m1, e1, m2, e2, e - 1, f);
    }
  }

  // Moving a factor of ten into the exponent changes nothing.
  lemma Normalized(m1: nat, e1: int, m2: nat, e2: int)
    ensures Multiple(10 * m1, e1, m2, e2) <==> Multiple(m1, e1 + 1, m2, e2)
    ensures Multiple(m1, e1, 10 * m2, e2) <==> Multiple(m1, e1, m2, e2 + 1)
  {
    hide Power, Divides;
    var e := Lower(e1, e2);
    AnyExponent(m1, e1 + 1, m2, e2, Lower(e1 + 1, e2), e);
    AnyExponent(m1, e1, m2, e2 + 1, Lower(e1, e2 + 1), e);
    TenMore(m1, e1 - e);
    TenMore(m2, e2 - e);
    assert 10 * m1 * Power(10, e1 - e) == 10 * (m1 * Power(10, e1 - e));
    assert 10 * m2 * Power(10, e2 - e) == 10 * (m2 * Power(10, e2 - e));
  }

  // ---- Normalizing ----

  datatype ExactDecimal = ExactDecimal(coefficient: UInt64, exponent: int)

  predicate Normal(x: ExactDecimal) {
    if x.coefficient == 0 then x.exponent == 0 else x.coefficient % 10 != 0
  }

  // The same number, as far as divisibility goes.
  ghost predicate SameNumber(m: nat, e: int, x: ExactDecimal) {
    && (m == 0 <==> x.coefficient == 0)
    && (forall n: nat, f: int :: Multiple(m, e, n, f) <==> Multiple(x.coefficient, x.exponent, n, f))
    && (m > 0 ==> forall n: nat, f: int :: Multiple(n, f, m, e) <==> Multiple(n, f, x.coefficient, x.exponent))
  }

  lemma SameStep(m: nat, e: int, c: UInt64, f: int)
    requires SameNumber(m, e, ExactDecimal(c, f)) && c % 10 == 0 && c > 0
    ensures SameNumber(m, e, ExactDecimal(c / 10, f + 1))
  {
    hide Multiple;
    var d := c / 10;
    assert c == 10 * d && d > 0;
    forall n: nat, g: int ensures Multiple(c, f, n, g) <==> Multiple(d, f + 1, n, g) { Normalized(d, f, n, g); }
    forall n: nat, g: int ensures Multiple(n, g, c, f) <==> Multiple(n, g, d, f + 1) { Normalized(n, g, d, f); }
  }

  // while (coefficient % 10 == 0) { coefficient /= 10; ++exponent; }
  method StripTens(coefficient: UInt64, exponent: int) returns (x: ExactDecimal)
    requires coefficient != 0
    ensures Normal(x) && SameNumber(coefficient, exponent, x) && x.coefficient > 0
  {
    hide Multiple;
    var c, e := coefficient, exponent;
    while c % 10 == 0
      invariant 0 < c <= UINT64_MAX && SameNumber(coefficient, exponent, ExactDecimal(c, e))
      decreases c
    {
      SameStep(coefficient, exponent, c, e);
      c := c / 10;
      e := e + 1;
    }
    x := ExactDecimal(c, e);
  }

  // ---- The divisibility test on normal decimals ----

  lemma OddFactor(r: nat, y: nat)
    requires r % 2 != 0
    ensures Divides(r, 2 * y) <==> Divides(r, y)
  {
    if Divides(r, 2 * y) {
      var k :| 2 * y == r * k;
      assert k % 2 == 0 by { OddProduct(r, k); }
      assert 2 * y == 2 * (r * (k / 2)) by { assert k == 2 * (k / 2); assert r * (2 * (k / 2)) == 2 * (r * (k / 2)); }
    }
    if Divides(r, y) {
      var k :| y == r * k;
      assert 2 * y == r * (2 * k);
    }
  }

  lemma OddProduct(r: nat, k: int)
    requires r % 2 != 0 && r * k % 2 == 0
    ensures k % 2 == 0
  {
    var a := r / 2;
    assert r == 2 * a + 1;
    assert r * k == 2 * (a * k) + k;
  }

  lemma FiveProduct(r: nat, k: int)
    requires r % 5 != 0 && r * k % 5 == 0
    ensures k % 5 == 0
  {
    var a, b, s, t := r / 5, k / 5, r % 5, k % 5;
    assert r == 5 * a + s && k == 5 * b + t;
    assert r * k == 5 * (5 * a * b + a * t + b * s) + s * t;
    assert s * t % 5 == 0;
    SmallResidues(s, t);
  }

  lemma SmallResidues(s: nat, t: nat)
    requires 0 < s < 5 && t < 5 && s * t % 5 == 0
    ensures t == 0
  {
    if s == 1 { } else if s == 2 { } else if s == 3 { } else { assert s == 4; }
  }

  lemma FiveFactor(r: nat, y: nat)
    requires r % 5 != 0
    ensures Divides(r, 5 * y) <==> Divides(r, y)
  {
    if Divides(r, 5 * y) {
      var k :| 5 * y == r * k;
      FiveProduct(r, k);
      assert k == 5 * (k / 5);
      assert 5 * y == 5 * (r * (k / 5)) by { assert r * (5 * (k / 5)) == 5 * (r * (k / 5)); }
    }
    if Divides(r, y) {
      var k :| y == r * k;
      assert 5 * y == r * (5 * k);
    }
  }

  lemma {:induction false} NoTwos(r: nat, x: nat, n: nat)
    requires r % 2 != 0
    ensures Divides(r, x * Power(2, n)) <==> Divides(r, x)
    decreases n
  {
    if n > 0 {
      assert x * Power(2, n) == 2 * (x * Power(2, n - 1));
      OddFactor(r, x * Power(2, n - 1));
      NoTwos(r, x, n - 1);
    }
  }

  lemma {:induction false} NoFives(r: nat, x: nat, n: nat)
    requires r % 5 != 0
    ensures Divides(r, x * Power(5, n)) <==> Divides(r, x)
    decreases n
  {
    if n > 0 {
      assert x * Power(5, n) == 5 * (x * Power(5, n - 1));
      FiveFactor(r, x * Power(5, n - 1));
      NoFives(r, x, n - 1);
    }
  }

  lemma StripTwo(r: nat, x: nat, n: nat)
    requires n > 0 && r % 2 == 0
    ensures Divides(r, x * Power(2, n)) <==> Divides(r / 2, x * Power(2, n - 1))
  {
    assert r == 2 * (r / 2);
    assert x * Power(2, n) == 2 * (x * Power(2, n - 1));
    ScaleDivides(2, r / 2, x * Power(2, n - 1));
  }

  lemma StripFive(r: nat, x: nat, n: nat)
    requires n > 0 && r % 5 == 0
    ensures Divides(r, x * Power(5, n)) <==> Divides(r / 5, x * Power(5, n - 1))
  {
    assert r == 5 * (r / 5);
    assert x * Power(5, n) == 5 * (x * Power(5, n - 1));
    ScaleDivides(5, r / 5, x * Power(5, n - 1));
  }

  // Removes at most shift factors of two, then of five: what is left divides
  // the coefficient exactly when the divisor divides coefficient * 10^shift.
  method StripFactors(divisor: UInt64, shift: nat, coefficient: UInt64) returns (divides: bool)
    requires divisor > 0
    ensures divides <==> Divides(divisor, coefficient * Power(10, shift))
  {
    hide Divides, Power;
    PowerTen(shift);
    ghost var fives := coefficient * Power(5, shift);
    assert coefficient * Power(10, shift) == fives * Power(2, shift) by {
      Regroup(coefficient, Power(2, shift), Power(5, shift));
    }
    var reduced, remainingTwos, remainingFives := divisor, shift, shift;
    while remainingTwos > 0 && reduced % 2 == 0
      invariant 0 < reduced <= divisor && 0 <= remainingTwos <= shift
      invariant Divides(divisor, coefficient * Power(10, shift)) <==> Divides(reduced, fives * Power(2, remainingTwos))
    {
      StripTwo(reduced, fives, remainingTwos);
      reduced := reduced / 2;
      remainingTwos := remainingTwos - 1;
    }
    TwosGone(reduced, fives, remainingTwos);
    while remainingFives > 0 && reduced % 5 == 0
      invariant 0 < reduced <= divisor && 0 <= remainingFives <= shift
      invariant Divides(divisor, coefficient * Power(10, shift)) <==>
        Divides(reduced, coefficient * Power(5, remainingFives))
    {
      StripFive(reduced, coefficient, remainingFives);
      reduced := reduced / 5;
      remainingFives := remainingFives - 1;
    }
    FivesGone(reduced, coefficient, remainingFives);
    ModDivides(reduced, coefficient);
    divides := coefficient % reduced == 0;
  }

  lemma Regroup(c: nat, a: nat, b: nat)
    ensures c * (a * b) == c * b * a
  {
  }

  lemma TwosGone(r: nat, x: nat, n: nat)
    requires n == 0 || r % 2 != 0
    ensures Divides(r, x * Power(2, n)) <==> Divides(r, x)
  {
    if n == 0 { assert x * Power(2, 0) == x; } else { NoTwos(r, x, n); }
  }

  lemma FivesGone(r: nat, x: nat, n: nat)
    requires n == 0 || r % 5 != 0
    ensures Divides(r, x * Power(5, n)) <==> Divides(r, x)
  {
    if n == 0 { assert x * Power(5, 0) == x; } else { NoFives(r, x, n); }
  }

  lemma TenInside(m: nat, d: nat, k: nat)
    requires k > 0 && Divides(d * Power(10, k), m)
    ensures m % 10 == 0
  {
    var q :| m == d * Power(10, k) * q;
    var p := Power(10, k - 1);
    assert d * (10 * p) * q == 10 * (d * p * q);
  }

  // A normal nonzero coefficient is no multiple of ten, so a divisor with a
  // larger exponent never divides it.
  lemma NegativeShift(m: nat, d: nat, k: nat)
    requires m % 10 != 0 && d > 0 && k > 0
    ensures !Divides(d * Power(10, k), m)
  {
    hide Divides, Power;
    if Divides(d * Power(10, k), m) { TenInside(m, d, k); }
  }

  // while (places > 0 && quotient % 10 == 0): is the quotient divisible by
  // 10^places?
  method StripPlaces(quotient0: UInt64, places: nat) returns (r: bool)
    requires quotient0 > 0
    ensures r <==> Divides(Power(10, places), quotient0)
  {
    hide Divides, Power;
    var quotient, decimalPlaces := quotient0, places;
    while decimalPlaces > 0 && quotient % 10 == 0
      invariant 0 < quotient <= quotient0 && 0 <= decimalPlaces <= places
      invariant Divides(Power(10, places), quotient0) <==> Divides(Power(10, decimalPlaces), quotient)
    {
      PlaceStep(quotient, decimalPlaces);
      quotient := quotient / 10;
      decimalPlaces := decimalPlaces - 1;
    }
    PlacesLeft(quotient, decimalPlaces);
    r := decimalPlaces == 0;
  }

  lemma PlaceStep(q: nat, k: nat)
    requires k > 0 && q % 10 == 0
    ensures Divides(Power(10, k), q) <==> Divides(Power(10, k - 1), q / 10)
  {
    ScaleDivides(10, Power(10, k - 1), q / 10);
    assert q == 10 * (q / 10);
  }

  lemma PlacesLeft(q: nat, k: nat)
    requires k == 0 || q % 10 != 0
    ensures Divides(Power(10, k), q) <==> k == 0
  {
    if k == 0 {
      assert q == Power(10, 0) * q;
    } else if Divides(Power(10, k), q) {
      assert 1 * Power(10, k) == Power(10, k);
      TenInside(q, 1, k);
    }
  }

  lemma DividesInside(d: nat, p: nat, m: nat)
    requires d > 0
    ensures Divides(d * p, m) ==> m % d == 0
    ensures m % d == 0 ==> (Divides(d * p, m) <==> Divides(p, m / d))
  {
    if Divides(d * p, m) {
      var k :| m == d * p * k;
      assert m == d * (p * k);
      ModDivides(d, m);
    }
    if m % d == 0 {
      assert m == d * (m / d);
      ScaleDivides(d, p, m / d);
    }
  }

  lemma QuotientPositive(m: nat, d: nat)
    requires d > 0 && m > 0 && m % d == 0
    ensures 0 < m / d <= m
  {
    var q := m / d;
    assert m == d * q;
    assert m - q == (d - 1) * q;
    NotNegative(d - 1, q);
  }

  lemma NotNegative(a: nat, b: nat)
    ensures a * b >= 0
  {
  }

  method MultipleOfNormal(value: ExactDecimal, divisor: ExactDecimal) returns (r: bool)
    requires Normal(value) && Normal(divisor) && value.coefficient > 0 && divisor.coefficient > 0
    ensures r <==> Multiple(value.coefficient, value.exponent, divisor.coefficient, divisor.exponent)
    ensures value.exponent < divisor.exponent ==> !r
  {
    hide Divides, Power;
    var shift := value.exponent - divisor.exponent;
    if shift >= 0 {
      r := StripFactors(divisor.coefficient, shift, value.coefficient);
      TimesUnit(divisor.coefficient);
      return;
    }
    TimesUnit(value.coefficient);
    NegativeShift(value.coefficient, divisor.coefficient, -shift);
    DividesInside(divisor.coefficient, Power(10, -shift), value.coefficient);
    if value.coefficient % divisor.coefficient != 0 { return false; }
    QuotientPositive(value.coefficient, divisor.coefficient);
    r := StripPlaces(value.coefficient / divisor.coefficient, -shift);
  }

  lemma TimesUnit(m: nat)
    ensures m * Power(10, 0) == m
  {
  }

  // ---- Numbers as decimals ----

  // The significant digits and the power of ten a token denotes.
  function TokenCoefficient(c: Cst): nat
    requires c.CNumber? && Wf(c)
  {
    DecimalValue(c.integer + c.fraction)
  }

  function TokenExponent(c: Cst): int
    requires c.CNumber? && Wf(c)
  {
    ExponentValue(c.exponent) - |c.fraction|
  }

  // Exponents are read digit by digit while the value so far is at most 10000.
  predicate ExponentReadable(e: Exponent)
    requires ExponentOk(e)
  {
    e.Exponent? ==> DecimalValue(e.digits[..|e.digits| - 1]) <= 10000
  }

  // The tokens that fit the 64-bit coefficient and the exponent reader.
  predicate FitsDecimal(c: Cst)
    requires c.CNumber? && Wf(c)
  {
    TokenCoefficient(c) <= UINT64_MAX && ExponentReadable(c.exponent)
  }

  // Digits with their point, as the loop meets them.
  function MantissaText(integer: Bytes, fraction: Bytes): Bytes {
    integer + (if fraction == [] then [] else [DOT] + fraction)
  }

  // The digits among the first n bytes.
  function DigitsRead(integer: Bytes, fraction: Bytes, n: nat): Bytes
    requires n <= |MantissaText(integer, fraction)|
  {
    if n <= |integer| then integer[..n] else integer + fraction[..n - |integer| - 1]
  }

  lemma MantissaByte(integer: Bytes, fraction: Bytes, n: nat)
    requires AllDigits(integer) && AllDigits(fraction) && n < |MantissaText(integer, fraction)|
    ensures var b := MantissaText(integer, fraction)[n];
            && AllDigits(DigitsRead(integer, fraction, n))
            && (if n == |integer| then b == DOT
                && DigitsRead(integer, fraction, n + 1) == DigitsRead(integer, fraction, n)
                else IsDigit(b) && DigitsRead(integer, fraction, n + 1) == DigitsRead(integer, fraction, n) + [b])
  {
    var m := MantissaText(integer, fraction);
    if n < |integer| {
      assert m[n] == integer[n];
      assert integer[..n + 1] == integer[..n] + [integer[n]];
    } else if n == |integer| {
      assert fraction[..0] == [] && integer[..n] == integer && integer + [] == integer;
    } else {
      var k := n - |integer| - 1;
      assert m[n] == fraction[k];
      assert fraction[..k + 1] == fraction[..k] + [fraction[k]];
      assert integer + fraction[..k + 1] == integer + fraction[..k] + [fraction[k]];
    }
  }

  lemma DigitsAll(integer: Bytes, fraction: Bytes)
    ensures DigitsRead(integer, fraction, |MantissaText(integer, fraction)|) == integer + fraction
  {
    assert integer + [] == integer;
    assert integer[..|integer|] == integer && fraction[..|fraction|] == fraction;
  }

  lemma {:induction false} DigitsGrow(integer: Bytes, fraction: Bytes, n: nat, m: nat)
    requires AllDigits(integer) && AllDigits(fraction) && n <= m <= |MantissaText(integer, fraction)|
    ensures AllDigits(DigitsRead(integer, fraction, n)) && AllDigits(DigitsRead(integer, fraction, m))
    ensures DecimalValue(DigitsRead(integer, fraction, n)) <= DecimalValue(DigitsRead(integer, fraction, m))
    decreases m - n
  {
    hide MantissaText, DigitsRead, DecimalValue;
    if n < m {
      MantissaByte(integer, fraction, m - 1);
      DigitsGrow(integer, fraction, n, m - 1);
      if m - 1 != |integer| { OneMore(DigitsRead(integer, fraction, m - 1), MantissaText(integer, fraction)[m - 1]); }
    } else {
      DigitsSafe(integer, fraction, n);
    }
  }

  lemma DigitsSafe(integer: Bytes, fraction: Bytes, n: nat)
    requires AllDigits(integer) && AllDigits(fraction) && n <= |MantissaText(integer, fraction)|
    ensures AllDigits(DigitsRead(integer, fraction, n))
  {
  }

  lemma OneMore(d: Bytes, b: Byte)
    requires AllDigits(d) && IsDigit(b)
    ensures AllDigits(d + [b]) && DecimalValue(d + [b]) == DecimalValue(d) * 10 + (b - ZERO) >= DecimalValue(d)
  {
    assert (d + [b])[..|d|] == d;
  }

  // The mantissa loop: accumulates the coefficient without wrapping, and counts
  // the digits after the point.
  method ReadMantissa(text: Bytes, start: nat, ghost c: Cst)
    returns (ok: bool, position: nat, coefficient: UInt64, fractionDigits: nat)
    requires c.CNumber? && Wf(c) && start <= |text|
    requires var m := MantissaText(c.integer, c.fraction);
             start + |m| <= |text| && text[start..start + |m|] == m && (start + |m| < |text| ==> IsE(text[start + |m|]))
    ensures ok <==> TokenCoefficient(c) <= UINT64_MAX
    ensures ok ==> coefficient == TokenCoefficient(c) && fractionDigits == |c.fraction|
    ensures ok ==> position == start + |MantissaText(c.integer, c.fraction)|
  {
    hide MantissaText, DigitsRead, DecimalValue;
    ghost var m := MantissaText(c.integer, c.fraction);
    position, coefficient, fractionDigits := start, 0, 0;
    var afterPoint := false;
    MantissaEdges(c.integer, c.fraction);
    forall k | 0 <= k < |m| ensures text[start + k] == m[k] && !IsE(m[k]) {
      MantissaByte(c.integer, c.fraction, k);
      assert text[start..start + |m|][k] == text[start + k];
    }
    while position < |text| && !IsE(text[position])
      invariant start <= position <= start + |m|
      invariant AllDigits(DigitsRead(c.integer, c.fraction, position - start))
      invariant coefficient == DecimalValue(DigitsRead(c.integer, c.fraction, position - start))
      invariant afterPoint <==> position - start > |c.integer|
      invariant fractionDigits == if afterPoint then position - start - |c.integer| - 1 else 0
    {
      ghost var n := position - start;
      assert n < |m|;
      MantissaByte(c.integer, c.fraction, n);
      assert text[start + n] == m[n];
      var ch := text[position];
      position := position + 1;
      if ch == DOT && !afterPoint {
        afterPoint := true;
      } else {
        var digit := ch - ZERO;
        OneMore(DigitsRead(c.integer, c.fraction, n), ch);
        if coefficient > (UINT64_MAX - digit) / 10 {
          DigitsGrow(c.integer, c.fraction, n + 1, |m|);
          return false, position, coefficient, fractionDigits;
        }
        coefficient := coefficient * 10 + digit;
        if afterPoint { fractionDigits := fractionDigits + 1; }
      }
    }
    ok := true;
  }

  lemma MantissaEdges(integer: Bytes, fraction: Bytes)
    ensures DigitsRead(integer, fraction, 0) == [] && DecimalValue([]) == 0
    ensures DigitsRead(integer, fraction, |MantissaText(integer, fraction)|) == integer + fraction
    ensures |MantissaText(integer, fraction)| == |integer| + (if fraction == [] then 0 else 1 + |fraction|)
  {
    DigitsAll(integer, fraction);
  }

  // The exponent loop.
  method ReadExponentDigits(text: Bytes, start: nat, ghost digits: Bytes) returns (ok: bool, value: nat)
    requires start <= |text| && text[start..] == digits && Digits(digits)
    ensures ok <==> DecimalValue(digits[..|digits| - 1]) <= 10000
    ensures ok ==> value == DecimalValue(digits)
  {
    hide DecimalValue;
    value := 0;
    var position := start;
    assert digits[..0] == [];
    MantissaEdges([], []);
    while position < |text|
      invariant start <= position <= |text| && |text| == start + |digits|
      invariant value == DecimalValue(digits[..position - start])
      invariant position > start ==> DecimalValue(digits[..position - start - 1]) <= 10000
    {
      ghost var n := position - start;
      assert text[position] == digits[n] by { assert text[start..][n] == text[position]; }
      if value > 10000 {
        PrefixGrows(digits, n, |digits| - 1);
        return false, value;
      }
      OneMore(digits[..n], digits[n]);
      assert digits[..n + 1] == digits[..n] + [digits[n]];
      value := value * 10 + (text[position] - ZERO);
      position := position + 1;
    }
    assert digits[..|digits|] == digits;
    ok := true;
  }

  lemma PrefixGrows(d: Bytes, n: nat, m: nat)
    requires AllDigits(d) && n <= m <= |d|
    ensures DecimalValue(d[..n]) <= DecimalValue(d[..m])
  {
    assert d[..m][..n] == d[..n];
    DecimalPrefix(d[..m], n);
  }

  // decimalFromText(): the exact value of a number token, without trailing
  // zeros, or failure when it does not fit.
  method DecimalFromText(text: Bytes, ghost c: Cst) returns (ok: bool, result: ExactDecimal)
    requires c.CNumber? && Wf(c) && text == NumberThen(c, [])
    ensures ok <==> FitsDecimal(c)
    ensures ok ==> Normal(result) && SameNumber(TokenCoefficient(c), TokenExponent(c), result)
  {
    hide DecimalValue, Multiple, MantissaText, NumberThen, SameNumber, ExponentValue;
    result := ExactDecimal(0, 0);
    var start := if text != [] && (text[0] == PLUS || text[0] == MINUS) then 1 else 0;
    TokenLayout(c, start);
    var position, coefficient, fractionDigits;
    ok, position, coefficient, fractionDigits := ReadMantissa(text, start, c);
    if !ok { return; }
    var explicitExponent;
    ok, explicitExponent := ReadExponentPart(text, position, c.exponent);
    if !ok { return; }
    if coefficient == 0 {
      ZeroSame(TokenExponent(c));
      return true, ExactDecimal(0, 0);
    }
    result := StripTens(coefficient, explicitExponent - fractionDigits);
  }

  // The optional exponent, from its mark on.
  method ReadExponentPart(text: Bytes, end: nat, ghost e: Exponent) returns (ok: bool, explicitExponent: int)
    requires ExponentOk(e) && end <= |text| && ExponentAt(text, end, e)
    ensures ok <==> ExponentReadable(e)
    ensures ok ==> explicitExponent == ExponentValue(e)
  {
    hide DecimalValue;
    explicitExponent := 0;
    ok := true;
    var position := end;
    if position < |text| {
      position := position + 1;
      var negative := false;
      if position < |text| && (text[position] == PLUS || text[position] == MINUS) {
        negative := text[position] == MINUS;
        position := position + 1;
      }
      var magnitude;
      ok, magnitude := ReadExponentDigits(text, position, e.digits);
      if ok { explicitExponent := if negative then -(magnitude as int) else magnitude; }
    }
  }

  // The exponent occupies the text from a position to its end.
  ghost predicate ExponentAt(text: Bytes, end: nat, e: Exponent)
    requires end <= |text|
  {
    && (end < |text| <==> e.Exponent?)
    && (end < |text| ==>
          && IsE(text[end])
          && (if e.sign == [] then end + 1 < |text| && text[end + 1..] == e.digits && IsDigit(text[end + 1])
              else end + 2 < |text| && text[end + 1] == e.sign[0] && text[end + 2..] == e.digits))
  }

  // Zero is a multiple of everything, at any exponent.
  lemma ZeroSame(e: int)
    ensures SameNumber(0, e, ExactDecimal(0, 0))
  {
    forall n: nat, f: int ensures Multiple(0, e, n, f) && Multiple(0, 0, n, f) {
      ZeroDivided(n * Power(10, f - Lower(e, f)));
      ZeroDivided(n * Power(10, f - Lower(0, f)));
      ZeroTimes(Power(10, e - Lower(e, f)));
      ZeroTimes(Power(10, 0 - Lower(0, f)));
    }
  }

  lemma ZeroDivided(d: int)
    ensures Divides(d, 0)
  {
    assert 0 == d * 0;
  }

  lemma ZeroTimes(p: nat)
    ensures 0 * p == 0
  {
  }

  // Where the parts of a token are in its text.
  lemma TokenLayout(c: Cst, start: nat)
    requires c.CNumber? && Wf(c)
    requires var text := NumberThen(c, []);
             start == if text != [] && (text[0] == PLUS || text[0] == MINUS) then 1 else 0
    ensures var text, m := NumberThen(c, []), MantissaText(c.integer, c.fraction);
            && start + |m| <= |text| && text[start..start + |m|] == m
            && ExponentAt(text, start + |m|, c.exponent)
  {
    hide ExponentAt, ExponentThen, FractionThen, MantissaText, DecimalValue;
    var text := NumberThen(c, []);
    var m, e := MantissaText(c.integer, c.fraction), ExponentThen(c.exponent, []);
    var sign: Bytes := if c.minus then [MINUS] else [];
    MantissaThen(c.integer, c.fraction, e);
    MantissaFirst(c.integer, c.fraction);
    assert text == sign + (m + e);
    assert text[0] == if c.minus then MINUS else m[0];
    PartAt(sign, m, e);
    ExponentLies(text, |sign| + |m|, c.exponent);
  }

  lemma MantissaThen(integer: Bytes, fraction: Bytes, e: Bytes)
    ensures integer + FractionThen(fraction, e) == MantissaText(integer, fraction) + e
  {
    if fraction == [] { assert integer + [] == integer; }
    else { assert integer + ([DOT] + (fraction + e)) == integer + ([DOT] + fraction) + e; }
  }

  lemma MantissaFirst(integer: Bytes, fraction: Bytes)
    requires Digits(integer)
    ensures MantissaText(integer, fraction) != [] && MantissaText(integer, fraction)[0] == integer[0]
    ensures IsDigit(integer[0])
  {
  }

  lemma ExponentLies(text: Bytes, end: nat, x: Exponent)
    requires ExponentOk(x) && end <= |text| && text[end..] == ExponentThen(x, [])
    ensures ExponentAt(text, end, x)
  {
    hide DecimalValue;
    if x.Exponent? {
      assert x.digits + [] == x.digits;
      ExponentParts(x.mark, x.sign, x.digits, text, end);
    }
  }

  lemma PartAt(a: Bytes, m: Bytes, e: Bytes)
    ensures var text := a + (m + e);
            |a| + |m| <= |text| && text[|a|..|a| + |m|] == m && text[|a| + |m|..] == e
  {
  }

  lemma ExponentParts(mark: Byte, sign: Bytes, digits: Bytes, text: Bytes, end: nat)
    requires end <= |text| && text[end..] == [mark] + (sign + digits) && Digits(digits) && |sign| <= 1
    ensures end + 1 + |sign| < |text| && text[end] == mark
    ensures text[end + 1 + |sign|..] == digits && (sign == [] ==> IsDigit(text[end + 1]))
    ensures (sign != [] ==> text[end + 1] == sign[0])
  {
    var t := text[end..];
    assert t[0] == text[end] && t[1] == text[end + 1];
    assert t[1 + |sign|..] == digits;
    assert text[end + 1 + |sign|..] == t[1 + |sign|..];
  }

  // ---- isExactMultiple() ----

  // magnitudeOf(): correct at INT64_MIN too, where negation would overflow.
  function MagnitudeOf(x: Int64): (m: UInt64)
    ensures m == if x < 0 then -(x as int) else x
  {
    if x < 0 then -(x as int + 1) + 1 else x
  }

  // A number as the decimal it is written as; None for NaN and infinities and
  // for what does not fit 64 bits. token gives the text of a finite double.
  datatype Written = Written(coefficient: nat, exponent: int) | NotWritten

  ghost predicate TokensOk(token: Float -> Cst) {
    forall f: Float :: f.Finite? ==> token(f).CNumber? && Wf(token(f))
  }

  ghost function WrittenAs(v: Json, token: Float -> Cst): Written
    requires TokensOk(token)
  {
    match v
    case Int(i) => Written(MagnitudeOf(i), 0)
    case UInt(u) => Written(u, 0)
    case Double(f) =>
      if f.Finite? && FitsDecimal(token(f)) then Written(TokenCoefficient(token(f)), TokenExponent(token(f)))
      else NotWritten
    case _ => NotWritten
  }

  method DecimalFromNumber(v: Json, ghost token: Float -> Cst, text: Float -> Bytes)
    returns (ok: bool, result: ExactDecimal)
    requires TokensOk(token) && forall f: Float :: f.Finite? ==> text(f) == NumberThen(token(f), [])
    ensures ok <==> WrittenAs(v, token).Written?
    ensures ok ==> Normal(result) && SameNumber(WrittenAs(v, token).coefficient, WrittenAs(v, token).exponent, result)
  {
    hide Multiple, Wf;
    result := ExactDecimal(0, 0);
    match v {
      case Int(i) =>
        ZeroSame(0);
        if i != 0 { result := StripTens(MagnitudeOf(i), 0); }
        ok := true;
      case UInt(u) =>
        ZeroSame(0);
        if u != 0 { result := StripTens(u, 0); }
        ok := true;
      case Double(f) =>
        if !f.Finite? { return false, result; }
        ok, result := DecimalFromText(text(f), token(f));
      case _ => ok := false;
    }
  }

  predicate NotPositive(v: Json) {
    match v
    case Int(i) => i <= 0
    case UInt(u) => u == 0
    case Double(Infinity(negative)) => negative
    case Double(Finite(negative, magnitude, _)) => negative || magnitude == 0
    case _ => false
  }

  // Exact rational divisibility for every positive divisor whose decimal fits;
  // a divisor that is not positive or does not fit constrains nothing.
  method IsExactMultiple(value: Json, divisor: Json, ghost token: Float -> Cst, text: Float -> Bytes) returns (r: bool)
    requires TokensOk(token) && forall f: Float :: f.Finite? ==> text(f) == NumberThen(token(f), [])
    ensures NotPositive(divisor) ==> r
    ensures !NotPositive(divisor) ==>
      var x, y := WrittenAs(value, token), WrittenAs(divisor, token);
      r == if y.NotWritten? || y.coefficient == 0 then true
           else if x.NotWritten? then false
           else Multiple(x.coefficient, x.exponent, y.coefficient, y.exponent)
  {
    hide Multiple, Wf, FitsDecimal, Divides, Power;
    if NotPositive(divisor) { return true; }
    if value.Int? && divisor.Int? {
      IntegerMultiple(MagnitudeOf(value.i), MagnitudeOf(divisor.i));
      return MagnitudeOf(value.i) % MagnitudeOf(divisor.i) == 0;
    }
    var ok, divisorDecimal := DecimalFromNumber(divisor, token, text);
    if !ok || divisorDecimal.coefficient == 0 { return true; }
    var valueDecimal;
    ok, valueDecimal := DecimalFromNumber(value, token, text);
    if !ok { return false; }
    ghost var x, y := WrittenAs(value, token), WrittenAs(divisor, token);
    if valueDecimal.coefficient == 0 {
      ZeroIsMultiple(x.exponent, y.coefficient, y.exponent);
      return true;
    }
    r := MultipleOfNormal(valueDecimal, divisorDecimal);
    assert Multiple(x.coefficient, x.exponent, y.coefficient, y.exponent) <==>
      Multiple(valueDecimal.coefficient, valueDecimal.exponent, y.coefficient, y.exponent);
    assert Multiple(valueDecimal.coefficient, valueDecimal.exponent, y.coefficient, y.exponent) <==>
      Multiple(valueDecimal.coefficient, valueDecimal.exponent, divisorDecimal.coefficient, divisorDecimal.exponent);
  }

  lemma ZeroIsMultiple(e: int, m: nat, f: int)
    ensures Multiple(0, e, m, f)
  {
    ZeroDivided(m * Power(10, f - Lower(e, f)));
    ZeroTimes(Power(10, e - Lower(e, f)));
  }

  lemma IntegerMultiple(x: nat, d: nat)
    requires d > 0
    ensures x % d == 0 <==> Multiple(x, 0, d, 0)
  {
    TimesUnit(x);
    TimesUnit(d);
    ModDivides(d, x);
  }
}
