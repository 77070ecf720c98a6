// Exact comparison across the three number kinds, and deep structural equality.

module Numbers {
  import opened JsonValue

  const TWO_63: real := 9223372036854775808.0
  const TWO_64: real := 18446744073709551616.0

  function Pow2(e: int): (p: real)
    ensures p > 0.0
    decreases if e < 0 then -e else e
  {
    if e == 0 then 1.0 else if e > 0 then 2.0 * Pow2(e - 1) else Pow2(e + 1) / 2.0
  }

  // The real line with both infinities.
  datatype Extended = NegInf | Fin(r: real) | PosInf

  predicate Less(x: Extended, y: Extended) {
    match (x, y)
    case (Fin(r), Fin(s)) => r < s
    case (NegInf, _) => !y.NegInf?
    case (_, PosInf) => !x.PosInf?
    case _ => false
  }

  function FiniteValue(f: Float): real
    requires f.Finite?
  {
    var r := f.magnitude as real * Pow2(f.exponent);
    if f.negative then -r else r
  }

  function FloatValue(f: Float): Extended
    requires !f.NaN?
  {
    match f
    case Infinity(negative) => if negative then NegInf else PosInf
    case Finite(_, _, _) => Fin(FiniteValue(f))
  }

  predicate IsNaN(v: Json) {
    v.Double? && v.d.NaN?
  }

  // What a stored number means.
  function NumberValue(v: Json): Extended
    requires IsNumber(v) && !IsNaN(v)
  {
    match v
    case Int(i) => Fin(i as real)
    case UInt(u) => Fin(u as real)
    case Double(d) => FloatValue(d)
  }

  function IntPow2(e: nat): (p: nat)
    ensures p > 0 && Pow2(e) == p as real
  {
    if e == 0 then 1 else 2 * IntPow2(e - 1)
  }

  ghost predicate Scaled(n: int, m: nat, e: nat) {
    m < MANTISSA_LIMIT && (n == m * IntPow2(e) || n == -(m * IntPow2(e)))
  }

  // An integer that binary64 stores without rounding.
  ghost predicate Representable(n: int) {
    exists m: nat, e: nat :: Scaled(n, m, e)
  }

  // static_cast<uint64_t>(double): defined only when the truncated value fits.
  function ToUInt64(x: real): (t: UInt64)
    requires -1.0 < x < TWO_64
    ensures t as real <= x < t as real + 1.0 || (x < 0.0 && t == 0)
  {
    if x < 0.0 then 0 else x.Floor
  }

  // static_cast<int64_t>(double), likewise.
  function ToInt64(x: real): (t: Int64)
    requires -TWO_63 - 1.0 < x < TWO_63
    ensures x >= 0.0 ==> t as real <= x < t as real + 1.0
    ensures x < 0.0 ==> t as real - 1.0 < x <= t as real
  {
    if x >= 0.0 then x.Floor else -((-x).Floor)
  }

  // static_cast<double>(integer), for integers that need no rounding.
  function ToDouble(n: int): (x: real)
    requires Representable(n)
    ensures x == n as real
  {
    n as real
  }

  lemma Pow2AtMostOne(e: int)
    requires e <= 0
    ensures Pow2(e) <= 1.0
    decreases -e
  {
    if e < 0 { Pow2AtMostOne(e + 1); }
  }

  predicate Truncates(t: int, x: real) {
    if x >= 0.0 then t as real <= x < t as real + 1.0 else t as real - 1.0 < x <= t as real
  }

  // The integral part of a binary64 value is itself a binary64 value.
  lemma TruncationRepresentable(f: Float, t: int)
    requires f.Finite? && Truncates(t, FiniteValue(f))
    ensures Representable(t)
  {
    if f.exponent >= 0 { TruncateIntegral(f, t); } else { TruncateSmall(f, t); }
  }

  lemma TruncateIntegral(f: Float, t: int)
    requires f.Finite? && f.exponent >= 0 && Truncates(t, FiniteValue(f))
    ensures Representable(t)
  {
    var m, k := f.magnitude, IntPow2(f.exponent);
    var z: int := m * k;
    MulAsReal(m, k);
    TruncateInteger(t, if f.negative then -z else z);
    assert Scaled(t, m, f.exponent);
  }

  lemma MulAsReal(m: int, k: int)
    ensures (m * k) as real == m as real * k as real
  {
  }

  lemma TruncateInteger(t: int, z: int)
    requires Truncates(t, z as real)
    ensures t == z
  {
  }

  lemma TruncateSmall(f: Float, t: int)
    requires f.Finite? && f.exponent < 0 && Truncates(t, FiniteValue(f))
    ensures Representable(t)
  {
    Pow2AtMostOne(f.exponent);
    MulAtMost(f.magnitude as real, Pow2(f.exponent));
    var n := if t < 0 then -t else t;
    assert n < MANTISSA_LIMIT;
    assert IntPow2(0) == 1;
    assert Scaled(t, n, 0);
  }

  lemma MulAtMost(x: real, p: real)
    requires x >= 0.0 && 0.0 < p <= 1.0
    ensures 0.0 <= x * p <= x
  {
  }

  // An integer against a finite double, through the truncated double and, if
  // that ties, its fractional part.
  function CompareTruncated(i: int, f: Float, t: int): (c: int)
    requires f.Finite? && Truncates(t, FiniteValue(f))
    ensures c == if (i as real) < FiniteValue(f) then -1 else if (i as real) > FiniteValue(f) then 1 else 0
  {
    var x := FiniteValue(f);
    if i != t then
      (if i < t then -1 else 1)
    else
      TruncationRepresentable(f, t);
      var whole := ToDouble(t);
      if x != whole then (if x > whole then -1 else 1) else 0
  }

  // -1, 0 or 1; 2 when a NaN makes the operands unordered.
  function CompareNumbers(a: Json, b: Json): (c: int)
    requires IsNumber(a) && IsNumber(b)
    ensures c == 2 <==> IsNaN(a) || IsNaN(b)
    ensures c != 2 ==> c == (if Less(NumberValue(a), NumberValue(b)) then -1
                             else if Less(NumberValue(b), NumberValue(a)) then 1 else 0)
  {
    if !a.Double? && !b.Double? then CompareIntegers(a, b)
    else if a.Double? && b.Double? then
      if a.d.NaN? || b.d.NaN? then 2
      else if Less(FloatValue(a.d), FloatValue(b.d)) then -1
      else if Less(FloatValue(b.d), FloatValue(a.d)) then 1 else 0
    else if b.Double? then
      (if b.d.NaN? then 2 else CompareWithDouble(a, b.d))
    else
      (if a.d.NaN? then 2 else -CompareWithDouble(b, a.d))
  }

  function CompareIntegers(a: Json, b: Json): (c: int)
    requires (a.Int? || a.UInt?) && (b.Int? || b.UInt?)
    ensures c == (if Less(NumberValue(a), NumberValue(b)) then -1
                  else if Less(NumberValue(b), NumberValue(a)) then 1 else 0)
  {
    if a.Int? && b.Int? then (if a.i < b.i then -1 else if a.i > b.i then 1 else 0)
    else if a.UInt? && b.UInt? then (if a.u < b.u then -1 else if a.u > b.u then 1 else 0)
    else if a.Int? then CompareSigned(a.i, b.u)
    else -CompareSigned(b.i, a.u)
  }

  function CompareSigned(s: Int64, u: UInt64): (c: int)
    ensures c == if s < u then -1 else if s > u then 1 else 0
  {
    if s < 0 then -1 else if s < u then -1 else if s > u then 1 else 0
  }

  // An integer node against a double: range tests first, so that the cast of
  // the double is defined.
  function CompareWithDouble(n: Json, f: Float): (c: int)
    requires (n.Int? || n.UInt?) && !f.NaN?
    ensures c == if Less(NumberValue(n), FloatValue(f)) then -1
                 else if Less(FloatValue(f), NumberValue(n)) then 1
                 else 0
  {
    match f
    case Infinity(negative) => if negative then 1 else -1
    case Finite(_, _, _) =>
      var x := FiniteValue(f);
      if n.UInt? then
        if x >= TWO_64 then -1
        else if x < 0.0 then 1
        else CompareTruncated(n.u, f, ToUInt64(x))
      else
        if x >= TWO_63 then -1
        else if x < -TWO_63 then 1
        else CompareTruncated(n.i, f, ToInt64(x))
  }

  // ---- Order laws ----

  lemma CompareReverses(a: Json, b: Json)
    requires IsNumber(a) && IsNumber(b) && !IsNaN(a) && !IsNaN(b)
    ensures CompareNumbers(b, a) == -CompareNumbers(a, b)
  {
    LessAsymmetric(NumberValue(a), NumberValue(b));
  }

  lemma LessAsymmetric(x: Extended, y: Extended)
    ensures !(Less(x, y) && Less(y, x))
  {
  }

  lemma CompareTransitive(a: Json, b: Json, c: Json)
    requires IsNumber(a) && IsNumber(b) && IsNumber(c)
    requires !IsNaN(a) && !IsNaN(b) && !IsNaN(c)
    requires CompareNumbers(a, b) <= 0 && CompareNumbers(b, c) <= 0
    ensures CompareNumbers(a, c) <= 0
    ensures CompareNumbers(a, b) == 0 && CompareNumbers(b, c) == 0 ==> CompareNumbers(a, c) == 0
    ensures CompareNumbers(a, b) < 0 || CompareNumbers(b, c) < 0 ==> CompareNumbers(a, c) < 0
  {
    var x, y, z := NumberValue(a), NumberValue(b), NumberValue(c);
    assert !Less(y, x) && !Less(z, y);
    if Less(z, x) { LessCompare(x, y, z); }
    LessCompare(x, y, z);
  }

  // The order is total: any two values compare one way, and a value between
  // them keeps the comparison.
  lemma LessCompare(x: Extended, y: Extended, z: Extended)
    ensures !Less(y, x) && !Less(z, y) ==> !Less(z, x)
    ensures Less(x, y) && !Less(z, y) ==> Less(x, z)
    ensures !Less(y, x) && Less(y, z) ==> Less(x, z)
  {
  }

  // ---- Structural equality ----

  // Numbers compare by value across kinds, arrays element by element, objects
  // by key.
  ghost predicate Equal(a: Json, b: Json)
    decreases a
  {
    if IsNumber(a) && IsNumber(b) then CompareNumbers(a, b) == 0
    else match a
      case Arr(items) =>
        b.Arr? && |items| == |b.items| && forall i :: 0 <= i < |items| ==> Equal(items[i], b.items[i])
      case Obj(members) =>
        b.Obj? && members.Keys == b.members.Keys && forall k :: k in members ==> Equal(members[k], b.members[k])
      case _ => a == b
  }

  ghost predicate HasNoNaN(v: Json)
    decreases v
  {
    match v
    case Arr(items) => forall i :: 0 <= i < |items| ==> HasNoNaN(items[i])
    case Obj(members) => forall k :: k in members ==> HasNoNaN(members[k])
    case _ => !IsNaN(v)
  }

  // Equality is reflexive exactly on the values without NaN.
  lemma {:induction false} EqualReflexive(a: Json)
    ensures Equal(a, a) <==> HasNoNaN(a)
    decreases a
  {
    match a
    case Arr(items) =>
      forall i | 0 <= i < |items| ensures Equal(items[i], items[i]) <==> HasNoNaN(items[i]) {
        EqualReflexive(items[i]);
      }
    case Obj(members) =>
      forall k | k in members ensures Equal(members[k], members[k]) <==> HasNoNaN(members[k]) {
        EqualReflexive(members[k]);
      }
    case _ =>
  }

  lemma {:induction false} EqualSymmetric(a: Json, b: Json)
    requires Equal(a, b)
    ensures Equal(b, a)
    decreases a
  {
    match a
    case Arr(items) =>
      forall i | 0 <= i < |items| ensures Equal(b.items[i], items[i]) { EqualSymmetric(items[i], b.items[i]); }
    case Obj(members) =>
      forall k | k in b.members ensures Equal(b.members[k], members[k]) { EqualSymmetric(members[k], b.members[k]); }
    case _ => if IsNumber(a) { CompareReverses(a, b); }
  }

  lemma {:induction false} EqualTransitive(a: Json, b: Json, c: Json)
    requires Equal(a, b) && Equal(b, c)
    ensures Equal(a, c)
    decreases a
  {
    match a
    case Arr(items) =>
      forall i | 0 <= i < |items| ensures Equal(items[i], c.items[i]) {
        EqualTransitive(items[i], b.items[i], c.items[i]);
      }
    case Obj(members) =>
      forall k | k in members ensures Equal(members[k], c.members[k]) {
        EqualTransitive(members[k], b.members[k], c.members[k]);
      }
    case _ => if IsNumber(a) { CompareTransitive(a, b, c); }
  }
}
