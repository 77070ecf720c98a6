// _formatDouble(): rewriting the shortest decimal of a double into JSON. The
// digits come from elsewhere; the rewriting keeps their value.

module DoubleText {
  import opened JsonValue
  import opened Pointer
  import opened NumberText
  import opened Grammar
  import opened Syntax
  import opened Printer

  // A shortest decimal in scientific form: d.ddd E exponent.
  datatype Shortest = Shortest(negative: bool, digits: Bytes, exponent: int)

  predicate ShortestOk(r: Shortest) {
    && Digits(r.digits)
    && (|r.digits| > 1 ==> r.digits[0] != ZERO)
    && (r.digits == [ZERO] ==> r.exponent == 0)
  }

  function SignText(negative: bool): Bytes {
    if negative then [MINUS] else []
  }

  function Mantissa(digits: Bytes): Bytes
    requires digits != []
  {
    if |digits| == 1 then digits else [digits[0], DOT] + digits[1..]
  }

  // The text the digit generator leaves in its buffer.
  function ShortestText(r: Shortest, mark: Byte): Bytes
    requires ShortestOk(r)
  {
    SignText(r.negative) + Mantissa(r.digits) + [mark] + SignedDecimal(r.exponent)
  }

  function Zeros(n: nat): Bytes {
    Repeat(ZERO, n)
  }

  // The rewritten number, as a syntax tree.
  function Layout(r: Shortest): (c: Cst)
    requires ShortestOk(r)
    ensures c.CNumber?
  {
    var e, n := r.exponent, |r.digits|;
    if -4 <= e < 15 then
      var point := 1 + e;
      if point <= 0 then CNumber(r.negative, [ZERO], Zeros(-point) + r.digits, NoExponent)
      else if point >= n then CNumber(r.negative, r.digits + Zeros(point - n), [ZERO], NoExponent)
      else CNumber(r.negative, r.digits[..point], r.digits[point..], NoExponent)
    else
      CNumber(r.negative, [r.digits[0]], r.digits[1..],
              Exponent(LOWER_E, if e < 0 then [MINUS] else [], Decimal(if e < 0 then -e else e)))
  }

  // ---- Value ----

  function Pow10(e: int): (p: real)
    ensures p > 0.0
    decreases if e < 0 then -e else e
  {
    if e == 0 then 1.0 else if e > 0 then 10.0 * Pow10(e - 1) else Pow10(e + 1) / 10.0
  }

  lemma Pow10Step(e: int)
    ensures Pow10(e + 1) == 10.0 * Pow10(e)
  {
  }

  lemma MoveTen(x: real, p: real)
    ensures 10.0 * (x * p) == x * (10.0 * p)
  {
  }

  lemma TimesOne(p: real)
    ensures p * Pow10(0) == p
  {
  }

  lemma {:induction false} Pow10Add(e: int, k: nat)
    ensures Pow10(e + k) == Pow10(e) * Pow10(k)
    decreases k
  {
    hide Pow10;
    if k == 0 {
      TimesOne(Pow10(e));
    } else {
      var m := k - 1;
      Pow10Add(e, m);
      Pow10Step(e + m);
      Pow10Step(m);
      MoveTen(Pow10(e), Pow10(m));
      calc {
        Pow10(e + k);
        10.0 * Pow10(e + m);
        10.0 * (Pow10(e) * Pow10(m));
        Pow10(e) * (10.0 * Pow10(m));
        Pow10(e) * Pow10(k);
      }
    }
  }

  function ExponentValue(e: Exponent): int
    requires ExponentOk(e)
  {
    match e
    case NoExponent => 0
    case Exponent(_, sign, digits) => if sign == [MINUS] then -(DecimalValue(digits) as int) else DecimalValue(digits)
  }

  // The magnitude a number token denotes.
  function TokenValue(c: Cst): real
    requires c.CNumber? && Wf(c)
  {
    DecimalValue(c.integer + c.fraction) as real * Pow10(ExponentValue(c.exponent) - |c.fraction|)
  }

  function ShortestValue(r: Shortest): real
    requires ShortestOk(r)
  {
    DecimalValue(r.digits) as real * Pow10(r.exponent - (|r.digits| - 1))
  }

  lemma AppendDigit(d: Bytes, b: Byte)
    requires AllDigits(d) && IsDigit(b)
    ensures AllDigits(d + [b]) && DecimalValue(d + [b]) == DecimalValue(d) * 10 + (b - ZERO)
  {
    assert (d + [b])[..|d|] == d;
  }

  lemma ZerosMore(n: nat)
    ensures Zeros(n + 1) == Zeros(n) + [ZERO]
  {
  }

  lemma {:induction false} LeadingZeros(n: nat, d: Bytes)
    requires AllDigits(d)
    ensures AllDigits(Zeros(n) + d) && DecimalValue(Zeros(n) + d) == DecimalValue(d)
    decreases |d|, n
  {
    hide DecimalValue, Zeros;
    if d != [] {
      var k, b := d[..|d| - 1], d[|d| - 1];
      LeadingZeros(n, k);
      AppendDigit(k, b);
      AppendDigit(Zeros(n) + k, b);
      assert d == k + [b] && Zeros(n) + d == Zeros(n) + k + [b];
    } else if n > 0 {
      LeadingZeros(n - 1, []);
      ZerosMore(n - 1);
      assert Zeros(n) + [] == Zeros(n) && Zeros(n - 1) + [] == Zeros(n - 1);
      AppendDigit(Zeros(n - 1), ZERO);
      NoDigits();
    } else {
      assert Zeros(0) + d == d by { assert Zeros(0) == [] by { NoZeros(); } }
    }
  }

  lemma NoDigits()
    ensures DecimalValue([]) == 0
  {
  }

  lemma NoZeros()
    ensures Zeros(0) == []
  {
  }

  lemma {:induction false} TrailingZeros(d: Bytes, n: nat)
    requires AllDigits(d)
    ensures AllDigits(d + Zeros(n)) && DecimalValue(d + Zeros(n)) as real == DecimalValue(d) as real * Pow10(n)
    decreases n
  {
    hide DecimalValue, Zeros;
    if n == 0 {
      NoZeros();
      assert d + Zeros(n) == d;
    } else {
      hide Pow10;
      var k := d + Zeros(n - 1);
      TrailingZeros(d, n - 1);
      ZerosMore(n - 1);
      assert d + Zeros(n) == k + [ZERO];
      AppendDigit(k, ZERO);
      Pow10Step(n - 1);
      MoveTen(DecimalValue(d) as real, Pow10(n - 1));
    }
  }

  // The rewritten text is a JSON number that will be read as a double, with the
  // same sign and the same value.
  lemma LayoutPreserves(r: Shortest)
    requires ShortestOk(r)
    ensures var c := Layout(r);
            && Wf(c) && c.minus == r.negative
            && (c.fraction != [] || c.exponent.Exponent?)
            && TokenValue(c) == ShortestValue(r)
  {
    hide DecimalValue, Pow10, TokenValue, ShortestValue, Wf;
    var e, n := r.exponent, |r.digits|;
    if -4 <= e < 15 {
      var point := 1 + e;
      if point <= 0 {
        PointBefore(r, -point);
      } else if point >= n {
        PointAfter(r, point - n);
      } else {
        PointBetween(r, point);
      }
    } else {
      Scientific(r);
    }
  }

  lemma PointBetween(r: Shortest, point: nat)
    requires ShortestOk(r) && 0 < point < |r.digits| && point == 1 + r.exponent
    ensures var c := CNumber(r.negative, r.digits[..point], r.digits[point..], NoExponent);
            Wf(c) && TokenValue(c) == ShortestValue(r)
  {
    hide DecimalValue, Pow10;
    assert r.digits[..point] + r.digits[point..] == r.digits;
  }

  lemma Scientific(r: Shortest)
    requires ShortestOk(r)
    ensures var e := r.exponent;
            var c := CNumber(r.negative, [r.digits[0]], r.digits[1..],
                             Exponent(LOWER_E, if e < 0 then [MINUS] else [], Decimal(if e < 0 then -e else e)));
            Wf(c) && TokenValue(c) == ShortestValue(r)
  {
    hide DecimalValue, Pow10;
    assert [r.digits[0]] + r.digits[1..] == r.digits;
  }

  lemma PointBefore(r: Shortest, k: nat)
    requires ShortestOk(r) && r.exponent == -1 - k
    ensures var c := CNumber(r.negative, [ZERO], Zeros(k) + r.digits, NoExponent);
            Wf(c) && c.fraction != [] && TokenValue(c) == ShortestValue(r)
  {
    hide DecimalValue, Pow10;
    LeadingZeros(k + 1, r.digits);
    LeadingZeros(k, r.digits);
    assert [ZERO] + (Zeros(k) + r.digits) == Zeros(k + 1) + r.digits;
  }

  lemma PointAfter(r: Shortest, k: nat)
    requires ShortestOk(r) && r.exponent == |r.digits| + k - 1
    requires |r.digits| + k > 1 ==> r.digits[0] != ZERO
    ensures var c := CNumber(r.negative, r.digits + Zeros(k), [ZERO], NoExponent);
            Wf(c) && TokenValue(c) == ShortestValue(r)
  {
    hide DecimalValue, Pow10;
    TrailingZeros(r.digits, k + 1);
    TrailingZeros(r.digits, k);
    ZerosMore(k);
    assert r.digits + Zeros(k) + [ZERO] == r.digits + Zeros(k + 1);
    Pow10Add(-1, k + 1);
    TenTimes(DecimalValue(r.digits) as real, Pow10(k + 1), Pow10(-1), Pow10(k));
  }

  lemma TenTimes(x: real, a: real, b: real, c: real)
    requires b * a == c
    ensures x * a * b == x * c
  {
    assert a * b == b * a;
  }

  // ---- The edits ----

  function Find(s: Bytes, b: Byte): (i: nat)
    ensures i <= |s| && (i < |s| ==> s[i] == b) && forall k :: 0 <= k < i ==> s[k] != b
  {
    if s == [] || s[0] == b then 0
    else
      var i := Find(s[1..], b) + 1;
      assert forall k :: 1 <= k < i ==> s[k] == s[1..][k - 1];
      i
  }

  lemma FindAt(a: Bytes, b: Byte, c: Bytes)
    requires b !in a
    ensures Find(a + [b] + c, b) == |a|
  {
    var s := a + [b] + c;
    assert s[|a|] == b;
    forall k | 0 <= k < |a| ensures s[k] != b { assert s[k] == a[k]; }
  }

  // The text before the exponent mark.
  function Head(r: Shortest): Bytes
    requires ShortestOk(r)
  {
    SignText(r.negative) + Mantissa(r.digits)
  }

  lemma HeadBytes(r: Shortest)
    requires ShortestOk(r)
    ensures forall b :: b in Head(r) ==> b == MINUS || b == DOT || IsDigit(b)
    ensures forall b :: b in SignedDecimal(r.exponent) ==> b == MINUS || IsDigit(b)
  {
    var d := r.digits;
    assert forall i :: 0 <= i < |d| ==> IsDigit(d[i]);
    assert forall b :: b in Mantissa(d) ==> b == DOT || IsDigit(b);
  }

  // The generator's upper-case mark becomes lower case.
  method LowerMark(text: Bytes, ghost r: Shortest) returns (result: Bytes)
    requires ShortestOk(r) && text == ShortestText(r, UPPER_E)
    ensures result == ShortestText(r, LOWER_E)
  {
    hide ShortestText;
    result := text;
    var i := 0;
    while i < |result|
      invariant 0 <= i <= |result| == |text|
      invariant forall k :: 0 <= k < i ==> result[k] == if text[k] == UPPER_E then LOWER_E else text[k]
      invariant forall k :: i <= k < |text| ==> result[k] == text[k]
    {
      if result[i] == UPPER_E { result := result[i := LOWER_E]; }
      i := i + 1;
    }
    HeadBytes(r);
    hide Head, SignedDecimal;
    TextParts(r, UPPER_E);
    TextParts(r, LOWER_E);
    MarkLowered(Head(r), SignedDecimal(r.exponent), text, result);
  }

  lemma TextParts(r: Shortest, mark: Byte)
    requires ShortestOk(r)
    ensures ShortestText(r, mark) == Head(r) + [mark] + SignedDecimal(r.exponent)
  {
  }

  lemma MarkLowered(head: Bytes, tail: Bytes, text: Bytes, result: Bytes)
    requires UPPER_E !in head && UPPER_E !in tail && text == head + [UPPER_E] + tail && |result| == |text|
    requires forall k :: 0 <= k < |text| ==> result[k] == if text[k] == UPPER_E then LOWER_E else text[k]
    ensures result == head + [LOWER_E] + tail
  {
    var want, n := head + [LOWER_E] + tail, |head|;
    forall k | 0 <= k < |text| ensures result[k] == want[k] {
      if k < n {
        assert text[k] == head[k];
      } else if k > n {
        assert text[k] == tail[k - n - 1];
      }
    }
  }

  // Reads the exponent after the mark.
  method ReadExponent(result: Bytes, exponent: nat, ghost r: Shortest) returns (value: int)
    requires ShortestOk(r) && result == Head(r) + [LOWER_E] + SignedDecimal(r.exponent) && exponent == |Head(r)|
    ensures value == r.exponent
  {
    hide Decimal, DecimalValue, Head;
    ghost var tail := SignedDecimal(r.exponent);
    assert result[exponent + 1..] == tail;
    SignedBytes(r.exponent);
    var cursor := exponent + 1;
    var negative := false;
    assert result[cursor] == tail[0];
    if cursor < |result| && (result[cursor] == PLUS || result[cursor] == MINUS) {
      negative := result[cursor] == MINUS;
      cursor := cursor + 1;
    }
    ghost var digits := Decimal(if r.exponent < 0 then -r.exponent else r.exponent);
    assert result[cursor..] == digits;
    value := ReadDigits(result, cursor);
    if negative { value := -value; }
  }

  method ReadDigits(s: Bytes, start: nat) returns (value: int)
    requires start <= |s| && AllDigits(s[start..])
    ensures value == DecimalValue(s[start..])
  {
    value := 0;
    var cursor := start;
    NoDigits();
    assert s[start..start] == [];
    while cursor < |s|
      invariant start <= cursor <= |s|
      invariant AllDigits(s[start..cursor]) && value == DecimalValue(s[start..cursor])
    {
      assert s[cursor] == s[start..][cursor - start];
      AppendDigit(s[start..cursor], s[cursor]);
      assert s[start..cursor + 1] == s[start..cursor] + [s[cursor]];
      value := value * 10 + (s[cursor] - ZERO);
      cursor := cursor + 1;
    }
    assert s[start..cursor] == s[start..];
  }

  lemma SignedBytes(e: int)
    ensures var t := SignedDecimal(e);
            && t != [] && (t[0] == MINUS <==> e < 0) && t[0] != PLUS
            && t[if e < 0 then 1 else 0..] == Decimal(if e < 0 then -e else e)
  {
    var d := Decimal(if e < 0 then -e else e);
    assert IsDigit(d[0]);
  }

  // Moves the point of the digits to where the exponent puts it.
  method Relocate(result: Bytes, exponent: nat, exponentValue: int, ghost r: Shortest) returns (text: Bytes)
    requires ShortestOk(r) && exponent == |Head(r)| <= |result| && result[..exponent] == Head(r)
    requires exponentValue == r.exponent && -4 <= exponentValue < 15
    ensures text == RelocatedText(r)
  {
    hide Head, Mantissa, SignedDecimal, Zeros, Find, AllDigits, RelocatedText;
    var negative := result != [] && result[0] == MINUS;
    var mantissaBegin := if negative then 1 else 0;
    HeadSign(r, result);
    var digits := result[mantissaBegin..exponent];
    var dot := Find(digits, DOT);
    MantissaDot(r.digits);
    if dot < |digits| { digits := digits[..dot] + digits[dot + 1..]; }
    assert digits == r.digits;
    var decimalPosition := 1 + exponentValue;
    if decimalPosition <= 0 {
      digits := [ZERO, DOT] + (Zeros(-decimalPosition) + digits);
    } else if decimalPosition >= |digits| {
      digits := digits + Zeros(decimalPosition - |digits|);
    } else {
      digits := digits[..decimalPosition] + [DOT] + digits[decimalPosition..];
    }
    text := if negative then [MINUS] + digits else digits;
    RelocatedAs(r, digits);
  }

  lemma RelocatedAs(r: Shortest, moved: Bytes)
    requires ShortestOk(r)
    requires var point, n, d := 1 + r.exponent, |r.digits|, r.digits;
             moved == if point <= 0 then [ZERO, DOT] + (Zeros(-point) + d)
                      else if point >= n then d + Zeros(point - n)
                      else d[..point] + [DOT] + d[point..]
    ensures RelocatedText(r) == if r.negative then [MINUS] + moved else moved
  {
    hide Zeros, AllDigits;
  }

  lemma HeadSign(r: Shortest, result: Bytes)
    requires ShortestOk(r) && |Head(r)| <= |result| && result[..|Head(r)|] == Head(r)
    ensures (result != [] && result[0] == MINUS) <==> r.negative
    ensures var begin := if r.negative then 1 else 0;
            begin <= |Head(r)| && result[begin..|Head(r)|] == Mantissa(r.digits)
  {
    var begin := if r.negative then 1 else 0;
    assert Head(r)[begin..] == Mantissa(r.digits) && result[..|Head(r)|][begin..] == result[begin..|Head(r)|];
    assert result[..|Head(r)|][0] == result[0];
    assert IsDigit(Mantissa(r.digits)[0]);
    assert Head(r)[0] == if r.negative then MINUS else Mantissa(r.digits)[0];
  }

  lemma MantissaDot(d: Bytes)
    requires Digits(d)
    ensures var m := Mantissa(d); var dot := Find(m, DOT);
            if dot < |m| then m[..dot] + m[dot + 1..] == d else m == d
  {
    var m := Mantissa(d);
    var dot := Find(m, DOT);
    if |d| == 1 {
      assert IsDigit(d[0]);
    } else {
      assert IsDigit(m[0]) && m[1] == DOT;
      assert dot == 1 && m[..1] + m[2..] == d;
    }
  }

  // The text after the point has moved, before ".0" is considered.
  function RelocatedText(r: Shortest): Bytes
    requires ShortestOk(r)
  {
    var point, n := 1 + r.exponent, |r.digits|;
    SignText(r.negative) +
    (if point <= 0 then [ZERO, DOT] + (Zeros(-point) + r.digits)
     else if point >= n then r.digits + Zeros(point - n)
     else r.digits[..point] + [DOT] + r.digits[point..])
  }

  predicate LooksLikeInteger(s: Bytes) {
    forall i :: 0 <= i < |s| ==> s[i] != DOT && !IsE(s[i])
  }

  lemma RelocatedIs(r: Shortest)
    requires ShortestOk(r) && -4 <= r.exponent < 15
    ensures var t := RelocatedText(r);
            && (LooksLikeInteger(t) <==> 1 + r.exponent >= |r.digits|)
            && NumberThen(Layout(r), []) == if LooksLikeInteger(t) then t + [DOT, ZERO] else t
  {
    hide Decimal, DecimalValue, LooksLikeInteger, NumberThen, FractionThen, Zeros, SignText, AllDigits;
    var point, n, sign := 1 + r.exponent, |r.digits|, SignText(r.negative);
    SignTextIs(r.negative);
    PointThen(Layout(r));
    if point <= 0 {
      BeforeIs(sign, r.digits, -point);
    } else if point >= n {
      AfterIs(sign, r.digits, point - n);
    } else {
      BetweenIs(sign, r.digits, point);
    }
  }

  lemma SignTextIs(negative: bool)
    ensures SignText(negative) == [] || SignText(negative) == [MINUS]
  {
  }

  lemma PointThen(c: Cst)
    requires c.CNumber? && c.exponent.NoExponent?
    ensures NumberThen(c, []) == SignText(c.minus) + (c.integer + FractionThen(c.fraction, []))
  {
  }

  lemma BeforeIs(sign: Bytes, d: Bytes, k: nat)
    requires d != []
    ensures var t := sign + ([ZERO, DOT] + (Zeros(k) + d));
            !LooksLikeInteger(t) && t == sign + ([ZERO] + FractionThen(Zeros(k) + d, []))
  {
    var f := Zeros(k) + d;
    var t := sign + ([ZERO, DOT] + f);
    assert t[|sign| + 1] == DOT;
    assert f + [] == f;
    assert [ZERO, DOT] + f == [ZERO] + ([DOT] + f);
  }

  lemma AfterIs(sign: Bytes, d: Bytes, k: nat)
    requires Digits(d) && (sign == [] || sign == [MINUS])
    ensures var t := sign + (d + Zeros(k));
            LooksLikeInteger(t) && t + [DOT, ZERO] == sign + ((d + Zeros(k)) + FractionThen([ZERO], []))
  {
    var body := d + Zeros(k);
    var t := sign + body;
    forall i | 0 <= i < |t| ensures t[i] != DOT && !IsE(t[i]) {
      if i >= |sign| {
        assert t[i] == body[i - |sign|] && IsDigit(body[i - |sign|]);
      }
    }
    assert [ZERO] + [] == [ZERO];
    assert [DOT] + [ZERO] == [DOT, ZERO];
    assert t + [DOT, ZERO] == sign + (body + [DOT, ZERO]);
  }

  lemma BetweenIs(sign: Bytes, d: Bytes, point: nat)
    requires 0 < point < |d|
    ensures var t := sign + (d[..point] + [DOT] + d[point..]);
            !LooksLikeInteger(t) && t == sign + (d[..point] + FractionThen(d[point..], []))
  {
    var t := sign + (d[..point] + [DOT] + d[point..]);
    assert t[|sign| + point] == DOT;
    assert d[point..] + [] == d[point..];
    assert d[..point] + [DOT] + d[point..] == d[..point] + ([DOT] + d[point..]);
  }

  lemma KeptIs(r: Shortest)
    requires ShortestOk(r) && !(-4 <= r.exponent < 15)
    ensures NumberThen(Layout(r), []) == ShortestText(r, LOWER_E) && !LooksLikeInteger(ShortestText(r, LOWER_E))
  {
    hide Decimal, DecimalValue, LooksLikeInteger;
    ScientificIs(SignText(r.negative), r.digits, Layout(r).exponent, SignedDecimal(r.exponent));
  }

  lemma ScientificIs(sign: Bytes, d: Bytes, x: Exponent, tail: Bytes)
    requires d != [] && x.Exponent? && x.mark == LOWER_E && tail == x.sign + x.digits
    ensures var t := sign + Mantissa(d) + [LOWER_E] + tail;
            !LooksLikeInteger(t) && t == sign + ([d[0]] + FractionThen(d[1..], ExponentThen(x, [])))
  {
    var t := sign + Mantissa(d) + [LOWER_E] + tail;
    assert t[|sign| + |Mantissa(d)|] == LOWER_E;
    assert ExponentThen(x, []) == [LOWER_E] + tail by {
      assert x.digits + [] == x.digits;
    }
    MantissaIs(d, [LOWER_E] + tail);
    hide Mantissa, FractionThen, ExponentThen;
    assert t == sign + (Mantissa(d) + ([LOWER_E] + tail));
  }

  lemma MantissaIs(d: Bytes, e: Bytes)
    requires d != []
    ensures [d[0]] + FractionThen(d[1..], e) == Mantissa(d) + e
  {
    if |d| > 1 {
      assert [d[0]] + ([DOT] + (d[1..] + e)) == [d[0], DOT] + d[1..] + e;
    } else {
      assert d == [d[0]];
    }
  }

  // result.find_first_of(".eE") finds nothing.
  method HasNoMark(s: Bytes) returns (plain: bool)
    ensures plain <==> LooksLikeInteger(s)
  {
    var i := 0;
    while i < |s|
      invariant 0 <= i <= |s|
      invariant forall k :: 0 <= k < i ==> s[k] != DOT && !IsE(s[k])
    {
      if s[i] == DOT || IsE(s[i]) { return false; }
      i := i + 1;
    }
    plain := true;
  }

  // Rewrites the generator's text in place.
  method FormatDouble(text: Bytes, ghost r: Shortest) returns (result: Bytes)
    requires ShortestOk(r) && text == ShortestText(r, UPPER_E)
    ensures result == NumberThen(Layout(r), [])
  {
    hide Decimal, DecimalValue, LooksLikeInteger, Layout, NumberThen, RelocatedText, Mantissa, SignText, SignedDecimal;
    result := LowerMark(text, r);
    HeadBytes(r);
    FindAt(Head(r), LOWER_E, SignedDecimal(r.exponent));
    var exponent := Find(result, LOWER_E);
    assert result == Head(r) + [LOWER_E] + SignedDecimal(r.exponent);
    var exponentValue := ReadExponent(result, exponent, r);
    if exponentValue >= -4 && exponentValue < 15 {
      assert result[..exponent] == Head(r);
      result := Relocate(result, exponent, exponentValue, r);
      RelocatedIs(r);
    } else {
      KeptIs(r);
    }
    var plain := HasNoMark(result);
    if plain { result := result + [DOT, ZERO]; }
  }
}
