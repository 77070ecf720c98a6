// The round trip rests on digit generation and number reading being an inverse
// pair. Such pairs exist: exact decimal expansions, read back exactly.

module NumberCodec {
  import opened JsonValue
  import opened Pointer
  import opened Numbers
  import opened NumberText
  import opened Grammar
  import opened Syntax
  import opened Printer
  import opened DoubleText
  import opened RoundTrip

  // ---- Exact decimal expansions ----

  function IntPow5(n: nat): (p: nat)
    ensures p > 0
  {
    if n == 0 then 1 else 5 * IntPow5(n - 1)
  }

  // magnitude * 2^exponent as an integer over a power of ten.
  function Numerator(f: Float): nat
    requires f.Finite?
  {
    if f.exponent >= 0 then f.magnitude * IntPow2(f.exponent) else f.magnitude * IntPow5(-f.exponent)
  }

  function Places(f: Float): nat
    requires f.Finite?
  {
    if f.exponent >= 0 then 0 else -f.exponent
  }

  function Exact(f: Float): (r: Shortest)
    ensures f.Finite? ==> ShortestOk(r) && r.negative == f.negative
  {
    if !f.Finite? || Numerator(f) == 0 then Shortest(f.Finite? && f.negative, [ZERO], 0)
    else
      var digits := Decimal(Numerator(f));
      Shortest(f.negative, digits, |digits| - 1 - Places(f))
  }

  // 5^n / 10^n is 2^-n.
  lemma {:induction false} FivesAreHalves(n: nat, e: int)
    requires e == -(n as int)
    ensures IntPow5(n) as real * Pow10(e) == Pow2(e)
  {
    if n > 0 {
      FivesAreHalves(n - 1, e + 1);
      var p, q := IntPow5(n - 1) as real, Pow10(e + 1);
      assert Pow10(e) == q / 10.0;
      assert 5.0 * p * (q / 10.0) == p * q / 2.0;
    }
  }

  lemma Associate(m: real, p: real, q: real)
    ensures m * p * q == m * (p * q)
  {
  }

  lemma NumeratorScaled(f: Float)
    requires f.Finite?
    ensures Numerator(f) as real * Pow10(-(Places(f) as int)) == f.magnitude as real * Pow2(f.exponent)
  {
    hide Pow2, Pow10;
    var m, p := f.magnitude, Places(f);
    if f.exponent >= 0 {
      MulAsReal(m, IntPow2(f.exponent));
      TimesOne(Numerator(f) as real);
    } else {
      FivesAreHalves(p, f.exponent);
      MulAsReal(m, IntPow5(p));
      Associate(m as real, IntPow5(p) as real, Pow10(f.exponent));
    }
  }

  lemma ExactValue(f: Float)
    requires f.Finite?
    ensures ShortestValue(Exact(f)) == f.magnitude as real * Pow2(f.exponent)
  {
    hide Pow2, Pow10, Decimal, Numerator, Places;
    NumeratorScaled(f);
    assert DecimalValue([ZERO]) == 0 by {
      assert [ZERO][..0] == [];
    }
  }

  // ---- A token is determined by its text ----

  lemma SameParts(c: Cst, d: Cst)
    requires c.CNumber? && d.CNumber? && Wf(c) && Wf(d) && NumberThen(c, []) == NumberThen(d, [])
    ensures c.minus == d.minus && c.integer == d.integer
    ensures FractionThen(c.fraction, ExponentThen(c.exponent, []))
      == FractionThen(d.fraction, ExponentThen(d.exponent, []))
  {
    NumberOk(c);
    NumberOk(d);
    hide FractionThen, ExponentThen, IntegerLength, Wf, Digits, AllDigits, ExponentOk;
    var s := NumberThen(c, []);
    Leading(c);
    Leading(d);
    var a := SignLength(s);
    assert s[a..][..|c.integer|] == c.integer && s[a..][..|d.integer|] == d.integer;
  }

  lemma Leading(c: Cst)
    requires c.CNumber? && Wf(c)
    ensures var s, a := NumberThen(c, []), if c.minus then 1 else 0;
            var f := FractionThen(c.fraction, ExponentThen(c.exponent, []));
            && SignLength(s) == a && a <= |s| && s[a..] == c.integer + f
            && IntegerLength(s[a..]) == Some(|c.integer|) && (c.integer + f)[|c.integer|..] == f
            && (c.integer + f)[..|c.integer|] == c.integer
  {
    NumberOk(c);
    var e := ExponentThen(c.exponent, []);
    var f := FractionThen(c.fraction, e);
    var none: Bytes := [];
    ExponentEnds(c.exponent, none);
    FractionEnds(c.fraction, e);
    IntegerReads(c.integer, f);
    var sign: Bytes := if c.minus then [MINUS] else [];
    assert NumberThen(c, []) == sign + (c.integer + f);
    Offsets(sign, c.integer, f, 0, f, NumberThen(c, []));
  }

  lemma SameFraction(f: Bytes, e: Bytes, g: Bytes, h: Bytes)
    requires AllDigits(f) && AllDigits(g) && FractionThen(f, e) == FractionThen(g, h)
    requires (e == [] || (!IsDigit(e[0]) && e[0] != DOT)) && (h == [] || (!IsDigit(h[0]) && h[0] != DOT))
    ensures f == g && e == h
  {
    FractionReads(f, e);
    FractionReads(g, h);
    var s := FractionThen(f, e);
    assert f == [] <==> g == [];
    if f != [] {
      assert s[1..] == f + e && s[1..] == g + h;
      assert s[1..][..|f|] == f && s[1..][..|g|] == g;
      assert s[1..][|f|..] == e && s[1..][|g|..] == h;
    }
  }

  lemma SameExponent(x: Exponent, y: Exponent)
    requires ExponentOk(x) && ExponentOk(y) && ExponentThen(x, []) == ExponentThen(y, [])
    ensures x == y
  {
    var none: Bytes := [];
    ExponentEnds(x, none);
    ExponentEnds(y, none);
    if x.Exponent? {
      Syntax.ExponentParts(x, none);
      Syntax.ExponentParts(y, none);
      SignBytes(x);
      SignBytes(y);
      hide ExponentThen, ExponentOk, ExponentStart;
      assert x.digits + none == x.digits && y.digits + none == y.digits;
    }
  }

  lemma SignBytes(x: Exponent)
    requires x.Exponent?
    ensures 1 + |x.sign| <= |ExponentThen(x, [])| && ExponentThen(x, [])[1..1 + |x.sign|] == x.sign
  {
    var tail := x.digits + [];
    assert ([x.mark] + (x.sign + tail))[1..] == x.sign + tail;
  }

  lemma SameToken(c: Cst, d: Cst)
    requires c.CNumber? && d.CNumber? && Wf(c) && Wf(d) && NumberThen(c, []) == NumberThen(d, [])
    ensures c == d
  {
    NumberOk(c);
    NumberOk(d);
    SameParts(c, d);
    var none: Bytes := [];
    ExponentEnds(c.exponent, none);
    ExponentEnds(d.exponent, none);
    SameFraction(c.fraction, ExponentThen(c.exponent, none), d.fraction, ExponentThen(d.exponent, none));
    SameExponent(c.exponent, d.exponent);
  }

  // ---- The pair ----

  ghost predicate Spelled(text: Bytes, f: Float, c: Cst) {
    f.Finite? && Reads(c, Exact(f)) && text == NumberThen(c, [])
  }

  ghost function ReadBack(text: Bytes): (r: Reading)
    ensures forall f: Float, c :: Spelled(text, f, c) ==> r.Readable? && exists d :: Spelled(text, r.f, d)
  {
    if exists f: Float, c :: Spelled(text, f, c) then
      var f: Float, c :| Spelled(text, f, c);
      Readable(f)
    else Unreadable
  }

  lemma SameValue(f: Float, g: Float, c: Cst)
    requires f.Finite? && g.Finite? && Reads(c, Exact(f)) && Reads(c, Exact(g))
    ensures SameDouble(f, g)
  {
    hide Exact, Wf, Pow2, Pow10, TokenValue, ShortestValue;
    ExactValue(f);
    ExactValue(g);
  }

  lemma ReadsBack(f: Float, c: Cst)
    requires f.Finite? && Reads(c, Exact(f))
    ensures ReadsAs(ReadBack(NumberThen(c, [])), f)
  {
    hide Exact, ReadBack, Wf, Reads, SameDouble, NumberThen;
    ReadsToken(c, Exact(f));
    var text := NumberThen(c, []);
    assert Spelled(text, f, c);
    var g := ReadBack(text).f;
    var d :| Spelled(text, g, d);
    ReadsToken(d, Exact(g));
    SameToken(c, d);
    SameValue(f, g, c);
  }

  lemma ReadsToken(c: Cst, r: Shortest)
    requires Reads(c, r)
    ensures c.CNumber? && Wf(c)
  {
  }

  // What PrintThenParse assumes of the number codec can be met, whatever the
  // other options.
  lemma CodecExists(sopts: SerializeOptions, popts: Options)
    returns (shortest: Float -> Shortest, number: Float -> Bytes, read: Bytes -> Reading)
    ensures Codec(shortest, sopts.(number := number), popts.(read := read))
  {
    shortest := Exact;
    number := (f: Float) => if f.Finite? then NumberThen(Layout(Exact(f)), []) else [];
    read := (text: Bytes) => ReadBack(text);
    forall f: Float, c | f.Finite? && Reads(c, shortest(f))
      ensures ReadsAs(read(NumberThen(c, [])), f)
    {
      ReadsBack(f, c);
    }
  }
}
