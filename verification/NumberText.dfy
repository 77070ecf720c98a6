// Number tokens (section 6 of RFC 8259): scanning them from a cursor.

module NumberText {
  import opened JsonValue
  import opened Pointer
  import opened Cursors

  const MINUS: Byte := '-' as int
  const PLUS: Byte := '+' as int
  const DOT: Byte := '.' as int
  const LOWER_E: Byte := 'e' as int
  const UPPER_E: Byte := 'E' as int

  predicate IsE(b: Byte) {
    b == LOWER_E || b == UPPER_E
  }

  // ---- Lengths of the parts of a token ----

  function IntegerLength(s: Bytes): (n: Option<nat>)
    ensures n.Some? ==> 0 < n.value <= |s|
  {
    if s == [] || !IsDigit(s[0]) then None
    else if s[0] == ZERO then Some(1)
    else Some(DigitRun(s))
  }

  function FractionLength(s: Bytes): (n: Option<nat>)
    ensures n.Some? ==> n.value <= |s|
  {
    if s == [] || s[0] != DOT then Some(0)
    else if DigitRun(s[1..]) == 0 then None
    else Some(1 + DigitRun(s[1..]))
  }

  function ExponentStart(s: Bytes): (n: nat)
    requires s != []
    ensures 1 <= n <= 2 && n <= |s|
  {
    if |s| > 1 && (s[1] == PLUS || s[1] == MINUS) then 2 else 1
  }

  function ExponentLength(s: Bytes): (n: Option<nat>)
    ensures n.Some? ==> n.value <= |s|
  {
    if s == [] || !IsE(s[0]) then Some(0)
    else
      var k := ExponentStart(s);
      if DigitRun(s[k..]) == 0 then None else Some(k + DigitRun(s[k..]))
  }

  datatype Scan = Token(text: Bytes, isFloat: bool, rest: Bytes) | NoToken

  function SignLength(s: Bytes): (n: nat)
    ensures n <= |s|
  {
    if s != [] && s[0] == MINUS then 1 else 0
  }

  // The number token that s starts with.
  function ScanNumber(s: Bytes): (r: Scan)
    ensures r.Token? ==> |r.rest| < |s|
  {
    var a := SignLength(s);
    match IntegerLength(s[a..])
    case None => NoToken
    case Some(n) =>
      match FractionLength(s[a + n..])
      case None => NoToken
      case Some(m) =>
        match ExponentLength(s[a + n + m..])
        case None => NoToken
        case Some(k) => Token(s[..a + n + m + k], m > 0 || k > 0, s[a + n + m + k..])
  }

  lemma ScanSplits(s: Bytes)
    requires ScanNumber(s).Token?
    ensures s == ScanNumber(s).text + ScanNumber(s).rest && ScanNumber(s).text != []
  {
    hide IntegerLength, FractionLength, ExponentLength, SignLength;
    var r := ScanNumber(s);
    var n := |r.text|;
    assert r.text == s[..n] && r.rest == s[n..];
  }

  // ---- scanJsonNumber() ----

  // do { take } while (peek is a digit)
  method TakeDigits(cur: Cursor, text0: Bytes) returns (ok: bool, text: Bytes)
    requires cur.Valid() && cur.pos < |cur.src| && IsDigit(cur.src[cur.pos])
    modifies cur
    ensures cur.Valid() && old(cur.pos) <= cur.pos
    ensures ok ==> old(cur.pos) < cur.pos == old(cur.pos) + DigitRun(Tail(cur.src, old(cur.pos)))
    ensures ok ==> Took(cur.src, old(cur.pos), cur.pos, text0, text)
    ensures cur.Roomy() ==> ok
  {
    hide Took, Tail, DigitRun, Coordinates, Cursor.Valid;
    text := text0;
    var ch: Byte;
    var more := true;
    ghost var start := cur.pos;
    TookNone(cur.src, start, text);
    while more
      invariant cur.Valid() && start <= cur.pos && (more || start < cur.pos)
      invariant forall i :: start <= i < cur.pos ==> IsDigit(cur.src[i])
      invariant Took(cur.src, start, cur.pos, text0, text)
      invariant more <==> cur.pos < |cur.src| && IsDigit(cur.src[cur.pos])
      decreases |cur.src| - cur.pos, more
    {
      ghost var p, t := cur.pos, text;
      ok, text := TakeByte(cur, text);
      if !ok { return; }
      TookMore(cur.src, start, p, cur.pos, text0, t, text);
      more, ch := cur.Peek();
      more := more && IsDigit(ch);
    }
    ok := true;
    DigitsSeen(cur.src, start, cur.pos);
  }

  lemma DigitsSeen(src: Bytes, start: nat, pos: nat)
    requires start <= pos <= |src| && (forall i :: start <= i < pos ==> IsDigit(src[i]))
    requires pos < |src| ==> !IsDigit(src[pos])
    ensures DigitRun(Tail(src, start)) == pos - start
  {
    var t := Tail(src, start);
    assert forall k :: 0 <= k < |t| ==> t[k] == src[start + k];
    DigitRunIs(t, pos - start);
  }

  // Takes one byte that was just seen and appends it.
  method TakeByte(cur: Cursor, text0: Bytes) returns (ok: bool, text: Bytes)
    requires cur.Valid() && cur.pos < |cur.src|
    modifies cur
    ensures cur.Valid()
    ensures ok ==> cur.pos == old(cur.pos) + 1 && Took(cur.src, old(cur.pos), cur.pos, text0, text)
    ensures !ok ==> cur.pos == old(cur.pos) && !cur.Roomy()
  {
    hide Took, Coordinates, Cursor.Valid;
    var ch;
    text := text0;
    ghost var start := cur.pos;
    ok, ch := cur.GetChar();
    if ok {
      text := text + [ch];
      TookByte(cur.src, start, text0);
    }
  }

  lemma DigitAhead(s: Bytes)
    ensures DigitRun(s) > 0 <==> s != [] && IsDigit(s[0])
  {
  }

  // The optional fraction.
  method TakeFraction(cur: Cursor, text0: Bytes) returns (ok: bool, text: Bytes, seen: bool)
    requires cur.Valid()
    modifies cur
    ensures cur.Valid() && old(cur.pos) <= cur.pos
    ensures ok ==> FractionLength(Tail(cur.src, old(cur.pos))) == Some(cur.pos - old(cur.pos))
    ensures ok ==> Took(cur.src, old(cur.pos), cur.pos, text0, text) && (seen <==> cur.pos > old(cur.pos))
    ensures cur.Roomy() && FractionLength(Tail(cur.src, old(cur.pos))).Some? ==> ok
  {
    hide DigitRun, Took, Tail, Coordinates, Cursor.Valid;
    ghost var start := cur.pos;
    text := text0;
    var some, ch := cur.Peek();
    TailAt(cur.src, start, start);
    seen := some && ch == DOT;
    if !seen {
      TookNone(cur.src, start, text);
      return true, text, false;
    }
    ok, text := TakeByte(cur, text);
    if !ok { return; }
    ghost var mid, t := cur.pos, text;
    TailAt(cur.src, start, mid);
    TailAt(cur.src, mid, mid);
    DigitAhead(Tail(cur.src, mid));
    some, ch := cur.Peek();
    if !some || !IsDigit(ch) { return false, text, seen; }
    ok, text := TakeDigits(cur, text);
    if ok { TookMore(cur.src, start, mid, cur.pos, text0, t, text); }
  }

  method TakeExponent(cur: Cursor, text0: Bytes) returns (ok: bool, text: Bytes, seen: bool)
    requires cur.Valid()
    modifies cur
    ensures cur.Valid() && old(cur.pos) <= cur.pos
    ensures ok ==> ExponentLength(Tail(cur.src, old(cur.pos))) == Some(cur.pos - old(cur.pos))
    ensures ok ==> Took(cur.src, old(cur.pos), cur.pos, text0, text) && (seen <==> cur.pos > old(cur.pos))
    ensures cur.Roomy() && ExponentLength(Tail(cur.src, old(cur.pos))).Some? ==> ok
  {
    hide DigitRun, ExponentStart, Took, Tail, Coordinates, Cursor.Valid;
    ghost var start := cur.pos;
    text := text0;
    var some, ch := cur.Peek();
    TailAt(cur.src, start, start);
    seen := some && IsE(ch);
    if !seen {
      TookNone(cur.src, start, text);
      return true, text, false;
    }
    ok, text := TakeExponentStart(cur, text);
    if !ok { return; }
    ghost var mid, t := cur.pos, text;
    TailAt(cur.src, start, mid);
    TailAt(cur.src, mid, mid);
    DigitAhead(Tail(cur.src, mid));
    some, ch := cur.Peek();
    if !some || !IsDigit(ch) { return false, text, seen; }
    ok, text := TakeDigits(cur, text);
    if ok { TookMore(cur.src, start, mid, cur.pos, text0, t, text); }
  }

  // The exponent mark and its sign.
  method TakeExponentStart(cur: Cursor, text0: Bytes) returns (ok: bool, text: Bytes)
    requires cur.Valid() && cur.pos < |cur.src|
    modifies cur
    ensures cur.Valid() && old(cur.pos) <= cur.pos
    ensures ok ==> cur.pos == old(cur.pos) + ExponentStart(Tail(cur.src, old(cur.pos)))
    ensures ok ==> Took(cur.src, old(cur.pos), cur.pos, text0, text)
    ensures cur.Roomy() ==> ok
  {
    hide Took, Tail, Coordinates, Cursor.Valid;
    ghost var start := cur.pos;
    ok, text := TakeByte(cur, text0);
    if !ok { return; }
    ghost var t := text;
    TailAt(cur.src, start, cur.pos);
    var some, ch := cur.Peek();
    if some && (ch == PLUS || ch == MINUS) {
      ok, text := TakeByte(cur, text);
      if ok { TookMore(cur.src, start, start + 1, cur.pos, text0, t, text); }
    }
  }

  lemma IntegerCases(t: Bytes)
    ensures t != [] && t[0] == ZERO ==> IntegerLength(t) == Some(1)
    ensures t != [] && t[0] != ZERO && IsDigit(t[0]) ==> IntegerLength(t) == Some(DigitRun(t))
    ensures t == [] || !IsDigit(t[0]) ==> IntegerLength(t) == None
  {
  }

  // The optional minus sign and the integer part.
  method TakeInteger(cur: Cursor) returns (ok: bool, text: Bytes)
    requires cur.Valid()
    modifies cur
    ensures cur.Valid() && old(cur.pos) <= cur.pos
    ensures ok ==>
      var s := Tail(cur.src, old(cur.pos));
      && IntegerLength(s[SignLength(s)..]) == Some(cur.pos - old(cur.pos) - SignLength(s))
      && Took(cur.src, old(cur.pos), cur.pos, [], text)
    ensures var t := Tail(cur.src, old(cur.pos));
            cur.Roomy() && IntegerLength(t[SignLength(t)..]).Some? ==> ok
  {
    hide DigitRun, Took, Tail, Coordinates, Cursor.Valid, IntegerLength;
    ghost var start := cur.pos;
    ghost var s := Tail(cur.src, start);
    text := [];
    TailAt(cur.src, start, start);
    TookNone(cur.src, start, text);
    var some, ch := cur.Peek();
    if !some { return false, text; }
    if ch == MINUS {
      ok, text := TakeByte(cur, text);
      if !ok { return; }
      some, ch := cur.Peek();
      if !some { return false, text; }
    }
    ghost var a, t := cur.pos, text;
    TailAt(cur.src, start, a);
    TailAt(cur.src, a, a);
    assert a - start == SignLength(s);
    IntegerCases(s[a - start..]);
    if ch == ZERO {
      ok, text := TakeByte(cur, text);
    } else if IsDigit(ch) {
      ok, text := TakeDigits(cur, text);
    } else {
      return false, text;
    }
    if ok { TookMore(cur.src, start, a, cur.pos, [], t, text); }
  }

  // Accepts exactly the tokens of the grammar, longest match first.
  method ScanJsonNumber(cur: Cursor) returns (ok: bool, text: Bytes, isFloat: bool)
    requires cur.Valid()
    modifies cur
    ensures cur.Valid() && old(cur.pos) <= cur.pos
    ensures ok ==> ScanNumber(Tail(cur.src, old(cur.pos))) == Token(text, isFloat, Tail(cur.src, cur.pos))
    ensures cur.Roomy() && ScanNumber(Tail(cur.src, old(cur.pos))).Token? ==> ok
  {
    hide DigitRun, IntegerLength, FractionLength, ExponentLength, SignLength, Took, Tail, Coordinates, Cursor.Valid;
    ghost var start := cur.pos;
    isFloat := false;
    ok, text := TakeInteger(cur);
    if !ok { return; }
    ghost var b, t := cur.pos, text;
    TailAt(cur.src, start, b);
    var seen;
    ok, text, seen := TakeFraction(cur, text);
    if !ok { return; }
    isFloat := seen;
    ghost var c, u := cur.pos, text;
    TookMore(cur.src, start, b, c, [], t, u);
    TailAt(cur.src, start, c);
    ok, text, seen := TakeExponent(cur, text);
    if !ok { return; }
    isFloat := isFloat || seen;
    TookMore(cur.src, start, c, cur.pos, [], u, text);
    TailAt(cur.src, start, cur.pos);
    TailTook(cur.src, start, cur.pos, text);
  }
}
