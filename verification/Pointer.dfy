// JSON Pointer (RFC 6901): decoding, escaping, array indices, and resolution.

module Pointer {
  import opened JsonValue

  const SLASH: Byte := '/' as int
  const TILDE: Byte := '~' as int
  const ZERO: Byte := '0' as int
  const ONE: Byte := '1' as int
  const NINE: Byte := '9' as int
  const DASH: Bytes := ['-' as int]

  // ---- Array indices ----

  datatype Index = IndexOk(index: nat) | IndexInvalid | IndexOverflow

  predicate IsDigit(b: Byte) {
    ZERO <= b <= NINE
  }

  predicate AllDigits(s: Bytes) {
    forall i :: 0 <= i < |s| ==> IsDigit(s[i])
  }

  function DecimalValue(s: Bytes): nat
    requires AllDigits(s)
  {
    if s == [] then 0 else DecimalValue(s[..|s| - 1]) * 10 + (s[|s| - 1] - ZERO)
  }

  // A canonical decimal: digits without a superfluous leading zero.
  predicate IsCanonical(token: Bytes) {
    token != [] && AllDigits(token) && (|token| > 1 ==> token[0] != ZERO)
  }

  lemma {:induction false} DecimalPrefix(s: Bytes, n: nat)
    requires AllDigits(s) && n <= |s|
    ensures DecimalValue(s[..n]) <= DecimalValue(s)
    decreases |s|
  {
    if n < |s| {
      var t := s[..|s| - 1];
      assert t[..n] == s[..n];
      DecimalPrefix(t, n);
    } else {
      assert s[..n] == s;
    }
  }

  // Accumulates the value without letting it wrap.
  method ParseIndex(token: Bytes) returns (r: Index)
    ensures r.IndexOk? <==> IsCanonical(token) && DecimalValue(token) <= SIZE_MAX
    ensures r.IndexOk? ==> r.index == DecimalValue(token)
    ensures r.IndexOverflow? ==>
      exists n :: 0 <= n <= |token| && AllDigits(token[..n]) && DecimalValue(token[..n]) > SIZE_MAX
    ensures r.IndexInvalid? ==> !IsCanonical(token)
    ensures r == IndexOf(token)
  {
    hide DecimalValue, DigitRun;
    assert DecimalValue(token[..0]) == 0 by { NothingYet(token); }
    if token == [] || (|token| > 1 && token[0] == ZERO) {
      return IndexInvalid;
    }
    var value := 0;
    var i := 0;
    while i < |token|
      invariant 0 <= i <= |token|
      invariant AllDigits(token[..i]) && value == DecimalValue(token[..i]) <= SIZE_MAX
    {
      if !IsDigit(token[i]) {
        DigitRunIs(token, i);
        return IndexInvalid;
      }
      var digit := token[i] - ZERO;
      DecimalStep(token, i);
      if value > (SIZE_MAX - digit) / 10 {
        if AllDigits(token) { DecimalPrefix(token, i + 1); }
        OverflowStays(token, i + 1);
        return IndexOverflow;
      }
      value := value * 10 + digit;
      i := i + 1;
    }
    assert token[..|token|] == token;
    DigitRunIs(token, |token|);
    r := IndexOk(value);
  }

  lemma NothingYet(token: Bytes)
    ensures DecimalValue(token[..0]) == 0
  {
  }

  lemma DecimalStep(token: Bytes, i: nat)
    requires i < |token| && AllDigits(token[..i]) && IsDigit(token[i])
    ensures AllDigits(token[..i + 1])
    ensures DecimalValue(token[..i + 1]) == DecimalValue(token[..i]) * 10 + (token[i] - ZERO)
  {
    assert token[..i + 1][..i] == token[..i];
  }

  // The number of leading digits.
  function DigitRun(s: Bytes): (n: nat)
    ensures n <= |s| && AllDigits(s[..n]) && (n < |s| ==> !IsDigit(s[n]))
  {
    if s == [] || !IsDigit(s[0]) then 0
    else
      var n := DigitRun(s[1..]) + 1;
      assert s[..n] == [s[0]] + s[1..][..n - 1];
      n
  }

  lemma DigitRunIs(s: Bytes, n: nat)
    requires n <= |s| && AllDigits(s[..n]) && (n < |s| ==> !IsDigit(s[n]))
    ensures DigitRun(s) == n
  {
    var m := DigitRun(s);
    assert forall k :: 0 <= k < m ==> s[..m][k] == s[k];
    assert forall k :: 0 <= k < n ==> s[..n][k] == s[k];
  }

  lemma OverflowStays(token: Bytes, n: nat)
    requires 0 < n <= |token| && AllDigits(token[..n]) && DecimalValue(token[..n]) > SIZE_MAX
    ensures DecimalValue(token[..DigitRun(token)]) > SIZE_MAX
  {
    var m := DigitRun(token);
    assert forall k :: 0 <= k < n ==> token[..n][k] == token[k];
    assert token[..m][..n] == token[..n];
    DecimalPrefix(token[..m], n);
  }

  // How a token reads as an array index. A digit run too large for size_t is
  // reported as overflow even if junk follows it.
  function IndexOf(token: Bytes): Index {
    if token == [] || (|token| > 1 && token[0] == ZERO) then IndexInvalid
    else if DecimalValue(token[..DigitRun(token)]) > SIZE_MAX then IndexOverflow
    else if DigitRun(token) < |token| then IndexInvalid
    else IndexOk(DecimalValue(token[..DigitRun(token)]))
  }

  // Distinct canonical tokens name distinct indices.
  lemma {:induction false} DecimalInjective(s: Bytes, t: Bytes)
    requires AllDigits(s) && AllDigits(t) && DecimalValue(s) == DecimalValue(t)
    requires (s != [] ==> s[0] != ZERO) && (t != [] ==> t[0] != ZERO)
    ensures s == t
    decreases |s| + |t|
  {
    if s != [] && t != [] {
      var s', t' := s[..|s| - 1], t[..|t| - 1];
      DecimalInjective(s', t');
      assert s == s' + [s[|s| - 1]] && t == t' + [t[|t| - 1]];
    } else {
      NonZero(s);
      NonZero(t);
    }
  }

  lemma {:induction false} NonZero(s: Bytes)
    requires AllDigits(s) && (s != [] ==> s[0] != ZERO)
    ensures DecimalValue(s) == 0 ==> s == []
    decreases |s|
  {
    if s != [] { NonZero(s[..|s| - 1]); }
  }

  lemma IndexInjective(s: Bytes, t: Bytes)
    requires IndexOf(s).IndexOk? && IndexOf(s) == IndexOf(t)
    ensures s == t
  {
    assert s[..|s|] == s && t[..|t|] == t;
    assert s[0] == ZERO ==> s == [ZERO];
    assert t[0] == ZERO ==> t == [ZERO];
    if s != [ZERO] { NonZero(s); }
    if t != [ZERO] { NonZero(t); }
    if s != [ZERO] && t != [ZERO] { DecimalInjective(s, t); }
    assert DecimalValue([ZERO]) == 0 by { assert [ZERO][..0] == []; }
  }

  // ---- Escaping ----

  function Escape(token: Bytes): Bytes {
    if token == [] then []
    else (if token[0] == TILDE then [TILDE, ZERO] else if token[0] == SLASH then [TILDE, ONE] else [token[0]])
         + Escape(token[1..])
  }

  function Join(tokens: seq<Bytes>): Bytes {
    if tokens == [] then [] else [SLASH] + Escape(tokens[0]) + Join(tokens[1..])
  }

  lemma {:induction false} EscapeAppend(s: Bytes, b: Byte)
    ensures Escape(s + [b]) == Escape(s) + Escape([b])
    decreases |s|
  {
    if s != [] {
      assert (s + [b])[1..] == s[1..] + [b];
      EscapeAppend(s[1..], b);
    } else {
      assert s + [b] == [b];
    }
  }

  method EscapeToken(token: Bytes) returns (escaped: Bytes)
    ensures escaped == Escape(token)
  {
    escaped := [];
    var i := 0;
    while i < |token|
      invariant 0 <= i <= |token| && escaped == Escape(token[..i])
    {
      EscapeAppend(token[..i], token[i]);
      assert token[..i + 1] == token[..i] + [token[i]];
      if token[i] == TILDE { escaped := escaped + [TILDE, ZERO]; }
      else if token[i] == SLASH { escaped := escaped + [TILDE, ONE]; }
      else { escaped := escaped + [token[i]]; }
      i := i + 1;
    }
    assert token[..i] == token;
  }

  // ---- Decoding ----

  // No slash is left in an escaped token, so tokens cannot run together.
  lemma {:induction false} EscapeHasNoSlash(token: Bytes)
    ensures SLASH !in Escape(token)
    decreases |token|
  {
    if token != [] { EscapeHasNoSlash(token[1..]); }
  }

  lemma {:induction false} EscapeInjective(s: Bytes, t: Bytes)
    requires Escape(s) == Escape(t)
    ensures s == t
    decreases |s| + |t|
  {
    var es, et := Escape(s), Escape(t);
    if s != [] && t != [] {
      assert es[0] == et[0];
      assert s[0] == t[0] by {
        if s[0] == TILDE || s[0] == SLASH || t[0] == TILDE || t[0] == SLASH { assert es[1] == et[1]; }
      }
      var k := if s[0] == TILDE || s[0] == SLASH then 2 else 1;
      assert es[k..] == Escape(s[1..]) && et[k..] == Escape(t[1..]);
      EscapeInjective(s[1..], t[1..]);
      assert s == [s[0]] + s[1..] && t == [t[0]] + t[1..];
    }
  }

  // Two texts that both start with an escaped token followed by a slash or the
  // end start with the same token.
  lemma SplitJoin(t: seq<Bytes>)
    requires t != []
    ensures Join(t)[1..] == Escape(t[0]) + Join(t[1..]) && Join(t)[0] == SLASH
    ensures Join(t[1..]) == [] || Join(t[1..])[0] == SLASH
    ensures SLASH !in Escape(t[0])
  {
    EscapeHasNoSlash(t[0]);
    assert Join(t) == [SLASH] + (Escape(t[0]) + Join(t[1..]));
  }

  // Where two escaped lists agree as text they agree token by token.
  lemma {:induction false} JoinInjective(s: seq<Bytes>, t: seq<Bytes>)
    requires Join(s) == Join(t)
    ensures s == t
    decreases |s|
  {
    if s != [] && t != [] {
      SplitJoin(s);
      SplitJoin(t);
      SameFirstToken(Escape(s[0]), Join(s[1..]), Escape(t[0]), Join(t[1..]));
      EscapeInjective(s[0], t[0]);
      JoinInjective(s[1..], t[1..]);
      assert s == [s[0]] + s[1..] && t == [t[0]] + t[1..];
    }
  }

  lemma SameFirstToken(a: Bytes, x: Bytes, b: Bytes, y: Bytes)
    requires a + x == b + y && SLASH !in a && SLASH !in b
    requires (x == [] || x[0] == SLASH) && (y == [] || y[0] == SLASH)
    ensures a == b && x == y
  {
    var z := a + x;
    assert forall i :: 0 <= i < |a| ==> z[i] == a[i];
    assert forall i :: 0 <= i < |b| ==> z[i] == b[i];
    assert x != [] ==> z[|a|] == x[0];
    assert y != [] ==> z[|b|] == y[0];
    assert |a| == |b|;
    assert z[..|a|] == a && z[..|b|] == b;
    assert z[|a|..] == x && z[|b|..] == y;
  }

  datatype Decoded = Tokens(tokens: seq<Bytes>) | BadSyntax | BadEscape(tokenIndex: nat)

  function FindSlash(s: Bytes, from: nat): (i: nat)
    requires from <= |s|
    ensures from <= i <= |s| && SLASH !in s[from..i] && (i < |s| ==> s[i] == SLASH)
    decreases |s| - from
  {
    if from == |s| || s[from] == SLASH then from
    else
      var i := FindSlash(s, from + 1);
      assert s[from..i] == [s[from]] + s[from + 1..i];
      i
  }

  // Unescapes one token; false when a '~' is not part of "~0" or "~1".
  method UnescapeToken(text: Bytes) returns (ok: bool, decoded: Bytes)
    requires SLASH !in text
    ensures ok ==> Escape(decoded) == text
    ensures !ok ==> forall t :: Escape(t) != text
  {
    decoded := [];
    var i := 0;
    while i < |text|
      invariant 0 <= i <= |text| && Escape(decoded) == text[..i]
    {
      var ch := text[i];
      if ch != TILDE {
        EscapeAppend(decoded, ch);
        assert text[..i + 1] == text[..i] + [ch];
        decoded := decoded + [ch];
        i := i + 1;
      } else if i + 1 >= |text| || (text[i + 1] != ZERO && text[i + 1] != ONE) {
        forall t ensures Escape(t) != text {
          if Escape(t) == text { BadTilde(t, decoded, i); }
        }
        return false, decoded;
      } else {
        var raw := if text[i + 1] == ZERO then TILDE else SLASH;
        EscapeAppend(decoded, raw);
        assert text[..i + 2] == text[..i] + [TILDE, text[i + 1]];
        decoded := decoded + [raw];
        i := i + 2;
      }
    }
    assert text[..i] == text;
    ok := true;
  }

  // Whatever t escapes to, a '~' after an escaped prefix starts an escape.
  lemma {:induction false} BadTilde(t: Bytes, prefix: Bytes, i: nat)
    requires i < |Escape(t)| && Escape(prefix) == Escape(t)[..i] && Escape(t)[i] == TILDE
    ensures i + 1 < |Escape(t)| && (Escape(t)[i + 1] == ZERO || Escape(t)[i + 1] == ONE)
    decreases |t|
  {
    var e := Escape(t);
    if prefix != [] {
      var p := Escape(prefix);
      assert e[0] == p[0];
      var k := if t[0] == TILDE || t[0] == SLASH then 2 else 1;
      assert prefix[0] == TILDE || prefix[0] == SLASH ==> p[1] == e[1];
      assert t[0] == prefix[0];
      assert Escape(t[1..]) == e[k..] && Escape(prefix[1..]) == p[k..];
      BadTilde(t[1..], prefix[1..], i - k);
    }
  }

  // Succeeds exactly on the slash-joined escapes of a token list, and returns
  // that list.
  method DecodePointer(pointer: Bytes) returns (r: Decoded)
    ensures r.Tokens? ==> Join(r.tokens) == pointer
    ensures !r.Tokens? ==> forall ts :: Join(ts) != pointer
    ensures r.BadSyntax? <==> pointer != [] && pointer[0] != SLASH
  {
    if pointer == [] {
      return Tokens([]);
    }
    if pointer[0] != SLASH {
      forall ts ensures Join(ts) != pointer { }
      return BadSyntax;
    }
    var tokens: seq<Bytes> := [];
    var start := 1;
    while true
      invariant 1 <= start <= |pointer| && pointer[start - 1] == SLASH
      invariant Join(tokens) == pointer[..start - 1]
      decreases |pointer| - start
    {
      var end := FindSlash(pointer, start);
      var ok, decoded := UnescapeToken(pointer[start..end]);
      if !ok {
        NotJoined(tokens, pointer, start, end);
        return BadEscape(|tokens|);
      }
      JoinAppend(tokens, decoded);
      assert pointer[..end] == pointer[..start - 1] + [SLASH] + pointer[start..end];
      tokens := tokens + [decoded];
      if end == |pointer| {
        assert pointer[..end] == pointer;
        return Tokens(tokens);
      }
      start := end + 1;
    }
  }

  lemma NotJoined(tokens: seq<Bytes>, pointer: Bytes, start: nat, end: nat)
    requires 1 <= start <= end <= |pointer| && pointer[start - 1] == SLASH && Join(tokens) == pointer[..start - 1]
    requires SLASH !in pointer[start..end] && (end < |pointer| ==> pointer[end] == SLASH)
    requires forall t :: Escape(t) != pointer[start..end]
    ensures forall ts :: Join(ts) != pointer
  {
    hide Join, Escape;
    assert pointer == pointer[..start - 1] + ([SLASH] + pointer[start..end] + pointer[end..]);
    forall ts ensures Join(ts) != pointer {
      if Join(ts) == pointer { TokenBetween(ts, tokens, pointer[start..end], pointer[end..]); }
    }
  }

  lemma {:induction false} JoinAppend(ts: seq<Bytes>, t: Bytes)
    ensures Join(ts + [t]) == Join(ts) + [SLASH] + Escape(t)
    decreases |ts|
  {
    if ts != [] {
      assert (ts + [t])[1..] == ts[1..] + [t] && (ts + [t])[0] == ts[0];
      JoinAppend(ts[1..], t);
    } else {
      assert (ts + [t])[1..] == [];
      assert Join([t]) == [SLASH] + Escape(t) + [];
    }
  }

  // The text between two slashes of a joined list is one of its escaped tokens.
  lemma {:induction false} TokenBetween(ts: seq<Bytes>, prefix: seq<Bytes>, mid: Bytes, tail: Bytes)
    requires Join(ts) == Join(prefix) + ([SLASH] + mid + tail)
    requires SLASH !in mid && (tail == [] || tail[0] == SLASH)
    ensures exists t :: Escape(t) == mid
    decreases |prefix|
  {
    var suffix := [SLASH] + mid + tail;
    assert Join(ts) != [] by { assert |suffix| > 0; }
    SplitJoin(ts);
    if prefix == [] {
      assert Join(prefix) + suffix == suffix;
      DropHead([SLASH] + mid, tail);
      SameFirstToken(Escape(ts[0]), Join(ts[1..]), mid, tail);
    } else {
      SplitJoin(prefix);
      DropHead(Join(prefix), suffix);
      var e, more := Escape(prefix[0]), Join(prefix[1..]);
      Associate(e, more, suffix);
      assert suffix[0] == SLASH;
      SameFirstToken(Escape(ts[0]), Join(ts[1..]), e, more + suffix);
      TokenBetween(ts[1..], prefix[1..], mid, tail);
    }
  }

  lemma DropHead(p: Bytes, q: Bytes)
    requires p != []
    ensures (p + q)[1..] == p[1..] + q
  {
  }

  lemma Associate(a: Bytes, b: Bytes, c: Bytes)
    ensures (a + b) + c == a + (b + c)
  {
  }
}
