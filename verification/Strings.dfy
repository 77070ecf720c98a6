// String bodies: what the printer writes between the quotes and what the
// decoders read back (section 7 of RFC 8259).

module Strings {
  import opened JsonValue
  import opened Utf8

  const QUOTE: Byte := '\"' as int
  const BACKSLASH: Byte := '\\' as int
  const LETTER_U: Byte := 'u' as int

  // Emitted text, up to the first fault if there is one.
  datatype Fault = NoFault | InvalidUtf8 | InvalidNumber | TooWide
  datatype Emission = Emission(text: Bytes, fault: Fault)

  const SILENT := Emission([], NoFault)

  function Emit(text: Bytes): Emission {
    Emission(text, NoFault)
  }

  function Then(a: Emission, b: Emission): Emission {
    if a.fault != NoFault then a else Emission(a.text + b.text, b.fault)
  }

  lemma ThenAssociative(a: Emission, b: Emission, c: Emission)
    ensures Then(Then(a, b), c) == Then(a, Then(b, c))
  {
    assert a.text + b.text + c.text == a.text + (b.text + c.text);
  }

  lemma ThenSilent(a: Emission)
    ensures Then(a, SILENT) == a && Then(SILENT, a) == a
  {
    assert a.text + [] == a.text && [] + a.text == a.text;
  }

  // ---- Hexadecimal ----

  function HexDigit(v: nat): (b: Byte)
    requires v < 16
    ensures HexValue(b) == Some(v)
  {
    if v < 10 then '0' as int + v else 'a' as int + (v - 10)
  }

  function HexValue(b: Byte): (v: Option<nat>)
    ensures v.Some? ==> v.value < 16
  {
    if '0' as int <= b <= '9' as int then Some(b - '0' as int)
    else if 'a' as int <= b <= 'f' as int then Some(b - 'a' as int + 10)
    else if 'A' as int <= b <= 'F' as int then Some(b - 'A' as int + 10)
    else None
  }

  // \uXXXX
  function UnicodeEscape(v: nat): (b: Bytes)
    requires v < 0x10000
    ensures |b| == 6
  {
    [BACKSLASH, LETTER_U, HexDigit(v / 0x1000), HexDigit(v / 0x100 % 16), HexDigit(v / 16 % 16), HexDigit(v % 16)]
  }

  // The value of the first n hexadecimal digits.
  function HexPrefix(s: Bytes, n: nat): (v: Option<nat>)
    requires n <= |s|
    decreases n
  {
    if n == 0 then Some(0)
    else match (HexPrefix(s, n - 1), HexValue(s[n - 1]))
      case (Some(v), Some(d)) => Some(v * 16 + d)
      case _ => None
  }

  function Hex4(s: Bytes): (v: Option<nat>)
    requires |s| >= 4
    ensures v.Some? ==> v.value < 0x10000
  {
    HexFour(s);
    HexPrefix(s, 4)
  }

  lemma HexFour(s: Bytes)
    requires |s| >= 4
    ensures HexPrefix(s, 4).Some? <==>
      HexValue(s[0]).Some? && HexValue(s[1]).Some? && HexValue(s[2]).Some? && HexValue(s[3]).Some?
    ensures HexPrefix(s, 4).Some? ==>
      HexPrefix(s, 4).value
        == ((HexValue(s[0]).value * 16 + HexValue(s[1]).value) * 16 + HexValue(s[2]).value) * 16 + HexValue(s[3]).value
  {
    assert HexPrefix(s, 0) == Some(0);
    assert HexPrefix(s, 1) == HexValue(s[0]);
    assert HexPrefix(s, 2).Some? ==> HexPrefix(s, 2).value == HexValue(s[0]).value * 16 + HexValue(s[1]).value;
    assert HexPrefix(s, 3).Some? ==>
      HexPrefix(s, 3).value == (HexValue(s[0]).value * 16 + HexValue(s[1]).value) * 16 + HexValue(s[2]).value;
  }

  lemma HexSplit(v: nat)
    requires v < 0x10000
    ensures v / 0x1000 < 16
    ensures ((v / 0x1000 * 16 + v / 0x100 % 16) * 16 + v / 16 % 16) * 16 + v % 16 == v
  {
    assert v / 0x100 == v / 16 / 16 && v / 0x1000 == v / 0x100 / 16;
  }

  lemma EscapeReadsBack(v: nat, rest: Bytes)
    requires v < 0x10000
    ensures var s := UnicodeEscape(v) + rest;
            s[0] == BACKSLASH && s[1] == LETTER_U && |s[2..]| >= 4 && Hex4(s[2..]) == Some(v) && s[6..] == rest
  {
    hide HexPrefix, HexDigit, HexValue;
    var s := UnicodeEscape(v) + rest;
    HexSplit(v);
    var t := s[2..];
    assert t[0] == UnicodeEscape(v)[2] && t[1] == UnicodeEscape(v)[3] && t[2] == UnicodeEscape(v)[4]
      && t[3] == UnicodeEscape(v)[5];
    HexFour(t);
  }

  // ---- Decoding ----

  datatype Piece = Closed | Piece(text: Bytes, used: nat) | BadPiece

  // The characters that may follow a backslash alone, and what they stand for.
  function ShortEscape(b: Byte): (c: Option<Byte>) {
    if b == QUOTE || b == BACKSLASH || b == '/' as int then Some(b)
    else if b == 'b' as int then Some(8)
    else if b == 'f' as int then Some(12)
    else if b == 'n' as int then Some(10)
    else if b == 'r' as int then Some(13)
    else if b == 't' as int then Some(9)
    else None
  }

  predicate HighSurrogate(v: nat) {
    0xD800 <= v <= 0xDBFF
  }

  predicate LowSurrogate(v: nat) {
    0xDC00 <= v <= 0xDFFF
  }

  function Paired(high: nat, low: nat): (cp: nat)
    requires HighSurrogate(high) && LowSurrogate(low)
    ensures Scalar(cp) && cp >= 0x10000
  {
    0x10000 + (high - 0xD800) * 0x400 + (low - 0xDC00)
  }

  // s starts with \uXXXX naming a low surrogate.
  function LowEscape(s: Bytes): (low: Option<nat>)
    ensures low.Some? ==> LowSurrogate(low.value)
  {
    if |s| >= 6 && s[0] == BACKSLASH && s[1] == LETTER_U then
      match Hex4(s[2..])
      case Some(v) => if LowSurrogate(v) then Some(v) else None
      case None => None
    else None
  }

  function UnicodePiece(s: Bytes): (p: Piece)
    requires |s| >= 2
    ensures p.Piece? ==> 0 < p.used <= |s|
  {
    if |s| < 6 then BadPiece
    else match Hex4(s[2..])
      case None => BadPiece
      case Some(v) =>
        if HighSurrogate(v) then
          match LowEscape(s[6..])
          case None => BadPiece
          case Some(low) => Piece(Encode(Paired(v, low)), 12)
        else if LowSurrogate(v) then BadPiece
        else Piece(Encode(v), 6)
  }

  // The first piece of a string body.
  function NextPiece(s: Bytes): (p: Piece)
    requires s != []
    ensures p.Piece? ==> 0 < p.used <= |s|
  {
    if s[0] == QUOTE then Closed
    else if s[0] == BACKSLASH then
      if |s| < 2 then BadPiece
      else if s[1] == LETTER_U then UnicodePiece(s)
      else match ShortEscape(s[1])
        case Some(c) => Piece([c], 2)
        case None => BadPiece
    else if s[0] < 0x20 then BadPiece
    else if s[0] >= 0x80 then
      if CharLen(s) == 0 then BadPiece else Piece(s[..CharLen(s)], CharLen(s))
    else Piece([s[0]], 1)
  }

  datatype Body = Body(text: Bytes, rest: Bytes) | NoBody

  // Decodes up to and including the closing quote.
  function Decode(s: Bytes): (r: Body)
    ensures r.Body? ==> |r.rest| < |s|
    decreases |s|
  {
    if s == [] then NoBody
    else match NextPiece(s)
      case Closed => Body([], s[1..])
      case BadPiece => NoBody
      case Piece(text, used) => Prepend(text, Decode(s[used..]))
  }

  function Prepend(text: Bytes, r: Body): Body {
    match r
    case NoBody => NoBody
    case Body(t, rest) => Body(text + t, rest)
  }

  lemma PrependTwice(a: Bytes, b: Bytes, r: Body)
    ensures Prepend(a, Prepend(b, r)) == Prepend(a + b, r)
    ensures Prepend([], r) == r
  {
    if r.Body? {
      assert a + (b + r.text) == a + b + r.text;
      assert [] + r.text == r.text;
    }
  }

  lemma PieceIsValid(s: Bytes)
    requires s != [] && NextPiece(s).Piece?
    ensures ValidUtf8(NextPiece(s).text)
  {
    if s[0] == BACKSLASH {
      if s[1] == LETTER_U {
        var v := Hex4(s[2..]).value;
        if HighSurrogate(v) { ValidChar(Paired(v, LowEscape(s[6..]).value)); } else { ValidChar(v); }
      } else {
        var c := ShortEscape(s[1]).value;
        ValidChar(c);
        assert Encode(c) == [c];
      }
    } else if s[0] >= 0x80 {
      AcceptedIsEncoded(s);
      ValidChar(CharAt(s));
    } else {
      ValidChar(s[0]);
      assert Encode(s[0]) == [s[0]];
    }
  }

  // Whatever is decoded is valid UTF-8.
  lemma {:induction false} DecodedIsValid(s: Bytes)
    ensures Decode(s).Body? ==> ValidUtf8(Decode(s).text)
    decreases |s|
  {
    if s != [] && NextPiece(s).Piece? && Decode(s).Body? {
      var p := NextPiece(s);
      DecodedIsValid(s[p.used..]);
      PieceIsValid(s);
      ValidAppend(p.text, Decode(s[p.used..]).text);
    }
  }

  // ---- Escaping ----

  // The escape letter of a character that has a two-byte escape.
  function EscapeLetter(b: Byte): (c: Option<Byte>)
    ensures c.Some? ==> ShortEscape(c.value) == Some(b) && c.value != LETTER_U
  {
    if b == QUOTE || b == BACKSLASH then Some(b)
    else if b == 8 then Some('b' as int)
    else if b == 12 then Some('f' as int)
    else if b == 10 then Some('n' as int)
    else if b == 13 then Some('r' as int)
    else if b == 9 then Some('t' as int)
    else None
  }

  function EscapeChar(cp: nat): Bytes
    requires Scalar(cp)
  {
    if cp <= 0xFFFF then UnicodeEscape(cp)
    else UnicodeEscape(0xD800 + (cp - 0x10000) / 0x400) + UnicodeEscape(0xDC00 + (cp - 0x10000) % 0x400)
  }

  // What is written for the first character of s, and its length in s.
  datatype Written = Written(text: Bytes, used: nat) | Unwritable

  function EscapeFirst(s: Bytes, escapeNonAscii: bool): (w: Written)
    requires s != []
    ensures w.Written? ==> 0 < w.used <= |s|
  {
    if EscapeLetter(s[0]).Some? then Written([BACKSLASH, EscapeLetter(s[0]).value], 1)
    else if s[0] < 0x20 then Written(UnicodeEscape(s[0]), 1)
    else if s[0] < 0x80 then Written([s[0]], 1)
    else if CharLen(s) == 0 then Unwritable
    else if !escapeNonAscii then Written(s[..CharLen(s)], CharLen(s))
    else Written(EscapeChar(CharAt(s)), CharLen(s))
  }

  function Escaped(s: Bytes, escapeNonAscii: bool): (e: Emission)
    decreases |s|
  {
    if s == [] then SILENT
    else match EscapeFirst(s, escapeNonAscii)
      case Unwritable => Emission([], InvalidUtf8)
      case Written(text, used) => Then(Emit(text), Escaped(s[used..], escapeNonAscii))
  }

  lemma EscapeCharReads(cp: nat, rest: Bytes)
    requires Scalar(cp)
    ensures var s := EscapeChar(cp) + rest;
            && s != [] && s[0] == BACKSLASH
            && NextPiece(s) == Piece(Encode(cp), |EscapeChar(cp)|) && s[|EscapeChar(cp)|..] == rest
  {
    hide Hex4, UnicodeEscape, Encode, CharLen, ShortEscape;
    var s := EscapeChar(cp) + rest;
    if cp <= 0xFFFF {
      EscapeReadsBack(cp, rest);
    } else {
      var high, low := 0xD800 + (cp - 0x10000) / 0x400, 0xDC00 + (cp - 0x10000) % 0x400;
      var tail := UnicodeEscape(low) + rest;
      assert s == UnicodeEscape(high) + tail;
      EscapeReadsBack(high, tail);
      EscapeReadsBack(low, rest);
      assert LowEscape(s[6..]) == Some(low);
      assert Paired(high, low) == cp;
      assert s[12..] == tail[6..];
    }
  }

  lemma AsciiChar(s: Bytes)
    requires s != [] && s[0] < 0x80
    ensures Encode(s[0]) == [s[0]] == s[..1] && CharLen(s) == 1
  {
    EncodedIsAccepted(s[0], s[1..]);
    assert s == Encode(s[0]) + s[1..];
  }

  lemma RawReadsBack(s: Bytes, rest: Bytes)
    requires s != [] && s[0] >= 0x80 && CharLen(s) > 0
    ensures var n := CharLen(s); var t := s[..n] + rest;
            t != [] && NextPiece(t) == Piece(s[..n], n) && t[n..] == rest
  {
    hide LeadOf, Payload;
    var n := CharLen(s);
    AcceptedIsEncoded(s);
    EncodedIsAccepted(CharAt(s), rest);
    var t := s[..n] + rest;
    assert t[..n] == s[..n] && t[0] == s[0];
  }

  // Reading back the first character written.
  lemma FirstReadsBack(s: Bytes, escapeNonAscii: bool, rest: Bytes)
    requires s != [] && EscapeFirst(s, escapeNonAscii).Written?
    ensures var w := EscapeFirst(s, escapeNonAscii);
            var t := w.text + rest;
            && t != [] && NextPiece(t) == Piece(s[..w.used], |w.text|) && t[|w.text|..] == rest
            && CharLen(s) == w.used
  {
    hide CharLen, Encode, EscapeChar, UnicodePiece;
    var w := EscapeFirst(s, escapeNonAscii);
    var t := w.text + rest;
    if s[0] < 0x80 {
      AsciiChar(s);
      if EscapeLetter(s[0]).Some? {
        assert t[0] == BACKSLASH && t[1] == EscapeLetter(s[0]).value;
      } else if s[0] < 0x20 {
        SmallEscape(s[0]);
        EscapeCharReads(s[0], rest);
      } else {
        assert t[0] == s[0];
      }
    } else if !escapeNonAscii {
      RawReadsBack(s, rest);
    } else {
      AcceptedIsEncoded(s);
      EscapeCharReads(CharAt(s), rest);
    }
  }

  lemma SmallEscape(v: nat)
    requires v < 0x20
    ensures EscapeChar(v) == UnicodeEscape(v)
  {
  }

  lemma FirstIsChar(s: Bytes, escapeNonAscii: bool)
    requires s != []
    ensures EscapeFirst(s, escapeNonAscii).Unwritable? <==> CharLen(s) == 0
  {
    if s[0] < 0x80 { AsciiChar(s); }
  }

  // Escaping then decoding is the identity, whichever escapes are used; and
  // only invalid UTF-8 cannot be written.
  lemma {:induction false} EscapeThenDecode(s: Bytes, escapeNonAscii: bool, rest: Bytes)
    ensures var e := Escaped(s, escapeNonAscii);
            && (e.fault == NoFault || e.fault == InvalidUtf8)
            && (e.fault == NoFault <==> ValidUtf8(s))
            && (e.fault == NoFault ==> Decode(e.text + [QUOTE] + rest) == Body(s, rest))
    decreases |s|
  {
    hide NextPiece, CharLen, EscapeFirst;
    var e := Escaped(s, escapeNonAscii);
    if s == [] {
      CloseQuote(rest);
      assert e.text + [QUOTE] + rest == [QUOTE] + rest;
    } else {
      FirstIsChar(s, escapeNonAscii);
      match EscapeFirst(s, escapeNonAscii) {
        case Unwritable =>
        case Written(text, used) =>
          var e' := Escaped(s[used..], escapeNonAscii);
          EscapeThenDecode(s[used..], escapeNonAscii, rest);
          var tail := e'.text + [QUOTE] + rest;
          FirstReadsBack(s, escapeNonAscii, tail);
          assert e.fault == NoFault ==> e.text + [QUOTE] + rest == text + tail;
          assert s == s[..used] + s[used..];
      }
    }
  }

  lemma CloseQuote(rest: Bytes)
    ensures Decode([QUOTE] + rest) == Body([], rest)
  {
    assert ([QUOTE] + rest)[1..] == rest;
  }
}
