// The grammar of RFC 8259, sections 2 to 7, as syntax trees and the texts they
// stand for; and that the parse recognizes exactly those of its texts whose
// surrogate escapes are paired.

module Syntax {
  import opened JsonValue
  import opened Pointer
  import opened Utf8
  import opened Strings
  import opened NumberText
  import opened Grammar

  // ---- Syntax trees ----

  // One char of section 7: as itself, after a backslash, or as four hexadecimal
  // digits, whatever their value.
  datatype Unit = Plain(cp: nat) | Short(letter: Byte) | Hex(digits: Bytes)

  datatype Exponent = NoExponent | Exponent(mark: Byte, sign: Bytes, digits: Bytes)

  datatype Cst =
    | CNull | CTrue | CFalse
    | CNumber(minus: bool, integer: Bytes, fraction: Bytes, exponent: Exponent)
    | CString(units: seq<Unit>)
    | CArray(blank: Bytes, elements: seq<Element>)
    | CObject(blank: Bytes, entries: seq<Entry>)
  datatype Element = Element(before: Bytes, value: Cst, after: Bytes)
  datatype Entry = Entry(before: Bytes, key: seq<Unit>, mid: Bytes, gap: Bytes, value: Cst, after: Bytes)

  predicate White(s: Bytes) {
    forall i :: 0 <= i < |s| ==> IsSpace(s[i])
  }

  // ---- Well-formedness ----

  predicate FourHex(s: Bytes) {
    |s| == 4 && Hex4(s).Some?
  }

  predicate UnitOk(u: Unit) {
    match u
    case Plain(cp) => Scalar(cp) && cp >= 0x20 && cp != QUOTE && cp != BACKSLASH
    case Short(letter) => letter != LETTER_U && ShortEscape(letter).Some?
    case Hex(digits) => FourHex(digits)
  }

  predicate UnitsOk(us: seq<Unit>) {
    forall i :: 0 <= i < |us| ==> UnitOk(us[i])
  }

  predicate Digits(s: Bytes) {
    s != [] && AllDigits(s)
  }

  predicate ExponentOk(e: Exponent) {
    e.Exponent? ==> IsE(e.mark) && (e.sign == [] || e.sign == [PLUS] || e.sign == [MINUS]) && Digits(e.digits)
  }

  predicate Wf(c: Cst)
    decreases c
  {
    match c
    case CNumber(_, integer, fraction, exponent) =>
      Digits(integer) && (integer[0] == ZERO ==> |integer| == 1) && AllDigits(fraction) && ExponentOk(exponent)
    case CString(units) => UnitsOk(units)
    case CArray(blank, elements) =>
      && White(blank)
      && forall i :: 0 <= i < |elements| ==>
        White(elements[i].before) && Wf(elements[i].value) && White(elements[i].after)
    case CObject(blank, entries) =>
      && White(blank)
      && forall i :: 0 <= i < |entries| ==>
           && White(entries[i].before) && UnitsOk(entries[i].key) && White(entries[i].mid) && White(entries[i].gap)
           && Wf(entries[i].value) && White(entries[i].after)
    case _ => true
  }

  // ---- Texts, each followed by what comes next ----

  function UnitText(u: Unit): Bytes
    requires UnitOk(u)
  {
    match u
    case Plain(cp) => Encode(cp)
    case Short(letter) => [BACKSLASH, letter]
    case Hex(digits) => [BACKSLASH, LETTER_U] + digits
  }

  function UnitsThen(us: seq<Unit>, rest: Bytes): Bytes
    requires UnitsOk(us)
    decreases |us|
  {
    if us == [] then rest else UnitText(us[0]) + UnitsThen(us[1..], rest)
  }

  function StringThen(us: seq<Unit>, rest: Bytes): Bytes
    requires UnitsOk(us)
  {
    [QUOTE] + UnitsThen(us, [QUOTE] + rest)
  }

  function FractionThen(fraction: Bytes, rest: Bytes): Bytes {
    if fraction == [] then rest else [DOT] + (fraction + rest)
  }

  function ExponentThen(e: Exponent, rest: Bytes): Bytes {
    match e
    case NoExponent => rest
    case Exponent(mark, sign, digits) => [mark] + (sign + (digits + rest))
  }

  function NumberThen(c: Cst, rest: Bytes): Bytes
    requires c.CNumber?
  {
    (if c.minus then [MINUS] else []) + (c.integer + FractionThen(c.fraction, ExponentThen(c.exponent, rest)))
  }

  function TextThen(c: Cst, rest: Bytes): Bytes
    requires Wf(c)
    decreases c
  {
    match c
    case CNull => NULL_WORD + rest
    case CTrue => TRUE_WORD + rest
    case CFalse => FALSE_WORD + rest
    case CNumber(_, _, _, _) => NumberThen(c, rest)
    case CString(units) => StringThen(units, rest)
    case CArray(blank, elements) =>
      [OPEN_BRACKET]
        + (if elements == [] then blank + ([CLOSE_BRACKET] + rest) else ElementsThen(elements, [CLOSE_BRACKET] + rest))
    case CObject(blank, entries) =>
      [OPEN_BRACE]
        + (if entries == [] then blank + ([CLOSE_BRACE] + rest) else EntriesThen(entries, [CLOSE_BRACE] + rest))
  }

  predicate ElementsOk(es: seq<Element>) {
    forall i :: 0 <= i < |es| ==> White(es[i].before) && Wf(es[i].value) && White(es[i].after)
  }

  function ElementsThen(es: seq<Element>, rest: Bytes): Bytes
    requires es != [] && ElementsOk(es)
    decreases es
  {
    var tail := if |es| == 1 then rest else [COMMA] + ElementsThen(es[1..], rest);
    es[0].before + TextThen(es[0].value, es[0].after + tail)
  }

  predicate EntriesOk(es: seq<Entry>) {
    forall i :: 0 <= i < |es| ==>
      && White(es[i].before) && UnitsOk(es[i].key) && White(es[i].mid) && White(es[i].gap)
      && Wf(es[i].value) && White(es[i].after)
  }

  function EntriesThen(es: seq<Entry>, rest: Bytes): Bytes
    requires es != [] && EntriesOk(es)
    decreases es
  {
    var tail := if |es| == 1 then rest else [COMMA] + EntriesThen(es[1..], rest);
    es[0].before
      + StringThen(es[0].key, es[0].mid + ([COLON] + (es[0].gap + TextThen(es[0].value, es[0].after + tail))))
  }

  // ---- Surrogate escapes ----

  predicate HighUnit(u: Unit) {
    u.Hex? && FourHex(u.digits) && HighSurrogate(Hex4(u.digits).value)
  }

  predicate LowUnit(u: Unit) {
    u.Hex? && FourHex(u.digits) && LowSurrogate(Hex4(u.digits).value)
  }

  // Each high surrogate is followed by a low one, each low one follows a high one.
  predicate SurrogatesPaired(us: seq<Unit>) {
    forall i: nat :: i < |us| ==> PairedAt(us, i)
  }

  predicate PairedAt(us: seq<Unit>, i: nat)
    requires i < |us|
  {
    && (HighUnit(us[i]) ==> i + 1 < |us| && LowUnit(us[i + 1]))
    && (LowUnit(us[i]) ==> i > 0 && HighUnit(us[i - 1]))
  }

  // In every string and every name.
  predicate AllPaired(c: Cst)
    decreases c
  {
    match c
    case CString(units) => SurrogatesPaired(units)
    case CArray(_, es) => forall i :: 0 <= i < |es| ==> AllPaired(es[i].value)
    case CObject(_, es) => forall i :: 0 <= i < |es| ==> SurrogatesPaired(es[i].key) && AllPaired(es[i].value)
    case _ => true
  }

  // ---- Meanings ----

  function UnitMeaning(u: Unit): Bytes
    requires UnitOk(u)
  {
    match u
    case Plain(cp) => Encode(cp)
    case Short(letter) => [ShortEscape(letter).value]
    case Hex(digits) => Encode(Hex4(digits).value)
  }

  // A pair of surrogate escapes stands for one character.
  function UnitsMeaning(us: seq<Unit>): Bytes
    requires UnitsOk(us)
    decreases |us|
  {
    if us == [] then []
    else if |us| > 1 && HighUnit(us[0]) && LowUnit(us[1]) then
      Encode(Paired(Hex4(us[0].digits).value, Hex4(us[1].digits).value)) + UnitsMeaning(us[2..])
    else UnitMeaning(us[0]) + UnitsMeaning(us[1..])
  }

  function RawOf(c: Cst): Raw
    requires Wf(c)
    decreases c
  {
    match c
    case CNull => RNull
    case CTrue => RBool(true)
    case CFalse => RBool(false)
    case CNumber(_, _, fraction, exponent) => RNumber(NumberThen(c, []), fraction != [] || exponent.Exponent?)
    case CString(units) => RString(UnitsMeaning(units))
    case CArray(_, es) => RArray(seq(|es|, i requires 0 <= i < |es| => RawOf(es[i].value)))
    case CObject(_, es) =>
      RObject(seq(|es|, i requires 0 <= i < |es| => Member(UnitsMeaning(es[i].key), RawOf(es[i].value))))
  }

  // ---- Reading strings ----

  lemma HexReads(digits: Bytes, rest: Bytes)
    requires FourHex(digits)
    ensures var s := [BACKSLASH, LETTER_U] + digits + rest;
            |s| >= 6 && s[0] == BACKSLASH && s[1] == LETTER_U && Hex4(s[2..]) == Hex4(digits) && s[6..] == rest
  {
    hide HexPrefix, HexValue;
    var s := [BACKSLASH, LETTER_U] + digits + rest;
    var t := s[2..];
    assert t[0] == digits[0] && t[1] == digits[1] && t[2] == digits[2] && t[3] == digits[3];
    HexFour(t);
    HexFour(digits);
  }

  lemma PlainReads(cp: nat, rest: Bytes)
    requires UnitOk(Plain(cp))
    ensures var s := Encode(cp) + rest;
            s != [] && NextPiece(s) == Piece(Encode(cp), |Encode(cp)|) && s[|Encode(cp)|..] == rest
  {
    hide LeadOf, Payload;
    var s := Encode(cp) + rest;
    EncodedIsAccepted(cp, rest);
    assert s[0] == Encode(cp)[0] && s[..|Encode(cp)|] == Encode(cp);
  }

  lemma UnitReads(u: Unit, rest: Bytes)
    requires UnitOk(u) && !HighUnit(u) && !LowUnit(u)
    ensures var s := UnitText(u) + rest;
            s != [] && NextPiece(s) == Piece(UnitMeaning(u), |UnitText(u)|) && s[|UnitText(u)|..] == rest
  {
    hide Hex4, Encode, CharLen;
    var s := UnitText(u) + rest;
    match u
    case Plain(cp) => PlainReads(cp, rest);
    case Short(letter) => assert s[0] == BACKSLASH && s[1] == letter;
    case Hex(digits) => HexReads(digits, rest);
  }

  lemma PairReads(high: Unit, low: Unit, rest: Bytes)
    requires HighUnit(high) && LowUnit(low)
    ensures var s := UnitText(high) + (UnitText(low) + rest);
            && s != [] && |s| >= 12 && s[12..] == rest
            && NextPiece(s) == Piece(Encode(Paired(Hex4(high.digits).value, Hex4(low.digits).value)), 12)
  {
    hide Hex4, Encode, CharLen;
    var tail := [BACKSLASH, LETTER_U] + low.digits + rest;
    var s := UnitText(high) + (UnitText(low) + rest);
    assert s == [BACKSLASH, LETTER_U] + high.digits + tail;
    HexReads(high.digits, tail);
    HexReads(low.digits, rest);
    assert s[12..] == tail[6..];
  }

  lemma LowUnitFails(u: Unit, rest: Bytes)
    requires LowUnit(u)
    ensures var s := UnitText(u) + rest; s != [] && NextPiece(s) == BadPiece
  {
    hide Hex4, Encode, CharLen;
    HexReads(u.digits, rest);
  }

  // A high surrogate is rejected unless an escaped low one follows.
  lemma HighUnitFails(u: Unit, rest: Bytes)
    requires HighUnit(u) && LowEscape(rest) == None
    ensures var s := UnitText(u) + rest; s != [] && NextPiece(s) == BadPiece
  {
    hide Hex4, Encode, CharLen, LowEscape;
    HexReads(u.digits, rest);
  }

  lemma NotLow(us: seq<Unit>, rest: Bytes)
    requires UnitsOk(us) && (us == [] || !LowUnit(us[0]))
    ensures LowEscape(UnitsThen(us, [QUOTE] + rest)) == None
  {
    hide Hex4, Encode, CharLen;
    if us != [] {
      var tail := UnitsThen(us[1..], [QUOTE] + rest);
      match us[0]
      case Plain(cp) => PlainFirst(cp, tail);
      case Short(letter) =>
      case Hex(digits) => HexReads(digits, tail);
    }
  }

  lemma PlainFirst(cp: nat, rest: Bytes)
    requires UnitOk(Plain(cp))
    ensures Encode(cp) + rest != [] && (Encode(cp) + rest)[0] != BACKSLASH
  {
    assert (Encode(cp) + rest)[0] == Encode(cp)[0];
  }

  lemma NotBoth(u: Unit)
    ensures !(HighUnit(u) && LowUnit(u))
  {
  }

  // The pairing of what follows the first unit, or the first pair.
  lemma PairedTail(us: seq<Unit>)
    requires us != []
    ensures !HighUnit(us[0]) && !LowUnit(us[0]) ==> (SurrogatesPaired(us) <==> SurrogatesPaired(us[1..]))
    ensures |us| > 1 && HighUnit(us[0]) && LowUnit(us[1]) ==> (SurrogatesPaired(us) <==> SurrogatesPaired(us[2..]))
  {
    hide HighUnit, LowUnit, SurrogatesPaired;
    NotBoth(us[0]);
    if |us| > 1 && HighUnit(us[0]) && LowUnit(us[1]) {
      NotBoth(us[1]);
      PairedDrop(us, 2);
    } else if !HighUnit(us[0]) && !LowUnit(us[0]) {
      PairedDrop(us, 1);
    }
  }

  lemma PairedDrop(us: seq<Unit>, n: nat)
    requires 0 < n <= |us| && !HighUnit(us[n - 1]) && forall i :: 0 <= i < n ==> PairedAt(us, i)
    ensures SurrogatesPaired(us) <==> SurrogatesPaired(us[n..])
  {
    hide HighUnit, LowUnit;
    var more := us[n..];
    forall j: nat | j < |more| && (j > 0 || !LowUnit(more[0]))
      ensures PairedAt(more, j) <==> PairedAt(us, n + j)
    {
      assert more[j] == us[n + j] && (j > 0 ==> more[j - 1] == us[n + j - 1]);
      assert j + 1 < |more| ==> more[j + 1] == us[n + j + 1];
    }
    if SurrogatesPaired(us) {
      assert more != [] ==> more[0] == us[n] && PairedAt(us, n);
      forall j: nat | j < |more| ensures PairedAt(more, j) {
        assert PairedAt(us, n + j);
      }
    }
    if SurrogatesPaired(more) {
      assert more != [] ==> PairedAt(more, 0);
      forall i: nat | i < |us| ensures PairedAt(us, i) {
        if i >= n {
          assert PairedAt(more, i - n);
        }
      }
    }
  }

  lemma {:induction false} UnitsRead(us: seq<Unit>, rest: Bytes)
    requires UnitsOk(us)
    ensures Decode(UnitsThen(us, [QUOTE] + rest))
      == if SurrogatesPaired(us) then Body(UnitsMeaning(us), rest) else NoBody
    decreases |us|
  {
    hide NextPiece, UnitText, UnitMeaning, HighUnit, LowUnit, SurrogatesPaired, FourHex, Hex4, Encode, Paired, UnitOk;
    if us == [] {
      CloseQuote(rest);
      NoUnits();
      return;
    }
    FirstUnit(us);
    PairedTail(us);
    if HighUnit(us[0]) {
      if |us| > 1 && LowUnit(us[1]) {
        assert us[1..][1..] == us[2..];
        PairReads(us[0], us[1], UnitsThen(us[2..], [QUOTE] + rest));
        UnitsRead(us[2..], rest);
      } else {
        NotLow(us[1..], rest);
        HighUnitFails(us[0], UnitsThen(us[1..], [QUOTE] + rest));
      }
    } else if LowUnit(us[0]) {
      LowUnitFails(us[0], UnitsThen(us[1..], [QUOTE] + rest));
    } else {
      UnitReads(us[0], UnitsThen(us[1..], [QUOTE] + rest));
      UnitsRead(us[1..], rest);
    }
  }

  lemma NoUnits()
    ensures SurrogatesPaired([])
  {
  }

  lemma FirstUnit(us: seq<Unit>)
    requires us != []
    ensures HighUnit(us[0]) ==> !LowUnit(us[0])
    ensures HighUnit(us[0]) && !(|us| > 1 && LowUnit(us[1])) ==> !SurrogatesPaired(us)
    ensures LowUnit(us[0]) ==> !SurrogatesPaired(us)
  {
    assert SurrogatesPaired(us) ==> PairedAt(us, 0);
  }

  lemma StringReads(us: seq<Unit>, rest: Bytes)
    requires UnitsOk(us)
    ensures var s := StringThen(us, rest);
            && s != [] && s[0] == QUOTE
            && Decode(s[1..]) == if SurrogatesPaired(us) then Body(UnitsMeaning(us), rest) else NoBody
  {
    UnitsRead(us, rest);
    assert StringThen(us, rest)[1..] == UnitsThen(us, [QUOTE] + rest);
  }

  // ---- Reading numbers ----

  // What may follow a number: nothing that would make the token longer.
  predicate EndsNumber(rest: Bytes) {
    rest == [] || (!IsDigit(rest[0]) && rest[0] != DOT && !IsE(rest[0]))
  }

  lemma DigitsRead(d: Bytes, rest: Bytes)
    requires AllDigits(d) && (rest == [] || !IsDigit(rest[0]))
    ensures DigitRun(d + rest) == |d|
  {
    var s := d + rest;
    assert s[..|d|] == d;
    DigitRunIs(s, |d|);
  }

  lemma ExponentReads(e: Exponent, rest: Bytes)
    requires ExponentOk(e) && EndsNumber(rest)
    ensures ExponentLength(ExponentThen(e, rest)) == Some(|ExponentThen(e, rest)| - |rest|)
    ensures e.Exponent? ==> !IsDigit(ExponentThen(e, rest)[0]) && ExponentThen(e, rest)[0] != DOT
  {
    hide DigitRun, AllDigits;
    if e.Exponent? {
      var s := ExponentThen(e, rest);
      ExponentParts(e, rest);
      DigitsRead(e.digits, rest);
      hide ExponentThen;
      assert DigitRun(s[ExponentStart(s)..]) == |e.digits|;
    }
  }

  lemma ExponentParts(e: Exponent, rest: Bytes)
    requires ExponentOk(e) && e.Exponent?
    ensures var s := ExponentThen(e, rest);
            && s != [] && s[0] == e.mark
            && ExponentStart(s) == 1 + |e.sign|
            && s[ExponentStart(s)..] == e.digits + rest
            && |s| == 1 + |e.sign| + |e.digits| + |rest|
  {
    var s := ExponentThen(e, rest);
    if e.sign == [] {
      assert s[1] == e.digits[0];
      assert s[1..] == e.digits + rest;
    } else {
      assert s[1] == e.sign[0];
      assert s[2..] == e.digits + rest;
    }
  }

  lemma FractionReads(f: Bytes, rest: Bytes)
    requires AllDigits(f) && (rest == [] || (!IsDigit(rest[0]) && rest[0] != DOT))
    ensures FractionLength(FractionThen(f, rest)) == Some(if f == [] then 0 else 1 + |f|)
    ensures f != [] ==> !IsDigit(FractionThen(f, rest)[0]) && FractionThen(f, rest)[1 + |f|..] == rest
    ensures |FractionThen(f, rest)| == (if f == [] then 0 else 1 + |f|) + |rest|
  {
    if f != [] {
      DigitsRead(f, rest);
      var s := FractionThen(f, rest);
      assert s[1..] == f + rest;
      assert (f + rest)[|f|..] == rest;
      assert s[1 + |f|..] == s[1..][|f|..];
    }
  }

  lemma IntegerReads(d: Bytes, rest: Bytes)
    requires Digits(d) && (d[0] == ZERO ==> |d| == 1) && (rest == [] || !IsDigit(rest[0]))
    ensures IntegerLength(d + rest) == Some(|d|) && (d + rest)[|d|..] == rest
  {
    DigitsRead(d, rest);
  }

  lemma NumberOk(c: Cst)
    requires c.CNumber? && Wf(c)
    ensures ExponentOk(c.exponent) && AllDigits(c.fraction) && Digits(c.integer)
    ensures c.integer[0] == ZERO ==> |c.integer| == 1
    ensures IsDigit(c.integer[0])
  {
  }

  // Where the parts of a number token end, and what the scanner makes of it.
  lemma NumberScans(c: Cst, rest: Bytes)
    requires c.CNumber? && Wf(c) && EndsNumber(rest)
    ensures var s := NumberThen(c, rest);
            && s != [] && StartsNumber(s[0]) && |NumberThen(c, [])| <= |s|
            && var n := |NumberThen(c, [])|;
            ScanNumber(s) == Token(s[..n], c.fraction != [] || c.exponent.Exponent?, s[n..])
  {
    hide IntegerLength, FractionLength, ExponentLength, ScanNumber, ExponentThen, FractionThen, EndsNumber;
    hide Digits, AllDigits, ExponentOk;
    var e := ExponentThen(c.exponent, rest);
    var f := FractionThen(c.fraction, e);
    var sign: Bytes := if c.minus then [MINUS] else [];
    var m, k := if c.fraction == [] then 0 else 1 + |c.fraction|, |e| - |rest|;
    NumberParts(c, rest);
    NumberOk(c);
    hide Wf;
    NumberLength(c, rest);
    NumberIs(c, rest);
    hide NumberThen;
    ScanParts(NumberThen(c, rest), sign, c.integer, f, m, e, k);
  }

  // What the scanner finds part by part.
  lemma NumberParts(c: Cst, rest: Bytes)
    requires c.CNumber? && Wf(c) && EndsNumber(rest)
    ensures var e := ExponentThen(c.exponent, rest);
            var f, m := FractionThen(c.fraction, e), if c.fraction == [] then 0 else 1 + |c.fraction|;
            && |e| >= |rest| && (|e| > |rest| <==> c.exponent.Exponent?)
            && ExponentLength(e) == Some(|e| - |rest|)
            && FractionLength(f) == Some(m) && m <= |f| && f[m..] == e
            && IntegerLength(c.integer + f) == Some(|c.integer|)
            && c.integer[0] != MINUS && StartsNumber(c.integer[0])
  {
    hide DigitRun, IntegerLength, FractionLength, ExponentLength, ExponentThen, FractionThen, EndsNumber;
    NumberOk(c);
    hide Wf, Digits, AllDigits, ExponentOk;
    var e := ExponentThen(c.exponent, rest);
    ExponentReads(c.exponent, rest);
    ExponentEnds(c.exponent, rest);
    FractionReads(c.fraction, e);
    FractionEnds(c.fraction, e);
    IntegerReads(c.integer, FractionThen(c.fraction, e));
  }

  lemma NumberIs(c: Cst, rest: Bytes)
    requires c.CNumber?
    ensures var sign: Bytes := if c.minus then [MINUS] else [];
            NumberThen(c, rest) == sign + (c.integer + FractionThen(c.fraction, ExponentThen(c.exponent, rest)))
  {
  }

  lemma NumberReads(c: Cst, rest: Bytes)
    requires c.CNumber? && Wf(c) && EndsNumber(rest)
    ensures ScanNumber(NumberThen(c, rest)) == Token(NumberThen(c, []), c.fraction != [] || c.exponent.Exponent?, rest)
    ensures NumberThen(c, rest) != [] && StartsNumber(NumberThen(c, rest)[0])
  {
    hide ScanNumber, NumberThen, Wf, EndsNumber;
    NumberScans(c, rest);
    NumberPrefix(c, rest);
    TokenSplit(NumberThen(c, rest), NumberThen(c, []), rest, |NumberThen(c, [])|);
  }

  lemma TokenSplit(s: Bytes, text: Bytes, rest: Bytes, n: nat)
    requires s == text + rest && |text| == n
    ensures s[..n] == text && s[n..] == rest
  {
  }

  lemma ScanParts(s: Bytes, sign: Bytes, d: Bytes, f: Bytes, m: nat, e: Bytes, k: nat)
    requires s == sign + (d + f) && m <= |f| && f[m..] == e && d != [] && d[0] != MINUS
    requires (sign == [] || sign == [MINUS]) && k <= |e|
    requires IntegerLength(d + f) == Some(|d|) && FractionLength(f) == Some(m) && ExponentLength(e) == Some(k)
    ensures |sign| + |d| + m + k <= |s|
    ensures var n := |sign| + |d| + m + k;
            ScanNumber(s) == Token(s[..n], m > 0 || k > 0, s[n..])
    ensures s[0] == if sign == [] then d[0] else MINUS
  {
    hide IntegerLength, FractionLength, ExponentLength, ScanNumber, SignLength;
    Offsets(sign, d, f, m, e, s);
    ScanIs(s, |sign|, |d|, m, k);
  }

  // Where the parts of a number token start.
  lemma Offsets(sign: Bytes, d: Bytes, f: Bytes, m: nat, e: Bytes, s: Bytes)
    requires s == sign + (d + f) && m <= |f| && f[m..] == e && d != [] && d[0] != MINUS
    requires (sign == [] || sign == [MINUS])
    ensures s[|sign|..] == d + f && s[|sign| + |d|..] == f && s[|sign| + |d| + m..] == e
    ensures SignLength(s) == |sign|
    ensures s[0] == if sign == [] then d[0] else MINUS
  {
    SignAt(sign, d + f);
    hide SignLength;
    Drops(sign, d, f, m);
  }

  lemma Drops(a: Bytes, d: Bytes, f: Bytes, m: nat)
    requires m <= |f|
    ensures var s := a + (d + f);
            s[|a|..] == d + f && s[|a| + |d|..] == f && s[|a| + |d| + m..] == f[m..]
  {
    var s := a + (d + f);
    Dropped(a, d + f);
    Dropped(d, f);
    DropTwice(s, |a|, |d|);
    DropTwice(s, |a| + |d|, m);
  }

  lemma SignAt(sign: Bytes, t: Bytes)
    requires (sign == [] || sign == [MINUS]) && t != [] && t[0] != MINUS
    ensures SignLength(sign + t) == |sign| && (sign + t)[0] == if sign == [] then t[0] else MINUS
  {
  }

  lemma Dropped(a: Bytes, b: Bytes)
    ensures (a + b)[|a|..] == b
  {
  }

  lemma NumberLength(c: Cst, rest: Bytes)
    requires c.CNumber? && ExponentOk(c.exponent) && EndsNumber(rest)
    ensures var e := ExponentThen(c.exponent, rest);
            |NumberThen(c, [])|
              == (if c.minus then 1 else 0) + |c.integer| + (if c.fraction == [] then 0 else 1 + |c.fraction|)
                + (|e| - |rest|)
  {
  }

  lemma DropTwice(s: Bytes, i: nat, j: nat)
    requires i + j <= |s|
    ensures s[i..][j..] == s[i + j..]
  {
  }

  lemma ExponentEnds(e: Exponent, rest: Bytes)
    requires ExponentOk(e) && EndsNumber(rest)
    ensures var t := ExponentThen(e, rest);
            && (t == [] || (!IsDigit(t[0]) && t[0] != DOT))
            && |t| >= |rest| && (|t| > |rest| <==> e.Exponent?)
  {
  }

  lemma FractionEnds(f: Bytes, rest: Bytes)
    requires AllDigits(f) && (rest == [] || (!IsDigit(rest[0]) && rest[0] != DOT))
    ensures var t := FractionThen(f, rest);
            && (t == [] || !IsDigit(t[0]))
            && t[if f == [] then 0 else 1 + |f|..] == rest
  {
    if f != [] { FractionReads(f, rest); }
  }

  lemma ScanIs(s: Bytes, a: nat, n: nat, m: nat, k: nat)
    requires a + n + m + k <= |s| && SignLength(s) == a && IntegerLength(s[a..]) == Some(n)
    requires FractionLength(s[a + n..]) == Some(m) && ExponentLength(s[a + n + m..]) == Some(k)
    ensures ScanNumber(s) == Token(s[..a + n + m + k], m > 0 || k > 0, s[a + n + m + k..])
  {
    hide DigitRun, IntegerLength, FractionLength, ExponentLength;
  }

  lemma NumberPrefix(c: Cst, rest: Bytes)
    requires c.CNumber?
    ensures NumberThen(c, rest) == NumberThen(c, []) + rest
  {
    var e := ExponentThen(c.exponent, []);
    assert ExponentThen(c.exponent, rest) == e + rest by {
      if c.exponent.Exponent? {
        var x := c.exponent;
        assert [x.mark] + (x.sign + (x.digits + rest)) == [x.mark] + (x.sign + (x.digits + [])) + rest;
      } else {
        assert [] + rest == rest;
      }
    }
    var f := FractionThen(c.fraction, e);
    assert FractionThen(c.fraction, e + rest) == f + rest by {
      assert [DOT] + (c.fraction + (e + rest)) == [DOT] + (c.fraction + e) + rest;
    }
    var sign: Bytes := if c.minus then [MINUS] else [];
    assert sign + (c.integer + (f + rest)) == sign + (c.integer + f) + rest;
  }

  // ---- Reading values: every text of the grammar is parsed to its meaning ----

  lemma {:induction false} SpaceBefore(ws: Bytes, s: Bytes)
    requires White(ws)
    ensures SkipSpace(ws + s) == SkipSpace(s)
    decreases |ws|
  {
    if ws == [] {
      assert ws + s == s;
    } else {
      assert (ws + s)[1..] == ws[1..] + s;
      SpaceBefore(ws[1..], s);
    }
  }

  lemma SpaceThenByte(ws: Bytes, s: Bytes)
    requires White(ws) && s != [] && !IsSpace(s[0])
    ensures SkipSpace(ws + s) == s && SkipSpace(s) == s
  {
    SpaceBefore(ws, s);
  }

  // A value never starts with white space or with punctuation between values.
  lemma FirstByte(c: Cst, rest: Bytes)
    requires Wf(c)
    ensures var s := TextThen(c, rest);
            && s != [] && !IsSpace(s[0])
            && s[0] != COMMA && s[0] != COLON && s[0] != CLOSE_BRACKET && s[0] != CLOSE_BRACE
  {
    var s := TextThen(c, rest);
    match c
    case CNull => assert s[0] == NULL_WORD[0];
    case CTrue => assert s[0] == TRUE_WORD[0];
    case CFalse => assert s[0] == FALSE_WORD[0];
    case CNumber(minus, integer, _, _) => assert s[0] == if minus then MINUS else integer[0];
    case _ =>
  }

  lemma KeywordReads(c: Cst, rest: Bytes)
    requires c.CNull? || c.CTrue? || c.CFalse?
    ensures ParseValue(TextThen(c, rest)) == Parsed(RawOf(c), rest)
  {
    var s := TextThen(c, rest);
    var word := if c.CNull? then NULL_WORD else if c.CTrue? then TRUE_WORD else FALSE_WORD;
    assert s[..|word|] == word && s[|word|..] == rest;
    assert s[0] == word[0] && s[1] == word[1];
    assert StartsWith(s, NULL_WORD) ==> s[..4][0] == NULL_WORD[0];
    assert StartsWith(s, TRUE_WORD) ==> s[..4][0] == TRUE_WORD[0];
    assert SkipSpace(s) == s;
  }

  // What follows a number in a document cannot prolong it.
  lemma AfterElement(after: Bytes, tail: Bytes)
    requires White(after) && tail != [] && !IsSpace(tail[0]) && EndsNumber(tail)
    ensures EndsNumber(after + tail) && SkipSpace(after + tail) == tail
  {
    SpaceThenByte(after, tail);
  }

  // Every text of the grammar is read whole if its surrogate escapes are paired,
  // and not at all otherwise.
  lemma {:induction false} ValueReads(c: Cst, rest: Bytes)
    requires Wf(c) && (c.CNumber? ==> EndsNumber(rest))
    ensures ParseValue(TextThen(c, rest)) == if AllPaired(c) then Parsed(RawOf(c), rest) else NoParse
    decreases c, 1
  {
    hide ScanNumber, Decode, Keyword, ParseArray, ParseObject, NumberThen, SkipSpace, SurrogatesPaired;
    var s := TextThen(c, rest);
    FirstByte(c, rest);
    SpaceThenByte([], s);
    match c
    case CNumber(_, _, _, _) => NumberReads(c, rest);
    case CString(units) => StringReads(units, rest);
    case CArray(_, _) =>
      ArrayReads(c, rest);
    case CObject(_, _) =>
      ObjectReads(c, rest);
    case _ => KeywordReads(c, rest);
  }

  lemma {:induction false} ArrayReads(c: Cst, rest: Bytes)
    requires Wf(c) && c.CArray?
    ensures var s := TextThen(c, rest);
            && s[0] == OPEN_BRACKET
            && ParseArray(s[1..], false, false) == if AllPaired(c) then Items(RawOf(c).items, rest) else NoItems
    decreases c, 0
  {
    var s := TextThen(c, rest);
    var tail := [CLOSE_BRACKET] + rest;
    if c.elements == [] {
      assert s[1..] == c.blank + tail;
      SpaceThenByte(c.blank, tail);
      assert tail[1..] == rest;
    } else {
      assert s[1..] == ElementsThen(c.elements, tail);
      ElementsRead(c.elements, false, false, rest);
    }
  }

  ghost function ElementMeanings(es: seq<Element>): seq<Raw>
    requires ElementsOk(es)
  {
    seq(|es|, i requires 0 <= i < |es| => RawOf(es[i].value))
  }

  predicate ElementsPaired(es: seq<Element>) {
    forall i :: 0 <= i < |es| ==> AllPaired(es[i].value)
  }

  lemma {:induction false} ElementsRead(es: seq<Element>, any: bool, owed: bool, rest: Bytes)
    requires es != [] && ElementsOk(es) && (any ==> owed)
    ensures ParseArray(ElementsThen(es, [CLOSE_BRACKET] + rest), any, owed)
         == if ElementsPaired(es) then Items(ElementMeanings(es), rest) else NoItems
    decreases es
  {
    hide TextThen, ParseValue, SkipSpace, RawOf, IsSpace, AllPaired;
    var e, close := es[0], [CLOSE_BRACKET] + rest;
    var tail := if |es| == 1 then close else [COMMA] + ElementsThen(es[1..], close);
    var s, t := ElementsThen(es, close), TextThen(e.value, e.after + tail);
    Punctuation();
    AfterElement(e.after, tail);
    FirstByte(e.value, e.after + tail);
    SpaceThenByte(e.before, t);
    ValueReads(e.value, e.after + tail);
    assert ElementsPaired(es) <==> AllPaired(e.value) && ElementsPaired(es[1..]) by {
      assert forall i :: 0 < i < |es| ==> es[i] == es[1..][i - 1];
    }
    if AllPaired(e.value) {
      assert ParseArray(s, any, owed) == PutItem([RawOf(e.value)], ParseArray(e.after + tail, true, false));
      if |es| == 1 {
        assert tail[1..] == rest;
        assert ElementMeanings(es) == [RawOf(e.value)] + [];
      } else {
        ElementsRead(es[1..], true, true, rest);
        assert tail[1..] == ElementsThen(es[1..], close);
        assert ElementMeanings(es) == [RawOf(e.value)] + ElementMeanings(es[1..]);
      }
    }
  }

  lemma Punctuation()
    ensures forall b :: b == COMMA || b == COLON || b == CLOSE_BRACKET || b == CLOSE_BRACE || b == QUOTE ==>
      !IsSpace(b) && !IsDigit(b) && b != DOT && !IsE(b)
  {
  }

  lemma {:induction false} ObjectReads(c: Cst, rest: Bytes)
    requires Wf(c) && c.CObject?
    ensures var s := TextThen(c, rest);
            && s[0] == OPEN_BRACE
            && ParseObject(s[1..], false, false) == if AllPaired(c) then Members(RawOf(c).members, rest) else NoMembers
    decreases c, 0
  {
    var s := TextThen(c, rest);
    var tail := [CLOSE_BRACE] + rest;
    if c.entries == [] {
      assert s[1..] == c.blank + tail;
      SpaceThenByte(c.blank, tail);
      assert tail[1..] == rest;
    } else {
      assert s[1..] == EntriesThen(c.entries, tail);
      EntriesRead(c.entries, false, false, rest);
    }
  }

  ghost function EntryMeanings(es: seq<Entry>): seq<Member>
    requires EntriesOk(es)
  {
    seq(|es|, i requires 0 <= i < |es| => Member(UnitsMeaning(es[i].key), RawOf(es[i].value)))
  }

  predicate EntriesPaired(es: seq<Entry>) {
    forall i :: 0 <= i < |es| ==> SurrogatesPaired(es[i].key) && AllPaired(es[i].value)
  }

  lemma EntriesPairedTail(es: seq<Entry>)
    requires es != []
    ensures EntriesPaired(es) <==> SurrogatesPaired(es[0].key) && AllPaired(es[0].value) && EntriesPaired(es[1..])
  {
    hide SurrogatesPaired, AllPaired;
    assert forall i :: 0 < i < |es| ==> es[i] == es[1..][i - 1];
  }

  lemma {:induction false} EntriesRead(es: seq<Entry>, any: bool, owed: bool, rest: Bytes)
    requires es != [] && EntriesOk(es) && (any ==> owed)
    ensures ParseObject(EntriesThen(es, [CLOSE_BRACE] + rest), any, owed)
         == if EntriesPaired(es) then Members(EntryMeanings(es), rest) else NoMembers
    decreases es
  {
    hide TextThen, StringThen, ParseValue, SkipSpace, RawOf, IsSpace, Decode, UnitsMeaning, AllPaired;
    hide SurrogatesPaired;
    var e, close := es[0], [CLOSE_BRACE] + rest;
    var tail := if |es| == 1 then close else [COMMA] + EntriesThen(es[1..], close);
    var s := EntriesThen(es, close);
    EntryReads(e, tail, s, any, owed);
    EntriesPairedTail(es);
    hide EntriesPaired;
    if SurrogatesPaired(e.key) && AllPaired(e.value) {
      var m := Member(UnitsMeaning(e.key), RawOf(e.value));
      if |es| == 1 {
        Closing(e.after, rest);
        assert EntryMeanings(es) == [m] + [];
        assert EntriesPaired(es[1..]) by {
          NoEntries();
        }
      } else {
        EntriesRead(es[1..], true, true, rest);
        Continuing(e.after, EntriesThen(es[1..], close));
        assert EntryMeanings(es) == [m] + EntryMeanings(es[1..]);
      }
    }
  }

  lemma NoEntries()
    ensures EntriesPaired([])
  {
  }

  lemma Closing(after: Bytes, rest: Bytes)
    requires White(after)
    ensures ParseObject(after + ([CLOSE_BRACE] + rest), true, false) == Members([], rest)
  {
    var tail := [CLOSE_BRACE] + rest;
    Punctuation();
    AfterElement(after, tail);
    assert tail[1..] == rest;
  }

  lemma Continuing(after: Bytes, more: Bytes)
    requires White(after)
    ensures ParseObject(after + ([COMMA] + more), true, false) == ParseObject(more, true, true)
  {
    var tail := [COMMA] + more;
    Punctuation();
    AfterElement(after, tail);
    assert tail[1..] == more;
  }

  // One member with its separators, before what follows it.
  lemma {:induction false} EntryReads(e: Entry, tail: Bytes, s: Bytes, any: bool, owed: bool)
    requires White(e.before) && UnitsOk(e.key) && White(e.mid) && White(e.gap) && Wf(e.value) && White(e.after)
    requires tail != [] && (tail[0] == COMMA || tail[0] == CLOSE_BRACE) && (any ==> owed)
    requires s == e.before + StringThen(e.key, e.mid + ([COLON] + (e.gap + TextThen(e.value, e.after + tail))))
    ensures ParseObject(s, any, owed) ==
      if SurrogatesPaired(e.key) && AllPaired(e.value) then
        PutMember([Member(UnitsMeaning(e.key), RawOf(e.value))], ParseObject(e.after + tail, true, false))
      else NoMembers
    decreases e, 0
  {
    hide TextThen, StringThen, ParseValue, SkipSpace, RawOf, IsSpace, Decode, UnitsMeaning, AllPaired;
    hide SurrogatesPaired, UnitsOk, White;
    var value := TextThen(e.value, e.after + tail);
    var colon := [COLON] + (e.gap + value);
    Punctuation();
    AfterElement(e.after, tail);
    FirstByte(e.value, e.after + tail);
    GapReads(e.gap, value);
    ValueReads(e.value, e.after + tail);
    StringReads(e.key, e.mid + colon);
    SpaceThenByte(e.before, StringThen(e.key, e.mid + colon));
    SpaceThenByte(e.mid, colon);
    assert colon[1..] == e.gap + value;
  }

  lemma GapReads(gap: Bytes, s: Bytes)
    requires White(gap) && s != [] && !IsSpace(s[0])
    ensures ParseValue(gap + s) == ParseValue(s)
  {
    SpaceThenByte(gap, s);
  }

  // ---- Every parsed text has a syntax tree ----

  lemma {:induction false} SpaceSplit(s: Bytes) returns (ws: Bytes)
    ensures White(ws) && s == ws + SkipSpace(s)
    decreases |s|
  {
    ws := [];
    if s != [] && IsSpace(s[0]) {
      var more := SpaceSplit(s[1..]);
      ws := [s[0]] + more;
      assert s == [s[0]] + s[1..];
    }
  }

  // Units whose escapes stand alone or form one pair.
  predicate OnePiece(us: seq<Unit>) {
    (|us| == 1 && !HighUnit(us[0]) && !LowUnit(us[0])) || (|us| == 2 && HighUnit(us[0]) && LowUnit(us[1]))
  }

  lemma UnitSound(s: Bytes) returns (us: seq<Unit>)
    requires s != [] && NextPiece(s).Piece?
    ensures UnitsOk(us) && OnePiece(us) && UnitsMeaning(us) == NextPiece(s).text
    ensures s == UnitsThen(us, s[NextPiece(s).used..])
  {
    hide LeadOf, Payload, HexPrefix, HexValue;
    var p := NextPiece(s);
    if s[0] == BACKSLASH && s[1] == LETTER_U {
      us := EscapeSound(s);
    } else {
      var u;
      if s[0] == BACKSLASH {
        u := Short(s[1]);
        assert s == [s[0], s[1]] + s[2..];
      } else {
        if s[0] < 0x80 { AsciiChar(s); }
        AcceptedIsEncoded(s);
        u := Plain(CharAt(s));
        HighNotPlain(s);
        assert s == s[..p.used] + s[p.used..];
      }
      us := [u];
      SingleUnit(u, s[p.used..]);
    }
  }

  lemma SingleUnit(u: Unit, rest: Bytes)
    requires UnitOk(u)
    ensures UnitsOk([u]) && UnitsMeaning([u]) == UnitMeaning(u) && UnitsThen([u], rest) == UnitText(u) + rest
  {
    hide UnitMeaning, UnitText, UnitOk;
    assert [u][1..] == [];
    assert UnitMeaning(u) + [] == UnitMeaning(u);
  }

  lemma DoubleUnit(high: Unit, low: Unit, rest: Bytes)
    requires HighUnit(high) && LowUnit(low)
    ensures UnitsOk([high, low])
    ensures UnitsMeaning([high, low]) == Encode(Paired(Hex4(high.digits).value, Hex4(low.digits).value))
    ensures UnitsThen([high, low], rest) == UnitText(high) + (UnitText(low) + rest)
  {
    hide Hex4, Encode;
    var us := [high, low];
    assert us[1..] == [low] && us[2..] == [];
    SingleUnit(low, rest);
    assert UnitsThen(us, rest) == UnitText(high) + UnitsThen([low], rest);
    var e := Encode(Paired(Hex4(high.digits).value, Hex4(low.digits).value));
    assert e + [] == e;
  }

  lemma HighNotPlain(s: Bytes)
    requires s != [] && CharLen(s) > 0
    ensures s[0] < 0x80 ==> CharAt(s) == s[0]
    ensures s[0] >= 0x80 ==> CharAt(s) >= 0x80
  {
    AcceptedIsEncoded(s);
    assert s[..CharLen(s)][0] == s[0];
  }

  lemma HexSame(s: Bytes)
    requires |s| >= 4
    ensures Hex4(s[..4]) == Hex4(s)
  {
    hide HexPrefix, HexValue;
    HexFour(s);
    HexFour(s[..4]);
  }

  lemma EscapeSound(s: Bytes) returns (us: seq<Unit>)
    requires |s| >= 2 && s[0] == BACKSLASH && s[1] == LETTER_U && UnicodePiece(s).Piece?
    ensures UnitsOk(us) && OnePiece(us) && UnitsMeaning(us) == UnicodePiece(s).text
    ensures s == UnitsThen(us, s[UnicodePiece(s).used..])
  {
    hide Hex4, Encode;
    var digits := s[2..6];
    HexSame(s[2..]);
    assert s[2..][..4] == digits;
    assert s == [BACKSLASH, LETTER_U] + digits + s[6..];
    if HighSurrogate(Hex4(digits).value) {
      var t := s[6..];
      var low := t[2..6];
      HexSame(t[2..]);
      assert t[2..][..4] == low;
      us := [Hex(digits), Hex(low)];
      assert t == [BACKSLASH, LETTER_U] + low + t[6..];
      assert t[6..] == s[12..];
      DoubleUnit(us[0], us[1], s[12..]);
    } else {
      us := [Hex(digits)];
      SingleUnit(us[0], s[6..]);
    }
  }

  // A piece in front of paired units.
  lemma PieceThen(us: seq<Unit>, more: seq<Unit>, rest: Bytes)
    requires UnitsOk(us) && OnePiece(us) && UnitsOk(more) && SurrogatesPaired(more)
    ensures UnitsOk(us + more) && SurrogatesPaired(us + more)
    ensures UnitsMeaning(us + more) == UnitsMeaning(us) + UnitsMeaning(more)
    ensures UnitsThen(us + more, rest) == UnitsThen(us, UnitsThen(more, rest))
  {
    var all := us + more;
    PairedTail(all);
    if |us| == 1 {
      assert all[1..] == more;
      SingleUnit(us[0], UnitsThen(more, rest));
    } else {
      assert all[2..] == more && all[1..][1..] == more;
      DoubleUnit(us[0], us[1], UnitsThen(more, rest));
      assert us == [us[0], us[1]];
    }
  }

  lemma {:induction false} UnitsSound(s: Bytes) returns (us: seq<Unit>)
    requires Decode(s).Body?
    ensures UnitsOk(us) && SurrogatesPaired(us) && UnitsMeaning(us) == Decode(s).text
    ensures s == UnitsThen(us, [QUOTE] + Decode(s).rest)
    decreases |s|
  {
    hide NextPiece, UnitText, UnitMeaning, UnitOk, UnitsOk, OnePiece, SurrogatesPaired;
    DecodeUnfold(s);
    if NextPiece(s) == Closed {
      us := [];
      NoUnits();
      NoUnitsThen([QUOTE] + Decode(s).rest);
    } else {
      hide UnitsThen, UnitsMeaning;
      var first := UnitSound(s);
      var more := UnitsSound(s[NextPiece(s).used..]);
      us := first + more;
      PieceThen(first, more, [QUOTE] + Decode(s).rest);
    }
  }

  lemma NoUnitsThen(rest: Bytes)
    ensures UnitsOk([]) && UnitsMeaning([]) == [] && UnitsThen([], rest) == rest
  {
  }

  lemma DecodeUnfold(s: Bytes)
    requires Decode(s).Body?
    ensures s != []
    ensures NextPiece(s) == Closed ==> Decode(s) == Body([], s[1..]) && s == [QUOTE] + s[1..]
    ensures NextPiece(s) != Closed ==> NextPiece(s).Piece? && Decode(s[NextPiece(s).used..]).Body?
    ensures NextPiece(s) != Closed ==> Decode(s).text == NextPiece(s).text + Decode(s[NextPiece(s).used..]).text
    ensures NextPiece(s) != Closed ==> Decode(s).rest == Decode(s[NextPiece(s).used..]).rest
  {
  }

  lemma NumberSound(s: Bytes) returns (c: Cst)
    requires ScanNumber(s).Token?
    ensures c.CNumber? && Wf(c) && s == NumberThen(c, ScanNumber(s).rest)
    ensures NumberThen(c, []) == ScanNumber(s).text
    ensures ScanNumber(s).isFloat == (c.fraction != [] || c.exponent.Exponent?)
  {
    hide ScanNumber, IntegerLength, FractionLength, ExponentLength, FractionThen, ExponentThen;
    var sign, t, f, e := TokenParts(s);
    var integer := IntegerSound(t);
    var fraction := FractionSound(f);
    var exponent := ExponentSound(e);
    c := CNumber(sign == [MINUS], integer, fraction, exponent);
    NumberPrefix(c, ScanNumber(s).rest);
    ScanSplits(s);
    SameHead(NumberThen(c, []), ScanNumber(s).text, ScanNumber(s).rest);
  }

  lemma SameHead(a: Bytes, b: Bytes, rest: Bytes)
    requires a + rest == b + rest
    ensures a == b
  {
    assert |a| == |b|;
    assert a == (a + rest)[..|a|] && b == (b + rest)[..|b|];
  }

  lemma ScanLengths(s: Bytes) returns (a: nat, n: nat, m: nat, k: nat)
    requires ScanNumber(s).Token?
    ensures a == SignLength(s) && a + n + m + k <= |s|
    ensures IntegerLength(s[a..]) == Some(n) && FractionLength(s[a + n..]) == Some(m)
    ensures ExponentLength(s[a + n + m..]) == Some(k)
    ensures ScanNumber(s).rest == s[a + n + m + k..] && (ScanNumber(s).isFloat <==> m > 0 || k > 0)
  {
    hide IntegerLength, FractionLength, ExponentLength, DigitRun, SignLength;
    a := SignLength(s);
    n := IntegerLength(s[a..]).value;
    m := FractionLength(s[a + n..]).value;
    k := ExponentLength(s[a + n + m..]).value;
  }

  lemma TokenParts(s: Bytes) returns (sign: Bytes, t: Bytes, f: Bytes, e: Bytes)
    requires ScanNumber(s).Token?
    ensures (sign == [] || sign == [MINUS]) && s == sign + t
    ensures IntegerLength(t).Some? && f == t[IntegerLength(t).value..]
    ensures FractionLength(f).Some? && e == f[FractionLength(f).value..]
    ensures ExponentLength(e).Some? && ScanNumber(s).rest == e[ExponentLength(e).value..]
    ensures ScanNumber(s).isFloat <==> FractionLength(f).value > 0 || ExponentLength(e).value > 0
  {
    hide IntegerLength, FractionLength, ExponentLength, DigitRun, ScanNumber, SignLength;
    var a, n, m, k := ScanLengths(s);
    sign, t, f, e := s[..a], s[a..], s[a + n..], s[a + n + m..];
    SignIs(s, a);
    DropTwice(s, a, n);
    DropTwice(s, a + n, m);
    DropTwice(s, a + n + m, k);
  }

  lemma SignIs(s: Bytes, a: nat)
    requires a == SignLength(s)
    ensures (s[..a] == [] || s[..a] == [MINUS]) && s == s[..a] + s[a..]
  {
  }

  lemma IntegerSound(t: Bytes) returns (d: Bytes)
    requires IntegerLength(t).Some?
    ensures Digits(d) && (d[0] == ZERO ==> |d| == 1) && |d| == IntegerLength(t).value && t == d + t[|d|..]
  {
    d := t[..IntegerLength(t).value];
  }

  lemma FractionSound(f: Bytes) returns (d: Bytes)
    requires FractionLength(f).Some?
    ensures AllDigits(d) && (d == [] <==> FractionLength(f).value == 0)
    ensures f == FractionThen(d, f[FractionLength(f).value..])
  {
    var m := FractionLength(f).value;
    d := if m == 0 then [] else f[1..m];
    if m > 0 {
      assert d == f[1..][..m - 1];
      assert f[1..] == d + f[m..];
      assert f == [DOT] + f[1..];
    }
  }

  lemma ExponentSound(e: Bytes) returns (x: Exponent)
    requires ExponentLength(e).Some?
    ensures ExponentOk(x) && (x.Exponent? <==> ExponentLength(e).value > 0)
    ensures e == ExponentThen(x, e[ExponentLength(e).value..])
  {
    var k := ExponentLength(e).value;
    if k == 0 {
      x := NoExponent;
    } else {
      var j := ExponentStart(e);
      var digits := e[j..k];
      assert digits == e[j..][..k - j];
      assert e[j..] == digits + e[k..];
      x := Exponent(e[0], e[1..j], digits);
      assert e == [e[0]] + (e[1..j] + e[j..]);
    }
  }

  lemma {:induction false} ValueSound(s: Bytes) returns (ws: Bytes, c: Cst)
    requires ParseValue(s).Parsed?
    ensures White(ws) && Wf(c) && AllPaired(c)
    ensures RawOf(c) == ParseValue(s).raw && s == ws + TextThen(c, ParseValue(s).rest)
    decreases |s|, 1
  {
    hide Decode, ScanNumber, Keyword, ParseArray, ParseObject, Wf, RawOf, TextThen, AllPaired;
    ws := SpaceSplit(s);
    var t := SkipSpace(s);
    var p := ParseValue(s);
    if t[0] == QUOTE {
      c := StringSound(t);
    } else if t[0] == OPEN_BRACE {
      c := ObjectSound(t, p.rest);
    } else if t[0] == OPEN_BRACKET {
      c := ArraySound(t, p.rest);
    } else if StartsNumber(t[0]) {
      c := TokenSound(t);
    } else {
      c := KeywordSound(t);
    }
  }

  lemma TokenSound(t: Bytes) returns (c: Cst)
    requires ScanNumber(t).Token?
    ensures var token := ScanNumber(t);
            && Wf(c) && AllPaired(c) && RawOf(c) == RNumber(token.text, token.isFloat)
            && t == TextThen(c, token.rest)
  {
    hide ScanNumber, NumberThen;
    c := NumberSound(t);
  }

  lemma StringSound(t: Bytes) returns (c: Cst)
    requires t != [] && t[0] == QUOTE && Decode(t[1..]).Body?
    ensures var body := Decode(t[1..]);
            Wf(c) && AllPaired(c) && RawOf(c) == RString(body.text) && t == TextThen(c, body.rest)
  {
    hide Decode, UnitsThen, UnitsMeaning, SurrogatesPaired;
    var us := UnitsSound(t[1..]);
    c := CString(us);
    assert t == [QUOTE] + t[1..];
  }

  lemma KeywordSound(t: Bytes) returns (c: Cst)
    requires Keyword(t).Parsed?
    ensures Wf(c) && AllPaired(c) && RawOf(c) == Keyword(t).raw && t == TextThen(c, Keyword(t).rest)
  {
    c := if StartsWith(t, NULL_WORD) then CNull else if StartsWith(t, TRUE_WORD) then CTrue else CFalse;
    var n := if StartsWith(t, NULL_WORD) || StartsWith(t, TRUE_WORD) then 4 else 5;
    assert t == t[..n] + t[n..];
  }

  lemma {:induction false} ArraySound(t: Bytes, rest: Bytes) returns (c: Cst)
    requires t != [] && t[0] == OPEN_BRACKET && ParseArray(t[1..], false, false).Items?
    requires ParseArray(t[1..], false, false).rest == rest
    ensures Wf(c) && AllPaired(c) && RawOf(c) == RArray(ParseArray(t[1..], false, false).items)
    ensures t == TextThen(c, rest)
    decreases |t|, 0
  {
    hide ParseArray;
    var blank, es := ItemsSound(t[1..], false, false);
    c := CArray(blank, es);
    assert t == [OPEN_BRACKET] + t[1..];
  }

  // The rest of an array: closed at once, or elements to come.
  lemma ElementCons(e: Element, more: seq<Element>, close: Bytes)
    requires White(e.before) && Wf(e.value) && White(e.after) && ElementsOk(more)
    ensures ElementsOk([e] + more)
    ensures AllPaired(e.value) && ElementsPaired(more) ==> ElementsPaired([e] + more)
    ensures ElementMeanings([e] + more) == [RawOf(e.value)] + ElementMeanings(more)
    ensures var tail := if more == [] then close else [COMMA] + ElementsThen(more, close);
            ElementsThen([e] + more, close) == e.before + TextThen(e.value, e.after + tail)
  {
    hide White, Wf, RawOf, TextThen, AllPaired;
    var es := [e] + more;
    assert es[1..] == more;
    assert ElementsOk(es) by {
      forall i | 0 <= i < |es|
        ensures White(es[i].before) && Wf(es[i].value) && White(es[i].after)
      {
        if i > 0 {
          assert es[i] == more[i - 1];
        }
      }
    }
  }

  lemma {:induction false} ItemsSound(s: Bytes, any: bool, owed: bool) returns (blank: Bytes, es: seq<Element>)
    requires ParseArray(s, any, owed).Items? && (owed ==> any) && !(any && !owed)
    ensures White(blank) && ElementsOk(es) && ElementsPaired(es)
    ensures ElementMeanings(es) == ParseArray(s, any, owed).items
    ensures var close := [CLOSE_BRACKET] + ParseArray(s, any, owed).rest;
            if es == [] then !owed && s == blank + close else s == ElementsThen(es, close)
    decreases |s|, 2
  {
    hide ParseValue, TextThen, RawOf, Wf, AllPaired;
    var before := SpaceSplit(s);
    var t := SkipSpace(s);
    blank, es := [], [];
    if t[0] == CLOSE_BRACKET {
      blank := before;
      assert t == [CLOSE_BRACKET] + t[1..];
    } else {
      hide ElementsOk, ElementMeanings, ElementsThen, White, ElementsPaired;
      SkipAgain(s);
      var q := ParseValue(t);
      var ws, c := ValueSound(t);
      assert ws == [] by { NoSpace(ws, t, TextThen(c, q.rest)); }
      assert t == TextThen(c, q.rest) by { assert [] + TextThen(c, q.rest) == TextThen(c, q.rest); }
      var after, more := AfterItemSound(q.rest);
      var element := Element(before, c, after);
      ElementCons(element, more, [CLOSE_BRACKET] + ParseArray(s, any, owed).rest);
      es := [element] + more;
    }
  }

  lemma {:induction false} SkipAgain(s: Bytes)
    ensures SkipSpace(SkipSpace(s)) == SkipSpace(s)
    decreases |s|
  {
    if s != [] && IsSpace(s[0]) {
      SkipAgain(s[1..]);
    }
  }

  lemma NoSpace(ws: Bytes, t: Bytes, u: Bytes)
    requires White(ws) && t == ws + u
    ensures ws == [] || IsSpace(t[0])
  {
    if ws != [] {
      assert t[0] == ws[0];
    }
  }

  lemma {:induction false} AfterItemSound(s: Bytes) returns (after: Bytes, es: seq<Element>)
    requires ParseArray(s, true, false).Items?
    ensures White(after) && ElementsOk(es) && ElementsPaired(es)
    ensures ElementMeanings(es) == ParseArray(s, true, false).items
    ensures var close := [CLOSE_BRACKET] + ParseArray(s, true, false).rest;
            s == after + (if es == [] then close else [COMMA] + ElementsThen(es, close))
    decreases |s|, 3
  {
    hide ParseValue, TextThen, RawOf, Wf, AllPaired;
    after := SpaceSplit(s);
    var t := SkipSpace(s);
    es := [];
    if t[0] == CLOSE_BRACKET {
      assert t == [CLOSE_BRACKET] + t[1..];
    } else {
      var blank;
      blank, es := ItemsSound(t[1..], true, true);
      assert t == [COMMA] + t[1..];
    }
  }

  lemma {:induction false} ObjectSound(t: Bytes, rest: Bytes) returns (c: Cst)
    requires t != [] && t[0] == OPEN_BRACE && ParseObject(t[1..], false, false).Members?
    requires ParseObject(t[1..], false, false).rest == rest
    ensures Wf(c) && AllPaired(c) && RawOf(c) == RObject(ParseObject(t[1..], false, false).members)
    ensures t == TextThen(c, rest)
    decreases |t|, 0
  {
    hide ParseObject;
    var blank, es := MembersSound(t[1..], false, false);
    c := CObject(blank, es);
    assert t == [OPEN_BRACE] + t[1..];
  }

  lemma EntryCons(e: Entry, more: seq<Entry>, close: Bytes)
    requires White(e.before) && UnitsOk(e.key) && White(e.mid) && White(e.gap) && Wf(e.value) && White(e.after)
    requires EntriesOk(more)
    ensures EntriesOk([e] + more)
    ensures SurrogatesPaired(e.key) && AllPaired(e.value) && EntriesPaired(more) ==> EntriesPaired([e] + more)
    ensures EntryMeanings([e] + more) == [Member(UnitsMeaning(e.key), RawOf(e.value))] + EntryMeanings(more)
    ensures var tail := if more == [] then close else [COMMA] + EntriesThen(more, close);
            EntriesThen([e] + more, close)
              == e.before + StringThen(e.key, e.mid + ([COLON] + (e.gap + TextThen(e.value, e.after + tail))))
  {
    hide White, UnitsOk, Wf, UnitsMeaning, RawOf, StringThen, TextThen, AllPaired, SurrogatesPaired;
    var es := [e] + more;
    assert es[1..] == more;
    assert EntriesOk(es) by {
      forall i | 0 <= i < |es|
        ensures White(es[i].before) && UnitsOk(es[i].key) && White(es[i].mid) && White(es[i].gap) && Wf(es[i].value)
             && White(es[i].after)
      {
        if i > 0 {
          assert es[i] == more[i - 1];
        }
      }
    }
  }

  lemma {:induction false} MembersSound(s: Bytes, any: bool, owed: bool) returns (blank: Bytes, es: seq<Entry>)
    requires ParseObject(s, any, owed).Members? && (owed ==> any) && !(any && !owed)
    ensures White(blank) && EntriesOk(es) && EntriesPaired(es)
    ensures EntryMeanings(es) == ParseObject(s, any, owed).members
    ensures var close := [CLOSE_BRACE] + ParseObject(s, any, owed).rest;
            if es == [] then !owed && s == blank + close else s == EntriesThen(es, close)
    decreases |s|, 2
  {
    hide ParseValue, TextThen, RawOf, Wf, Decode, UnitsThen, UnitsMeaning, AllPaired, SurrogatesPaired;
    var before := SpaceSplit(s);
    var t := SkipSpace(s);
    blank, es := [], [];
    if t[0] == CLOSE_BRACE {
      blank := before;
      assert t == [CLOSE_BRACE] + t[1..];
    } else {
      hide EntriesOk, EntryMeanings, EntriesThen, White, UnitsOk, SkipSpace, IsSpace, UnitMeaning, UnitOk;
      hide EntriesPaired;
      var u := Decode(t[1..]).rest;
      var key := UnitsSound(t[1..]);
      assert t == StringThen(key, u) by { assert t == [QUOTE] + t[1..]; }
      var mid := SpaceSplit(u);
      var v := SkipSpace(u);
      var q := ParseValue(v[1..]);
      var gap, c := ValueSound(v[1..]);
      assert v == [COLON] + v[1..];
      var after, more := AfterMemberSound(q.rest);
      var entry := Entry(before, key, mid, gap, c, after);
      EntryCons(entry, more, [CLOSE_BRACE] + ParseObject(s, any, owed).rest);
      es := [entry] + more;
    }
  }

  lemma {:induction false} AfterMemberSound(s: Bytes) returns (after: Bytes, es: seq<Entry>)
    requires ParseObject(s, true, false).Members?
    ensures White(after) && EntriesOk(es) && EntriesPaired(es)
    ensures EntryMeanings(es) == ParseObject(s, true, false).members
    ensures var close := [CLOSE_BRACE] + ParseObject(s, true, false).rest;
            s == after + (if es == [] then close else [COMMA] + EntriesThen(es, close))
    decreases |s|, 3
  {
    hide ParseValue, TextThen, RawOf, Wf, Decode, AllPaired, SurrogatesPaired;
    after := SpaceSplit(s);
    var t := SkipSpace(s);
    es := [];
    if t[0] == CLOSE_BRACE {
      assert t == [CLOSE_BRACE] + t[1..];
    } else {
      var blank;
      blank, es := MembersSound(t[1..], true, true);
      assert t == [COMMA] + t[1..];
    }
  }

  // ---- Which texts of the grammar are parsed ----

  // A JSON-text of RFC 8259 with this syntax tree.
  ghost predicate IsJsonText(src: Bytes, c: Cst) {
    Wf(c) && exists before, after :: White(before) && White(after) && src == before + TextThen(c, after)
  }

  // For every text of the grammar, whatever its tree: the parse gives its meaning
  // if all its surrogate escapes are paired, and rejects it otherwise.
  lemma PairingDecides(src: Bytes, c: Cst)
    requires IsJsonText(src, c)
    ensures ParseDocument(src) == if AllPaired(c) then Some(RawOf(c)) else None
  {
    hide ParseValue, Wf, RawOf, TextThen, AllPaired, White;
    var before, after :| White(before) && White(after) && src == before + TextThen(c, after);
    TextParses(before, c, after);
  }

  // What is parsed is exactly the texts of the grammar whose surrogate escapes
  // are all paired, with their meaning.
  lemma GrammarIff(src: Bytes, raw: Raw)
    ensures ParseDocument(src) == Some(raw) <==> exists c :: IsJsonText(src, c) && AllPaired(c) && RawOf(c) == raw
  {
    hide ParseValue, Wf, RawOf, TextThen, AllPaired;
    if ParseDocument(src) == Some(raw) {
      var before, c := ValueSound(src);
      var after := SpaceSplit(ParseValue(src).rest);
      assert after + [] == after;
      assert IsJsonText(src, c);
    }
    hide IsJsonText;
    if exists c :: IsJsonText(src, c) && AllPaired(c) && RawOf(c) == raw {
      var c :| IsJsonText(src, c) && AllPaired(c) && RawOf(c) == raw;
      PairingDecides(src, c);
    }
  }

  // Section 7 admits "\uD800" alone; the parsers reject it.
  lemma LoneSurrogate()
    ensures var c := CString([Hex(Ascii("D800"))]);
            IsJsonText(TextThen(c, []), c) && !AllPaired(c) && ParseDocument(TextThen(c, [])) == None
  {
    var u := Hex(Ascii("D800"));
    var c := CString([u]);
    HexFour(u.digits);
    assert FourHex(u.digits) && Hex4(u.digits) == Some(0xD800);
    assert !PairedAt([u], 0);
    var text := TextThen(c, []);
    var none: Bytes := [];
    assert White(none) && text == none + TextThen(c, none);
    assert IsJsonText(text, c);
    PairingDecides(text, c);
  }

  lemma TextParses(before: Bytes, c: Cst, after: Bytes)
    requires White(before) && Wf(c) && White(after)
    ensures ParseDocument(before + TextThen(c, after)) == if AllPaired(c) then Some(RawOf(c)) else None
  {
    hide Wf, RawOf, TextThen, AllPaired;
    ValueReads(c, after);
    FirstByte(c, after);
    GapReads(before, TextThen(c, after));
    assert after + [] == after;
    SpaceBefore(after, []);
  }
}
