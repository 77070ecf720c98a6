// Serialization: the recursive printer, and the explicit-frame serializer that
// runs twice over the same document.

module Printer {
  import opened JsonValue
  import opened Pointer
  import opened Utf8
  import opened Strings
  import opened Grammar

  // A document in one iteration order of its objects.
  datatype Doc = Scalar(v: Json) | List(items: seq<Doc>) | Dict(fields: seq<Field>)
  datatype Field = Field(key: Bytes, value: Doc)

  predicate DocOk(doc: Doc)
    decreases doc
  {
    match doc
    case Scalar(v) => !IsContainer(v)
    case List(items) => forall i :: 0 <= i < |items| ==> DocOk(items[i])
    case Dict(fields) =>
      && (forall i :: 0 <= i < |fields| ==> DocOk(fields[i].value))
      && (forall i, j :: 0 <= i < j < |fields| ==> fields[i].key != fields[j].key)
  }

  datatype NonFinite = RejectNonFinite | NonFiniteToNull | NonFiniteToString

  // number gives the text of a finite double.
  datatype SerializeOptions = SerializeOptions(pretty: bool, indentWidth: nat, tab: bool, escapeNonAscii: bool,
                                               nonFinite: NonFinite, maxOutputBytes: nat, number: Float -> Bytes)

  // ---- The recursive printer ----

  const NEWLINE: Byte := 10

  function Repeat(b: Byte, n: nat): (s: Bytes)
    ensures |s| == n && forall i :: 0 <= i < n ==> s[i] == b
  {
    seq(n, i => b)
  }

  function IndentByte(opts: SerializeOptions): Byte {
    if opts.tab then '\t' as int else ' ' as int
  }

  function Width(depth: nat, opts: SerializeOptions): Emission {
    if opts.indentWidth != 0 && depth > SIZE_MAX / opts.indentWidth then Emission([], TooWide)
    else Emit(Repeat(IndentByte(opts), depth * opts.indentWidth))
  }

  function Indent(depth: nat, opts: SerializeOptions): Emission {
    if opts.pretty then Then(Emit([NEWLINE]), Width(depth, opts)) else SILENT
  }

  // std::to_string on a non-negative number.
  function Decimal(n: nat): (s: Bytes)
    ensures s != [] && AllDigits(s) && DecimalValue(s) == n && (|s| > 1 ==> s[0] != ZERO) && (n > 0 ==> s[0] != ZERO)
  {
    if n < 10 then
      assert [ZERO + n][..0] == [];
      [ZERO + n]
    else
      var s := Decimal(n / 10) + [ZERO + n % 10];
      assert s[..|s| - 1] == Decimal(n / 10);
      s
  }

  function SignedDecimal(n: int): Bytes {
    if n < 0 then ['-' as int] + Decimal(-n) else Decimal(n)
  }

  function Quoted(s: Bytes, opts: SerializeOptions): Emission {
    Then(Emit([QUOTE]), Then(Escaped(s, opts.escapeNonAscii), Emit([QUOTE])))
  }

  function RenderDouble(f: Float, opts: SerializeOptions): Emission {
    if f.Finite? then Emit(opts.number(f))
    else match opts.nonFinite
      case RejectNonFinite => Emission([], InvalidNumber)
      case NonFiniteToNull => Emit(NULL_WORD)
      case NonFiniteToString =>
        Emit(if f.NaN? then Ascii("\"NaN\"") else if f.negative then Ascii("\"-Infinity\"") else Ascii("\"Infinity\""))
  }

  function RenderScalar(v: Json, opts: SerializeOptions): Emission
    requires !IsContainer(v)
  {
    match v
    case Null => Emit(NULL_WORD)
    case Bool(b) => Emit(if b then TRUE_WORD else FALSE_WORD)
    case Int(i) => Emit(SignedDecimal(i))
    case UInt(u) => Emit(SignedDecimal(u))
    case Double(d) => RenderDouble(d, opts)
    case Str(s) => Quoted(s, opts)
  }

  function Count(doc: Doc): nat {
    match doc
    case Scalar(_) => 0
    case List(items) => |items|
    case Dict(fields) => |fields|
  }

  function ChildAt(doc: Doc, i: nat): (c: Doc)
    requires i < Count(doc)
    ensures c < doc
    ensures DocOk(doc) ==> DocOk(c)
  {
    match doc
    case List(items) => items[i]
    case Dict(fields) => fields[i].value
  }

  function Opener(doc: Doc): Byte {
    if doc.Dict? then OPEN_BRACE else OPEN_BRACKET
  }

  function Closer(doc: Doc): Byte {
    if doc.Dict? then CLOSE_BRACE else CLOSE_BRACKET
  }

  function KeyEnd(opts: SerializeOptions): Bytes {
    if opts.pretty then [QUOTE, COLON, ' ' as int] else [QUOTE, COLON]
  }

  // What precedes child i: separator, indentation, name.
  function Lead(doc: Doc, i: nat, first: bool, depth: nat, opts: SerializeOptions): Emission
    requires i < Count(doc)
  {
    Then(Emit(if first then [] else [COMMA]),
      Then(Indent(depth + 1, opts),
        if doc.Dict? then Then(Emit([QUOTE]), Then(Escaped(doc.fields[i].key, opts.escapeNonAscii), Emit(KeyEnd(opts))))
        else SILENT))
  }

  function Render(doc: Doc, depth: nat, opts: SerializeOptions): Emission
    requires DocOk(doc)
    decreases doc, 1, 0
  {
    match doc
    case Scalar(v) => RenderScalar(v, opts)
    case _ =>
      if Count(doc) == 0 then Emit([Opener(doc), Closer(doc)])
      else Then(Emit([Opener(doc)]), RenderRest(doc, 0, true, depth, opts))
  }

  // A container from child i on, to its closing delimiter.
  function RenderRest(doc: Doc, i: nat, first: bool, depth: nat, opts: SerializeOptions): Emission
    requires DocOk(doc) && i <= Count(doc)
    decreases doc, 0, Count(doc) - i
  {
    if i == Count(doc) then Then(Indent(depth, opts), Emit([Closer(doc)]))
    else Then(Lead(doc, i, first, depth, opts),
           Then(Render(ChildAt(doc, i), depth + 1, opts), RenderRest(doc, i + 1, false, depth, opts)))
  }

  // ---- What a bounded sink makes of an emission ----

  datatype Cause = NoCause | OutputLimit | BadUtf8 | BadNumber

  // The most bytes a sink with this limit accepts.
  function Capacity(limit: nat): nat {
    if limit == 0 || limit > SIZE_MAX then SIZE_MAX else limit
  }

  function CauseOf(cap: nat, before: nat, e: Emission): Cause {
    if before + |e.text| > cap then OutputLimit
    else match e.fault
      case NoFault => NoCause
      case InvalidUtf8 => BadUtf8
      case InvalidNumber => BadNumber
      case TooWide => OutputLimit
  }

  lemma CauseThen(cap: nat, before: nat, a: Emission, b: Emission)
    ensures CauseOf(cap, before, a) != NoCause ==> CauseOf(cap, before, Then(a, b)) == CauseOf(cap, before, a)
    ensures CauseOf(cap, before, a) == NoCause ==>
      && a.fault == NoFault && before + |a.text| <= cap
      && CauseOf(cap, before, Then(a, b)) == CauseOf(cap, before + |a.text|, b)
  {
  }

  // What a sink has accepted, and why it stopped if it did.
  datatype SinkState = SinkState(text: Bytes, cause: Cause)

  // Asked to take e, the sink went from s to t. Once stopped it takes nothing.
  ghost predicate Took(cap: nat, s: SinkState, t: SinkState, e: Emission) {
    if s.cause != NoCause then t.cause == s.cause
    else t.cause == CauseOf(cap, |s.text|, e) && (t.cause == NoCause ==> t.text == s.text + e.text)
  }

  lemma TookThen(cap: nat, s: SinkState, t: SinkState, u: SinkState, a: Emission, b: Emission)
    requires Took(cap, s, t, a) && Took(cap, t, u, b)
    ensures Took(cap, s, u, Then(a, b))
  {
    CauseThen(cap, |s.text|, a, b);
    assert s.text + (a.text + b.text) == s.text + a.text + b.text;
  }

  lemma TookStopped(cap: nat, s: SinkState, t: SinkState, a: Emission, b: Emission)
    requires Took(cap, s, t, a) && t.cause != NoCause
    ensures Took(cap, s, t, Then(a, b))
  {
    CauseThen(cap, |s.text|, a, b);
  }

  lemma TookNothing(cap: nat, s: SinkState)
    requires |s.text| <= cap
    ensures Took(cap, s, s, SILENT)
  {
    assert s.text + [] == s.text;
  }

  // CountingSink, or StringSink when it retains the bytes. A StringSink throws
  // where a CountingSink turns invalid; both end the serialization.
  class Sink {
    const limit: nat
    const retain: bool
    var written: nat
    var out: Bytes
    var valid: bool
    var invalidUtf8: bool
    var invalidNumber: bool
    ghost var text: Bytes

    constructor (limit: nat, retain: bool)
      ensures Valid() && valid && text == [] && this.limit == limit && this.retain == retain
    {
      this.limit, this.retain := limit, retain;
      written, out, valid, invalidUtf8, invalidNumber := 0, [], true, false, false;
      text := [];
    }

    ghost predicate Valid()
      reads this
    {
      && written == |text| <= Capacity(limit)
      && (retain ==> out == text)
      && (valid ==> !invalidUtf8 && !invalidNumber)
    }

    ghost function State(): (s: SinkState)
      reads this
      ensures valid <==> s.cause == NoCause
    {
      SinkState(text,
                if valid then NoCause
                else if invalidUtf8 then BadUtf8
                else if invalidNumber then BadNumber
                else OutputLimit)
    }

    method Account(amount: nat) returns (ok: bool)
      requires Valid()
      modifies this`written, this`valid
      ensures ok == valid == (old(valid) && old(written) + amount <= Capacity(limit))
      ensures written == if ok then old(written) + amount else old(written)
    {
      if !valid { return false; }
      if amount > SIZE_MAX - written || (limit != 0 && amount > limit - (if written < limit then written else limit)) {
        valid := false;
        return false;
      }
      written := written + amount;
      ok := true;
    }

    method Write(data: Bytes)
      requires Valid()
      modifies this
      ensures Valid() && Took(Capacity(limit), old(State()), State(), Emit(data))
    {
      var ok := Account(|data|);
      if ok {
        if retain { out := out + data; }
        text := text + data;
      }
    }

    method Put(b: Byte)
      requires Valid()
      modifies this
      ensures Valid() && Took(Capacity(limit), old(State()), State(), Emit([b]))
    {
      Write([b]);
    }

    // Indentation: one run of a byte.
    method PutRun(b: Byte, count: nat) returns (ok: bool)
      requires Valid()
      modifies this
      ensures Valid() && Took(Capacity(limit), old(State()), State(), Emit(Repeat(b, count))) && ok == valid
    {
      Write(Repeat(b, count));
      ok := valid;
    }

    // fail(), invalidUtf8() and invalidNumber().
    method Fail(fault: Fault) returns (ok: bool)
      requires Valid() && fault != NoFault && (valid || fault == TooWide)
      modifies this
      ensures Valid() && Took(Capacity(limit), old(State()), State(), Emission([], fault)) && !ok && !valid
    {
      valid := false;
      if fault == InvalidUtf8 { invalidUtf8 := true; }
      if fault == InvalidNumber { invalidNumber := true; }
      ok := false;
    }
  }

  // ---- The serializer ----

  method WriteIndent(sink: Sink, depth: nat, opts: SerializeOptions) returns (ok: bool)
    requires sink.Valid()
    modifies sink
    ensures sink.Valid() && ok == sink.valid
    ensures Took(Capacity(sink.limit), old(sink.State()), sink.State(), Width(depth, opts))
  {
    if opts.indentWidth != 0 && depth > SIZE_MAX / opts.indentWidth {
      ok := sink.Fail(TooWide);
      return;
    }
    ok := sink.PutRun(IndentByte(opts), depth * opts.indentWidth);
  }

  method WriteUnicodeEscape(sink: Sink, value: nat) returns (ok: bool)
    requires sink.Valid() && value < 0x10000
    modifies sink
    ensures sink.Valid() && ok == sink.valid
    ensures Took(Capacity(sink.limit), old(sink.State()), sink.State(), Emit(UnicodeEscape(value)))
  {
    sink.Write(UnicodeEscape(value));
    ok := sink.valid;
  }

  // One character of a string body.
  method WriteFirst(sink: Sink, s: Bytes, i: nat, escapeNonAscii: bool) returns (ok: bool, used: nat)
    requires sink.Valid() && sink.valid && i < |s|
    modifies sink
    ensures sink.Valid() && ok == sink.valid
    ensures match EscapeFirst(s[i..], escapeNonAscii)
            case Unwritable =>
              !ok && Took(Capacity(sink.limit), old(sink.State()), sink.State(), Emission([], InvalidUtf8))
            case Written(text, n) =>
              used == n && Took(Capacity(sink.limit), old(sink.State()), sink.State(), Emit(text))
  {
    hide CharLen, CharAt;
    ghost var before := sink.State();
    var ch := s[i];
    used := 1;
    match EscapeLetter(ch) {
      case Some(letter) =>
        sink.Write([BACKSLASH, letter]);
        return sink.valid, 1;
      case None =>
    }
    if ch < 0x20 {
      ok := WriteUnicodeEscape(sink, ch);
      return;
    }
    if ch < 0x80 {
      sink.Put(ch);
      return sink.valid, 1;
    }
    used := Utf8Len(s, i, |s|);
    assert s[i..|s|] == s[i..];
    if used == 0 {
      ok := sink.Fail(InvalidUtf8);
      return;
    }
    if !escapeNonAscii {
      assert s[i..][..used] == s[i..i + used];
      sink.Write(s[i..i + used]);
      return sink.valid, used;
    }
    ok := WriteEscapedChar(sink, CharAt(s[i..]));
  }

  // A character beyond ASCII as one or two \u escapes.
  method WriteEscapedChar(sink: Sink, cp: nat) returns (ok: bool)
    requires sink.Valid() && sink.valid && Utf8.Scalar(cp)
    modifies sink
    ensures sink.Valid() && ok == sink.valid
    ensures Took(Capacity(sink.limit), old(sink.State()), sink.State(), Emit(EscapeChar(cp)))
  {
    ghost var before := sink.State();
    if cp <= 0xFFFF {
      ok := WriteUnicodeEscape(sink, cp);
      return;
    }
    var high, low := 0xD800 + (cp - 0x10000) / 0x400, 0xDC00 + (cp - 0x10000) % 0x400;
    ok := WriteUnicodeEscape(sink, high);
    ghost var middle := sink.State();
    if ok {
      ok := WriteUnicodeEscape(sink, low);
      TookThen(Capacity(sink.limit), before, middle, sink.State(), Emit(UnicodeEscape(high)), Emit(UnicodeEscape(low)));
    } else {
      TookStopped(Capacity(sink.limit), before, middle, Emit(UnicodeEscape(high)), Emit(UnicodeEscape(low)));
    }
  }

  // A string body between its quotes.
  method WriteEscaped(sink: Sink, s: Bytes, escapeNonAscii: bool) returns (ok: bool)
    requires sink.Valid() && sink.valid
    modifies sink
    ensures sink.Valid() && ok == sink.valid
    ensures Took(Capacity(sink.limit), old(sink.State()), sink.State(), Escaped(s, escapeNonAscii))
  {
    hide Took, EscapeFirst;
    ghost var before, cap := sink.State(), Capacity(sink.limit);
    ghost var e := SILENT;
    TookNothing(cap, before);
    assert s[0..] == s;
    ThenSilent(Escaped(s, escapeNonAscii));
    var i := 0;
    while i < |s|
      invariant 0 <= i <= |s| && sink.Valid() && sink.valid
      invariant Took(cap, before, sink.State(), e)
      invariant Then(e, Escaped(s[i..], escapeNonAscii)) == Escaped(s, escapeNonAscii)
    {
      ghost var at, rest := sink.State(), s[i..];
      var used;
      ok, used := WriteFirst(sink, s, i, escapeNonAscii);
      ghost var w := EscapeFirst(rest, escapeNonAscii);
      ghost var step := if w.Written? then Emit(w.text) else Emission([], InvalidUtf8);
      TookThen(cap, before, at, sink.State(), e, step);
      ghost var more := if w.Written? then Escaped(rest[w.used..], escapeNonAscii) else SILENT;
      ThenAssociative(e, step, more);
      ThenSilent(step);
      e := Then(e, step);
      if !ok {
        TookStopped(cap, before, sink.State(), e, more);
        return;
      }
      assert rest[w.used..] == s[i + used..];
      i := i + used;
    }
    assert s[i..] == [];
    ThenSilent(e);
    ok := true;
  }

  // Two steps in a row, the second only if the first left the sink healthy.
  lemma TookBoth(cap: nat, s: SinkState, t: SinkState, u: SinkState, a: Emission, b: Emission)
    requires Took(cap, s, t, a) && (if t.cause == NoCause then Took(cap, t, u, b) else u == t)
    ensures Took(cap, s, u, Then(a, b))
  {
    if t.cause == NoCause { TookThen(cap, s, t, u, a, b); } else { TookStopped(cap, s, t, a, b); }
  }

  method WriteQuoted(sink: Sink, s: Bytes, tail: Bytes, opts: SerializeOptions) returns (ok: bool)
    requires sink.Valid()
    modifies sink
    ensures sink.Valid() && ok == sink.valid
    ensures Took(Capacity(sink.limit), old(sink.State()), sink.State(),
                 Then(Emit([QUOTE]), Then(Escaped(s, opts.escapeNonAscii), Emit(tail))))
  {
    hide Took, Escaped;
    ghost var cap, s0 := Capacity(sink.limit), sink.State();
    ghost var body := Escaped(s, opts.escapeNonAscii);
    sink.Put(QUOTE);
    ghost var s1 := sink.State();
    if !sink.valid {
      TookBoth(cap, s0, s1, s1, Emit([QUOTE]), Then(body, Emit(tail)));
      return false;
    }
    ok := WriteEscaped(sink, s, opts.escapeNonAscii);
    ghost var s2 := sink.State();
    if ok { sink.Write(tail); }
    ok := sink.valid;
    TookBoth(cap, s1, s2, sink.State(), body, Emit(tail));
    TookBoth(cap, s0, s1, sink.State(), Emit([QUOTE]), Then(body, Emit(tail)));
  }

  method WriteScalar(sink: Sink, v: Json, opts: SerializeOptions) returns (ok: bool)
    requires sink.Valid() && sink.valid && !IsContainer(v)
    modifies sink
    ensures sink.Valid() && ok == sink.valid
    ensures Took(Capacity(sink.limit), old(sink.State()), sink.State(), RenderScalar(v, opts))
  {
    hide Took, Escaped;
    match v {
      case Null => sink.Write(NULL_WORD);
      case Bool(b) =>
        if b { sink.Write(TRUE_WORD); } else { sink.Write(FALSE_WORD); }
      case Int(i) => sink.Write(SignedDecimal(i));
      case UInt(u) => sink.Write(SignedDecimal(u));
      case Str(s) =>
        ok := WriteQuoted(sink, s, [QUOTE], opts);
        return;
      case Double(d) =>
        if !d.Finite? {
          match opts.nonFinite {
            case RejectNonFinite =>
              ok := sink.Fail(InvalidNumber);
              return;
            case NonFiniteToNull => sink.Write(NULL_WORD);
            case NonFiniteToString =>
              sink.Write(if d.NaN? then Ascii("\"NaN\"")
                         else if d.negative then Ascii("\"-Infinity\"")
                         else Ascii("\"Infinity\""));
          }
        } else {
          sink.Write(opts.number(d));
        }
    }
    ok := sink.valid;
  }

  // A container whose opening delimiter has been written, at its next child.
  datatype SerializeFrame = SerializeFrame(doc: Doc, index: nat, depth: nat, first: bool)

  predicate FrameOk(f: SerializeFrame) {
    DocOk(f.doc) && !f.doc.Scalar? && f.index <= Count(f.doc)
  }

  ghost function FrameRest(f: SerializeFrame, opts: SerializeOptions): Emission
    requires FrameOk(f)
  {
    RenderRest(f.doc, f.index, f.first, f.depth, opts)
  }

  ghost predicate StackOk(stack: seq<SerializeFrame>) {
    forall i :: 0 <= i < |stack| ==> FrameOk(stack[i])
  }

  // What the frames still owe, innermost first.
  ghost function Owed(stack: seq<SerializeFrame>, opts: SerializeOptions): Emission
    requires StackOk(stack)
    decreases |stack|
  {
    if stack == [] then SILENT
    else Then(FrameRest(stack[|stack| - 1], opts), Owed(stack[..|stack| - 1], opts))
  }

  // Loop turns a document still needs: one to close it and one to move on.
  ghost function Turns(doc: Doc, i: nat): (t: nat)
    requires i <= Count(doc)
    ensures t >= 2
    decreases doc, Count(doc) - i
  {
    if i == Count(doc) then 2 else Turns(ChildAt(doc, i), 0) + Turns(doc, i + 1)
  }

  ghost function StackTurns(stack: seq<SerializeFrame>): nat
    requires StackOk(stack)
    decreases |stack|
  {
    if stack == [] then 0
    else Turns(stack[|stack| - 1].doc, stack[|stack| - 1].index) - 1 + StackTurns(stack[..|stack| - 1])
  }

  // _openOrEmit(): a scalar or an empty container at once; otherwise the
  // opening delimiter, and a frame for the rest.
  method OpenOrEmit(sink: Sink, doc: Doc, depth: nat, opts: SerializeOptions, stack: seq<SerializeFrame>)
    returns (ok: bool, frames: seq<SerializeFrame>)
    requires sink.Valid() && sink.valid && DocOk(doc) && StackOk(stack)
    modifies sink
    ensures sink.Valid() && ok == sink.valid && StackOk(frames)
    ensures ok ==> StackTurns(frames) < StackTurns(stack) + Turns(doc, 0)
    ensures exists e :: Took(Capacity(sink.limit), old(sink.State()), sink.State(), e)
                        && Then(e, Owed(frames, opts)) == Then(Render(doc, depth, opts), Owed(stack, opts))
  {
    hide Took, RenderRest, RenderScalar;
    frames := stack;
    ghost var s0 := sink.State();
    if doc.Scalar? {
      ok := WriteScalar(sink, doc.v, opts);
      assert Took(Capacity(sink.limit), s0, sink.State(), Render(doc, depth, opts));
      return;
    }
    if Count(doc) == 0 {
      sink.Write([Opener(doc), Closer(doc)]);
      assert Took(Capacity(sink.limit), s0, sink.State(), Render(doc, depth, opts));
      return sink.valid, frames;
    }
    sink.Put(Opener(doc));
    ok := sink.valid;
    frames := stack + [SerializeFrame(doc, 0, depth, true)];
    assert frames[..|stack|] == stack;
    ThenAssociative(Emit([Opener(doc)]), RenderRest(doc, 0, true, depth, opts), Owed(stack, opts));
    assert Took(Capacity(sink.limit), s0, sink.State(), Emit([Opener(doc)]));
  }

  // Separator, indentation and name before a child.
  method WriteLead(sink: Sink, frame: SerializeFrame, opts: SerializeOptions) returns (ok: bool)
    requires sink.Valid() && sink.valid && FrameOk(frame) && frame.index < Count(frame.doc)
    modifies sink
    ensures sink.Valid() && ok == sink.valid
    ensures Took(Capacity(sink.limit), old(sink.State()), sink.State(),
                 Lead(frame.doc, frame.index, frame.first, frame.depth, opts))
  {
    hide Took, Escaped;
    ghost var cap, s0 := Capacity(sink.limit), sink.State();
    TookNothing(cap, s0);
    if !frame.first { sink.Put(COMMA); }
    ghost var s1 := sink.State();
    ghost var comma := Emit(if frame.first then [] else [COMMA]);
    assert Took(cap, s0, s1, comma);
    if opts.pretty {
      ok := WriteBreak(sink, frame.depth + 1, opts);
    } else {
      TookIdle(cap, s1, |sink.text|);
    }
    ghost var s2 := sink.State();
    ghost var tail :=
      if frame.doc.Dict? then
        var key := Escaped(frame.doc.fields[frame.index].key, opts.escapeNonAscii);
        Then(Emit([QUOTE]), Then(key, Emit(KeyEnd(opts))))
      else SILENT;
    if frame.doc.Dict? {
      ok := WriteQuoted(sink, frame.doc.fields[frame.index].key, KeyEnd(opts), opts);
    } else {
      TookIdle(cap, s2, |sink.text|);
    }
    TookThen(cap, s1, s2, sink.State(), Indent(frame.depth + 1, opts), tail);
    TookThen(cap, s0, s1, sink.State(), comma, Then(Indent(frame.depth + 1, opts), tail));
    ok := sink.valid;
  }

  lemma TookIdle(cap: nat, s: SinkState, n: nat)
    requires |s.text| == n <= cap
    ensures Took(cap, s, s, SILENT)
  {
    TookNothing(cap, s);
  }

  // A line break and the indentation after it.
  method WriteBreak(sink: Sink, depth: nat, opts: SerializeOptions) returns (ok: bool)
    requires sink.Valid() && opts.pretty
    modifies sink
    ensures sink.Valid() && ok == sink.valid
    ensures Took(Capacity(sink.limit), old(sink.State()), sink.State(), Indent(depth, opts))
  {
    hide Took;
    ghost var s0 := sink.State();
    sink.Put(NEWLINE);
    ghost var s1 := sink.State();
    ok := WriteIndent(sink, depth, opts);
    TookThen(Capacity(sink.limit), s0, s1, sink.State(), Emit([NEWLINE]), Width(depth, opts));
  }

  // The closing delimiter of a finished container.
  method WriteClose(sink: Sink, frame: SerializeFrame, opts: SerializeOptions) returns (ok: bool)
    requires sink.Valid() && sink.valid && FrameOk(frame)
    modifies sink
    ensures sink.Valid() && ok == sink.valid
    ensures Took(Capacity(sink.limit), old(sink.State()), sink.State(),
                 Then(Indent(frame.depth, opts), Emit([Closer(frame.doc)])))
  {
    hide Took;
    ghost var cap, s0 := Capacity(sink.limit), sink.State();
    if opts.pretty {
      ok := WriteBreak(sink, frame.depth, opts);
    } else {
      TookIdle(cap, s0, |sink.text|);
    }
    ghost var s1 := sink.State();
    sink.Put(Closer(frame.doc));
    TookThen(cap, s0, s1, sink.State(), Indent(frame.depth, opts), Emit([Closer(frame.doc)]));
    ok := sink.valid;
  }

  // One turn of the loop: the top frame's next child, or its end.
  method Turn(sink: Sink, stack: seq<SerializeFrame>, opts: SerializeOptions)
    returns (ok: bool, frames: seq<SerializeFrame>)
    requires sink.Valid() && sink.valid && StackOk(stack) && stack != []
    modifies sink
    ensures sink.Valid() && ok == sink.valid && StackOk(frames)
    ensures ok ==> StackTurns(frames) < StackTurns(stack)
    ensures exists e :: Took(Capacity(sink.limit), old(sink.State()), sink.State(), e)
                        && Then(e, Owed(frames, opts)) == Owed(stack, opts)
  {
    hide Took, Render, Lead, Indent;
    ghost var cap, s0 := Capacity(sink.limit), sink.State();
    var last := |stack| - 1;
    var frame := stack[last];
    frames := stack[..last];
    ghost var below := Owed(frames, opts);
    if frame.index == Count(frame.doc) {
      ok := WriteClose(sink, frame, opts);
      assert Took(cap, s0, sink.State(), FrameRest(frame, opts));
      return;
    }
    ghost var i := frame.index;
    ghost var head := Lead(frame.doc, i, frame.first, frame.depth, opts);
    var child := ChildAt(frame.doc, frame.index);
    ok := WriteLead(sink, frame, opts);
    ghost var s1 := sink.State();
    // The cursor moves past the child before the child is opened.
    var moved := frame.(index := frame.index + 1, first := false);
    frames := frames + [moved];
    assert frames[..last] == stack[..last];
    ghost var owed := Then(Render(child, frame.depth + 1, opts), Owed(frames, opts));
    assert Owed(stack, opts) == Then(head, owed) by {
      ThenAssociative(head, Then(Render(child, frame.depth + 1, opts), FrameRest(moved, opts)), below);
      ThenAssociative(Render(child, frame.depth + 1, opts), FrameRest(moved, opts), below);
    }
    if !ok {
      ghost var inner := Render(child, frame.depth + 1, opts);
      TookStopped(cap, s0, s1, head, inner);
      ThenAssociative(head, inner, Owed(frames, opts));
      return;
    }
    ok, frames := OpenOrEmit(sink, child, frame.depth + 1, opts, frames);
    ghost var e :| Took(cap, s1, sink.State(), e) && Then(e, Owed(frames, opts)) == owed;
    TookThen(cap, s0, s1, sink.State(), head, e);
    ThenAssociative(head, e, Owed(frames, opts));
  }

  // _writeValueTo(): the frames spell out exactly what the recursive printer
  // emits, or the sink stops where that emission exceeds it or faults.
  method WriteValue(sink: Sink, doc: Doc, opts: SerializeOptions) returns (ok: bool)
    requires sink.Valid() && sink.valid && sink.text == [] && DocOk(doc)
    modifies sink
    ensures sink.Valid() && ok == sink.valid
    ensures sink.State().cause == CauseOf(Capacity(sink.limit), 0, Render(doc, 0, opts))
    ensures ok ==> sink.text == Render(doc, 0, opts).text
  {
    hide Took, Render, Owed, StackTurns;
    ghost var cap, s0, whole := Capacity(sink.limit), sink.State(), Render(doc, 0, opts);
    var stack: seq<SerializeFrame>;
    NothingOwed(opts);
    ThenSilent(whole);
    ok, stack := OpenOrEmit(sink, doc, 0, opts, []);
    ghost var e :| Took(cap, s0, sink.State(), e) && Then(e, Owed(stack, opts)) == whole;
    while ok && stack != []
      invariant sink.Valid() && ok == sink.valid && StackOk(stack)
      invariant Took(cap, s0, sink.State(), e) && Then(e, Owed(stack, opts)) == whole
      decreases ok, StackTurns(stack)
    {
      ghost var s1, was := sink.State(), stack;
      ok, stack := Turn(sink, stack, opts);
      ghost var f :| Took(cap, s1, sink.State(), f) && Then(f, Owed(stack, opts)) == Owed(was, opts);
      TookThen(cap, s0, s1, sink.State(), e, f);
      ThenAssociative(e, f, Owed(stack, opts));
      e := Then(e, f);
    }
    if ok { ThenSilent(e); } else { TookStopped(cap, s0, sink.State(), e, Owed(stack, opts)); }
    TookWhole(cap, s0, sink.State(), whole);
  }

  lemma NothingOwed(opts: SerializeOptions)
    ensures StackOk([]) && Owed([], opts) == SILENT && StackTurns([]) == 0
  {
  }

  lemma TookWhole(cap: nat, s: SinkState, t: SinkState, e: Emission)
    requires Took(cap, s, t, e) && s.cause == NoCause && s.text == []
    ensures t.cause == CauseOf(cap, 0, e) && (t.cause == NoCause ==> t.text == e.text)
  {
  }

  // The transactional toString(): a counting pass settles everything that can
  // fail, and only then is the caller's string exchanged for the result.
  class StringSlot {
    var value: Bytes

    constructor (value: Bytes)
      ensures this.value == value
    {
      this.value := value;
    }

    method ToString(doc: Doc, opts: SerializeOptions) returns (ok: bool, error: Cause, counted: nat)
      requires DocOk(doc)
      modifies this
      ensures error == CauseOf(Capacity(opts.maxOutputBytes), 0, Render(doc, 0, opts))
      ensures ok <==> error == NoCause
      ensures ok ==> value == Render(doc, 0, opts).text && counted == |value| && Render(doc, 0, opts).fault == NoFault
      ensures !ok ==> value == old(value)
    {
      hide Render;
      var count := new Sink(opts.maxOutputBytes, false);
      ok := WriteValue(count, doc, opts);
      counted := count.written;
      if !ok {
        error := if count.invalidUtf8 then BadUtf8 else if count.invalidNumber then BadNumber else OutputLimit;
        return;
      }
      var sink := new Sink(opts.maxOutputBytes, true);
      var again := WriteValue(sink, doc, opts);
      assert again;
      value := sink.out;
      error := NoCause;
    }
  }
}
