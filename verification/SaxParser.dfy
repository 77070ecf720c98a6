// The SAX parser: the same texts from a cursor, reported as events.

module SaxParsing {
  import opened JsonValue
  import opened Utf8
  import opened Strings
  import opened Cursors
  import opened NumberText
  import opened Grammar
  import opened ParseProgress

  datatype Event =
    | OnNull | OnBool(b: bool) | OnNumber(v: Json) | OnString(s: Bytes)
    | OnStartArray | OnEndArray | OnStartObject | OnKey(key: Bytes) | OnEndObject

  // ---- What a text is reported as ----

  function NumberEvent(token: Bytes, isFloat: bool, opts: Options): Event {
    match Convert(token, isFloat, opts)
    case Some(v) => OnNumber(v)
    case None => OnNull
  }

  function Events(raw: Raw, opts: Options): seq<Event>
    decreases raw
  {
    match raw
    case RNull => [OnNull]
    case RBool(b) => [OnBool(b)]
    case RNumber(token, isFloat) => [NumberEvent(token, isFloat, opts)]
    case RString(s) => [OnString(s)]
    case RArray(items) => [OnStartArray] + ItemEvents(items, opts) + [OnEndArray]
    case RObject(ms) => [OnStartObject] + MemberEvents(ms, opts) + [OnEndObject]
  }

  function ItemEvents(items: seq<Raw>, opts: Options): seq<Event>
    decreases items
  {
    if items == [] then [] else ItemEvents(items[..|items| - 1], opts) + Events(items[|items| - 1], opts)
  }

  // A duplicate that is not kept is read but not reported.
  function MemberEvents(ms: seq<Member>, opts: Options): seq<Event>
    decreases ms
  {
    if ms == [] then []
    else
      var last := ms[|ms| - 1];
      var before := MemberEvents(ms[..|ms| - 1], opts);
      if opts.duplicates == KeepFirst && HasKey(ms[..|ms| - 1], last.key) then before
      else before + [OnKey(last.key)] + Events(last.value, opts)
  }

  lemma ItemEventsMore(items: seq<Raw>, x: Raw, opts: Options)
    ensures ItemEvents(items + [x], opts) == ItemEvents(items, opts) + Events(x, opts)
  {
    assert (items + [x])[..|items|] == items;
  }

  lemma MemberEventsMore(ms: seq<Member>, m: Member, opts: Options)
    ensures MemberEvents(ms + [m], opts) ==
      if opts.duplicates == KeepFirst && HasKey(ms, m.key) then MemberEvents(ms, opts)
      else MemberEvents(ms, opts) + [OnKey(m.key)] + Events(m.value, opts)
  {
    assert (ms + [m])[..|ms|] == ms;
  }

  class SaxParser {
    const cur: Cursor
    const opts: Options
    var nodeCount: nat
    // What the handler has been told.
    var events: seq<Event>

    constructor (cur: Cursor, opts: Options)
      requires cur.Valid()
      ensures Valid() && this.cur == cur && this.opts == opts && nodeCount == 0 && events == []
    {
      this.cur, this.opts, nodeCount, events := cur, opts, 0, [];
    }

    ghost predicate Valid()
      reads this, cur
      ensures Valid() ==> cur.pos <= |cur.src|
    {
      cur.Valid() && NodesFit(nodeCount, opts)
    }

    method ReserveNode() returns (ok: bool)
      requires Valid()
      modifies this`nodeCount
      ensures Valid() && (ok <==> NodesFit(old(nodeCount) + 1, opts))
      ensures nodeCount == if ok then old(nodeCount) + 1 else old(nodeCount)
    {
      if opts.maxNodes != 0 && nodeCount >= opts.maxNodes { return false; }
      nodeCount := nodeCount + 1;
      ok := true;
    }

    method SkipWhitespace() returns (ok: bool)
      requires Valid()
      modifies cur
      ensures Valid() && old(cur.pos) <= cur.pos
      ensures SkipSpace(Tail(cur.src, old(cur.pos))) == SkipSpace(Tail(cur.src, cur.pos))
      ensures ok ==> SkipSpace(Tail(cur.src, cur.pos)) == Tail(cur.src, cur.pos)
      ensures ok && cur.pos < |cur.src| ==> !IsSpace(cur.src[cur.pos])
      ensures cur.Roomy() ==> ok
    {
      hide Tail, SkipSpace, Coordinates, Cursor.Valid;
      var some, ch := cur.Peek();
      while some && IsSpace(ch)
        invariant Valid() && old(cur.pos) <= cur.pos
        invariant SkipSpace(Tail(cur.src, old(cur.pos))) == SkipSpace(Tail(cur.src, cur.pos))
        invariant some <==> cur.pos < |cur.src|
        invariant some ==> ch == cur.src[cur.pos]
        decreases |cur.src| - cur.pos
      {
        SpaceStep(cur.src, cur.pos);
        ok, ch := cur.GetChar();
        if !ok { return; }
        some, ch := cur.Peek();
      }
      SpaceStep(cur.src, cur.pos);
      ok := true;
    }

    // ---- Strings ----

    method ReadHex4() returns (ok: bool, v: nat)
      requires Valid()
      modifies cur
      ensures Valid() && old(cur.pos) <= cur.pos
      ensures ok ==> cur.pos == old(cur.pos) + 4 && Hex4(Tail(cur.src, old(cur.pos))) == Some(v)
      ensures !ok && cur.Roomy() ==> old(cur.pos) + 4 > |cur.src| || Hex4(Tail(cur.src, old(cur.pos))) == None
    {
      hide Tail, Coordinates, Cursor.Valid;
      ghost var start := cur.pos;
      ghost var s := Tail(cur.src, start);
      v := 0;
      var i := 0;
      while i < 4
        invariant 0 <= i <= 4 && Valid() && cur.pos == start + i
        invariant HexPrefix(s, i) == Some(v)
      {
        TailAt(cur.src, start, cur.pos);
        var ch;
        ok, ch := cur.GetChar();
        if !ok { return; }
        match HexValue(ch) {
          case Some(d) => v := v * 16 + d;
          case None =>
            if |s| >= 4 { HexStops(s, i + 1); }
            return false, 0;
        }
        i := i + 1;
      }
      ok := true;
    }

    // The bytes after a lead byte that has just been consumed.
    method ConsumeUtf8Tail(lead: Byte, out0: Bytes) returns (ok: bool, out: Bytes)
      requires Valid() && cur.pos > 0 && cur.src[cur.pos - 1] == lead && lead >= 0x80
      modifies cur
      ensures Valid() && old(cur.pos) <= cur.pos
      ensures ok ==>
        && CharLen(Tail(cur.src, old(cur.pos) - 1)) == cur.pos - (old(cur.pos) - 1)
        && Took(cur.src, old(cur.pos), cur.pos, out0, out)
      ensures !ok && cur.Roomy() ==> CharLen(Tail(cur.src, old(cur.pos) - 1)) == 0
    {
      hide Tail, Took, Coordinates, Cursor.Valid, Payload, CharLen, LeadOf, Acceptable;
      ghost var start := cur.pos;
      TailAt(cur.src, start - 1, start - 1);
      CharLenOf(Tail(cur.src, start - 1));
      var first := LeadOf(lead);
      if first.length == 0 { return false, out0; }
      var code;
      ok, code, out := Continuations(first, out0);
      ok := ok && Acceptable(code, first);
    }

    // The announced number of continuation bytes, and the code point so far.
    method Continuations(first: LeadByte, out0: Bytes) returns (ok: bool, code: nat, out: Bytes)
      requires Valid() && cur.pos > 0 && first == LeadOf(cur.src[cur.pos - 1]) && first.length > 0
      modifies cur
      ensures Valid() && old(cur.pos) <= cur.pos
      ensures ok ==>
        && cur.pos == old(cur.pos) + first.length - 1
        && Payload(Tail(cur.src, old(cur.pos) - 1), first.length) == Some(code)
        && Took(cur.src, old(cur.pos), cur.pos, out0, out)
      ensures !ok && cur.Roomy() && first.length <= |Tail(cur.src, old(cur.pos) - 1)| ==>
        Payload(Tail(cur.src, old(cur.pos) - 1), first.length) == None
    {
      hide Tail, Took, Coordinates, Cursor.Valid, Payload, LeadOf, Continues;
      ghost var start := cur.pos;
      ghost var s := Tail(cur.src, start - 1);
      TailAt(cur.src, start - 1, start - 1);
      FirstPayload(s);
      TookNone(cur.src, start, out0);
      code, out := first.bits, out0;
      var i := 1;
      while i < first.length
        invariant 1 <= i <= first.length && Valid() && cur.pos == start + i - 1
        invariant Payload(s, i) == Some(code) && Took(cur.src, start, cur.pos, out0, out)
      {
        ok, code, out := Continuation(start, i, code, out0, out);
        if !ok {
          if cur.Roomy() && first.length <= |s| { PayloadStops(s, i + 1, first.length); }
          return;
        }
        i := i + 1;
      }
      ok := true;
    }

    method Continuation(ghost start: nat, ghost i: nat, code0: nat, ghost out0: Bytes, out1: Bytes)
      returns (ok: bool, code: nat, out: Bytes)
      requires Valid() && i >= 1 && start > 0 && cur.pos == start + i - 1
      requires Payload(Tail(cur.src, start - 1), i) == Some(code0) && Took(cur.src, start, cur.pos, out0, out1)
      modifies cur
      ensures Valid() && old(cur.pos) <= cur.pos
      ensures ok ==>
        cur.pos == start + i && Payload(Tail(cur.src, start - 1), i + 1) == Some(code)
          && Took(cur.src, start, cur.pos, out0, out)
      ensures !ok && cur.Roomy() && i < |Tail(cur.src, start - 1)| ==> Payload(Tail(cur.src, start - 1), i + 1) == None
    {
      hide Tail, Took, Coordinates, Cursor.Valid, Payload, LeadOf;
      ghost var s := Tail(cur.src, start - 1);
      TailAt(cur.src, start - 1, cur.pos);
      code, out := code0, out1;
      var ch;
      ok, ch := cur.GetChar();
      if !ok { return; }
      PayloadStep(s, i);
      if !Continues(ch) { return false, code, out; }
      code := code * 0x40 + (ch - 0x80);
      TookByte(cur.src, start + i - 1, out);
      out := out + [ch];
      TookMore(cur.src, start, start + i - 1, cur.pos, out0, out1, out);
    }

    // \uXXXX; the letter u has just been consumed.
    method UnicodeEscaped() returns (ok: bool, text: Bytes)
      requires Valid() && cur.pos >= 2 && cur.src[cur.pos - 2] == BACKSLASH && cur.src[cur.pos - 1] == LETTER_U
      modifies cur
      ensures Valid() && old(cur.pos) <= cur.pos
      ensures ok ==> UnicodePiece(Tail(cur.src, old(cur.pos) - 2)) == Piece(text, cur.pos - (old(cur.pos) - 2))
      ensures !ok && cur.Roomy() ==> UnicodePiece(Tail(cur.src, old(cur.pos) - 2)) == BadPiece
    {
      hide Tail, Hex4, Encode, LowEscape, Coordinates, Cursor.Valid;
      ghost var start := cur.pos - 2;
      text := [];
      TailAt(cur.src, start, start + 2);
      var cp;
      ok, cp := ReadHex4();
      if !ok { return; }
      TailAt(cur.src, start, cur.pos);
      if HighSurrogate(cp) {
        var low;
        ok, low := LowHalf();
        if ok { text := Encode(Paired(cp, low)); }
      } else if LowSurrogate(cp) {
        ok := false;
      } else {
        text := Encode(cp);
      }
    }

    // The second half of a surrogate pair.
    method LowHalf() returns (ok: bool, low: nat)
      requires Valid()
      modifies cur
      ensures Valid() && old(cur.pos) <= cur.pos
      ensures ok ==> cur.pos == old(cur.pos) + 6 && LowEscape(Tail(cur.src, old(cur.pos))) == Some(low)
      ensures !ok && cur.Roomy() ==> LowEscape(Tail(cur.src, old(cur.pos))) == None
    {
      hide Tail, Hex4, Coordinates, Cursor.Valid, LowEscape;
      low := 0;
      LowAt(cur.src, cur.pos);
      var some, ch := cur.Peek();
      if !some || ch != BACKSLASH { return false, 0; }
      ok, ch := cur.GetChar();
      if !ok { return; }
      ok, ch := cur.GetChar();
      if !ok { return; }
      if ch != LETTER_U { return false, 0; }
      ok, low := ReadHex4();
      ok := ok && LowSurrogate(low);
    }

    // One piece of a string whose first byte, not a quote, has been consumed.
    method PieceAfter(ch: Byte, out0: Bytes) returns (ok: bool, out: Bytes)
      requires Valid() && cur.pos > 0 && cur.src[cur.pos - 1] == ch && ch != QUOTE
      modifies cur
      ensures Valid() && old(cur.pos) <= cur.pos
      ensures ok ==>
        var p := NextPiece(Tail(cur.src, old(cur.pos) - 1));
        p.Piece? && p.used == cur.pos - (old(cur.pos) - 1) && out == out0 + p.text
      ensures !ok && cur.Roomy() ==> NextPiece(Tail(cur.src, old(cur.pos) - 1)) == BadPiece
    {
      hide Tail, UnicodePiece, CharLen, Took, Coordinates, Cursor.Valid;
      ghost var start := cur.pos - 1;
      TailAt(cur.src, start, start);
      TailAt(cur.src, start, start + 1);
      out := out0;
      if ch == BACKSLASH {
        var e;
        ok, e := cur.GetChar();
        if !ok { return; }
        if e == LETTER_U {
          var text;
          ok, text := UnicodeEscaped();
          out := out + text;
          return;
        }
        match ShortEscape(e) {
          case Some(c) => out := out + [c];
          case None => return false, out;
        }
      } else if ch < 0x20 {
        return false, out;
      } else if ch >= 0x80 {
        TookByte(cur.src, start, out);
        out := out + [ch];
        ghost var o := out;
        ok, out := ConsumeUtf8Tail(ch, out);
        if ok {
          TookMore(cur.src, start, start + 1, cur.pos, out0, o, out);
          TookPrefix(cur.src, start, cur.pos, out0, out);
        }
        return;
      } else {
        out := out + [ch];
      }
      ok := true;
    }

    // A quoted string, from its opening quote.
    method ParseStringRaw() returns (ok: bool, out: Bytes)
      requires Valid()
      modifies cur
      ensures Valid() && old(cur.pos) <= cur.pos
      ensures ok ==> old(cur.pos) < |cur.src| && cur.src[old(cur.pos)] == QUOTE
                     && Decode(Tail(cur.src, old(cur.pos) + 1)) == Body(out, Tail(cur.src, cur.pos))
      ensures !ok && cur.Roomy() ==>
        old(cur.pos) >= |cur.src| || cur.src[old(cur.pos)] != QUOTE || Decode(Tail(cur.src, old(cur.pos) + 1)) == NoBody
    {
      hide Tail, NextPiece, Decode, Prepend, Coordinates, Cursor.Valid;
      out := [];
      var ch;
      ok, ch := cur.GetChar();
      if !ok || ch != QUOTE { return false, out; }
      ghost var start := cur.pos;
      PrependTwice([], [], Decode(Tail(cur.src, start)));
      while true
        invariant Valid() && start <= cur.pos
        invariant Decode(Tail(cur.src, start)) == Prepend(out, Decode(Tail(cur.src, cur.pos)))
        decreases |cur.src| - cur.pos
      {
        ghost var p, out0 := cur.pos, out;
        DecodeStep(Tail(cur.src, p));
        PrependNone(out);
        ok, ch := cur.GetChar();
        if !ok { return; }
        TailAt(cur.src, p, p);
        if ch == QUOTE {
          TailAt(cur.src, p, cur.pos);
          PrependBody(out, Tail(cur.src, cur.pos));
          return true, out;
        }
        ok, out := PieceAfter(ch, out);
        if !ok { return; }
        TailAt(cur.src, p, cur.pos);
        PrependTwice(out0, NextPiece(Tail(cur.src, p)).text, Decode(Tail(cur.src, cur.pos)));
      }
    }

    // ---- Values ----

    method MatchLiteral(word: Bytes) returns (ok: bool)
      requires Valid()
      modifies cur
      ensures Valid() && old(cur.pos) <= cur.pos
      ensures ok ==> StartsWith(Tail(cur.src, old(cur.pos)), word) && cur.pos == old(cur.pos) + |word|
      ensures !ok && cur.Roomy() ==> !StartsWith(Tail(cur.src, old(cur.pos)), word)
    {
      hide Tail, Coordinates, Cursor.Valid;
      ghost var start := cur.pos;
      ghost var s := Tail(cur.src, start);
      var i := 0;
      while i < |word|
        invariant 0 <= i <= |word| && Valid() && cur.pos == start + i
        invariant s[..i] == word[..i]
      {
        TailAt(cur.src, start, cur.pos);
        var ch;
        ok, ch := cur.GetChar();
        if !ok { return; }
        if ch != word[i] {
          if |word| <= |s| { assert s[..|word|][i] == s[i]; }
          return false;
        }
        assert s[..i + 1] == s[..i] + [ch] && word[..i + 1] == word[..i] + [ch];
        i := i + 1;
      }
      assert word[..i] == word;
      ok := true;
    }

    method Tell(emit: bool, e: Event)
      modifies this`events
      ensures events == if emit then old(events) + [e] else old(events)
    {
      if emit { events := events + [e]; }
    }

    method ParseStringValue(emit: bool) returns (ok: bool)
      requires Valid() && cur.pos < |cur.src| && cur.src[cur.pos] == QUOTE
      modifies this, cur
      ensures Valid() && old(cur.pos) <= cur.pos
      ensures ok ==> nodeCount == old(nodeCount) + 1 && Decode(Tail(cur.src, old(cur.pos) + 1)).Body?
      ensures ok ==>
        var r := Decode(Tail(cur.src, old(cur.pos) + 1));
        r.rest == Tail(cur.src, cur.pos) && events == old(events) + Told(emit, [OnString(r.text)])
      ensures !ok && cur.Roomy() ==>
        Decode(Tail(cur.src, old(cur.pos) + 1)) == NoBody || !NodesFit(old(nodeCount) + 1, opts)
    {
      hide Coordinates, Cursor.Valid, Tail, Decode, NodesFit;
      ok := ReserveNode();
      if !ok { return; }
      var value;
      ok, value := ParseStringRaw();
      if !ok { return; }
      Tell(emit, OnString(value));
      assert events == old(events) + Told(emit, [OnString(value)]);
    }

    method ParseNumberValue(emit: bool) returns (ok: bool)
      requires Valid()
      modifies this, cur
      ensures Valid() && old(cur.pos) <= cur.pos
      ensures ok ==> nodeCount == old(nodeCount) + 1 && ScanNumber(Tail(cur.src, old(cur.pos))).Token?
      ensures ok ==>
        var t := ScanNumber(Tail(cur.src, old(cur.pos)));
        && t.rest == Tail(cur.src, cur.pos) && Convert(t.text, t.isFloat, opts).Some?
        && events == old(events) + Told(emit, [NumberEvent(t.text, t.isFloat, opts)])
      ensures !ok && cur.Roomy() && NodesFit(old(nodeCount) + 1, opts) ==>
        var t := ScanNumber(Tail(cur.src, old(cur.pos)));
        !t.Token? || Convert(t.text, t.isFloat, opts) == None
    {
      hide Coordinates, Cursor.Valid, Tail, ScanNumber, Convert;
      var text, isFloat;
      ok, text, isFloat := ScanJsonNumber(cur);
      if !ok { return; }
      ok := ReserveNode();
      if !ok { return; }
      match Convert(text, isFloat, opts) {
        case None => return false;
        case Some(v) =>
          Tell(emit, OnNumber(v));
          assert events == old(events) + Told(emit, [OnNumber(v)]);
      }
    }

    method ParseKeywordValue(emit: bool) returns (ok: bool)
      requires Valid()
      modifies this, cur
      ensures Valid() && old(cur.pos) <= cur.pos
      ensures ok ==> nodeCount == old(nodeCount) + 1 && Keyword(Tail(cur.src, old(cur.pos))).Parsed?
      ensures ok ==>
        var p := Keyword(Tail(cur.src, old(cur.pos)));
        && p.rest == Tail(cur.src, cur.pos) && !p.raw.RArray? && !p.raw.RObject? && !p.raw.RNumber?
        && events == old(events) + Told(emit, Events(p.raw, opts))
      ensures !ok && cur.Roomy() ==>
        Keyword(Tail(cur.src, old(cur.pos))) == NoParse || !NodesFit(old(nodeCount) + 1, opts)
    {
      hide Coordinates, Cursor.Valid, Tail, Keyword, StartsWith;
      ghost var start := cur.pos;
      ghost var s := Tail(cur.src, start);
      TailAt(cur.src, start, start);
      KeywordFirst(s);
      var some, ch := cur.Peek();
      if !some { return false; }
      var k := if ch == 'n' as int then 0 else if ch == 't' as int then 1 else if ch == 'f' as int then 2 else 3;
      if k == 3 { return false; }
      ok := MatchLiteral(Word(k));
      if !ok { return; }
      TailAt(cur.src, start, cur.pos);
      KeywordEvents(s, k, opts);
      ok := ReserveNode();
      if !ok { return; }
      var e := if k == 0 then OnNull else OnBool(k == 1);
      Tell(emit, e);
      assert events == old(events) + Told(emit, [e]);
    }

    // Dispatches on the next byte that is not white space.
    method ParseValue(depth: nat, emit: bool) returns (ok: bool)
      requires Valid() && depth <= opts.maxDepth
      modifies this, cur
      ensures Valid() && old(cur.pos) <= cur.pos
      ensures ok ==> old(cur.pos) < cur.pos
      ensures ok ==>
        && ValueRead(Grammar.ParseValue(Tail(cur.src, old(cur.pos))), Tail(cur.src, cur.pos), opts,
                     opts.maxDepth - depth, old(nodeCount), nodeCount)
        && events == old(events) + Told(emit, Events(Grammar.ParseValue(Tail(cur.src, old(cur.pos))).raw, opts))
      ensures !ok && cur.Roomy() ==>
        ValueLost(Grammar.ParseValue(Tail(cur.src, old(cur.pos))), opts, opts.maxDepth - depth, old(nodeCount))
      decreases |cur.src| - cur.pos, 2
    {
      hide Tail, SkipSpace, Decode, Keyword, ScanNumber, Convert, Grammar.ParseArray, Grammar.ParseObject;
      hide Coordinates, Cursor.Valid;
      hide Fits, Nodes, Events, NodesFit, NumberEvent, Told, Grammar.ParseValue, StartsNumber, ValueRead, ValueLost;
      hide ArrayLost, ObjectLost, ArrayRead, ObjectRead;
      ghost var start, n := cur.pos, nodeCount;
      ghost var p, d := Grammar.ParseValue(Tail(cur.src, start)), opts.maxDepth - depth;
      ok := SkipWhitespace();
      if !ok { return; }
      ghost var t, at := Tail(cur.src, cur.pos), cur.pos;
      TailAt(cur.src, at, at);
      NothingLeft(Tail(cur.src, start), opts, d, n);
      var some, ch := cur.Peek();
      if !some { return false; }
      TailAt(cur.src, at, at + 1);
      if ch == QUOTE {
        ok := ParseStringValue(emit);
        StringCase(Tail(cur.src, start), opts, d, n, Tail(cur.src, cur.pos));
      } else if ch == OPEN_BRACE {
        ok := ParseObject(depth + 1, emit);
        ObjectCase(Tail(cur.src, start), opts, d, n, Tail(cur.src, cur.pos), nodeCount);
      } else if ch == OPEN_BRACKET {
        ok := ParseArray(depth + 1, emit);
        ArrayCase(Tail(cur.src, start), opts, d, n, Tail(cur.src, cur.pos), nodeCount);
      } else if StartsNumber(ch) {
        ok := ParseNumberValue(emit);
        NumberCase(Tail(cur.src, start), opts, d, n, Tail(cur.src, cur.pos));
      } else {
        ok := ParseKeywordValue(emit);
        KeywordCase(Tail(cur.src, start), opts, d, n, Tail(cur.src, cur.pos));
      }
      if ok { ReadShorter(cur.src, start, cur.pos, opts, d, n, nodeCount); }
    }

    method ParseArray(depth: nat, emit: bool) returns (ok: bool)
      requires Valid() && cur.pos < |cur.src| && cur.src[cur.pos] == OPEN_BRACKET && 1 <= depth <= opts.maxDepth + 1
      modifies this, cur
      ensures Valid() && old(cur.pos) <= cur.pos
      ensures ok ==>
        && ArrayRead(Grammar.ParseArray(Tail(cur.src, old(cur.pos) + 1), false, false), Tail(cur.src, cur.pos), opts,
                     opts.maxDepth - depth + 1, old(nodeCount), nodeCount)
        && events ==
           old(events)
           + Told(emit, Events(RArray(Grammar.ParseArray(Tail(cur.src, old(cur.pos) + 1), false, false).items), opts))
      ensures !ok && cur.Roomy() ==>
        ArrayLost(Grammar.ParseArray(Tail(cur.src, old(cur.pos) + 1), false, false), opts,
                  opts.maxDepth - depth + 1, old(nodeCount))
      decreases |cur.src| - cur.pos, 1
    {
      hide Tail, Grammar.ParseArray, Coordinates, Cursor.Valid, Fits, Nodes, Events, NodesFit, ArrayLost, ArrayMid;
      hide ArrayDone, Told;
      ghost var start, n, d := cur.pos + 1, nodeCount, opts.maxDepth - depth + 1;
      ghost var whole := Grammar.ParseArray(Tail(cur.src, start), false, false);
      NoRoom(Tail(cur.src, start), opts, d, n);
      if depth > opts.maxDepth { return false; }
      ok := ReserveNode();
      if !ok { return; }
      var ch;
      ok, ch := cur.GetChar();
      if !ok || ch != OPEN_BRACKET { return false; }
      Tell(emit, OnStartArray);
      ArrayStart(cur.src, start, opts, d, n);
      StartTold(old(events), emit, opts);
      ok := ElementLoop(depth, emit, whole, n, old(events));
    }

    method ElementLoop(depth: nat, emit: bool, ghost whole: ParseItems, ghost n: nat, ghost before: seq<Event>)
      returns (ok: bool)
      requires Valid() && 1 <= depth <= opts.maxDepth
      requires ArrayMid(Tail(cur.src, cur.pos), whole, opts, opts.maxDepth - depth + 1, n, nodeCount, [], [], false,
                        false)
      requires events == before + Told(emit, [OnStartArray] + ItemEvents([], opts))
      modifies this, cur
      ensures Valid() && old(cur.pos) <= cur.pos
      ensures ok ==>
        && ArrayRead(whole, Tail(cur.src, cur.pos), opts, opts.maxDepth - depth + 1, n, nodeCount)
        && events == before + Told(emit, Events(RArray(whole.items), opts))
      ensures !ok && cur.Roomy() ==> ArrayLost(whole, opts, opts.maxDepth - depth + 1, n)
      decreases |cur.src| - cur.pos, 3
    {
      hide Tail, SkipSpace, Grammar.ParseArray, Grammar.ParseValue, Coordinates, Cursor.Valid, Fits, Nodes, Events;
      hide ItemEvents, NodesFit, ArrayLost, ArrayMid, ArrayDone, Build, Told;
      ghost var d := opts.maxDepth - depth + 1;
      ghost var acc: seq<Raw>, items: seq<Json> := [], [];
      var owed, any := false, false;
      while true
        invariant Valid() && old(cur.pos) <= cur.pos
        invariant ArrayMid(Tail(cur.src, cur.pos), whole, opts, d, n, nodeCount, acc, items, any, owed)
        invariant events == before + Told(emit, [OnStartArray] + ItemEvents(acc, opts))
        decreases |cur.src| - cur.pos
      {
        ghost var q := cur.pos;
        ok := SkipWhitespace();
        if !ok { return; }
        ArrayPeeked(cur.src, q, cur.pos, whole, opts, d, n, nodeCount, acc, items, any, owed);
        ghost var t, at := Tail(cur.src, cur.pos), cur.pos;
        TailAt(cur.src, at, at);
        if at < |cur.src| { TailAt(cur.src, at, at + 1); }
        ArrayNext(t, whole, opts, d, n, nodeCount, acc, items, any, owed);
        var some, ch := cur.Peek();
        if !some { return false; }
        if ch == CLOSE_BRACKET {
          if owed { return false; }
          ok, ch := cur.GetChar();
          if !ok { return; }
          DoneIsRead(whole, Tail(cur.src, cur.pos), opts, d, n, nodeCount, acc, items);
          ghost var told := events;
          Tell(emit, OnEndArray);
          EndTold(before, emit, whole.items, opts, told, events);
          return;
        }
        if ch == COMMA {
          if !any || owed { return false; }
          ok, ch := cur.GetChar();
          if !ok { return; }
          owed := true;
        } else {
          if any && !owed { return false; }
          ghost var told, nodes := events, nodeCount;
          ok := ParseValue(depth, emit);
          ghost var p := Grammar.ParseValue(t);
          ElementRead(t, whole, opts, d, n, nodes, acc, items, any, owed, ok, nodeCount, Tail(cur.src, cur.pos),
                      cur.Roomy());
          if !ok { return; }
          ItemTold(before, emit, acc, p.raw, opts, told, events);
          items := items + [Build(p.raw, opts)];
          acc := acc + [p.raw];
          any, owed := true, false;
        }
      }
    }

    method ParseObject(depth: nat, emit: bool) returns (ok: bool)
      requires Valid() && cur.pos < |cur.src| && cur.src[cur.pos] == OPEN_BRACE && 1 <= depth <= opts.maxDepth + 1
      modifies this, cur
      ensures Valid() && old(cur.pos) <= cur.pos
      ensures ok ==>
        && ObjectRead(Grammar.ParseObject(Tail(cur.src, old(cur.pos) + 1), false, false), Tail(cur.src, cur.pos), opts,
                      opts.maxDepth - depth + 1, old(nodeCount), nodeCount)
        && var members := Grammar.ParseObject(Tail(cur.src, old(cur.pos) + 1), false, false).members;
           events == old(events) + Told(emit, Events(RObject(members), opts))
      ensures !ok && cur.Roomy() ==>
        ObjectLost(Grammar.ParseObject(Tail(cur.src, old(cur.pos) + 1), false, false), opts,
                   opts.maxDepth - depth + 1, old(nodeCount))
      decreases |cur.src| - cur.pos, 1
    {
      hide Tail, Grammar.ParseObject, Coordinates, Cursor.Valid, Fits, Nodes, Events, NodesFit, ObjectLost, ObjectMid;
      hide ObjectDone, Told;
      ghost var start, n, d := cur.pos + 1, nodeCount, opts.maxDepth - depth + 1;
      ghost var whole := Grammar.ParseObject(Tail(cur.src, start), false, false);
      NoRoomObject(Tail(cur.src, start), opts, d, n);
      if depth > opts.maxDepth { return false; }
      ok := ReserveNode();
      if !ok { return; }
      var ch;
      ok, ch := cur.GetChar();
      if !ok || ch != OPEN_BRACE { return false; }
      Tell(emit, OnStartObject);
      ObjectStart(cur.src, start, opts, d, n);
      StartTold(old(events), emit, opts);
      ok := MemberLoop(depth, emit, whole, n, old(events));
    }

    method MemberLoop(depth: nat, emit: bool, ghost whole: ParseMembers, ghost n: nat, ghost before: seq<Event>)
      returns (ok: bool)
      requires Valid() && 1 <= depth <= opts.maxDepth
      requires ObjectMid(Tail(cur.src, cur.pos), whole, opts, opts.maxDepth - depth + 1, n, nodeCount, [], map[],
                         false, false)
      requires events == before + Told(emit, [OnStartObject] + MemberEvents([], opts))
      modifies this, cur
      ensures Valid() && old(cur.pos) <= cur.pos
      ensures ok ==>
        && ObjectRead(whole, Tail(cur.src, cur.pos), opts, opts.maxDepth - depth + 1, n, nodeCount)
        && events == before + Told(emit, Events(RObject(whole.members), opts))
      ensures !ok && cur.Roomy() ==> ObjectLost(whole, opts, opts.maxDepth - depth + 1, n)
      decreases |cur.src| - cur.pos, 3
    {
      hide Tail, SkipSpace, Grammar.ParseObject, Grammar.ParseValue, Coordinates, Cursor.Valid, Fits, Nodes, Events;
      hide MemberEvents;
      hide NodesFit, ObjectLost, ObjectMid, ObjectDone, ObjectSoFar, BuildMembers, Told, MemberParse;
      ghost var d := opts.maxDepth - depth + 1;
      ghost var acc: seq<Member>, members: map<Bytes, Json> := [], map[];
      var owed, any := false, false;
      var seenKeys: set<Bytes> := {};
      while true
        invariant Valid() && old(cur.pos) <= cur.pos
        invariant ObjectMid(Tail(cur.src, cur.pos), whole, opts, d, n, nodeCount, acc, members, any, owed)
        invariant SeenKeys(opts, acc, seenKeys)
        invariant events == before + Told(emit, [OnStartObject] + MemberEvents(acc, opts))
        decreases |cur.src| - cur.pos
      {
        ghost var q := cur.pos;
        ok := SkipWhitespace();
        if !ok { return; }
        ObjectPeeked(cur.src, q, cur.pos, whole, opts, d, n, nodeCount, acc, members, any, owed);
        ghost var t, at := Tail(cur.src, cur.pos), cur.pos;
        TailAt(cur.src, at, at);
        if at < |cur.src| { TailAt(cur.src, at, at + 1); }
        ObjectNext(t, whole, opts, d, n, nodeCount, acc, members, any, owed);
        var some, ch := cur.Peek();
        if !some { return false; }
        if ch == CLOSE_BRACE {
          if owed { return false; }
          ok, ch := cur.GetChar();
          if !ok { return; }
          DoneObjectIsRead(whole, Tail(cur.src, cur.pos), opts, d, n, nodeCount, members);
          ghost var told := events;
          Tell(emit, OnEndObject);
          EndObjectTold(before, emit, whole.members, opts, told, events);
          return;
        }
        if ch == COMMA {
          if !any || owed { return false; }
          ok, ch := cur.GetChar();
          if !ok { return; }
          owed := true;
        } else {
          if ch != QUOTE { return false; }
          if any && !owed { return false; }
          ok, acc, members, seenKeys := ReadMember(depth, emit, whole, n, before, acc, members, seenKeys);
          if !ok { return; }
          any, owed := true, false;
        }
      }
    }

    // Name and colon of a member; the value has not been reached.
    method ReadKey() returns (ok: bool, key: Bytes)
      requires Valid() && cur.pos < |cur.src| && cur.src[cur.pos] == QUOTE
      modifies cur
      ensures Valid() && old(cur.pos) <= cur.pos
      ensures ok ==> old(cur.pos) < cur.pos
      ensures ok ==>
        MemberParse(Tail(cur.src, old(cur.pos) + 1)) == MemberOf(key, Grammar.ParseValue(Tail(cur.src, cur.pos)))
      ensures !ok && cur.Roomy() ==> MemberParse(Tail(cur.src, old(cur.pos) + 1)) == NoMembers
    {
      hide Tail, SkipSpace, Decode, Grammar.ParseValue, Grammar.ParseObject, Coordinates, Cursor.Valid;
      ok, key := ParseStringRaw();
      if !ok { return; }
      ghost var u := Tail(cur.src, cur.pos);
      ok := SkipWhitespace();
      if !ok { return; }
      TailAt(cur.src, cur.pos, cur.pos);
      if cur.pos < |cur.src| { TailAt(cur.src, cur.pos, cur.pos + 1); }
      var ch;
      ok, ch := cur.GetChar();
      ok := ok && ch == COLON;
    }

    method ReadMember(depth: nat, emit: bool, ghost whole: ParseMembers, ghost n: nat, ghost before: seq<Event>,
                      ghost acc0: seq<Member>, ghost members0: map<Bytes, Json>, seen0: set<Bytes>)
      returns (ok: bool, ghost acc: seq<Member>, ghost members: map<Bytes, Json>, seenKeys: set<Bytes>)
      requires Valid() && cur.pos < |cur.src| && cur.src[cur.pos] == QUOTE && 1 <= depth <= opts.maxDepth
      requires ObjectSoFar(opts, opts.maxDepth - depth + 1, n, nodeCount, acc0, members0)
      requires whole == PutMember(acc0, MemberParse(Tail(cur.src, cur.pos + 1)))
      requires SeenKeys(opts, acc0, seen0)
      requires events == before + Told(emit, [OnStartObject] + MemberEvents(acc0, opts))
      modifies this, cur
      ensures Valid() && old(cur.pos) <= cur.pos && (ok ==> old(cur.pos) < cur.pos)
      ensures ok ==>
        && ObjectMid(Tail(cur.src, cur.pos), whole, opts, opts.maxDepth - depth + 1, n, nodeCount, acc, members, true,
                     false)
        && SeenKeys(opts, acc, seenKeys)
        && events == before + Told(emit, [OnStartObject] + MemberEvents(acc, opts))
      ensures !ok && cur.Roomy() ==> ObjectLost(whole, opts, opts.maxDepth - depth + 1, n)
      decreases |cur.src| - cur.pos, 0
    {
      hide Tail, SkipSpace, Grammar.ParseObject, Grammar.ParseValue, Coordinates, Cursor.Valid, Fits, Nodes, Events;
      hide MemberEvents;
      hide NodesFit, ObjectLost, ObjectMid, ObjectSoFar, Build, BuildMembers, Told, MemberParse, MemberOf, SeenKeys;
      hide HasKey, PutMember;
      acc, members, seenKeys := acc0, members0, seen0;
      ghost var d := opts.maxDepth - depth + 1;
      NothingParsed(acc0, whole, opts, d, n);
      var key;
      ok, key := ReadKey();
      if !ok { return; }
      ghost var p := Grammar.ParseValue(Tail(cur.src, cur.pos));
      var duplicate := opts.duplicates != KeepLast && key in seenKeys;
      if duplicate && opts.duplicates == RejectDuplicates {
        RepeatedKey(acc0, members0, seen0, key, p, opts, d, n, nodeCount, whole);
        return false, acc, members, seenKeys;
      }
      if !duplicate && opts.duplicates != KeepLast { seenKeys := seenKeys + {key}; }
      var emitValue := emit && !(duplicate && opts.duplicates == KeepFirst);
      ghost var told, nodes := events, nodeCount;
      Tell(emitValue, OnKey(key));
      ok := ParseValue(depth, emitValue);
      if !ok {
        if cur.Roomy() { MemberLost(acc0, members0, key, p, opts, d, n, nodes, whole); }
        return;
      }
      acc := acc0 + [Member(key, p.raw)];
      members := if key in members0 && opts.duplicates == KeepFirst then members0
                 else members0[key := Build(p.raw, opts)];
      MemberRead(acc0, members0, seen0, key, p, opts, d, n, nodes, whole, nodeCount);
      MemberTold(before, emit, acc0, members0, seen0, key, p.raw, opts, d, n, nodes, told, events);
      SeenMore(opts, acc0, seen0, key, p.raw);
    }
  }

  lemma FirstPayload(s: Bytes)
    requires s != []
    ensures Payload(s, 1) == Some(LeadOf(s[0]).bits)
  {
  }

  lemma TookPrefix(src: Bytes, start: nat, pos: nat, out0: Bytes, out: Bytes)
    requires start < pos <= |src| && Took(src, start, pos, out0, out)
    ensures out == out0 + Tail(src, start)[..pos - start]
  {
  }

  // ---- What has been told ----

  function Told(emit: bool, events: seq<Event>): seq<Event> {
    if emit then events else []
  }

  ghost predicate ValueRead(p: Parse, rest: Bytes, opts: Options, d: nat, nodes: nat, nodeCount: nat) {
    p.Parsed? && p.rest == rest && Fits(p.raw, opts, d) && nodeCount == nodes + Nodes(p.raw)
  }

  ghost predicate ValueLost(p: Parse, opts: Options, d: nat, nodes: nat) {
    !(p.Parsed? && Admits(p.raw, opts, d, nodes))
  }

  ghost predicate ArrayRead(p: ParseItems, rest: Bytes, opts: Options, d: nat, nodes: nat, nodeCount: nat) {
    p.Items? && p.rest == rest && Fits(RArray(p.items), opts, d) && nodeCount == nodes + Nodes(RArray(p.items))
  }

  ghost predicate ObjectRead(p: ParseMembers, rest: Bytes, opts: Options, d: nat, nodes: nat, nodeCount: nat) {
    p.Members? && p.rest == rest && Fits(RObject(p.members), opts, d) && nodeCount == nodes + Nodes(RObject(p.members))
  }

  // ParseValue, by the first byte.
  lemma NothingLeft(s: Bytes, opts: Options, d: nat, n: nat)
    ensures SkipSpace(s) == [] ==> ValueLost(Grammar.ParseValue(s), opts, d, n)
  {
  }

  lemma ReadShorter(src: Bytes, start: nat, pos: nat, opts: Options, d: nat, n: nat, nodeCount: nat)
    requires start <= |src| && pos <= |src|
    requires ValueRead(Grammar.ParseValue(Tail(src, start)), Tail(src, pos), opts, d, n, nodeCount)
    ensures start < pos
  {
    ShorterTail(src, start, pos);
  }

  lemma StringCase(s: Bytes, opts: Options, d: nat, n: nat, rest: Bytes)
    requires var t := SkipSpace(s); t != [] && t[0] == QUOTE
    ensures var p := Grammar.ParseValue(s); var r := Decode(SkipSpace(s)[1..]);
            && (r == NoBody || !NodesFit(n + 1, opts) ==> ValueLost(p, opts, d, n))
            && (r.Body? && r.rest == rest ==>
                 ValueRead(p, rest, opts, d, n, n + 1) && Events(p.raw, opts) == [OnString(r.text)])
  {
    hide Decode, SkipSpace, NodesFit;
  }

  lemma NumberCase(s: Bytes, opts: Options, d: nat, n: nat, rest: Bytes)
    requires var t := SkipSpace(s);
             t != [] && t[0] != QUOTE && t[0] != OPEN_BRACE && t[0] != OPEN_BRACKET && StartsNumber(t[0])
    ensures var p := Grammar.ParseValue(s); var r := ScanNumber(SkipSpace(s));
            && (!r.Token? || Convert(r.text, r.isFloat, opts) == None || !NodesFit(n + 1, opts) ==>
                 ValueLost(p, opts, d, n))
            && (r.Token? && r.rest == rest && Convert(r.text, r.isFloat, opts).Some? ==>
                ValueRead(p, rest, opts, d, n, n + 1) && Events(p.raw, opts) == [NumberEvent(r.text, r.isFloat, opts)])
  {
    hide ScanNumber, SkipSpace, NodesFit, Convert;
  }

  lemma KeywordCase(s: Bytes, opts: Options, d: nat, n: nat, rest: Bytes)
    requires var t := SkipSpace(s);
             t != [] && t[0] != QUOTE && t[0] != OPEN_BRACE && t[0] != OPEN_BRACKET && !StartsNumber(t[0])
    ensures var p := Grammar.ParseValue(s);
            && p == Keyword(SkipSpace(s))
            && (p == NoParse || !NodesFit(n + 1, opts) ==> ValueLost(p, opts, d, n))
            && (p.Parsed? && p.rest == rest && !p.raw.RArray? && !p.raw.RObject? && !p.raw.RNumber? ==>
                ValueRead(p, rest, opts, d, n, n + 1))
  {
    hide Keyword, SkipSpace;
  }

  lemma ArrayCase(s: Bytes, opts: Options, d: nat, n: nat, rest: Bytes, nodeCount: nat)
    requires var t := SkipSpace(s); t != [] && t[0] == OPEN_BRACKET
    ensures var p := Grammar.ParseValue(s); var whole := Grammar.ParseArray(SkipSpace(s)[1..], false, false);
            && (ArrayLost(whole, opts, d, n) ==> ValueLost(p, opts, d, n))
            && (ArrayRead(whole, rest, opts, d, n, nodeCount) ==>
                 ValueRead(p, rest, opts, d, n, nodeCount) && p.raw == RArray(whole.items))
  {
    hide Grammar.ParseArray, SkipSpace, Fits, Nodes;
  }

  lemma ObjectCase(s: Bytes, opts: Options, d: nat, n: nat, rest: Bytes, nodeCount: nat)
    requires var t := SkipSpace(s); t != [] && t[0] == OPEN_BRACE
    ensures var p := Grammar.ParseValue(s); var whole := Grammar.ParseObject(SkipSpace(s)[1..], false, false);
            && (ObjectLost(whole, opts, d, n) ==> ValueLost(p, opts, d, n))
            && (ObjectRead(whole, rest, opts, d, n, nodeCount) ==>
                 ValueRead(p, rest, opts, d, n, nodeCount) && p.raw == RObject(whole.members))
  {
    hide Grammar.ParseObject, SkipSpace, Fits, Nodes;
  }

  lemma KeywordFirst(s: Bytes)
    ensures s == [] || (s[0] != 'n' as int && s[0] != 't' as int && s[0] != 'f' as int) ==> Keyword(s) == NoParse
    ensures s != [] && s[0] == 'n' as int && !StartsWith(s, Word(0)) ==> Keyword(s) == NoParse
    ensures s != [] && s[0] == 't' as int && !StartsWith(s, Word(1)) ==> Keyword(s) == NoParse
    ensures s != [] && s[0] == 'f' as int && !StartsWith(s, Word(2)) ==> Keyword(s) == NoParse
  {
    assert StartsWith(s, NULL_WORD) ==> s[..4][0] == NULL_WORD[0];
    assert StartsWith(s, TRUE_WORD) ==> s[..4][0] == TRUE_WORD[0];
    assert StartsWith(s, FALSE_WORD) ==> s[..5][0] == FALSE_WORD[0];
  }

  lemma KeywordEvents(s: Bytes, k: nat, opts: Options)
    requires k < 3 && StartsWith(s, Word(k))
    ensures var p := Keyword(s);
            && p.Parsed? && p.rest == s[|Word(k)|..] && !p.raw.RArray? && !p.raw.RObject? && !p.raw.RNumber?
            && Events(p.raw, opts) == [if k == 0 then OnNull else OnBool(k == 1)]
  {
    assert s[..|Word(k)|][0] == Word(k)[0];
    assert StartsWith(s, NULL_WORD) ==> s[..4][0] == NULL_WORD[0];
    assert StartsWith(s, TRUE_WORD) ==> s[..4][0] == TRUE_WORD[0];
  }

  lemma StartTold(before: seq<Event>, emit: bool, opts: Options)
    ensures (if emit then before + [OnStartArray] else before)
      == before + Told(emit, [OnStartArray] + ItemEvents([], opts))
    ensures (if emit then before + [OnStartObject] else before)
      == before + Told(emit, [OnStartObject] + MemberEvents([], opts))
  {
    assert [OnStartArray] + ItemEvents([], opts) == [OnStartArray];
    assert [OnStartObject] + MemberEvents([], opts) == [OnStartObject];
    assert before + [] == before;
  }

  lemma EndTold(before: seq<Event>, emit: bool, items: seq<Raw>, opts: Options, told: seq<Event>, after: seq<Event>)
    requires told == before + Told(emit, [OnStartArray] + ItemEvents(items, opts))
    requires after == if emit then told + [OnEndArray] else told
    ensures after == before + Told(emit, Events(RArray(items), opts))
  {
  }

  lemma ItemTold(before: seq<Event>, emit: bool, acc: seq<Raw>, raw: Raw, opts: Options, told: seq<Event>,
                 after: seq<Event>)
    requires told == before + Told(emit, [OnStartArray] + ItemEvents(acc, opts))
    requires after == told + Told(emit, Events(raw, opts))
    ensures after == before + Told(emit, [OnStartArray] + ItemEvents(acc + [raw], opts))
  {
    ItemEventsMore(acc, raw, opts);
    hide Events, ItemEvents;
    if emit {
      var head, told_ := [OnStartArray], ItemEvents(acc, opts);
      assert before + (head + told_) + Events(raw, opts) == before + (head + (told_ + Events(raw, opts)));
    }
  }

  lemma DoneIsRead(whole: ParseItems, rest: Bytes, opts: Options, d: nat, nodes: nat, nodeCount: nat, acc: seq<Raw>,
                   items: seq<Json>)
    requires ArrayDone(whole, rest, opts, d, nodes, nodeCount, Arr(items)) && whole.Items? && whole.items == acc
    ensures ArrayRead(whole, rest, opts, d, nodes, nodeCount)
  {
  }

  lemma ElementRead(s: Bytes, whole: ParseItems, opts: Options, d: nat, nodes: nat, nodeCount: nat,
                    acc: seq<Raw>, items: seq<Json>, any: bool, owed: bool, ok: bool, after: nat, rest: Bytes,
                    roomy: bool)
    requires ArrayMid(s, whole, opts, d, nodes, nodeCount, acc, items, any, owed)
    requires s != [] && !IsSpace(s[0]) && s[0] != COMMA && s[0] != CLOSE_BRACKET && !(any && !owed) && d > 0
    requires ok ==> ValueRead(Grammar.ParseValue(s), rest, opts, d - 1, nodeCount, after)
    requires !ok && roomy ==> ValueLost(Grammar.ParseValue(s), opts, d - 1, nodeCount)
    ensures !ok && roomy ==> ArrayLost(whole, opts, d, nodes)
    ensures ok ==>
      var p := Grammar.ParseValue(s);
      ArrayMid(rest, whole, opts, d, nodes, after, acc + [p.raw], items + [Build(p.raw, opts)], true, false)
  {
    hide Grammar.ParseValue, Grammar.ParseArray, Build, Fits, Nodes, ItemNodes, ArrayMid, ArrayLost, SkipSpace, IsSpace;
    var p := Grammar.ParseValue(s);
    if ok { ArrayElement(s, whole, opts, d, nodes, nodeCount, acc, items, any, owed, true, Build(p.raw, opts)); }
    else if roomy { ArrayElement(s, whole, opts, d, nodes, nodeCount, acc, items, any, owed, false, Null); }
  }

  // ---- Members ----

  // The keys seen so far, where the policy needs them.
  ghost predicate SeenKeys(opts: Options, acc: seq<Member>, seen: set<Bytes>) {
    if opts.duplicates == KeepLast then seen == {} else forall k :: k in seen <==> HasKey(acc, k)
  }

  lemma SeenMore(opts: Options, acc: seq<Member>, seen: set<Bytes>, key: Bytes, raw: Raw)
    requires SeenKeys(opts, acc, seen)
    ensures SeenKeys(opts, acc + [Member(key, raw)],
                     if opts.duplicates != KeepLast && key !in seen then seen + {key} else seen)
  {
    var next := acc + [Member(key, raw)];
    assert next[..|acc|] == acc && next[|acc|] == Member(key, raw);
    KeysOfPrefix(next);
  }

  // What a member makes of the rest, once its name is known.
  function MemberOf(key: Bytes, p: Parse): ParseMembers {
    match p
    case NoParse => NoMembers
    case Parsed(raw, rest) => PutMember([Member(key, raw)], Grammar.ParseObject(rest, true, false))
  }

  lemma RepeatedKey(acc: seq<Member>, members: map<Bytes, Json>, seen: set<Bytes>, key: Bytes, p: Parse,
                    opts: Options, d: nat, n: nat, nodeCount: nat, whole: ParseMembers)
    requires ObjectSoFar(opts, d, n, nodeCount, acc, members) && SeenKeys(opts, acc, seen)
    requires opts.duplicates == RejectDuplicates && key in seen && whole == PutMember(acc, MemberOf(key, p))
    ensures ObjectLost(whole, opts, d, n)
  {
    if whole.Members? {
      var i :| 0 <= i < |acc| && acc[i].key == key;
      assert whole.members[i] == acc[i] && whole.members[|acc|].key == key;
    }
  }

  lemma MemberLost(acc: seq<Member>, members: map<Bytes, Json>, key: Bytes, p: Parse, opts: Options, d: nat, n: nat,
                   nodeCount: nat, whole: ParseMembers)
    requires ObjectSoFar(opts, d, n, nodeCount, acc, members) && d > 0
    requires whole == PutMember(acc, MemberOf(key, p)) && ValueLost(p, opts, d - 1, nodeCount)
    ensures ObjectLost(whole, opts, d, n)
  {
    LostValue(acc, members, key, p, opts, d, n, nodeCount, whole);
  }

  lemma MemberRead(acc: seq<Member>, members: map<Bytes, Json>, seen: set<Bytes>, key: Bytes, p: Parse, opts: Options,
                   d: nat, n: nat, nodeCount: nat,
                   whole: ParseMembers, after: nat)
    requires ObjectSoFar(opts, d, n, nodeCount, acc, members) && SeenKeys(opts, acc, seen) && d > 0
    requires whole == PutMember(acc, MemberOf(key, p))
    requires p.Parsed? && Fits(p.raw, opts, d - 1) && after == nodeCount + Nodes(p.raw)
    requires !(opts.duplicates == RejectDuplicates && key in seen)
    ensures ObjectMid(p.rest, whole, opts, d, n, after, acc + [Member(key, p.raw)],
                      if key in members && opts.duplicates == KeepFirst then members
                      else members[key := Build(p.raw, opts)],
                      true, false)
  {
    hide Fits, Build, Nodes, ObjectMid;
    var next := if key in members && opts.duplicates == KeepFirst then members else members[key := Build(p.raw, opts)];
    MemberAdded(acc, members, key, p, opts, d, n, nodeCount, whole, next);
  }

  lemma MemberTold(before: seq<Event>, emit: bool, acc: seq<Member>, members: map<Bytes, Json>, seen: set<Bytes>,
                   key: Bytes, raw: Raw, opts: Options,
                   d: nat, n: nat, nodeCount: nat, told: seq<Event>, after: seq<Event>)
    requires SeenKeys(opts, acc, seen)
    requires told == before + Told(emit, [OnStartObject] + MemberEvents(acc, opts))
    requires var emitValue := emit && !(opts.duplicates == KeepFirst && key in seen);
             after == (if emitValue then told + [OnKey(key)] else told) + Told(emitValue, Events(raw, opts))
    ensures after == before + Told(emit, [OnStartObject] + MemberEvents(acc + [Member(key, raw)], opts))
  {
    hide MemberEvents, Events;
    MemberEventsMore(acc, Member(key, raw), opts);
    var known := opts.duplicates == KeepFirst && HasKey(acc, key);
    assert known <==> opts.duplicates == KeepFirst && key in seen;
    hide SeenKeys, HasKey;
    MemberAppended(before, [OnStartObject], MemberEvents(acc, opts), OnKey(key), Events(raw, opts));
  }

  lemma MemberAppended(before: seq<Event>, start: seq<Event>, told: seq<Event>, key: Event, value: seq<Event>)
    ensures before + (start + told) + [key] + value == before + (start + (told + [key] + value))
  {
  }

  lemma DoneObjectIsRead(whole: ParseMembers, rest: Bytes, opts: Options, d: nat, nodes: nat, nodeCount: nat,
                         members: map<Bytes, Json>)
    requires ObjectDone(whole, rest, opts, d, nodes, nodeCount, Obj(members))
    ensures ObjectRead(whole, rest, opts, d, nodes, nodeCount)
  {
  }

  lemma EndObjectTold(before: seq<Event>, emit: bool, ms: seq<Member>, opts: Options, told: seq<Event>,
                      after: seq<Event>)
    requires told == before + Told(emit, [OnStartObject] + MemberEvents(ms, opts))
    requires after == if emit then told + [OnEndObject] else told
    ensures after == before + Told(emit, Events(RObject(ms), opts))
  {
  }

  // ---- A whole document ----

  // parseDocument(): one value, white space, and nothing more. A stream is
  // never read past the limit by more than one byte of lookahead.
  method ParseDocumentEvents(cur: Cursor, opts: Options) returns (ok: bool, events: seq<Event>)
    requires cur.Valid() && cur.pos == 0
    modifies cur
    ensures ok <==> Accepts(cur.src, cur.limit, opts)
    ensures ok ==> events == Events(ParseDocument(cur.src).value, opts)
  {
    hide Grammar.ParseValue, SkipSpace, Fits, Nodes, Events, Coordinates, Cursor.Valid;
    ghost var src := cur.src;
    var parser := new SaxParser(cur, opts);
    assert Tail(cur.src, 0) == cur.src;
    ok := parser.ParseValue(0, true);
    events := parser.events;
    if !ok { return; }
    ok := parser.SkipWhitespace();
    if !ok { return; }
    var some, ch := cur.Peek();
    ok := !some;
  }

  // parseSaxTop(), and parseSaxStream() with streaming set.
  method ParseSax(src: Bytes, maxInputBytes: nat, streaming: bool, opts: Options) returns (ok: bool, events: seq<Event>)
    ensures ok <==> Accepts(src, maxInputBytes, opts)
    ensures ok ==> events == Events(ParseDocument(src).value, opts)
  {
    if !streaming && maxInputBytes != 0 && |src| > maxInputBytes { return false, []; }
    var cur := new Cursor(src, 0, maxInputBytes, streaming);
    ok, events := ParseDocumentEvents(cur, opts);
  }
}
