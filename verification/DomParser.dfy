// The recursive-descent DOM parser over a parse context.

module DomParser {
  import opened JsonValue
  import opened Utf8
  import opened Strings
  import opened Cursors
  import opened NumberText
  import opened Grammar
  import opened ParseProgress

  class ParseCtx {
    const src: Bytes
    const opts: Options
    var pos: nat
    var depth: nat
    var nodeCount: nat
    var failed: bool
    var errPos: nat

    constructor (src: Bytes, opts: Options)
      ensures Valid() && this.src == src && this.opts == opts && pos == 0 && depth == 0 && nodeCount == 0 && !failed
    {
      this.src, this.opts := src, opts;
      pos, depth, nodeCount, failed, errPos := 0, 0, 0, false, 0;
    }

    // The cursor stays inside the input, and so does a reported error.
    ghost predicate Valid()
      reads this
      ensures Valid() ==> pos <= |src| && depth <= opts.maxDepth
    {
      && pos <= |src| && depth <= opts.maxDepth && NodesFit(nodeCount, opts)
      && (failed ==> errPos <= |src|)
    }

    // Records the first error only.
    method Fail(at: nat) returns (ok: bool)
      requires Valid() && at <= |src|
      modifies this`failed, this`errPos
      ensures Valid() && !ok && failed && (old(failed) ==> errPos == old(errPos)) && (!old(failed) ==> errPos == at)
    {
      if !failed { failed, errPos := true, at; }
      ok := false;
    }

    method NewNode() returns (ok: bool)
      requires Valid()
      modifies this`nodeCount, this`failed, this`errPos
      ensures Valid()
      ensures if ok then nodeCount == old(nodeCount) + 1 && failed == old(failed)
              else nodeCount == old(nodeCount) && failed
      ensures ok <==> NodesFit(old(nodeCount) + 1, opts)
    {
      if opts.maxNodes != 0 && nodeCount >= opts.maxNodes {
        ok := Fail(pos);
        return;
      }
      nodeCount := nodeCount + 1;
      ok := true;
    }

    // Skips white space and looks at the next byte.
    method Peek() returns (ok: bool, ch: Byte)
      requires Valid()
      modifies this`pos
      ensures Valid() && old(pos) <= pos
      ensures SkipSpace(Tail(src, old(pos))) == Tail(src, pos)
      ensures ok <==> pos < |src|
      ensures ok ==> ch == src[pos] && !IsSpace(ch)
    {
      hide Tail, SkipSpace;
      ch := 0;
      while pos < |src|
        invariant Valid() && old(pos) <= pos
        invariant SkipSpace(Tail(src, old(pos))) == SkipSpace(Tail(src, pos))
      {
        SpaceStep(src, pos);
        ch := src[pos];
        if IsSpace(ch) {
          pos := pos + 1;
        } else {
          return true, ch;
        }
      }
      SpaceStep(src, pos);
      ok := false;
    }

    method SkipColon() returns (ok: bool)
      requires Valid()
      modifies this`pos, this`failed, this`errPos
      ensures Valid()
      ensures var t := SkipSpace(Tail(src, old(pos)));
              ok <==> t != [] && t[0] == COLON
      ensures ok ==> SkipSpace(Tail(src, old(pos)))[1..] == Tail(src, pos)
      ensures ok ==> failed == old(failed)
      ensures !ok ==> failed
    {
      hide Tail;
      while pos < |src|
        invariant Valid() && failed == old(failed)
        invariant SkipSpace(Tail(src, old(pos))) == SkipSpace(Tail(src, pos))
      {
        TailAt(src, pos, pos);
        TailAt(src, pos, pos + 1);
        var ch := src[pos];
        pos := pos + 1;
        if ch == COLON {
          return true;
        } else if !IsSpace(ch) {
          ok := Fail(pos - 1);
          return;
        }
      }
      ok := Fail(pos);
    }

    // hex4(): four hexadecimal digits at a position.
    method HexAt(start: nat) returns (v: Option<nat>)
      requires start + 4 <= |src|
      ensures v == Hex4(Tail(src, start))
    {
      ghost var s := Tail(src, start);
      var value := 0;
      var k := 0;
      while k < 4
        invariant 0 <= k <= 4 && HexPrefix(s, k) == Some(value)
      {
        TailAt(src, start, start + k);
        match HexValue(src[start + k]) {
          case Some(d) => value := value * 16 + d;
          case None =>
            HexStops(s, k + 1);
            return None;
        }
        k := k + 1;
      }
      v := Some(value);
    }

    // \uXXXX, alone or as a surrogate pair; pos is after the letter u.
    method UnicodeAt() returns (ok: bool, text: Bytes)
      requires Valid() && 2 <= pos && src[pos - 2] == BACKSLASH && src[pos - 1] == LETTER_U
      modifies this`pos, this`failed, this`errPos
      ensures Valid() && failed == (old(failed) || !ok) && old(pos) <= pos
      ensures ok ==> UnicodePiece(Tail(src, old(pos) - 2)) == Piece(text, pos - (old(pos) - 2))
      ensures !ok ==> UnicodePiece(Tail(src, old(pos) - 2)) == BadPiece
    {
      hide Tail, Hex4, Encode;
      ghost var s := Tail(src, pos - 2);
      text := [];
      TailAt(src, pos - 2, pos);
      if pos + 4 > |src| {
        ok := Fail(pos);
        return;
      }
      var cp := HexAt(pos);
      if cp == None {
        ok := Fail(pos);
        return;
      }
      TailAt(src, pos - 2, pos + 4);
      pos := pos + 4;
      if HighSurrogate(cp.value) {
        var low: Option<nat> := None;
        LowAt(src, pos);
        if pos + 6 <= |src| && src[pos] == BACKSLASH && src[pos + 1] == LETTER_U {
          low := HexAt(pos + 2);
        }
        if low.Some? && LowSurrogate(low.value) {
          text := Encode(Paired(cp.value, low.value));
          pos := pos + 6;
        } else {
          ok := Fail(pos);
          return;
        }
      } else if LowSurrogate(cp.value) {
        ok := Fail(pos);
        return;
      } else {
        text := Encode(cp.value);
      }
      ok := true;
    }

    // A backslash and what it escapes.
    method EscapeAt() returns (ok: bool, text: Bytes)
      requires Valid() && pos < |src| && src[pos] == BACKSLASH
      modifies this`pos, this`failed, this`errPos
      ensures Valid() && failed == (old(failed) || !ok)
      ensures ok ==> old(pos) < pos && NextPiece(Tail(src, old(pos))) == Piece(text, pos - old(pos))
      ensures !ok ==> NextPiece(Tail(src, old(pos))) == BadPiece
    {
      hide Tail, UnicodePiece, CharLen;
      TailAt(src, pos, pos);
      text := [];
      pos := pos + 1;
      if pos >= |src| {
        ok := Fail(pos);
        return;
      }
      TailAt(src, pos - 1, pos);
      var e := src[pos];
      pos := pos + 1;
      if e == LETTER_U {
        ok, text := UnicodeAt();
        return;
      }
      match ShortEscape(e) {
        case Some(c) => return true, [c];
        case None => ok := Fail(pos - 1);
      }
    }

    // One piece of a string body that is not its closing quote.
    method PieceAt() returns (ok: bool, text: Bytes)
      requires Valid() && pos < |src| && src[pos] != QUOTE
      modifies this`pos, this`failed, this`errPos
      ensures Valid() && failed == (old(failed) || !ok)
      ensures ok ==> old(pos) < pos && NextPiece(Tail(src, old(pos))) == Piece(text, pos - old(pos))
      ensures !ok ==> NextPiece(Tail(src, old(pos))) == BadPiece
    {
      hide Tail, UnicodePiece, CharLen;
      ghost var s := Tail(src, pos);
      TailAt(src, pos, pos);
      var ch := src[pos];
      text := [];
      if ch == BACKSLASH {
        ok, text := EscapeAt();
        return;
      } else if ch < 0x20 {
        ok := Fail(pos);
        return;
      } else if ch >= 0x80 {
        var n := Utf8Len(src, pos, |src|);
        assert src[pos..|src|] == s by { WholeTail(src, pos); }
        if n == 0 {
          ok := Fail(pos);
          return;
        }
        TailPrefix(src, pos, n);
        text := src[pos..pos + n];
        pos := pos + n;
      } else {
        text := [ch];
        pos := pos + 1;
      }
      ok := true;
    }

    // Decodes from pos to the closing quote.
    method DecodeStringBody() returns (ok: bool, out: Bytes)
      requires Valid()
      modifies this`pos, this`failed, this`errPos
      ensures Valid() && failed == (old(failed) || !ok)
      ensures ok ==> Decode(Tail(src, old(pos))) == Body(out, Tail(src, pos))
      ensures !ok ==> Decode(Tail(src, old(pos))) == NoBody
    {
      hide Tail, NextPiece, Decode, Prepend;
      ghost var start := pos;
      out := [];
      PrependTwice([], [], Decode(Tail(src, start)));
      while pos < |src|
        invariant Valid() && failed == old(failed)
        invariant Decode(Tail(src, start)) == Prepend(out, Decode(Tail(src, pos)))
        decreases |src| - pos
      {
        ghost var p, out0 := pos, out;
        TailAt(src, pos, pos);
        DecodeStep(Tail(src, pos));
        if src[pos] == QUOTE {
          TailAt(src, pos, pos + 1);
          PrependBody(out, Tail(src, pos + 1));
          pos := pos + 1;
          return true, out;
        }
        var text;
        ok, text := PieceAt();
        if !ok {
          PrependNone(out);
          return;
        }
        out := out + text;
        TailAt(src, p, pos);
        PrependTwice(out0, text, Decode(Tail(src, pos)));
      }
      DecodeStep(Tail(src, pos));
      PrependNone(out);
      ok := Fail(pos);
    }

    method ExtractString() returns (ok: bool, out: Bytes)
      requires Valid()
      modifies this`pos, this`failed, this`errPos
      ensures Valid() && failed == (old(failed) || !ok)
      ensures ok ==>
        old(pos) < |src| && src[old(pos)] == QUOTE && Decode(Tail(src, old(pos) + 1)) == Body(out, Tail(src, pos))
      ensures !ok ==> old(pos) >= |src| || src[old(pos)] != QUOTE || Decode(Tail(src, old(pos) + 1)) == NoBody
    {
      out := [];
      if pos >= |src| || src[pos] != QUOTE {
        ok := Fail(pos);
        return;
      }
      pos := pos + 1;
      ok, out := DecodeStringBody();
    }

    // ---- Values ----

    // Does the word stand at pos?
    method MatchesAt(word: Bytes) returns (yes: bool)
      requires Valid()
      ensures yes <==> StartsWith(Tail(src, pos), word)
    {
      if pos + |word| > |src| { return false; }
      ghost var s := Tail(src, pos);
      var k := 0;
      while k < |word|
        invariant 0 <= k <= |word|
        invariant forall i :: 0 <= i < k ==> s[i] == word[i]
      {
        TailAt(src, pos, pos + k);
        if src[pos + k] != word[k] {
          assert s[..|word|][k] == s[k];
          return false;
        }
        k := k + 1;
      }
      assert s[..|word|] == word;
      yes := true;
    }

    method ParseKeyword() returns (ok: bool, v: Json)
      requires Valid()
      modifies this`pos, this`nodeCount, this`failed, this`errPos
      ensures Valid()
      ensures ok ==>
        var p := Keyword(Tail(src, old(pos)));
        && p.Parsed? && Tail(src, pos) == p.rest && !p.raw.RArray? && !p.raw.RObject? && !p.raw.RNumber?
        && v == Build(p.raw, opts) && nodeCount == old(nodeCount) + 1
      ensures !ok ==> failed && (Keyword(Tail(src, old(pos))) == NoParse || !NodesFit(old(nodeCount) + 1, opts))
    {
      hide Keyword, Tail;
      ghost var start := pos;
      v := Null;
      var k := 0;
      while k < 3
        invariant 0 <= k <= 3 && Valid() && pos == start && nodeCount == old(nodeCount)
        invariant forall i :: 0 <= i < k ==> !StartsWith(Tail(src, start), Word(i))
      {
        var yes := MatchesAt(Word(k));
        if yes {
          KeywordIs(Tail(src, start), k, opts);
          TailAt(src, start, start + |Word(k)|);
          pos := pos + |Word(k)|;
          ok := NewNode();
          v := WordValue(k);
          return;
        }
        k := k + 1;
      }
      KeywordNone(Tail(src, start));
      ok := Fail(pos);
    }

    method ParseString() returns (ok: bool, v: Json)
      requires Valid() && pos < |src| && src[pos] == QUOTE
      modifies this`pos, this`nodeCount, this`failed, this`errPos
      ensures Valid()
      ensures ok ==>
        v.Str? && Decode(Tail(src, old(pos) + 1)) == Body(v.s, Tail(src, pos)) && nodeCount == old(nodeCount) + 1
      ensures !ok ==> failed && (Decode(Tail(src, old(pos) + 1)) == NoBody || !NodesFit(old(nodeCount) + 1, opts))
    {
      var s;
      v := Null;
      ok, s := ExtractString();
      if !ok { return; }
      ok := NewNode();
      v := Str(s);
    }

    // The scanner runs on an adapter; the context moves only on success.
    method ParseNumber() returns (ok: bool, v: Json)
      requires Valid()
      modifies this`pos, this`nodeCount, this`failed, this`errPos
      ensures Valid()
      ensures ok ==>
        var t := ScanNumber(Tail(src, old(pos)));
        && t.Token? && Tail(src, pos) == t.rest && Convert(t.text, t.isFloat, opts) == Some(v)
          && nodeCount == old(nodeCount) + 1
      ensures !ok ==> failed
      ensures !ok && NodesFit(old(nodeCount) + 1, opts) ==>
        var t := ScanNumber(Tail(src, old(pos)));
        !t.Token? || Convert(t.text, t.isFloat, opts) == None
    {
      hide Convert, ScanNumber;
      v := Null;
      var begin := pos;
      var adapter := new Cursor(src, pos, 0, false);
      var text, isFloat;
      ok, text, isFloat := ScanJsonNumber(adapter);
      if !ok {
        ok := Fail(adapter.pos);
        return;
      }
      match Convert(text, isFloat, opts) {
        case None =>
          ok := Fail(begin);
          return;
        case Some(x) => v := x;
      }
      ok := NewNode();
      if ok { pos := adapter.pos; }
    }

    // What parsing a value at `start` with `nodes` already spent must report.
    ghost predicate ValueReported(start: nat, nodes: nat, ok: bool, v: Json)
      requires Valid() && start <= |src|
      reads this
    {
      var p := Grammar.ParseValue(Tail(src, start));
      if ok then
        && p.Parsed? && Tail(src, pos) == p.rest && Fits(p.raw, opts, opts.maxDepth - depth)
        && nodeCount == nodes + Nodes(p.raw) && v == Build(p.raw, opts)
      else failed && !(p.Parsed? && Admits(p.raw, opts, opts.maxDepth - depth, nodes))
    }

    // Dispatches on the next byte that is not white space.
    method ParseValue() returns (ok: bool, v: Json)
      requires Valid()
      modifies this`pos, this`depth, this`nodeCount, this`failed, this`errPos
      ensures Valid() && depth == old(depth) && (ok ==> old(pos) < pos)
      ensures ValueReported(old(pos), old(nodeCount), ok, v)
      decreases |src| - pos, 2
    {
      hide Tail, SkipSpace, Decode, Keyword, ScanNumber, Convert, Grammar.ParseArray, Grammar.ParseObject, Build;
      ghost var start, nodes := pos, nodeCount;
      v := Null;
      var ch;
      ok, ch := Peek();
      if !ok {
        ok := Fail(pos);
        return;
      }
      ghost var at := pos;
      TailAt(src, at, at);
      TailAt(src, at, at + 1);
      if ch == QUOTE {
        ok, v := ParseString();
        if ok { ScalarBuilt(Grammar.ParseValue(Tail(src, start)).raw, opts, opts.maxDepth - depth, v); }
      } else if ch == OPEN_BRACE {
        ok, v := ParseObject();
      } else if ch == OPEN_BRACKET {
        ok, v := ParseArray();
      } else if StartsNumber(ch) {
        ok, v := ParseNumber();
        if ok { NumberBuilt(Grammar.ParseValue(Tail(src, start)).raw, opts, opts.maxDepth - depth, v); }
      } else {
        ok, v := ParseKeyword();
        if ok { ScalarFits(Grammar.ParseValue(Tail(src, start)).raw, opts, opts.maxDepth - depth); }
      }
      if ok { ShorterTail(src, start, pos); }
    }

    method ParseArray() returns (ok: bool, v: Json)
      requires Valid() && pos < |src| && src[pos] == OPEN_BRACKET
      modifies this`pos, this`depth, this`nodeCount, this`failed, this`errPos
      ensures Valid() && depth == old(depth)
      ensures var p, d := Grammar.ParseArray(Tail(src, old(pos) + 1), false, false), opts.maxDepth - depth;
              if ok then ArrayDone(p, Tail(src, pos), opts, d, old(nodeCount), nodeCount, v)
              else failed && ArrayLost(p, opts, d, old(nodeCount))
      decreases |src| - pos, 1
    {
      hide Tail, SkipSpace, Grammar.ParseArray, Grammar.ParseValue, Build, Fits, Nodes, ItemNodes, ArrayMid;
      hide ArrayLost, ArrayDone, NodesFit;
      ghost var start, nodes, d := pos + 1, nodeCount, opts.maxDepth - depth;
      v := Null;
      ghost var whole := Grammar.ParseArray(Tail(src, start), false, false);
      NoRoom(Tail(src, start), opts, d, nodes);
      if depth + 1 > opts.maxDepth {
        ok := Fail(pos);
        return;
      }
      ok := NewNode();
      if !ok { return; }
      depth := depth + 1;
      pos := pos + 1;
      ArrayStart(src, start, opts, d, nodes);
      ok, v := ElementLoop(start, whole, nodes);
    }

    // The elements, up to the closing bracket; leaves the array's level.
    method ElementLoop(ghost start: nat, ghost whole: ParseItems, ghost nodes: nat) returns (ok: bool, v: Json)
      requires Valid() && depth > 0 && start == pos
      requires ArrayMid(Tail(src, pos), whole, opts, opts.maxDepth - depth + 1, nodes, nodeCount, [], [], false, false)
      modifies this`pos, this`depth, this`nodeCount, this`failed, this`errPos
      ensures Valid() && depth == old(depth) - 1
      ensures ok ==> ArrayDone(whole, Tail(src, pos), opts, opts.maxDepth - depth, nodes, nodeCount, v)
      ensures !ok ==> failed && ArrayLost(whole, opts, opts.maxDepth - depth, nodes)
      decreases |src| - pos, 3
    {
      hide Tail, SkipSpace, Grammar.ParseArray, Grammar.ParseValue, Build, Fits, Nodes, ItemNodes, ArrayMid;
      hide ArrayLost, ArrayDone, NodesFit;
      ghost var d := opts.maxDepth - depth + 1;
      v := Null;
      var items: seq<Json> := [];
      ghost var acc: seq<Raw> := [];
      var owed, any := false, false;
      var more, ch := Peek();
      ArrayPeeked(src, start, pos, whole, opts, d, nodes, nodeCount, acc, items, any, owed);
      while more
        invariant Valid() && depth == old(depth) && start <= pos
        invariant more <==> pos < |src|
        invariant more ==> ch == src[pos] && !IsSpace(ch)
        invariant ArrayMid(Tail(src, pos), whole, opts, d, nodes, nodeCount, acc, items, any, owed)
        decreases |src| - pos
      {
        ArrayAhead(src, pos, whole, opts, d, nodes, nodeCount, acc, items, any, owed);
        var misplaced := if ch == CLOSE_BRACKET then owed else if ch == COMMA then !any || owed else any && !owed;
        if misplaced {
          ok := Fail(pos);
          depth := depth - 1;
          return;
        }
        if ch == CLOSE_BRACKET {
          pos := pos + 1;
          depth := depth - 1;
          return true, Arr(items);
        } else if ch == COMMA {
          pos := pos + 1;
          owed := true;
        } else {
          ghost var t, n := Tail(src, pos), nodeCount;
          var elem;
          ok, elem := ParseValue();
          ArrayElement(t, whole, opts, d, nodes, n, acc, items, any, owed, ok, elem);
          if !ok {
            depth := depth - 1;
            return;
          }
          items := items + [elem];
          acc := acc + [Grammar.ParseValue(t).raw];
          any, owed := true, false;
        }
        ghost var q := pos;
        more, ch := Peek();
        ArrayPeeked(src, q, pos, whole, opts, d, nodes, nodeCount, acc, items, any, owed);
      }
      ArrayAhead(src, pos, whole, opts, d, nodes, nodeCount, acc, items, any, owed);
      ok := Fail(pos);
      depth := depth - 1;
    }

    method ParseObject() returns (ok: bool, v: Json)
      requires Valid() && pos < |src| && src[pos] == OPEN_BRACE
      modifies this`pos, this`depth, this`nodeCount, this`failed, this`errPos
      ensures Valid() && depth == old(depth)
      ensures var p, d := Grammar.ParseObject(Tail(src, old(pos) + 1), false, false), opts.maxDepth - depth;
              if ok then ObjectDone(p, Tail(src, pos), opts, d, old(nodeCount), nodeCount, v)
              else failed && ObjectLost(p, opts, d, old(nodeCount))
      decreases |src| - pos, 1
    {
      hide Tail, SkipSpace, Grammar.ParseObject, Grammar.ParseValue, Build, BuildMembers, Fits, Nodes, MemberNodes;
      hide ObjectMid, ObjectLost, ObjectDone, ObjectSoFar, NodesFit, MemberParse;
      ghost var start, nodes, d := pos + 1, nodeCount, opts.maxDepth - depth;
      v := Null;
      ghost var whole := Grammar.ParseObject(Tail(src, start), false, false);
      NoRoomObject(Tail(src, start), opts, d, nodes);
      if depth + 1 > opts.maxDepth {
        ok := Fail(pos);
        return;
      }
      ok := NewNode();
      if !ok { return; }
      depth := depth + 1;
      pos := pos + 1;
      ObjectStart(src, start, opts, d, nodes);
      ok, v := MemberLoop(start, whole, nodes);
    }

    // The members, up to the closing brace; leaves the object's level.
    method MemberLoop(ghost start: nat, ghost whole: ParseMembers, ghost nodes: nat) returns (ok: bool, v: Json)
      requires Valid() && depth > 0 && start == pos
      requires ObjectMid(Tail(src, pos), whole, opts, opts.maxDepth - depth + 1, nodes, nodeCount, [], map[], false,
                         false)
      modifies this`pos, this`depth, this`nodeCount, this`failed, this`errPos
      ensures Valid() && depth == old(depth) - 1
      ensures ok ==> ObjectDone(whole, Tail(src, pos), opts, opts.maxDepth - depth, nodes, nodeCount, v)
      ensures !ok ==> failed && ObjectLost(whole, opts, opts.maxDepth - depth, nodes)
      decreases |src| - pos, 3
    {
      hide Tail, SkipSpace, Grammar.ParseObject, Grammar.ParseValue, Build, BuildMembers, Fits, Nodes, MemberNodes;
      hide ObjectMid, ObjectLost, ObjectDone, ObjectSoFar, NodesFit, MemberParse;
      ghost var d := opts.maxDepth - depth + 1;
      v := Null;
      var members: map<Bytes, Json> := map[];
      ghost var acc: seq<Member> := [];
      var owed, any := false, false;
      var more, ch := Peek();
      ObjectPeeked(src, start, pos, whole, opts, d, nodes, nodeCount, acc, members, any, owed);
      while more
        invariant Valid() && depth == old(depth) && start <= pos
        invariant more <==> pos < |src|
        invariant more ==> ch == src[pos] && !IsSpace(ch)
        invariant ObjectMid(Tail(src, pos), whole, opts, d, nodes, nodeCount, acc, members, any, owed)
        decreases |src| - pos
      {
        TailAt(src, pos, pos);
        TailAt(src, pos, pos + 1);
        ObjectNext(Tail(src, pos), whole, opts, d, nodes, nodeCount, acc, members, any, owed);
        var misplaced := if ch == CLOSE_BRACE then owed else if ch == COMMA then !any || owed else any && !owed;
        if misplaced || (ch != CLOSE_BRACE && ch != COMMA && ch != QUOTE) {
          ok := Fail(pos);
          depth := depth - 1;
          return;
        }
        if ch == CLOSE_BRACE {
          pos := pos + 1;
          depth := depth - 1;
          return true, Obj(members);
        } else if ch == COMMA {
          pos := pos + 1;
          owed := true;
        } else {
          ok, acc, members := ParseMember(whole, nodes, acc, members);
          if !ok {
            depth := depth - 1;
            return;
          }
          any, owed := true, false;
        }
        ghost var q := pos;
        more, ch := Peek();
        ObjectPeeked(src, q, pos, whole, opts, d, nodes, nodeCount, acc, members, any, owed);
      }
      TailAt(src, pos, pos);
      ObjectNext(Tail(src, pos), whole, opts, d, nodes, nodeCount, acc, members, any, owed);
      ok := Fail(pos);
      depth := depth - 1;
    }

    // One member: name, colon, value, and the duplicate policy.
    method ParseMember(ghost whole: ParseMembers, ghost nodes: nat, ghost acc0: seq<Member>, members0: map<Bytes, Json>)
      returns (ok: bool, ghost acc: seq<Member>, members: map<Bytes, Json>)
      requires Valid() && pos < |src| && src[pos] == QUOTE && depth > 0
      requires ObjectSoFar(opts, opts.maxDepth - depth + 1, nodes, nodeCount, acc0, members0)
      requires whole == PutMember(acc0, MemberParse(Tail(src, pos + 1)))
      modifies this`pos, this`depth, this`nodeCount, this`failed, this`errPos
      ensures Valid() && depth == old(depth) && (ok ==> old(pos) < pos)
      ensures ok ==>
        ObjectMid(Tail(src, pos), whole, opts, opts.maxDepth - depth + 1, nodes, nodeCount, acc, members, true, false)
      ensures !ok ==> failed && ObjectLost(whole, opts, opts.maxDepth - depth + 1, nodes)
      decreases |src| - pos, 0
    {
      hide Tail, SkipSpace, Grammar.ParseObject, Grammar.ParseValue, Build, BuildMembers, Fits, Nodes, Decode;
      hide ObjectLost, ObjectSoFar, PutMember;
      acc, members := acc0, members0;
      ghost var d, n := opts.maxDepth - depth + 1, nodeCount;
      NothingParsed(acc0, whole, opts, d, nodes);
      var keyOffset := pos;
      ghost var after := Tail(src, pos + 1);
      var key;
      ok, key := ExtractString();
      if !ok { return; }
      assert MemberParse(after) == ParseAfterKey(key, Tail(src, pos));
      var duplicate := key in members;
      if duplicate && opts.duplicates == RejectDuplicates {
        LostDuplicate(acc0, members0, key, Tail(src, pos), opts, d, nodes, n, whole);
        ok := Fail(keyOffset);
        return;
      }
      ok := SkipColon();
      if !ok { return; }
      ghost var p := Grammar.ParseValue(Tail(src, pos));
      var val;
      ok, val := ParseValue();
      if !ok {
        LostValue(acc0, members0, key, p, opts, d, nodes, n, whole);
        return;
      }
      if duplicate {
        if opts.duplicates == KeepLast { members := members[key := val]; }
      } else {
        members := members[key := val];
      }
      acc := acc0 + [Member(key, p.raw)];
      MemberAdded(acc0, members0, key, p, opts, d, nodes, n, whole, members);
    }
  }

  // ---- A whole document ----

  // Parses a single value with nothing but white space after it. Acceptance is
  // decided by the text and the limits alone; a rejected text leaves null, with
  // an error position inside the text.
  method ParseTop(src: Bytes, maxInputBytes: nat, opts: Options) returns (ok: bool, v: Json, errorAt: nat)
    ensures ok <==> Accepts(src, maxInputBytes, opts)
    ensures ok ==> v == Build(ParseDocument(src).value, opts)
    ensures !ok ==> v == Null && errorAt <= |src|
  {
    hide Grammar.ParseValue, Build, Fits, Nodes, SkipSpace;
    v, errorAt := Null, 0;
    if maxInputBytes != 0 && |src| > maxInputBytes {
      return false, Null, maxInputBytes;
    }
    var c := new ParseCtx(src, opts);
    assert Tail(src, 0) == src;
    var parsed;
    ok, parsed := c.ParseValue();
    if !ok {
      errorAt := c.errPos;
      return;
    }
    var more, ch := c.Peek();
    errorAt := c.pos;
    if more {
      return false, Null, errorAt;
    }
    v := parsed;
  }
}
