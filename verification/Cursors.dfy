// Byte cursors with source coordinates: over a buffer, or over a stream that
// is read one byte at a time.

module Cursors {
  import opened JsonValue

  const CR: Byte := 13
  const LF: Byte := 10

  datatype Position = Position(line: nat, column: nat)

  // The coordinates of the byte after the first n, where CRLF is one line end.
  function Coordinates(src: Bytes, n: nat): (p: Position)
    requires n <= |src|
    decreases n
  {
    if n == 0 then Position(1, 1)
    else
      var p := Coordinates(src, n - 1);
      if src[n - 1] == CR then Position(p.line + 1, 1)
      else if src[n - 1] == LF then
        if n > 1 && src[n - 2] == CR then p else Position(p.line + 1, 1)
      else Position(p.line, p.column + 1)
  }

  // lineAndColumn(): recomputes the coordinates of an offset from the start.
  method LineAndColumn(src: Bytes, offset: nat) returns (line: nat, column: nat)
    ensures Position(line, column) == Coordinates(src, if offset < |src| then offset else |src|)
  {
    line, column := 1, 1;
    var end := if offset < |src| then offset else |src|;
    var i := 0;
    while i < end
      invariant 0 <= i <= end
      invariant Position(line, column) == Coordinates(src, i)
      invariant i < end && i > 0 && src[i] == LF ==> src[i - 1] != CR
    {
      if src[i] == CR {
        if i + 1 < end && src[i + 1] == LF {
          assert Coordinates(src, i + 2) == Coordinates(src, i + 1);
          i := i + 1;
        }
        line := line + 1;
        column := 1;
      } else if src[i] == LF {
        line := line + 1;
        column := 1;
      } else {
        column := column + 1;
      }
      i := i + 1;
    }
  }

  // What is left of the input at a position.
  function Tail(src: Bytes, i: nat): (t: Bytes)
    requires i <= |src|
    ensures |t| == |src| - i
  {
    src[i..]
  }

  // text is text0 followed by the bytes between two positions.
  ghost predicate Took(src: Bytes, from: nat, to: nat, text0: Bytes, text: Bytes) {
    from <= to <= |src| && text == text0 + src[from..to]
  }

  lemma TookNone(src: Bytes, i: nat, text: Bytes)
    requires i <= |src|
    ensures Took(src, i, i, text, text)
  {
  }

  lemma TookMore(src: Bytes, i: nat, j: nat, k: nat, a: Bytes, b: Bytes, c: Bytes)
    requires Took(src, i, j, a, b) && Took(src, j, k, b, c)
    ensures Took(src, i, k, a, c)
  {
    assert src[i..j] + src[j..k] == src[i..k];
  }

  lemma TookByte(src: Bytes, i: nat, text: Bytes)
    requires i < |src|
    ensures Took(src, i, i + 1, text, text + [src[i]])
  {
  }

  // Looking further into the tail.
  lemma TailAt(src: Bytes, i: nat, j: nat)
    requires i <= j <= |src|
    ensures Tail(src, i)[j - i..] == Tail(src, j)
    ensures j < |src| ==> Tail(src, i)[j - i] == src[j]
  {
  }

  lemma TailTook(src: Bytes, i: nat, j: nat, text: Bytes)
    requires Took(src, i, j, [], text)
    ensures text == Tail(src, i)[..j - i]
  {
  }

  class Cursor {
    const src: Bytes
    // maxInputBytes; 0 means no limit.
    const limit: nat
    const streaming: bool
    var pos: nat
    var line: nat
    var column: nat
    var prevWasCR: bool
    // A stream's one-byte buffer, and how many bytes the stream has delivered.
    var buffer: Option<Byte>
    var delivered: nat
    var eof: bool

    constructor (src: Bytes, start: nat, limit: nat, streaming: bool)
      requires start <= |src| && (limit == 0 || start <= limit)
      ensures Valid() && this.src == src && this.limit == limit && this.streaming == streaming && pos == start
    {
      this.src, this.limit, this.streaming := src, limit, streaming;
      pos, delivered := start, start;
      var p := Coordinates(src, start);
      line, column := p.line, p.column;
      prevWasCR := start > 0 && src[start - 1] == CR;
      buffer, eof := None, false;
    }

    // Coordinates are kept incrementally but always agree with a recount.
    ghost predicate Valid()
      reads this
      ensures Valid() ==> pos <= |src| && (limit == 0 || pos <= limit)
    {
      && pos <= |src| && (limit == 0 || pos <= limit)
      && Position(line, column) == Coordinates(src, pos)
      && (prevWasCR <==> pos > 0 && src[pos - 1] == CR)
      && delivered == pos + (if buffer.Some? then 1 else 0) <= |src|
      && (buffer.Some? ==> streaming && buffer.value == src[pos])
      && (eof ==> streaming && delivered == |src|)
    }

    // No byte of the input lies beyond the limit.
    predicate Roomy() {
      limit == 0 || |src| <= limit
    }

    // Makes one byte of a stream available, unless it has ended.
    method Ensure() returns (ok: bool)
      requires Valid() && streaming
      modifies this`buffer, this`delivered, this`eof
      ensures Valid() && (ok <==> pos < |src|) && (ok ==> buffer == Some(src[pos]))
    {
      if buffer.Some? { return true; }
      if eof { return false; }
      if delivered == |src| {
        eof := true;
        return false;
      }
      buffer := Some(src[delivered]);
      delivered := delivered + 1;
      ok := true;
    }

    method Peek() returns (ok: bool, ch: Byte)
      requires Valid()
      modifies this`buffer, this`delivered, this`eof
      ensures Valid() && (ok <==> pos < |src|) && (ok ==> ch == src[pos])
      ensures ok && streaming ==> buffer.Some?
    {
      ch := 0;
      if streaming {
        ok := Ensure();
        if ok { ch := buffer.value; }
      } else {
        ok := pos < |src|;
        if ok { ch := src[pos]; }
      }
    }

    method Get() returns (ok: bool, ch: Byte)
      requires Valid() && (limit == 0 || pos < limit)
      modifies this
      ensures Valid() && (ok <==> old(pos) < |src|)
      ensures if ok then pos == old(pos) + 1 && ch == src[old(pos)] else pos == old(pos)
    {
      ok, ch := Peek();
      if !ok { return; }
      if ch == CR {
        line := line + 1;
        column := 1;
        prevWasCR := true;
      } else if ch == LF {
        if prevWasCR {
          prevWasCR := false;
        } else {
          line := line + 1;
          column := 1;
        }
      } else {
        column := column + 1;
        prevWasCR := false;
      }
      pos := pos + 1;
      if streaming { buffer := None; } else { delivered := delivered + 1; }
    }

    // getChar(): no byte at or beyond the limit is ever consumed.
    method GetChar() returns (ok: bool, ch: Byte)
      requires Valid()
      modifies this
      ensures Valid()
      ensures ok ==> old(pos) < |src| && pos == old(pos) + 1 && ch == src[old(pos)]
      ensures !ok ==> pos == old(pos) && (Roomy() ==> pos == |src|)
    {
      if limit != 0 && pos >= limit { return false, 0; }
      ok, ch := Get();
    }
  }
}
