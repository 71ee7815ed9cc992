/** Chunks that are refused: the sizes that their lines say, and which bytes are refused with which status. */
module HttpLimits {
  import opened Basics
  import opened Reading
  import opened HttpHead
  import opened HttpChunks

  // ---------------------------------------------------------------- hexadecimal sizes

  const LOWER_DIGITS: string := "0123456789abcdef"
  const UPPER_DIGITS: string := "0123456789ABCDEF"

  /** The digits of a number, each in either case. */
  ghost predicate Writes(s: Bytes, n: nat) {
    if |s| == 0 then false
    else if |s| == 1 then n < 16 && IsDigit(s[0], n)
    else IsDigit(s[|s| - 1], n % 16) && Writes(s[..|s| - 1], n / 16)
  }

  predicate IsDigit(b: Byte, d: nat)
    requires d < 16
  {
    b == LOWER_DIGITS[d] as int || b == UPPER_DIGITS[d] as int
  }

  lemma DigitIs(b: Byte, d: nat)
    requires d < 16
    ensures IsDigit(b, d) <==> IsHex(b) && HexDigit(b) == d
  {
  }

  /** A text of hexadecimal digits is read as the number that it writes. */
  lemma {:induction false} HexIsRead(s: Bytes, n: nat)
    ensures Writes(s, n) <==> s != [] && AllHex(s) && Hex(s) == n
    decreases |s|
  {
    hide IsDigit, IsHex, HexDigit;
    if |s| == 1 {
      assert s[..0] == [];
      assert AllHex(s) ==> Hex(s) == HexDigit(s[0]);
      DigitBound(s[0]);
      if n < 16 {
        DigitIs(s[0], n);
      }
    } else if |s| > 1 {
      var init, last := s[..|s| - 1], s[|s| - 1];
      HexIsRead(init, n / 16);
      DigitIs(last, n % 16);
      DigitBound(last);
      assert AllHex(s) <==> AllHex(init) && IsHex(last);
      if AllHex(s) {
        assert Hex(s) == 16 * Hex(init) + HexDigit(last);
      }
    }
  }

  lemma DigitBound(b: Byte)
    ensures IsHex(b) ==> HexDigit(b) < 16
  {
  }

  // ---------------------------------------------------------------- a body that is too large

  /** The bytes are whole chunks within the limits, and then a line that may be the next chunk's. */
  ghost predicate ChunksThen(env: Env, body: nat, framing: nat, s: Bytes, chunks: seq<Chunk>, line: Bytes, rest: Bytes) {
    && s == ChunksWire(chunks) + (line + CRLF + rest)
    && (forall i :: 0 <= i < |chunks| ==> ChunkFits(chunks[i]))
    && Plain(line) && |line| <= CHUNK_LINE_MAX
    && framing + Framing(chunks) + |line| + 4 <= CHUNK_FRAMING_MAX
    && (chunks != [] ==> body + |Data(chunks)| <= env.bodyMax)
  }

  /** That line says a size with which the body is beyond the limit. */
  ghost predicate Exceeds(env: Env, body: nat, chunks: seq<Chunk>, line: Bytes) {
    SizeOf(line).Some? && SizeOf(line).value > 0 && body + |Data(chunks)| + SizeOf(line).value > env.bodyMax
  }

  lemma ThenOneMore(env: Env, body: nat, framing: nat, c: Chunk, s: Bytes, chunks: seq<Chunk>, line: Bytes, rest: Bytes)
    ensures ChunksThen(env, body, framing, ChunkWire(c) + s, [c] + chunks, line, rest) <==>
            ChunkFits(c) && body + |c.data| + |Data(chunks)| <= env.bodyMax && ChunksThen(env, body + |c.data|, framing + |c.line| + 4, s, chunks, line, rest)
    ensures Data([c] + chunks) == c.data + Data(chunks)
  {
    var all := [c] + chunks;
    assert all[1..] == chunks && all[0] == c;
    hide ChunkFits, Plain;
    var wire, behind := ChunkWire(c), line + CRLF + rest;
    assert ChunksWire(all) == wire + ChunksWire(chunks);
    assert wire + ChunksWire(chunks) + behind == wire + (ChunksWire(chunks) + behind);
    assert wire + s == wire + (ChunksWire(chunks) + behind) <==> s == ChunksWire(chunks) + behind by {
      SameBehind(wire, s, ChunksWire(chunks) + behind);
    }
    assert (forall i :: 0 <= i < |all| ==> ChunkFits(all[i])) <==> ChunkFits(c) && forall i :: 0 <= i < |chunks| ==> ChunkFits(chunks[i]) by {
      assert forall i :: 0 <= i < |chunks| ==> all[i + 1] == chunks[i];
    }
  }

  lemma SameBehind(a: Bytes, x: Bytes, y: Bytes)
    ensures a + x == a + y <==> x == y
  {
    assert (a + x)[|a|..] == x && (a + y)[|a|..] == y;
  }

  lemma {:induction false} TooLargeIsRefused(
    env: Env, body: Bytes, framing: nat, s: Bytes, chunks: seq<Chunk>, line: Bytes, rest: Bytes)
    requires ChunksThen(env, |body|, framing, s, chunks, line, rest) && Exceeds(env, |body|, chunks, line)
    ensures ChunkedOf(env, body, framing, s) == Refused(BODY_TOO_LARGE, rest)
    decreases |chunks|
  {
    hide LineOf;
    if chunks == [] {
      assert s == line + CRLF + rest;
      LineIsRead(CHUNK_LINE_MAX, BAD, line, rest);
      SizeIsRead(env, body, framing, s, line, rest);
    } else {
      var c, more := chunks[0], ChunksWire(chunks[1..]) + (line + CRLF + rest);
      assert chunks == [c] + chunks[1..];
      assert s == ChunkWire(c) + more;
      ThenOneMore(env, |body|, framing, c, more, chunks[1..], line, rest);
      ChunkIsRead(env, body, framing, c, more, []);
      assert ChunkWire(c) + more + [] == s && more + [] == more;
      TooLargeIsRefused(env, body + c.data, framing + |c.line| + 4, more, chunks[1..], line, rest);
    }
  }

  /** A refusal that is not the default comes from such a line, or from behind the last chunk. */
  lemma {:induction false} WhyRefused(env: Env, body: Bytes, framing: nat, s: Bytes) returns (chunks: seq<Chunk>, line: Bytes, rest: Bytes)
    requires ChunkedOf(env, body, framing, s).Refused? && ChunkedOf(env, body, framing, s).status != BAD
    ensures ChunksThen(env, |body|, framing, s, chunks, line, rest)
    ensures if ChunkedOf(env, body, framing, s).status == BODY_TOO_LARGE
            then Exceeds(env, |body|, chunks, line) && ChunkedOf(env, body, framing, s).rest == rest
            else ChunkedOf(env, body, framing, s).status == HEAD_TOO_LARGE && SizeOf(line) == Some(0)
    decreases |s|
  {
    var step := LineOf(CHUNK_LINE_MAX, BAD, s);
    LineRefusal(CHUNK_LINE_MAX, BAD, s);
    LineIs(CHUNK_LINE_MAX, BAD, s);
    hide LineOf, Plain;
    line, rest := step.value, step.rest;
    SizeIsRead(env, body, framing, s, line, rest);
    chunks := [];
    assert ChunksWire([]) + (line + CRLF + rest) == line + CRLF + rest;
    var size := SizeOf(line).value;
    if 0 < size <= env.bodyMax - |body| {
      chunks, line, rest := AfterTheFirst(env, body, framing, line, rest, size);
    } else if size == 0 {
      TrailersRefusal(body, 0, rest);
    }
  }

  lemma {:induction false} AfterTheFirst(env: Env, body: Bytes, framing: nat, line: Bytes, s: Bytes, size: nat)
    returns (chunks: seq<Chunk>, line': Bytes, rest: Bytes)
    requires Plain(line) && |line| <= CHUNK_LINE_MAX && SizeOf(line) == Some(size) && 0 < size <= env.bodyMax - |body|
    requires var step := AfterSizeOf(env, body, framing + |line| + 4, line, s); step.Refused? && step.status != BAD
    ensures var step := AfterSizeOf(env, body, framing + |line| + 4, line, s);
            && ChunksThen(env, |body|, framing, line + CRLF + s, chunks, line', rest)
            && if step.status == BODY_TOO_LARGE then Exceeds(env, |body|, chunks, line') && step.rest == rest
               else step.status == HEAD_TOO_LARGE && SizeOf(line') == Some(0)
    decreases |s|
  {
    hide LineOf, Plain, ChunkFits, ChunksThen, Exceeds, SizeOf, AfterSizeOf, ChunkedOf;
    var c, next := DataThenLine(env, body, framing, line, s, size);
    var more;
    more, line', rest := WhyRefused(env, body + c.data, framing + |line| + 4, next);
    chunks := [c] + more;
    ThenOneMore(env, |body|, framing, c, next, more, line', rest);
    ThenBound(env, |body| + size, framing + |line| + 4, next, more, line', rest);
    MoreExceeds(env, |body|, c, more, line');
  }

  lemma ThenBound(env: Env, body: nat, framing: nat, s: Bytes, chunks: seq<Chunk>, line: Bytes, rest: Bytes)
    requires ChunksThen(env, body, framing, s, chunks, line, rest) && body <= env.bodyMax
    ensures body + |Data(chunks)| <= env.bodyMax
  {
  }

  lemma MoreExceeds(env: Env, body: nat, c: Chunk, chunks: seq<Chunk>, line: Bytes)
    ensures Exceeds(env, body, [c] + chunks, line) <==> Exceeds(env, body + |c.data|, chunks, line)
  {
    assert ([c] + chunks)[1..] == chunks;
  }

  /** A chunk within the limits is read, and what is behind it is read on. */
  lemma DataThenLine(env: Env, body: Bytes, framing: nat, line: Bytes, s: Bytes, size: nat) returns (c: Chunk, next: Bytes)
    requires Plain(line) && |line| <= CHUNK_LINE_MAX && SizeOf(line) == Some(size) && 0 < size <= env.bodyMax - |body|
    requires var step := AfterSizeOf(env, body, framing + |line| + 4, line, s); step.Refused? && step.status != BAD
    ensures c.line == line && |c.data| == size && ChunkFits(c) && |next| < |s| && line + CRLF + s == ChunkWire(c) + next
    ensures AfterSizeOf(env, body, framing + |line| + 4, line, s) == ChunkedOf(env, body + c.data, framing + |line| + 4, next)
  {
    var behind := s[size..];
    c := Chunk(line, s[..size]);
    LineRefusal(0, BAD, behind);
    LineIs(0, BAD, behind);
    next := LineOf(0, BAD, behind).rest;
    assert behind == CRLF + next;
    hide LineOf, Plain, ChunkedOf;
    assert s == c.data + (CRLF + next);
    assert line + CRLF + (c.data + (CRLF + next)) == line + CRLF + (c.data + CRLF) + next;
  }

  lemma LineRefusal(limit: nat, tooLong: nat, s: Bytes)
    ensures LineOf(limit, tooLong, s).Refused? ==> LineOf(limit, tooLong, s).status in {BAD, tooLong}
  {
  }

  lemma {:induction false} TrailersRefusal(body: Bytes, before: nat, s: Bytes)
    ensures TrailersOf(body, before, s).Refused? ==> TrailersOf(body, before, s).status in {BAD, HEAD_TOO_LARGE}
    decreases |s|
  {
    LineRefusal(HEAD_MAX, HEAD_TOO_LARGE, s);
    var step := LineOf(HEAD_MAX, HEAD_TOO_LARGE, s);
    if step.Ok? {
      LineIs(HEAD_MAX, HEAD_TOO_LARGE, s);
      if step.value != [] && before + |step.value| + 2 <= HEAD_MAX {
        TrailersRefusal(body, before + |step.value| + 2, step.rest);
      }
    }
  }

  /**
    A body in chunks is refused as too large exactly if whole chunks within the limits are followed
    by a line with whose size it would be beyond the limit; every other refusal is a bad request, or
    comes from trailers that are too long, behind the last chunk.
   */
  lemma ChunkedTooLarge(env: Env, s: Bytes, rest: Bytes)
    ensures ChunkedOf(env, [], 0, s) == Refused(BODY_TOO_LARGE, rest) <==>
            exists chunks, line :: ChunksThen(env, 0, 0, s, chunks, line, rest) && Exceeds(env, 0, chunks, line)
    ensures ChunkedOf(env, [], 0, s).Refused? ==> ChunkedOf(env, [], 0, s).status in {BAD, BODY_TOO_LARGE, HEAD_TOO_LARGE}
    ensures ChunkedOf(env, [], 0, s).Refused? && ChunkedOf(env, [], 0, s).status == HEAD_TOO_LARGE ==>
              exists chunks, line, behind :: ChunksThen(env, 0, 0, s, chunks, line, behind) && SizeOf(line) == Some(0)
  {
    hide ChunkedOf, ChunksThen, Exceeds, SizeOf;
    var step := ChunkedOf(env, [], 0, s);
    if step.Refused? && step.status != BAD {
      var chunks, line, behind := WhyRefused(env, [], 0, s);
    }
    forall chunks, line | ChunksThen(env, 0, 0, s, chunks, line, rest) && Exceeds(env, 0, chunks, line)
      ensures step == Refused(BODY_TOO_LARGE, rest)
    {
      TooLargeIsRefused(env, [], 0, s, chunks, line, rest);
    }
  }
}
