/**
  A request body in chunks, as a function of the bytes that have come, and the form of
  section 7.1 of RFC 9112 in which it is accepted.
 */
module HttpChunks {
  import opened Basics
  import opened Reading
  import opened HttpHead

  const CRLF: Bytes := [CR, LF]

  // ---------------------------------------------------------------- counted bytes and lines

  function ExactlyOf(n: nat, s: Bytes): Step<Bytes> {
    if |s| < n then End else Ok(s[..n], s[n..])
  }

  /** Where the first LF is, or the length. */
  function FirstEnd(s: Bytes): nat {
    |UpTo(s, LF)|
  }

  predicate IsControl(b: Byte) {
    (b < SPACE && b != TAB) || b == 127
  }

  predicate Plain(s: Bytes) {
    forall i :: 0 <= i < |s| ==> !IsControl(s[i])
  }

  /** The bytes up to the first LF, if a CR is in front of it and they are within `limit`. */
  function LineOf(limit: nat, tooLong: nat, s: Bytes): Step<Bytes> {
    UpToIs(s, LF);
    var end := FirstEnd(s);
    if end == |s| then
      if |s| > limit + 1 then Refused(tooLong, s) else End
    else if end > limit + 1 then Refused(tooLong, s)
    else if end == 0 || s[end - 1] != CR || !Plain(s[..end - 1]) then Refused(BAD, s[end + 1..])
    else Ok(s[..end - 1], s[end + 1..])
  }

  lemma FirstEndStays(s: Bytes, x: Bytes)
    ensures FirstEnd(s) < |s| ==> FirstEnd(s + x) == FirstEnd(s)
    ensures FirstEnd(s) == |s| ==> FirstEnd(s + x) >= |s|
  {
    UpToIs(s, LF);
    UpToLonger(s, x, LF);
  }

  lemma LineIsSettled(limit: nat, tooLong: nat, s: Bytes, x: Bytes)
    requires !LineOf(limit, tooLong, s).End?
    ensures LineOf(limit, tooLong, s + x) ==
              match LineOf(limit, tooLong, s)
              case Ok(v, rest) => Ok(v, rest + x)
              case Refused(status, rest) => Refused(status, rest + x)
  {
    FirstEndStays(s, x);
    UpToIs(s, LF);
    UpToIs(s + x, LF);
    var end := FirstEnd(s);
    if end < |s| && end <= limit + 1 {
      assert (s + x)[end + 1..] == s[end + 1..] + x;
      if end > 0 {
        assert (s + x)[..end - 1] == s[..end - 1];
      }
    }
  }

  /** What a line that is read is: the bytes up to the first CRLF, all plain, within the limit. */
  lemma LineIs(limit: nat, tooLong: nat, s: Bytes)
    requires LineOf(limit, tooLong, s).Ok?
    ensures var line := LineOf(limit, tooLong, s).value;
            s == line + CRLF + LineOf(limit, tooLong, s).rest && Plain(line) && |line| <= limit
  {
    UpToIs(s, LF);
    var end := FirstEnd(s);
    assert s == s[..end - 1] + [s[end - 1], s[end]] + s[end + 1..];
  }

  /** And every plain line within the limit is read. */
  lemma LineIsRead(limit: nat, tooLong: nat, line: Bytes, x: Bytes)
    requires Plain(line) && |line| <= limit
    ensures LineOf(limit, tooLong, line + CRLF + x) == Ok(line, x)
  {
    var s := line + CRLF + x;
    UpToIs(s, LF);
    FirstEndIs(s, |line| + 1);
    assert s[..|line|] == line && s[|line| + 2..] == x;
  }

  lemma FirstEndIs(s: Bytes, i: nat)
    requires i < |s| && s[i] == LF && forall k :: 0 <= k < i ==> s[k] != LF
    ensures FirstEnd(s) == i
  {
    UpToOf(s[..i], s[i..], LF);
    assert s == s[..i] + s[i..];
  }

  // ---------------------------------------------------------------- the size of a chunk

  predicate IsHex(b: Byte) {
    48 <= b <= 57 || 65 <= b <= 70 || 97 <= b <= 102
  }

  function HexDigit(b: Byte): nat
    requires IsHex(b)
  {
    if b <= 57 then b - 48 else if b <= 70 then b - 55 else b - 87
  }

  predicate AllHex(s: Bytes) {
    forall i :: 0 <= i < |s| ==> IsHex(s[i])
  }

  function Hex(s: Bytes): nat
    requires AllHex(s)
  {
    if s == [] then 0 else 16 * Hex(s[..|s| - 1]) + HexDigit(s[|s| - 1])
  }

  predicate IsBlank(b: Byte) {
    b == SPACE || b == TAB
  }

  function TrimEnd(s: Bytes): Bytes {
    if s != [] && IsBlank(s[|s| - 1]) then TrimEnd(s[..|s| - 1]) else s
  }

  /** The size a chunk's line gives: hexadecimal digits before the first semicolon, blanks behind them dropped. */
  function SizeOf(line: Bytes): Option<nat> {
    var digits := TrimEnd(UpTo(line, SEMICOLON));
    if digits == [] || |digits| > 16 || !AllHex(digits) then None else Some(Hex(digits))
  }

  /** The form of a chunk's line: a size, blanks, and extensions behind a semicolon. */
  predicate SizeLine(line: Bytes, digits: Bytes, blanks: Bytes, extensions: Bytes) {
    && line == digits + blanks + extensions
    && 0 < |digits| <= 16 && AllHex(digits)
    && (forall i :: 0 <= i < |blanks| ==> IsBlank(blanks[i]))
    && (extensions == [] || extensions[0] == SEMICOLON)
  }

  lemma {:induction false} TrimEndIs(s: Bytes)
    ensures TrimEnd(s) <= s
    ensures forall i :: |TrimEnd(s)| <= i < |s| ==> IsBlank(s[i])
    ensures TrimEnd(s) != [] ==> !IsBlank(TrimEnd(s)[|TrimEnd(s)| - 1])
  {
    if s != [] && IsBlank(s[|s| - 1]) {
      TrimEndIs(s[..|s| - 1]);
    }
  }

  lemma {:induction false} TrimEndOf(digits: Bytes, blanks: Bytes)
    requires digits != [] && !IsBlank(digits[|digits| - 1]) && forall i :: 0 <= i < |blanks| ==> IsBlank(blanks[i])
    ensures TrimEnd(digits + blanks) == digits
    decreases |blanks|
  {
    var s := digits + blanks;
    if blanks == [] {
      assert s == digits;
    } else {
      assert s[..|s| - 1] == digits + blanks[..|blanks| - 1];
      TrimEndOf(digits, blanks[..|blanks| - 1]);
    }
  }

  /** A line gives a size exactly if it has the form, and then the size its digits say. */
  lemma SizeOfHasTheForm(line: Bytes) returns (digits: Bytes, blanks: Bytes, extensions: Bytes)
    requires SizeOf(line).Some?
    ensures SizeLine(line, digits, blanks, extensions) && SizeOf(line) == Some(Hex(digits))
  {
    UpToIs(line, SEMICOLON);
    var before := UpTo(line, SEMICOLON);
    TrimEndIs(before);
    digits, blanks, extensions := TrimEnd(before), before[|TrimEnd(before)|..], line[|before|..];
    assert line == digits + blanks + extensions;
  }

  lemma FormGivesTheSize(line: Bytes, digits: Bytes, blanks: Bytes, extensions: Bytes)
    requires SizeLine(line, digits, blanks, extensions)
    ensures SizeOf(line) == Some(Hex(digits))
  {
    UpToIs(line, SEMICOLON);
    var before := digits + blanks;
    forall i | 0 <= i < |before|
      ensures before[i] != SEMICOLON
    {
      assert i < |digits| ==> IsHex(digits[i]);
      assert i >= |digits| ==> IsBlank(blanks[i - |digits|]);
    }
    UpToOf(before, extensions, SEMICOLON);
    assert line == before + extensions;
    assert IsHex(digits[|digits| - 1]);
    TrimEndOf(digits, blanks);
  }

  lemma {:induction false} SixteenDigitsFit(s: Bytes, n: nat)
    requires AllHex(s) && |s| <= n
    ensures Hex(s) < Pow(16, n)
  {
    if s == [] {
      PowerIsPositive(n);
    } else {
      SixteenDigitsFit(s[..|s| - 1], n - 1);
    }
  }

  /** A size that is read fits into 64 bits. */
  lemma SizeFits(line: Bytes)
    requires SizeOf(line).Some?
    ensures SizeOf(line).value < Pow(16, 16)
  {
    SixteenDigitsFit(TrimEnd(UpTo(line, SEMICOLON)), 16);
  }

  lemma {:induction false} PowerIsPositive(n: nat)
    ensures Pow(16, n) > 0
  {
    if n > 0 {
      PowerIsPositive(n - 1);
    }
  }

  // ---------------------------------------------------------------- the trailers and the chunks

  function TrailersOf(body: Bytes, trailers: nat, s: Bytes): Step<Bytes>
    decreases |s|, 0
  {
    match LineOf(HEAD_MAX, HEAD_TOO_LARGE, s)
    case End => End
    case Refused(status, rest) => Refused(status, rest)
    case Ok(line, rest) =>
      LineIs(HEAD_MAX, HEAD_TOO_LARGE, s);
      AfterTrailerOf(body, trailers, line, rest)
  }

  function AfterTrailerOf(body: Bytes, trailers: nat, line: Bytes, s: Bytes): Step<Bytes>
    decreases |s|, 1
  {
    if line == [] then Ok(body, s)
    else if trailers + |line| + 2 > HEAD_MAX then Refused(HEAD_TOO_LARGE, s)
    else TrailersOf(body, trailers + |line| + 2, s)
  }

  function ChunkedOf(env: Env, body: Bytes, framing: nat, s: Bytes): Step<Bytes>
    decreases |s|, 2
  {
    match LineOf(CHUNK_LINE_MAX, BAD, s)
    case End => End
    case Refused(status, rest) => Refused(status, rest)
    case Ok(line, rest) =>
      LineIs(CHUNK_LINE_MAX, BAD, s);
      AfterSizeOf(env, body, framing + |line| + 4, line, rest)
  }

  function AfterSizeOf(env: Env, body: Bytes, framing: nat, line: Bytes, s: Bytes): Step<Bytes>
    decreases |s|, 3
  {
    if framing > CHUNK_FRAMING_MAX then Refused(BAD, s)
    else
      match SizeOf(line)
      case None => Refused(BAD, s)
      case Some(size) =>
        if size == 0 then TrailersOf(body, 0, s)
        else if size > env.bodyMax - |body| then Refused(BODY_TOO_LARGE, s)
        else
          match ExactlyOf(size, s)
          case End => End
          case Refused(status, rest) => Refused(status, rest)
          case Ok(data, rest) => AfterDataOf(env, body + data, framing, rest)
  }

  function AfterDataOf(env: Env, body: Bytes, framing: nat, s: Bytes): Step<Bytes>
    decreases |s|, 3
  {
    match LineOf(0, BAD, s)
    case End => End
    case Refused(status, rest) => Refused(status, rest)
    case Ok(line, rest) =>
      LineIs(0, BAD, s);
      if line != [] then Refused(BAD, rest) else ChunkedOf(env, body, framing, rest)
  }

  /** What a reading comes to lasts: more bytes behind it stay behind it. */
  ghost predicate Lasts<T>(before: Step<T>, after: Step<T>, x: Bytes) {
    match before
    case End => true
    case Ok(v, rest) => after == Ok(v, rest + x)
    case Refused(status, rest) => after == Refused(status, rest + x)
  }

  lemma {:induction false} TrailersLast(body: Bytes, trailers: nat, s: Bytes, x: Bytes)
    ensures Lasts(TrailersOf(body, trailers, s), TrailersOf(body, trailers, s + x), x)
    decreases |s|, 0
  {
    var step := LineOf(HEAD_MAX, HEAD_TOO_LARGE, s);
    if !step.End? {
      LineIsSettled(HEAD_MAX, HEAD_TOO_LARGE, s, x);
    }
    if step.Ok? {
      LineIs(HEAD_MAX, HEAD_TOO_LARGE, s);
      AfterTrailerLasts(body, trailers, step.value, step.rest, x);
    }
  }

  lemma {:induction false} AfterTrailerLasts(body: Bytes, trailers: nat, line: Bytes, s: Bytes, x: Bytes)
    ensures Lasts(AfterTrailerOf(body, trailers, line, s), AfterTrailerOf(body, trailers, line, s + x), x)
    decreases |s|, 1
  {
    if line != [] && trailers + |line| + 2 <= HEAD_MAX {
      TrailersLast(body, trailers + |line| + 2, s, x);
    }
  }

  lemma {:induction false} ChunkedLasts(env: Env, body: Bytes, framing: nat, s: Bytes, x: Bytes)
    ensures Lasts(ChunkedOf(env, body, framing, s), ChunkedOf(env, body, framing, s + x), x)
    decreases |s|, 2
  {
    var step := LineOf(CHUNK_LINE_MAX, BAD, s);
    if !step.End? {
      LineIsSettled(CHUNK_LINE_MAX, BAD, s, x);
    }
    if step.Ok? {
      LineIs(CHUNK_LINE_MAX, BAD, s);
      AfterSizeLasts(env, body, framing + |step.value| + 4, step.value, step.rest, x);
    }
  }

  lemma {:induction false} AfterSizeLasts(env: Env, body: Bytes, framing: nat, line: Bytes, s: Bytes, x: Bytes)
    ensures Lasts(AfterSizeOf(env, body, framing, line, s), AfterSizeOf(env, body, framing, line, s + x), x)
    decreases |s|, 3
  {
    if framing <= CHUNK_FRAMING_MAX && SizeOf(line).Some? {
      var size := SizeOf(line).value;
      if size == 0 {
        TrailersLast(body, 0, s, x);
      } else if size <= env.bodyMax - |body| && size <= |s| {
        assert (s + x)[..size] == s[..size] && (s + x)[size..] == s[size..] + x;
        AfterDataLasts(env, body + s[..size], framing, s[size..], x);
      }
    }
  }

  lemma {:induction false} AfterDataLasts(env: Env, body: Bytes, framing: nat, s: Bytes, x: Bytes)
    ensures Lasts(AfterDataOf(env, body, framing, s), AfterDataOf(env, body, framing, s + x), x)
    decreases |s|, 3
  {
    var step := LineOf(0, BAD, s);
    if !step.End? {
      LineIsSettled(0, BAD, s, x);
    }
    if step.Ok? {
      LineIs(0, BAD, s);
      ChunkedLasts(env, body, framing, step.rest, x);
    }
  }

  // ---------------------------------------------------------------- the form of section 7.1 of RFC 9112

  /** A chunk: its line, without the line end, and its data. */
  datatype Chunk = Chunk(line: Bytes, data: Bytes)

  /** A body in chunks: the chunks, the line of the last, empty one, and the lines of the trailers. */
  datatype Message = Message(chunks: seq<Chunk>, last: Bytes, trailers: seq<Bytes>)

  function ChunkWire(c: Chunk): Bytes {
    c.line + CRLF + (c.data + CRLF)
  }

  function ChunksWire(chunks: seq<Chunk>): Bytes {
    if chunks == [] then [] else ChunkWire(chunks[0]) + ChunksWire(chunks[1..])
  }

  function TrailersWire(trailers: seq<Bytes>): Bytes {
    if trailers == [] then CRLF else trailers[0] + CRLF + TrailersWire(trailers[1..])
  }

  /** The bytes of the body on the wire. */
  function Wire(m: Message): Bytes {
    ChunksWire(m.chunks) + (m.last + CRLF + TrailersWire(m.trailers))
  }

  /** The body: the data of the chunks, one after the other. */
  function Data(chunks: seq<Chunk>): Bytes {
    if chunks == [] then [] else chunks[0].data + Data(chunks[1..])
  }

  /** What chunked coding costs: for each chunk its size line and two line ends. */
  function Framing(chunks: seq<Chunk>): nat {
    if chunks == [] then 0 else |chunks[0].line| + 4 + Framing(chunks[1..])
  }

  function TrailerBytes(trailers: seq<Bytes>): nat {
    if trailers == [] then 0 else |trailers[0]| + 2 + TrailerBytes(trailers[1..])
  }

  predicate ChunkFits(c: Chunk) {
    Plain(c.line) && |c.line| <= CHUNK_LINE_MAX && SizeOf(c.line) == Some(|c.data|) && c.data != []
  }

  predicate TrailerFits(t: Bytes) {
    Plain(t) && t != [] && |t| <= HEAD_MAX
  }

  predicate TrailersFit(trailers: seq<Bytes>, before: nat) {
    (forall i :: 0 <= i < |trailers| ==> TrailerFits(trailers[i])) && (trailers != [] ==> before + TrailerBytes(trailers) <= HEAD_MAX)
  }

  /** The body is in the form of the standard, and within the limits on its framing, its data and its trailers. */
  predicate Fits(env: Env, m: Message, body: nat, framing: nat) {
    && (forall i :: 0 <= i < |m.chunks| ==> ChunkFits(m.chunks[i]))
    && Plain(m.last) && |m.last| <= CHUNK_LINE_MAX && SizeOf(m.last) == Some(0)
    && framing + Framing(m.chunks) + |m.last| + 4 <= CHUNK_FRAMING_MAX
    && (m.chunks != [] ==> body + |Data(m.chunks)| <= env.bodyMax)
    && TrailersFit(m.trailers, 0)
  }

  /** What is read as trailers is trailers. */
  lemma {:induction false} TrailersAccepted(body: Bytes, before: nat, s: Bytes) returns (trailers: seq<Bytes>)
    requires TrailersOf(body, before, s).Ok?
    ensures TrailersFit(trailers, before)
    ensures s == TrailersWire(trailers) + TrailersOf(body, before, s).rest
    ensures TrailersOf(body, before, s).value == body
    decreases |s|, 0
  {
    var step := LineOf(HEAD_MAX, HEAD_TOO_LARGE, s);
    LineIs(HEAD_MAX, HEAD_TOO_LARGE, s);
    var line, rest := step.value, step.rest;
    assert TrailersOf(body, before, s) == AfterTrailerOf(body, before, line, rest);
    trailers := AfterTrailerAccepted(body, before, line, rest);
    OneTrailer(line, trailers, rest, AfterTrailerOf(body, before, line, rest).rest);
  }

  lemma {:induction false} AfterTrailerAccepted(body: Bytes, before: nat, line: Bytes, s: Bytes) returns (trailers: seq<Bytes>)
    requires Plain(line) && |line| <= HEAD_MAX && AfterTrailerOf(body, before, line, s).Ok?
    ensures TrailersFit(trailers, before)
    ensures line == [] ==> trailers == [] && s == AfterTrailerOf(body, before, line, s).rest
    ensures line != [] ==> trailers != [] && trailers[0] == line
                           && s == TrailersWire(trailers[1..]) + AfterTrailerOf(body, before, line, s).rest
    ensures AfterTrailerOf(body, before, line, s).value == body
    decreases |s|, 1
  {
    if line == [] {
      trailers := [];
    } else {
      var more := TrailersAccepted(body, before + |line| + 2, s);
      trailers := [line] + more;
      assert trailers[1..] == more;
    }
  }

  lemma OneTrailer(line: Bytes, trailers: seq<Bytes>, s: Bytes, rest: Bytes)
    requires line == [] ==> trailers == [] && s == rest
    requires line != [] ==> trailers != [] && trailers[0] == line && s == TrailersWire(trailers[1..]) + rest
    ensures line + CRLF + s == TrailersWire(trailers) + rest
  {
    if line != [] {
      assert line + CRLF + (TrailersWire(trailers[1..]) + rest) == line + CRLF + TrailersWire(trailers[1..]) + rest;
    }
  }

  lemma {:induction false} TrailersAreRead(body: Bytes, before: nat, trailers: seq<Bytes>, x: Bytes)
    requires TrailersFit(trailers, before)
    ensures TrailersOf(body, before, TrailersWire(trailers) + x) == Ok(body, x)
    decreases |trailers|
  {
    if trailers == [] {
      assert CRLF + x == [] + CRLF + x;
      LineIsRead(HEAD_MAX, HEAD_TOO_LARGE, [], x);
    } else {
      assert TrailerFits(trailers[0]);
      var more := TrailersWire(trailers[1..]) + x;
      assert TrailersWire(trailers) + x == trailers[0] + CRLF + more;
      LineIsRead(HEAD_MAX, HEAD_TOO_LARGE, trailers[0], more);
      LineIs(HEAD_MAX, HEAD_TOO_LARGE, trailers[0] + CRLF + more);
      assert forall i :: 0 <= i < |trailers[1..]| ==> trailers[1..][i] == trailers[i + 1];
      TrailersAreRead(body, before + |trailers[0]| + 2, trailers[1..], x);
    }
  }

  /** A body in chunks is accepted only in the form of the standard and within the limits; the body is its data. */
  lemma {:induction false} ChunkedAccepted(env: Env, body: Bytes, framing: nat, s: Bytes) returns (m: Message)
    requires ChunkedOf(env, body, framing, s).Ok?
    ensures Fits(env, m, |body|, framing)
    ensures s == Wire(m) + ChunkedOf(env, body, framing, s).rest
    ensures ChunkedOf(env, body, framing, s).value == body + Data(m.chunks)
    decreases |s|, 2
  {
    hide LineOf;
    LineIs(CHUNK_LINE_MAX, BAD, s);
    var step := LineOf(CHUNK_LINE_MAX, BAD, s);
    m := AfterSizeAccepted(env, body, framing, step.value, step.rest);
  }

  lemma {:induction false} AfterSizeAccepted(env: Env, body: Bytes, framing: nat, line: Bytes, s: Bytes) returns (m: Message)
    requires Plain(line) && |line| <= CHUNK_LINE_MAX
    requires AfterSizeOf(env, body, framing + |line| + 4, line, s).Ok?
    ensures Fits(env, m, |body|, framing)
    ensures line + CRLF + s == Wire(m) + AfterSizeOf(env, body, framing + |line| + 4, line, s).rest
    ensures AfterSizeOf(env, body, framing + |line| + 4, line, s).value == body + Data(m.chunks)
    decreases |s|, 3
  {
    if SizeOf(line) == Some(0) {
      var trailers := TrailersAccepted(body, 0, s);
      m := Message([], line, trailers);
      LastChunk(line, trailers, TrailersOf(body, 0, s).rest);
      assert body + Data([]) == body;
    } else {
      var data, rest := s[..SizeOf(line).value], s[SizeOf(line).value..];
      assert s == data + rest;
      var more := AfterDataAccepted(env, body + data, framing + |line| + 4, rest);
      m := ChunkBefore(env, Chunk(line, data), more, body, framing, AfterDataOf(env, body + data, framing + |line| + 4, rest).rest);
    }
  }

  lemma ChunkBefore(env: Env, c: Chunk, more: Message, body: Bytes, framing: nat, rest: Bytes) returns (m: Message)
    requires ChunkFits(c) && Fits(env, more, |body| + |c.data|, framing + |c.line| + 4)
    requires |body| + |c.data| + |Data(more.chunks)| <= env.bodyMax
    ensures Fits(env, m, |body|, framing)
    ensures c.line + CRLF + (c.data + (CRLF + (Wire(more) + rest))) == Wire(m) + rest
    ensures body + c.data + Data(more.chunks) == body + Data(m.chunks)
  {
    m := Message([c] + more.chunks, more.last, more.trailers);
    OneChunk(env, c, more, |body|, framing);
    ChunkFirst(c, Wire(more), rest);
    assert body + c.data + Data(more.chunks) == body + (c.data + Data(more.chunks));
  }

  lemma LastChunk(line: Bytes, trailers: seq<Bytes>, rest: Bytes)
    ensures Wire(Message([], line, trailers)) + rest == line + CRLF + (TrailersWire(trailers) + rest)
  {
    assert Wire(Message([], line, trailers)) == line + CRLF + TrailersWire(trailers);
  }

  lemma ChunkFirst(c: Chunk, more: Bytes, rest: Bytes)
    ensures c.line + CRLF + (c.data + (CRLF + (more + rest))) == ChunkWire(c) + more + rest
  {
    assert c.data + (CRLF + (more + rest)) == c.data + CRLF + more + rest;
  }

  lemma OneChunk(env: Env, c: Chunk, more: Message, body: nat, framing: nat)
    ensures var m := Message([c] + more.chunks, more.last, more.trailers);
            && Wire(m) == ChunkWire(c) + Wire(more)
            && Data(m.chunks) == c.data + Data(more.chunks)
            && Framing(m.chunks) == |c.line| + 4 + Framing(more.chunks)
            && (Fits(env, m, body, framing) <==>
                ChunkFits(c) && Fits(env, more, body + |c.data|, framing + |c.line| + 4) && body + |c.data| + |Data(more.chunks)| <= env.bodyMax)
  {
    var m := Message([c] + more.chunks, more.last, more.trailers);
    assert m.chunks[1..] == more.chunks;
    assert forall i :: 0 <= i < |more.chunks| ==> m.chunks[i + 1] == more.chunks[i];
    assert ChunkWire(c) + ChunksWire(more.chunks) + (m.last + CRLF + TrailersWire(m.trailers))
        == ChunkWire(c) + (ChunksWire(more.chunks) + (m.last + CRLF + TrailersWire(m.trailers)));
  }

  lemma {:induction false} AfterDataAccepted(env: Env, body: Bytes, framing: nat, s: Bytes) returns (m: Message)
    requires |body| <= env.bodyMax && AfterDataOf(env, body, framing, s).Ok?
    ensures Fits(env, m, |body|, framing) && |body| + |Data(m.chunks)| <= env.bodyMax
    ensures s == CRLF + (Wire(m) + AfterDataOf(env, body, framing, s).rest)
    ensures AfterDataOf(env, body, framing, s).value == body + Data(m.chunks)
    decreases |s|, 3
  {
    LineIs(0, BAD, s);
    m := ChunkedAccepted(env, body, framing, LineOf(0, BAD, s).rest);
  }

  /** Every body in the form of the standard and within the limits is accepted, and no byte behind it is touched. */
  lemma {:induction false} ChunkedIsRead(env: Env, body: Bytes, framing: nat, m: Message, x: Bytes)
    requires Fits(env, m, |body|, framing)
    ensures ChunkedOf(env, body, framing, Wire(m) + x) == Ok(body + Data(m.chunks), x)
    decreases |m.chunks|
  {
    hide LineOf, ChunkedOf, Wire, Fits;
    if m.chunks == [] {
      LastIsRead(env, body, framing, m, x);
    } else {
      var more := FirstIsRead(env, body, framing, m, x);
      ChunkedIsRead(env, body + m.chunks[0].data, framing + |m.chunks[0].line| + 4, more, x);
    }
  }

  lemma FirstIsRead(env: Env, body: Bytes, framing: nat, m: Message, x: Bytes) returns (more: Message)
    requires m.chunks != [] && Fits(env, m, |body|, framing)
    ensures var c := m.chunks[0];
            && |more.chunks| < |m.chunks|
            && Fits(env, more, |body + c.data|, framing + |c.line| + 4)
            && body + c.data + Data(more.chunks) == body + Data(m.chunks)
            && ChunkedOf(env, body, framing, Wire(m) + x) ==
               ChunkedOf(env, body + c.data, framing + |c.line| + 4, Wire(more) + x)
  {
    hide LineOf, ChunkedOf, Wire, Fits, Data, ChunkWire, ChunkFits;
    more := WithoutFirst(env, body, framing, m);
    ChunkIsRead(env, body, framing, m.chunks[0], Wire(more), x);
  }

  lemma WithoutFirst(env: Env, body: Bytes, framing: nat, m: Message) returns (more: Message)
    requires m.chunks != [] && Fits(env, m, |body|, framing)
    ensures var c := m.chunks[0];
            && |more.chunks| < |m.chunks|
            && Wire(m) == ChunkWire(c) + Wire(more)
            && Fits(env, more, |body + c.data|, framing + |c.line| + 4)
            && ChunkFits(c) && |body| + |c.data| <= env.bodyMax && framing + |c.line| + 4 <= CHUNK_FRAMING_MAX
            && body + c.data + Data(more.chunks) == body + Data(m.chunks)
  {
    var c := m.chunks[0];
    more := Message(m.chunks[1..], m.last, m.trailers);
    assert m == Message([c] + more.chunks, more.last, more.trailers);
    OneChunk(env, c, more, |body|, framing);
    assert body + c.data + Data(more.chunks) == body + (c.data + Data(more.chunks));
  }

  lemma LastIsRead(env: Env, body: Bytes, framing: nat, m: Message, x: Bytes)
    requires m.chunks == [] && Fits(env, m, |body|, framing)
    ensures ChunkedOf(env, body, framing, Wire(m) + x) == Ok(body + Data(m.chunks), x)
  {
    LastChunk(m.last, m.trailers, x);
    LineIsRead(CHUNK_LINE_MAX, BAD, m.last, TrailersWire(m.trailers) + x);
    TrailersAreRead(body, 0, m.trailers, x);
    assert body + Data([]) == body;
  }

  lemma ChunkIsRead(env: Env, body: Bytes, framing: nat, c: Chunk, more: Bytes, x: Bytes)
    requires ChunkFits(c) && |body| + |c.data| <= env.bodyMax && framing + |c.line| + 4 <= CHUNK_FRAMING_MAX
    ensures ChunkedOf(env, body, framing, ChunkWire(c) + more + x) == ChunkedOf(env, body + c.data, framing + |c.line| + 4, more + x)
  {
    hide LineOf;
    ChunkFirst(c, more, x);
    var rest := c.data + (CRLF + (more + x));
    LineIsRead(CHUNK_LINE_MAX, BAD, c.line, rest);
    SizeIsRead(env, body, framing, c.line + CRLF + rest, c.line, rest);
    DataIsRead(env, body, framing + |c.line| + 4, c, more + x);
  }

  lemma SizeIsRead(env: Env, body: Bytes, framing: nat, s: Bytes, line: Bytes, rest: Bytes)
    requires LineOf(CHUNK_LINE_MAX, BAD, s) == Ok(line, rest)
    ensures ChunkedOf(env, body, framing, s) == AfterSizeOf(env, body, framing + |line| + 4, line, rest)
  {
  }

  lemma DataIsRead(env: Env, body: Bytes, framing: nat, c: Chunk, x: Bytes)
    requires ChunkFits(c) && |body| + |c.data| <= env.bodyMax && framing <= CHUNK_FRAMING_MAX
    ensures AfterSizeOf(env, body, framing, c.line, c.data + (CRLF + x)) == ChunkedOf(env, body + c.data, framing, x)
  {
    var s := c.data + (CRLF + x);
    assert s[..|c.data|] == c.data && s[|c.data|..] == CRLF + x == [] + CRLF + x;
    LineIsRead(0, BAD, [], x);
  }

  /** The bytes of the body, of its framing and of its trailers are all the bytes on the wire. */
  lemma {:induction false} WireLength(m: Message)
    ensures |Wire(m)| == |Data(m.chunks)| + (Framing(m.chunks) + |m.last| + 4) + TrailerBytes(m.trailers)
  {
    ChunksLength(m.chunks);
    TrailersLength(m.trailers);
  }

  lemma {:induction false} ChunksLength(chunks: seq<Chunk>)
    ensures |ChunksWire(chunks)| == |Data(chunks)| + Framing(chunks)
  {
    if chunks != [] {
      ChunksLength(chunks[1..]);
    }
  }

  lemma {:induction false} TrailersLength(trailers: seq<Bytes>)
    ensures |TrailersWire(trailers)| == TrailerBytes(trailers) + 2
  {
    if trailers != [] {
      TrailersLength(trailers[1..]);
    }
  }

  /**
    Bytes are read as a body in chunks with `rest` behind it exactly if they are the wire form of a
    message within the limits and `rest`; the body is then the data of its chunks, and the bytes
    used are the body, the framing and the trailers.
   */
  lemma ChunkedExactly(env: Env, s: Bytes, body: Bytes, rest: Bytes)
    ensures ChunkedOf(env, [], 0, s) == Ok(body, rest) <==>
            exists m :: Fits(env, m, 0, 0) && s == Wire(m) + rest && body == Data(m.chunks)
    ensures forall m :: Fits(env, m, 0, 0) && s == Wire(m) + rest && body == Data(m.chunks) ==>
              && |body| <= env.bodyMax
              && |s| - |rest| == |body| + (Framing(m.chunks) + |m.last| + 4) + TrailerBytes(m.trailers)
              && Framing(m.chunks) + |m.last| + 4 <= CHUNK_FRAMING_MAX && TrailerBytes(m.trailers) <= HEAD_MAX
  {
    hide LineOf;
    if ChunkedOf(env, [], 0, s) == Ok(body, rest) {
      var m := ChunkedAccepted(env, [], 0, s);
      assert [] + Data(m.chunks) == Data(m.chunks);
    }
    forall m | Fits(env, m, 0, 0) && s == Wire(m) + rest && body == Data(m.chunks)
      ensures ChunkedOf(env, [], 0, s) == Ok(body, rest)
      ensures |s| - |rest| == |body| + (Framing(m.chunks) + |m.last| + 4) + TrailerBytes(m.trailers)
    {
      ChunkedIsRead(env, [], 0, m, rest);
      assert [] + Data(m.chunks) == Data(m.chunks);
      WireLength(m);
    }
  }
}
