/**
  The reader of requests: a buffer that its methods fill from the connection and empty as they
  take lines, bodies and heads from it. Each method comes to what its specification comes to
  when one reads on exactly as far as needed.
 */
module HttpReader {
  import opened Basics
  import opened Reading
  import opened HttpHead
  import opened HttpChunks
  import opened HttpRequest
  import opened HttpArrival

  /** The most buffered bytes that a look ahead is made for. */
  const LOOKED_AT := 64 * 1024

  /** What a method gives: a value, the end of the connection, a refusal, or that the client would have to be waited for. */
  datatype Got<T> = Value(value: T) | Ended | Turned(status: nat) | Waits

  /** What it gives, with what is left in the buffer. */
  function Told<T>(got: Got<T>, buf: Bytes): Step<T> {
    match got
    case Value(v) => Ok(v, buf)
    case Ended => End
    case Turned(status) => Refused(status, buf)
    case Waits => End
  }

  // ---------------------------------------------------------------- the specifications as readings

  function LineReader(limit: nat, tooLong: nat): Bytes -> Step<Bytes> { s => LineOf(limit, tooLong, s) }
  function ExactReader(n: nat): Bytes -> Step<Bytes> { s => ExactlyOf(n, s) }
  function TrailersReader(body: Bytes, trailers: nat): Bytes -> Step<Bytes> { s => TrailersOf(body, trailers, s) }
  function AfterTrailerReader(body: Bytes, trailers: nat, line: Bytes): Bytes -> Step<Bytes> {
    s => AfterTrailerOf(body, trailers, line, s)
  }
  function ChunkedReader(env: Env, body: Bytes, framing: nat): Bytes -> Step<Bytes> { s => ChunkedOf(env, body, framing, s) }
  function AfterSizeReader(env: Env, body: Bytes, framing: nat, line: Bytes): Bytes -> Step<Bytes> {
    s => AfterSizeOf(env, body, framing, line, s)
  }
  function AfterDataReader(env: Env, body: Bytes, framing: nat): Bytes -> Step<Bytes> { s => AfterDataOf(env, body, framing, s) }
  function BodyReader(env: Env, length: Length): Bytes -> Step<Bytes> { s => BodyOf(env, length, s) }
  function SkipReader(): Bytes -> Step<()> { s => SkipOf(s) }
  function BareHeadReader(env: Env): Bytes -> Step<Head> { s => BareHeadOf(env, s) }
  function HeadReader(env: Env): Bytes -> Step<Head> { s => HeadOf(env, s) }
  function AfterHeadReader(env: Env, head: Head): Bytes -> Step<Request> { s => AfterHeadOf(env, head, s) }

  function Refuse<T>(status: nat): Bytes -> Step<T> { s => Refused(status, s) }
  function Finish(env: Env, head: Head, body: Bytes): Bytes -> Step<Request> { s => Ok(RequestFrom(env, head, body), s) }

  lemma LineSettles(limit: nat, tooLong: nat)
    ensures Settled(LineReader(limit, tooLong))
  {
    forall s, x | LineOf(limit, tooLong, s).Ok?
      ensures LineOf(limit, tooLong, s + x) == Ok(LineOf(limit, tooLong, s).value, LineOf(limit, tooLong, s).rest + x)
    {
      LineIsSettled(limit, tooLong, s, x);
    }
  }

  lemma ExactSettles(n: nat)
    ensures Settled(ExactReader(n))
  {
    forall s: Bytes, x: Bytes | n <= |s|
      ensures ExactlyOf(n, s + x) == Ok(s[..n], s[n..] + x)
    {
      assert (s + x)[..n] == s[..n] && (s + x)[n..] == s[n..] + x;
    }
  }

  function AfterTrailers(body: Bytes, trailers: nat): Bytes -> (Bytes -> Step<Bytes>) {
    line => AfterTrailerReader(body, trailers, line)
  }

  lemma TrailersGoOn(body: Bytes, trailers: nat, buf: Bytes, pieces: seq<Bytes>)
    ensures Decide(TrailersReader(body, trailers), buf, pieces) ==
            Onward(Decide(LineReader(HEAD_MAX, HEAD_TOO_LARGE), buf, pieces), AfterTrailers(body, trailers))
  {
    LineSettles(HEAD_MAX, HEAD_TOO_LARGE);
    DecideChain(LineReader(HEAD_MAX, HEAD_TOO_LARGE), TrailersReader(body, trailers), AfterTrailers(body, trailers), buf, pieces);
  }

  lemma TrailerStep(body: Bytes, trailers: nat, line: Bytes, buf: Bytes, pieces: seq<Bytes>)
    ensures Decide(AfterTrailerReader(body, trailers, line), buf, pieces) ==
            if line == [] then (Ok(body, buf), pieces)
            else if trailers + |line| + 2 > HEAD_MAX then (Refused(HEAD_TOO_LARGE, buf), pieces)
            else Decide(TrailersReader(body, trailers + |line| + 2), buf, pieces)
  {
    if line != [] && trailers + |line| + 2 <= HEAD_MAX {
      DecideSame(AfterTrailerReader(body, trailers, line), TrailersReader(body, trailers + |line| + 2), buf, pieces);
    }
  }

  function AfterSizes(env: Env, body: Bytes, framing: nat): Bytes -> (Bytes -> Step<Bytes>) {
    line => AfterSizeReader(env, body, framing + |line| + 4, line)
  }

  lemma ChunkedGoesOn(env: Env, body: Bytes, framing: nat, buf: Bytes, pieces: seq<Bytes>)
    ensures Decide(ChunkedReader(env, body, framing), buf, pieces) ==
            Onward(Decide(LineReader(CHUNK_LINE_MAX, BAD), buf, pieces), AfterSizes(env, body, framing))
  {
    LineSettles(CHUNK_LINE_MAX, BAD);
    DecideChain(LineReader(CHUNK_LINE_MAX, BAD), ChunkedReader(env, body, framing), AfterSizes(env, body, framing), buf, pieces);
  }

  lemma SizeStep(env: Env, body: Bytes, framing: nat, line: Bytes, buf: Bytes, pieces: seq<Bytes>)
    ensures framing > CHUNK_FRAMING_MAX || SizeOf(line).None? ==>
              Decide(AfterSizeReader(env, body, framing, line), buf, pieces) == (Refused(BAD, buf), pieces)
    ensures framing <= CHUNK_FRAMING_MAX && SizeOf(line) == Some(0) ==>
              Decide(AfterSizeReader(env, body, framing, line), buf, pieces) == Decide(TrailersReader(body, 0), buf, pieces)
    ensures framing <= CHUNK_FRAMING_MAX && SizeOf(line).Some? && SizeOf(line).value != 0 && SizeOf(line).value > env.bodyMax - |body| ==>
              Decide(AfterSizeReader(env, body, framing, line), buf, pieces) == (Refused(BODY_TOO_LARGE, buf), pieces)
  {
    if framing <= CHUNK_FRAMING_MAX && SizeOf(line) == Some(0) {
      DecideSame(AfterSizeReader(env, body, framing, line), TrailersReader(body, 0), buf, pieces);
    }
  }

  function AfterDatas(env: Env, body: Bytes, framing: nat): Bytes -> (Bytes -> Step<Bytes>) {
    data => AfterDataReader(env, body + data, framing)
  }

  lemma SizeGoesOn(env: Env, body: Bytes, framing: nat, line: Bytes, buf: Bytes, pieces: seq<Bytes>)
    requires framing <= CHUNK_FRAMING_MAX && SizeOf(line).Some? && 0 < SizeOf(line).value <= env.bodyMax - |body|
    ensures Decide(AfterSizeReader(env, body, framing, line), buf, pieces) ==
            Onward(Decide(ExactReader(SizeOf(line).value), buf, pieces), AfterDatas(env, body, framing))
  {
    ExactSettles(SizeOf(line).value);
    DecideChain(ExactReader(SizeOf(line).value), AfterSizeReader(env, body, framing, line), AfterDatas(env, body, framing), buf, pieces);
  }

  function AfterLineEnds(env: Env, body: Bytes, framing: nat): Bytes -> (Bytes -> Step<Bytes>) {
    line => if line != [] then Refuse(BAD) else ChunkedReader(env, body, framing)
  }

  lemma DataGoesOn(env: Env, body: Bytes, framing: nat, buf: Bytes, pieces: seq<Bytes>)
    ensures Decide(AfterDataReader(env, body, framing), buf, pieces) ==
            Onward(Decide(LineReader(0, BAD), buf, pieces), AfterLineEnds(env, body, framing))
  {
    LineSettles(0, BAD);
    DecideChain(LineReader(0, BAD), AfterDataReader(env, body, framing), AfterLineEnds(env, body, framing), buf, pieces);
  }

  function AfterHeads(env: Env): Head -> (Bytes -> Step<Request>) { head => AfterHeadReader(env, head) }

  lemma HeadGoesOn(env: Env, buf: Bytes, pieces: seq<Bytes>)
    ensures Decide(RequestReader(env), buf, pieces) == Onward(Decide(HeadReader(env), buf, pieces), AfterHeads(env))
  {
    forall s, x | HeadOf(env, s).Ok?
      ensures HeadOf(env, s + x) == Ok(HeadOf(env, s).value, HeadOf(env, s).rest + x)
    {
      HeadIsSettled(env, s, x);
    }
    DecideChain(HeadReader(env), RequestReader(env), AfterHeads(env), buf, pieces);
  }

  function AfterBodies(env: Env, head: Head): Bytes -> (Bytes -> Step<Request>) { body => Finish(env, head, body) }

  lemma BodyGoesOn(env: Env, head: Head, buf: Bytes, pieces: seq<Bytes>)
    requires Checked(env, head).Fine?
    ensures Decide(AfterHeadReader(env, head), buf, pieces) ==
            Onward(Decide(BodyReader(env, Checked(env, head).value), buf, pieces), AfterBodies(env, head))
  {
    var length := Checked(env, head).value;
    forall s, x | BodyOf(env, length, s).Ok?
      ensures BodyOf(env, length, s + x) == Ok(BodyOf(env, length, s).value, BodyOf(env, length, s).rest + x)
    {
      BodyLasts(env, length, s, x);
    }
    DecideChain(BodyReader(env, length), AfterHeadReader(env, head), AfterBodies(env, head), buf, pieces);
  }

  function AfterSkip(env: Env): (()) -> (Bytes -> Step<Head>) { _ => BareHeadReader(env) }

  lemma SkipGoesOn(env: Env, buf: Bytes, pieces: seq<Bytes>)
    requires SkipOf(buf).Ok?
    ensures Decide(HeadReader(env), buf, pieces) == Decide(BareHeadReader(env), SkipOf(buf).rest, pieces)
  {
    forall s, x | SkipOf(s).Ok?
      ensures SkipOf(s + x) == Ok((), SkipOf(s).rest + x)
    {
      SkipIsSettled(s, x);
    }
    DecideOnward(SkipReader(), HeadReader(env), AfterSkip(env), buf, pieces);
  }

  // ---------------------------------------------------------------- the reader

  /** Where a byte is first, or the length. */
  method Position(s: Bytes, b: Byte) returns (i: nat)
    ensures i == |UpTo(s, b)| <= |s|
  {
    i := 0;
    while i < |s| && s[i] != b
      invariant i <= |s| && |UpTo(s, b)| == i + |UpTo(s[i..], b)|
    {
      assert s[i..][1..] == s[i + 1..];
      i := i + 1;
    }
  }

  /** Whether an empty line begins at `from` or behind it. */
  method Search(s: Bytes, from: nat) returns (ended: bool)
    requires from <= |s|
    ensures ended <==> HeadEnd(s, from).Some?
  {
    var i := from;
    while i + 1 < |s|
      invariant from <= i <= |s| && HeadEnd(s, from) == HeadEnd(s, i)
    {
      if (s[i] == LF && s[i + 1] == LF) || (i + 2 < |s| && s[i] == LF && s[i + 1] == CR && s[i + 2] == LF) {
        return true;
      }
      i := i + 1;
    }
    assert i < |s| ==> EmptyLine(s, i) == 0 && HeadEnd(s, i + 1).None?;
    return false;
  }

  class Reader {
    const env: Env
    var buf: Bytes
    /** What the reads of the connection will give, up to its end: no read before that gives nothing. */
    var pieces: seq<Bytes>

    constructor (env: Env, buf: Bytes, pieces: seq<Bytes>)
      ensures this.env == env && this.buf == buf && this.pieces == pieces
    {
      this.env, this.buf, this.pieces := env, buf, pieces;
    }

    /** The buffer grows by these bytes, and the stream is left alone. */
    method Feed(bytes: Bytes)
      modifies this
      ensures buf == old(buf) + bytes && pieces == old(pieces)
    {
      buf := buf + bytes;
    }

    /** Read more; whether there was more. */
    method More() returns (more: bool)
      modifies this
      ensures more <==> old(pieces) != []
      ensures more ==> buf == old(buf + pieces[0]) && pieces == old(pieces[1..])
      ensures !more ==> buf == old(buf) && pieces == []
    {
      if pieces == [] {
        return false;
      }
      buf, pieces := buf + pieces[0], pieces[1..];
      return true;
    }

    /** Exactly `n` bytes. */
    method Exactly(n: nat) returns (got: Got<Bytes>)
      modifies this
      ensures !got.Waits? && Decide(ExactReader(n), old(buf), old(pieces)) == (Told(got, buf), pieces)
      ensures |pieces| <= |old(pieces)|
    {
      while |buf| < n
        invariant Decide(ExactReader(n), old(buf), old(pieces)) == Decide(ExactReader(n), buf, pieces)
        invariant |pieces| <= |old(pieces)|
        decreases |pieces|
      {
        var more := More();
        if !more {
          return Ended;
        }
      }
      got := Value(buf[..n]);
      buf := buf[n..];
    }

    /** What `LineReader` decides, reading on as far as it needs. */
    method Line(limit: nat, tooLong: nat) returns (got: Got<Bytes>)
      modifies this
      ensures !got.Waits? && Decide(LineReader(limit, tooLong), old(buf), old(pieces)) == (Told(got, buf), pieces)
      ensures |pieces| <= |old(pieces)|
    {
      while true
        invariant Decide(LineReader(limit, tooLong), old(buf), old(pieces)) == Decide(LineReader(limit, tooLong), buf, pieces)
        invariant |pieces| <= |old(pieces)|
        decreases |pieces|
      {
        var end := Position(buf, LF);
        if end < |buf| {
          if end > limit + 1 {
            return Turned(tooLong);
          }
          var line := buf[..end];
          NothingIsReadAhead(LineReader(limit, tooLong), buf, pieces);
          assert line != [] ==> line[..|line| - 1] == buf[..end - 1];
          buf := buf[end + 1..];
          if line == [] || line[|line| - 1] != CR || !Plain(line[..|line| - 1]) {
            return Turned(BAD);
          }
          return Value(line[..|line| - 1]);
        }
        if |buf| > limit + 1 {
          return Turned(tooLong);
        }
        var more := More();
        if !more {
          return Ended;
        }
      }
    }

    /** The trailers behind the last chunk, read and dropped. */
    method Trailers(body: Bytes) returns (got: Got<Bytes>)
      modifies this
      ensures !got.Waits? && Decide(TrailersReader(body, 0), old(buf), old(pieces)) == (Told(got, buf), pieces)
    {
      hide Decide, Flat, TrailersReader, LineReader;
      var trailers: nat := 0;
      while true
        invariant Decide(TrailersReader(body, 0), old(buf), old(pieces)) == Decide(TrailersReader(body, trailers), buf, pieces)
        decreases |buf| + |Flat(pieces)|
      {
        TrailersGoOn(body, trailers, buf, pieces);
        LineTakesBytes(HEAD_MAX, HEAD_TOO_LARGE, buf, pieces);
        var line := Line(HEAD_MAX, HEAD_TOO_LARGE);
        match line {
          case Value(line) =>
            TrailerStep(body, trailers, line, buf, pieces);
            if line == [] {
              return Value(body);
            }
            if trailers + |line| + 2 > HEAD_MAX {
              return Turned(HEAD_TOO_LARGE);
            }
            trailers := trailers + |line| + 2;
          case Ended => return Ended;
          case Turned(status) => return Turned(status);
        }
      }
    }

    /** The data of a chunk of `size` bytes and its line end; the body with it. */
    method ChunkData(body: Bytes, framing: nat, line: Bytes, size: nat) returns (got: Got<Bytes>)
      requires framing <= CHUNK_FRAMING_MAX && SizeOf(line) == Some(size) && 0 < size <= env.bodyMax - |body|
      modifies this
      ensures !got.Waits?
      ensures got.Value? ==> |got.value| == |body| + size && |buf| + |Flat(pieces)| < old(|buf| + |Flat(pieces)|)
      ensures Decide(AfterSizeReader(env, body, framing, line), old(buf), old(pieces)) ==
              if got.Value? then Decide(ChunkedReader(env, got.value, framing), buf, pieces) else (Told(got, buf), pieces)
    {
      SizeGoesOn(env, body, framing, line, buf, pieces);
      ExactTakesNoMore(size, buf, pieces);
      got := Exactly(size);
      if !got.Value? {
        return;
      }
      var longer := body + got.value;
      DataGoesOn(env, longer, framing, buf, pieces);
      LineTakesBytes(0, BAD, buf, pieces);
      got := Line(0, BAD);
      if got.Value? {
        got := if got.value != [] then Turned(BAD) else Value(longer);
      }
    }

    /** A body in chunks. */
    method Chunked() returns (got: Got<Bytes>)
      modifies this
      ensures !got.Waits? && Decide(ChunkedReader(env, [], 0), old(buf), old(pieces)) == (Told(got, buf), pieces)
    {
      hide SizeOf, Decide;
      var body: Bytes, framing: nat := [], 0;
      while true
        invariant |body| <= env.bodyMax
        invariant Decide(ChunkedReader(env, [], 0), old(buf), old(pieces)) == Decide(ChunkedReader(env, body, framing), buf, pieces)
        decreases |buf| + |Flat(pieces)|
      {
        ChunkedGoesOn(env, body, framing, buf, pieces);
        LineTakesBytes(CHUNK_LINE_MAX, BAD, buf, pieces);
        got := Line(CHUNK_LINE_MAX, BAD);
        if !got.Value? {
          return;
        }
        var line := got.value;
        framing := framing + |line| + 4;
        SizeStep(env, body, framing, line, buf, pieces);
        if framing > CHUNK_FRAMING_MAX || SizeOf(line).None? {
          return Turned(BAD);
        }
        var size := SizeOf(line).value;
        if size == 0 {
          got := Trailers(body);
          return;
        }
        // What the body may still grow by: never below nothing.
        var left: nat := env.bodyMax - |body|;
        if size > left {
          return Turned(BODY_TOO_LARGE);
        }
        got := ChunkData(body, framing, line, size);
        if !got.Value? {
          return;
        }
        body := got.value;
      }
    }

    /** What `HeadReader` decides. Each search for the end of the head starts two bytes before the last one stopped. */
    method Head() returns (got: Got<Head>)
      modifies this
      ensures !got.Waits? && Decide(HeadReader(env), old(buf), old(pieces)) == (Told(got, buf), pieces)
      ensures |pieces| <= |old(pieces)|
    {
      hide NoMethod, HeadOf, BareHeadOf, LoneEnd;
      var passedOver, searched: nat := false, 0;
      while true
        invariant forall k :: 0 <= k < searched - 2 ==> EmptyLine(buf, k) == 0
        invariant !passedOver && searched > 1 ==> |buf| > 1 && !StartsWithEmpty(buf)
        invariant Decide(HeadReader(env), old(buf), old(pieces)) == Decide(HeadSpec(env, passedOver), buf, pieces)
        invariant |pieces| <= |old(pieces)|
        decreases |pieces|, !passedOver
      {
        if StartsWithEmpty(buf) && !passedOver {
          SkipGoesOn(env, buf, pieces);
          buf := buf[2..];
          passedOver := true;
          continue;
        }
        HeadNow(env, passedOver, buf);
        if !(buf == [CR] && !passedOver) && NoMethod(buf) {
          return Turned(BAD);
        }
        var seen := if searched < |buf| then searched else |buf|;
        var from := if seen < 2 then 0 else seen - 2;
        SearchedBefore(buf, from);
        var ended := Search(buf, from);
        searched := |buf|;
        if ended {
          HeadEndIsFirst(buf, 0);
          var n := HeadEnd(buf, 0).value;
          match env.parse(buf[..n]) {
            case TooManyHeaders => return Turned(HEAD_TOO_LARGE);
            case Malformed => return Turned(BAD);
            case Complete(head) =>
              if n > HEAD_MAX {
                return Turned(HEAD_TOO_LARGE);
              }
              if exists i :: 0 <= i < n && LoneEnd(buf[..n], i) {
                return Turned(BAD);
              }
              buf := buf[n..];
              return Value(head);
          }
        }
        if |buf| >= HEAD_MAX {
          return Turned(HEAD_TOO_LARGE);
        }
        HeadEndIsFirst(buf, 0);
        ghost var before := buf;
        var more := More();
        if !more {
          return Ended;
        }
        SearchedStays(before, buf);
      }
    }

    /** The body, once its length is certain. */
    method Body(length: Length) returns (got: Got<Bytes>)
      modifies this
      ensures !got.Waits? && Decide(BodyReader(env, length), old(buf), old(pieces)) == (Told(got, buf), pieces)
    {
      match length {
        case NoBody =>
          got := Value([]);
        case Counted(n) =>
          DecideSame(BodyReader(env, length), ExactReader(n), buf, pieces);
          got := Exactly(n);
        case InChunks =>
          DecideSame(BodyReader(env, length), ChunkedReader(env, [], 0), buf, pieces);
          got := Chunked();
      }
    }

    /**
      The next request. With `neverWaits` it is given up where the client waits to be told to
      send the body, which then has not begun to come.
     */
    method Next(neverWaits: bool) returns (got: Got<Request>)
      modifies this
      ensures !got.Waits? ==> Decide(RequestReader(env), old(buf), old(pieces)) == (Told(got, buf), pieces)
      ensures got.Waits? ==> neverWaits && (old(pieces) == [] ==> RequestOf(env, old(buf)).End?)
    {
      hide HeadOf, AfterHeadOf, Checked, ExpectsOf, BodyOf, Decide;
      HeadGoesOn(env, buf, pieces);
      var head := Head();
      match head {
        case Ended => return Ended;
        case Turned(status) => return Turned(status);
        case Value(head) =>
          ghost var b, p := buf, pieces;
          if Checked(env, head).Bad? {
            HeadVerdict(env, head, b, p);
            return Turned(Checked(env, head).status);
          }
          var length := Checked(env, head).value;
          var waits := WaitsFor(env, head);
          BodyGoesOn(env, head, b, p);
          if length != NoBody && length != Counted(0) && waits && buf == [] && neverWaits {
            NothingBehind(env, head, old(buf), old(pieces));
            return Waits;
          }
          var body := Body(length);
          match body {
            case Ended => return Ended;
            case Turned(status) => return Turned(status);
            case Value(body) =>
              FinishStep(env, head, body, buf, pieces);
              return Value(RequestFrom(env, head, body));
          }
      }
    }

    /** What the buffer alone decides, and then as reading on would; the stream is left alone. */
    method Buffered() returns (got: Option<Got<Request>>)
      modifies this
      ensures pieces == old(pieces)
      ensures got.Some? <==> old(buf) != [] && |old(buf)| <= LOOKED_AT && !RequestOf(env, old(buf)).End?
      ensures got.Some? ==> Decide(RequestReader(env), old(buf), old(pieces)) == (Told(got.value, buf), pieces)
      ensures got.None? ==> buf == old(buf)
    {
      if buf == [] || |buf| > LOOKED_AT {
        return None;
      }
      var ahead := new Reader(env, buf, []);
      var next := ahead.Next(true);
      if next.Value? || next.Turned? {
        NothingIsReadAhead(RequestReader(env), buf, pieces);
        buf := ahead.buf;
        return Some(next);
      }
      return None;
    }

    /** All the requests of the connection, and how they end. */
    method ReadAll() returns (service: Service)
      modifies this
      ensures service == Served(env, old(buf), old(pieces))
    {
      hide Decide, Served, RequestOf;
      var requests: seq<Request> := [];
      assert [] + Served(env, buf, pieces).requests == Served(env, buf, pieces).requests;
      while true
        invariant Served(env, old(buf), old(pieces)) ==
                  Service(requests + Served(env, buf, pieces).requests, Served(env, buf, pieces).outcome)
        decreases |buf| + |Flat(pieces)|
      {
        OneRequestLess(env, buf, pieces);
        ServedStep(env, buf, pieces);
        var got := Next(false);
        match got {
          case Value(request) =>
            ghost var more := Served(env, buf, pieces).requests;
            assert requests + ([request] + more) == requests + [request] + more;
            requests := requests + [request];
          case Ended =>
            return Service(requests, Closed);
          case Turned(status) =>
            return Service(requests, Outcome.Denied(status));
        }
      }
    }
  }

  lemma ServedStep(env: Env, buf: Bytes, pieces: seq<Bytes>)
    ensures Served(env, buf, pieces) ==
            match Decide(RequestReader(env), buf, pieces)
            case (Ok(request, rest), left) =>
              Service([request] + Served(env, rest, left).requests, Served(env, rest, left).outcome)
            case (End, _) => Service([], Closed)
            case (Refused(status, _), _) => Service([], Outcome.Denied(status))
  {
    hide Decide, RequestOf;
  }

  predicate WaitsFor(env: Env, head: Head) {
    ExpectsOf(env, head) == Fine(true)
  }

  lemma HeadVerdict(env: Env, head: Head, buf: Bytes, pieces: seq<Bytes>)
    requires Checked(env, head).Bad?
    ensures Decide(AfterHeadReader(env, head), buf, pieces) == (Refused(Checked(env, head).status, buf), pieces)
  {
  }

  lemma FinishStep(env: Env, head: Head, body: Bytes, buf: Bytes, pieces: seq<Bytes>)
    ensures Decide(Finish(env, head, body), buf, pieces) == (Ok(RequestFrom(env, head, body), buf), pieces)
  {
  }

  /** A body that has not begun has not come. */
  lemma NothingBehind(env: Env, head: Head, buf: Bytes, pieces: seq<Bytes>)
    requires Checked(env, head).Fine? && Checked(env, head).value !in {NoBody, Counted(0)}
    requires Decide(HeadReader(env), buf, pieces).0 == Ok(head, [])
    ensures pieces == [] ==> RequestOf(env, buf).End?
  {
    if pieces == [] {
      assert HeadReader(env)(buf) == Ok(head, []);
      assert LineOf(CHUNK_LINE_MAX, BAD, []).End?;
    }
  }

  predicate StartsWithEmpty(s: Bytes) {
    |s| > 1 && s[0] == CR && s[1] == LF
  }

  /** What is read when an empty line was passed over, or still may be. */
  function HeadSpec(env: Env, passedOver: bool): Bytes -> Step<Head> {
    if passedOver then BareHeadReader(env) else HeadReader(env)
  }

  lemma HeadNow(env: Env, passedOver: bool, s: Bytes)
    requires !passedOver ==> !StartsWithEmpty(s)
    ensures HeadSpec(env, passedOver)(s) ==
            if s == [CR] && !passedOver then End
            else if NoMethod(s) then Refused(BAD, s)
            else
              match HeadEnd(s, 0)
              case Some(n) => (HeadEndIsFirst(s, 0); WholeHead(env, s, n))
              case None => if |s| >= HEAD_MAX then Refused(HEAD_TOO_LARGE, s) else End
  {
    if s == [] {
      assert BareHeadOf(env, s) == End;
    }
  }

  lemma SearchedStays(s: Bytes, longer: Bytes)
    requires s <= longer && forall k :: 0 <= k < |s| ==> EmptyLine(s, k) == 0
    ensures forall k :: 0 <= k < |s| - 2 ==> EmptyLine(longer, k) == 0
  {
    forall k | 0 <= k < |s| - 2
      ensures EmptyLine(longer, k) == 0
    {
      assert EmptyLine(s, k) == 0;
    }
  }

  /** Where nothing ends before `from`, a search from there finds what a search from the start finds. */
  lemma {:induction false} SearchedBefore(s: Bytes, from: nat)
    requires from <= |s| && forall k :: 0 <= k < from ==> EmptyLine(s, k) == 0
    ensures HeadEnd(s, from) == HeadEnd(s, 0)
  {
    if from > 0 {
      SearchedBefore(s, from - 1);
    }
  }

  lemma LineTakesBytes(limit: nat, tooLong: nat, buf: Bytes, pieces: seq<Bytes>)
    ensures var (step, left) := Decide(LineReader(limit, tooLong), buf, pieces);
            step.Ok? ==> |step.rest| + |Flat(left)| < |buf| + |Flat(pieces)| && |step.value| <= limit
  {
    LineSettles(limit, tooLong);
    DecideValue(LineReader(limit, tooLong), buf, pieces);
    if Decide(LineReader(limit, tooLong), buf, pieces).0.Ok? {
      LineIs(limit, tooLong, buf + Flat(pieces));
    }
  }

  lemma ExactTakesNoMore(n: nat, buf: Bytes, pieces: seq<Bytes>)
    ensures var (step, left) := Decide(ExactReader(n), buf, pieces);
            step.Ok? ==> |step.rest| + |Flat(left)| + n == |buf| + |Flat(pieces)| && |step.value| == n
  {
    ExactSettles(n);
    DecideValue(ExactReader(n), buf, pieces);
    var (step, left) := Decide(ExactReader(n), buf, pieces);
    var whole := buf + Flat(pieces);
    if step.Ok? {
      assert ExactReader(n)(whole) == ExactlyOf(n, whole);
      assert step.rest + Flat(left) == whole[n..];
      assert |step.rest + Flat(left)| == |whole| - n;
    }
  }
}
