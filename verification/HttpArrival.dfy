/**
  The requests of a whole connection, read piece by piece: they, and how they end, are those
  of all the bytes together, however the bytes are cut.
 */
module HttpArrival {
  import opened Reading
  import opened HttpHead
  import opened HttpChunks
  import opened HttpRequest

  /** How the requests of a connection end: the peer closed it, or one was refused. */
  datatype Outcome = Closed | Denied(status: nat)

  datatype Service = Service(requests: seq<Request>, outcome: Outcome)

  /** The requests of bytes that are all there. */
  function Whole(env: Env, s: Bytes): Service
    decreases |s|
  {
    match RequestOf(env, s)
    case Ok(request, rest) =>
      RequestTakesBytes(env, s);
      var more := Whole(env, rest);
      Service([request] + more.requests, more.outcome)
    case End => Service([], Closed)
    case Refused(status, _) => Service([], Denied(status))
  }

  /** The requests that a reader gives, one after the other, that reads on exactly as far as each needs. */
  function Served(env: Env, buf: Bytes, pieces: seq<Bytes>): Service
    decreases |buf| + |Flat(pieces)|
  {
    match Decide(RequestReader(env), buf, pieces)
    case (Ok(request, rest), left) =>
      OneRequestLess(env, buf, pieces);
      var more := Served(env, rest, left);
      Service([request] + more.requests, more.outcome)
    case (End, _) => Service([], Closed)
    case (Refused(status, _), _) => Service([], Denied(status))
  }

  lemma OneRequestLess(env: Env, buf: Bytes, pieces: seq<Bytes>)
    ensures var (step, left) := Decide(RequestReader(env), buf, pieces);
            && (step.Ok? ==> RequestOf(env, buf + Flat(pieces)) == Ok(step.value, step.rest + Flat(left)))
            && (step.Ok? ==> |step.rest| + |Flat(left)| < |buf| + |Flat(pieces)|)
            && (step.End? ==> RequestOf(env, buf + Flat(pieces)).End?)
            && (step.Refused? ==> RequestOf(env, buf + Flat(pieces)).Refused?)
  {
    RequestIsSettled(env);
    RequestStaysRefused(env);
    DecideValue(RequestReader(env), buf, pieces);
    DecideRefusal(RequestReader(env), buf, pieces);
    if Decide(RequestReader(env), buf, pieces).0.Ok? {
      RequestTakesBytes(env, buf + Flat(pieces));
    }
  }

  /** The requests, in order, and the kind of their end are those of all the bytes together. */
  lemma {:induction false} ArrivalDoesNotMatter(env: Env, buf: Bytes, pieces: seq<Bytes>)
    ensures Served(env, buf, pieces).requests == Whole(env, buf + Flat(pieces)).requests
    ensures Served(env, buf, pieces).outcome.Closed? <==> Whole(env, buf + Flat(pieces)).outcome.Closed?
    decreases |buf| + |Flat(pieces)|
  {
    OneRequestLess(env, buf, pieces);
    var (step, left) := Decide(RequestReader(env), buf, pieces);
    if step.Ok? {
      ArrivalDoesNotMatter(env, step.rest, left);
    }
  }

  // ---------------------------------------------------------------- the status

  /** A head beyond the limit that the parser calls malformed, behind a method. */
  predicate LongAndMalformed(env: Env, s: Bytes) {
    && SkipOf(s).Ok?
    && var bare := SkipOf(s).rest;
    && !NoMethod(bare) && HeadEnd(bare, 0).Some?
    && HeadEnd(bare, 0).value > HEAD_MAX
    && HeadEnd(bare, 0).value <= |bare|
    && env.parse(bare[..HeadEnd(bare, 0).value]) == Malformed
  }

  function EvenParse(parse: Bytes -> Parsed): Bytes -> Parsed {
    (h: Bytes) => if |h| > HEAD_MAX && parse(h) == Malformed then TooManyHeaders else parse(h)
  }

  /** The same, with a parser that leaves long heads to the limit. */
  function Evened(env: Env): Env {
    env.(parse := EvenParse(env.parse))
  }

  lemma EvenedIsEven(env: Env)
    ensures Even(Evened(env))
  {
  }

  lemma ChunkedEvened(env: Env, body: Bytes, framing: nat, s: Bytes)
    ensures ChunkedOf(Evened(env), body, framing, s) == ChunkedOf(env, body, framing, s)
    decreases |s|, 2
  {
    var step := LineOf(CHUNK_LINE_MAX, BAD, s);
    if step.Ok? {
      LineIs(CHUNK_LINE_MAX, BAD, s);
      AfterSizeEvened(env, body, framing + |step.value| + 4, step.value, step.rest);
    }
  }

  lemma AfterSizeEvened(env: Env, body: Bytes, framing: nat, line: Bytes, s: Bytes)
    ensures AfterSizeOf(Evened(env), body, framing, line, s) == AfterSizeOf(env, body, framing, line, s)
    decreases |s|, 3
  {
    if framing <= CHUNK_FRAMING_MAX && SizeOf(line).Some? && 0 < SizeOf(line).value <= |s| {
      var size := SizeOf(line).value;
      if size <= env.bodyMax - |body| {
        AfterDataEvened(env, body + s[..size], framing, s[size..]);
      }
    }
  }

  lemma AfterDataEvened(env: Env, body: Bytes, framing: nat, s: Bytes)
    ensures AfterDataOf(Evened(env), body, framing, s) == AfterDataOf(env, body, framing, s)
    decreases |s|, 3
  {
    var step := LineOf(0, BAD, s);
    if step.Ok? {
      LineIs(0, BAD, s);
      ChunkedEvened(env, body, framing, step.rest);
    }
  }

  lemma AfterHeadEvened(env: Env, head: Head, s: Bytes)
    ensures AfterHeadOf(Evened(env), head, s) == AfterHeadOf(env, head, s)
  {
    assert Checked(Evened(env), head) == Checked(env, head);
    if Checked(env, head).Fine? {
      BodyEvened(env, Checked(env, head).value, s);
      assert forall body :: RequestFrom(Evened(env), head, body) == RequestFrom(env, head, body);
    }
  }

  lemma BodyEvened(env: Env, length: Length, s: Bytes)
    ensures BodyOf(Evened(env), length, s) == BodyOf(env, length, s)
  {
    ChunkedEvened(env, [], 0, s);
  }

  lemma RequestEvened(env: Env, s: Bytes)
    requires !LongAndMalformed(env, s)
    ensures RequestOf(Evened(env), s) == RequestOf(env, s)
  {
    if SkipOf(s).Ok? {
      var bare := SkipOf(s).rest;
      HeadEndIsFirst(bare, 0);
      assert BareHeadOf(Evened(env), bare) == BareHeadOf(env, bare);
    }
    if HeadOf(env, s).Ok? {
      AfterHeadEvened(env, HeadOf(env, s).value, HeadOf(env, s).rest);
    }
  }

  /** A long malformed head stays one. */
  lemma LongAndMalformedStays(env: Env, s: Bytes, x: Bytes)
    requires LongAndMalformed(env, s)
    ensures LongAndMalformed(env, s + x)
  {
    SkipIsSettled(s, x);
    var bare := SkipOf(s).rest;
    MethodStays(bare, x);
    HeadEndStays(bare, x, 0);
    assert (bare + x)[..HeadEnd(bare, 0).value] == bare[..HeadEnd(bare, 0).value];
  }

  /** Where no such head comes, everything a reading comes to is that of the bytes together. */
  lemma OneArrival(env: Env, buf: Bytes, pieces: seq<Bytes>)
    requires !LongAndMalformed(env, buf + Flat(pieces))
    ensures var (step, left) := Decide(RequestReader(env), buf, pieces);
            RequestOf(env, buf + Flat(pieces)) ==
              match step
              case Ok(v, rest) => Ok(v, rest + Flat(left))
              case End => End
              case Refused(status, rest) => Refused(status, rest + Flat(left))
  {
    var even := Evened(env);
    EvenedIsEven(env);
    RequestIsSettled(even);
    RequestStaysRefused(even);
    DecideWhole(RequestReader(even), buf, pieces);
    forall b, x | b + x == buf + Flat(pieces)
      ensures RequestReader(env)(b) == RequestReader(even)(b)
    {
      if LongAndMalformed(env, b) {
        LongAndMalformedStays(env, b, x);
      }
      RequestEvened(env, b);
    }
    DecideSame(RequestReader(env), RequestReader(even), buf, pieces);
    RequestEvened(env, buf + Flat(pieces));
  }

  /** No head of the connection is beyond the limit and malformed. */
  predicate HeadsAreShort(env: Env, s: Bytes)
    decreases |s|
  {
    !LongAndMalformed(env, s) &&
    match RequestOf(env, s)
    case Ok(_, rest) =>
      RequestTakesBytes(env, s);
      HeadsAreShort(env, rest)
    case _ => true
  }

  /** Then the status of a refusal does not depend on how the bytes are cut either. */
  lemma {:induction false} ArrivalDoesNotMatterAtAll(env: Env, buf: Bytes, pieces: seq<Bytes>)
    requires HeadsAreShort(env, buf + Flat(pieces))
    ensures Served(env, buf, pieces) == Whole(env, buf + Flat(pieces))
    decreases |buf| + |Flat(pieces)|
  {
    OneRequestLess(env, buf, pieces);
    OneArrival(env, buf, pieces);
    var (step, left) := Decide(RequestReader(env), buf, pieces);
    if step.Ok? {
      ArrivalDoesNotMatterAtAll(env, step.rest, left);
    }
  }

  function Status(env: Env, pieces: seq<Bytes>): Step<Request> {
    Decide(RequestReader(env), [], pieces).0
  }

  /**
    The status with which bytes are refused is the same for every way of cutting them exactly
    if they do not begin with a head that is both beyond the limit and malformed: cut at the
    limit, that one is refused for its length.
   */
  lemma StatusDependsOnTheCut(env: Env, s: Bytes)
    requires RequestOf(env, s).Refused?
    ensures (forall pieces :: Flat(pieces) == s ==> Status(env, pieces).Refused? && Status(env, pieces).status == RequestOf(env, s).status)
            <==> !LongAndMalformed(env, s)
  {
    if LongAndMalformed(env, s) {
      var pieces := CutAtTheLimit(env, s);
      assert Flat(pieces) == s;
    } else {
      forall pieces | Flat(pieces) == s
        ensures Status(env, pieces).Refused? && Status(env, pieces).status == RequestOf(env, s).status
      {
        assert [] + Flat(pieces) == s;
        OneArrival(env, [], pieces);
      }
    }
  }

  lemma CutAtTheLimit(env: Env, s: Bytes) returns (pieces: seq<Bytes>)
    requires LongAndMalformed(env, s)
    ensures Flat(pieces) == s
    ensures Status(env, pieces).Refused? && Status(env, pieces).status == HEAD_TOO_LARGE != RequestOf(env, s).status
  {
    hide AfterHeadOf, NoMethod;
    var bare := SkipOf(s).rest;
    var skipped := |s| - |bare|;
    var first, more := s[..skipped + HEAD_MAX], s[skipped + HEAD_MAX..];
    pieces := [first, more];
    ShortOfTheEnd(env, bare, HEAD_MAX);
    assert SkipOf(first) == Ok((), bare[..HEAD_MAX]);
    assert RequestOf(env, first) == Refused(HEAD_TOO_LARGE, bare[..HEAD_MAX]);
    FirstPieceDecides(RequestReader(env), first, more);
    assert first + more == s;
  }

  /** Before its end has come, a long head is refused for its length. */
  lemma ShortOfTheEnd(env: Env, bare: Bytes, n: nat)
    requires !NoMethod(bare) && HeadEnd(bare, 0).Some? && HeadEnd(bare, 0).value > n >= HEAD_MAX && n <= |bare|
    ensures BareHeadOf(env, bare[..n]) == Refused(HEAD_TOO_LARGE, bare[..n])
  {
    var s, x := bare[..n], bare[n..];
    assert s + x == bare;
    if HeadEnd(s, 0).Some? {
      HeadEndStays(s, x, 0);
      HeadEndIsFirst(s, 0);
    }
    if NoMethod(s) {
      NoMethodStays(s, x);
    }
  }
}
