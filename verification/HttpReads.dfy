/**
  The reader's own reads, which bring at most so many bytes at a time: with which status a head is
  refused that is both beyond the limit and malformed.
 */
module HttpReads {
  import opened Basics
  import opened Reading
  import opened HttpHead
  import opened HttpChunks
  import opened HttpRequest
  import opened HttpArrival

  /** The bytes of one read. */
  const READ_MAX: nat := 8192

  /** What reads of the stream give. */
  ghost predicate Reads(pieces: seq<Bytes>) {
    forall i :: 0 <= i < |pieces| ==> 0 < |pieces[i]| <= READ_MAX
  }

  /** Where the head ends, with the empty line in front of it that is passed over. */
  function EndAt(s: Bytes): nat
    requires SkipOf(s).Ok? && HeadEnd(SkipOf(s).rest, 0).Some?
  {
    |s| - |SkipOf(s).rest| + HeadEnd(SkipOf(s).rest, 0).value
  }

  /** The bytes in front of the head. */
  function Before(s: Bytes): nat
    requires SkipOf(s).Ok?
  {
    |s| - |SkipOf(s).rest|
  }

  lemma SkipOfPrefix(s: Bytes, n: nat)
    requires SkipOf(s).Ok? && n <= |s|
    ensures SkipOf(s[..n]).Ok? <==> n >= 1 && (s[0] == CR ==> n >= 2)
    ensures SkipOf(s[..n]).Ok? ==> n >= Before(s) && SkipOf(s[..n]).rest == SkipOf(s).rest[..n - Before(s)]
    ensures !SkipOf(s[..n]).Ok? ==> SkipOf(s[..n]).End? && n <= 1
  {
    if n >= 1 && (s[0] == CR ==> n >= 2) {
      assert s[..n][0] == s[0];
      if s[0] == CR && s[1] == LF {
        assert s[..n][2..] == s[2..][..n - 2];
      }
    }
  }

  /** Before the end of the head has come, such a head is undecided or refused for its length. */
  lemma BeforeTheEnd(env: Env, s: Bytes, n: nat)
    requires LongAndMalformed(env, s) && n < EndAt(s) && n <= |s|
    ensures var step := RequestOf(env, s[..n]);
            if n < Before(s) + HEAD_MAX then step.End? else step.Refused? && step.status == HEAD_TOO_LARGE
  {
    SkipOfPrefix(s, n);
    if SkipOf(s[..n]).Ok? {
      ShortHead(env, SkipOf(s).rest, n - Before(s));
    }
  }

  lemma ShortHead(env: Env, bare: Bytes, n: nat)
    requires !NoMethod(bare) && HeadEnd(bare, 0).Some? && n < HeadEnd(bare, 0).value <= |bare|
    ensures BareHeadOf(env, bare[..n]) == if n < HEAD_MAX then End else Refused(HEAD_TOO_LARGE, bare[..n])
  {
    var s, x := bare[..n], bare[n..];
    assert s + x == bare;
    if HeadEnd(s, 0).Some? {
      HeadEndStays(s, x, 0);
      HeadEndIsFirst(s, 0);
    }
    if NoMethod(s) {
      NoMethodStays(s, x);
    }
  }

  lemma BufferBefore(env: Env, s: Bytes, buf: Bytes)
    requires LongAndMalformed(env, s) && buf <= s && |buf| < EndAt(s)
    ensures var step := RequestReader(env)(buf);
            if |buf| < Before(s) + HEAD_MAX then step.End? else step.Refused? && step.status == HEAD_TOO_LARGE
  {
    BeforeTheEnd(env, s, |buf|);
    assert s[..|buf|] == buf;
  }

  /** Reads come to bytes short of the end of so long a head when they decide. */
  lemma {:induction false} LongHeadIsTooLarge(env: Env, s: Bytes, buf: Bytes, pieces: seq<Bytes>)
    requires LongAndMalformed(env, s) && EndAt(s) - Before(s) >= HEAD_MAX + READ_MAX
    requires |buf| < EndAt(s) && Reads(pieces) && buf + Flat(pieces) == s
    ensures var step := Decide(RequestReader(env), buf, pieces).0; step.Refused? && step.status == HEAD_TOO_LARGE
    decreases |pieces|
  {
    LongFacts(env, s);
    BufferBefore(env, s, buf);
    hide LongAndMalformed, HeadEnd, SkipOf, RequestReader, Before, EndAt;
    if |buf| < Before(s) + HEAD_MAX {
      assert pieces != [];
      assert buf + pieces[0] + Flat(pieces[1..]) == s;
      LongHeadIsTooLarge(env, s, buf + pieces[0], pieces[1..]);
    }
  }

  /** A cut in reads: of the first bytes, and of the rest. */
  lemma {:induction false} CutIn(s: Bytes) returns (pieces: seq<Bytes>)
    ensures Reads(pieces) && Flat(pieces) == s
    decreases |s|
  {
    if |s| <= READ_MAX {
      pieces := if s == [] then [] else [s];
      assert Flat([s]) == s + Flat([]);
    } else {
      var more := CutIn(s[READ_MAX..]);
      pieces := [s[..READ_MAX]] + more;
      assert pieces[1..] == more;
      assert s[..READ_MAX] + s[READ_MAX..] == s;
    }
  }

  /** Reads with a cut at `n` and at `n + k`. */
  lemma CutAt(s: Bytes, n: nat, k: nat) returns (first: seq<Bytes>, last: seq<Bytes>)
    requires 0 < k <= READ_MAX && n + k <= |s|
    ensures Flat(first) == s[..n] && Reads(first + ([s[n..n + k]] + last)) && Flat(first + ([s[n..n + k]] + last)) == s
  {
    first := CutIn(s[..n]);
    last := CutIn(s[n + k..]);
    var more := [s[n..n + k]] + last;
    FlatAppend(first, more);
    assert more[1..] == last;
    assert s[..n] + (s[n..n + k] + s[n + k..]) == s;
  }

  lemma LongFacts(env: Env, s: Bytes)
    requires LongAndMalformed(env, s)
    ensures SkipOf(s).Ok? && HeadEnd(SkipOf(s).rest, 0).Some? && Before(s) + HEAD_MAX < EndAt(s) <= |s|
  {
    HeadEndIsFirst(SkipOf(s).rest, 0);
  }

  /** Reads short of the limit do not decide. */
  lemma UndecidedBefore(env: Env, s: Bytes, first: seq<Bytes>, m: nat)
    requires LongAndMalformed(env, s) && SkipOf(s).Ok? && |Flat(first)| < Before(s) + HEAD_MAX && Flat(first) <= s && m <= |first|
    ensures RequestReader(env)([] + Flat(first[..m])).End?
  {
    LongFacts(env, s);
    hide LongAndMalformed, SkipOf, HeadEnd, RequestReader, Before, EndAt;
    FlatAppend(first[..m], first[m..]);
    assert first[..m] + first[m..] == first;
    var b := Flat(first[..m]);
    assert [] + b == b;
    BufferBefore(env, s, b);
  }

  /** These bytes are refused with this status by some reads of them. */
  ghost predicate RefusedWith(env: Env, s: Bytes, status: nat) {
    exists pieces :: Reads(pieces) && Flat(pieces) == s && Status(env, pieces).Refused? && Status(env, pieces).status == status
  }

  /** One more read brings `k` bytes at once, behind all but the last byte of the limit. */
  lemma CutBehind(env: Env, s: Bytes, n: nat, k: nat)
    requires LongAndMalformed(env, s) && 0 < k <= READ_MAX && n == Before(s) + HEAD_MAX - 1 && n + k <= |s|
    requires RequestReader(env)(s[..n + k]).Refused?
    ensures RefusedWith(env, s, RequestReader(env)(s[..n + k]).status)
  {
    LongFacts(env, s);
    hide LongAndMalformed, HeadEnd, Reads, SkipOf, RequestReader, Before, EndAt;
    var first, last := CutAt(s, n, k);
    forall m | 0 <= m <= |first|
      ensures RequestReader(env)([] + Flat(first[..m])).End?
    {
      UndecidedBefore(env, s, first, m);
    }
    assert Flat(first) + s[n..n + k] == s[..n + k];
    DecideBehind(RequestReader(env), first, s[n..n + k], last);
    assert Status(env, first + ([s[n..n + k]] + last)) == RequestReader(env)(s[..n + k]);
  }

  /** By all reads of them. */
  ghost predicate AlwaysRefusedWith(env: Env, s: Bytes, status: nat) {
    forall pieces :: Reads(pieces) && Flat(pieces) == s ==> Status(env, pieces).Refused? && Status(env, pieces).status == status
  }

  /**
    By the reader's own reads a head that is beyond the limit and malformed is refused for its
    length, however they are cut, if it is longer by a read than the limit; a shorter one is
    refused with the one status or the other, depending on the cut. Other refusals have one status.
   */
  lemma StatusOfReads(env: Env, s: Bytes)
    requires RequestOf(env, s).Refused?
    ensures if !LongAndMalformed(env, s) then AlwaysRefusedWith(env, s, RequestOf(env, s).status)
            else if EndAt(s) - Before(s) >= HEAD_MAX + READ_MAX then AlwaysRefusedWith(env, s, HEAD_TOO_LARGE)
            else RefusedWith(env, s, HEAD_TOO_LARGE) && RefusedWith(env, s, BAD)
  {
    if !LongAndMalformed(env, s) {
      StatusDependsOnTheCut(env, s);
    } else {
      LongFacts(env, s);
      if EndAt(s) - Before(s) >= HEAD_MAX + READ_MAX {
        forall pieces | Reads(pieces) && Flat(pieces) == s
          ensures Status(env, pieces).Refused? && Status(env, pieces).status == HEAD_TOO_LARGE
        {
          assert [] + Flat(pieces) == s;
          LongHeadIsTooLarge(env, s, [], pieces);
        }
      } else {
        TwoStatuses(env, s);
      }
    }
  }

  lemma TwoStatuses(env: Env, s: Bytes)
    requires LongAndMalformed(env, s) && EndAt(s) - Before(s) < HEAD_MAX + READ_MAX
    ensures RefusedWith(env, s, HEAD_TOO_LARGE) && RefusedWith(env, s, BAD)
  {
    LongFacts(env, s);
    hide LongAndMalformed, HeadEnd, SkipOf, RefusedWith;
    var n, end := Before(s) + HEAD_MAX - 1, EndAt(s);
    hide Before, EndAt;
    BufferBefore(env, s, s[..n + 1]);
    MalformedAtOnce(env, s);
    hide RequestReader;
    CutBehind(env, s, n, 1);
    CutBehind(env, s, n, end - n);
  }

  /** With its end the head is refused as malformed. */
  lemma MalformedAtOnce(env: Env, s: Bytes)
    requires LongAndMalformed(env, s)
    ensures EndAt(s) <= |s| && RequestReader(env)(s[..EndAt(s)]).Refused? && RequestReader(env)(s[..EndAt(s)]).status == BAD
  {
    LongFacts(env, s);
    var n, bare := EndAt(s), SkipOf(s).rest;
    SkipOfPrefix(s, n);
    MalformedHead(env, bare, HeadEnd(bare, 0).value);
    hide BareHeadOf, HeadEnd, NoMethod;
  }

  lemma MalformedHead(env: Env, bare: Bytes, h: nat)
    requires !NoMethod(bare) && HeadEnd(bare, 0) == Some(h) && HEAD_MAX < h <= |bare| && env.parse(bare[..h]) == Malformed
    ensures BareHeadOf(env, bare[..h]) == Refused(BAD, bare[..h])
  {
    EndOfPrefix(bare, h);
    assert bare[..h][..h] == bare[..h];
    hide HeadEnd, NoMethod;
  }

  /** The head up to its end has the same end and the same method. */
  lemma EndOfPrefix(bare: Bytes, h: nat)
    requires !NoMethod(bare) && HeadEnd(bare, 0) == Some(h) && HEAD_MAX < h <= |bare|
    ensures !NoMethod(bare[..h]) && HeadEnd(bare[..h], 0) == Some(h)
  {
    var s, x := bare[..h], bare[h..];
    assert s + x == bare;
    if NoMethod(s) {
      NoMethodStays(s, x);
    }
    if HeadEnd(s, 0).None? {
      HeadEndBehind(s, x);
    } else {
      HeadEndStays(s, x, 0);
    }
  }
}
