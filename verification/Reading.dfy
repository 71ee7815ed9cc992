/**
  Reading from a buffer that is fed by reads of any length: what a reader does that reads on
  exactly as long as the bytes it has do not decide.
 */
module Reading {

  type Byte = b: nat | b < 256
  type Bytes = seq<Byte>

  /** What bytes that have come give: a value and the bytes behind it, nothing yet, or a refusal. */
  datatype Step<T> =
    | Ok(value: T, rest: Bytes)
    | End
    | Refused(status: nat, rest: Bytes)

  function Flat(pieces: seq<Bytes>): Bytes {
    if pieces == [] then [] else pieces[0] + Flat(pieces[1..])
  }

  /** Read on while what has come does not decide and there is more; what it came to, and the pieces left. */
  function Decide<T>(spec: Bytes -> Step<T>, buf: Bytes, pieces: seq<Bytes>): (Step<T>, seq<Bytes>)
    decreases |pieces|
  {
    if !spec(buf).End? || pieces == [] then (spec(buf), pieces)
    else Decide(spec, buf + pieces[0], pieces[1..])
  }

  /** Bytes that come later do not change a value that was read. */
  ghost predicate Settled<T(!new)>(spec: Bytes -> Step<T>) {
    forall b, x :: spec(b).Ok? ==> spec(b + x) == Ok(spec(b).value, spec(b).rest + x)
  }

  /** Nor a refusal. */
  ghost predicate Final<T(!new)>(spec: Bytes -> Step<T>) {
    forall b, x :: spec(b).Refused? ==> spec(b + x) == Refused(spec(b).status, spec(b).rest + x)
  }

  /** How a reading goes on with what was read before it. */
  function Chain<A, B>(s: Step<A>, k: A -> (Bytes -> Step<B>)): Step<B> {
    match s
    case Ok(v, rest) => k(v)(rest)
    case End => End
    case Refused(status, rest) => Refused(status, rest)
  }

  /** A reading that goes on, with the pieces the first one left. */
  function Onward<A, B>(first: (Step<A>, seq<Bytes>), k: A -> (Bytes -> Step<B>)): (Step<B>, seq<Bytes>) {
    match first.0
    case Ok(v, rest) => Decide(k(v), rest, first.1)
    case End => (End, first.1)
    case Refused(status, rest) => (Refused(status, rest), first.1)
  }

  lemma {:induction false} DecideOnward<A(!new), B>(
    f: Bytes -> Step<A>, h: Bytes -> Step<B>, k: A -> (Bytes -> Step<B>), buf: Bytes, pieces: seq<Bytes>)
    requires Settled(f) && forall b :: h(b) == Chain(f(b), k)
    requires f(buf).Ok?
    ensures Decide(h, buf, pieces) == Decide(k(f(buf).value), f(buf).rest, pieces)
    decreases |pieces|
  {
    if h(buf).End? && pieces != [] {
      assert f(buf + pieces[0]) == Ok(f(buf).value, f(buf).rest + pieces[0]);
      DecideOnward(f, h, k, buf + pieces[0], pieces[1..]);
    }
  }

  /** Two readings one after the other, each reading on as far as it needs, are one reading of both. */
  lemma {:induction false} DecideChain<A(!new), B>(
    f: Bytes -> Step<A>, h: Bytes -> Step<B>, k: A -> (Bytes -> Step<B>), buf: Bytes, pieces: seq<Bytes>)
    requires Settled(f) && forall b :: h(b) == Chain(f(b), k)
    ensures Decide(h, buf, pieces) == Onward(Decide(f, buf, pieces), k)
    decreases |pieces|
  {
    if f(buf).Ok? {
      DecideOnward(f, h, k, buf, pieces);
    } else if f(buf).End? && pieces != [] {
      DecideChain(f, h, k, buf + pieces[0], pieces[1..]);
    }
  }

  /**
    A reading whose values and refusals last does not depend on how the bytes arrive: it
    comes to what all the bytes together come to, and the bytes behind it are the same.
   */
  lemma {:induction false} DecideWhole<T(!new)>(spec: Bytes -> Step<T>, buf: Bytes, pieces: seq<Bytes>)
    requires Settled(spec) && Final(spec)
    ensures var (step, left) := Decide(spec, buf, pieces);
            spec(buf + Flat(pieces)) ==
              match step
              case Ok(v, rest) => Ok(v, rest + Flat(left))
              case End => End
              case Refused(status, rest) => Refused(status, rest + Flat(left))
    decreases |pieces|
  {
    if spec(buf).End? && pieces != [] {
      assert buf + Flat(pieces) == (buf + pieces[0]) + Flat(pieces[1..]);
      DecideWhole(spec, buf + pieces[0], pieces[1..]);
    } else if pieces == [] {
      assert buf + Flat(pieces) == buf;
      if !spec(buf).End? {
        assert spec(buf).rest + Flat(pieces) == spec(buf).rest;
      }
    }
  }

  /** The same for a value alone, where refusals may depend on what has come. */
  lemma {:induction false} DecideValue<T(!new)>(spec: Bytes -> Step<T>, buf: Bytes, pieces: seq<Bytes>)
    requires Settled(spec)
    ensures var (step, left) := Decide(spec, buf, pieces);
            && (step.Ok? ==> spec(buf + Flat(pieces)) == Ok(step.value, step.rest + Flat(left)))
            && (step.End? ==> left == [] && spec(buf + Flat(pieces)).End?)
    decreases |pieces|
  {
    if spec(buf).End? && pieces != [] {
      assert buf + Flat(pieces) == (buf + pieces[0]) + Flat(pieces[1..]);
      DecideValue(spec, buf + pieces[0], pieces[1..]);
    } else if pieces == [] {
      assert buf + Flat(pieces) == buf;
      if spec(buf).Ok? {
        assert spec(buf).rest + Flat(pieces) == spec(buf).rest;
      }
    }
  }

  /** A refusal stays one, if perhaps with another status. */
  ghost predicate StaysRefused<T(!new)>(spec: Bytes -> Step<T>) {
    forall b, x :: spec(b).Refused? ==> spec(b + x).Refused?
  }

  /** Then it does not depend on how the bytes arrive whether they are refused. */
  lemma {:induction false} DecideRefusal<T(!new)>(spec: Bytes -> Step<T>, buf: Bytes, pieces: seq<Bytes>)
    requires StaysRefused(spec)
    ensures Decide(spec, buf, pieces).0.Refused? ==> spec(buf + Flat(pieces)).Refused?
    decreases |pieces|
  {
    if spec(buf).End? && pieces != [] {
      assert buf + Flat(pieces) == (buf + pieces[0]) + Flat(pieces[1..]);
      DecideRefusal(spec, buf + pieces[0], pieces[1..]);
    }
  }

  /** Two readings that agree on all that may have come at some time come to the same. */
  lemma {:induction false} DecideSame<T>(f: Bytes -> Step<T>, g: Bytes -> Step<T>, buf: Bytes, pieces: seq<Bytes>)
    requires forall b, x :: b + x == buf + Flat(pieces) ==> f(b) == g(b)
    ensures Decide(f, buf, pieces) == Decide(g, buf, pieces)
    decreases |pieces|
  {
    assert f(buf) == g(buf);
    if pieces != [] {
      assert buf + Flat(pieces) == (buf + pieces[0]) + Flat(pieces[1..]);
      DecideSame(f, g, buf + pieces[0], pieces[1..]);
    }
  }

  lemma NothingIsReadAhead<T>(spec: Bytes -> Step<T>, buf: Bytes, pieces: seq<Bytes>)
    requires !spec(buf).End?
    ensures Decide(spec, buf, pieces) == (spec(buf), pieces)
  {
  }

  /**
    A reading takes as many pieces as it needs and no more: what it comes to is told from the first
    `n` pieces, and fewer did not decide.
   */
  lemma {:induction false} ReadsOnlyWhatIsNeeded<T>(spec: Bytes -> Step<T>, buf: Bytes, pieces: seq<Bytes>) returns (n: nat)
    ensures n <= |pieces| && Decide(spec, buf, pieces) == (spec(buf + Flat(pieces[..n])), pieces[n..])
    ensures forall m :: 0 <= m < n ==> spec(buf + Flat(pieces[..m])).End?
    ensures n < |pieces| ==> !spec(buf + Flat(pieces[..n])).End?
    decreases |pieces|
  {
    assert buf + Flat(pieces[..0]) == buf;
    if !spec(buf).End? || pieces == [] {
      n := 0;
    } else {
      var k := ReadsOnlyWhatIsNeeded(spec, buf + pieces[0], pieces[1..]);
      n := k + 1;
      forall m | 0 <= m <= k
        ensures buf + Flat(pieces[..m + 1]) == buf + pieces[0] + Flat(pieces[1..][..m])
      {
        assert pieces[..m + 1][1..] == pieces[1..][..m];
      }
      forall m | 0 <= m < n
        ensures spec(buf + Flat(pieces[..m])).End?
      {
        if m > 0 {
          assert spec(buf + pieces[0] + Flat(pieces[1..][..m - 1])).End?;
          assert pieces[..(m - 1) + 1] == pieces[..m];
        }
      }
    }
  }

  /** Pieces that do not decide are read past. */
  lemma {:induction false} DecidePast<T>(spec: Bytes -> Step<T>, buf: Bytes, first: seq<Bytes>, more: seq<Bytes>)
    requires forall m :: 0 <= m < |first| ==> spec(buf + Flat(first[..m])).End?
    ensures Decide(spec, buf, first + more) == Decide(spec, buf + Flat(first), more)
    decreases |first|
  {
    if first == [] {
      assert first + more == more && buf + Flat(first) == buf;
    } else {
      assert spec(buf + Flat(first[..0])).End? && buf + Flat(first[..0]) == buf;
      assert (first + more)[0] == first[0] && (first + more)[1..] == first[1..] + more;
      forall m | 0 <= m < |first[1..]|
        ensures spec(buf + first[0] + Flat(first[1..][..m])).End?
      {
        assert first[..m + 1][1..] == first[1..][..m];
        assert buf + Flat(first[..m + 1]) == buf + first[0] + Flat(first[1..][..m]);
      }
      DecidePast(spec, buf + first[0], first[1..], more);
      assert buf + first[0] + Flat(first[1..]) == buf + Flat(first);
    }
  }

  /** And the piece behind them decides. */
  lemma DecideBehind<T>(spec: Bytes -> Step<T>, first: seq<Bytes>, piece: Bytes, last: seq<Bytes>)
    requires forall m :: 0 <= m <= |first| ==> spec([] + Flat(first[..m])).End?
    requires !spec(Flat(first) + piece).End?
    ensures Decide(spec, [], first + ([piece] + last)).0 == spec(Flat(first) + piece)
  {
    var more := [piece] + last;
    DecidePast(spec, [], first, more);
    assert first[..|first|] == first;
    assert [] + Flat(first) == Flat(first);
    assert spec([] + Flat(first[..|first|])).End?;
    assert more[0] == piece;
  }

  lemma {:induction false} FlatAppend(a: seq<Bytes>, b: seq<Bytes>)
    ensures Flat(a + b) == Flat(a) + Flat(b)
  {
    if a == [] {
      assert a + b == b;
    } else {
      assert (a + b)[1..] == a[1..] + b;
      FlatAppend(a[1..], b);
      assert a[0] + (Flat(a[1..]) + Flat(b)) == a[0] + Flat(a[1..]) + Flat(b);
    }
  }

  /** A piece that decides ends the reading. */
  lemma FirstPieceDecides<T>(spec: Bytes -> Step<T>, first: Bytes, more: Bytes)
    requires spec([]).End? && !spec(first).End?
    ensures Decide(spec, [], [first, more]) == (spec(first), [more])
    ensures Flat([first, more]) == first + more
  {
    var pieces := [first, more];
    assert [] + pieces[0] == first && pieces[1..] == [more];
    assert Decide(spec, [], pieces) == Decide(spec, first, [more]);
    assert Flat([more]) == more;
  }
}
