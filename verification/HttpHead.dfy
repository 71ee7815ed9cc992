/**
  The head of an HTTP/1.1 request as the server takes it off the wire, as a function of the
  bytes that have come. It gives nothing (`End`) exactly while the bytes do not decide.
 */
module HttpHead {
  import opened Basics
  import opened Reading

  const CR: Byte := 13
  const LF: Byte := 10
  const SPACE: Byte := 32
  const TAB: Byte := 9
  const SEMICOLON: Byte := 59

  /** The limits of the server. */
  const HEAD_MAX: nat := 64 * 1024
  const METHOD_MAX: nat := 32
  const CHUNK_LINE_MAX: nat := 4 * 1024
  const CHUNK_FRAMING_MAX: nat := 1024 * 1024

  const BAD: nat := 400
  const BODY_TOO_LARGE: nat := 413
  const EXPECTATION_FAILED: nat := 417
  const HEAD_TOO_LARGE: nat := 431

  datatype Head = Head(verb: string, target: string, minor: nat, headers: seq<(string, string)>)

  /** What the parser of heads makes of a head that ends with its first empty line. */
  datatype Parsed = Complete(head: Head) | TooManyHeaders | Malformed

  /** What is given from outside: that parser, the largest body, the largest word of the machine, and what is white space. */
  datatype Env = Env(parse: Bytes -> Parsed, bodyMax: nat, wordMax: nat, white: char -> bool)

  // ---------------------------------------------------------------- where a head ends

  /** The empty line that starts, with the end of the line before it, at `i`: its length, or 0. */
  function EmptyLine(s: Bytes, i: nat): nat {
    if i + 1 < |s| && s[i] == LF && s[i + 1] == LF then 2
    else if i + 2 < |s| && s[i] == LF && s[i + 1] == CR && s[i + 2] == LF then 3
    else 0
  }

  /** Where the first empty line from `i` on ends. */
  function HeadEnd(s: Bytes, i: nat): Option<nat>
    decreases |s| - i
  {
    if i >= |s| then None
    else if EmptyLine(s, i) > 0 then Some(i + EmptyLine(s, i))
    else HeadEnd(s, i + 1)
  }

  lemma {:induction false} HeadEndIsFirst(s: Bytes, i: nat)
    ensures HeadEnd(s, i).Some? ==>
              exists j :: i <= j < |s| && EmptyLine(s, j) > 0 && HeadEnd(s, i).value == j + EmptyLine(s, j) <= |s| &&
                          forall k :: i <= k < j ==> EmptyLine(s, k) == 0
    ensures HeadEnd(s, i).None? ==> forall k :: i <= k < |s| ==> EmptyLine(s, k) == 0
    decreases |s| - i
  {
    if i < |s| && EmptyLine(s, i) == 0 {
      HeadEndIsFirst(s, i + 1);
      hide EmptyLine;
    }
  }

  /** An end that was found stays the first one, whatever comes behind it. */
  lemma {:induction false} HeadEndStays(s: Bytes, x: Bytes, i: nat)
    requires HeadEnd(s, i).Some?
    ensures HeadEnd(s + x, i) == HeadEnd(s, i)
    decreases |s| - i
  {
    if EmptyLine(s, i) == 0 {
      HeadEndStays(s, x, i + 1);
      assert EmptyLine(s + x, i) == 0 by {
        NoEmptyLineBefore(s, x, i);
      }
    }
  }

  /** The first end cannot be overtaken by one that begins before it and is completed by later bytes. */
  lemma NoEmptyLineBefore(s: Bytes, x: Bytes, i: nat)
    requires i < |s| && EmptyLine(s, i) == 0 && HeadEnd(s, i + 1).Some?
    ensures EmptyLine(s + x, i) == 0
  {
    HeadEndIsFirst(s, i + 1);
    var j :| i + 1 <= j < |s| && EmptyLine(s, j) > 0 && HeadEnd(s, i + 1).value == j + EmptyLine(s, j) <= |s|;
    assert j + 2 <= |s| && i + 3 <= |s|;
  }

  /** An end in longer bytes that is none in the first of them ends behind those. */
  lemma HeadEndBehind(s: Bytes, x: Bytes)
    requires HeadEnd(s, 0).None? && HeadEnd(s + x, 0).Some?
    ensures HeadEnd(s + x, 0).value > |s|
  {
    HeadEndIsFirst(s, 0);
    HeadEndIsFirst(s + x, 0);
    var j :| 0 <= j < |s + x| && EmptyLine(s + x, j) > 0 && HeadEnd(s + x, 0).value == j + EmptyLine(s + x, j);
    assert EmptyLine(s, j) == 0;
  }

  // ---------------------------------------------------------------- how a head begins

  predicate IsToken(b: Byte) {
    (48 <= b <= 57) || (65 <= b <= 90) || (97 <= b <= 122) ||
    b in {33, 35, 36, 37, 38, 39, 42, 43, 45, 46, 94, 95, 96, 124, 126}
  }

  function Beginning(s: Bytes): Bytes {
    if |s| > METHOD_MAX + 1 then s[..METHOD_MAX + 1] else s
  }

  /** No method can come of these bytes, whatever follows. */
  predicate NoMethod(s: Bytes) {
    var begins := Beginning(s);
    var name := UpTo(begins, SPACE);
    |name| > METHOD_MAX || (begins != [] && begins[0] == SPACE) || exists i :: 0 <= i < |name| && !IsToken(name[i])
  }

  lemma BeginningLonger(s: Bytes, x: Bytes)
    ensures exists y :: Beginning(s + x) == Beginning(s) + y
    ensures |s| > METHOD_MAX ==> Beginning(s + x) == Beginning(s)
  {
    assert Beginning(s + x) == Beginning(s) + Beginning(s + x)[|Beginning(s)|..];
  }

  /** Bytes that begin no request begin none when more of them come. */
  lemma NoMethodStays(s: Bytes, x: Bytes)
    requires NoMethod(s)
    ensures NoMethod(s + x)
  {
    BeginningLonger(s, x);
    var y :| Beginning(s + x) == Beginning(s) + y;
    UpToLonger(Beginning(s), y, SPACE);
    var m, m' := UpTo(Beginning(s), SPACE), UpTo(Beginning(s + x), SPACE);
    if |m| <= METHOD_MAX && !(Beginning(s) != [] && Beginning(s)[0] == SPACE) {
      var i :| 0 <= i < |m| && !IsToken(m[i]);
      assert m'[i] == m[i];
    }
  }

  /** Where a whole head has come, more bytes do not change how it begins. */
  lemma MethodStays(s: Bytes, x: Bytes)
    requires !NoMethod(s) && (HeadEnd(s, 0).Some? || |s| > METHOD_MAX)
    ensures !NoMethod(s + x)
  {
    BeginningLonger(s, x);
    if |s| <= METHOD_MAX {
      SpaceBeforeEnd(s);
      var y :| Beginning(s + x) == Beginning(s) + y;
      UpToLonger(s, y, SPACE);
    }
  }

  /** A head whose beginning is a method has a space in it. */
  lemma SpaceBeforeEnd(s: Bytes)
    requires !NoMethod(s) && HeadEnd(s, 0).Some? && |s| <= METHOD_MAX
    ensures SPACE in s
  {
    HeadEndIsFirst(s, 0);
    var j :| 0 <= j < |s| && EmptyLine(s, j) > 0;
    UpToIs(s, SPACE);
    var name := UpTo(s, SPACE);
    assert j < |name| ==> name[j] == LF && !IsToken(name[j]);
    assert s[|name|] == SPACE;
  }

  // ---------------------------------------------------------------- the head

  /** A CR or an LF that is no part of a CRLF. */
  predicate LoneEnd(s: Bytes, i: nat)
    requires i < |s|
  {
    (s[i] == LF && (i == 0 || s[i - 1] != CR)) || (s[i] == CR && (i + 1 == |s| || s[i + 1] != LF))
  }

  /** What a head that has come whole gives, with what is behind it. */
  function WholeHead(env: Env, s: Bytes, n: nat): Step<Head>
    requires n <= |s|
  {
    match env.parse(s[..n])
    case TooManyHeaders => Refused(HEAD_TOO_LARGE, s)
    case Malformed => Refused(BAD, s)
    case Complete(head) =>
      if n > HEAD_MAX then Refused(HEAD_TOO_LARGE, s)
      else if exists i :: 0 <= i < n && LoneEnd(s[..n], i) then Refused(BAD, s)
      else Ok(head, s[n..])
  }

  /** The head of a request, behind an empty line that was passed over. */
  function BareHeadOf(env: Env, s: Bytes): Step<Head> {
    if NoMethod(s) then Refused(BAD, s)
    else
      match HeadEnd(s, 0)
      case Some(n) => HeadEndIsFirst(s, 0); WholeHead(env, s, n)
      case None => if |s| >= HEAD_MAX then Refused(HEAD_TOO_LARGE, s) else End
  }

  /** Where the head starts: behind a leading CRLF, if there is one. */
  function SkipOf(s: Bytes): Step<()> {
    if s == [] || s == [CR] then End
    else if s[0] == CR && s[1] == LF then Ok((), s[2..])
    else Ok((), s)
  }

  function HeadOf(env: Env, s: Bytes): Step<Head> {
    match SkipOf(s)
    case Ok(_, rest) => BareHeadOf(env, rest)
    case End => End
    case Refused(status, rest) => Refused(status, rest)
  }

  lemma SkipIsSettled(s: Bytes, x: Bytes)
    requires SkipOf(s).Ok?
    ensures SkipOf(s + x) == Ok((), SkipOf(s).rest + x)
  {
    assert s[0] == CR && s[1] == LF ==> (s + x)[2..] == s[2..] + x;
  }

  lemma BareHeadIsSettled(env: Env, s: Bytes, x: Bytes)
    requires BareHeadOf(env, s).Ok?
    ensures BareHeadOf(env, s + x) == Ok(BareHeadOf(env, s).value, BareHeadOf(env, s).rest + x)
  {
    MethodStays(s, x);
    HeadEndStays(s, x, 0);
    HeadEndIsFirst(s, 0);
    var n := HeadEnd(s, 0).value;
    assert (s + x)[..n] == s[..n] && (s + x)[n..] == s[n..] + x;
  }

  lemma HeadIsSettled(env: Env, s: Bytes, x: Bytes)
    requires HeadOf(env, s).Ok?
    ensures HeadOf(env, s + x) == Ok(HeadOf(env, s).value, HeadOf(env, s).rest + x)
  {
    SkipIsSettled(s, x);
    BareHeadIsSettled(env, SkipOf(s).rest, x);
  }

  /** A head longer than the limit is not called malformed: the length of a head is what refuses it. */
  ghost predicate Even(env: Env) {
    forall h: Bytes :: |h| > HEAD_MAX ==> env.parse(h) != Malformed
  }

  /** A refused head stays refused as more bytes come, with its status where no long head is malformed. */
  lemma BareHeadStaysRefused(env: Env, s: Bytes, x: Bytes)
    requires BareHeadOf(env, s).Refused?
    ensures BareHeadOf(env, s + x).Refused? && BareHeadOf(env, s + x).rest == BareHeadOf(env, s).rest + x
    ensures Even(env) ==> BareHeadOf(env, s + x).status == BareHeadOf(env, s).status
  {
    if NoMethod(s) {
      NoMethodStays(s, x);
    } else if HeadEnd(s, 0).Some? {
      MethodStays(s, x);
      HeadEndStays(s, x, 0);
      HeadEndIsFirst(s, 0);
      var n := HeadEnd(s, 0).value;
      assert (s + x)[..n] == s[..n];
    } else {
      MethodStays(s, x);
      if HeadEnd(s + x, 0).Some? {
        HeadEndBehind(s, x);
        HeadEndIsFirst(s + x, 0);
      }
    }
  }

  lemma HeadStaysRefused(env: Env, s: Bytes, x: Bytes)
    requires HeadOf(env, s).Refused?
    ensures HeadOf(env, s + x).Refused? && HeadOf(env, s + x).rest == HeadOf(env, s).rest + x
    ensures Even(env) ==> HeadOf(env, s + x).status == HeadOf(env, s).status
  {
    SkipIsSettled(s, x);
    BareHeadStaysRefused(env, SkipOf(s).rest, x);
  }
}
