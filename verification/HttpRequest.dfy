/**
  One HTTP/1.1 request, and all the requests of a connection: how long the body is, when a
  request is refused, and that nothing of it depends on how the bytes arrive.
 */
module HttpRequest {
  import opened Basics
  import opened Reading
  import opened HttpHead
  import opened HttpChunks

  // ---------------------------------------------------------------- the headers

  function Lower(c: char): char {
    if 'A' <= c <= 'Z' then (c as int + 32) as char else c
  }

  /** Equal but for the case of ASCII letters. */
  predicate SameWord(a: string, b: string) {
    |a| == |b| && forall i :: 0 <= i < |a| ==> Lower(a[i]) == Lower(b[i])
  }

  function Named(headers: seq<(string, string)>, name: string): seq<string> {
    if headers == [] then []
    else (if SameWord(headers[0].0, name) then [headers[0].1] else []) + Named(headers[1..], name)
  }

  function TrimLeft(s: string, p: char -> bool): string {
    if s != [] && p(s[0]) then TrimLeft(s[1..], p) else s
  }

  function TrimRight(s: string, p: char -> bool): string {
    if s != [] && p(s[|s| - 1]) then TrimRight(s[..|s| - 1], p) else s
  }

  function Trim(s: string, p: char -> bool): string {
    TrimRight(TrimLeft(s, p), p)
  }

  function Blank(): char -> bool {
    c => c == ' ' || c == '\t'
  }

  // ---------------------------------------------------------------- how long the body is

  datatype Length = NoBody | Counted(n: nat) | InChunks

  datatype Verdict<T> = Fine(value: T) | Bad(status: nat)

  predicate IsNumber(s: string) {
    s != [] && forall i :: 0 <= i < |s| ==> '0' <= s[i] <= '9'
  }

  function Decimal(s: string): nat
    requires forall i :: 0 <= i < |s| ==> '0' <= s[i] <= '9'
  {
    if s == [] then 0 else 10 * Decimal(s[..|s| - 1]) + (s[|s| - 1] as int - '0' as int)
  }

  function LengthOf(env: Env, s: string): Verdict<Length> {
    if !IsNumber(s) then Bad(BAD)
    else if Decimal(s) <= env.wordMax then
      if Decimal(s) <= env.bodyMax then Fine(Counted(Decimal(s))) else Bad(BODY_TOO_LARGE)
    else if |s| > 15 then Bad(BODY_TOO_LARGE)
    else Bad(BAD)
  }

  function FramingOf(env: Env, head: Head): Verdict<Length> {
    var lengths := Named(head.headers, "content-length");
    var codings := Named(head.headers, "transfer-encoding");
    if lengths == [] && codings == [] then Fine(NoBody)
    else if |lengths| == 1 && codings == [] then LengthOf(env, Trim(lengths[0], Blank()))
    else if lengths == [] && |codings| == 1 && SameWord(Trim(codings[0], Blank()), "chunked") && head.minor >= 1
      then Fine(InChunks)
    else Bad(BAD)
  }

  /** Whether the client waits before it sends the body. */
  function ExpectsOf(env: Env, head: Head): Verdict<bool> {
    var expects := Named(head.headers, "expect");
    if expects == [] then Fine(false)
    else if !SameWord(Trim(expects[0], env.white), "100-continue") || |expects| > 1 then Bad(EXPECTATION_FAILED)
    else Fine(head.minor >= 1)
  }

  predicate HostIsNamed(head: Head) {
    var hosts := |Named(head.headers, "host")|;
    !(hosts > 1 || (hosts == 0 && head.minor >= 1))
  }

  /** What the head alone decides. */
  function Checked(env: Env, head: Head): Verdict<Length> {
    match FramingOf(env, head)
    case Bad(status) => Bad(status)
    case Fine(length) =>
      if !HostIsNamed(head) then Bad(BAD)
      else
        match ExpectsOf(env, head)
        case Bad(status) => Bad(status)
        case Fine(_) => Fine(length)
  }

  lemma {:induction false} DecimalIsBelow(s: string)
    requires forall i :: 0 <= i < |s| ==> '0' <= s[i] <= '9'
    ensures Decimal(s) < Pow(10, |s|)
  {
    if s != [] {
      DecimalIsBelow(s[..|s| - 1]);
    }
  }

  lemma {:induction false} PowerGrows(b: nat, m: nat, n: nat)
    requires b > 0 && m <= n
    ensures 0 < Pow(b, m) <= Pow(b, n)
    decreases n
  {
    if m < n {
      PowerGrows(b, m, n - 1);
      assert Pow(b, n) == b * Pow(b, n - 1) >= Pow(b, n - 1);
    } else if n > 0 {
      PowerGrows(b, m - 1, n - 1);
      assert Pow(b, n) == b * Pow(b, n - 1) > 0;
    }
  }

  /**
    A number longer than any body is refused as too large, whatever number it is, exactly on
    machines whose words hold every number of fifteen digits.
   */
  lemma TooLongIsTooLarge(env: Env)
    requires env.bodyMax <= env.wordMax
    ensures (forall s :: IsNumber(s) && Decimal(s) > env.bodyMax ==> LengthOf(env, s) == Bad(BODY_TOO_LARGE))
            <==> Pow(10, 15) <= env.wordMax + 1
  {
    if Pow(10, 15) <= env.wordMax + 1 {
      forall s | IsNumber(s) && Decimal(s) > env.bodyMax
        ensures LengthOf(env, s) == Bad(BODY_TOO_LARGE)
      {
        if |s| <= 15 {
          DecimalIsBelow(s);
          PowerGrows(10, |s|, 15);
        }
      }
    } else {
      var s := Nines(15);
      NinesAre(15);
      assert IsNumber(s) && Decimal(s) > env.bodyMax && LengthOf(env, s) == Bad(BAD);
    }
  }

  function Nines(n: nat): string {
    if n == 0 then "" else Nines(n - 1) + "9"
  }

  lemma {:induction false} NinesAre(n: nat)
    ensures |Nines(n)| == n && forall i :: 0 <= i < n ==> Nines(n)[i] == '9'
    ensures Decimal(Nines(n)) + 1 == Pow(10, n)
  {
    if n > 0 {
      NinesAre(n - 1);
      NineMore(Nines(n - 1));
      hide Decimal;
    }
  }

  lemma NineMore(s: string)
    requires forall i :: 0 <= i < |s| ==> '0' <= s[i] <= '9'
    ensures Decimal(s + "9") == 10 * Decimal(s) + 9
  {
    assert (s + "9")[..|s|] == s;
  }

  // ---------------------------------------------------------------- a request

  datatype Request = Request(verb: string, target: string, headers: seq<(string, string)>, body: Bytes,
                             close: bool, http10: bool)

  function Parts(s: string): seq<string> {
    if ',' !in s then [s]
    else
      UpToIs(s, ',');
      [UpTo(s, ',')] + Parts(s[|UpTo(s, ',')| + 1..])
  }

  predicate Asks(env: Env, head: Head, token: string) {
    var values := Named(head.headers, "connection");
    exists i, j :: 0 <= i < |values| && 0 <= j < |Parts(values[i])| && SameWord(Trim(Parts(values[i])[j], env.white), token)
  }

  function RequestFrom(env: Env, head: Head, body: Bytes): Request {
    Request(head.verb, head.target, head.headers, body,
            if head.minor == 0 then !Asks(env, head, "keep-alive") else Asks(env, head, "close"),
            head.minor == 0)
  }

  function BodyOf(env: Env, length: Length, s: Bytes): Step<Bytes> {
    match length
    case NoBody => Ok([], s)
    case Counted(n) => ExactlyOf(n, s)
    case InChunks => ChunkedOf(env, [], 0, s)
  }

  function AfterHeadOf(env: Env, head: Head, s: Bytes): Step<Request> {
    match Checked(env, head)
    case Bad(status) => Refused(status, s)
    case Fine(length) =>
      match BodyOf(env, length, s)
      case Ok(body, rest) => Ok(RequestFrom(env, head, body), rest)
      case End => End
      case Refused(status, rest) => Refused(status, rest)
  }

  /** A request, of the bytes that have come. */
  function RequestOf(env: Env, s: Bytes): Step<Request> {
    match HeadOf(env, s)
    case Ok(head, rest) => AfterHeadOf(env, head, rest)
    case End => End
    case Refused(status, rest) => Refused(status, rest)
  }

  function RequestReader(env: Env): Bytes -> Step<Request> {
    s => RequestOf(env, s)
  }

  // ---------------------------------------------------------------- what a request comes to lasts

  lemma BodyLasts(env: Env, length: Length, s: Bytes, x: Bytes)
    ensures Lasts(BodyOf(env, length, s), BodyOf(env, length, s + x), x)
  {
    match length
    case NoBody =>
    case Counted(n) =>
      if n <= |s| {
        assert (s + x)[..n] == s[..n] && (s + x)[n..] == s[n..] + x;
      }
    case InChunks => ChunkedLasts(env, [], 0, s, x);
  }

  lemma AfterHeadLasts(env: Env, head: Head, s: Bytes, x: Bytes)
    ensures Lasts(AfterHeadOf(env, head, s), AfterHeadOf(env, head, s + x), x)
  {
    if Checked(env, head).Fine? {
      BodyLasts(env, Checked(env, head).value, s, x);
    }
  }

  lemma RequestIsSettled(env: Env)
    ensures Settled(RequestReader(env))
  {
    forall s, x | RequestOf(env, s).Ok?
      ensures RequestOf(env, s + x) == Ok(RequestOf(env, s).value, RequestOf(env, s).rest + x)
    {
      HeadIsSettled(env, s, x);
      AfterHeadLasts(env, HeadOf(env, s).value, HeadOf(env, s).rest, x);
    }
  }

  lemma RequestStaysRefused(env: Env)
    ensures StaysRefused(RequestReader(env))
    ensures Even(env) ==> Final(RequestReader(env))
  {
    forall s, x | RequestOf(env, s).Refused?
      ensures RequestOf(env, s + x).Refused?
      ensures Even(env) ==> RequestOf(env, s + x) == Refused(RequestOf(env, s).status, RequestOf(env, s).rest + x)
    {
      if HeadOf(env, s).Ok? {
        HeadIsSettled(env, s, x);
        AfterHeadLasts(env, HeadOf(env, s).value, HeadOf(env, s).rest, x);
      } else {
        HeadStaysRefused(env, s, x);
      }
    }
  }

  /** A request takes bytes. */
  lemma RequestTakesBytes(env: Env, s: Bytes)
    requires RequestOf(env, s).Ok?
    ensures |RequestOf(env, s).rest| < |s|
  {
    var bare := SkipOf(s).rest;
    HeadEndIsFirst(bare, 0);
    var head := HeadOf(env, s);
    BodyTakesNoMore(env, Checked(env, head.value).value, head.rest);
  }

  lemma BodyTakesNoMore(env: Env, length: Length, s: Bytes)
    requires BodyOf(env, length, s).Ok?
    ensures |BodyOf(env, length, s).rest| <= |s|
  {
    if length == InChunks {
      var m := ChunkedAccepted(env, [], 0, s);
    }
  }
}
