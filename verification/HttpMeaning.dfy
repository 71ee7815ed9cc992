/**
  What a request comes to, told from the header fields as they are written: which of them decide how
  long the body is, when a request is refused and with which status, and what is asked of the connection.
 */
module HttpMeaning {
  import opened Basics
  import opened Reading
  import opened HttpHead
  import opened HttpChunks
  import opened HttpRequest

  type Header = (string, string)

  // ---------------------------------------------------------------- words and fields

  /** The same character, or the two cases of one letter of ASCII. */
  predicate Alike(c: char, d: char) {
    c == d || ('A' <= c <= 'Z' && d as int == c as int + 32) || ('A' <= d <= 'Z' && c as int == d as int + 32)
  }

  predicate Called(name: string, word: string) {
    |name| == |word| && forall i :: 0 <= i < |name| ==> Alike(name[i], word[i])
  }

  lemma CalledIs(name: string, word: string)
    ensures SameWord(name, word) <==> Called(name, word)
  {
    assert forall i :: 0 <= i < |name| == |word| ==> (Lower(name[i]) == Lower(word[i]) <==> Alike(name[i], word[i]));
  }

  /** No field has this name. */
  ghost predicate Never(headers: seq<Header>, word: string) {
    forall i :: 0 <= i < |headers| ==> !Called(headers[i].0, word)
  }

  /** The `i`th field has this name, and no other has. */
  ghost predicate OnlyAt(headers: seq<Header>, word: string, i: nat) {
    && i < |headers| && Called(headers[i].0, word)
    && forall j :: 0 <= j < |headers| && j != i ==> !Called(headers[j].0, word)
  }

  /** Two fields have this name. */
  ghost predicate Twice(headers: seq<Header>, word: string) {
    exists i, j :: 0 <= i < j < |headers| && Called(headers[i].0, word) && Called(headers[j].0, word)
  }

  lemma {:induction false} NamedIs(headers: seq<Header>, word: string)
    ensures Named(headers, word) == [] <==> Never(headers, word)
    ensures forall i: nat :: OnlyAt(headers, word, i) ==> Named(headers, word) == [headers[i].1]
    ensures |Named(headers, word)| > 1 <==> Twice(headers, word)
    ensures |Named(headers, word)| == 1 ==> exists i: nat :: OnlyAt(headers, word, i)
  {
    if headers != [] {
      var more := headers[1..];
      CalledIs(headers[0].0, word);
      NamedIs(more, word);
      hide Called, Named, SameWord, OnlyAt, Twice;
      NamedStep(headers, word);
      assert Never(headers, word) <==> !Called(headers[0].0, word) && Never(more, word);
      OnlyAtStep(headers, word);
      TwiceStep(headers, word);
    }
  }

  lemma NamedStep(headers: seq<Header>, word: string)
    requires headers != []
    ensures Named(headers, word) == (if SameWord(headers[0].0, word) then [headers[0].1] else []) + Named(headers[1..], word)
  {
  }

  lemma OnlyAtStep(headers: seq<Header>, word: string)
    requires headers != []
    ensures OnlyAt(headers, word, 0) <==> Called(headers[0].0, word) && Never(headers[1..], word)
    ensures forall i: nat :: i > 0 ==> (OnlyAt(headers, word, i) <==> !Called(headers[0].0, word) && OnlyAt(headers[1..], word, i - 1))
    ensures forall i: nat :: OnlyAt(headers[1..], word, i) && !Called(headers[0].0, word) ==> OnlyAt(headers, word, i + 1)
  {
    hide Called;
    var more := headers[1..];
    assert forall j :: 0 <= j < |more| ==> more[j] == headers[j + 1];
    forall i: nat | i > 0
      ensures OnlyAt(headers, word, i) <==> !Called(headers[0].0, word) && OnlyAt(more, word, i - 1)
    {
      if OnlyAt(headers, word, i) {
        forall j | 0 <= j < |more| && j != i - 1
          ensures !Called(more[j].0, word)
        {
          assert more[j] == headers[j + 1];
        }
      }
      if !Called(headers[0].0, word) && OnlyAt(more, word, i - 1) {
        forall j | 0 <= j < |headers| && j != i
          ensures !Called(headers[j].0, word)
        {
          assert j > 0 ==> headers[j] == more[j - 1];
        }
      }
    }
  }

  lemma TwiceStep(headers: seq<Header>, word: string)
    requires headers != []
    ensures Twice(headers, word) <==> Twice(headers[1..], word) || (Called(headers[0].0, word) && !Never(headers[1..], word))
  {
    hide Called;
    var more := headers[1..];
    if Twice(headers, word) {
      var i, j :| 0 <= i < j < |headers| && Called(headers[i].0, word) && Called(headers[j].0, word);
      assert headers[j] == more[j - 1];
      assert i > 0 ==> headers[i] == more[i - 1];
    }
    if Twice(more, word) {
      var i, j :| 0 <= i < j < |more| && Called(more[i].0, word) && Called(more[j].0, word);
      assert more[i] == headers[i + 1] && more[j] == headers[j + 1];
    }
    if Called(headers[0].0, word) && !Never(more, word) {
      var j :| 0 <= j < |more| && Called(more[j].0, word);
      assert more[j] == headers[j + 1];
    }
  }

  // ---------------------------------------------------------------- what is around a value

  lemma {:induction false} TrimLeftIs(s: string, p: char -> bool) returns (i: nat)
    ensures i <= |s| && TrimLeft(s, p) == s[i..] && (i < |s| ==> !p(s[i])) && forall k :: 0 <= k < i ==> p(s[k])
  {
    if s != [] && p(s[0]) {
      var j := TrimLeftIs(s[1..], p);
      i := j + 1;
      assert s[1..][j..] == s[i..];
      forall k | 0 <= k < i
        ensures p(s[k])
      {
        assert k > 0 ==> s[k] == s[1..][k - 1];
      }
    } else {
      i := 0;
      assert s[0..] == s;
    }
  }

  lemma {:induction false} TrimRightIs(s: string, p: char -> bool)
    ensures var t := TrimRight(s, p);
            && t <= s && (t != [] ==> !p(s[|t| - 1])) && forall k :: |t| <= k < |s| ==> p(s[k])
  {
    if s != [] && p(s[|s| - 1]) {
      TrimRightIs(s[..|s| - 1], p);
    }
  }

  /** Trimming takes exactly what is around a text. */
  lemma TrimExactly(s: string, t: string, p: char -> bool)
    ensures Trim(s, p) == t <==> Around(s, t, p)
  {
    TrimStands(s, p);
    if Around(s, t, p) {
      AroundIsOne(s, t, Trim(s, p), p);
    }
  }

  lemma TrimStands(s: string, p: char -> bool)
    ensures Around(s, Trim(s, p), p)
  {
    var i := TrimLeftIs(s, p);
    var a, t := s[i..], Trim(s, p);
    TrimRightIs(a, p);
    hide TrimLeft, TrimRight;
    forall k | i + |t| <= k < |s|
      ensures p(s[k])
    {
      assert a[k - i] == s[k];
    }
    assert s[i..i + |t|] == a[..|t|] == t;
    assert t != [] ==> s[i] == t[0] && s[i + |t| - 1] == a[|t| - 1];
    assert Stands(s, t, i, p);
  }

  // ---------------------------------------------------------------- numbers

  /** The digits of a number. */
  function Shown(n: nat): string {
    if n < 10 then [('0' as int + n) as char] else Shown(n / 10) + [('0' as int + n % 10) as char]
  }

  /** Zeros may stand in front of it. */
  ghost predicate Says(text: string, n: nat) {
    exists k: nat :: text == Zeros(k) + Shown(n)
  }

  function Zeros(k: nat): string {
    seq(k, i => '0')
  }

  lemma {:induction false} ShownIs(n: nat)
    ensures IsNumber(Shown(n)) && Decimal(Shown(n)) == n
  {
    if n >= 10 {
      ShownIs(n / 10);
      assert Shown(n)[..|Shown(n)| - 1] == Shown(n / 10);
    } else {
      assert Shown(n)[..0] == [];
      assert Decimal(Shown(n)) == 10 * Decimal([]) + n;
    }
  }

  lemma {:induction false} ZerosBefore(k: nat, s: string)
    requires IsNumber(s)
    ensures IsNumber(Zeros(k) + s) && Decimal(Zeros(k) + s) == Decimal(s)
    decreases |s|
  {
    var t := Zeros(k) + s;
    assert t[..|t| - 1] == Zeros(k) + s[..|s| - 1];
    if |s| > 1 {
      ZerosBefore(k, s[..|s| - 1]);
    } else {
      assert s[..0] == [] && Zeros(k) + [] == Zeros(k);
      AllZeros(k);
    }
  }

  lemma {:induction false} AllZeros(k: nat)
    ensures Decimal(Zeros(k)) == 0
  {
    if k > 0 {
      assert Zeros(k)[..k - 1] == Zeros(k - 1);
      AllZeros(k - 1);
    }
  }

  /** A text of digits says its value, and no other number. */
  lemma {:induction false} NumberSays(s: string)
    requires IsNumber(s)
    ensures Says(s, Decimal(s))
    decreases |s|
  {
    var init, d := s[..|s| - 1], s[|s| - 1];
    if |s| == 1 {
      assert init == [];
      assert Decimal(init) == 0;
      assert s == Zeros(0) + Shown(Decimal(s));
    } else {
      NumberSays(init);
      var k: nat :| init == Zeros(k) + Shown(Decimal(init));
      OneDigitMore(s, k, Decimal(init), d);
    }
  }

  lemma OneDigitMore(s: string, k: nat, n: nat, d: char)
    requires '0' <= d <= '9' && s == Zeros(k) + Shown(n) + [d]
    ensures Says(s, 10 * n + (d as int - '0' as int))
  {
    var m := 10 * n + (d as int - '0' as int);
    assert m / 10 == n && m % 10 == d as int - '0' as int;
    if n == 0 {
      assert Shown(m) == [d] && Shown(0) == ['0'];
      assert s == Zeros(k + 1) + Shown(m);
    } else {
      assert Shown(m) == Shown(n) + [d];
      assert s == Zeros(k) + Shown(m);
    }
  }

  lemma SaysIs(s: string, n: nat)
    ensures Says(s, n) <==> IsNumber(s) && Decimal(s) == n
  {
    hide Decimal;
    if Says(s, n) {
      var k: nat :| s == Zeros(k) + Shown(n);
      ShownIs(n);
      ZerosBefore(k, Shown(n));
    }
    if IsNumber(s) {
      NumberSays(s);
    }
  }

  // ---------------------------------------------------------------- what the fields say

  function Blanks(): char -> bool {
    c => c in {' ', '\t'}
  }

  lemma BlankIs(s: string, t: string)
    ensures Trim(s, Blank()) == t <==> Around(s, t, Blanks())
  {
    TrimExactly(s, t, Blank());
    assert forall i: nat :: Stands(s, t, i, Blank()) <==> Stands(s, t, i, Blanks());
  }

  /** Neither a length nor a coding is given. */
  ghost predicate NoLength(head: Head) {
    Never(head.headers, "content-length") && Never(head.headers, "transfer-encoding")
  }

  /** One length is given, which reads `t`, and no coding. */
  ghost predicate LengthReads(head: Head, t: string) {
    && Never(head.headers, "transfer-encoding")
    && exists i: nat :: OnlyAt(head.headers, "content-length", i) && Around(head.headers[i].1, t, Blanks())
  }

  /** One coding is given, which is plain `chunked`, by a client that knows it, and no length. */
  ghost predicate PlainlyChunked(head: Head) {
    && Never(head.headers, "content-length") && head.minor >= 1
    && exists i: nat, t :: OnlyAt(head.headers, "transfer-encoding", i) && Around(head.headers[i].1, t, Blanks()) && Called(t, "chunked")
  }

  /** How long the body is is certain. */
  ghost predicate Certain(head: Head) {
    NoLength(head) || PlainlyChunked(head) || exists t, n: nat :: LengthReads(head, t) && Says(t, n)
  }

  /** There is one Host field, or in HTTP/1.0 none. */
  ghost predicate HostNamed(head: Head) {
    (exists i: nat :: OnlyAt(head.headers, "host", i)) || (head.minor == 0 && Never(head.headers, "host"))
  }

  /** Nothing is expected of the server, or once what it can meet. */
  ghost predicate Expectable(env: Env, head: Head) {
    || Never(head.headers, "expect")
    || exists i: nat, t :: OnlyAt(head.headers, "expect", i) && Around(head.headers[i].1, t, env.white) && Called(t, "100-continue")
  }

  lemma OneIsThere(headers: seq<Header>, word: string)
    ensures |Named(headers, word)| == 1 <==> exists i: nat :: OnlyAt(headers, word, i)
  {
    NamedIs(headers, word);
    hide Named, OnlyAt;
  }

  /** The one value, trimmed, is `t`. */
  lemma OneReads(headers: seq<Header>, word: string, t: string)
    ensures (|Named(headers, word)| == 1 && Trim(Named(headers, word)[0], Blank()) == t) <==>
            exists i: nat :: OnlyAt(headers, word, i) && Around(headers[i].1, t, Blanks())
  {
    NamedIs(headers, word);
    hide Named, OnlyAt, Trim, Around;
    forall i: nat | OnlyAt(headers, word, i)
      ensures i < |headers| && (Trim(headers[i].1, Blank()) == t <==> Around(headers[i].1, t, Blanks()))
    {
      OnlyAtIsThere(headers, word, i);
      BlankIs(headers[i].1, t);
    }
  }

  lemma OnlyAtIsThere(headers: seq<Header>, word: string, i: nat)
    requires OnlyAt(headers, word, i)
    ensures i < |headers|
  {
  }

  lemma LengthReadsIs(head: Head, t: string)
    ensures LengthReads(head, t) <==>
            Named(head.headers, "transfer-encoding") == [] && |Named(head.headers, "content-length")| == 1
            && Trim(Named(head.headers, "content-length")[0], Blank()) == t
  {
    NamedIs(head.headers, "transfer-encoding");
    hide Named, Never, OnlyAt, Trim, Around;
    OneReads(head.headers, "content-length", t);
  }

  lemma NoLengthIs(head: Head)
    ensures NoLength(head) <==> Named(head.headers, "content-length") == [] == Named(head.headers, "transfer-encoding")
  {
    NamedIs(head.headers, "transfer-encoding");
    NamedIs(head.headers, "content-length");
    hide Named, Never;
  }

  lemma PlainlyChunkedIs(head: Head)
    ensures PlainlyChunked(head) <==>
            && Named(head.headers, "content-length") == [] && |Named(head.headers, "transfer-encoding")| == 1
            && SameWord(Trim(Named(head.headers, "transfer-encoding")[0], Blank()), "chunked") && head.minor >= 1
  {
    NamedIs(head.headers, "content-length");
    hide Named, Never, Trim, Around, Called, SameWord;
    var codings := Named(head.headers, "transfer-encoding");
    if |codings| == 1 {
      var t := Trim(codings[0], Blank());
      OneReads(head.headers, "transfer-encoding", t);
      CalledIs(t, "chunked");
    }
    if PlainlyChunked(head) {
      var i: nat, t :| OnlyAt(head.headers, "transfer-encoding", i) && Around(head.headers[i].1, t, Blanks()) && Called(t, "chunked");
      OneReads(head.headers, "transfer-encoding", t);
      CalledIs(t, "chunked");
    }
  }

  // ---------------------------------------------------------------- how the body is framed

  lemma FramingReads(env: Env, head: Head, t: string)
    requires LengthReads(head, t)
    ensures FramingOf(env, head) == LengthOf(env, t)
  {
    LengthReadsIs(head, t);
    hide Named, Never, LengthReads, Trim, LengthOf;
  }

  lemma FramingElse(env: Env, head: Head)
    ensures NoLength(head) ==> FramingOf(env, head) == Fine(NoBody)
    ensures PlainlyChunked(head) ==> FramingOf(env, head) == Fine(InChunks)
    ensures !Certain(head) ==> FramingOf(env, head) == Bad(BAD)
  {
    NoLengthIs(head);
    PlainlyChunkedIs(head);
    hide Named, NoLength, PlainlyChunked, LengthReads, Trim, SameWord, Says;
    var lengths := Named(head.headers, "content-length");
    if |lengths| == 1 {
      var t := Trim(lengths[0], Blank());
      LengthReadsIs(head, t);
      if IsNumber(t) {
        SaysIs(t, Decimal(t));
      }
      hide Decimal;
    }
  }

  /** A length that is read: counted, or refused as too large. */
  lemma LengthSays(env: Env, t: string, n: nat)
    requires Says(t, n) && env.bodyMax <= env.wordMax
    ensures LengthOf(env, t) ==
            if n <= env.bodyMax then Fine(Counted(n)) else Bad(if n <= env.wordMax || |t| > 15 then BODY_TOO_LARGE else BAD)
  {
    SaysIs(t, n);
  }

  lemma HostNamedIs(head: Head)
    ensures HostNamed(head) <==> HostIsNamed(head)
  {
    NamedIs(head.headers, "host");
    OneIsThere(head.headers, "host");
    hide Named, Never, OnlyAt;
  }

  lemma ExpectableIs(env: Env, head: Head)
    ensures if Expectable(env, head) then ExpectsOf(env, head).Fine? else ExpectsOf(env, head) == Bad(EXPECTATION_FAILED)
  {
    NamedIs(head.headers, "expect");
    hide Named, Never, OnlyAt, Trim, Around, Called, SameWord;
    var expects := Named(head.headers, "expect");
    forall i: nat, t | OnlyAt(head.headers, "expect", i)
      ensures i < |head.headers| && expects == [head.headers[i].1]
      ensures Trim(head.headers[i].1, env.white) == t <==> Around(head.headers[i].1, t, env.white)
      ensures SameWord(t, "100-continue") <==> Called(t, "100-continue")
    {
      OnlyAtIsThere(head.headers, "expect", i);
      TrimExactly(head.headers[i].1, t, env.white);
      CalledIs(t, "100-continue");
    }
    if |expects| == 1 {
      var i: nat :| OnlyAt(head.headers, "expect", i);
      OnlyAtIsThere(head.headers, "expect", i);
      var t := Trim(expects[0], env.white);
      assert Around(head.headers[i].1, t, env.white) && (SameWord(t, "100-continue") <==> Called(t, "100-continue"));
    }
  }

  /** The head gives no reason to refuse the request. */
  ghost predicate Acceptable(env: Env, head: Head) {
    HostNamed(head) && Expectable(env, head)
  }

  lemma AcceptableIs(env: Env, head: Head)
    requires Acceptable(env, head)
    ensures Checked(env, head) == FramingOf(env, head)
  {
    HostNamedIs(head);
    ExpectableIs(env, head);
    hide HostNamed, Expectable, HostIsNamed, ExpectsOf, FramingOf;
  }

  // ---------------------------------------------------------------- the theorems

  /** A request with a length within the limit has so many bytes as its body, and not a byte more is taken. */
  lemma CountedBody(env: Env, head: Head, t: string, n: nat, s: Bytes)
    requires LengthReads(head, t) && Says(t, n) && n <= env.bodyMax <= env.wordMax && Acceptable(env, head)
    ensures |s| < n ==> AfterHeadOf(env, head, s).End?
    ensures |s| >= n ==>
              var step := AfterHeadOf(env, head, s); step.Ok? && step.value.body == s[..n] && step.rest == s[n..]
  {
    hide LengthReads, Says, Acceptable, Checked, FramingOf, LengthOf;
    AcceptableIs(env, head);
    FramingReads(env, head, t);
    LengthSays(env, t, n);
  }

  /** A request without a length and a coding has an empty body, and nothing is taken. */
  lemma EmptyBody(env: Env, head: Head, s: Bytes)
    requires NoLength(head) && Acceptable(env, head)
    ensures var step := AfterHeadOf(env, head, s); step.Ok? && step.value.body == [] && step.rest == s
  {
    hide NoLength, Acceptable, Checked, FramingOf;
    AcceptableIs(env, head);
    FramingElse(env, head);
  }

  /** A request in chunks has the data of the chunks as its body, and their wire form is what is taken. */
  lemma ChunkedBody(env: Env, head: Head, s: Bytes, body: Bytes, rest: Bytes)
    requires PlainlyChunked(head) && Acceptable(env, head)
    ensures (AfterHeadOf(env, head, s).Ok? && AfterHeadOf(env, head, s).value.body == body && AfterHeadOf(env, head, s).rest == rest)
            <==> exists m :: Fits(env, m, 0, 0) && s == Wire(m) + rest && body == Data(m.chunks)
  {
    hide PlainlyChunked, Acceptable, Checked, FramingOf, ChunkedOf, Fits;
    AcceptableIs(env, head);
    FramingElse(env, head);
    ChunkedExactly(env, s, body, rest);
  }

  /** Every other head is refused, with the status of the first reason. */
  lemma RefusedByItsHead(env: Env, head: Head, s: Bytes)
    requires env.bodyMax <= env.wordMax
    ensures !Certain(head) ==> AfterHeadOf(env, head, s) == Refused(BAD, s)
    ensures forall t, n: nat :: LengthReads(head, t) && Says(t, n) && n > env.bodyMax ==>
              AfterHeadOf(env, head, s) == Refused(if n <= env.wordMax || |t| > 15 then BODY_TOO_LARGE else BAD, s)
    ensures Certain(head) && (forall t, n: nat :: LengthReads(head, t) && Says(t, n) ==> n <= env.bodyMax) ==>
              && (!HostNamed(head) ==> AfterHeadOf(env, head, s) == Refused(BAD, s))
              && (HostNamed(head) && !Expectable(env, head) ==> AfterHeadOf(env, head, s) == Refused(EXPECTATION_FAILED, s))
  {
    HostNamedIs(head);
    ExpectableIs(env, head);
    FramingElse(env, head);
    hide HostNamed, Expectable, HostIsNamed, ExpectsOf, FramingOf, LengthOf, NoLength, PlainlyChunked, LengthReads, Says;
    forall t, n: nat | LengthReads(head, t) && Says(t, n)
      ensures FramingOf(env, head) ==
              if n <= env.bodyMax then Fine(Counted(n)) else Bad(if n <= env.wordMax || |t| > 15 then BODY_TOO_LARGE else BAD)
    {
      FramingReads(env, head, t);
      LengthSays(env, t, n);
    }
  }

  // ---------------------------------------------------------------- what is asked of the connection

  /** `part` stands in `value` from `i` on, between commas or the ends. */
  ghost predicate PartAt(value: string, part: string, i: nat) {
    && i + |part| <= |value| && value[i..i + |part|] == part && ',' !in part
    && (i == 0 || value[i - 1] == ',') && (i + |part| == |value| || value[i + |part|] == ',')
  }

  ghost predicate HasPart(value: string, part: string) {
    exists i: nat :: PartAt(value, part, i)
  }

  lemma {:induction false} PartsAre(s: string, part: string)
    ensures part in Parts(s) <==> HasPart(s, part)
    decreases |s|
  {
    if ',' !in s {
      OnePart(s, part);
    } else {
      UpToIs(s, ',');
      var first := UpTo(s, ',');
      var more := s[|first| + 1..];
      PartsOf(s, part);
      PartsAre(more, part);
      hide Parts, UpTo, HasPart;
      PartsStep(s, first, part);
    }
  }

  lemma OnePart(s: string, part: string)
    requires ',' !in s
    ensures HasPart(s, part) <==> part == s
  {
    if part == s {
      assert PartAt(s, part, 0);
    }
    assert forall k :: 0 <= k < |s| ==> s[k] in s;
  }

  lemma PartsStep(s: string, first: string, part: string)
    requires first < s && ',' !in first && s[|first|] == ','
    ensures HasPart(s, part) <==> part == first || HasPart(s[|first| + 1..], part)
  {
    var n := |first| + 1;
    var more := s[n..];
    if part == first {
      assert PartAt(s, part, 0);
    }
    if HasPart(more, part) {
      var i: nat :| PartAt(more, part, i);
      assert more[i..i + |part|] == s[n + i..n + i + |part|];
      assert PartAt(s, part, n + i);
    }
    if HasPart(s, part) {
      var i: nat :| PartAt(s, part, i);
      PartBehind(s, first, part, i);
    }
  }

  lemma PartsOf(s: string, part: string)
    requires ',' in s && |UpTo(s, ',')| < |s|
    ensures part in Parts(s) <==> part == UpTo(s, ',') || part in Parts(s[|UpTo(s, ',')| + 1..])
  {
    var parts := [UpTo(s, ',')] + Parts(s[|UpTo(s, ',')| + 1..]);
    assert Parts(s) == parts;
    hide Parts, UpTo;
  }

  /** A part is the first, or stands behind the first comma. */
  lemma PartBehind(s: string, first: string, part: string, i: nat)
    requires first < s && ',' !in first && s[|first|] == ',' && PartAt(s, part, i)
    ensures part == first || (i >= |first| + 1 && PartAt(s[|first| + 1..], part, i - |first| - 1))
  {
    var n := |first| + 1;
    assert forall k :: 0 <= k < |first| ==> s[k] == first[k] != ',';
    assert forall k :: 0 <= k < |part| ==> s[i + k] == part[k] != ',';
    if i >= n {
      assert s[n..][i - n..i - n + |part|] == s[i..i + |part|];
    } else {
      assert i == 0;
      assert |part| == |first|;
    }
  }

  /** A field `connection` has this word as a part. */
  ghost predicate AsksFor(env: Env, headers: seq<Header>, word: string) {
    exists i: nat, part, t :: AskedAt(env, headers, word, i, part, t)
  }

  ghost predicate AskedAt(env: Env, headers: seq<Header>, word: string, i: nat, part: string, t: string) {
    && i < |headers| && Called(headers[i].0, "connection")
    && HasPart(headers[i].1, part) && Around(part, t, env.white) && Called(t, word)
  }

  lemma {:induction false} NamedHas(headers: seq<Header>, word: string, value: string)
    ensures value in Named(headers, word) <==> exists i :: 0 <= i < |headers| && Called(headers[i].0, word) && headers[i].1 == value
  {
    if headers != [] {
      var more := headers[1..];
      CalledIs(headers[0].0, word);
      NamedHas(more, word, value);
      hide Called, SameWord;
      if i :| 0 <= i < |headers| && Called(headers[i].0, word) && headers[i].1 == value {
        assert i > 0 ==> headers[i] == more[i - 1];
      }
      if i :| 0 <= i < |more| && Called(more[i].0, word) && more[i].1 == value {
        assert headers[i + 1] == more[i];
      }
    }
  }

  lemma AsksIs(env: Env, head: Head, word: string)
    ensures Asks(env, head, word) <==> AsksFor(env, head.headers, word)
  {
    hide Called, Named, SameWord, Parts, Trim, Around;
    var values := Named(head.headers, "connection");
    if Asks(env, head, word) {
      var a, b :| 0 <= a < |values| && 0 <= b < |Parts(values[a])| && SameWord(Trim(Parts(values[a])[b], env.white), word);
      var part := Parts(values[a])[b];
      AskedIsAsked(env, head, word, values[a], part);
    }
    if AsksFor(env, head.headers, word) {
      var i: nat, part, t :| AskedAt(env, head.headers, word, i, part, t);
      var value := head.headers[i].1;
      NamedHas(head.headers, "connection", value);
      PartsAre(value, part);
      TrimExactly(part, t, env.white);
      CalledIs(t, word);
      var a :| 0 <= a < |values| && values[a] == value;
      var b :| 0 <= b < |Parts(value)| && Parts(value)[b] == part;
    }
  }

  lemma AskedIsAsked(env: Env, head: Head, word: string, value: string, part: string)
    requires value in Named(head.headers, "connection") && part in Parts(value) && SameWord(Trim(part, env.white), word)
    ensures AsksFor(env, head.headers, word)
  {
    hide Called, Named, SameWord, Parts, Trim, Around;
    var t := Trim(part, env.white);
    NamedHas(head.headers, "connection", value);
    PartsAre(value, part);
    TrimExactly(part, t, env.white);
    CalledIs(t, word);
    var i :| 0 <= i < |head.headers| && Called(head.headers[i].0, "connection") && head.headers[i].1 == value;
    assert AskedAt(env, head.headers, word, i, part, t);
  }

  /**
    A request that is read has the method, the target and the fields of its head; it
    asks to close exactly if it is of HTTP/1.0 and no field asks to keep it, or of a later
    version and a field asks to close it.
   */
  lemma RequestIsOfItsHead(env: Env, head: Head, s: Bytes)
    requires AfterHeadOf(env, head, s).Ok?
    ensures var r := AfterHeadOf(env, head, s).value;
            && r.verb == head.verb && r.target == head.target && r.headers == head.headers && r.http10 == (head.minor == 0)
            && (r.close <==> if head.minor == 0 then !AsksFor(env, head.headers, "keep-alive") else AsksFor(env, head.headers, "close"))
  {
    AsksIs(env, head, "keep-alive");
    AsksIs(env, head, "close");
    hide Asks, AsksFor, Checked;
  }

  // ---------------------------------------------------------------- the head on the wire

  /** The bytes that can stand in a method: those of section 5.6.2 of RFC 9110, printable and no delimiters. */
  lemma TokensAre(b: Byte)
    ensures IsToken(b) <==> 33 <= b <= 126 && (b as char) !in "\"(),/:;<=>?@[\\]{}"
  {
  }

  /** The first `n` bytes end with an empty line, behind a line that LF ends. */
  predicate BlankLineEnds(h: Bytes, n: nat)
    requires n <= |h|
  {
    n >= 2 && h[n - 1] == LF && (h[n - 2] == LF || (n >= 3 && h[n - 2] == CR && h[n - 3] == LF))
  }

  /** A head ends with its first empty line. */
  ghost predicate EndsHead(h: Bytes) {
    BlankLineEnds(h, |h|) && forall n :: 0 <= n < |h| ==> !BlankLineEnds(h, n)
  }

  lemma EndIsEmptyLine(h: Bytes, n: nat)
    requires n <= |h|
    ensures BlankLineEnds(h, n) <==> (n >= 2 && EmptyLine(h, n - 2) == 2) || (n >= 3 && EmptyLine(h, n - 3) == 3)
  {
  }

  lemma EndsHeadIs(h: Bytes)
    ensures EndsHead(h) <==> HeadEnd(h, 0) == Some(|h|)
  {
    HeadEndIsFirst(h, 0);
    hide HeadEnd;
    if HeadEnd(h, 0).Some? {
      var j :| 0 <= j < |h| && EmptyLine(h, j) > 0 && HeadEnd(h, 0).value == j + EmptyLine(h, j) <= |h|
               && forall k :: 0 <= k < j ==> EmptyLine(h, k) == 0;
      var e := j + EmptyLine(h, j);
      assert BlankLineEnds(h, e);
      forall n | 0 <= n < e
        ensures !BlankLineEnds(h, n)
      {
        EndIsEmptyLine(h, n);
        assert n >= 2 && n - 2 < j ==> EmptyLine(h, n - 2) == 0;
        assert n >= 3 && n - 3 < j ==> EmptyLine(h, n - 3) == 0;
      }
    } else {
      EndIsEmptyLine(h, |h|);
    }
  }

  /** A method of at most `METHOD_MAX` bytes and a space. */
  ghost predicate MethodAt(h: Bytes, n: nat) {
    1 <= n <= METHOD_MAX && n < |h| && h[n] == SPACE && forall i :: 0 <= i < n ==> IsToken(h[i])
  }

  ghost predicate BeginsWithMethod(h: Bytes) {
    exists n: nat :: MethodAt(h, n)
  }

  lemma MethodIsNoMethod(h: Bytes, n: nat)
    requires MethodAt(h, n)
    ensures !NoMethod(h)
  {
    assert !IsToken(SPACE);
    var begins := Beginning(h);
    assert forall i :: 0 <= i < n ==> begins[i] == h[i];
    UpToOf(begins[..n], begins[n..], SPACE);
    assert begins[..n] + begins[n..] == begins;
  }

  /** Bytes are refused for their beginning as soon as no method can come of them, and no sooner. */
  lemma NoMethodExactly(s: Bytes)
    ensures NoMethod(s) <==> forall x :: !BeginsWithMethod(s + x)
  {
    if NoMethod(s) {
      forall x
        ensures !BeginsWithMethod(s + x)
      {
        NoMethodStays(s, x);
        if n: nat :| MethodAt(s + x, n) {
          MethodIsNoMethod(s + x, n);
        }
      }
    } else {
      var x := MethodCanCome(s);
      assert BeginsWithMethod(s + x);
    }
  }

  lemma MethodCanCome(s: Bytes) returns (x: Bytes)
    requires !NoMethod(s)
    ensures BeginsWithMethod(s + x)
    ensures |s| > METHOD_MAX || SPACE in s ==> x == []
  {
    var begins := Beginning(s);
    var name := UpTo(begins, SPACE);
    UpToIs(begins, SPACE);
    hide UpTo;
    assert forall i :: 0 <= i < |name| ==> name[i] == s[i] && IsToken(s[i]);
    if |name| < |begins| {
      x := [];
      assert s + x == s;
      assert MethodAt(s, |name|);
    } else {
      assert begins == s == name;
      x := if s == [] then [65, SPACE] else [SPACE];
      assert MethodAt(s + x, if s == [] then 1 else |s|);
    }
  }

  /** CR and LF occur only as pairs. */
  ghost predicate EvenLines(h: Bytes) {
    forall i :: 0 <= i < |h| ==> EvenAt(h, i)
  }

  predicate EvenAt(h: Bytes, i: nat)
    requires i < |h|
  {
    (h[i] == LF ==> i > 0 && h[i - 1] == CR) && (h[i] == CR ==> i + 1 < |h| && h[i + 1] == LF)
  }

  /** Bytes that are a whole head, and what the parser makes of them. */
  ghost predicate IsHead(env: Env, h: Bytes, head: Head) {
    EndsHead(h) && BeginsWithMethod(h) && |h| <= HEAD_MAX && EvenLines(h) && env.parse(h) == Complete(head)
  }

  lemma LoneIs(h: Bytes)
    ensures EvenLines(h) <==> forall i :: 0 <= i < |h| ==> !LoneEnd(h, i)
  {
    assert forall i :: 0 <= i < |h| ==> (EvenAt(h, i) <==> !LoneEnd(h, i));
  }

  /** A head of which nothing is behind it. */
  lemma BareHeadIs(env: Env, h: Bytes, head: Head)
    requires IsHead(env, h, head)
    ensures BareHeadOf(env, h) == Ok(head, [])
  {
    EndsHeadIs(h);
    var n: nat :| MethodAt(h, n);
    MethodIsNoMethod(h, n);
    LoneIs(h);
    assert h[..|h|] == h;
    hide NoMethod, HeadEnd, LoneEnd, EndsHead, BeginsWithMethod, EvenLines;
  }

  /**
    Bytes are read as a head with `rest` behind it exactly if they are, behind one CRLF or none, a
    method, a space and lines ended by CRLF up to the first empty one, within the limit, and `rest`.
   */
  lemma HeadExactly(env: Env, s: Bytes, head: Head, rest: Bytes)
    ensures HeadOf(env, s) == Ok(head, rest) <==>
            exists h :: IsHead(env, h, head) && (s == h + rest || s == CRLF + h + rest)
  {
    if HeadOf(env, s) == Ok(head, rest) {
      var h := HeadAccepted(env, SkipOf(s).rest, head, rest);
      assert s == h + rest || s == CRLF + h + rest by { Skipped(s); }
    }
    forall h | IsHead(env, h, head) && (s == h + rest || s == CRLF + h + rest)
      ensures HeadOf(env, s) == Ok(head, rest)
    {
      HeadIsRead(env, h, head, rest);
    }
  }

  lemma Skipped(s: Bytes)
    requires SkipOf(s).Ok?
    ensures s == SkipOf(s).rest || s == CRLF + SkipOf(s).rest
  {
  }

  lemma HeadIsRead(env: Env, h: Bytes, head: Head, rest: Bytes)
    requires IsHead(env, h, head)
    ensures HeadOf(env, h + rest) == Ok(head, rest) && HeadOf(env, CRLF + h + rest) == Ok(head, rest)
  {
    FirstIsToken(h);
    hide BareHeadOf, IsHead, SkipOf;
    BareHeadIs(env, h, head);
    BareHeadIsSettled(env, h, rest);
    assert [] + rest == rest;
    SkipsNothing(h + rest);
    SkipsOne(h + rest);
    assert CRLF + h + rest == CRLF + (h + rest);
  }

  lemma SkipsNothing(s: Bytes)
    requires s != [] && s[0] != CR
    ensures SkipOf(s) == Ok((), s)
  {
  }

  lemma SkipsOne(s: Bytes)
    ensures SkipOf(CRLF + s) == Ok((), s)
  {
    assert (CRLF + s)[2..] == s;
  }

  lemma FirstIsToken(h: Bytes)
    requires BeginsWithMethod(h)
    ensures |h| > 1 && h[0] != CR
  {
    assert !IsToken(CR);
    var n: nat :| MethodAt(h, n);
  }

  lemma HeadAccepted(env: Env, bare: Bytes, head: Head, rest: Bytes) returns (h: Bytes)
    requires BareHeadOf(env, bare) == Ok(head, rest)
    ensures IsHead(env, h, head) && bare == h + rest
  {
    HeadEndIsFirst(bare, 0);
    var n := HeadEnd(bare, 0).value;
    h := bare[..n];
    assert bare == h + bare[n..];
    LoneIs(h);
    FrontEnds(bare, n);
    EndsHeadIs(h);
    hide HeadEnd, LoneEnd, EndsHead, EvenLines;
    if NoMethod(h) {
      NoMethodStays(h, bare[n..]);
    }
    BeginsThere(h);
  }

  lemma FrontEnds(bare: Bytes, n: nat)
    requires HeadEnd(bare, 0) == Some(n) && n <= |bare|
    ensures HeadEnd(bare[..n], 0) == Some(n)
  {
    var h, x := bare[..n], bare[n..];
    assert h + x == bare;
    if HeadEnd(h, 0).Some? {
      HeadEndStays(h, x, 0);
    } else {
      HeadEndBehind(h, x);
    }
  }

  lemma BeginsThere(h: Bytes)
    requires !NoMethod(h) && HeadEnd(h, 0).Some?
    ensures BeginsWithMethod(h)
  {
    if |h| <= METHOD_MAX {
      SpaceBeforeEnd(h);
    }
    var x := MethodCanCome(h);
    assert h + [] == h;
  }

  /** Behind a head a request is what the head and the bytes behind it make of it, with one CRLF in front or none. */
  lemma RequestBehindHead(env: Env, h: Bytes, head: Head, s: Bytes)
    requires IsHead(env, h, head)
    ensures RequestOf(env, h + s) == AfterHeadOf(env, head, s) && RequestOf(env, CRLF + h + s) == AfterHeadOf(env, head, s)
  {
    hide IsHead, HeadOf, AfterHeadOf;
    HeadIsRead(env, h, head, s);
  }

  /** And every request that is read stands behind such a head. */
  lemma RequestHasHead(env: Env, s: Bytes) returns (h: Bytes, head: Head, behind: Bytes)
    requires RequestOf(env, s).Ok?
    ensures IsHead(env, h, head) && (s == h + behind || s == CRLF + h + behind) && RequestOf(env, s) == AfterHeadOf(env, head, behind)
  {
    hide IsHead, HeadOf, AfterHeadOf;
    head, behind := HeadOf(env, s).value, HeadOf(env, s).rest;
    HeadExactly(env, s, head, behind);
    h :| IsHead(env, h, head) && (s == h + behind || s == CRLF + h + behind);
  }

  // ---------------------------------------------------------------- heads that are refused

  /** The bytes without the CRLF that may be in front of a head, if it is certain whether one is. */
  ghost predicate Bare(s: Bytes, bare: Bytes) {
    s == CRLF + bare || (s == bare && s != [] && (s[0] == CR ==> |s| > 1 && s[1] != LF))
  }

  lemma BareIs(s: Bytes, bare: Bytes)
    requires Bare(s, bare)
    ensures SkipOf(s) == Ok((), bare)
  {
    if s == CRLF + bare {
      SkipsOne(bare);
    }
  }

  /**
    What becomes of bytes that are no head: refused as soon as no method can come of them; refused
    for their first head, as malformed, as too long or for its line ends; refused for their length
    while no head has ended; and otherwise undecided.
   */
  lemma HeadDecision(env: Env, s: Bytes, bare: Bytes)
    requires Bare(s, bare)
    ensures (forall x :: !BeginsWithMethod(bare + x)) ==> HeadOf(env, s) == Refused(BAD, bare)
    ensures (exists x :: BeginsWithMethod(bare + x)) && (forall h :: EndsHead(h) ==> !(h <= bare)) ==>
              HeadOf(env, s) == if |bare| >= HEAD_MAX then Refused(HEAD_TOO_LARGE, bare) else End
    ensures forall h :: (exists x :: BeginsWithMethod(bare + x)) && EndsHead(h) && h <= bare ==>
              match env.parse(h)
              case TooManyHeaders => HeadOf(env, s) == Refused(HEAD_TOO_LARGE, bare)
              case Malformed => HeadOf(env, s) == Refused(BAD, bare)
              case Complete(head) =>
                HeadOf(env, s) == if |h| > HEAD_MAX then Refused(HEAD_TOO_LARGE, bare)
                                  else if !EvenLines(h) then Refused(BAD, bare) else Ok(head, bare[|h|..])
  {
    BareIs(s, bare);
    NoMethodExactly(bare);
    hide SkipOf, NoMethod, BeginsWithMethod, EndsHead, EvenLines, WholeHead, HeadEnd, Bare;
    if HeadEnd(bare, 0).Some? {
      HeadEndIsFirst(bare, 0);
      FrontEnds(bare, HeadEnd(bare, 0).value);
      EndsHeadIs(bare[..HeadEnd(bare, 0).value]);
    }
    forall h | EndsHead(h) && h <= bare
      ensures HeadEnd(bare, 0) == Some(|h|) && bare[..|h|] == h
    {
      FirstHead(h, bare);
    }
    forall h | EndsHead(h) && h <= bare
      ensures WholeHead(env, bare, |h|) ==
              match env.parse(h)
              case TooManyHeaders => Refused(HEAD_TOO_LARGE, bare)
              case Malformed => Refused(BAD, bare)
              case Complete(head) =>
                if |h| > HEAD_MAX then Refused(HEAD_TOO_LARGE, bare) else if !EvenLines(h) then Refused(BAD, bare) else Ok(head, bare[|h|..])
    {
      WholeHeadIs(env, h, bare);
    }
  }

  lemma FirstHead(h: Bytes, bare: Bytes)
    requires EndsHead(h) && h <= bare
    ensures HeadEnd(bare, 0) == Some(|h|) && bare[..|h|] == h
  {
    EndsHeadIs(h);
    assert h + bare[|h|..] == bare;
    HeadEndStays(h, bare[|h|..], 0);
  }

  lemma WholeHeadIs(env: Env, h: Bytes, bare: Bytes)
    requires h <= bare
    ensures WholeHead(env, bare, |h|) ==
            match env.parse(h)
            case TooManyHeaders => Refused(HEAD_TOO_LARGE, bare)
            case Malformed => Refused(BAD, bare)
            case Complete(head) =>
              if |h| > HEAD_MAX then Refused(HEAD_TOO_LARGE, bare) else if !EvenLines(h) then Refused(BAD, bare) else Ok(head, bare[|h|..])
  {
    assert bare[..|h|] == h;
    LoneIs(h);
    hide EvenLines, LoneEnd;
  }
}
