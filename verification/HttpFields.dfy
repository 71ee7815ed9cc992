/**
  What a client reads of a response, field by field: the headers that were given, in order and one for
  one, and what the server says of its own.
 */
module HttpFields {
  import opened Basics
  import opened Reading
  import opened HttpHead
  import opened HttpChunks
  import opened HttpResponse

  // ---------------------------------------------------------------- names and values

  /** The same byte, or the two cases of one letter. */
  predicate Alike(a: Byte, b: Byte) {
    a == b || (65 <= a <= 90 && b == a + 32) || (65 <= b <= 90 && a == b + 32)
  }

  predicate Called(name: Bytes, word: string) {
    |name| == |word| && forall i :: 0 <= i < |name| ==> word[i] as int < 128 && Alike(name[i], word[i] as int)
  }

  /** A name that is the server's to give a value. */
  predicate ServerName(name: Bytes) {
    Called(name, "content-length") || Called(name, "transfer-encoding") || Called(name, "connection") || Called(name, "date")
  }

  /** A field that can stand in a line: its name is a token, and its value has no control character but tabs. */
  predicate CanStand(f: Field) {
    && f.0 != [] && (forall i :: 0 <= i < |f.0| ==> IsToken(f.0[i]))
    && forall i :: 0 <= i < |f.1| ==> f.1[i] == 9 || (f.1[i] >= 32 && f.1[i] != 127)
  }

  function Blanks(): Byte -> bool {
    b => b == 32 || b == 9
  }

  predicate Ascii7(word: string) {
    forall i :: 0 <= i < |word| ==> word[i] as int < 128
  }

  lemma CalledIs(name: Bytes, word: string)
    requires Ascii7(word)
    ensures SameName(name, Ascii(word)) <==> Called(name, word)
  {
    assert forall i :: 0 <= i < |name| == |word| ==>
             (LowerByte(name[i]) == LowerByte(Ascii(word)[i]) <==> Alike(name[i], word[i] as int));
  }

  lemma OwnIs(name: Bytes)
    ensures IsOwn(name) <==> ServerName(name)
  {
    hide Called, SameName, Ascii;
    CalledIs(name, "content-length");
    CalledIs(name, "transfer-encoding");
    CalledIs(name, "connection");
    CalledIs(name, "date");
  }

  lemma KeptIs(f: Field)
    ensures IsKept(f) <==> CanStand(f) && !ServerName(f.0)
  {
    OwnIs(f.0);
    hide IsOwn, ServerName, IsToken;
    assert Plain(f.1) <==> forall i :: 0 <= i < |f.1| ==> f.1[i] == 9 || (f.1[i] >= 32 && f.1[i] != 127) by { PlainIs(f.1); }
  }

  lemma PlainIs(s: Bytes)
    ensures Plain(s) <==> forall i :: 0 <= i < |s| ==> s[i] == 9 || (s[i] >= 32 && s[i] != 127)
  {
    assert forall i :: 0 <= i < |s| ==> (!IsControl(s[i]) <==> s[i] == 9 || (s[i] >= 32 && s[i] != 127));
  }

  lemma {:induction false} TrimStartIs(s: Bytes) returns (i: nat)
    ensures i <= |s| && TrimStart(s) == s[i..] && (i < |s| ==> !IsBlank(s[i])) && forall k :: 0 <= k < i ==> IsBlank(s[k])
  {
    if s != [] && IsBlank(s[0]) {
      var j := TrimStartIs(s[1..]);
      i := j + 1;
      assert s[1..][j..] == s[i..];
      forall k | 0 <= k < i
        ensures IsBlank(s[k])
      {
        assert k > 0 ==> s[k] == s[1..][k - 1];
      }
    } else {
      i := 0;
      assert s[0..] == s;
    }
  }

  lemma {:induction false} TrimEndIs(s: Bytes)
    ensures var t := TrimEnd(s);
            && t <= s && (t != [] ==> !IsBlank(s[|t| - 1])) && forall k :: |t| <= k < |s| ==> IsBlank(s[k])
  {
    if s != [] && IsBlank(s[|s| - 1]) {
      TrimEndIs(s[..|s| - 1]);
    }
  }

  /** A client takes away exactly the blanks around a value. */
  lemma TrimBlanksStands(s: Bytes)
    ensures Around(s, TrimBlanks(s), Blanks())
  {
    var i := TrimStartIs(s);
    var a, t := s[i..], TrimBlanks(s);
    TrimEndIs(a);
    hide TrimStart, TrimEnd;
    forall k | i + |t| <= k < |s|
      ensures IsBlank(s[k])
    {
      assert a[k - i] == s[k];
    }
    assert s[i..i + |t|] == a[..|t|] == t;
    assert t != [] ==> s[i] == t[0] && s[i + |t| - 1] == a[|t| - 1];
    assert Stands(s, t, i, Blanks());
  }

  // ---------------------------------------------------------------- the headers that were given

  /**
    `read` are fields of `given`, the `k`th that at `at[k]`, with the blanks around their values taken
    away: in order, and of all that can stand in a line and are not the server's, and of no others.
   */
  ghost predicate PassedOn(given: seq<Field>, read: seq<Field>, at: seq<nat>) {
    && |at| == |read|
    && (forall j, k :: 0 <= j < k < |at| ==> at[j] < at[k])
    && (forall k :: 0 <= k < |at| ==> at[k] < |given| && SameField(given[at[k]], read[k]))
    && (forall i: nat :: i in at <==> i < |given| && CanStand(given[i]) && !ServerName(given[i].0))
  }

  ghost predicate SameField(given: Field, read: Field) {
    read.0 == given.0 && Around(given.1, read.1, Blanks())
  }

  lemma {:induction false} KeptPassOn(given: seq<Field>) returns (at: seq<nat>)
    ensures PassedOn(given, Trimmed(Kept(given)), at)
    decreases |given|
  {
    if given == [] {
      at := [];
    } else {
      var init, last := given[..|given| - 1], given[|given| - 1];
      KeptSnoc(given);
      hide *;
      var before := KeptPassOn(init);
      KeptIs(last);
      TrimBlanksStands(last.1);
      if IsKept(last) {
        at := before + [|init|];
        OneMorePassed(given, Trimmed(Kept(init)), before, (last.0, TrimBlanks(last.1)));
      } else {
        at := before;
        NoneMorePassed(given, Trimmed(Kept(init)), before);
      }
    }
  }

  lemma KeptSnoc(given: seq<Field>)
    requires given != []
    ensures var init, last := given[..|given| - 1], given[|given| - 1];
            Trimmed(Kept(given)) ==
              if IsKept(last) then Trimmed(Kept(init)) + [(last.0, TrimBlanks(last.1))] else Trimmed(Kept(init))
  {
    hide IsKept, TrimBlanks;
  }

  lemma OneMorePassed(given: seq<Field>, read: seq<Field>, at: seq<nat>, f: Field)
    requires given != [] && PassedOn(given[..|given| - 1], read, at)
    requires f.0 == given[|given| - 1].0 && Around(given[|given| - 1].1, f.1, Blanks())
    requires CanStand(given[|given| - 1]) && !ServerName(given[|given| - 1].0)
    ensures PassedOn(given, read + [f], at + [|given| - 1])
  {
    var init, more := given[..|given| - 1], at + [|given| - 1];
    hide CanStand, ServerName, Around;
    forall i: nat
      ensures i in more <==> i < |given| && CanStand(given[i]) && !ServerName(given[i].0)
    {
      assert i in more <==> i in at || i == |given| - 1;
      assert i < |init| ==> init[i] == given[i];
    }
  }

  lemma NoneMorePassed(given: seq<Field>, read: seq<Field>, at: seq<nat>)
    requires given != [] && PassedOn(given[..|given| - 1], read, at)
    requires !CanStand(given[|given| - 1]) || ServerName(given[|given| - 1].0)
    ensures PassedOn(given, read, at)
  {
    var init := given[..|given| - 1];
    hide CanStand, ServerName, Around;
    assert forall i :: 0 <= i < |init| ==> init[i] == given[i];
  }

  // ---------------------------------------------------------------- what the server says

  ghost predicate NoField(fields: seq<Field>, word: string) {
    forall i :: 0 <= i < |fields| ==> !Called(fields[i].0, word)
  }

  /** One field has this name, and this value. */
  ghost predicate OneField(fields: seq<Field>, word: string, value: Bytes) {
    exists i: nat :: OneAt(fields, word, value, i)
  }

  ghost predicate OneAt(fields: seq<Field>, word: string, value: Bytes, i: nat) {
    && i < |fields| && Called(fields[i].0, word) && fields[i].1 == value
    && forall j :: 0 <= j < |fields| && j != i ==> !Called(fields[j].0, word)
  }

  lemma AmongOthers(front: seq<Field>, mid: seq<Field>, back: seq<Field>, word: string)
    requires NoField(front, word) && NoField(back, word) && |mid| <= 1
    ensures NoField(mid, word) ==> NoField(front + mid + back, word)
    ensures mid != [] && Called(mid[0].0, word) ==> OneField(front + mid + back, word, mid[0].1)
  {
    hide Called;
    var all := front + mid + back;
    forall i | 0 <= i < |all| && (mid == [] || i != |front| || !Called(mid[0].0, word))
      ensures !Called(all[i].0, word)
    {
      if i < |front| {
        assert all[i] == front[i];
      } else if i >= |front| + |mid| {
        assert all[i] == back[i - |front| - |mid|];
      }
    }
    if mid != [] && Called(mid[0].0, word) {
      assert all[|front|] == mid[0];
      assert OneAt(all, word, mid[0].1, |front|);
    }
  }

  /** Fields whose names are of another length have not this name. */
  lemma OtherLength(fields: seq<Field>, n: nat, word: string)
    requires |word| != n && forall i :: 0 <= i < |fields| ==> |fields[i].0| == n
    ensures NoField(fields, word)
  {
  }

  lemma NoFieldAppend(a: seq<Field>, b: seq<Field>, word: string)
    ensures NoField(a + b, word) <==> NoField(a, word) && NoField(b, word)
  {
    hide Called;
    if NoField(a + b, word) {
      assert forall i :: 0 <= i < |a| ==> a[i] == (a + b)[i];
      assert forall i :: 0 <= i < |b| ==> b[i] == (a + b)[|a| + i];
    }
  }

  lemma Names()
    ensures Called(Ascii("Date"), "date") && Called(Ascii("Content-Length"), "content-length") && Called(Ascii("Connection"), "connection")
    ensures |Ascii("Date")| == 4 && |Ascii("Content-Length")| == 14 && |Ascii("Connection")| == 10
  {
    WordsAlike("Date", "date");
    WordsAlike("Content-Length", "content-length");
    WordsAlike("Connection", "connection");
    hide Called, Ascii;
  }

  lemma WordsAlike(a: string, b: string)
    requires |a| == |b| && Ascii7(a) && Ascii7(b) && forall i :: 0 <= i < |a| ==> Alike(a[i] as int, b[i] as int)
    ensures Called(Ascii(a), b) && |Ascii(a)| == |a|
  {
    assert forall i :: 0 <= i < |a| ==> Ascii(a)[i] == a[i] as int;
  }

  lemma PassedOnAreNotOwn(given: seq<Field>, read: seq<Field>, at: seq<nat>, word: string)
    requires PassedOn(given, read, at) && word in ["content-length", "transfer-encoding", "connection", "date"]
    ensures NoField(read, word)
  {
    forall k | 0 <= k < |read|
      ensures !Called(read[k].0, word)
    {
      assert at[k] in at;
      assert !ServerName(given[at[k]].0);
    }
  }

  /** What the server says of the date, the length and the connection. */
  ghost predicate ServerSays(fields: seq<Field>, status: nat, body: Bytes, how: Sending) {
    && (if how.date == [] then NoField(fields, "date") else exists v :: OneField(fields, "date", v) && Around(how.date, v, Blanks()))
    && (if Bodiless(status) then NoField(fields, "content-length")
        else exists v :: OneField(fields, "content-length", v) && ReadNumber(v) == Some(|body|))
    && NoField(fields, "transfer-encoding")
    && (if how.close then exists v :: OneField(fields, "connection", v) && Called(v, "close")
        else if how.keepAlive then exists v :: OneField(fields, "connection", v) && Called(v, "keep-alive")
        else NoField(fields, "connection"))
  }

  /** The statuses without content, by section 6.4.1 of RFC 9110. */
  predicate Bodiless(status: nat) {
    status / 100 == 1 || status in {204, 304}
  }

  lemma DateSays(read: seq<Field>, d: seq<Field>, l: seq<Field>, c: seq<Field>, how: Sending)
    requires NoField(read, "date") && d == Trimmed(DateFields(how))
    requires (forall i :: 0 <= i < |l| ==> |l[i].0| == 14) && (forall i :: 0 <= i < |c| ==> |c[i].0| == 10)
    ensures if how.date == [] then NoField(read + d + (l + c), "date")
            else exists v :: OneField(read + d + (l + c), "date", v) && Around(how.date, v, Blanks())
  {
    Names();
    OtherLength(l, 14, "date");
    OtherLength(c, 10, "date");
    hide Called, Ascii, TrimBlanks;
    NoFieldAppend(l, c, "date");
    AmongOthers(read, d, l + c, "date");
    TrimBlanksStands(how.date);
  }

  lemma LengthSays(read: seq<Field>, d: seq<Field>, l: seq<Field>, c: seq<Field>, status: nat, body: Bytes)
    requires NoField(read, "content-length") && l == Trimmed(LengthFields(status, body))
    requires (forall i :: 0 <= i < |d| ==> |d[i].0| == 4) && (forall i :: 0 <= i < |c| ==> |c[i].0| == 10)
    ensures if Bodiless(status) then NoField(read + d + l + c, "content-length")
            else exists v :: OneField(read + d + l + c, "content-length", v) && ReadNumber(v) == Some(|body|)
  {
    Names();
    OtherLength(d, 4, "content-length");
    OtherLength(c, 10, "content-length");
    TrimmedDigits(|body|);
    DigitsAreRead(|body|);
    hide Called, Ascii, TrimBlanks, Digits, ReadNumber;
    NoFieldAppend(read, d, "content-length");
    AmongOthers(read + d, l, c, "content-length");
  }

  lemma ConnectionSays(read: seq<Field>, d: seq<Field>, l: seq<Field>, c: seq<Field>, how: Sending)
    requires NoField(read, "connection") && c == Trimmed(ConnectionFields(how))
    requires (forall i :: 0 <= i < |d| ==> |d[i].0| == 4) && (forall i :: 0 <= i < |l| ==> |l[i].0| == 14)
    ensures if how.close then exists v :: OneField(read + d + l + c + [], "connection", v) && Called(v, "close")
            else if how.keepAlive then exists v :: OneField(read + d + l + c + [], "connection", v) && Called(v, "keep-alive")
            else NoField(read + d + l + c + [], "connection")
  {
    Names();
    ConnectionWords();
    OtherLength(d, 4, "connection");
    OtherLength(l, 14, "connection");
    hide Called, Ascii, TrimBlanks;
    NoFieldAppend(read, d, "connection");
    NoFieldAppend(read + d, l, "connection");
    AmongOthers(read + d + l, c, [], "connection");
  }

  lemma ConnectionWords()
    ensures Called(TrimBlanks(Ascii("close")), "close") && Called(TrimBlanks(Ascii("keep-alive")), "keep-alive")
  {
    NoBlanks("close");
    NoBlanks("keep-alive");
    WordsAlike("close", "close");
    WordsAlike("keep-alive", "keep-alive");
    hide Called, Ascii, TrimBlanks;
  }

  lemma NoBlanks(word: string)
    requires Ascii7(word) && word != [] && word[0] !in {' ', '\t'} && word[|word| - 1] !in {' ', '\t'}
    ensures TrimBlanks(Ascii(word)) == Ascii(word)
  {
    var s := Ascii(word);
    assert s[0] == word[0] as int && s[|s| - 1] == word[|word| - 1] as int;
    hide TrimBlanks, Ascii;
    TrimBlanksStands(s);
    StandsAlone(s);
    AroundIsOne(s, TrimBlanks(s), s, Blanks());
  }

  lemma StandsAlone(s: Bytes)
    requires s != [] && !Blanks()(s[0]) && !Blanks()(s[|s| - 1])
    ensures Around(s, s, Blanks())
  {
    assert s[0..|s|] == s;
    assert Stands(s, s, 0, Blanks());
  }

  lemma CodingIsNotSaid(read: seq<Field>, d: seq<Field>, l: seq<Field>, c: seq<Field>)
    requires NoField(read, "transfer-encoding")
    requires (forall i :: 0 <= i < |d| ==> |d[i].0| == 4) && (forall i :: 0 <= i < |l| ==> |l[i].0| == 14)
    requires forall i :: 0 <= i < |c| ==> |c[i].0| == 10
    ensures NoField(read + d + l + c, "transfer-encoding")
  {
    OtherLength(d, 4, "transfer-encoding");
    OtherLength(l, 14, "transfer-encoding");
    OtherLength(c, 10, "transfer-encoding");
    hide Called;
    NoFieldAppend(read, d, "transfer-encoding");
    NoFieldAppend(read + d, l, "transfer-encoding");
    NoFieldAppend(read + d + l, c, "transfer-encoding");
  }

  lemma ServerLengths(status: nat, body: Bytes, how: Sending)
    ensures forall i :: 0 <= i < |Trimmed(DateFields(how))| ==> |Trimmed(DateFields(how))[i].0| == 4
    ensures forall i :: 0 <= i < |Trimmed(LengthFields(status, body))| ==> |Trimmed(LengthFields(status, body))[i].0| == 14
    ensures forall i :: 0 <= i < |Trimmed(ConnectionFields(how))| ==> |Trimmed(ConnectionFields(how))[i].0| == 10
  {
    Names();
    hide Ascii, TrimBlanks, Digits;
  }

  lemma SaidByTheServer(given: seq<Field>, read: seq<Field>, at: seq<nat>, status: nat, body: Bytes, how: Sending)
    requires PassedOn(given, read, at)
    ensures ServerSays(read + Trimmed(OwnFields(status, body, how)), status, body, how)
  {
    var d, l, c := Trimmed(DateFields(how)), Trimmed(LengthFields(status, body)), Trimmed(ConnectionFields(how));
    PassedOnAreNotOwn(given, read, at, "date");
    PassedOnAreNotOwn(given, read, at, "content-length");
    PassedOnAreNotOwn(given, read, at, "connection");
    PassedOnAreNotOwn(given, read, at, "transfer-encoding");
    ServerLengths(status, body, how);
    hide NoField, OneField, Called, Trimmed, DateFields, LengthFields, ConnectionFields, Around, ReadNumber, PassedOn;
    DateSays(read, d, l, c, how);
    LengthSays(read, d, l, c, status, body);
    ConnectionSays(read, d, l, c, how);
    CodingIsNotSaid(read, d, l, c);
    OwnTrimmed(status, body, how);
    Regrouped(read, d, l, c);
  }

  lemma OwnTrimmed(status: nat, body: Bytes, how: Sending)
    ensures Trimmed(OwnFields(status, body, how)) ==
            Trimmed(DateFields(how)) + Trimmed(LengthFields(status, body)) + Trimmed(ConnectionFields(how))
  {
    hide DateFields, LengthFields, ConnectionFields, Trimmed;
    TrimmedAppend(DateFields(how) + LengthFields(status, body), ConnectionFields(how));
    TrimmedAppend(DateFields(how), LengthFields(status, body));
  }

  lemma Regrouped(a: seq<Field>, d: seq<Field>, l: seq<Field>, c: seq<Field>)
    ensures a + d + (l + c) == a + (d + l + c) && a + d + l + c == a + (d + l + c) && a + d + l + c + [] == a + (d + l + c)
  {
  }

  // ---------------------------------------------------------------- what is read of a response

  /**
    What a client reads of a response, whatever is sent behind it: the status; the body, unless the
    status has none or only the head was asked for; the headers given that can stand in a line and
    are not the server's, in order and one for one; and what the server says.
   */
  lemma ResponseSays(status: nat, phrase: Bytes, headers: seq<Field>, body: Bytes, how: Sending, x: Bytes)
    returns (answer: Answer, read: seq<Field>, at: seq<nat>)
    requires OneLine(how.date) && OneLine(phrase)
    ensures ReadAnswer(how.headOnly, Response(status, phrase, headers, body, how) + x) == Some((answer, x))
    ensures answer.status == status && answer.body == if Bodiless(status) || how.headOnly then [] else body
    ensures read <= answer.fields && PassedOn(headers, read, at)
    ensures forall i :: |read| <= i < |answer.fields| ==> ServerName(answer.fields[i].0)
    ensures ServerSays(answer.fields, status, body, how)
  {
    hide *;
    ResponseIsRead(status, phrase, headers, body, how, x);
    answer := Meant(status, headers, body, how);
    at := KeptPassOn(headers);
    read := Trimmed(Kept(headers));
    SaidByTheServer(headers, read, at, status, body, how);
    OwnNames(status, body, how);
    MeantIs(status, headers, body, how);
  }

  lemma MeantIs(status: nat, headers: seq<Field>, body: Bytes, how: Sending)
    ensures var answer := Meant(status, headers, body, how);
            && answer.status == status && answer.body == (if Bodiless(status) || how.headOnly then [] else body)
            && answer.fields == Trimmed(Kept(headers)) + Trimmed(OwnFields(status, body, how))
  {
    hide Kept, OwnFields, Trimmed, Fields;
    FieldsAre(status, headers, body, how);
    TrimmedAppend(Kept(headers), OwnFields(status, body, how));
  }

  lemma OwnNames(status: nat, body: Bytes, how: Sending)
    ensures forall i :: 0 <= i < |Trimmed(OwnFields(status, body, how))| ==> ServerName(Trimmed(OwnFields(status, body, how))[i].0)
  {
    Names();
    hide Called, Ascii, TrimBlanks, Digits;
  }
}
