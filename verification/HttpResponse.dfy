/**
  The bytes of a response, and the rules of section 6.3 of RFC 9112 by which a client finds
  where it ends: responses sent one after the other split back into what was answered.
 */
module HttpResponse {
  import opened Basics
  import opened Reading
  import opened HttpHead
  import opened HttpChunks

  const COLON: Byte := 58
  const ZERO: Byte := 48

  // ---------------------------------------------------------------- the response

  function Ascii(s: string): Bytes {
    seq(|s|, i requires 0 <= i < |s| => s[i] as int % 128)
  }

  /** The statuses for which content is written. */
  predicate HasBody(status: nat) {
    !(100 <= status <= 199 || status == 204 || status == 304)
  }

  /** A number as decimal digits. */
  function Digits(n: nat): Bytes {
    if n < 10 then [ZERO + n] else Digits(n / 10) + [ZERO + n % 10]
  }

  function LowerByte(b: Byte): Byte {
    if 65 <= b <= 90 then b + 32 else b
  }

  predicate SameName(a: Bytes, b: Bytes) {
    |a| == |b| && forall i :: 0 <= i < |a| ==> LowerByte(a[i]) == LowerByte(b[i])
  }

  predicate IsName(name: Bytes) {
    name != [] && forall i :: 0 <= i < |name| ==> IsToken(name[i])
  }

  function LengthName(): Bytes { Ascii("content-length") }
  function CodingName(): Bytes { Ascii("transfer-encoding") }

  /** The headers that are the server's to say. */
  predicate IsOwn(name: Bytes) {
    SameName(name, LengthName()) || SameName(name, CodingName()) ||
    SameName(name, Ascii("connection")) || SameName(name, Ascii("date"))
  }

  type Field = (Bytes, Bytes)

  predicate IsKept(f: Field) {
    IsName(f.0) && Plain(f.1) && !IsOwn(f.0)
  }

  function Kept(headers: seq<Field>): seq<Field> {
    if headers == [] then []
    else Kept(headers[..|headers| - 1]) + (if IsKept(headers[|headers| - 1]) then [headers[|headers| - 1]] else [])
  }

  datatype Sending = Sending(date: Bytes, close: bool, keepAlive: bool, headOnly: bool)

  function DateFields(how: Sending): seq<Field> {
    if how.date == [] then [] else [(Ascii("Date"), how.date)]
  }

  function LengthFields(status: nat, body: Bytes): seq<Field> {
    if HasBody(status) then [(Ascii("Content-Length"), Digits(|body|))] else []
  }

  function ConnectionFields(how: Sending): seq<Field> {
    if how.close then [(Ascii("Connection"), Ascii("close"))]
    else if how.keepAlive then [(Ascii("Connection"), Ascii("keep-alive"))]
    else []
  }

  /** The fields of the response's head, in order. */
  function Fields(status: nat, headers: seq<Field>, body: Bytes, how: Sending): seq<Field> {
    Kept(headers) + DateFields(how) + LengthFields(status, body) + ConnectionFields(how)
  }

  function FieldLine(f: Field): Bytes {
    f.0 + [COLON, SPACE] + f.1
  }

  function StatusLine(status: nat, phrase: Bytes): Bytes {
    Ascii("HTTP/1.1 ") + Digits(status) + [SPACE] + phrase
  }

  function LinesWire(fields: seq<Field>): Bytes {
    if fields == [] then [] else LinesWire(fields[..|fields| - 1]) + FieldLine(fields[|fields| - 1]) + CRLF
  }

  function BodySent(status: nat, body: Bytes, how: Sending): Bytes {
    if HasBody(status) && !how.headOnly then body else []
  }

  function HeadWire(status: nat, phrase: Bytes, fields: seq<Field>): Bytes {
    StatusLine(status, phrase) + CRLF + LinesWire(fields) + CRLF
  }

  function Response(status: nat, phrase: Bytes, headers: seq<Field>, body: Bytes, how: Sending): Bytes {
    HeadWire(status, phrase, Fields(status, headers, body, how)) + BodySent(status, body, how)
  }

  lemma LinesSnoc(fields: seq<Field>, f: Field)
    ensures LinesWire(fields + [f]) == LinesWire(fields) + FieldLine(f) + CRLF
  {
    assert (fields + [f])[..|fields|] == fields;
  }

  /** The response, written line by line; `phrase` is the text of its status. */
  method WriteResponse(status: nat, phrase: Bytes, headers: seq<Field>, body: Bytes, how: Sending) returns (out: Bytes)
    ensures out == Response(status, phrase, headers, body, how)
  {
    hide LinesWire, StatusLine, Digits, IsKept, FieldLine, Ascii;
    var start := StatusLine(status, phrase) + CRLF;
    var lines: Bytes := [];
    assert LinesWire([]) == [] by { EmptyLines(); }
    ghost var fields: seq<Field> := [];
    for i := 0 to |headers|
      invariant fields == Kept(headers[..i]) && lines == LinesWire(fields)
    {
      assert headers[..i + 1][..i] == headers[..i];
      if IsKept(headers[i]) {
        LinesSnoc(fields, headers[i]);
        fields := fields + [headers[i]];
        lines := lines + FieldLine(headers[i]) + CRLF;
      }
    }
    assert headers[..|headers|] == headers;
    if how.date != [] {
      LinesSnoc(fields, (Ascii("Date"), how.date));
      lines := lines + FieldLine((Ascii("Date"), how.date)) + CRLF;
    }
    assert fields + [] == fields;
    fields := fields + DateFields(how);
    if HasBody(status) {
      LinesSnoc(fields, (Ascii("Content-Length"), Digits(|body|)));
      lines := lines + FieldLine((Ascii("Content-Length"), Digits(|body|))) + CRLF;
    }
    assert fields + [] == fields;
    fields := fields + LengthFields(status, body);
    if how.close {
      LinesSnoc(fields, (Ascii("Connection"), Ascii("close")));
      lines := lines + FieldLine((Ascii("Connection"), Ascii("close"))) + CRLF;
    } else if how.keepAlive {
      LinesSnoc(fields, (Ascii("Connection"), Ascii("keep-alive")));
      lines := lines + FieldLine((Ascii("Connection"), Ascii("keep-alive"))) + CRLF;
    }
    assert fields + [] == fields;
    fields := fields + ConnectionFields(how);
    assert fields == Fields(status, headers, body, how);
    out := start + lines + CRLF;
    if HasBody(status) && !how.headOnly {
      out := out + body;
    } else {
      assert out + [] == out;
    }
  }

  lemma EmptyLines()
    ensures LinesWire([]) == []
  {
  }

  // ---------------------------------------------------------------- what a line of the head can hold

  /** Neither CR nor LF. */
  predicate OneLine(s: Bytes) {
    forall i :: 0 <= i < |s| ==> s[i] != CR && s[i] != LF
  }

  lemma {:induction false} DigitsAreDigits(n: nat)
    ensures Digits(n) != [] && forall i :: 0 <= i < |Digits(n)| ==> ZERO <= Digits(n)[i] <= ZERO + 9
  {
    if n >= 10 {
      DigitsAreDigits(n / 10);
    }
  }

  predicate Printable(s: string) {
    forall i :: 0 <= i < |s| ==> ' ' <= s[i] <= '~'
  }

  lemma AsciiIsOneLine(s: string)
    requires Printable(s)
    ensures OneLine(Ascii(s))
  {
    forall i | 0 <= i < |s|
      ensures Ascii(s)[i] != CR && Ascii(s)[i] != LF
    {
      assert ' ' <= s[i] <= '~';
    }
  }

  lemma StatusLineIsOneLine(status: nat, phrase: Bytes)
    requires OneLine(phrase)
    ensures OneLine(StatusLine(status, phrase)) && StatusLine(status, phrase) != []
  {
    AsciiIsOneLine("HTTP/1.1 ");
    DigitsAreDigits(status);
    hide Ascii, Digits;
  }

  /** A field that stands in a line of its own: its name without a colon, its value on one line. */
  predicate FieldFits(f: Field) {
    f.0 != [] && COLON !in f.0 && OneLine(f.0) && OneLine(f.1)
  }

  predicate FieldsFit(fields: seq<Field>) {
    forall i :: 0 <= i < |fields| ==> FieldFits(fields[i])
  }

  lemma KeptFits(f: Field)
    requires IsKept(f)
    ensures FieldFits(f)
  {
    forall i | 0 <= i < |f.0|
      ensures f.0[i] != COLON && f.0[i] != CR && f.0[i] != LF
    {
      assert IsToken(f.0[i]);
    }
    forall i | 0 <= i < |f.1|
      ensures f.1[i] != CR && f.1[i] != LF
    {
      assert !IsControl(f.1[i]);
    }
  }

  lemma {:induction false} AllKeptFit(headers: seq<Field>)
    ensures FieldsFit(Kept(headers))
  {
    if headers != [] {
      AllKeptFit(headers[..|headers| - 1]);
      if IsKept(headers[|headers| - 1]) {
        KeptFits(headers[|headers| - 1]);
      }
    }
  }

  predicate NoColon(s: string) {
    forall i :: 0 <= i < |s| ==> s[i] != ':'
  }

  lemma NameFits(name: string, value: Bytes)
    requires name != "" && Printable(name) && NoColon(name) && OneLine(value)
    ensures FieldFits((Ascii(name), value))
  {
    AsciiIsOneLine(name);
    forall i | 0 <= i < |name|
      ensures Ascii(name)[i] != COLON
    {
      assert name[i] != ':' && ' ' <= name[i] <= '~';
    }
  }

  lemma AllFit(status: nat, headers: seq<Field>, body: Bytes, how: Sending)
    requires OneLine(how.date)
    ensures FieldsFit(Fields(status, headers, body, how))
  {
    hide Kept, Ascii, Digits, FieldFits;
    AllKeptFit(headers);
    NameFits("Date", how.date);
    DigitsAreDigits(|body|);
    NameFits("Content-Length", Digits(|body|));
    AsciiIsOneLine("close");
    AsciiIsOneLine("keep-alive");
    NameFits("Connection", Ascii("close"));
    NameFits("Connection", Ascii("keep-alive"));
  }

  // ---------------------------------------------------------------- how a client reads it

  datatype Answer = Answer(status: nat, fields: seq<Field>, body: Bytes)

  /** Where the first CRLF from `i` on is. */
  function LineEnd(s: Bytes, i: nat): Option<nat>
    decreases |s| - i
  {
    if i + 1 >= |s| then None else if s[i] == CR && s[i + 1] == LF then Some(i) else LineEnd(s, i + 1)
  }

  lemma {:induction false} LineEndIs(s: Bytes, i: nat)
    ensures LineEnd(s, i).Some? ==> i <= LineEnd(s, i).value < |s| - 1
    decreases |s| - i
  {
    if i + 1 < |s| && !(s[i] == CR && s[i + 1] == LF) {
      LineEndIs(s, i + 1);
    }
  }

  /** A line, and what is behind its CRLF. */
  function ReadLine(s: Bytes): Option<(Bytes, Bytes)> {
    LineEndIs(s, 0);
    match LineEnd(s, 0)
    case None => None
    case Some(i) => Some((s[..i], s[i + 2..]))
  }

  function TrimStart(s: Bytes): Bytes {
    if s != [] && IsBlank(s[0]) then TrimStart(s[1..]) else s
  }

  function TrimBlanks(s: Bytes): Bytes {
    TrimEnd(TrimStart(s))
  }

  function ReadField(line: Bytes): Option<Field> {
    UpToIs(line, COLON);
    var name := UpTo(line, COLON);
    if |name| == |line| then None else Some((name, TrimBlanks(line[|name| + 1..])))
  }

  /** The fields up to the empty line, and what is behind it. */
  function ReadFields(s: Bytes): Option<(seq<Field>, Bytes)>
    decreases |s|
  {
    LineEndIs(s, 0);
    match ReadLine(s)
    case None => None
    case Some((line, rest)) =>
      if line == [] then Some(([], rest))
      else
        match ReadField(line)
        case None => None
        case Some(field) =>
          match ReadFields(rest)
          case None => None
          case Some((fields, behind)) => Some(([field] + fields, behind))
  }

  predicate AllDigits(s: Bytes) {
    forall i :: 0 <= i < |s| ==> ZERO <= s[i] <= ZERO + 9
  }

  function Number(s: Bytes): nat
    requires AllDigits(s)
  {
    if s == [] then 0 else 10 * Number(s[..|s| - 1]) + (s[|s| - 1] - ZERO)
  }

  function ReadNumber(s: Bytes): Option<nat> {
    if s != [] && AllDigits(s) then Some(Number(s)) else None
  }

  /** The version and the status. */
  function ReadStatus(line: Bytes): Option<nat> {
    if Ascii("HTTP/1.1 ") <= line then ReadNumber(UpTo(line[9..], SPACE)) else None
  }

  function Values(fields: seq<Field>, name: Bytes): seq<Bytes> {
    if fields == [] then []
    else Values(fields[..|fields| - 1], name) + (if SameName(fields[|fields| - 1].0, name) then [fields[|fields| - 1].1] else [])
  }

  /**
    The message body length of section 6.3 of RFC 9112, as a client finds it: none to HEAD and for 1xx,
    204 and 304; what the one Content-Length says; and otherwise not known before the
    connection is closed.
   */
  function BodyLength(toHead: bool, status: nat, fields: seq<Field>): Option<nat> {
    var lengths := Values(fields, LengthName());
    if toHead || 100 <= status <= 199 || status == 204 || status == 304 then Some(0)
    else if Values(fields, CodingName()) != [] then None
    else if |lengths| == 1 then ReadNumber(lengths[0])
    else None
  }

  function ReadAnswer(toHead: bool, s: Bytes): Option<(Answer, Bytes)> {
    match ReadLine(s)
    case None => None
    case Some((line, rest)) =>
      match (ReadStatus(line), ReadFields(rest))
      case (Some(status), Some((fields, behind))) =>
        (match BodyLength(toHead, status, fields)
         case Some(n) => if n <= |behind| then Some((Answer(status, fields, behind[..n]), behind[n..])) else None
         case None => None)
      case _ => None
  }

  // ---------------------------------------------------------------- what it reads of what was written

  lemma {:induction false} LineEndOf(line: Bytes, x: Bytes, i: nat)
    requires OneLine(line) && i <= |line|
    ensures LineEnd(line + CRLF + x, i) == Some(|line|)
    decreases |line| - i
  {
    var s := line + CRLF + x;
    if i < |line| {
      assert s[i] == line[i];
      LineEndOf(line, x, i + 1);
    }
  }

  lemma ReadLineOf(line: Bytes, x: Bytes)
    requires OneLine(line)
    ensures ReadLine(line + CRLF + x) == Some((line, x))
  {
    LineEndOf(line, x, 0);
    var s := line + CRLF + x;
    assert s[..|line|] == line && s[|line| + 2..] == x;
  }

  lemma ReadFieldOf(f: Field)
    requires FieldFits(f)
    ensures ReadField(FieldLine(f)) == Some((f.0, TrimBlanks(f.1)))
  {
    var line := FieldLine(f);
    UpToOf(f.0, [COLON, SPACE] + f.1, COLON);
    assert line == f.0 + ([COLON, SPACE] + f.1);
    assert line[|f.0| + 1..] == [SPACE] + f.1;
    assert ([SPACE] + f.1)[1..] == f.1;
  }

  lemma FieldLineIsOneLine(f: Field)
    requires FieldFits(f)
    ensures OneLine(FieldLine(f)) && FieldLine(f) != []
  {
  }

  lemma {:induction false} LinesFront(fields: seq<Field>)
    requires fields != []
    ensures LinesWire(fields) == FieldLine(fields[0]) + CRLF + LinesWire(fields[1..])
  {
    hide FieldLine;
    var n := |fields|;
    if n > 1 {
      LinesFront(fields[..n - 1]);
      assert fields[..n - 1][1..] == fields[1..][..n - 2];
      assert fields[1..][n - 2] == fields[n - 1];
      var a, b, c := FieldLine(fields[0]) + CRLF, LinesWire(fields[1..][..n - 2]), FieldLine(fields[n - 1]) + CRLF;
      assert a + b + c == a + (b + c);
    }
  }

  function Trimmed(fields: seq<Field>): seq<Field> {
    seq(|fields|, i requires 0 <= i < |fields| => (fields[i].0, TrimBlanks(fields[i].1)))
  }

  lemma {:induction false} ReadFieldsOf(fields: seq<Field>, x: Bytes)
    requires FieldsFit(fields)
    ensures ReadFields(LinesWire(fields) + CRLF + x) == Some((Trimmed(fields), x))
    decreases |fields|
  {
    if fields == [] {
      ReadLineOf([], x);
      assert [] + CRLF + x == LinesWire([]) + CRLF + x;
    } else {
      var f, more := fields[0], fields[1..];
      LinesFront(fields);
      FieldsFitMore(fields);
      ReadFieldsOf(more, x);
      assert Trimmed(fields) == [(f.0, TrimBlanks(f.1))] + Trimmed(more);
      hide ReadFields, LinesWire, FieldFits, Trimmed, TrimBlanks;
      OneFieldMore(f, LinesWire(more) + CRLF + x, Trimmed(more), x);
      hide FieldLine;
      RegroupLines(FieldLine(f), LinesWire(more), x);
    }
  }

  lemma RegroupLines(line: Bytes, lines: Bytes, x: Bytes)
    ensures line + CRLF + lines + CRLF + x == line + CRLF + (lines + CRLF + x)
  {
  }

  lemma FieldsFitMore(fields: seq<Field>)
    requires fields != [] && FieldsFit(fields)
    ensures FieldsFit(fields[1..])
  {
  }

  lemma OneFieldMore(f: Field, rest: Bytes, fields: seq<Field>, x: Bytes)
    requires FieldFits(f) && ReadFields(rest) == Some((fields, x))
    ensures ReadFields(FieldLine(f) + CRLF + rest) == Some(([(f.0, TrimBlanks(f.1))] + fields, x))
  {
    ReadFieldOf(f);
    FieldLineIsOneLine(f);
    ReadLineOf(FieldLine(f), rest);
    hide ReadLine, ReadField, FieldLine;
  }

  /** A number that is written is read back. */
  lemma {:induction false} DigitsAreRead(n: nat)
    ensures ReadNumber(Digits(n)) == Some(n)
  {
    DigitsAreDigits(n);
    if n >= 10 {
      DigitsAreRead(n / 10);
      assert Digits(n)[..|Digits(n)| - 1] == Digits(n / 10);
    } else {
      assert Digits(n)[..|Digits(n)| - 1] == [];
      assert Number(Digits(n)) == 10 * Number([]) + n;
    }
  }

  lemma StatusIsRead(status: nat, phrase: Bytes)
    ensures ReadStatus(StatusLine(status, phrase)) == Some(status)
  {
    DigitsAreRead(status);
    DigitsAreDigits(status);
    hide Digits;
    var version, behind := Ascii("HTTP/1.1 "), Digits(status) + ([SPACE] + phrase);
    assert StatusLine(status, phrase) == version + behind;
    assert |version| == 9;
    hide Ascii;
    assert (version + behind)[9..] == behind;
    UpToOf(Digits(status), [SPACE] + phrase, SPACE);
  }

  // ---------------------------------------------------------------- the one Content-Length

  lemma {:induction false} ValuesAppend(a: seq<Field>, b: seq<Field>, name: Bytes)
    ensures Values(a + b, name) == Values(a, name) + Values(b, name)
  {
    hide SameName;
    if b == [] {
      assert a + b == a;
    } else {
      assert (a + b)[..|a + b| - 1] == a + b[..|b| - 1];
      ValuesAppend(a, b[..|b| - 1], name);
    }
  }

  lemma ValuesOfOne(f: Field, name: Bytes)
    ensures Values([f], name) == if SameName(f.0, name) then [f.1] else []
  {
    hide SameName;
    assert [f][..0] == [];
  }

  lemma {:induction false} KeptIsNotOwn(headers: seq<Field>, name: Bytes)
    requires name == LengthName() || name == CodingName()
    ensures Values(Trimmed(Kept(headers)), name) == []
  {
    hide SameName, TrimBlanks, IsName, Plain;
    if headers != [] {
      var n := |headers|;
      KeptIsNotOwn(headers[..n - 1], name);
      var kept := Kept(headers[..n - 1]);
      if IsKept(headers[n - 1]) {
        var f := (headers[n - 1].0, TrimBlanks(headers[n - 1].1));
        assert Trimmed(kept + [headers[n - 1]]) == Trimmed(kept) + [f];
        ValuesAppend(Trimmed(kept), [f], name);
        ValuesOfOne(f, name);
      } else {
        assert kept + [] == kept;
      }
    }
  }

  lemma TrimmedAppend(a: seq<Field>, b: seq<Field>)
    ensures Trimmed(a + b) == Trimmed(a) + Trimmed(b)
  {
  }

  lemma TrimmedDigits(n: nat)
    ensures TrimBlanks(Digits(n)) == Digits(n)
  {
    DigitsAreDigits(n);
    assert !IsBlank(Digits(n)[0]) && !IsBlank(Digits(n)[|Digits(n)| - 1]);
  }

  /** The server's own lines, as a client reads them. */
  function OwnFields(status: nat, body: Bytes, how: Sending): seq<Field> {
    DateFields(how) + LengthFields(status, body) + ConnectionFields(how)
  }

  lemma OwnValues(status: nat, body: Bytes, how: Sending, name: Bytes)
    ensures Values(Trimmed(OwnFields(status, body, how)), name) ==
            Values(Trimmed(DateFields(how)), name) + Values(Trimmed(LengthFields(status, body)), name)
            + Values(Trimmed(ConnectionFields(how)), name)
  {
    var d, l, c := DateFields(how), LengthFields(status, body), ConnectionFields(how);
    TrimmedAppend(d + l, c);
    TrimmedAppend(d, l);
    hide Trimmed;
    ValuesAppend(Trimmed(d) + Trimmed(l), Trimmed(c), name);
    ValuesAppend(Trimmed(d), Trimmed(l), name);
  }

  lemma TrimmedOne(f: Field)
    ensures Trimmed([f]) == [(f.0, TrimBlanks(f.1))]
  {
  }

  lemma ShortNames(how: Sending, name: Bytes)
    requires |name| > 10
    ensures Values(Trimmed(DateFields(how)), name) == [] && Values(Trimmed(ConnectionFields(how)), name) == []
  {
    assert |Ascii("Date")| == 4 && |Ascii("Connection")| == 10;
    var d, c, k := (Ascii("Date"), how.date), (Ascii("Connection"), Ascii("close")), (Ascii("Connection"), Ascii("keep-alive"));
    hide Ascii, TrimBlanks, Values;
    assert Values(Trimmed([]), name) == [] by { NoValues(name); }
    TrimmedOne(d);
    TrimmedOne(c);
    TrimmedOne(k);
    ValuesOfOne(Trimmed([d])[0], name);
    ValuesOfOne(Trimmed([c])[0], name);
    ValuesOfOne(Trimmed([k])[0], name);
  }

  lemma NoValues(name: Bytes)
    ensures Values(Trimmed([]), name) == []
  {
  }

  lemma ContentLengthIsSaid(status: nat, body: Bytes)
    ensures Values(Trimmed(LengthFields(status, body)), LengthName()) == if HasBody(status) then [Digits(|body|)] else []
    ensures Values(Trimmed(LengthFields(status, body)), CodingName()) == []
  {
    TrimmedDigits(|body|);
    var f := (Ascii("Content-Length"), Digits(|body|));
    SameLengthName();
    TrimmedOne(f);
    hide Ascii, SameName, Digits, TrimBlanks;
    ValuesOfOne(f, LengthName());
    ValuesOfOne(f, CodingName());
  }

  lemma SameLengthName()
    ensures SameName(Ascii("Content-Length"), LengthName())
    ensures !SameName(Ascii("Content-Length"), CodingName())
  {
    var a, b := "Content-Length", "content-length";
    assert |a| == |b| == 14;
    forall i | 0 <= i < 14
      ensures LowerByte(Ascii(a)[i]) == LowerByte(Ascii(b)[i])
    {
      assert i != 0 && i != 8 ==> a[i] == b[i];
    }
  }

  /**
    A response says its body's length in exactly one Content-Length, and no transfer coding;
    one whose status has no body says none.
   */
  lemma OneContentLength(status: nat, headers: seq<Field>, body: Bytes, how: Sending)
    ensures var fields := Trimmed(Fields(status, headers, body, how));
            && Values(fields, LengthName()) == (if HasBody(status) then [Digits(|body|)] else [])
            && Values(fields, CodingName()) == []
  {
    var length, coding := LengthName(), CodingName();
    var kept, own := Kept(headers), OwnFields(status, body, how);
    KeptIsNotOwn(headers, length);
    KeptIsNotOwn(headers, coding);
    ContentLengthIsSaid(status, body);
    assert |length| == 14 && |coding| == 17;
    hide LengthName, CodingName, Ascii, Kept, Trimmed, Values, DateFields, LengthFields, ConnectionFields;
    FieldsAre(status, headers, body, how);
    hide Fields, OwnFields;
    ShortNames(how, length);
    ShortNames(how, coding);
    OwnValues(status, body, how, length);
    OwnValues(status, body, how, coding);
    TrimmedAppend(kept, own);
    ValuesAppend(Trimmed(kept), Trimmed(own), length);
    ValuesAppend(Trimmed(kept), Trimmed(own), coding);
  }

  lemma FieldsAre(status: nat, headers: seq<Field>, body: Bytes, how: Sending)
    ensures Fields(status, headers, body, how) == Kept(headers) + OwnFields(status, body, how)
  {
    hide Kept, DateFields, LengthFields, ConnectionFields;
    var k, d, l, c := Kept(headers), DateFields(how), LengthFields(status, body), ConnectionFields(how);
    assert k + d + l + c == k + (d + l + c);
  }

  // ---------------------------------------------------------------- responses split back

  /** What the client is to read. */
  function Meant(status: nat, headers: seq<Field>, body: Bytes, how: Sending): Answer {
    Answer(status, Trimmed(Fields(status, headers, body, how)), BodySent(status, body, how))
  }

  /** A response is read back, and not a byte behind it. */
  lemma ResponseIsRead(status: nat, phrase: Bytes, headers: seq<Field>, body: Bytes, how: Sending, x: Bytes)
    requires OneLine(how.date) && OneLine(phrase)
    ensures ReadAnswer(how.headOnly, Response(status, phrase, headers, body, how) + x) ==
            Some((Meant(status, headers, body, how), x))
  {
    var fields, sent := Fields(status, headers, body, how), BodySent(status, body, how);
    var line := StatusLine(status, phrase);
    AllFit(status, headers, body, how);
    StatusLineIsOneLine(status, phrase);
    StatusIsRead(status, phrase);
    LengthIsRead(status, headers, body, how);
    hide StatusLine, Fields, BodySent, FieldsFit, LinesWire, ReadFields, ReadStatus, BodyLength, Trimmed, OneLine;
    ReadFieldsOf(fields, sent + x);
    ReadLineOf(line, LinesWire(fields) + CRLF + (sent + x));
    hide ReadLine;
    Regroup(line, LinesWire(fields), sent, x);
    assert (sent + x)[..|sent|] == sent && (sent + x)[|sent|..] == x;
  }

  lemma Regroup(line: Bytes, lines: Bytes, sent: Bytes, x: Bytes)
    ensures line + CRLF + lines + CRLF + sent + x == line + CRLF + (lines + CRLF + (sent + x))
  {
  }

  lemma LengthIsRead(status: nat, headers: seq<Field>, body: Bytes, how: Sending)
    ensures BodyLength(how.headOnly, status, Trimmed(Fields(status, headers, body, how))) == Some(|BodySent(status, body, how)|)
  {
    OneContentLength(status, headers, body, how);
    DigitsAreRead(|body|);
    hide Trimmed, Fields, Values, Ascii, Digits, ReadNumber;
  }

  datatype Sent = Sent(status: nat, phrase: Bytes, headers: seq<Field>, body: Bytes, how: Sending)

  function WireOf(r: Sent): Bytes {
    Response(r.status, r.phrase, r.headers, r.body, r.how)
  }

  function AllWire(responses: seq<Sent>): Bytes {
    if responses == [] then [] else WireOf(responses[0]) + AllWire(responses[1..])
  }

  function AllMeant(responses: seq<Sent>): seq<Answer> {
    if responses == [] then []
    else [Meant(responses[0].status, responses[0].headers, responses[0].body, responses[0].how)] + AllMeant(responses[1..])
  }

  /** The answers to requests of which it is known whether each was HEAD. */
  function ReadAnswers(toHead: seq<bool>, s: Bytes): Option<(seq<Answer>, Bytes)>
    decreases |toHead|
  {
    if toHead == [] then Some(([], s))
    else
      match ReadAnswer(toHead[0], s)
      case None => None
      case Some((answer, rest)) =>
        match ReadAnswers(toHead[1..], rest)
        case None => None
        case Some((answers, behind)) => Some(([answer] + answers, behind))
  }

  lemma AnswersStep(toHead: seq<bool>, s: Bytes, answer: Answer, rest: Bytes, answers: seq<Answer>, x: Bytes)
    requires toHead != [] && ReadAnswer(toHead[0], s) == Some((answer, rest))
    requires ReadAnswers(toHead[1..], rest) == Some((answers, x))
    ensures ReadAnswers(toHead, s) == Some(([answer] + answers, x))
  {
    hide ReadAnswer;
  }

  function HeadOnly(responses: seq<Sent>): seq<bool> {
    seq(|responses|, i requires 0 <= i < |responses| => responses[i].how.headOnly)
  }

  lemma OneSplitsBack(r: Sent, toHead: seq<bool>, wire: Bytes, answers: seq<Answer>, x: Bytes)
    requires OneLine(r.how.date) && OneLine(r.phrase)
    requires toHead != [] && toHead[0] == r.how.headOnly && ReadAnswers(toHead[1..], wire + x) == Some((answers, x))
    ensures ReadAnswers(toHead, WireOf(r) + wire + x) ==
            Some(([Meant(r.status, r.headers, r.body, r.how)] + answers, x))
  {
    hide ReadAnswer, ReadAnswers, Meant, OneLine;
    ResponseIsRead(r.status, r.phrase, r.headers, r.body, r.how, wire + x);
    hide Response;
    Regroup3(WireOf(r), wire, x);
    AnswersStep(toHead, WireOf(r) + (wire + x), Meant(r.status, r.headers, r.body, r.how), wire + x, answers, x);
  }

  lemma Regroup3(a: Bytes, b: Bytes, c: Bytes)
    ensures a + b + c == a + (b + c)
  {
  }

  /** Responses sent one after the other split back into what was answered, whatever is behind them. */
  lemma {:induction false} ResponsesSplitBack(responses: seq<Sent>, x: Bytes)
    requires forall i :: 0 <= i < |responses| ==> OneLine(responses[i].how.date) && OneLine(responses[i].phrase)
    ensures ReadAnswers(HeadOnly(responses), AllWire(responses) + x) == Some((AllMeant(responses), x))
    decreases |responses|
  {
    hide ReadAnswer, WireOf, Meant, OneLine;
    if responses == [] {
      assert AllWire(responses) + x == x;
    } else {
      ResponsesSplitBack(responses[1..], x);
      hide ReadAnswers;
      assert HeadOnly(responses)[0] == responses[0].how.headOnly && HeadOnly(responses)[1..] == HeadOnly(responses[1..]);
      hide HeadOnly;
      OneSplitsBack(responses[0], HeadOnly(responses), AllWire(responses[1..]), AllMeant(responses[1..]), x);
    }
  }

  // ---------------------------------------------------------------- where the head ends

  /** An empty line, behind the CRLF of the line before it. */
  predicate BlankAt(s: Bytes, i: nat) {
    i + 4 <= |s| && s[i] == CR && s[i + 1] == LF && s[i + 2] == CR && s[i + 3] == LF
  }

  /** A line in front of a text moves the first empty line behind it. */
  lemma BlankBehindLine(line: Bytes, x: Bytes, n: nat)
    requires OneLine(line) && |x| > 1
    requires n == 0 ==> x[0] == CR && x[1] == LF
    requires n > 0 ==> x[0] != CR && BlankAt(x, n - 1) && forall j :: 0 <= j < n - 1 ==> !BlankAt(x, j)
    ensures var s, m := line + CRLF + x, |line| + if n == 0 then 0 else n + 1;
            BlankAt(s, m) && forall j :: 0 <= j < m ==> !BlankAt(s, j)
  {
    var s, k := line + CRLF + x, |line|;
    forall j | 0 <= j < k + if n == 0 then 0 else n + 1
      ensures !BlankAt(s, j)
    {
      if j < k {
        assert s[j] == line[j];
      } else if j >= k + 2 {
        assert BlankAt(s, j) ==> BlankAt(x, j - k - 2) by { assert s[k + 2..] == x; }
      }
    }
  }

  /** How far the first empty line is behind the start of field lines and the end of the head. */
  lemma {:induction false} BlankBehindFields(fields: seq<Field>, x: Bytes)
    requires FieldsFit(fields)
    ensures var lines := LinesWire(fields);
            && (lines == [] || (|lines| > 1 && lines[0] != CR && BlankAt(lines + CRLF + x, |lines| - 2)))
            && (lines != [] ==> forall j :: 0 <= j < |lines| - 2 ==> !BlankAt(lines + CRLF + x, j))
    decreases |fields|
  {
    if fields != [] {
      var f, more := fields[0], LinesWire(fields[1..]);
      LinesFront(fields);
      FieldsFitMore(fields);
      BlankBehindFields(fields[1..], x);
      assert FieldFits(f);
      FieldLineIsOneLine(f);
      hide LinesWire, FieldLine;
      BlankBehindLine(FieldLine(f), more + CRLF + x, if |more| == 0 then 0 else |more| - 1);
      RegroupLines(FieldLine(f), more, x);
    }
  }

  /** The first empty line of a response is where its head ends: no header and no date can end it before. */
  lemma HeadEndsAtTheFirstEmptyLine(status: nat, phrase: Bytes, headers: seq<Field>, body: Bytes, how: Sending)
    requires OneLine(how.date) && OneLine(phrase)
    ensures var s, n := Response(status, phrase, headers, body, how), |HeadWire(status, phrase, Fields(status, headers, body, how))|;
            && 4 <= n <= |s| && s[n..] == BodySent(status, body, how)
            && BlankAt(s, n - 4) && forall j :: 0 <= j < n - 4 ==> !BlankAt(s, j)
  {
    hide StatusLine, Fields, BodySent, FieldsFit, LinesWire, BlankAt, OneLine;
    var fields, sent, line := Fields(status, headers, body, how), BodySent(status, body, how), StatusLine(status, phrase);
    AllFit(status, headers, body, how);
    StatusLineIsOneLine(status, phrase);
    BlankBehindFields(fields, sent);
    var lines := LinesWire(fields);
    FirstBlankOf(line, lines, sent);
    assert Response(status, phrase, headers, body, how) == line + CRLF + lines + CRLF + sent;
    assert |HeadWire(status, phrase, fields)| == |line| + |lines| + 4;
  }

  lemma FirstBlankOf(line: Bytes, lines: Bytes, sent: Bytes)
    requires OneLine(line)
    requires lines == [] || (|lines| > 1 && lines[0] != CR && BlankAt(lines + CRLF + sent, |lines| - 2))
    requires lines != [] ==> forall j :: 0 <= j < |lines| - 2 ==> !BlankAt(lines + CRLF + sent, j)
    ensures var s, n := line + CRLF + lines + CRLF + sent, |line| + |lines| + 4;
            && n <= |s| && s[n..] == sent
            && BlankAt(s, n - 4) && forall j :: 0 <= j < n - 4 ==> !BlankAt(s, j)
  {
    BlankBehindLine(line, lines + CRLF + sent, if |lines| == 0 then 0 else |lines| - 1);
    hide BlankAt, OneLine;
    HeadThenBody(line, lines, sent);
  }

  lemma HeadThenBody(line: Bytes, lines: Bytes, sent: Bytes)
    ensures var head := line + CRLF + lines + CRLF;
            head + sent == line + CRLF + (lines + CRLF + sent) && (head + sent)[|head|..] == sent
  {
  }
}
