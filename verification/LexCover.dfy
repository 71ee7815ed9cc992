/**
  The tokens cover the text: every character stands in a token of the form of its kind, or between two
  tokens in white space, in semicolons or in a comment that is recorded with the line breaks before it.
 */
module LexCover {
  import opened Basics
  import opened LexText
  import opened LexScan
  import opened LexSpec
  import opened LexKeeps
  import opened LexTokens
  import opened LexComment
  import opened LexForms

  // ---------------------------------------------------------------- between two tokens

  function AtMostTwo(n: nat): nat {
    if n < 2 then n else 2
  }

  predicate LineAt(src: Text, i: nat, e: nat) {
    && i + 2 <= e <= |src| && src[i] == '-' && src[i + 1] == '-'
    && (forall k :: i <= k < e ==> src[k] != '\n') && (e < |src| ==> src[e] == '\n')
  }

  /** A comment that opens at `i` and has no close, which reaches to the end of the text. */
  ghost predicate OpenAt(src: Text, i: nat, e: nat) {
    OpensAt(src, i) && e == |src| && forall c: nat :: !CommentAt(src, i, c)
  }

  predicate SemisAt(src: Text, i: nat, e: nat) {
    i < e <= |src| && (forall k :: i <= k < e ==> src[k] == ';') && (e < |src| ==> src[e] != ';')
  }

  ghost predicate AnyComment(src: Text, i: nat, e: nat, line: bool) {
    if line then LineAt(src, i, e) else CommentAt(src, i, e) || OpenAt(src, i, e)
  }

  /**
    From `i`, `n` line breaks behind the last token or comment, to `j`, `m` line breaks behind it: white
    space, semicolons (one line break in a row) and comments, which are `found`.
   */
  ghost predicate Gap(src: Text, i: nat, n: nat, j: nat, m: nat, found: seq<Comment>)
    decreases j - i
  {
    if i >= j then i == j <= |src| && n == m && found == []
    else if j > |src| then false
    else if IsBlank(src[i]) then Gap(src, i + 1, if src[i] == '\n' then n + 1 else n, j, m, found)
    else if src[i] == ';' then exists e: nat :: i < e <= j && SemisAt(src, i, e) && Gap(src, e, n + 1, j, m, found)
    else exists e: nat :: i < e <= j && CommentFirst(src, i, n, e, found) && Gap(src, e, 0, j, m, found[1..])
  }

  ghost predicate CommentFirst(src: Text, i: nat, n: nat, e: nat, found: seq<Comment>) {
    && found != [] && e <= |src| && AnyComment(src, i, e, found[0].line)
    && i <= |src| && found[0] == Comment(found[0].line, Between(src, i, e), AtMostTwo(n))
  }

  /** Nothing that could stand between two tokens begins at `i`. */
  predicate NoGap(src: Text, i: nat) {
    i < |src| ==> !IsBlank(src[i]) && src[i] != ';' && !AtLineComment(src, i) && !AtBlockComment(src, i)
  }

  function Breaks(src: Text, i: nat, e: nat): nat
    requires e <= |src|
    decreases e - i
  {
    if i >= e then 0 else (if src[i] == '\n' then 1 else 0) + Breaks(src, i + 1, e)
  }

  lemma {:induction false} LinesAreCounted(src: Text, i: nat, e: nat, n: nat)
    requires e <= |src|
    ensures LinesIn(src, i, e, AtMostTwo(n)) == AtMostTwo(n + Breaks(src, i, e))
    decreases e - i
  {
    if i < e {
      LinesAreCounted(src, i + 1, e, if src[i] == '\n' then n + 1 else n);
    }
  }

  lemma {:induction false} BlanksThenGap(src: Text, i: nat, n: nat, e: nat, j: nat, m: nat, found: seq<Comment>)
    requires i <= e <= j <= |src| && forall k :: i <= k < e ==> IsBlank(src[k])
    requires Gap(src, e, n + Breaks(src, i, e), j, m, found)
    ensures Gap(src, i, n, j, m, found)
    decreases e - i
  {
    hide IsBlank;
    if i < e {
      var n' := if src[i] == '\n' then n + 1 else n;
      assert n' + Breaks(src, i + 1, e) == n + Breaks(src, i, e);
      BlanksThenGap(src, i + 1, n', e, j, m, found);
    }
  }

  /** White space in front of a gap, as the lexer passes it. */
  lemma WhiteThenGap(src: Text, st: State, n: nat, j: nat, m: nat, found: seq<Comment>)
    requires st.pos <= |src| && st.newlines == AtMostTwo(n)
    ensures st.pos <= White(src, st).pos <= |src|
    ensures White(src, st).newlines == AtMostTwo(n + Breaks(src, st.pos, White(src, st).pos))
    ensures Gap(src, White(src, st).pos, n + Breaks(src, st.pos, White(src, st).pos), j, m, found) ==> Gap(src, st.pos, n, j, m, found)
    ensures White(src, st).pos < |src| ==> !IsBlank(src[White(src, st).pos])
  {
    var end := White(src, st).pos;
    RunEndIs(src, st.pos, BlankChar());
    LinesAreCounted(src, st.pos, end, n);
    hide Breaks, RunEnd, LinesIn, AtMostTwo;
    if Gap(src, end, n + Breaks(src, st.pos, end), j, m, found) {
      GapReaches(src, end, n + Breaks(src, st.pos, end), j, m, found);
      BlanksThenGap(src, st.pos, n, end, j, m, found);
    }
  }

  lemma GapReaches(src: Text, i: nat, n: nat, j: nat, m: nat, found: seq<Comment>)
    requires Gap(src, i, n, j, m, found)
    ensures i <= j <= |src|
  {
  }

  /** Where the lexer passes one comment, it is the first of a gap. */
  lemma CommentThenGap(src: Text, i: nat, n: nat, e: nat, line: bool, j: nat, m: nat, found: seq<Comment>)
    requires i < e <= |src| && AnyComment(src, i, e, line) && (src[i] == '-' || src[i] == '{')
    requires Gap(src, e, 0, j, m, found)
    ensures Gap(src, i, n, j, m, [Comment(line, Between(src, i, e), AtMostTwo(n))] + found)
  {
    hide AnyComment;
    GapReaches(src, e, 0, j, m, found);
    var all := [Comment(line, Between(src, i, e), AtMostTwo(n))] + found;
    assert all[1..] == found;
    assert CommentFirst(src, i, n, e, all);
  }

  /** How many line breaks are counted behind what is passed. */
  function CountBehind(src: Text, i: nat, n: nat): nat {
    if Is(src, i, ';') then n + 1 else 0
  }

  /** The comment that is passed, if it is one. */
  function NewIn(st: State, after: State): seq<Comment>
    requires |st.comments| <= |after.comments|
  {
    after.comments[|st.comments|..]
  }

  lemma PassedLineIs(src: Text, i: nat)
    requires AtLineComment(src, i)
    ensures LineAt(src, i, RunEnd(src, i, LineChar()))
  {
    RunEndIs(src, i, LineChar());
    RunOfFirst(src, i, LineChar());
    RunEndIs(src, i + 2, LineChar());
    RunOfFirst(src, i + 1, LineChar());
  }

  lemma PassedBlockIs(src: Text, i: nat)
    requires AtBlockComment(src, i)
    ensures BlockEnd(src, i + 2, 1).Some? ==> AnyComment(src, i, BlockEnd(src, i + 2, 1).value, false)
    ensures BlockEnd(src, i + 2, 1).None? ==> AnyComment(src, i, |src|, false)
  {
    hide BlockEnd, CommentAt;
    CommentExactly(src, i);
  }

  lemma PassedSemisIs(src: Text, i: nat)
    requires Is(src, i, ';')
    ensures SemisAt(src, i, RunEnd(src, i, SemiChar()))
  {
    RunEndIs(src, i, SemiChar());
    SemiIsNotEmpty(src, i);
  }

  lemma PassThenGap(src: Text, st: State, n: nat, j: nat, m: nat, found: seq<Comment>)
    requires st.pos < |src| && st.newlines == AtMostTwo(n) && PassOne(src, st).Passed?
    ensures st.comments <= PassOne(src, st).st.comments
    ensures PassOne(src, st).st.newlines == AtMostTwo(CountBehind(src, st.pos, n))
    ensures Gap(src, PassOne(src, st).st.pos, CountBehind(src, st.pos, n), j, m, found) ==>
              Gap(src, st.pos, n, j, m, NewIn(st, PassOne(src, st).st) + found)
  {
    hide Gap, AnyComment, SemisAt, RunEnd, BlockEnd;
    var i, after := st.pos, PassOne(src, st).st;
    PassOneIs(src, st);
    if Is(src, i, ';') {
      PassedSemisIs(src, i);
      assert NewIn(st, after) + found == found;
      if Gap(src, after.pos, n + 1, j, m, found) {
        SemisThenGap(src, i, n, after.pos, j, m, found);
      }
    } else {
      var line := AtLineComment(src, i);
      if line {
        PassedLineIs(src, i);
        LineIsAny(src, i, after.pos);
      } else {
        PassedBlockIs(src, i);
      }
      assert NewIn(st, after) == [Comment(line, Between(src, i, after.pos), AtMostTwo(n))];
      if Gap(src, after.pos, 0, j, m, found) {
        CommentThenGap(src, i, n, after.pos, line, j, m, found);
      }
    }
  }

  lemma LineIsAny(src: Text, i: nat, e: nat)
    requires LineAt(src, i, e)
    ensures AnyComment(src, i, e, true)
  {
  }

  lemma SemisThenGap(src: Text, i: nat, n: nat, e: nat, j: nat, m: nat, found: seq<Comment>)
    requires SemisAt(src, i, e) && Gap(src, e, n + 1, j, m, found)
    ensures Gap(src, i, n, j, m, found)
  {
    GapReaches(src, e, n + 1, j, m, found);
  }

  /** What the lexer passes in front of a token is a gap, whose comments it records, and behind it no gap goes on. */
  lemma {:induction false} TriviaIsGap(src: Text, st: State, n: nat) returns (m: nat, found: seq<Comment>)
    requires st.pos <= |src| && st.newlines == AtMostTwo(n) && Trivia(src, st).1.None?
    requires st.pos < |src| ==> !IsBlank(src[st.pos])
    ensures Gap(src, st.pos, n, Trivia(src, st).0.pos, m, found) && NoGap(src, Trivia(src, st).0.pos)
    ensures Trivia(src, st).0.comments == st.comments + found && Trivia(src, st).0.newlines == AtMostTwo(m)
    decreases |src| - st.pos
  {
    hide PassOne, White, IsBlank, AtMostTwo, Breaks;
    PassOneIs(src, st);
    match PassOne(src, st)
    case Passed(after) =>
      WhiteIs(src, after);
      var n' := CountBehind(src, st.pos, n);
      var j := Trivia(src, st).0.pos;
      PassIsThere(src, st);
      PassThenGap(src, st, n, j, 0, []);
      WhiteThenGap(src, after, n', j, 0, []);
      var white := White(src, after);
      var rest: seq<Comment>;
      m, rest := TriviaIsGap(src, white, n' + Breaks(src, after.pos, white.pos));
      hide Gap, NoGap, Trivia;
      WhiteThenGap(src, after, n', j, m, rest);
      PassThenGap(src, st, n, j, m, rest);
      found := NewIn(st, after) + rest;
      NewBehind(st, after, rest);
    case Neither =>
      m, found := n, [];
      NeitherIsNoGap(src, st);
  }

  lemma NewBehind(st: State, after: State, rest: seq<Comment>)
    requires st.comments <= after.comments
    ensures after.comments + rest == st.comments + (NewIn(st, after) + rest)
  {
  }

  lemma PassIsThere(src: Text, st: State)
    requires st.pos <= |src| && PassOne(src, st).Passed?
    ensures st.pos < |src|
  {
    PassOneIs(src, st);
    hide PassOne;
  }

  lemma NeitherIsNoGap(src: Text, st: State)
    requires st.pos <= |src| && PassOne(src, st).Neither? && (st.pos < |src| ==> !IsBlank(src[st.pos]))
    ensures NoGap(src, st.pos)
  {
    hide BlockEnd, RunEnd;
  }

  // ---------------------------------------------------------------- a token

  predicate WordText(src: Text, g: nat, e: nat) {
    && g < e <= |src| && IsLetter(src[g])
    && (forall k :: g <= k < e ==> IsLetter(src[k]) || IsDigit(src[k]))
    && (e < |src| ==> !IsLetter(src[e]) && !IsDigit(src[e]))
  }

  ghost predicate LongestNumber(src: Text, g: nat, e: nat) {
    && g < |src| && IsDigit(src[g])
    && forall more: nat :: NumberAt(src, g, more) || BrokenAt(src, g, more) ==> more <= e
  }

  ghost predicate OperatorText(src: Text, g: nat, e: nat, kind: Token) {
    && g < e <= |src| && IsOperator(src[g..e]) && kind == OperatorKind(src[g..e])
    && forall o :: IsOperator(o) && StandsAt(src, g, o) ==> g + |o| <= e
  }

  predicate OneQuote(src: Text, g: nat) {
    Is(src, g, '"') && !ThreeQuotes(src, g)
  }

  /** A string goes on at `i` up to its quote, or up to the `{` of an interpolation. */
  ghost predicate ClosesAs(src: Text, i: nat, e: nat) {
    exists errs :: EndsAs(src, i, Closed(e, errs))
  }

  ghost predicate BreaksAs(src: Text, i: nat, e: nat) {
    exists errs :: EndsAs(src, i, Brace(e, errs))
  }

  ghost predicate NeverEnds(src: Text, i: nat) {
    exists errs, inEscape :: EndsAs(src, i, Unclosed(errs, inEscape))
  }

  /** A raw string goes on at `i` up to the last three of the first run of quotes, or to the end. */
  ghost predicate RawCloses(src: Text, i: nat, e: nat) {
    exists k: nat :: FirstRun(src, i, k, e)
  }

  ghost predicate RawNeverEnds(src: Text, i: nat) {
    forall j: nat :: i <= j ==> !ThreeQuotes(src, j)
  }

  /** No other token begins with the character at `g`. */
  ghost predicate NoToken(src: Text, g: nat) {
    && g < |src| && src[g] !in {'"', '{', '}'} && !IsDigit(src[g]) && !IsLetter(src[g]) && !(src[g] == '#' && Is(src, g + 1, '{'))
    && forall o :: IsOperator(o) ==> !StandsAt(src, g, o)
  }

  /** Text that is no token: a string that does not end, a number that breaks off or does not fit, or a character that begins no token. */
  ghost predicate ErrorText(env: Env, src: Text, g: nat, e: nat) {
    || (ThreeQuotes(src, g) && e == |src| && RawNeverEnds(src, g + 3))
    || ((OneQuote(src, g) || Is(src, g, '}')) && e == |src| && NeverEnds(src, g + 1))
    || (g < e <= |src| && LongestNumber(src, g, e) && (BrokenAt(src, g, e) || !env.fits(src[g..e])))
    || NoToken(src, g)
  }

  /** The text from `g` to `e` is a token of its kind. */
  ghost predicate TokenText(env: Env, src: Text, g: nat, e: nat, kind: Token) {
    && g < e <= |src|
    && match kind
       case Eof => false
       case Error => ErrorText(env, src, g, e)
       case Word(name) => WordText(src, g, e) && name == src[g..e]
       case Number => LongestNumber(src, g, e) && NumberAt(src, g, e) && env.fits(src[g..e])
       case StringLit => (ThreeQuotes(src, g) && RawCloses(src, g + 3, e)) || (OneQuote(src, g) && ClosesAs(src, g + 1, e))
       case StringStart => OneQuote(src, g) && BreaksAs(src, g + 1, e)
       case StringMiddle => src[g] == '}' && BreaksAs(src, g + 1, e)
       case StringEnd => src[g] == '}' && ClosesAs(src, g + 1, e)
       case LBrace => src[g] == '{' && e == g + 1
       case RBrace => src[g] == '}' && e == g + 1
       case HashBrace => src[g] == '#' && Is(src, g + 1, '{') && e == g + 2
       case _ => OperatorText(src, g, e, kind)
  }

  /** Where the span of a token begins: behind the brace for the rest of a string, otherwise with the token. */
  predicate SpanBegins(src: Text, g: nat, start: nat, kind: Token) {
    start == g || (start == g + 1 && Is(src, g, '}') && kind in {StringMiddle, StringEnd, Error})
  }

  lemma StringText(src: Text, st: State, start: nat, quote: nat, rest: bool)
    requires st.pos <= |src| && start <= |src| && quote <= |src|
    ensures var (after, kind, at) := ScanString(src, st, start, quote, rest);
            && at == start && after.pos <= |src|
            && (|| (kind == (if rest then StringEnd else StringLit) && ClosesAs(src, st.pos, after.pos))
                || (kind == (if rest then StringMiddle else StringStart) && BreaksAs(src, st.pos, after.pos))
                || (kind == Error && after.pos == |src| && NeverEnds(src, st.pos)))
  {
    hide StrScan, EndsAs, RecordedAll, Off;
    var s := StrScan(src, st.pos);
    StringExactly(src, st.pos, s);
    StrScanIs(src, st.pos);
    match s
    case Closed(end, errs) => RecordedAllSame(st.(pos := end), errs);
    case Brace(end, errs) => RecordedAllSame(st.(pos := end, stack := st.stack + [(st.brace, quote)], brace := st.brace + 1), errs);
    case Unclosed(errs, inEscape) => RecordedAllSame(st.(pos := |src|, cutShort := true), errs);
  }

  lemma TripleText(env: Env, src: Text, st: State)
    requires ThreeQuotes(src, st.pos)
    ensures var (after, kind, at) := ScanTriple(src, st);
            at == st.pos && TokenText(env, src, st.pos, after.pos, kind)
  {
    hide TripleEnd, Off, LongestNumber, NoToken, RawCloses, RawNeverEnds;
    TripleEndIs(src, st.pos + 3);
    RawIs(src, st.pos + 3);
  }

  lemma RawIs(src: Text, i: nat)
    ensures TripleEnd(src, i).Some? ==> RawCloses(src, i, TripleEnd(src, i).value)
    ensures TripleEnd(src, i).None? ==> RawNeverEnds(src, i)
  {
    hide TripleEnd;
    RawStringExactly(src, i, if TripleEnd(src, i).Some? then TripleEnd(src, i).value else 0);
  }

  lemma NumberText(env: Env, src: Text, st: State)
    requires st.pos < |src| && IsDigit(src[st.pos])
    ensures var (after, kind, at) := ScanNumber(env, src, st);
            at == st.pos && TokenText(env, src, st.pos, after.pos, kind)
  {
    hide Numeral, NumberAt, BrokenAt, Off;
    NumeralIs(src, st.pos);
    NumberExactly(src, st.pos);
  }

  lemma WordIsText(src: Text, g: nat)
    requires g < |src| && IsLetter(src[g])
    ensures WordText(src, g, RunEnd(src, g + 1, NameChar()))
  {
    RunEndIs(src, g + 1, NameChar());
  }

  lemma CloseText(env: Env, src: Text, st: State)
    requires Is(src, st.pos, '}') && QuotesWithin(src, st)
    ensures var (after, kind, at) := ScanClose(src, st);
            SpanBegins(src, st.pos, at, kind) && TokenText(env, src, st.pos, after.pos, kind)
  {
    hide ScanString, ClosesAs, BreaksAs, NeverEnds, LongestNumber, NoToken;
    var n := |st.stack|;
    if n > 0 && st.brace == st.stack[n - 1].0 + 1 {
      var on := st.(pos := st.pos + 1, stack := st.stack[..n - 1], brace := st.brace - 1);
      StringText(src, on, st.pos + 1, st.stack[n - 1].1, true);
      EndsBehind(src, st.pos + 1, ScanClose(src, st).0.pos);
    }
  }

  lemma EndsBehind(src: Text, i: nat, e: nat)
    requires i <= |src|
    ensures ClosesAs(src, i, e) || BreaksAs(src, i, e) ==> i < e
  {
    forall j: nat, errs | Body(src, i, j, errs)
      ensures i <= j
    {
      BodyReaches(src, i, j, errs);
    }
  }

  lemma QuoteText(env: Env, src: Text, st: State)
    requires OneQuote(src, st.pos)
    ensures var (after, kind, at) := ScanString(src, st.(pos := st.pos + 1), st.pos, st.pos, false);
            at == st.pos && TokenText(env, src, st.pos, after.pos, kind)
  {
    hide ScanString, ClosesAs, BreaksAs, NeverEnds, LongestNumber, NoToken;
    StringText(src, st.(pos := st.pos + 1), st.pos, st.pos, false);
    EndsBehind(src, st.pos + 1, ScanString(src, st.(pos := st.pos + 1), st.pos, st.pos, false).0.pos);
  }

  lemma OperatorIsText(src: Text, g: nat)
    requires g < |src|
    ensures Punct(src, g).Some? ==> OperatorText(src, g, g + Punct(src, g).value.1, Punct(src, g).value.0)
    ensures Punct(src, g).None? ==> forall o :: IsOperator(o) ==> !StandsAt(src, g, o)
  {
    if Punct(src, g).Some? {
      PunctIs(src, g);
    }
    hide Punct, IsOperator, OperatorKind;
    OperatorExactly(src, g);
  }

  lemma StrayText(env: Env, src: Text, st: State)
    requires NoToken(src, st.pos)
    ensures var (after, kind, at) := ScanStray(env, src, st);
            at == st.pos && TokenText(env, src, st.pos, after.pos, kind)
  {
    assert st.pos < |src|;
    hide StrayEnd, WordBegin, Off, NoToken, LongestNumber;
    StrayEndIs(env, src, st.pos);
    WordBeginIs(env, src, st.pos);
  }

  /** What is read where the lexer stands is a token of its kind. */
  lemma ScanIsText(env: Env, src: Text, st: State)
    requires st.pos < |src| && QuotesWithin(src, st)
    ensures var (after, kind, at) := Scan(env, src, st);
            SpanBegins(src, st.pos, at, kind) && TokenText(env, src, st.pos, after.pos, kind)
  {
    hide Punct, ScanString, ScanTriple, ScanNumber, RunEnd, ScanClose, ScanStray, OperatorText, LongestNumber, NumberAt, BrokenAt;
    hide ClosesAs, BreaksAs, NeverEnds, RawCloses, RawNeverEnds, IsOperator, StandsAt;
    var i, c := st.pos, src[st.pos];
    OperatorIsText(src, i);
    if c == '"' {
      if ThreeQuotes(src, i) {
        TripleText(env, src, st);
      } else {
        QuoteText(env, src, st);
      }
    } else if IsDigit(c) {
      NumberText(env, src, st);
    } else if IsLetter(c) {
      WordIsText(src, i);
    } else if Punct(src, i).Some? {
      PunctIs(src, i);
      OperatorIsToken(env, src, i);
    } else if c == '}' {
      CloseText(env, src, st);
    } else if c != '{' && !(c == '#' && Is(src, i + 1, '{')) {
      StrayText(env, src, st);
    }
  }

  lemma OperatorIsToken(env: Env, src: Text, g: nat)
    requires g < |src| && Punct(src, g).Some?
    ensures TokenText(env, src, g, g + Punct(src, g).value.1, Punct(src, g).value.0)
  {
    OperatorIsText(src, g);
    OperatorIsRead(src, g);
    hide Punct, IsOperator, StandsAt;
  }

  // ---------------------------------------------------------------- a step of the lexer

  /** From `i` on there is a gap with the comments of the token, and the token, which ends at `e`. */
  ghost predicate StepText(env: Env, src: Text, i: nat, g: nat, e: nat, m: nat, found: seq<Comment>, kind: Token, start: nat) {
    && Gap(src, i, 0, g, m, found) && NoGap(src, g)
    && if kind == Eof then start == g == e == |src|
       else TokenText(env, src, g, e, kind) && SpanBegins(src, g, start, kind)
  }

  lemma {:induction false} BrokenHasMore(src: Text, st: State)
    requires st.pos <= |src|
    ensures Trivia(src, st).1.Some? ==> Trivia(src, st).0.more > 0
    decreases |src| - st.pos
  {
    hide White, RunEnd, Off, BlockEnd;
    PassOneIs(src, st);
    match PassOne(src, st)
    case Passed(after) =>
      WhiteIs(src, after);
      BrokenHasMore(src, White(src, after));
    case BrokenOff(after, i) =>
    case Neither =>
  }

  /** What is in front of a token, where the lexer stands behind the last one. */
  lemma FrontIsGap(src: Text, st: State) returns (m: nat, found: seq<Comment>)
    requires Good(src, st) && st.newlines == 0
    ensures White(src, st).pos <= |src|
    ensures var (gap, broken) := Trivia(src, White(src, st));
            broken.None? ==>
              && Good(src, gap) && Gap(src, st.pos, 0, gap.pos, m, found) && NoGap(src, gap.pos)
              && gap.comments == st.comments + found && gap.newlines == AtMostTwo(m)
  {
    hide White, Trivia, Gap, NoGap, Breaks, Off, CommentsIn, ErrorsRight, Nested;
    WhiteIs(src, st);
    WhitePassing(src, st);
    var white := White(src, st);
    NoNewComments(st.comments, 0, Off(src, white.pos));
    TriviaKept(src, white, |st.comments|, 0);
    m, found := 0, [];
    if Trivia(src, white).1.None? {
      WhiteThenGap(src, st, 0, 0, 0, []);
      m, found := TriviaIsGap(src, white, Breaks(src, st.pos, white.pos));
      WhiteThenGap(src, st, 0, Trivia(src, white).0.pos, m, found);
    }
  }

  lemma NextIsText(env: Env, src: Text, st: State) returns (g: nat, m: nat, found: seq<Comment>)
    requires Good(src, st) && QuotesWithin(src, st) && st.newlines == 0 && NextToken(env, src, st).0.more == 0
    ensures var (after, kind, start) := NextToken(env, src, st);
            && StepText(env, src, st.pos, g, after.pos, m, found, kind, start)
            && after.comments == st.comments + found && after.newlines == AtMostTwo(m)
  {
    hide White, Trivia, Scan, Gap, NoGap, TokenText, SpanBegins, ErrorsRight, Nested, AtMostTwo;
    m, found := FrontIsGap(src, st);
    var white := White(src, st);
    WhiteIs(src, st);
    TriviaIs(src, white);
    BrokenHasMore(src, white);
    var gap := Trivia(src, white).0;
    g := gap.pos;
    if Trivia(src, white).1.None? && g < |src| {
      ScanKept(env, src, gap);
      ScanIsText(env, src, gap);
    }
  }

  // ---------------------------------------------------------------- the whole text

  /** From `i` on the text is the tokens from the `k`th on. */
  ghost predicate Told(env: Env, src: Text, lexed: Lexed, i: nat, k: nat)
    decreases |lexed.tokens| - k
  {
    k < |lexed.tokens| && exists g: nat, e: nat, m: nat, start: nat :: ToldAt(env, src, lexed, i, k, g, e, m, start)
  }

  ghost predicate ToldAt(env: Env, src: Text, lexed: Lexed, i: nat, k: nat, g: nat, e: nat, m: nat, start: nat)
    requires k < |lexed.tokens|
    decreases |lexed.tokens| - k, 0
  {
    var t := lexed.tokens[k];
    && t.first <= t.last <= |lexed.comments| && start <= |src| && e <= |src|
    && StepText(env, src, i, g, e, m, lexed.comments[t.first..t.last], t.kind, start)
    && t.span == Between(src, start, e) && t.newlines == AtMostTwo(m)
    && if t.kind == Eof then k == |lexed.tokens| - 1 else Told(env, src, lexed, e, k + 1)
  }

  lemma {:induction false} LexTells(env: Env, src: Text, st: State, tokens: seq<Tok>)
    requires Good(src, st) && st.newlines == 0 && Lex(env, src, st, tokens).more == 0
    ensures tokens <= Lex(env, src, st, tokens).tokens && st.comments <= Lex(env, src, st, tokens).comments
    ensures Told(env, src, Lex(env, src, st, tokens), st.pos, |tokens|)
    decreases |src| - st.pos
  {
    hide NextToken, Off, CommentsIn, Nested, ErrorsRight, StepText, AtMostTwo, Rest;
    NextIs(env, src, st);
    var (after, kind, start) := NextToken(env, src, st);
    DroppedGood(src, after, after.(newlines := 0));
    if after.more > 0 {
      RestIs(env, src, after.(newlines := 0));
    } else {
      var lexed := Lex(env, src, st, tokens);
      var t := TokOf(src, after, |st.comments|, kind, start);
      var more := tokens + [t];
      var g, m, found := NextIsText(env, src, st);
      if kind != Eof {
        LexTells(env, src, after.(newlines := 0), more);
      }
      hide Lex, Told;
      assert lexed.tokens[|tokens|] == t;
      assert lexed.comments[t.first..t.last] == found;
      ToldBy(env, src, lexed, st.pos, |tokens|, g, after.pos, m, start);
    }
  }

  lemma ToldBy(env: Env, src: Text, lexed: Lexed, i: nat, k: nat, g: nat, e: nat, m: nat, start: nat)
    requires k < |lexed.tokens| && ToldAt(env, src, lexed, i, k, g, e, m, start)
    ensures Told(env, src, lexed, i, k)
  {
  }

  /**
    A text that drops no error is, behind a mark of the byte order, its tokens and what stands between
    them: each token has the longest form of its kind, and its comments and line breaks are those in
    front of it.
   */
  lemma TokensCoverTheText(env: Env, src: Text)
    requires Tokenized(env, src).more == 0
    ensures Told(env, src, Tokenized(env, src), if Is(src, 0, '\U{FEFF}') then 1 else 0, 0)
  {
    InitialGood(src);
    hide Lex, Told, Good;
    LexTells(env, src, Initial(src), []);
  }
}
