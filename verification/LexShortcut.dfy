/**
  Exactly when the REPL's shortcut is right: what decides is where the input ended, how many errors it
  had, and what the new line alone is lexed to.
 */
module LexShortcut {
  import opened Basics
  import opened LexText
  import opened LexScan
  import opened LexSpec
  import opened LexKeeps
  import opened LexTokens
  import opened LexOpen
  import opened LexLines
  import opened LexShift
  import opened LexLine
  import opened LexRepl

  // ---------------------------------------------------------------- where an input ends

  /**
    Where the end of an input is: in code, in a block comment, in a raw string or in a string; the
    errors kept so far (without that of a string's missing quote) and the mistakes told once.
   */
  datatype End =
    | InCode(errors: nat, repeats: set<Text>, interpolation: bool)
    | InComment
    | InRawString
    | InString(errors: nat, repeats: set<Text>, inEscape: bool)

  lemma ReadGood(env: Env, a: Text)
    ensures Good(a, ReadOf(env, a).0)
  {
    hide BeforeEnd, LastState, NextToken, Tokenized, Off, Rest, Lex, NextOf, ReadOf;
    FromThere(env, a, a + ['\n']);
  }

  /** What is in front of the last token, when the lexer stands at `st`. */
  ghost function FrontOf(src: Text, st: State): State
    requires st.pos <= |src|
  {
    WhiteIs(src, st);
    Trivia(src, White(src, st)).0
  }

  ghost function EndOf(env: Env, a: Text): End {
    ReadGood(env, a);
    var there := ReadOf(env, a).0;
    EndFrom(a, FrontOf(a, there), NextOf(env, a, there).0)
  }

  ghost function EndFrom(a: Text, front: State, last: State): End {
    if front.cutShort then InComment
    else if !last.cutShort then InCode(|last.errors|, last.repeats, last.stack != [])
    else if Is(a, front.pos + 1, '"') && Is(a, front.pos + 2, '"') then InRawString
    else
      InString(if last.errors == [] then 0 else |last.errors| - 1, last.repeats,
               front.pos < |a| && StrScan(a, front.pos + 1) == Unclosed(StrScan(a, front.pos + 1).errs, true))
  }

  // ---------------------------------------------------------------- what the line is lexed to

  ghost predicate CanStart(errors: nat, repeats: set<Text>) {
    errors <= MAX_SYNTAX_ERRORS && (repeats != {} ==> errors > 0)
  }

  /** A line alone, behind so many errors. */
  function Alone(env: Env, line: Text, errors: nat, repeats: set<Text>): Lexed
    requires CanStart(errors, repeats)
  {
    LineStartGood(line, errors, repeats);
    Lex(env, line, LineStart(errors, repeats), [])
  }

  /** What follows inside a string that the input left open: with the backslash that ended it, if one did. */
  function RestOfString(inEscape: bool, b: Text): Text {
    (if inEscape then ['\\'] else []) + ['\n'] + b
  }

  /** With the errors of the line none is dropped. */
  ghost predicate ErrorsFit(env: Env, end: End, b: Text) {
    match end
    case InCode(errors, repeats, _) => CanStart(errors, repeats) && Alone(env, b, errors, repeats).more == 0
    case InComment => true
    case InRawString => true
    case InString(errors, repeats, inEscape) => StringFits(env, RestOfString(inEscape, b), errors, repeats)
  }

  ghost predicate StringFits(env: Env, rest: Text, errors: nat, repeats: set<Text>) {
    StrScanIs(rest, 0);
    match StrScan(rest, 0)
    case Unclosed(errs, _) => errors + |errs| < MAX_SYNTAX_ERRORS
    case Brace(at, errs) =>
      CanStart(errors + |errs|, repeats) && Alone(env, rest[at..], errors + |errs|, repeats).more == 0
    case Closed(_, _) => false
  }

  /** The line starts a block comment in code with an interpolation open. */
  ghost predicate CommentInside(env: Env, end: End, b: Text) {
    match end
    case InCode(errors, repeats, interpolation) =>
      interpolation && CanStart(errors, repeats) && Alone(env, b, errors, repeats).cutShort
    case InComment => false
    case InRawString => false
    case InString(errors, repeats, inEscape) => CommentInString(env, RestOfString(inEscape, b), errors, repeats)
  }

  /** In what follows inside a string: behind a brace that begins an interpolation. */
  ghost predicate CommentInString(env: Env, rest: Text, errors: nat, repeats: set<Text>) {
    StrScanIs(rest, 0);
    match StrScan(rest, 0)
    case Brace(at, errs) =>
      CanStart(errors + |errs|, repeats) && Alone(env, rest[at..], errors + |errs|, repeats).cutShort
    case _ => false
  }

  // ---------------------------------------------------------------- an input that ends in code

  /** What is in front of the next token in the longer text is, from the line on, what is in front of the line's first. */
  lemma {:induction false} ThroughTrivia(a: Text, t: Text, b: Text, st: State, last: State)
    requires GoesOn(a, t) && Tail(t, b, |a| + 1) && NoClosers(b, 0) && st.pos <= |a| && White(a, st).pos <= |a|
    requires Trivia(a, White(a, st)) == (last, None) && last.pos == |a| && !last.cutShort && last.more == 0
    ensures var r := LineStart(|last.errors|, last.repeats);
            && st.pos <= |t| && White(t, st).pos <= |t| && White(b, r).pos <= |b|
            && InStep(Trivia(t, White(t, st)).0, Trivia(b, White(b, r)).0, |a| + 1)
            && Trivia(t, White(t, st)).1.None? == Trivia(b, White(b, r)).1.None?
    decreases |a| - st.pos
  {
    var r, white := LineStart(|last.errors|, last.repeats), White(a, st);
    WhiteIs(a, st);
    WhiteIs(t, st);
    WhiteIs(b, r);
    PassOneIs(a, white);
    if white.pos == |a| {
      NothingAtTheEnd(a, white);
      WhiteOver(a, t, b, st, r);
      hide NoClosers, Trivia, White;
      TriviaInStep(t, b, |a| + 1, White(t, st), White(b, r));
    } else {
      hide White, PassOne, NoClosers, InStep, Tail;
      match PassOne(a, white)
      case Passed(after) =>
        WhiteIs(a, after);
        TriviaFlags(a, White(a, after));
        WhiteStays(a, t, st);
        PassOneStays(a, t, white);
        ThroughTrivia(a, t, b, after, last);
      case BrokenOff(_, _) =>
      case Neither =>
    }
  }

  /** White space up to the end of the input, and on in the line. */
  lemma WhiteOver(a: Text, t: Text, b: Text, st: State, r: State)
    requires GoesOn(a, t) && Tail(t, b, |a| + 1) && st.pos <= |a| && White(a, st).pos == |a| && r.pos == 0
    requires InStep(st.(pos := |a| + 1), r, |a| + 1)
    ensures st.pos <= |t| && InStep(White(t, st), White(b, r), |a| + 1)
  {
    RunEndIs(t, st.pos, BlankChar());
    RunEndIs(b, 0, BlankChar());
    RunOver(a, t, st.pos, BlankChar());
    RunEndShift(t, b, |a| + 1, 0, BlankChar());
    hide RunEnd, LinesIn;
  }

  lemma {:induction false} RunOver(a: Text, t: Text, i: nat, p: char -> bool)
    requires GoesOn(a, t) && p('\n') && i <= |a| && RunEnd(a, i, p) == |a|
    ensures RunEnd(t, i, p) == RunEnd(t, |a| + 1, p)
    decreases |a| - i
  {
    if i < |a| {
      RunOver(a, t, i + 1, p);
    }
  }

  lemma NewlineCuts(env: Env, a: Text, t: Text)
    requires GoesOn(a, t)
    ensures CleanCut(env, t, |a| + 1)
  {
  }

  /** The line comes to the same behind the input and alone. */
  lemma CodeInStep(env: Env, a: Text, t: Text, b: Text, there: State, read: seq<Tok>)
    requires GoesOn(a, t) && Tail(t, b, |a| + 1) && NoClosers(b, 0) && Good(a, there) && Good(t, there)
    requires NextOf(env, a, there).1 == Eof && !NextOf(env, a, there).0.cutShort && NextOf(env, a, there).0.more == 0
    ensures var last := NextOf(env, a, there).0;
            && CanStart(|last.errors|, last.repeats) && last.stack == there.stack
            && SameEnd(Lex(env, t, there, read), Alone(env, b, |last.errors|, last.repeats))
  {
    var last := NextOf(env, a, there).0;
    var r := LineStart(|last.errors|, last.repeats);
    EofIsTrivia(env, a, there);
    EofState(env, a, there);
    NextGood(env, a, there);
    LineStartGood(b, |last.errors|, last.repeats);
    NewlineCuts(env, a, t);
    ThroughTrivia(a, t, b, there, last);
    hide Good, NextOf, White, Trivia, NoClosers, Tail, CleanCut, InStep, GoesOn, Lex;
    FromTriviaInStep(env, t, b, |a| + 1, there, r);
    AfterNextInStep(env, t, b, |a| + 1, there, r, read, []);
  }

  lemma NextGood(env: Env, src: Text, st: State)
    requires Good(src, st)
    ensures Good(src, NextOf(env, src, st).0)
    ensures CanStart(|NextOf(env, src, st).0.errors|, NextOf(env, src, st).0.repeats)
  {
    NextIs(env, src, st);
    hide NextToken, Off, CommentsIn, Nested;
  }

  lemma EofState(env: Env, a: Text, st: State)
    requires Good(a, st) && NextOf(env, a, st).1 == Eof && !NextOf(env, a, st).0.cutShort
    requires st.pos <= |a| && White(a, st).pos <= |a|
    requires var (after, broken) := Trivia(a, White(a, st)); broken.None? && after.pos == |a|
    ensures Trivia(a, White(a, st)) == (NextOf(env, a, st).0, None) && NextOf(env, a, st).0.stack == st.stack
  {
    NextIs(env, a, st);
    WhiteIs(a, st);
    TriviaIs(a, White(a, st));
    hide White, Trivia, Scan, Good, NextRight;
  }

  /** A line without closers opens no interpolation and closes none. */
  lemma {:induction false} QuietLexInterpolations(env: Env, src: Text, st: State, tokens: seq<Tok>, p: nat)
    requires Good(src, st) && NoClosers(src, p)
    requires st.pos <= |src| && White(src, st).pos <= |src| && Trivia(src, White(src, st)).0.pos >= p
    ensures Interpolations(Opens(Lex(env, src, st, tokens).tokens)) == Interpolations(Opens(tokens))
    decreases |src| - st.pos
  {
    NextIs(env, src, st);
    QuietNext(env, src, st, p);
    hide Off, NextToken, CommentsIn, Nested, ErrorsRight, NoClosers, Opens, White, Trivia, Rest, Interpolations, OpenAfter;
    var (after, kind, start) := NextToken(env, src, st);
    DroppedGood(src, after, after.(newlines := 0));
    if after.more > 0 {
      var lexed := CutOff(env, src, after, tokens, start);
      var n := |tokens|;
      assert lexed.tokens == tokens + [lexed.tokens[n]] + [lexed.tokens[n + 1]];
      QuietInterpolations(tokens, lexed.tokens[n]);
      QuietInterpolations(tokens + [lexed.tokens[n]], lexed.tokens[n + 1]);
    } else {
      var t := TokOf(src, after, |st.comments|, kind, start);
      QuietInterpolations(tokens, t);
      if kind != Eof {
        var next := after.(newlines := 0);
        WhiteIs(src, next);
        TriviaIs(src, White(src, next));
        QuietLexInterpolations(env, src, next, tokens + [t], p);
      }
    }
  }

  lemma QuietInterpolations(tokens: seq<Tok>, t: Tok)
    requires IsQuiet(t.kind)
    ensures Interpolations(Opens(tokens + [t])) == Interpolations(Opens(tokens))
  {
    OpensSnoc(tokens, t);
    OpenSteps(Opens(tokens), t.kind);
    hide Opens, Interpolations, OpenAfter;
  }

  lemma CodeExactly(env: Env, a: Text, b: Text)
    requires EndsOpenOf(Tokenized(env, a)) && !Tokenized(env, a).cutShort && Plain(b)
    ensures EndOf(env, a).InCode?
    ensures EndsOpenOf(Tokenized(env, a + ['\n'] + b)) <==> ErrorsFit(env, EndOf(env, a), b) && !CommentInside(env, EndOf(env, a), b)
  {
    var t := a + ['\n'] + b;
    PlainLine(a, b);
    FromThere(env, a, t);
    var (there, read) := ReadOf(env, a);
    hide BeforeEnd, LastState, NextToken, Tokenized, Off, Rest, Lex, NextOf, White, Trivia, Opens, NoClosers, ReadOf, Plain, Alone, Good;
    AtEof(env, a, there, read);
    EofIsTrivia(env, a, there);
    CodeInStep(env, a, t, b, there, read);
    EofGoesOn(env, a, t, there);
    QuietLexInterpolations(env, t, there, read, |a|);
    ReadGood(env, a);
    StackOfRead(env, a);
    InterpolationIsCounted(Opens(Tokenized(env, t).tokens));
    if Tokenized(env, t).more == 0 && !Tokenized(env, t).cutShort {
      WholeStaysOpen(env, a, t);
    }
  }

  /** As many interpolations are open in the tokens read as in the lexer. */
  lemma {:induction false} ReadStack(env: Env, src: Text, st: State, tokens: seq<Tok>)
    requires Good(src, st) && Interpolations(Opens(tokens)) == |st.stack|
    ensures var (there, read) := BeforeEnd(env, src, st, tokens); Interpolations(Opens(read)) == |there.stack|
    decreases |src| - st.pos
  {
    hide Off, NextToken, CommentsIn, ErrorsRight, QuotesWithin, Opens, Interpolations, OpenAfter;
    NextIs(env, src, st);
    var (after, kind, start) := NextToken(env, src, st);
    DroppedGood(src, after, after.(newlines := 0));
    if !(kind == Eof || after.more > 0 || after.cutShort) {
      var t := TokOf(src, after, |st.comments|, kind, start);
      NextSteps(env, src, st);
      OpensSnoc(tokens, t);
      OpenSteps(Opens(tokens), kind);
      ReadStack(env, src, after.(newlines := 0), tokens + [t]);
    }
  }

  lemma StackOfRead(env: Env, a: Text)
    ensures Interpolations(Opens(ReadOf(env, a).1)) == |ReadOf(env, a).0.stack|
    ensures Interpolation in Opens(ReadOf(env, a).1) <==> ReadOf(env, a).0.stack != []
  {
    InitialGood(a);
    assert Interpolations(Opens([])) == 0;
    InterpolationIsCounted(Opens(ReadOf(env, a).1));
    hide BeforeEnd, Opens, Interpolations;
    ReadStack(env, a, Initial(a), []);
  }

  // ---------------------------------------------------------------- behind the end

  /** Behind what runs into the end of the text there is nothing but the end. */
  lemma OnlyErrorBehind(env: Env, src: Text, st: State, tokens: seq<Tok>)
    requires Good(src, st) && !st.cutShort && NextOf(env, src, st).0.cutShort && Lex(env, src, st, tokens).more == 0
    ensures Opens(Lex(env, src, st, tokens).tokens) == Opens(tokens)
  {
    NextIs(env, src, st);
    CutEndsTheText(env, src, st);
    hide Off, NextToken, CommentsIn, Nested, ErrorsRight, QuotesWithin, Opens;
    var (after, kind, start) := NextToken(env, src, st);
    var next := after.(newlines := 0);
    DroppedGood(src, after, next);
    if after.more > 0 {
      RestIs(env, src, next);
    } else {
      var t := TokOf(src, after, |st.comments|, kind, start);
      OpensSnoc(tokens, t);
      if kind != Eof {
        NextIs(env, src, next);
        AtTheVeryEnd(env, src, next);
        OpensSnoc(tokens + [t], TokOf(src, NextToken(env, src, next).0, |next.comments|, Eof, |src|));
      }
    }
  }

  lemma AtTheVeryEnd(env: Env, src: Text, st: State)
    requires Good(src, st) && st.pos == |src|
    ensures NextOf(env, src, st) == (st, Eof, |src|)
  {
    NextIs(env, src, st);
    assert RunEnd(src, |src|, BlankChar()) == |src|;
    NothingAtTheEnd(src, White(src, st));
  }

  /** What runs into the end of the text ends there, and is an error or the end itself. */
  lemma CutEndsTheText(env: Env, src: Text, st: State)
    requires Good(src, st) && !st.cutShort && NextOf(env, src, st).0.cutShort
    ensures NextOf(env, src, st).0.pos == |src| && (NextOf(env, src, st).1 == Error || NextOf(env, src, st).1 == Eof)
  {
    hide White, Trivia, Scan, NextRight, ErrorsRight, Nested;
    NextIs(env, src, st);
    WhiteIs(src, st);
    var white := White(src, st);
    TriviaIs(src, white);
    TriviaCutAtEnd(src, white);
    var (after, broken) := Trivia(src, white);
    if broken.None? && after.pos < |src| {
      ScanCutAtEnd(env, src, after);
    }
  }

  lemma {:induction false} TriviaCutAtEnd(src: Text, st: State)
    requires st.pos <= |src| && !st.cutShort
    ensures Trivia(src, st).0.cutShort ==> Trivia(src, st).0.pos == |src|
    decreases |src| - st.pos
  {
    hide White, RunEnd, Off, BlockEnd;
    PassOneIs(src, st);
    TriviaIs(src, st);
    match PassOne(src, st)
    case Passed(next) =>
      WhiteIs(src, next);
      TriviaIs(src, White(src, next));
      if !next.cutShort {
        TriviaCutAtEnd(src, White(src, next));
      }
    case BrokenOff(next, i) =>
    case Neither =>
  }

  lemma StringCutAtEnd(src: Text, st: State, start: nat, quote: nat, rest: bool)
    requires st.pos <= |src| && start <= |src| && quote <= |src| && !st.cutShort
    ensures var r := ScanString(src, st, start, quote, rest); r.0.cutShort ==> r.0.pos == |src| && r.1 == Error
  {
    hide Off, RecordedAll, StrScan;
    match StrScan(src, st.pos)
    case Closed(end, errs) => RecordedAllSame(st.(pos := end), errs);
    case Brace(end, errs) =>
      RecordedAllSame(st.(pos := end, stack := st.stack + [(st.brace, quote)], brace := st.brace + 1), errs);
    case Unclosed(errs, inEscape) => RecordedAllSame(st.(pos := |src|, cutShort := true), errs);
  }

  lemma CloseCutAtEnd(src: Text, st: State)
    requires st.pos < |src| && QuotesWithin(src, st) && !st.cutShort && ScanClose(src, st).0.cutShort
    ensures ScanClose(src, st).0.pos == |src| && ScanClose(src, st).1 == Error
  {
    hide ScanString;
    var n := |st.stack|;
    StringCutAtEnd(src, st.(pos := st.pos + 1, stack := st.stack[..n - 1], brace := st.brace - 1), st.pos + 1, st.stack[n - 1].1, true);
  }

  lemma TripleCutAtEnd(src: Text, st: State)
    requires st.pos < |src| && !st.cutShort && ScanTriple(src, st).0.cutShort
    ensures ScanTriple(src, st).0.pos == |src| && ScanTriple(src, st).1 == Error
  {
    hide Off, TripleEnd;
  }

  lemma ScanCutAtEnd(env: Env, src: Text, st: State)
    requires st.pos < |src| && QuotesWithin(src, st) && !st.cutShort && Scan(env, src, st).0.cutShort
    ensures Scan(env, src, st).0.pos == |src| && Scan(env, src, st).1 == Error
  {
    NotCut(env, src, st);
    hide ScanString, ScanTriple, ScanNumber, ScanWord, ScanClose, ScanStray, Punct, QuotesWithin;
    var i := st.pos;
    if src[i] == '"' {
      if Is(src, i + 1, '"') && Is(src, i + 2, '"') {
        TripleCutAtEnd(src, st);
      } else {
        StringCutAtEnd(src, st.(pos := i + 1), i, i, false);
      }
    } else if src[i] == '}' {
      CloseCutAtEnd(src, st);
    }
  }

  // ---------------------------------------------------------------- an input that ends in a comment or in a raw string

  /** What runs into the end of a text is the last of its tokens. */
  lemma CutLex(env: Env, src: Text, st: State, tokens: seq<Tok>)
    requires Good(src, st) && !st.cutShort && NextOf(env, src, st).0.cutShort
    ensures Lex(env, src, st, tokens).more == 0 <==> NextOf(env, src, st).0.more == 0
    ensures Lex(env, src, st, tokens).more == 0 ==>
              Lex(env, src, st, tokens).cutShort && Opens(Lex(env, src, st, tokens).tokens) == Opens(tokens)
  {
    NextIs(env, src, st);
    CutEndsTheText(env, src, st);
    hide Off, NextToken, CommentsIn, Nested, ErrorsRight, QuotesWithin, Opens;
    var (after, kind, start) := NextToken(env, src, st);
    var next := after.(newlines := 0);
    DroppedGood(src, after, next);
    if after.more > 0 {
      RestIs(env, src, next);
    } else {
      if kind != Eof {
        NextIs(env, src, next);
        AtTheVeryEnd(env, src, next);
      }
      OnlyErrorBehind(env, src, st, tokens);
    }
  }

  lemma PassOneCutCount(a: Text, t: Text, st: State)
    requires GoesOn(a, t) && NoClosers(t, |a|) && st.pos < |a| && !st.cutShort
    requires PassOne(a, st).Passed? && PassOne(a, st).st.cutShort && PassOne(a, st).st.more == 0
    ensures PassOne(t, st).Passed? && PassOne(t, st).st.cutShort && PassOne(t, st).st.more == 0 && PassOne(t, st).st.pos == |t|
    ensures PassOne(a, st).st.pos == |a|
  {
    var i := st.pos;
    hide Off, RunEnd, NoClosers;
    IsStays(a, t, i + 1, '-');
    BlockEndIs(a, i + 2, 1);
    BlockStaysOpen(a, t, i + 2, 1);
    hide BlockEnd;
  }

  /** A comment that runs into the end of the input runs into the end of the longer text, with the same error. */
  lemma {:induction false} TriviaCutCount(a: Text, t: Text, st: State)
    requires GoesOn(a, t) && NoClosers(t, |a|) && st.pos <= |a| && !st.cutShort
    requires Trivia(a, st).0.cutShort && Trivia(a, st).0.more == 0
    ensures st.pos <= |t| && Trivia(t, st).0.cutShort && Trivia(t, st).0.more == 0
    ensures Trivia(t, st).0.pos == |t| && Trivia(t, st).1.None?
    decreases |a| - st.pos
  {
    hide PassOne, White, NoClosers;
    PassOneIs(a, st);
    PassOneIs(t, st);
    TriviaMore(a, st);
    if PassOne(a, st).Passed? && PassOne(a, st).st.cutShort {
      var next := PassOne(a, st).st;
      WhiteIs(a, next);
      TriviaMore(a, White(a, next));
      PassOneCutCount(a, t, st);
      var next' := PassOne(t, st).st;
      WhiteIs(t, next');
      NothingAtTheEnd(t, White(t, next'));
    } else {
      PassOneStays(a, t, st);
      var next := PassOne(a, st).st;
      WhiteIs(a, next);
      if White(a, next).pos < |a| {
        WhiteStays(a, t, next);
        TriviaCutCount(a, t, White(a, next));
      } else {
        NothingAtTheEnd(a, White(a, next));
      }
    }
  }

  lemma PassOneMore(src: Text, st: State)
    requires st.pos <= |src|
    ensures PassOne(src, st).BrokenOff? ==> PassOne(src, st).st.more > 0
    ensures PassOne(src, st).Passed? ==> st.more <= PassOne(src, st).st.more
  {
    hide RunEnd, BlockEnd, Off;
  }

  lemma {:induction false} TriviaMore(src: Text, st: State)
    requires st.pos <= |src|
    ensures st.more <= Trivia(src, st).0.more && (Trivia(src, st).1.Some? ==> Trivia(src, st).0.more > 0)
    ensures PassOne(src, st).BrokenOff? ==> Trivia(src, st).0.more > 0
    decreases |src| - st.pos
  {
    PassOneIs(src, st);
    PassOneMore(src, st);
    hide PassOne, White;
    match PassOne(src, st)
    case Passed(next) =>
      WhiteIs(src, next);
      TriviaMore(src, White(src, next));
    case BrokenOff(next, i) =>
    case Neither =>
  }

  lemma CommentStays(env: Env, a: Text, t: Text, st: State)
    requires GoesOn(a, t) && NoClosers(t, |a|) && Good(a, st) && Good(t, st) && !st.cutShort
    requires FrontOf(a, st).cutShort && NextOf(env, a, st).0.more == 0
    ensures NextOf(env, t, st).0.cutShort && NextOf(env, t, st).0.more == 0
  {
    NextIs(env, a, st);
    NextIs(env, t, st);
    WhiteIs(a, st);
    WhiteIs(t, st);
    TriviaThenMore(env, a, st);
    FrontAtTheEnd(a, st);
    hide White, Trivia, Scan, NoClosers, Good, NextRight;
    WhiteStays(a, t, st);
    TriviaCutCount(a, t, White(a, st));
  }

  lemma FrontAtTheEnd(src: Text, st: State)
    requires st.pos <= |src| && White(src, st).pos <= |src|
    ensures White(src, st).pos == |src| ==> Trivia(src, White(src, st)) == (White(src, st), None)
  {
    if White(src, st).pos == |src| {
      NothingAtTheEnd(src, White(src, st));
    }
  }

  lemma TriviaThenMore(env: Env, src: Text, st: State)
    requires Good(src, st)
    ensures st.pos <= |src| && FrontOf(src, st).more <= NextOf(env, src, st).0.more
  {
    NextIs(env, src, st);
    GoodTriviaOf(src, st);
    WhiteIs(src, st);
    TriviaIs(src, White(src, st));
    hide White, Trivia, Scan, NextRight;
    var (after, broken) := Trivia(src, White(src, st));
    if broken.None? && after.pos < |src| {
      ScanKept(env, src, after);
    }
  }

  lemma GoodTriviaOf(src: Text, st: State)
    requires Good(src, st)
    ensures st.pos <= |src| && Good(src, FrontOf(src, st))
  {
    WhiteIs(src, st);
    hide White, Trivia;
    GoodTrivia(src, st);
  }

  /** The last token of the input is not in front of a comment: it stands where the lexer stands in the longer text too. */
  lemma FrontStays(env: Env, a: Text, t: Text, st: State)
    requires GoesOn(a, t) && Good(a, st) && Good(t, st) && !st.cutShort
    requires !FrontOf(a, st).cutShort && NextOf(env, a, st).0.cutShort
    ensures st.pos <= |a| && st.pos <= |t| && QuotesWithin(a, FrontOf(a, st)) && QuotesWithin(t, FrontOf(a, st))
    ensures FrontOf(a, st).pos < |a| && FrontOf(t, st) == FrontOf(a, st) && FrontOf(a, st).stack == st.stack
    ensures NextOf(env, a, st) == Scan(env, a, FrontOf(a, st)) && NextOf(env, t, st) == Scan(env, t, FrontOf(a, st))
  {
    NextIs(env, a, st);
    NextIs(env, t, st);
    WhiteIs(a, st);
    WhiteIs(t, st);
    GoodTriviaOf(a, st);
    TriviaIs(a, White(a, st));
    BrokenIsCutShort(a, White(a, st));
    FrontAtTheEnd(a, st);
    assert QuotesWithin(a, FrontOf(a, st));
    hide White, Trivia, Scan, NextRight, ErrorsRight;
    WhiteStays(a, t, st);
    TriviaStays(a, t, White(a, st));
  }

  /** Without an interpolation, what runs into the end of the text begins with a quote. */
  lemma CutBegins(env: Env, src: Text, st: State)
    requires st.pos < |src| && QuotesWithin(src, st) && !st.cutShort && st.stack == [] && Scan(env, src, st).0.cutShort
    ensures src[st.pos] == '"'
  {
    NotCut(env, src, st);
    hide ScanString, ScanTriple, ScanNumber, ScanWord, ScanStray, Punct;
  }

  lemma RawStringStays(a: Text, t: Text, st: State)
    requires GoesOn(a, t) && NoClosers(t, |a|) && st.pos < |a| && !st.cutShort
    requires ScanTriple(a, st).0.cutShort && ScanTriple(a, st).0.more == 0
    ensures ScanTriple(t, st).0.cutShort && ScanTriple(t, st).0.more == 0
  {
    hide Off, NoClosers;
    TripleStaysOpen(a, t, st.pos + 3);
    hide TripleEnd;
  }

  // ---------------------------------------------------------------- an input that ends in a string

  /** A string that runs into the end of the input is read on from there, or from the backslash that ends the input. */
  lemma {:induction false} StringGoesOn(a: Text, t: Text, i: nat)
    requires GoesOn(a, t) && i <= |a| && StrScan(a, i).Unclosed?
    ensures var j := if StrScan(a, i).inEscape then |a| - 1 else |a|;
            i <= j <= |t| && StrScan(t, i) == WithErrs(StrScan(a, i).errs, StrScan(t, j))
    decreases |a| - i
  {
    hide UniEscape;
    if i < |a| {
      if a[i] == '\\' {
        if i + 1 < |a| {
          EscapeIs(a, i);
          EscapeStays(a, t, i);
          hide Escape;
          StringGoesOn(a, t, Escape(a, i).0);
          var j := if StrScan(a, i).inEscape then |a| - 1 else |a|;
          WithErrsTwice(Escape(a, i).1, StrScan(a, Escape(a, i).0).errs, StrScan(t, j));
        }
      } else {
        StringGoesOn(a, t, i + 1);
      }
    }
  }

  lemma WithErrsTwice(x: seq<Span>, y: seq<Span>, s: Str)
    ensures WithErrs(x, WithErrs(y, s)) == WithErrs(x + y, s)
  {
    assert x + (y + s.errs) == x + y + s.errs;
  }

  lemma RestIsTail(a: Text, b: Text, inEscape: bool)
    requires inEscape ==> a != [] && a[|a| - 1] == '\\'
    ensures Tail(a + ['\n'] + b, RestOfString(inEscape, b), if inEscape then |a| - 1 else |a|)
  {
    var t := a + ['\n'] + b;
    if inEscape {
      assert t[|a| - 1..] == RestOfString(true, b);
    } else {
      assert t[|a|..] == RestOfString(false, b);
    }
  }

  lemma {:induction false} EscapeAtEnd(src: Text, i: nat)
    requires i <= |src| && StrScan(src, i).Unclosed? && StrScan(src, i).inEscape
    ensures i < |src| && src[|src| - 1] == '\\'
    decreases |src| - i
  {
    if src[i] == '\\' {
      if i + 1 < |src| {
        EscapeIs(src, i);
        hide Escape;
        EscapeAtEnd(src, Escape(src, i).0);
      }
    } else {
      EscapeAtEnd(src, i + 1);
    }
  }

  lemma {:induction false} RecordedAllCount(st: State, errs: seq<Span>)
    requires |st.errors| <= MAX_SYNTAX_ERRORS && st.more == 0
    ensures RecordedAll(st, errs).more == 0 <==> |st.errors| + |errs| <= MAX_SYNTAX_ERRORS
    ensures RecordedAll(st, errs).more == 0 ==> |RecordedAll(st, errs).errors| == |st.errors| + |errs|
    ensures RecordedAll(st, errs).repeats == st.repeats
    decreases |errs|
  {
    if errs != [] {
      if |st.errors| < MAX_SYNTAX_ERRORS {
        RecordedAllCount(Recorded(st, errs[0]), errs[1..]);
      } else {
        MoreGrows(Recorded(st, errs[0]), errs[1..]);
      }
    }
  }

  lemma {:induction false} MoreGrows(st: State, errs: seq<Span>)
    ensures st.more <= RecordedAll(st, errs).more && RecordedAll(st, errs).repeats == st.repeats
    decreases |errs|
  {
    if errs != [] {
      MoreGrows(Recorded(st, errs[0]), errs[1..]);
    }
  }

  /** The string of the input: so many wrong escapes, and the error of the missing quote. */
  lemma StringAtEnd(a: Text, st: State)
    requires st.pos < |a| && st.more == 0 && |st.errors| <= MAX_SYNTAX_ERRORS && !st.cutShort
    requires ScanString(a, st.(pos := st.pos + 1), st.pos, st.pos, false).0.cutShort
    requires ScanString(a, st.(pos := st.pos + 1), st.pos, st.pos, false).0.more == 0
    ensures StrScan(a, st.pos + 1).Unclosed?
    ensures var last := ScanString(a, st.(pos := st.pos + 1), st.pos, st.pos, false).0;
            |last.errors| == |st.errors| + |StrScan(a, st.pos + 1).errs| + 1 && last.repeats == st.repeats
  {
    hide Off, RecordedAll;
    match StrScan(a, st.pos + 1)
    case Closed(end, errs) => RecordedAllSame(st.(pos := end), errs);
    case Brace(end, errs) =>
      RecordedAllSame(st.(pos := end, stack := st.stack + [(st.brace, st.pos)], brace := st.brace + 1), errs);
    case Unclosed(errs, _) =>
      hide StrScan;
      RecordedAllCount(st.(pos := |a|, cutShort := true), errs);
  }

  /** The string in the longer text is not closed either: so many errors more, and the same end. */
  lemma StringStillOpen(t: Text, st: State)
    requires st.pos < |t| && st.more == 0 && |st.errors| <= MAX_SYNTAX_ERRORS && !st.cutShort && StrScan(t, st.pos + 1).Unclosed?
    ensures var r := ScanString(t, st.(pos := st.pos + 1), st.pos, st.pos, false).0;
            r.cutShort && (r.more == 0 <==> |st.errors| + |StrScan(t, st.pos + 1).errs| < MAX_SYNTAX_ERRORS)
  {
    hide Off, RecordedAll, StrScan;
    RecordedAllSame(st.(pos := |t|, cutShort := true), StrScan(t, st.pos + 1).errs);
    RecordedAllCount(st.(pos := |t|, cutShort := true), StrScan(t, st.pos + 1).errs);
  }

  /** Or it has come to an interpolation. */
  lemma StringInterpolates(t: Text, st: State)
    requires st.pos < |t| && st.more == 0 && |st.errors| <= MAX_SYNTAX_ERRORS && !st.cutShort && StrScan(t, st.pos + 1).Brace?
    ensures var r := ScanString(t, st.(pos := st.pos + 1), st.pos, st.pos, false);
            var errors := |st.errors| + |StrScan(t, st.pos + 1).errs|;
            && r.1 == StringStart && !r.0.cutShort && r.0.pos == StrScan(t, st.pos + 1).end && r.0.repeats == st.repeats
            && (r.0.more == 0 <==> errors <= MAX_SYNTAX_ERRORS) && (r.0.more == 0 ==> |r.0.errors| == errors)
  {
    hide Off, RecordedAll, StrScan;
    var s := StrScan(t, st.pos + 1);
    RecordedAllSame(st.(pos := s.end, stack := st.stack + [(st.brace, st.pos)], brace := st.brace + 1), s.errs);
    RecordedAllCount(st.(pos := s.end, stack := st.stack + [(st.brace, st.pos)], brace := st.brace + 1), s.errs);
  }

  lemma DroppedToken(env: Env, src: Text, st: State, tokens: seq<Tok>)
    requires Good(src, st) && NextOf(env, src, st).0.more > 0
    ensures Lex(env, src, st, tokens).more > 0
  {
    NextIs(env, src, st);
    hide Off, NextToken, CommentsIn, Nested, ErrorsRight, QuotesWithin;
    var after := NextToken(env, src, st).0;
    DroppedGood(src, after, after.(newlines := 0));
    RestIs(env, src, after.(newlines := 0));
  }

  /** Behind the brace the line is code, in an interpolation. */
  lemma BraceInStep(env: Env, t: Text, l: Text, d: nat, st: State, read: seq<Tok>)
    requires Good(t, st) && Tail(t, l, d) && CleanCut(env, t, d) && NoClosers(l, 0)
    requires var next := NextOf(env, t, st); next.1 == StringStart && next.0.pos == d && next.0.more == 0 && !next.0.cutShort
    ensures var next := NextOf(env, t, st).0;
            CanStart(|next.errors|, next.repeats) && SameEnd(Lex(env, t, st, read), Alone(env, l, |next.errors|, next.repeats))
    ensures Interpolation in Opens(Lex(env, t, st, read).tokens)
  {
    NextIs(env, t, st);
    NextGood(env, t, st);
    NoClosersShift(t, l, d);
    hide Off, NextToken, CommentsIn, Nested, ErrorsRight, NoClosers, Tail, CleanCut, Opens, QuotesWithin;
    var (after, kind, start) := NextToken(env, t, st);
    var next := after.(newlines := 0);
    DroppedGood(t, after, next);
    var tok := TokOf(t, after, |st.comments|, kind, start);
    var r := LineStart(|after.errors|, after.repeats);
    LineStartGood(l, |after.errors|, after.repeats);
    LexInStep(env, t, l, d, next, r, read + [tok], []);
    WhiteIs(t, next);
    TriviaIs(t, White(t, next));
    QuietLex(env, t, next, read + [tok], d);
    OpensSnoc(read, tok);
    InPrefix(Opens(read), Opens(Lex(env, t, next, read + [tok]).tokens));
  }

  lemma InPrefix(open: seq<Open>, more: seq<Open>)
    requires open + [Interpolation] <= more
    ensures Interpolation in more
  {
    assert more[|open|] == Interpolation;
  }

  lemma PlainRest(inEscape: bool, b: Text, at: nat)
    requires Plain(b) && at <= |RestOfString(inEscape, b)|
    ensures NoClosers(RestOfString(inEscape, b), 0) && NoClosers(RestOfString(inEscape, b)[at..], 0)
  {
  }

  lemma {:induction false} BraceIsThere(src: Text, i: nat)
    requires i <= |src| && StrScan(src, i).Brace?
    ensures i < StrScan(src, i).end <= |src| && src[StrScan(src, i).end - 1] == '{'
    decreases |src| - i
  {
    if src[i] == '\\' {
      EscapeIs(src, i);
      hide Escape;
      BraceIsThere(src, Escape(src, i).0);
    } else if src[i] != '{' {
      BraceIsThere(src, i + 1);
    }
  }

  /** The string of the input in the longer text, told from what follows alone. */
  lemma StringInBoth(a: Text, b: Text, i: nat)
    requires i <= |a| && StrScan(a, i).Unclosed? && Plain(b)
    ensures var t, e := a + ['\n'] + b, StrScan(a, i).inEscape;
            var j, rest := if e then |a| - 1 else |a|, RestOfString(e, b);
            && j >= 0 && Tail(t, rest, j) && SameRest(t, rest, j, StrScan(t, i), StrScan(rest, 0)) && NoClosers(rest, 0)
            && |StrScan(t, i).errs| == |StrScan(a, i).errs| + |StrScan(rest, 0).errs|
  {
    var t, e := a + ['\n'] + b, StrScan(a, i).inEscape;
    var j, rest := if e then |a| - 1 else |a|, RestOfString(e, b);
    if e {
      EscapeAtEnd(a, i);
    }
    RestIsTail(a, b, e);
    PlainRest(e, b, 0);
    StringIsNeverClosed(rest, 0, 0);
    StringGoesOn(a, t, i);
    StrScanShift(t, rest, j, 0);
    if StrScan(rest, 0).Brace? {
      BraceIsThere(t, i);
      BraceIsThere(rest, 0);
    }
    hide StrScan, NoClosers, RestOfString;
  }

  /** The quote that the lexer stands at begins a string in the longer text too, not a raw one. */
  lemma StringScans(env: Env, a: Text, t: Text, st: State)
    requires GoesOn(a, t) && st.pos < |a| && a[st.pos] == '"' && QuotesWithin(a, st) && QuotesWithin(t, st)
    requires !(Is(a, st.pos + 1, '"') && Is(a, st.pos + 2, '"'))
    ensures Scan(env, a, st) == ScanString(a, st.(pos := st.pos + 1), st.pos, st.pos, false)
    ensures Scan(env, t, st) == ScanString(t, st.(pos := st.pos + 1), st.pos, st.pos, false)
  {
    hide ScanString, ScanTriple, ScanNumber, ScanWord, ScanStray, ScanClose, Punct;
    IsStays(a, t, st.pos + 1, '"');
    if st.pos + 2 <= |a| {
      IsStays(a, t, st.pos + 2, '"');
    }
  }

  lemma RawScans(env: Env, a: Text, t: Text, st: State)
    requires GoesOn(a, t) && st.pos < |a| && a[st.pos] == '"' && QuotesWithin(a, st) && QuotesWithin(t, st)
    requires Is(a, st.pos + 1, '"') && Is(a, st.pos + 2, '"')
    ensures Scan(env, a, st) == ScanTriple(a, st) && Scan(env, t, st) == ScanTriple(t, st)
  {
    hide ScanString, ScanTriple, ScanNumber, ScanWord, ScanStray, ScanClose, Punct;
  }

  lemma UnclosedExactly(env: Env, t: Text, there: State, st: State, read: seq<Tok>)
    requires Good(t, there) && !there.cutShort && Interpolation !in Opens(read)
    requires st.pos < |t| && st.more == 0 && |st.errors| <= MAX_SYNTAX_ERRORS && !st.cutShort
    requires NextOf(env, t, there) == ScanString(t, st.(pos := st.pos + 1), st.pos, st.pos, false)
    requires StrScan(t, st.pos + 1).Unclosed?
    ensures EndsOpenOf(Lex(env, t, there, read)) <==> |st.errors| + |StrScan(t, st.pos + 1).errs| < MAX_SYNTAX_ERRORS
  {
    hide Good, NextOf, Lex, StrScan, ScanString, Opens;
    StringStillOpen(t, st);
    CutLex(env, t, there, read);
  }

  lemma BraceExactly(env: Env, t: Text, l: Text, there: State, st: State, read: seq<Tok>)
    requires Good(t, there) && !there.cutShort && NoClosers(l, 0)
    requires st.pos < |t| && st.more == 0 && |st.errors| <= MAX_SYNTAX_ERRORS && !st.cutShort
    requires NextOf(env, t, there) == ScanString(t, st.(pos := st.pos + 1), st.pos, st.pos, false)
    requires StrScan(t, st.pos + 1).Brace? && Tail(t, l, StrScan(t, st.pos + 1).end)
    requires CleanCut(env, t, StrScan(t, st.pos + 1).end)
    ensures var errors := |st.errors| + |StrScan(t, st.pos + 1).errs|;
            && (errors <= MAX_SYNTAX_ERRORS ==> CanStart(errors, st.repeats))
            && (EndsOpenOf(Lex(env, t, there, read)) <==>
                  errors <= MAX_SYNTAX_ERRORS && Alone(env, l, errors, st.repeats).more == 0 && !Alone(env, l, errors, st.repeats).cutShort)
  {
    hide Good, NextOf, Lex, StrScan, ScanString, Opens, Alone, Tail, CleanCut, NoClosers;
    StringInterpolates(t, st);
    if NextOf(env, t, there).0.more > 0 {
      DroppedToken(env, t, there, read);
    } else {
      BraceInStep(env, t, l, StrScan(t, st.pos + 1).end, there, read);
      SomethingOpen(Opens(Lex(env, t, there, read).tokens));
    }
  }

  lemma SomethingOpen(open: seq<Open>)
    requires Interpolation in open
    ensures open != []
  {
  }

  /** What the line makes of a string that the input left open, from the lexer's state at the string's quote. */
  lemma StringExactly(env: Env, t: Text, rest: Text, j: nat, there: State, st: State, read: seq<Tok>, errors: nat)
    requires Good(t, there) && !there.cutShort && Interpolation !in Opens(read) && Tail(t, rest, j) && NoClosers(rest, 0)
    requires st.pos < |t| && st.more == 0 && |st.errors| <= MAX_SYNTAX_ERRORS && !st.cutShort
    requires NextOf(env, t, there) == ScanString(t, st.(pos := st.pos + 1), st.pos, st.pos, false)
    requires SameRest(t, rest, j, StrScan(t, st.pos + 1), StrScan(rest, 0))
    requires |st.errors| + |StrScan(t, st.pos + 1).errs| == errors + |StrScan(rest, 0).errs|
    ensures EndsOpenOf(Lex(env, t, there, read)) <==>
            StringFits(env, rest, errors, st.repeats) && !CommentInString(env, rest, errors, st.repeats)
  {
    hide Good, NextOf, Lex, StrScan, ScanString, Opens, Alone, EndsOpenOf;
    if StrScan(rest, 0).Unclosed? {
      UnclosedExactly(env, t, there, st, read);
    } else {
      var at := StrScan(rest, 0).end;
      TailOfTail(t, rest, j, at);
      BraceIsClean(env, t, j + at);
      assert NoClosers(rest[at..], 0);
      hide NoClosers, CleanCut, Tail;
      BraceExactly(env, t, rest[at..], there, st, read);
    }
  }

  /** A string in the longer text, and what follows of it alone: neither closed, or both at the same brace. */
  ghost predicate SameRest(t: Text, rest: Text, j: nat, far: Str, near: Str) {
    match near
    case Closed(_, _) => false
    case Brace(at, _) => 0 < at <= |rest| && j + at <= |t| && far.Brace? && far.end == j + at && t[j + at - 1] == '{'
    case Unclosed(_, _) => far.Unclosed?
  }

  lemma BraceIsClean(env: Env, t: Text, d: nat)
    requires 0 < d <= |t| && t[d - 1] == '{'
    ensures CleanCut(env, t, d)
  {
  }

  lemma TailOfTail(t: Text, l: Text, d: nat, at: nat)
    requires Tail(t, l, d) && at <= |l|
    ensures Tail(t, l[at..], d + at)
  {
    assert t[d..][at..] == t[d + at..];
  }

  /** What the end of an input that is cut short comes to, with and without the line. */
  lemma CutEnd(env: Env, a: Text, b: Text, there: State, read: seq<Tok>)
    requires EndsOpenOf(Tokenized(env, a)) && Tokenized(env, a).cutShort && Plain(b) && ReadOf(env, a) == (there, read)
    ensures var t := a + ['\n'] + b;
            && GoesOn(a, t) && NoClosers(t, |a|) && Good(a, there) && Good(t, there) && !there.cutShort && there.stack == []
            && NextOf(env, a, there).0.cutShort && NextOf(env, a, there).0.more == 0 && Interpolation !in Opens(read)
            && Tokenized(env, t) == Lex(env, t, there, read)
            && EndOf(env, a) == EndFrom(a, FrontOf(a, there), NextOf(env, a, there).0)
  {
    var t := a + ['\n'] + b;
    PlainLine(a, b);
    FromThere(env, a, t);
    ReadGood(env, a);
    hide BeforeEnd, LastState, NextToken, Tokenized, Off, Rest, Lex, NextOf, White, Trivia, Opens, NoClosers, ReadOf, Plain, Good, Scan;
    CutAtEnd(env, a, there, read);
    CutLex(env, a, there, read);
    StackOfRead(env, a);
  }

  lemma InsideExactly(env: Env, a: Text, b: Text, there: State, read: seq<Tok>)
    requires Good(a + ['\n'] + b, there) && !there.cutShort && Interpolation !in Opens(read)
    requires NextOf(env, a + ['\n'] + b, there).0.cutShort && NextOf(env, a + ['\n'] + b, there).0.more == 0
    ensures EndsOpenOf(Lex(env, a + ['\n'] + b, there, read))
  {
    hide Good, NextOf, Lex, Opens;
    CutLex(env, a + ['\n'] + b, there, read);
  }

  /** The quote at which the last token of such an input begins. */
  lemma QuoteAtEnd(env: Env, a: Text, t: Text, there: State)
    requires GoesOn(a, t) && Good(a, there) && Good(t, there) && !there.cutShort && there.stack == []
    requires NextOf(env, a, there).0.cutShort && NextOf(env, a, there).0.more == 0 && !FrontOf(a, there).cutShort
    ensures var st := FrontOf(a, there);
            && st.pos < |a| && a[st.pos] == '"' && st.more == 0 && |st.errors| <= MAX_SYNTAX_ERRORS
            && QuotesWithin(a, st) && QuotesWithin(t, st)
            && NextOf(env, a, there) == Scan(env, a, st) && NextOf(env, t, there) == Scan(env, t, st)
  {
    hide Good, NextOf, Scan, FrontOf, QuotesWithin;
    TriviaThenMore(env, a, there);
    FrontStays(env, a, t, there);
    CutBegins(env, a, FrontOf(a, there));
    FewErrors(a, there);
  }

  lemma StringCase(env: Env, a: Text, b: Text, there: State, st: State, read: seq<Tok>)
    requires Plain(b) && st.pos < |a| && a[st.pos] == '"' && st.more == 0 && |st.errors| <= MAX_SYNTAX_ERRORS && !st.cutShort
    requires var t := a + ['\n'] + b;
             && GoesOn(a, t) && Good(a, there) && Good(t, there) && !there.cutShort && Interpolation !in Opens(read)
             && QuotesWithin(a, st) && QuotesWithin(t, st)
             && NextOf(env, a, there) == Scan(env, a, st) && NextOf(env, t, there) == Scan(env, t, st)
    requires NextOf(env, a, there).0.cutShort && NextOf(env, a, there).0.more == 0
    requires !(Is(a, st.pos + 1, '"') && Is(a, st.pos + 2, '"'))
    ensures var end := EndFrom(a, st, NextOf(env, a, there).0);
            EndsOpenOf(Lex(env, a + ['\n'] + b, there, read)) <==> ErrorsFit(env, end, b) && !CommentInside(env, end, b)
  {
    var t := a + ['\n'] + b;
    hide Good, NextOf, Lex, Opens, NoClosers, Scan, GoesOn, ScanString, QuotesWithin, StrScan, EndsOpenOf, StringFits, CommentInString;
    StringScans(env, a, t, st);
    StringAtEnd(a, st);
    StringInBoth(a, b, st.pos + 1);
    var e, errors := StrScan(a, st.pos + 1).inEscape, |st.errors| + |StrScan(a, st.pos + 1).errs|;
    assert EndFrom(a, st, NextOf(env, a, there).0) == InString(errors, st.repeats, e);
    hide Plain, Tail, SameRest;
    StringExactly(env, t, RestOfString(e, b), if e then |a| - 1 else |a|, there, st, read, errors);
  }

  lemma CutExactly(env: Env, a: Text, b: Text)
    requires EndsOpenOf(Tokenized(env, a)) && Tokenized(env, a).cutShort && Plain(b)
    ensures EndsOpenOf(Tokenized(env, a + ['\n'] + b)) <==> ErrorsFit(env, EndOf(env, a), b) && !CommentInside(env, EndOf(env, a), b)
  {
    var (there, read) := ReadOf(env, a);
    CutEnd(env, a, b, there, read);
    hide Good, NextOf, Tokenized, Lex, Opens, ReadOf, Plain, NoClosers, EndOf, ErrorsFit, CommentInside, EndsOpenOf, FrontOf, Scan, GoesOn;
    hide ScanString, ScanTriple, QuotesWithin, StrScan;
    var t, st := a + ['\n'] + b, FrontOf(a, there);
    if st.cutShort {
      CommentStays(env, a, t, there);
      InsideExactly(env, a, b, there, read);
      InsideFits(env, EndOf(env, a), b);
    } else {
      QuoteAtEnd(env, a, t, there);
      if Is(a, st.pos + 1, '"') && Is(a, st.pos + 2, '"') {
        RawScans(env, a, t, st);
        RawStringStays(a, t, st);
        InsideExactly(env, a, b, there, read);
        InsideFits(env, EndOf(env, a), b);
      } else {
        StringCase(env, a, b, there, st, read);
      }
    }
  }

  lemma InsideFits(env: Env, end: End, b: Text)
    requires end.InComment? || end.InRawString?
    ensures ErrorsFit(env, end, b) && !CommentInside(env, end, b)
  {
  }

  lemma FewErrors(src: Text, st: State)
    requires Good(src, st)
    ensures st.pos <= |src| && |FrontOf(src, st).errors| <= MAX_SYNTAX_ERRORS
  {
    GoodTriviaOf(src, st);
  }

  /**
    Given an input that is open and a line without closers and quotes, the shortcut is right exactly
    if the line's errors still fit and it starts no block comment inside an interpolation. Both are
    told from where the input ended and the line alone.
   */
  lemma ShortcutExactly(env: Env, a: Text, b: Text)
    requires EndsOpenOf(Tokenized(env, a)) && Plain(b)
    ensures EndsOpenOf(Tokenized(env, a + ['\n'] + b)) <==> ErrorsFit(env, EndOf(env, a), b) && !CommentInside(env, EndOf(env, a), b)
  {
    hide Tokenized, EndsOpenOf, EndOf, ErrorsFit, CommentInside, Plain;
    if Tokenized(env, a).cutShort {
      CutExactly(env, a, b);
    } else {
      CodeExactly(env, a, b);
    }
  }

  // ---------------------------------------------------------------- a line without `{-`

  /** No block comment starts from `p` on. */
  ghost predicate NoComment(src: Text, p: nat) {
    forall i :: p <= i < |src| ==> !AtBlockComment(src, i)
  }

  lemma PassOneUncut(src: Text, st: State)
    requires st.pos <= |src| && !st.cutShort && !AtBlockComment(src, st.pos)
    ensures !PassOne(src, st).Neither? ==> !PassOne(src, st).st.cutShort
  {
    hide RunEnd, Off;
  }

  lemma {:induction false} TriviaUncut(src: Text, st: State, p: nat)
    requires p <= st.pos <= |src| && !st.cutShort && NoComment(src, p)
    ensures !Trivia(src, st).0.cutShort
    decreases |src| - st.pos
  {
    assert st.pos < |src| ==> !AtBlockComment(src, st.pos);
    PassOneUncut(src, st);
    PassOneIs(src, st);
    BrokenIsCutShort(src, st);
    hide PassOne, White, NoComment;
    match PassOne(src, st)
    case Passed(next) =>
      WhiteIs(src, next);
      TriviaUncut(src, White(src, next), p);
    case BrokenOff(next, i) =>
    case Neither =>
  }

  lemma QuietScanUncut(env: Env, src: Text, st: State)
    requires st.pos < |src| && QuotesWithin(src, st) && NoClosers(src, st.pos) && !st.cutShort
    ensures !Scan(env, src, st).0.cutShort
  {
    NotCut(env, src, st);
    hide ScanString, ScanTriple, ScanNumber, ScanWord, ScanClose, ScanStray, Punct, QuotesWithin;
  }

  lemma QuietNextUncut(env: Env, src: Text, st: State, p: nat)
    requires Good(src, st) && NoClosers(src, p)
    requires st.pos <= |src| && White(src, st).pos <= |src| && Trivia(src, White(src, st)).0.pos >= p
    requires !Trivia(src, White(src, st)).0.cutShort
    ensures !NextOf(env, src, st).0.cutShort
  {
    NextIs(env, src, st);
    WhiteIs(src, st);
    TriviaIs(src, White(src, st));
    hide White, Trivia, Scan, Good, NextRight;
    var (after, broken) := Trivia(src, White(src, st));
    if broken.None? && after.pos < |src| {
      QuietScanUncut(env, src, after);
    }
  }

  /** A line without closers and block comments cuts nothing short. */
  lemma {:induction false} QuietLexUncut(env: Env, src: Text, st: State, tokens: seq<Tok>, p: nat)
    requires Good(src, st) && NoClosers(src, p) && NoComment(src, p)
    requires st.pos <= |src| && White(src, st).pos <= |src| && Trivia(src, White(src, st)).0.pos >= p
    requires !Trivia(src, White(src, st)).0.cutShort
    ensures Lex(env, src, st, tokens).more == 0 ==> !Lex(env, src, st, tokens).cutShort
    decreases |src| - st.pos
  {
    NextIs(env, src, st);
    QuietNext(env, src, st, p);
    QuietNextUncut(env, src, st, p);
    hide Off, NextToken, CommentsIn, Nested, ErrorsRight, NoClosers, NoComment, White, Trivia;
    var (after, kind, start) := NextToken(env, src, st);
    var next := after.(newlines := 0);
    DroppedGood(src, after, next);
    if after.more > 0 {
      RestIs(env, src, next);
    } else if kind != Eof {
      WhiteIs(src, next);
      var white := White(src, next);
      TriviaIs(src, white);
      TriviaUncut(src, white, p);
      QuietLexUncut(env, src, next, tokens + [TokOf(src, after, |st.comments|, kind, start)], p);
    }
  }

  lemma AloneUncut(env: Env, l: Text, errors: nat, repeats: set<Text>)
    requires CanStart(errors, repeats) && NoClosers(l, 0) && NoComment(l, 0)
    ensures Alone(env, l, errors, repeats).more == 0 ==> !Alone(env, l, errors, repeats).cutShort
  {
    var st := LineStart(errors, repeats);
    LineStartGood(l, errors, repeats);
    WhiteIs(l, st);
    TriviaIs(l, White(l, st));
    TriviaUncut(l, White(l, st), 0);
    hide Lex, White, Trivia, NoClosers, NoComment;
    QuietLexUncut(env, l, st, [], 0);
  }

  /** A line without `{-` starts no comment, so only its errors decide. */
  lemma ShortcutIsRight(env: Env, a: Text, b: Text)
    requires EndsOpenOf(Tokenized(env, a)) && Plain(b) && NoComment(b, 0)
    ensures EndsOpenOf(Tokenized(env, a + ['\n'] + b)) <==> ErrorsFit(env, EndOf(env, a), b)
  {
    ShortcutExactly(env, a, b);
    hide Tokenized, EndsOpenOf, EndOf;
    if ErrorsFit(env, EndOf(env, a), b) {
      FitsUncut(env, EndOf(env, a), b);
    }
  }

  lemma FitsUncut(env: Env, end: End, b: Text)
    requires Plain(b) && NoComment(b, 0) && ErrorsFit(env, end, b)
    ensures !CommentInside(env, end, b)
  {
    hide Alone;
    match end
    case InCode(errors, repeats, _) =>
      AloneUncut(env, b, errors, repeats);
    case InComment =>
    case InRawString =>
    case InString(errors, repeats, inEscape) =>
      var rest := RestOfString(inEscape, b);
      StrScanIs(rest, 0);
      if StrScan(rest, 0).Brace? {
        var at, errs := StrScan(rest, 0).end, StrScan(rest, 0).errs;
        PlainRest(inEscape, b, at);
        RestUncommented(inEscape, b, at);
        AloneUncut(env, rest[at..], errors + |errs|, repeats);
      }
  }

  lemma RestUncommented(inEscape: bool, b: Text, at: nat)
    requires NoComment(b, 0) && at <= |RestOfString(inEscape, b)|
    ensures NoComment(RestOfString(inEscape, b)[at..], 0)
  {
    var rest := RestOfString(inEscape, b);
    var d := |rest| - |b|;
    forall i | 0 <= i < |rest[at..]|
      ensures !AtBlockComment(rest[at..], i)
    {
      if at + i >= d {
        assert !AtBlockComment(b, at + i - d) || at + i == |rest|;
      }
    }
  }

  // ---------------------------------------------------------------- where it is not

  /** A string that runs into an interpolation at once. */
  lemma OneInterpolation(env: Env, src: Text)
    requires |src| >= 2 && src[0] == '"' && src[1] == '{'
    ensures Good(src, Initial(src)) && Initial(src).pos == 0
    ensures NextOf(env, src, Initial(src)) == (Initial(src).(pos := 2, stack := [(0, 0)], brace := 1), StringStart, 0)
  {
    InitialGood(src);
    var st := Initial(src);
    NextIs(env, src, st);
    assert White(src, st) == st;
    assert Trivia(src, st) == (st, None);
    assert StrScan(src, 1) == Brace(2, []);
    var open := st.(pos := 2, stack := st.stack + [(0, 0)], brace := 1);
    assert open.stack == [(0, 0)];
    assert RecordedAll(open, []) == open;
    assert ScanString(src, st.(pos := 1), 0, 0, false) == (open, StringStart, 0);
    hide ScanString, Punct, StrScan, RunEnd;
    assert Scan(env, src, st) == (open, StringStart, 0);
  }

  /** The comment behind it that is not closed. */
  lemma CommentBehind(env: Env, src: Text, st: State)
    requires src == ['"', '{', '\n', '{', '-'] && Good(src, st) && st.pos == 2 && st.errors == [] && st.more == 0
    ensures NextOf(env, src, st).1 == Eof && NextOf(env, src, st).0.more == 0 && NextOf(env, src, st).0.cutShort
  {
    NextIs(env, src, st);
    hide Off, LinesIn;
    assert RunEnd(src, 2, BlankChar()) == 3;
    var white := White(src, st);
    assert BlockEnd(src, 5, 1) == None;
    var broken := Unended(src, white);
    var after := Commented(src, broken, false, 3, 5);
    assert PassOne(src, white) == Passed(after);
    assert RunEnd(src, 5, BlankChar()) == 5;
    NothingAtTheEnd(src, White(src, after));
  }

  /**
    The shortcut is wrong for a block comment that starts inside an interpolation: the input is
    open, the line has no closer and no quote, and the two together are not open.
   */
  lemma ShortcutFails(env: Env)
    ensures EndsOpenOf(Tokenized(env, ['"', '{'])) && !EndsOpenOf(Tokenized(env, ['"', '{'] + ['\n'] + ['{', '-']))
  {
    hide NextToken, Tokenized, ErrorsRight, Off;
    var a: Text, t: Text := ['"', '{'], ['"', '{', '\n', '{', '-'];
    OneInterpolation(env, a);
    OneInterpolation(env, t);
    var open := Initial(a).(pos := 2, stack := [(0, 0)], brace := 1);
    NextIs(env, a, Initial(a));
    NextIs(env, t, Initial(t));
    AtTheVeryEnd(env, a, open);
    CommentBehind(env, t, open);
    assert a + ['\n'] + ['{', '-'] == t;
    StartThenEof(env, a);
    StartThenEof(env, t);
  }

  /** A text of one interpolation and the end. */
  lemma StartThenEof(env: Env, src: Text)
    requires Good(src, Initial(src))
    requires var first := NextOf(env, src, Initial(src)); first.1 == StringStart && first.0.more == 0 && Good(src, first.0.(newlines := 0))
    requires var second := NextOf(env, src, NextOf(env, src, Initial(src)).0.(newlines := 0)); second.1 == Eof && second.0.more == 0
    ensures var second := NextOf(env, src, NextOf(env, src, Initial(src)).0.(newlines := 0));
            var lexed := Tokenized(env, src);
            lexed.more == 0 && lexed.cutShort == second.0.cutShort && Opens(lexed.tokens) == [Interpolation]
  {
    hide Off, NextToken;
    InitialGood(src);
    var st := Initial(src);
    NextIs(env, src, st);
    var (one, kind, start) := NextToken(env, src, st);
    var next := one.(newlines := 0);
    NextIs(env, src, next);
    var (two, eof, end) := NextToken(env, src, next);
    var first, second := TokOf(src, one, |st.comments|, kind, start), TokOf(src, two, |next.comments|, eof, end);
    assert Lex(env, src, next, [] + [first]) == LexedOf(two, [] + [first] + [second]);
    OpensSnoc([], first);
    OpensSnoc([] + [first], second);
  }

  // ---------------------------------------------------------------- a line of fifty-one errors

  /** So many `@`, each with a blank behind it. */
  function Ats(n: nat): Text {
    seq(2 * n, i => if i % 2 == 0 then '@' else ' ')
  }

  lemma AtsArePlain(n: nat)
    ensures Plain(Ats(n)) && NoComment(Ats(n), 0)
  {
  }

  /** The next of them is an error. */
  lemma NextAt(env: Env, l: Text, st: State, p: nat)
    requires Good(l, st) && st.pos <= p < |l| && p + 1 < |l| && l[p] == '@' && l[p + 1] == ' '
    requires forall i :: st.pos <= i < p ==> IsBlank(l[i])
    ensures var r := NextOf(env, l, st);
            r.1 == Error && r.0.pos == p + 1 && |r.0.errors| + r.0.more == |st.errors| + st.more + 1
  {
    NextIs(env, l, st);
    RunTo(l, st.pos, p);
    var white := White(l, st);
    hide Off, LinesIn, RunEnd, NextRight, Nested, ErrorsRight;
    assert PassOne(l, white).Neither?;
    assert Trivia(l, white) == (white, None);
    AtStray(env, l, p);
    assert Scan(env, l, white) == ScanStray(env, l, white) by {
      hide ScanStray, ScanString, ScanTriple, ScanNumber, ScanWord, ScanClose;
      assert Punct(l, p).None?;
    }
    hide StrayEnd, WordBegin;
  }

  lemma {:induction false} RunTo(l: Text, i: nat, p: nat)
    requires i <= p < |l| && !IsBlank(l[p]) && forall k :: i <= k < p ==> IsBlank(l[k])
    ensures RunEnd(l, i, BlankChar()) == p
    decreases p - i
  {
    if i < p {
      RunTo(l, i + 1, p);
    }
  }

  lemma AtStray(env: Env, l: Text, p: nat)
    requires p + 1 < |l| && l[p] == '@' && l[p + 1] == ' '
    ensures StrayEnd(env, l, p) == p + 1 && !IsAlnum(env, l[p])
  {
  }

  lemma {:induction false} AtsDrop(env: Env, n: nat, k: nat, st: State, tokens: seq<Tok>)
    requires MAX_SYNTAX_ERRORS < n && k < n && Good(Ats(n), st) && st.pos == (if k == 0 then 0 else 2 * k - 1)
    requires st.more == 0 && |st.errors| >= k
    ensures Lex(env, Ats(n), st, tokens).more > 0
    decreases n - k
  {
    var l := Ats(n);
    NextAt(env, l, st, 2 * k);
    NextIs(env, l, st);
    hide Off, NextToken, CommentsIn, Nested;
    var (after, kind, start) := NextToken(env, l, st);
    var next := after.(newlines := 0);
    DroppedGood(l, after, next);
    if after.more > 0 {
      RestIs(env, l, next);
    } else {
      AtsDrop(env, n, k + 1, next, tokens + [TokOf(l, after, |st.comments|, kind, start)]);
    }
  }

  /** Whatever input is open in code: the line is no reason to stop for the shortcut, and the two together are not open. */
  lemma ManyErrorsClose(env: Env, a: Text)
    requires EndsOpenOf(Tokenized(env, a)) && !Tokenized(env, a).cutShort
    ensures Plain(Ats(51)) && NoComment(Ats(51), 0) && !EndsOpenOf(Tokenized(env, a + ['\n'] + Ats(51)))
  {
    AtsArePlain(51);
    CodeExactly(env, a, Ats(51));
    hide Tokenized, EndsOpenOf, EndOf, Plain, NoComment, Ats;
    var end := EndOf(env, a);
    if CanStart(end.errors, end.repeats) {
      LineStartGood(Ats(51), end.errors, end.repeats);
      AtsDrop(env, 51, 0, LineStart(end.errors, end.repeats), []);
    }
  }

  /** There is such an input: one parenthesis. */
  lemma ShortcutFailsByErrors(env: Env)
    ensures EndsOpenOf(Tokenized(env, ['('])) && Plain(Ats(51)) && NoComment(Ats(51), 0)
    ensures !EndsOpenOf(Tokenized(env, ['('] + ['\n'] + Ats(51)))
  {
    OneParenthesis(env);
    hide Tokenized;
    ManyErrorsClose(env, ['(']);
  }

  lemma ParenthesisIsRead(env: Env, a: Text, st: State)
    requires a == ['('] && st == Initial(a) && Good(a, st)
    ensures st.pos == 0 && NextOf(env, a, st) == (st.(pos := 1), LParen, 0)
  {
    NextIs(env, a, st);
    hide Off, NextRight, ScanString, ScanTriple, ScanNumber, ScanWord, ScanClose, ScanStray;
    assert RunEnd(a, 0, BlankChar()) == 0;
    assert White(a, st) == st;
    assert PassOne(a, st).Neither?;
    hide RunEnd, White, PassOne, LinesIn;
    assert Punct(a, 0) == Some((LParen, 1));
  }

  lemma OneParenthesis(env: Env)
    ensures EndsOpenOf(Tokenized(env, ['('])) && !Tokenized(env, ['(']).cutShort
  {
    var a := ['('];
    InitialGood(a);
    var st := Initial(a);
    var one := st.(pos := 1);
    ParenthesisIsRead(env, a, st);
    AtTheVeryEnd(env, a, one);
    NextIs(env, a, st);
    NextIs(env, a, one);
    hide Off, NextToken, NextRight;
    var first, second := TokOf(a, one, 0, LParen, 0), TokOf(a, one, 0, Eof, 1);
    assert Lex(env, a, one, [] + [first]) == LexedOf(one, [] + [first] + [second]);
    OpensSnoc([], first);
    OpensSnoc([] + [first], second);
  }
}
