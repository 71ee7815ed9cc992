/**
  A line without closers and quotes behind a text: the lexer comes through it as it comes through
  the line alone, when it starts there with as many errors.
 */
module LexLine {
  import opened Basics
  import opened LexText
  import opened LexScan
  import opened LexSpec
  import opened LexKeeps
  import opened LexTokens
  import opened LexOpen
  import opened LexLines
  import opened LexShift

  /** No closer and no quote. */
  ghost predicate Plain(b: Text) {
    forall i :: 0 <= i < |b| ==> b[i] != ')' && b[i] != ']' && b[i] != '}' && b[i] != '"'
  }

  lemma PlainLine(a: Text, b: Text)
    requires Plain(b)
    ensures var t := a + ['\n'] + b; GoesOn(a, t) && NoClosers(t, |a|) && Tail(t, b, |a| + 1) && NoClosers(b, 0)
  {
  }

  /** The lexer at the beginning of a line alone, with so many errors kept and these mistakes told once. */
  function LineStart(errors: nat, repeats: set<Text>): State {
    State(0, [], 0, [], 0, seq(errors, i => Span(0, 0)), 0, false, false, repeats)
  }

  lemma LineStartGood(l: Text, errors: nat, repeats: set<Text>)
    requires errors <= MAX_SYNTAX_ERRORS && (repeats != {} ==> errors > 0)
    ensures Good(l, LineStart(errors, repeats))
  {
  }

  /** The same place, the same number of errors kept and counted, and the same marks. */
  ghost predicate InStep(s: State, r: State, d: nat) {
    && s.pos == d + r.pos && |s.errors| == |r.errors| && s.more == r.more
    && s.cutShort == r.cutShort && s.repeats == r.repeats
  }

  lemma RecordedInStep(s: State, r: State, d: nat, x: Span, y: Span)
    requires InStep(s, r, d)
    ensures InStep(Recorded(s, x), Recorded(r, y), d)
  {
  }

  lemma RepeatedInStep(s: State, r: State, d: nat, written: Text, x: Span, y: Span)
    requires InStep(s, r, d)
    ensures InStep(Repeated(s, written, x), Repeated(r, written, y), d)
  {
  }

  lemma WhiteInStep(t: Text, l: Text, d: nat, s: State, r: State)
    requires Tail(t, l, d) && InStep(s, r, d) && r.pos <= |l|
    ensures s.pos <= |t| && InStep(White(t, s), White(l, r), d)
  {
    RunEndIs(l, r.pos, BlankChar());
    RunEndShift(t, l, d, r.pos, BlankChar());
    hide RunEnd, LinesIn;
  }

  lemma BlockInStep(t: Text, l: Text, d: nat, s: State, r: State)
    requires Tail(t, l, d) && InStep(s, r, d) && NoClosers(l, 0) && AtBlockComment(l, r.pos) && !AtLineComment(l, r.pos)
    ensures AtBlockComment(t, s.pos) && !AtLineComment(t, s.pos)
    ensures !PassOne(l, r).Neither? && !PassOne(t, s).Neither? && PassOne(t, s).Passed? == PassOne(l, r).Passed?
    ensures InStep(PassOne(t, s).st, PassOne(l, r).st, d)
  {
    NoClosersShift(t, l, d);
    IsShift(t, l, d, r.pos, '{');
    IsShift(t, l, d, r.pos, '-');
    IsShift(t, l, d, r.pos + 1, '-');
    BlockIsNeverClosed(l, r.pos + 2, 1, 0);
    BlockIsNeverClosed(t, s.pos + 2, 1, d);
    hide BlockEnd, Off, NoClosers;
    RecordedInStep(s.(pos := |t|, cutShort := true), r.(pos := |l|, cutShort := true), d,
                   Between(t, s.pos + 2, s.pos + 2), Between(l, r.pos + 2, r.pos + 2));
  }

  lemma NoClosersShift(t: Text, l: Text, d: nat)
    requires Tail(t, l, d) && NoClosers(l, 0)
    ensures NoClosers(t, d)
  {
    forall i | d <= i < |t|
      ensures t[i] != ')' && t[i] != ']' && t[i] != '}' && t[i] != '"'
    {
      TailAt(t, l, d, i - d);
    }
  }

  /** Where no `}` comes any more, a comment is not closed any more. */
  lemma {:induction false} BlockIsNeverClosed(t: Text, i: nat, depth: nat, p: nat)
    requires NoClosers(t, p) && p <= i && depth > 0
    ensures BlockEnd(t, i, depth).None?
    decreases |t| - i
  {
    if i < |t| {
      if t[i] == '{' && Is(t, i + 1, '-') {
        BlockIsNeverClosed(t, i + 2, depth + 1, p);
      } else {
        BlockIsNeverClosed(t, i + 1, depth, p);
      }
    }
  }

  lemma SemicolonsInStep(t: Text, l: Text, d: nat, s: State, r: State)
    requires Tail(t, l, d) && InStep(s, r, d) && Is(l, r.pos, ';')
    ensures Is(t, s.pos, ';') && InStep(Semicolons(t, s), Semicolons(l, r), d)
  {
    IsShift(t, l, d, r.pos, ';');
    RunEndShift(t, l, d, r.pos, SemiChar());
    hide RunEnd, Off;
    RepeatedInStep(s.(pos := RunEnd(t, s.pos, SemiChar())), r.(pos := RunEnd(l, r.pos, SemiChar())), d, [],
                   Between(t, s.pos, s.pos + 1), Between(l, r.pos, r.pos + 1));
  }

  lemma PassOneInStep(t: Text, l: Text, d: nat, s: State, r: State)
    requires Tail(t, l, d) && InStep(s, r, d) && NoClosers(l, 0) && r.pos <= |l|
    ensures s.pos <= |t| && PassOne(t, s).Passed? == PassOne(l, r).Passed? && PassOne(t, s).Neither? == PassOne(l, r).Neither?
    ensures !PassOne(l, r).Neither? ==> InStep(PassOne(t, s).st, PassOne(l, r).st, d)
  {
    var i := r.pos;
    TailAt(t, l, d, i);
    IsShift(t, l, d, i, '-');
    IsShift(t, l, d, i + 1, '-');
    IsShift(t, l, d, i, '{');
    IsShift(t, l, d, i, ';');
    hide NoClosers, RunEnd, Off, BlockEnd, Semicolons;
    if AtLineComment(l, i) {
      RunEndShift(t, l, d, i, LineChar());
    } else if AtBlockComment(l, i) {
      BlockInStep(t, l, d, s, r);
    } else if Is(l, i, ';') {
      SemicolonsInStep(t, l, d, s, r);
    }
  }

  lemma {:induction false} TriviaInStep(t: Text, l: Text, d: nat, s: State, r: State)
    requires Tail(t, l, d) && InStep(s, r, d) && NoClosers(l, 0) && r.pos <= |l|
    ensures s.pos <= |t| && InStep(Trivia(t, s).0, Trivia(l, r).0, d) && Trivia(t, s).1.None? == Trivia(l, r).1.None?
    decreases |l| - r.pos
  {
    hide PassOne, White, NoClosers, InStep;
    PassOneInStep(t, l, d, s, r);
    PassOneIs(l, r);
    PassOneIs(t, s);
    if PassOne(l, r).Passed? {
      var s', r' := PassOne(t, s).st, PassOne(l, r).st;
      WhiteInStep(t, l, d, s', r');
      WhiteIs(t, s');
      WhiteIs(l, r');
      TriviaInStep(t, l, d, White(t, s'), White(l, r'));
    }
  }

  lemma NumberInStep(env: Env, t: Text, l: Text, d: nat, s: State, r: State)
    requires Tail(t, l, d) && InStep(s, r, d) && r.pos < |l|
    ensures s.pos < |t| && InStep(ScanNumber(env, t, s).0, ScanNumber(env, l, r).0, d)
  {
    hide Numeral, Off, Tail;
    var i := r.pos;
    NumeralIs(l, i);
    NumeralShift(t, l, d, i);
    NumeralIs(t, s.pos);
    var end := Numeral(l, i).0;
    SliceShift(t, l, d, i, end);
    RecordedInStep(s.(pos := d + end), r.(pos := end), d, Between(t, s.pos, d + end), Between(l, i, end));
  }

  lemma WordInStep(t: Text, l: Text, d: nat, s: State, r: State)
    requires Tail(t, l, d) && InStep(s, r, d) && r.pos < |l|
    ensures s.pos < |t| && InStep(ScanWord(t, s).0, ScanWord(l, r).0, d)
  {
    TailAt(t, l, d, r.pos);
    RunEndShift(t, l, d, r.pos + 1, NameChar());
    hide RunEnd;
  }

  lemma StrayInStep(env: Env, t: Text, l: Text, d: nat, s: State, r: State)
    requires Tail(t, l, d) && CleanCut(env, t, d) && InStep(s, r, d) && r.pos < |l|
    ensures s.pos < |t| && InStep(ScanStray(env, t, s).0, ScanStray(env, l, r).0, d)
  {
    var i := r.pos;
    TailAt(t, l, d, i);
    StrayEndIs(env, l, i);
    StrayEndIs(env, t, s.pos);
    StrayEndShift(env, t, l, d, i);
    WordBeginIs(env, l, i);
    WordBeginIs(env, t, s.pos);
    WordBeginShift(env, t, l, d, i);
    SliceShift(t, l, d, WordBegin(env, l, i), StrayEnd(env, l, i));
    hide StrayEnd, WordBegin, Off, IsAlnum, IsQuote, Recorded, Repeated, CleanCut;
    var s', r' := s.(pos := StrayEnd(env, t, s.pos)), r.(pos := StrayEnd(env, l, i));
    var x, y := Between(t, s.pos, s.pos + 1), Between(l, i, i + 1);
    var off := l[i] != '&' && !IsQuote(l[i]) && l[i] == '\\';
    RepeatedInStep(s', r', d, l[WordBegin(env, l, i)..StrayEnd(env, l, i)], x, y);
    RecordedInStep(s'.(quotesOff := s.quotesOff || off), r'.(quotesOff := r.quotesOff || off), d, x, y);
  }

  lemma ScanInStep(env: Env, t: Text, l: Text, d: nat, s: State, r: State)
    requires Tail(t, l, d) && CleanCut(env, t, d) && InStep(s, r, d) && NoClosers(l, 0) && r.pos < |l|
    requires QuotesWithin(t, s) && QuotesWithin(l, r)
    ensures s.pos < |t| && InStep(Scan(env, t, s).0, Scan(env, l, r).0, d)
  {
    var i := r.pos;
    TailAt(t, l, d, i);
    assert l[i] != '"' && l[i] != '}';
    hide ScanString, ScanTriple, ScanNumber, ScanWord, ScanClose, ScanStray, Punct, QuotesWithin, NoClosers, Tail, CleanCut;
    IsShift(t, l, d, i + 1, '{');
    PunctShift(t, l, d, i);
    if IsDigit(l[i]) {
      NumberInStep(env, t, l, d, s, r);
    } else if IsLetter(l[i]) {
      WordInStep(t, l, d, s, r);
    } else if Punct(l, i).None? {
      StrayInStep(env, t, l, d, s, r);
    }
  }

  lemma NextInStep(env: Env, t: Text, l: Text, d: nat, s: State, r: State)
    requires Tail(t, l, d) && CleanCut(env, t, d) && InStep(s, r, d) && NoClosers(l, 0) && Good(t, s) && Good(l, r)
    ensures InStep(NextOf(env, t, s).0, NextOf(env, l, r).0, d) && (NextOf(env, t, s).1 == Eof <==> NextOf(env, l, r).1 == Eof)
  {
    WhiteInStep(t, l, d, s, r);
    WhiteIs(t, s);
    WhiteIs(l, r);
    TriviaInStep(t, l, d, White(t, s), White(l, r));
    FromTriviaInStep(env, t, l, d, s, r);
  }

  /** A token is as far in both texts, if what is in front of it is. */
  lemma FromTriviaInStep(env: Env, t: Text, l: Text, d: nat, s: State, r: State)
    requires Tail(t, l, d) && CleanCut(env, t, d) && NoClosers(l, 0) && Good(t, s) && Good(l, r)
    requires White(t, s).pos <= |t| && White(l, r).pos <= |l|
    requires InStep(Trivia(t, White(t, s)).0, Trivia(l, White(l, r)).0, d)
    requires Trivia(t, White(t, s)).1.None? == Trivia(l, White(l, r)).1.None?
    ensures InStep(NextOf(env, t, s).0, NextOf(env, l, r).0, d) && (NextOf(env, t, s).1 == Eof <==> NextOf(env, l, r).1 == Eof)
  {
    NextIs(env, t, s);
    NextIs(env, l, r);
    GoodTrivia(t, s);
    GoodTrivia(l, r);
    TailAt(t, l, d, 0);
    hide White, Trivia, Scan, Good, NextRight, NoClosers, Tail, CleanCut;
    var s', r' := Trivia(t, White(t, s)), Trivia(l, White(l, r));
    if r'.1.None? && r'.0.pos < |l| {
      ScanKept(env, t, s'.0);
      ScanKept(env, l, r'.0);
      ScanInStep(env, t, l, d, s'.0, r'.0);
    }
  }

  lemma GoodTrivia(src: Text, st: State)
    requires Good(src, st) && White(src, st).pos <= |src|
    ensures Good(src, Trivia(src, White(src, st)).0) && QuotesWithin(src, Trivia(src, White(src, st)).0)
  {
    WhiteIs(src, st);
    WhitePassing(src, st);
    var white := White(src, st);
    CommentsNowhere(src, white);
    TriviaKept(src, white, |white.comments|, Off(src, white.pos));
    hide White, Trivia, Off, CommentsIn, ErrorsRight;
  }

  /** What becomes of the errors, and of the mark that the text is cut short, is the same. */
  ghost predicate SameEnd(whole: Lexed, line: Lexed) {
    (whole.more == 0 <==> line.more == 0) && (whole.more == 0 ==> whole.cutShort == line.cutShort)
  }

  lemma {:induction false} LexInStep(env: Env, t: Text, l: Text, d: nat, s: State, r: State, read: seq<Tok>, alone: seq<Tok>)
    requires Tail(t, l, d) && CleanCut(env, t, d) && InStep(s, r, d) && NoClosers(l, 0) && Good(t, s) && Good(l, r)
    ensures SameEnd(Lex(env, t, s, read), Lex(env, l, r, alone))
    decreases |l| - r.pos
  {
    NextInStep(env, t, l, d, s, r);
    AfterNextInStep(env, t, l, d, s, r, read, alone);
  }

  lemma {:induction false} AfterNextInStep(env: Env, t: Text, l: Text, d: nat, s: State, r: State, read: seq<Tok>, alone: seq<Tok>)
    requires Tail(t, l, d) && CleanCut(env, t, d) && NoClosers(l, 0) && Good(t, s) && Good(l, r)
    requires InStep(NextOf(env, t, s).0, NextOf(env, l, r).0, d) && (NextOf(env, t, s).1 == Eof <==> NextOf(env, l, r).1 == Eof)
    ensures SameEnd(Lex(env, t, s, read), Lex(env, l, r, alone))
    decreases |l| - r.pos, 0
  {
    NextIs(env, t, s);
    NextIs(env, l, r);
    hide Off, NextToken, CommentsIn, Nested, ErrorsRight, NoClosers, Tail, CleanCut;
    var (s', kind, start) := NextToken(env, t, s);
    var (r', kind', start') := NextToken(env, l, r);
    var s'', r'' := s'.(newlines := 0), r'.(newlines := 0);
    DroppedGood(t, s', s'');
    DroppedGood(l, r', r'');
    if s'.more > 0 {
      RestIs(env, t, s'');
      RestIs(env, l, r'');
    } else if kind != Eof {
      LexInStep(env, t, l, d, s'', r'', read + [TokOf(t, s', |s.comments|, kind, start)],
                alone + [TokOf(l, r', |r.comments|, kind', start')]);
    }
  }
}
