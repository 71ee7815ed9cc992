/**
  A text that goes on with another line: the tokens it had it keeps, and where it was open it
  stays open as long as the line has no closer and no quote.
 */
module LexLines {
  import opened Basics
  import opened LexText
  import opened LexScan
  import opened LexSpec
  import opened LexKeeps
  import opened LexTokens
  import opened LexOpen

  // ---------------------------------------------------------------- a token is the same in a text that goes on

  lemma BetweenStays(a: Text, t: Text, m: nat, n: nat)
    requires a <= t && m <= |a| && n <= |a|
    ensures Between(t, m, n) == Between(a, m, n)
  {
    OffOfPrefix(a, t, m);
    OffOfPrefix(a, t, n);
  }

  lemma StringStays(a: Text, t: Text, st: State, start: nat, quote: nat, rest: bool)
    requires GoesOn(a, t) && st.pos <= |a| && start <= |a| && quote <= |a|
    requires !ScanString(a, st, start, quote, rest).0.cutShort
    ensures ScanString(t, st, start, quote, rest) == ScanString(a, st, start, quote, rest)
  {
    hide Off;
    if StrScan(a, st.pos).Unclosed? {
      RecordedAllSame(st.(pos := |a|, cutShort := true), StrScan(a, st.pos).errs);
    } else {
      StrScanStays(a, t, st.pos);
    }
    hide StrScan, RecordedAll;
  }

  lemma TripleStays(a: Text, t: Text, st: State)
    requires GoesOn(a, t) && st.pos < |a| && !ScanTriple(a, st).0.cutShort
    ensures ScanTriple(t, st) == ScanTriple(a, st)
  {
    hide Off;
    if TripleEnd(a, st.pos + 3).Some? {
      TripleEndStays(a, t, st.pos + 3);
    }
  }

  lemma NumberStays(env: Env, a: Text, t: Text, st: State)
    requires GoesOn(a, t) && st.pos < |a|
    ensures ScanNumber(env, t, st) == ScanNumber(env, a, st)
  {
    hide Numeral, Off;
    NumeralIs(a, st.pos);
    NumeralStays(a, t, st.pos);
    var end := Numeral(a, st.pos).0;
    BetweenStays(a, t, st.pos, end);
    assert t[st.pos..end] == a[st.pos..end];
  }

  lemma WordStays(a: Text, t: Text, st: State)
    requires GoesOn(a, t) && st.pos < |a|
    ensures ScanWord(t, st) == ScanWord(a, st)
  {
    hide RunEnd;
    RunEndIs(a, st.pos + 1, NameChar());
    RunEndStays(a, t, st.pos + 1, NameChar());
    var end := RunEnd(a, st.pos + 1, NameChar());
    assert t[st.pos..end] == a[st.pos..end];
  }

  lemma {:induction false} WordBeginStays(env: Env, a: Text, t: Text, i: nat)
    requires a <= t && i <= |a|
    ensures WordBegin(env, t, i) == WordBegin(env, a, i)
  {
    hide IsAlnum;
    if i > 0 {
      WordBeginStays(env, a, t, i - 1);
    }
  }

  lemma StrayEndStays(env: Env, a: Text, t: Text, i: nat)
    requires GoesOn(a, t) && i < |a|
    ensures StrayEnd(env, t, i) == StrayEnd(env, a, i)
  {
    RunEndStays(a, t, i + 1, WordChar(env));
    RunEndStays(a, t, i + 1, StrayChar(env));
    PartnerStays(a, t, i + 1, a[i]);
    hide RunEnd, Partner, IsAlnum, IsQuote;
  }

  lemma StrayStays(env: Env, a: Text, t: Text, st: State)
    requires GoesOn(a, t) && st.pos < |a|
    ensures ScanStray(env, t, st) == ScanStray(env, a, st)
  {
    hide StrayEnd, WordBegin, Off, IsAlnum, IsQuote;
    var i := st.pos;
    StrayEndIs(env, a, i);
    StrayEndStays(env, a, t, i);
    WordBeginIs(env, a, i);
    WordBeginStays(env, a, t, i);
    BetweenStays(a, t, i, i + 1);
    var begin, end := WordBegin(env, a, i), StrayEnd(env, a, i);
    assert t[begin..end] == a[begin..end];
  }

  lemma CloseStays(a: Text, t: Text, st: State)
    requires GoesOn(a, t) && st.pos < |a| && QuotesWithin(a, st) && !ScanClose(a, st).0.cutShort
    ensures QuotesWithin(t, st) && ScanClose(t, st) == ScanClose(a, st)
  {
    hide ScanString;
    var n := |st.stack|;
    if n > 0 && st.brace == st.stack[n - 1].0 + 1 {
      StringStays(a, t, st.(pos := st.pos + 1, stack := st.stack[..n - 1], brace := st.brace - 1), st.pos + 1, st.stack[n - 1].1, true);
    }
  }

  /** A token that does not run into the end of the text is the same in a text that goes on. */
  lemma ScanStays(env: Env, a: Text, t: Text, st: State)
    requires GoesOn(a, t) && st.pos < |a| && QuotesWithin(a, st) && !Scan(env, a, st).0.cutShort
    ensures QuotesWithin(t, st) && Scan(env, t, st) == Scan(env, a, st)
  {
    var i, c := st.pos, a[st.pos];
    assert QuotesWithin(t, st);
    hide ScanString, ScanTriple, ScanNumber, ScanWord, ScanClose, ScanStray, Punct, QuotesWithin;
    assert t[i] == c;
    IsStays(a, t, i + 1, '"');
    IsStays(a, t, i + 1, '{');
    if i + 2 <= |a| {
      IsStays(a, t, i + 2, '"');
    }
    PunctStays(a, t, i);
    if c == '"' {
      if Is(a, i + 1, '"') && Is(a, i + 2, '"') {
        TripleStays(a, t, st);
      } else {
        StringStays(a, t, st.(pos := i + 1), i, i, false);
      }
    } else if IsDigit(c) {
      NumberStays(env, a, t, st);
    } else if IsLetter(c) {
      WordStays(a, t, st);
    } else if c == '}' && Punct(a, i).None? {
      CloseStays(a, t, st);
    } else if Punct(a, i).None? && c != '{' {
      StrayStays(env, a, t, st);
    }
  }

  // ---------------------------------------------------------------- and what is in front of it

  lemma {:induction false} LinesInStays(a: Text, t: Text, i: nat, j: nat, n: nat)
    requires a <= t && j <= |a|
    ensures LinesIn(t, i, j, n) == LinesIn(a, i, j, n)
    decreases j - i
  {
    if i < j {
      LinesInStays(a, t, i + 1, j, if a[i] == '\n' then OneMore(n) else n);
    }
  }

  lemma WhiteStays(a: Text, t: Text, st: State)
    requires GoesOn(a, t) && st.pos <= |a| && White(a, st).pos < |a|
    ensures White(t, st) == White(a, st)
  {
    RunEndIs(a, st.pos, BlankChar());
    RunEndStays(a, t, st.pos, BlankChar());
    LinesInStays(a, t, st.pos, RunEnd(a, st.pos, BlankChar()), st.newlines);
    hide RunEnd, LinesIn;
  }

  /** White space that reaches the end of the text goes beyond it where the text goes on. */
  lemma {:induction false} WhiteGoesOn(a: Text, t: Text, st: State)
    requires GoesOn(a, t) && st.pos <= |a| && White(a, st).pos == |a|
    ensures White(t, st).pos >= |a|
  {
    RunReaches(a, t, st.pos, BlankChar());
  }

  lemma {:induction false} RunReaches(a: Text, t: Text, i: nat, p: char -> bool)
    requires a <= t && i <= |a| && RunEnd(a, i, p) == |a|
    ensures RunEnd(t, i, p) >= |a|
    decreases |a| - i
  {
    RunEndIs(t, i, p);
    if i < |a| {
      RunReaches(a, t, i + 1, p);
    }
  }

  lemma SemicolonsStay(a: Text, t: Text, st: State)
    requires GoesOn(a, t) && Is(a, st.pos, ';')
    ensures Semicolons(t, st) == Semicolons(a, st)
  {
    RunEndStays(a, t, st.pos, SemiChar());
    BetweenStays(a, t, st.pos, st.pos + 1);
    hide RunEnd, Off;
  }

  /** A comment that is closed, or semicolons, are the same in a text that goes on. */
  lemma PassOneStays(a: Text, t: Text, st: State)
    requires GoesOn(a, t) && st.pos < |a|
    requires PassOne(a, st).Neither? || !PassOne(a, st).st.cutShort
    ensures PassOne(t, st) == PassOne(a, st)
  {
    var i := st.pos;
    IsStays(a, t, i + 1, '-');
    if AtLineComment(a, i) {
      RunEndIs(a, i, LineChar());
      RunEndStays(a, t, i, LineChar());
      BetweenStays(a, t, i, RunEnd(a, i, LineChar()));
      hide RunEnd, Off;
    } else if AtBlockComment(a, i) {
      hide Off;
      BlockEndIs(a, i + 2, 1);
      if BlockEnd(a, i + 2, 1).Some? {
        BlockEndStays(a, t, i + 2, 1);
        BetweenStays(a, t, i, BlockEnd(a, i + 2, 1).value);
      }
      hide BlockEnd;
    } else if Is(a, i, ';') {
      SemicolonsStay(a, t, st);
      hide Semicolons;
    }
  }

  lemma PassOneFlags(src: Text, st: State)
    requires st.pos <= |src|
    ensures !PassOne(src, st).Neither? && st.cutShort ==> PassOne(src, st).st.cutShort
  {
    PassOneIs(src, st);
    hide RunEnd, BlockEnd, Off;
  }

  lemma {:induction false} TriviaFlags(src: Text, st: State)
    requires st.pos <= |src|
    ensures st.cutShort ==> Trivia(src, st).0.cutShort
    decreases |src| - st.pos
  {
    hide PassOne, White;
    PassOneIs(src, st);
    PassOneFlags(src, st);
    match PassOne(src, st)
    case Passed(after) =>
      WhiteIs(src, after);
      TriviaFlags(src, White(src, after));
    case BrokenOff(after, i) =>
    case Neither =>
  }

  lemma {:induction false} TriviaStays(a: Text, t: Text, st: State)
    requires GoesOn(a, t) && st.pos <= |a|
    requires Trivia(a, st).1.None? && Trivia(a, st).0.pos < |a| && !Trivia(a, st).0.cutShort
    ensures Trivia(t, st) == Trivia(a, st)
    decreases |a| - st.pos
  {
    hide PassOne, White;
    PassOneIs(a, st);
    TriviaIs(a, st);
    match PassOne(a, st)
    case Passed(after) =>
      WhiteIs(a, after);
      var white := White(a, after);
      TriviaIs(a, white);
      TriviaFlags(a, white);
      PassOneStays(a, t, st);
      WhiteStays(a, t, after);
      TriviaStays(a, t, white);
    case BrokenOff(after, i) =>
    case Neither => PassOneStays(a, t, st);
  }

  /** What is in front of the end of the text reaches beyond it where the text goes on. */
  lemma {:induction false} TriviaGoesOn(a: Text, t: Text, st: State)
    requires GoesOn(a, t) && st.pos <= |a|
    requires Trivia(a, st).1.None? && Trivia(a, st).0.pos == |a| && !Trivia(a, st).0.cutShort
    ensures Trivia(t, st).0.pos >= |a| && (Trivia(t, st).1.Some? ==> Trivia(t, st).1.value >= |a|)
    decreases |a| - st.pos
  {
    hide PassOne, White;
    TriviaIs(t, st);
    PassOneIs(a, st);
    match PassOne(a, st)
    case Passed(after) =>
      WhiteIs(a, after);
      var white := White(a, after);
      TriviaFlags(a, white);
      PassOneStays(a, t, st);
      PassOneIs(t, st);
      WhiteIs(t, after);
      if white.pos < |a| {
        WhiteStays(a, t, after);
        TriviaGoesOn(a, t, white);
      } else {
        WhiteGoesOn(a, t, after);
        TriviaIs(t, White(t, after));
      }
    case BrokenOff(after, i) =>
    case Neither =>
  }

  lemma ScanFlags(env: Env, src: Text, st: State)
    requires Good(src, st) && st.pos < |src|
    ensures QuotesWithin(src, st) && (st.cutShort ==> Scan(env, src, st).0.cutShort)
  {
    ScanKept(env, src, st);
    hide Scan;
  }

  lemma GoodStays(a: Text, t: Text, st: State)
    requires a <= t && Good(a, st)
    ensures Good(t, st)
  {
    OffOfPrefix(a, t, |a|);
    OffGrows(t, |a|, |t|);
    hide Off;
  }

  /** The next token that is one, and is closed, is the same in a text that goes on. */
  lemma NextStays(env: Env, a: Text, t: Text, st: State)
    requires GoesOn(a, t) && Good(a, st) && QuotesWithin(a, st)
    requires NextToken(env, a, st).1 != Eof && !NextToken(env, a, st).0.cutShort
    ensures QuotesWithin(t, st) && NextToken(env, t, st) == NextToken(env, a, st)
  {
    WhiteIs(a, st);
    WhitePassing(a, st);
    var white := White(a, st);
    TriviaIs(a, white);
    CommentsNowhere(a, white);
    TriviaKept(a, white, |white.comments|, Off(a, white.pos));
    TriviaFlags(a, white);
    var (after, broken) := Trivia(a, white);
    hide Off, White, Trivia, Scan, CommentsIn, ErrorsRight;
    BrokenIsCutShort(a, white);
    ScanFlags(env, a, after);
    WhiteStays(a, t, st);
    TriviaStays(a, t, white);
    ScanStays(env, a, t, after);
  }

  lemma CommentsNowhere(src: Text, st: State)
    requires st.pos <= |src|
    ensures CommentsIn(st.comments, |st.comments|, Off(src, st.pos), Off(src, st.pos))
  {
  }

  lemma {:induction false} BrokenIsCutShort(src: Text, st: State)
    requires st.pos <= |src|
    ensures Trivia(src, st).1.Some? ==> Trivia(src, st).0.cutShort
    decreases |src| - st.pos
  {
    hide White, RunEnd, Off, BlockEnd;
    PassOneIs(src, st);
    match PassOne(src, st)
    case Passed(after) =>
      WhiteIs(src, after);
      hide PassOne;
      BrokenIsCutShort(src, White(src, after));
    case BrokenOff(after, i) =>
    case Neither =>
  }

  // ---------------------------------------------------------------- the tokens of a text that goes on

  ghost function NextOf(env: Env, src: Text, st: State): (State, Token, nat)
    requires Good(src, st)
  {
    NextIs(env, src, st);
    NextToken(env, src, st)
  }

  /** The next token is the end or runs into it, or an error has been dropped with it. */
  ghost predicate AtEnd(env: Env, src: Text, st: State)
    requires Good(src, st)
  {
    var next := NextOf(env, src, st);
    next.1 == Eof || next.0.more > 0 || next.0.cutShort
  }

  /** Where the lexer stands, and the tokens it has, before the end of the text or what runs into it. */
  ghost function BeforeEnd(env: Env, src: Text, st: State, tokens: seq<Tok>): (State, seq<Tok>)
    requires Good(src, st)
    decreases |src| - st.pos
  {
    NextIs(env, src, st);
    var (after, kind, start) := NextToken(env, src, st);
    DroppedGood(src, after, after.(newlines := 0));
    if kind == Eof || after.more > 0 || after.cutShort then (st, tokens)
    else BeforeEnd(env, src, after.(newlines := 0), tokens + [TokOf(src, after, |st.comments|, kind, start)])
  }

  lemma {:induction false} LexFromThere(env: Env, a: Text, t: Text, st: State, tokens: seq<Tok>)
    requires GoesOn(a, t) && Good(a, st) && Good(t, st)
    ensures var (there, read) := BeforeEnd(env, a, st, tokens);
            && Good(a, there) && Good(t, there) && (!st.cutShort ==> !there.cutShort)
            && Lex(env, a, st, tokens) == Lex(env, a, there, read)
            && Lex(env, t, st, tokens) == Lex(env, t, there, read)
            && LastState(env, t, st) == LastState(env, t, there)
            && AtEnd(env, a, there)
    decreases |a| - st.pos
  {
    hide Off, NextToken, CommentsIn, Nested, ErrorsRight;
    NextIs(env, a, st);
    var (after, kind, start) := NextToken(env, a, st);
    DroppedGood(a, after, after.(newlines := 0));
    if !(kind == Eof || after.more > 0 || after.cutShort) {
      NextStays(env, a, t, st);
      PosWithin(a, after);
      BetweenStays(a, t, start, after.pos);
      GoodStays(a, t, after.(newlines := 0));
      LexFromThere(env, a, t, after.(newlines := 0), tokens + [TokOf(a, after, |st.comments|, kind, start)]);
    }
  }

  lemma {:induction false} LexExtends(env: Env, src: Text, st: State, tokens: seq<Tok>)
    requires Good(src, st)
    ensures tokens <= Lex(env, src, st, tokens).tokens
    decreases |src| - st.pos
  {
    hide Off, NextToken, CommentsIn, Nested, ErrorsRight, Rest, QuotesWithin;
    NextIs(env, src, st);
    var (after, kind, start) := NextToken(env, src, st);
    DroppedGood(src, after, after.(newlines := 0));
    if after.more == 0 && kind != Eof {
      LexExtends(env, src, after.(newlines := 0), tokens + [TokOf(src, after, |st.comments|, kind, start)]);
    }
  }

  lemma InitialStays(a: Text, t: Text)
    requires GoesOn(a, t)
    ensures Initial(t) == Initial(a)
  {
  }

  /** The state and the tokens before the end of a whole text. */
  ghost function ReadOf(env: Env, src: Text): (State, seq<Tok>) {
    InitialGood(src);
    BeforeEnd(env, src, Initial(src), [])
  }

  lemma FromThere(env: Env, a: Text, t: Text)
    requires GoesOn(a, t)
    ensures var (there, read) := ReadOf(env, a);
            && Good(a, there) && Good(t, there) && !there.cutShort
            && Tokenized(env, a) == Lex(env, a, there, read)
            && Tokenized(env, t) == Lex(env, t, there, read)
            && (InitialGood(t); LastState(env, t, Initial(t))) == LastState(env, t, there)
            && AtEnd(env, a, there)
  {
    hide Lex, BeforeEnd, LastState;
    InitialGood(a);
    InitialGood(t);
    InitialStays(a, t);
    LexFromThere(env, a, t, Initial(a), []);
  }

  /**
    Lexing is stable under appended lines: the tokens of a text that is not cut short and drops no
    error, without its end, are the first tokens of every text that goes on with a line behind it.
   */
  lemma TokensStay(env: Env, a: Text, t: Text)
    requires GoesOn(a, t) && Tokenized(env, a).more == 0 && !Tokenized(env, a).cutShort
    ensures var tokens := Tokenized(env, a).tokens;
            tokens != [] && tokens[..|tokens| - 1] <= Tokenized(env, t).tokens
  {
    hide BeforeEnd, LastState, NextToken, Tokenized, Off, Rest;
    FromThere(env, a, t);
    var (there, read) := ReadOf(env, a);
    AtEof(env, a, there, read);
    LexExtends(env, t, there, read);
    assert Lex(env, a, there, read).tokens[..|read|] == read;
  }

  /** Where nothing is wrong at its end, the last token is the end. */
  lemma AtEof(env: Env, a: Text, st: State, tokens: seq<Tok>)
    requires Good(a, st) && Lex(env, a, st, tokens).more == 0
    requires AtEnd(env, a, st)
    requires !Lex(env, a, st, tokens).cutShort
    ensures NextOf(env, a, st).1 == Eof && NextOf(env, a, st).0.more == 0 && !NextOf(env, a, st).0.cutShort
    ensures var lexed := Lex(env, a, st, tokens).tokens; |lexed| == |tokens| + 1 && tokens <= lexed && lexed[|tokens|].kind == Eof
  {
    hide Off, NextToken, CommentsIn, Nested, ErrorsRight, QuotesWithin;
    NextIs(env, a, st);
    var (after, kind, start) := NextToken(env, a, st);
    DroppedGood(a, after, after.(newlines := 0));
    if after.more > 0 {
      RestIs(env, a, after.(newlines := 0));
    } else if kind != Eof {
      LexFlags(env, a, after.(newlines := 0), tokens + [TokOf(a, after, |st.comments|, kind, start)]);
    }
  }

  // ---------------------------------------------------------------- what a line without closers does

  /** From `p` on the text has no closer and no quote. */
  ghost predicate NoClosers(src: Text, p: nat) {
    forall i :: p <= i < |src| ==> src[i] != ')' && src[i] != ']' && src[i] != '}' && src[i] != '"'
  }

  /** A token that closes nothing and starts no string. */
  predicate IsQuiet(kind: Token) {
    !(kind.RParen? || kind.RBracket? || kind.RBrace? || kind.StringStart? || kind.StringMiddle? || kind.StringEnd?)
  }

  lemma QuietPunct(src: Text, i: nat)
    requires i < |src| && src[i] != ')' && src[i] != ']' && Punct(src, i).Some?
    ensures IsQuiet(Punct(src, i).value.0)
  {
  }

  lemma QuietScan(env: Env, src: Text, st: State)
    requires st.pos < |src| && QuotesWithin(src, st) && NoClosers(src, st.pos)
    ensures IsQuiet(Scan(env, src, st).1) && Scan(env, src, st).0.stack == st.stack
  {
    PlainSame(env, src, st);
    hide ScanString, ScanTriple, ScanNumber, ScanWord, ScanClose, ScanStray, Punct, QuotesWithin;
    if Punct(src, st.pos).Some? {
      QuietPunct(src, st.pos);
    }
  }

  /** Where what is in front of the next token reaches `p`, the token closes nothing. */
  lemma QuietNext(env: Env, src: Text, st: State, p: nat)
    requires Good(src, st) && QuotesWithin(src, st) && NoClosers(src, p)
    requires st.pos <= |src| && White(src, st).pos <= |src| && Trivia(src, White(src, st)).0.pos >= p
    ensures IsQuiet(NextToken(env, src, st).1) && NextToken(env, src, st).0.stack == st.stack && NextToken(env, src, st).0.pos >= p
  {
    WhiteIs(src, st);
    TriviaIs(src, White(src, st));
    WhitePassing(src, st);
    var white := White(src, st);
    CommentsNowhere(src, white);
    TriviaKept(src, white, |white.comments|, Off(src, white.pos));
    hide White, Trivia, Scan, Off, CommentsIn, ErrorsRight;
    var (after, broken) := Trivia(src, white);
    if broken.None? && after.pos < |src| {
      QuietScan(env, src, after);
      ScanKept(env, src, after);
    }
  }

  lemma QuietOpens(tokens: seq<Tok>, t: Tok)
    requires IsQuiet(t.kind)
    ensures Opens(tokens) <= Opens(tokens + [t])
  {
    OpensSnoc(tokens, t);
    hide Opens;
  }

  /** A line without closers leaves open what is open. */
  lemma {:induction false} QuietLex(env: Env, src: Text, st: State, tokens: seq<Tok>, p: nat)
    requires Good(src, st) && NoClosers(src, p)
    requires st.pos <= |src| && White(src, st).pos <= |src| && Trivia(src, White(src, st)).0.pos >= p
    ensures Opens(tokens) <= Opens(Lex(env, src, st, tokens).tokens)
    ensures LastState(env, src, st).stack == st.stack
    decreases |src| - st.pos
  {
    NextIs(env, src, st);
    QuietNext(env, src, st, p);
    hide Off, NextToken, CommentsIn, Nested, ErrorsRight, NoClosers, Opens, White, Trivia, Rest;
    var (after, kind, start) := NextToken(env, src, st);
    DroppedGood(src, after, after.(newlines := 0));
    if after.more > 0 {
      var lexed := CutOff(env, src, after, tokens, start);
      var n := |tokens|;
      assert lexed.tokens == tokens + [lexed.tokens[n]] + [lexed.tokens[n + 1]];
      QuietOpens(tokens, lexed.tokens[n]);
      QuietOpens(tokens + [lexed.tokens[n]], lexed.tokens[n + 1]);
    } else {
      var t := TokOf(src, after, |st.comments|, kind, start);
      QuietOpens(tokens, t);
      if kind != Eof {
        var next := after.(newlines := 0);
        WhiteIs(src, next);
        TriviaIs(src, White(src, next));
        QuietLex(env, src, next, tokens + [t], p);
      }
    }
  }
}
