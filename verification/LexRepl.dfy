/**
  What the REPL's shortcut relies on: a text that is open is still open with a line behind it that
  has neither a closer nor a quote, if no error is dropped and nothing is cut short.
 */
module LexRepl {
  import opened Basics
  import opened LexText
  import opened LexScan
  import opened LexSpec
  import opened LexKeeps
  import opened LexTokens
  import opened LexOpen
  import opened LexLines
  import opened LexLine

  // ---------------------------------------------------------------- an input whose end is no string and no comment

  /** The end of the text is reached over white space and comments alone. */
  lemma EofIsTrivia(env: Env, src: Text, st: State)
    requires Good(src, st) && NextOf(env, src, st).1 == Eof && !NextOf(env, src, st).0.cutShort
    ensures st.pos <= |src| && White(src, st).pos <= |src|
    ensures var (after, broken) := Trivia(src, White(src, st)); broken.None? && after.pos == |src| && !after.cutShort
  {
    WhiteIs(src, st);
    TriviaIs(src, White(src, st));
    WhitePassing(src, st);
    var white := White(src, st);
    CommentsNowhere(src, white);
    TriviaKept(src, white, |white.comments|, Off(src, white.pos));
    hide White, Trivia, Scan, Off, CommentsIn, ErrorsRight;
    var (after, broken) := Trivia(src, white);
    if broken.None? && after.pos < |src| {
      ScanKept(env, src, after);
    }
  }

  /** In a text that goes on, the next token is then behind the line end. */
  lemma EofGoesOn(env: Env, a: Text, t: Text, st: State)
    requires GoesOn(a, t) && Good(a, st) && NextOf(env, a, st).1 == Eof && !NextOf(env, a, st).0.cutShort
    ensures st.pos <= |t| && White(t, st).pos <= |t| && Trivia(t, White(t, st)).0.pos >= |a|
  {
    EofIsTrivia(env, a, st);
    WhiteIs(a, st);
    WhiteIs(t, st);
    hide NextOf, White, Trivia;
    if White(a, st).pos < |a| {
      WhiteStays(a, t, st);
      TriviaGoesOn(a, t, White(a, st));
    } else {
      WhiteGoesOn(a, t, st);
      TriviaIs(t, White(t, st));
    }
  }

  lemma WholeStaysOpen(env: Env, a: Text, t: Text)
    requires GoesOn(a, t) && NoClosers(t, |a|)
    requires Tokenized(env, a).more == 0 && !Tokenized(env, a).cutShort && Opens(Tokenized(env, a).tokens) != []
    ensures Opens(Tokenized(env, t).tokens) != []
  {
    hide BeforeEnd, LastState, NextToken, Tokenized, Off, Rest, Lex, NextOf, White, Trivia, Opens, NoClosers;
    FromThere(env, a, t);
    var (there, read) := ReadOf(env, a);
    AtEof(env, a, there, read);
    EofGoesOn(env, a, t, there);
    var eof := Tokenized(env, a).tokens[|read|];
    assert Tokenized(env, a).tokens == read + [eof];
    OpensSnoc(read, eof);
    QuietLex(env, t, there, read, |a|);
  }

  // ---------------------------------------------------------------- an input that is cut short

  lemma {:induction false} BlockStaysOpen(a: Text, t: Text, i: nat, depth: nat)
    requires GoesOn(a, t) && NoClosers(t, |a|) && i <= |a| && BlockEnd(a, i, depth).None?
    ensures BlockEnd(t, i, depth).None?
    decreases |a| - i
  {
    if i == |a| {
      BlockIsNeverClosed(t, i, depth, |a|);
    } else if a[i] == '{' && Is(a, i + 1, '-') {
      BlockStaysOpen(a, t, i + 2, depth + 1);
    } else if a[i] == '-' && Is(a, i + 1, '}') {
      BlockStaysOpen(a, t, i + 2, depth - 1);
    } else {
      BlockStaysOpen(a, t, i + 1, depth);
    }
  }

  /** Where no quote comes any more, a string is not closed any more. */
  lemma {:induction false} StringIsNeverClosed(t: Text, i: nat, p: nat)
    requires NoClosers(t, p) && p <= i <= |t|
    ensures StrScan(t, i).Unclosed? || (StrScan(t, i).Brace? && StrScan(t, i).end > i)
    decreases |t| - i
  {
    if i < |t| {
      if t[i] == '\\' {
        if i + 1 < |t| {
          EscapeIs(t, i);
          hide Escape;
          StringIsNeverClosed(t, Escape(t, i).0, p);
        }
      } else if t[i] != '{' {
        StringIsNeverClosed(t, i + 1, p);
      }
    }
  }

  lemma {:induction false} StringStaysOpen(a: Text, t: Text, i: nat)
    requires GoesOn(a, t) && NoClosers(t, |a|) && i <= |a| && StrScan(a, i).Unclosed?
    ensures StrScan(t, i).Unclosed? || (StrScan(t, i).Brace? && StrScan(t, i).end >= |a|)
    decreases |a| - i
  {
    hide UniEscape;
    if i == |a| {
      StringIsNeverClosed(t, i, |a|);
    } else if a[i] == '\\' {
      if i + 1 == |a| {
        assert Escape(t, i).0 == i + 2;
        StringIsNeverClosed(t, i + 2, |a|);
      } else {
        EscapeIs(a, i);
        EscapeStays(a, t, i);
        hide Escape;
        StringStaysOpen(a, t, Escape(a, i).0);
      }
    } else {
      StringStaysOpen(a, t, i + 1);
    }
  }

  lemma {:induction false} TripleStaysOpen(a: Text, t: Text, i: nat)
    requires GoesOn(a, t) && NoClosers(t, |a|) && TripleEnd(a, i).None?
    ensures TripleEnd(t, i).None?
    decreases |t| - i
  {
    if i < |t| {
      assert !ThreeQuotes(t, i) by {
        assert i < |a| && i + 2 < |a| ==> ThreeQuotes(a, i) == ThreeQuotes(t, i);
      }
      TripleStaysOpen(a, t, i + 1);
    }
  }

  /** What a string that runs into the end of the text is in a text that goes on: still open, or open at an interpolation. */
  ghost predicate StillOpen(a: Text, r: (State, Token, nat)) {
    r.0.cutShort || (r.0.stack != [] && r.0.pos >= |a| && r.1 != Eof)
  }

  lemma StringCut(a: Text, t: Text, st: State, start: nat, quote: nat, rest: bool)
    requires GoesOn(a, t) && NoClosers(t, |a|) && st.pos <= |a| && start <= |a| && quote <= |a| && !st.cutShort
    requires ScanString(a, st, start, quote, rest).0.cutShort
    ensures StillOpen(a, ScanString(t, st, start, quote, rest))
  {
    hide Off, RecordedAll, NoClosers;
    match StrScan(a, st.pos)
    case Closed(end, errs) => RecordedAllSame(st.(pos := end), errs);
    case Brace(end, errs) =>
      RecordedAllSame(st.(pos := end, stack := st.stack + [(st.brace, quote)], brace := st.brace + 1), errs);
    case Unclosed(_, _) =>
      StringStaysOpen(a, t, st.pos);
      hide StrScan;
      match StrScan(t, st.pos)
      case Brace(end, errs) =>
        RecordedAllSame(st.(pos := end, stack := st.stack + [(st.brace, quote)], brace := st.brace + 1), errs);
      case Unclosed(errs, _) => RecordedAllSame(st.(pos := |t|, cutShort := true), errs);
  }

  lemma NotCut(env: Env, src: Text, st: State)
    requires st.pos < |src| && !st.cutShort
    ensures !ScanNumber(env, src, st).0.cutShort && !ScanWord(src, st).0.cutShort && !ScanStray(env, src, st).0.cutShort
  {
    NumeralIs(src, st.pos);
    StrayEndIs(env, src, st.pos);
    WordBeginIs(env, src, st.pos);
    hide Off, Numeral, StrayEnd, WordBegin, RunEnd, IsAlnum;
  }

  lemma TripleCut(a: Text, t: Text, st: State)
    requires GoesOn(a, t) && NoClosers(t, |a|) && st.pos < |a| && !st.cutShort && ScanTriple(a, st).0.cutShort
    ensures ScanTriple(t, st).0.cutShort
  {
    hide Off, NoClosers;
    TripleStaysOpen(a, t, st.pos + 3);
    hide TripleEnd;
  }

  lemma CloseCut(a: Text, t: Text, st: State)
    requires GoesOn(a, t) && NoClosers(t, |a|) && st.pos < |a| && QuotesWithin(a, st) && QuotesWithin(t, st) && !st.cutShort
    requires ScanClose(a, st).0.cutShort
    ensures StillOpen(a, ScanClose(t, st))
  {
    hide ScanString, NoClosers;
    var n := |st.stack|;
    StringCut(a, t, st.(pos := st.pos + 1, stack := st.stack[..n - 1], brace := st.brace - 1), st.pos + 1, st.stack[n - 1].1, true);
  }

  lemma ScanCut(env: Env, a: Text, t: Text, st: State)
    requires GoesOn(a, t) && NoClosers(t, |a|) && st.pos < |a| && QuotesWithin(a, st) && !st.cutShort
    requires Scan(env, a, st).0.cutShort
    ensures QuotesWithin(t, st) && StillOpen(a, Scan(env, t, st))
  {
    var i, c := st.pos, a[st.pos];
    assert QuotesWithin(t, st);
    NotCut(env, a, st);
    hide ScanString, ScanTriple, ScanNumber, ScanWord, ScanStray, ScanClose, Punct, NoClosers, QuotesWithin;
    assert t[i] == c;
    IsStays(a, t, i + 1, '"');
    PunctStays(a, t, i);
    if c == '"' {
      if Is(a, i + 1, '"') && Is(a, i + 2, '"') {
        TripleCut(a, t, st);
      } else {
        if i + 2 <= |a| {
          IsStays(a, t, i + 2, '"');
        }
        StringCut(a, t, st.(pos := i + 1), i, i, false);
      }
    } else if c == '}' {
      CloseCut(a, t, st);
    }
  }

  lemma PassOneCut(a: Text, t: Text, st: State)
    requires GoesOn(a, t) && NoClosers(t, |a|) && st.pos < |a| && !st.cutShort
    requires !PassOne(a, st).Neither? && PassOne(a, st).st.cutShort
    ensures !PassOne(t, st).Neither? && PassOne(t, st).st.cutShort
  {
    var i := st.pos;
    hide Off, RunEnd, NoClosers;
    IsStays(a, t, i + 1, '-');
    BlockEndIs(a, i + 2, 1);
    BlockStaysOpen(a, t, i + 2, 1);
    hide BlockEnd;
  }

  /** What is in front of the last token is cut short in the longer text too. */
  lemma {:induction false} TriviaCut(a: Text, t: Text, st: State)
    requires GoesOn(a, t) && NoClosers(t, |a|) && st.pos <= |a| && !st.cutShort && Trivia(a, st).0.cutShort
    ensures Trivia(t, st).0.cutShort
    decreases |a| - st.pos
  {
    hide PassOne, White, NoClosers;
    PassOneIs(a, st);
    PassOneIs(t, st);
    if !PassOne(a, st).Neither? && PassOne(a, st).st.cutShort {
      PassOneCut(a, t, st);
      var next := PassOne(t, st).st;
      WhiteIs(t, next);
      TriviaFlags(t, White(t, next));
    } else {
      PassOneStays(a, t, st);
      var next := PassOne(a, st).st;
      WhiteIs(a, next);
      if White(a, next).pos < |a| {
        WhiteStays(a, t, next);
        TriviaCut(a, t, White(a, next));
      } else {
        NothingAtTheEnd(a, White(a, next));
      }
    }
  }

  lemma NothingAtTheEnd(src: Text, st: State)
    requires st.pos == |src|
    ensures PassOne(src, st).Neither? && Trivia(src, st) == (st, None)
  {
  }

  /** What runs into the end of the text is still open in a text that goes on without closers. */
  lemma NextCut(env: Env, a: Text, t: Text, st: State)
    requires GoesOn(a, t) && NoClosers(t, |a|) && Good(a, st) && Good(t, st) && !st.cutShort
    requires NextOf(env, a, st).0.cutShort
    ensures StillOpen(a, NextOf(env, t, st))
  {
    NextIs(env, a, st);
    NextIs(env, t, st);
    WhiteIs(a, st);
    WhiteIs(t, st);
    WhitePassing(t, st);
    TriviaIs(a, White(a, st));
    TriviaIs(t, White(t, st));
    if White(a, st).pos == |a| {
      NothingAtTheEnd(a, White(a, st));
    }
    hide White, Trivia, Scan, NoClosers, Good, NextRight;
    WhiteStays(a, t, st);
    var white := White(a, st);
    if Trivia(a, white).0.cutShort {
      TriviaCut(a, t, white);
      TriviaThenScan(env, t, st);
    } else {
      BrokenIsCutShort(a, white);
      TriviaStays(a, t, white);
      ScanCut(env, a, t, Trivia(a, white).0);
    }
  }

  lemma TriviaThenScan(env: Env, src: Text, st: State)
    requires Good(src, st) && st.pos <= |src| && White(src, st).pos <= |src| && Trivia(src, White(src, st)).0.cutShort
    ensures NextOf(env, src, st).0.cutShort
  {
    NextIs(env, src, st);
    WhiteIs(src, st);
    WhitePassing(src, st);
    var white := White(src, st);
    TriviaIs(src, white);
    CommentsNowhere(src, white);
    TriviaKept(src, white, |white.comments|, Off(src, white.pos));
    hide White, Trivia, Scan, Off, CommentsIn, ErrorsRight;
    var (after, broken) := Trivia(src, white);
    if broken.None? && after.pos < |src| {
      ScanFlags(env, src, after);
    }
  }

  lemma CutStaysOpen(env: Env, a: Text, t: Text)
    requires GoesOn(a, t) && NoClosers(t, |a|)
    requires Tokenized(env, a).more == 0 && Tokenized(env, a).cutShort
    requires Tokenized(env, t).more == 0 && !Tokenized(env, t).cutShort
    ensures Opens(Tokenized(env, t).tokens) != []
  {
    hide BeforeEnd, NextToken, Tokenized, Off, Rest, NextOf, White, Trivia, Opens, NoClosers, Interpolations;
    FromThere(env, a, t);
    var (there, read) := ReadOf(env, a);
    CutAtEnd(env, a, there, read);
    NextCut(env, a, t, there);
    StackAtEnd(env, a, t, there, read);
    OpenInterpolationsAreTheStack(env, t);
    assert Interpolations([]) == 0 by { NoInterpolations(); }
  }

  lemma NoInterpolations()
    ensures Interpolations([]) == 0
  {
  }

  lemma CutAtEnd(env: Env, a: Text, st: State, tokens: seq<Tok>)
    requires Good(a, st) && AtEnd(env, a, st) && !st.cutShort
    requires Lex(env, a, st, tokens).more == 0 && Lex(env, a, st, tokens).cutShort
    ensures NextOf(env, a, st).0.cutShort
  {
    hide Off, NextToken, CommentsIn, Nested, ErrorsRight, QuotesWithin;
    NextIs(env, a, st);
    var (after, kind, start) := NextToken(env, a, st);
    DroppedGood(a, after, after.(newlines := 0));
    if after.more > 0 {
      RestIs(env, a, after.(newlines := 0));
    }
  }

  lemma StackAtEnd(env: Env, a: Text, t: Text, st: State, tokens: seq<Tok>)
    requires GoesOn(a, t) && NoClosers(t, |a|) && Good(t, st) && StillOpen(a, NextOf(env, t, st))
    requires Lex(env, t, st, tokens).more == 0 && !Lex(env, t, st, tokens).cutShort
    ensures LastState(env, t, st).stack != []
  {
    hide Off, NextToken, CommentsIn, Nested, ErrorsRight, QuotesWithin, NoClosers, Opens;
    NextIs(env, t, st);
    var (after, kind, start) := NextToken(env, t, st);
    var next := after.(newlines := 0);
    DroppedGood(t, after, next);
    if after.more > 0 {
      RestIs(env, t, next);
    } else {
      var more := tokens + [TokOf(t, after, |st.comments|, kind, start)];
      if kind != Eof {
        LexFlags(env, t, next, more);
        WhiteIs(t, next);
        TriviaIs(t, White(t, next));
        QuietLex(env, t, next, more, |a|);
      }
    }
  }

  /**
    An input that is open stays open with a line that has none of `)`, `]`, `}` and the quote, as
    long as the two together are not cut short and drop no error.
   */
  lemma OpenStaysOpen(env: Env, a: Text, b: Text)
    requires EndsOpenOf(Tokenized(env, a)) && Plain(b)
    requires Tokenized(env, a + ['\n'] + b).more == 0 && !Tokenized(env, a + ['\n'] + b).cutShort
    ensures EndsOpenOf(Tokenized(env, a + ['\n'] + b))
  {
    var t := a + ['\n'] + b;
    hide Tokenized, Opens, NoClosers, GoesOn, Plain;
    PlainLine(a, b);
    if Tokenized(env, a).cutShort {
      CutStaysOpen(env, a, t);
    } else {
      WholeStaysOpen(env, a, t);
    }
  }
}
