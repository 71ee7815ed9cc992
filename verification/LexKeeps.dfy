/** What every token keeps of the lexer's state. */
module LexKeeps {
  import opened Basics
  import opened LexText
  import opened LexScan
  import opened LexSpec

  // ---------------------------------------------------------------- what every token keeps

  /** At most so many errors are kept, all in the text, and more are counted only behind them. */
  ghost predicate ErrorsRight(src: Text, st: State) {
    && |st.errors| <= MAX_SYNTAX_ERRORS
    && (st.more > 0 ==> |st.errors| == MAX_SYNTAX_ERRORS)
    && SpansWithin(st.errors, Off(src, |src|))
    && (st.repeats != {} ==> st.errors != [])
  }

  /** The interpolations nest: each began with more braces open than the one before, and fewer than are open now. */
  ghost predicate Nested(src: Text, st: State) {
    && (forall k :: 0 <= k < |st.stack| ==> st.stack[k].0 < st.brace && st.stack[k].1 <= |src|)
    && (forall j, k :: 0 <= j < k < |st.stack| ==> st.stack[j].0 < st.stack[k].0)
  }

  /** What errors may do to a state. */
  ghost predicate OnlyErrors(st: State, st': State) {
    && st' == st.(errors := st'.errors, more := st'.more, repeats := st'.repeats)
    && st.errors <= st'.errors && st.more <= st'.more && st.repeats <= st'.repeats
  }

  lemma RecordedIs(src: Text, st: State, span: Span)
    requires ErrorsRight(src, st) && span.start <= span.end <= Off(src, |src|)
    ensures ErrorsRight(src, Recorded(st, span)) && OnlyErrors(st, Recorded(st, span)) && Recorded(st, span).errors != []
  {
    hide Off;
  }

  lemma RepeatedIs(src: Text, st: State, written: Text, span: Span)
    requires ErrorsRight(src, st) && span.start <= span.end <= Off(src, |src|)
    ensures ErrorsRight(src, Repeated(st, written, span)) && OnlyErrors(st, Repeated(st, written, span))
    ensures Repeated(st, written, span).errors != []
  {
    hide Off;
  }

  lemma {:induction false} RecordedAllIs(src: Text, st: State, spans: seq<Span>)
    requires ErrorsRight(src, st) && SpansWithin(spans, Off(src, |src|))
    ensures ErrorsRight(src, RecordedAll(st, spans)) && OnlyErrors(st, RecordedAll(st, spans))
    decreases |spans|
  {
    hide Off, ErrorsRight;
    if spans != [] {
      assert spans[0].start <= spans[0].end <= Off(src, |src|);
      RecordedIs(src, st, spans[0]);
      assert SpansWithin(spans[1..], Off(src, |src|));
      RecordedAllIs(src, Recorded(st, spans[0]), spans[1..]);
    }
  }

  /** The lexer stands in the text, its errors and its interpolations are right. */
  ghost predicate Good(src: Text, st: State) {
    st.pos <= |src| && ErrorsRight(src, st) && Nested(src, st)
  }

  /** The lexer has gone on: no error, comment or mark of what is wrong is lost. */
  ghost predicate Went(src: Text, st: State, st': State) {
    && Good(src, st') && st.pos <= st'.pos
    && st'.comments == st.comments && st'.newlines == st.newlines
    && st.errors <= st'.errors && st.more <= st'.more
    && (st.cutShort ==> st'.cutShort) && (st.quotesOff ==> st'.quotesOff)
  }

  /** What reading a token at the place where the lexer stands comes to. */
  ghost predicate Kept(src: Text, st: State, r: (State, Token, nat)) {
    && Went(src, st, r.0)
    && st.pos <= r.2 <= r.0.pos && st.pos < r.0.pos
    && r.1 != Eof && (r.1 == Error ==> r.0.errors != [])
  }

  /** Moved on, and then errors recorded. */
  lemma WentWithErrors(src: Text, st: State, moved: State, st': State)
    requires moved.pos <= |src| && st.pos <= moved.pos && Nested(src, moved)
    requires moved.comments == st.comments && moved.newlines == st.newlines
    requires moved.errors == st.errors && moved.more == st.more
    requires (st.cutShort ==> moved.cutShort) && (st.quotesOff ==> moved.quotesOff)
    requires OnlyErrors(moved, st') && ErrorsRight(src, st')
    ensures Went(src, st, st')
  {
    hide ErrorsRight;
  }

  lemma OtherErrors(src: Text, st: State, st': State)
    requires ErrorsRight(src, st) && st'.errors == st.errors && st'.more == st.more && st'.repeats == st.repeats
    ensures ErrorsRight(src, st')
  {
  }

  lemma WithinText(src: Text, m: nat, n: nat)
    requires m <= n <= |src|
    ensures Off(src, m) <= Off(src, n) <= Off(src, |src|)
  {
    OffGrows(src, m, n);
    OffGrows(src, n, |src|);
  }

  /** One error of what was read from `from` to `to`. */
  lemma OneError(src: Text, st: State, moved: State, from: nat, to: nat)
    requires Good(src, st) && moved.pos <= |src| && st.pos <= moved.pos && from <= to <= |src|
    requires moved == st.(pos := moved.pos, cutShort := moved.cutShort, quotesOff := moved.quotesOff)
    requires (st.cutShort ==> moved.cutShort) && (st.quotesOff ==> moved.quotesOff)
    ensures Went(src, st, Recorded(moved, Between(src, from, to))) && Recorded(moved, Between(src, from, to)).errors != []
  {
    hide ErrorsRight, Off, Recorded;
    WithinText(src, from, to);
    OtherErrors(src, st, moved);
    RecordedIs(src, moved, Between(src, from, to));
    WentWithErrors(src, st, moved, Recorded(moved, Between(src, from, to)));
  }

  lemma ClosedKept(src: Text, st: State, end: nat, errs: seq<Span>)
    requires Good(src, st) && st.pos <= end <= |src| && SpansWithin(errs, Off(src, |src|))
    ensures Went(src, st, RecordedAll(st.(pos := end), errs)) && RecordedAll(st.(pos := end), errs).pos == end
  {
    hide ErrorsRight, Off, RecordedAll, SpansWithin;
    var moved := st.(pos := end);
    OtherErrors(src, st, moved);
    RecordedAllIs(src, moved, errs);
    WentWithErrors(src, st, moved, RecordedAll(moved, errs));
  }

  lemma BraceKept(src: Text, st: State, quote: nat, end: nat, errs: seq<Span>)
    requires Good(src, st) && st.pos <= end <= |src| && quote <= |src| && SpansWithin(errs, Off(src, |src|))
    ensures var moved := st.(pos := end, stack := st.stack + [(st.brace, quote)], brace := st.brace + 1);
            Went(src, st, RecordedAll(moved, errs)) && RecordedAll(moved, errs).pos == end
  {
    hide ErrorsRight, Off, RecordedAll, SpansWithin;
    var moved := st.(pos := end, stack := st.stack + [(st.brace, quote)], brace := st.brace + 1);
    OtherErrors(src, st, moved);
    RecordedAllIs(src, moved, errs);
    WentWithErrors(src, st, moved, RecordedAll(moved, errs));
  }

  lemma UnclosedKept(src: Text, st: State, at: nat, errs: seq<Span>)
    requires Good(src, st) && at <= |src| && SpansWithin(errs, Off(src, |src|))
    ensures var cut := RecordedAll(st.(pos := |src|, cutShort := true), errs);
            Went(src, st, Recorded(cut, Between(src, at, at))) && Recorded(cut, Between(src, at, at)).errors != []
    ensures Recorded(RecordedAll(st.(pos := |src|, cutShort := true), errs), Between(src, at, at)).pos == |src|
  {
    hide ErrorsRight, Off, RecordedAll, Recorded, SpansWithin;
    var moved := st.(pos := |src|, cutShort := true);
    OtherErrors(src, st, moved);
    RecordedAllIs(src, moved, errs);
    WithinText(src, at, at);
    RecordedIs(src, RecordedAll(moved, errs), Between(src, at, at));
    WentWithErrors(src, st, moved, Recorded(RecordedAll(moved, errs), Between(src, at, at)));
  }

  lemma StringKept(src: Text, st: State, start: nat, quote: nat, rest: bool)
    requires Good(src, st) && start <= st.pos && quote <= |src|
    ensures var r := ScanString(src, st, start, quote, rest);
            && Went(src, st, r.0) && r.2 == start && r.1 != Eof && (r.1 == Error ==> r.0.errors != [])
  {
    StrScanIs(src, st.pos);
    hide Off, ErrorsRight, StrScan, RecordedAll, Recorded, Went, SpansWithin, Nested;
    match StrScan(src, st.pos)
    case Closed(end, errs) => ClosedKept(src, st, end, errs);
    case Brace(end, errs) => BraceKept(src, st, quote, end, errs);
    case Unclosed(errs, inEscape) => UnclosedKept(src, st, if inEscape || st.stack != [] then start else quote, errs);
  }

  lemma TripleKept(src: Text, st: State)
    requires Good(src, st) && st.pos < |src|
    ensures Kept(src, st, ScanTriple(src, st))
  {
    TripleEndIs(src, st.pos + 3);
    OneError(src, st, st.(pos := |src|, cutShort := true), st.pos, st.pos);
    hide TripleEnd, Off, Recorded;
  }

  lemma NumberKept(env: Env, src: Text, st: State)
    requires Good(src, st) && st.pos < |src|
    ensures Kept(src, st, ScanNumber(env, src, st))
  {
    NumeralIs(src, st.pos);
    var end := Numeral(src, st.pos).0;
    OneError(src, st, st.(pos := end), st.pos, end);
    hide Numeral, Off, Recorded;
  }

  lemma WordKept(src: Text, st: State)
    requires Good(src, st) && st.pos < |src|
    ensures Kept(src, st, ScanWord(src, st))
  {
    RunEndIs(src, st.pos + 1, NameChar());
    hide RunEnd, Off;
  }

  /** One error of a mistake that may have been made before. */
  lemma OneRepeated(src: Text, st: State, pos: nat, written: Text, from: nat, to: nat)
    requires Good(src, st) && st.pos <= pos <= |src| && from <= to <= |src|
    ensures var after := Repeated(st.(pos := pos), written, Between(src, from, to));
            Went(src, st, after) && after.errors != [] && after.pos == pos
  {
    hide ErrorsRight, Off, Repeated;
    var moved := st.(pos := pos);
    WithinText(src, from, to);
    OtherErrors(src, st, moved);
    RepeatedIs(src, moved, written, Between(src, from, to));
    WentWithErrors(src, st, moved, Repeated(moved, written, Between(src, from, to)));
  }

  lemma StrayKept(env: Env, src: Text, st: State)
    requires Good(src, st) && st.pos < |src|
    ensures Kept(src, st, ScanStray(env, src, st))
  {
    var i, c := st.pos, src[st.pos];
    StrayEndIs(env, src, i);
    WordBeginIs(env, src, i);
    hide StrayEnd, WordBegin, Off, Repeated, Went, IsAlnum;
    var end := StrayEnd(env, src, i);
    if c != '&' && IsAlnum(env, c) {
      OneRepeated(src, st, end, src[WordBegin(env, src, i)..end], i, i + 1);
    } else {
      var off := c != '&' && !IsQuote(c) && c == '\\';
      var moved := st.(pos := end, quotesOff := st.quotesOff || off);
      OneError(src, st, moved, i, i + 1);
      assert Recorded(moved, Between(src, i, i + 1)).pos == end;
      hide Recorded;
    }
  }

  /** A closing brace leaves the interpolations nested, whichever it closes. */
  lemma CloseKept(src: Text, st: State)
    requires Good(src, st) && st.pos < |src|
    ensures Kept(src, st, ScanClose(src, st))
  {
    hide ErrorsRight, Off, ScanString;
    var n := |st.stack|;
    if n > 0 && st.brace == st.stack[n - 1].0 + 1 {
      var popped := st.(pos := st.pos + 1, stack := st.stack[..n - 1], brace := st.brace - 1);
      OtherErrors(src, st, popped);
      assert Nested(src, popped);
      StringKept(src, popped, st.pos + 1, st.stack[n - 1].1, true);
    } else {
      var closed := st.(pos := st.pos + 1, brace := if st.brace > 0 then st.brace - 1 else 0);
      OtherErrors(src, st, closed);
      assert Nested(src, closed) by {
        if n > 0 {
          assert st.brace > st.stack[n - 1].0 + 1;
        }
      }
    }
  }

  /** A token that does nothing but move on, or open a brace. */
  lemma MovedKept(src: Text, st: State, pos: nat, brace: nat, kind: Token)
    requires Good(src, st) && st.pos < pos <= |src| && st.brace <= brace && kind != Eof && kind != Error
    ensures Kept(src, st, (st.(pos := pos, brace := brace), kind, st.pos))
  {
    hide ErrorsRight;
    OtherErrors(src, st, st.(pos := pos, brace := brace));
  }

  lemma QuoteKept(src: Text, st: State)
    requires Good(src, st) && st.pos < |src|
    ensures Kept(src, st, ScanString(src, st.(pos := st.pos + 1), st.pos, st.pos, false))
  {
    hide ErrorsRight, ScanString;
    OtherErrors(src, st, st.(pos := st.pos + 1));
    StringKept(src, st.(pos := st.pos + 1), st.pos, st.pos, false);
  }

  /** A token keeps the state good, moves on, and loses nothing. */
  lemma ScanKept(env: Env, src: Text, st: State)
    requires Good(src, st) && st.pos < |src|
    ensures QuotesWithin(src, st) && Kept(src, st, Scan(env, src, st))
  {
    assert QuotesWithin(src, st);
    var i, c := st.pos, src[st.pos];
    hide Good, Kept, ScanString, ScanTriple, ScanNumber, ScanWord, ScanClose, ScanStray, Punct, QuotesWithin;
    if c == '"' {
      if Is(src, i + 1, '"') && Is(src, i + 2, '"') {
        TripleKept(src, st);
      } else {
        QuoteKept(src, st);
      }
    } else if IsDigit(c) {
      NumberKept(env, src, st);
    } else if IsLetter(c) {
      WordKept(src, st);
    } else if Punct(src, i).Some? {
      PunctIs(src, i);
      MovedKept(src, st, i + Punct(src, i).value.1, st.brace, Punct(src, i).value.0);
    } else if c == '{' {
      MovedKept(src, st, i + 1, st.brace + 1, LBrace);
    } else if c == '#' && Is(src, i + 1, '{') {
      MovedKept(src, st, i + 2, st.brace + 1, HashBrace);
    } else if c == '}' {
      CloseKept(src, st);
    } else {
      StrayKept(env, src, st);
    }
  }

  // ---------------------------------------------------------------- what is in front of a token

  /** Where the comment before the `i`th ends, or `lo` before the `k`th. */
  function Floor(comments: seq<Comment>, k: nat, lo: nat, i: nat): nat
    requires i <= |comments|
  {
    if i <= k then lo else comments[i - 1].span.end
  }

  /** The comments from the `k`th on lie one behind the other between two offsets. */
  ghost predicate CommentsIn(comments: seq<Comment>, k: nat, lo: nat, hi: nat) {
    && k <= |comments|
    && (forall i :: k <= i < |comments| ==> Floor(comments, k, lo, i) <= comments[i].span.start <= comments[i].span.end)
    && Floor(comments, k, lo, |comments|) <= hi
  }

  /** The lexer has gone on over comments: those before are kept, and the new ones lie in between, from the `k`th on. */
  ghost predicate Passing(src: Text, st: State, st': State) {
    && Good(src, st') && st.pos <= st'.pos
    && st'.stack == st.stack && st'.brace == st.brace
    && st.comments <= st'.comments
    && st.errors <= st'.errors && st.more <= st'.more
    && (st.cutShort ==> st'.cutShort) && st'.quotesOff == st.quotesOff
  }

  lemma WhitePassing(src: Text, st: State)
    requires Good(src, st)
    ensures Passing(src, st, White(src, st)) && White(src, st).comments == st.comments
  {
    hide ErrorsRight;
    WhiteIs(src, st);
    OtherErrors(src, st, White(src, st));
  }

  lemma CommentedIn(src: Text, st: State, line: bool, end: nat, k: nat, lo: nat)
    requires st.pos <= end <= |src| && CommentsIn(st.comments, k, lo, Off(src, st.pos))
    ensures CommentsIn(Commented(src, st, line, st.pos, end).comments, k, lo, Off(src, end))
  {
    WithinText(src, st.pos, end);
    var more := Commented(src, st, line, st.pos, end).comments;
    assert forall i :: 0 <= i <= |st.comments| ==> Floor(more, k, lo, i) == Floor(st.comments, k, lo, i);
    hide Off;
  }

  lemma CommentsStay(comments: seq<Comment>, k: nat, lo: nat, hi: nat, hi': nat)
    requires CommentsIn(comments, k, lo, hi) && hi <= hi'
    ensures CommentsIn(comments, k, lo, hi')
  {
  }

  /** One comment or run of semicolons: the comments still lie where they should. */
  lemma PassOneKept(src: Text, st: State, k: nat, lo: nat)
    requires Good(src, st) && CommentsIn(st.comments, k, lo, Off(src, st.pos))
    ensures !PassOne(src, st).Neither? ==> Passing(src, st, PassOne(src, st).st)
    ensures PassOne(src, st).Passed? ==> CommentsIn(PassOne(src, st).st.comments, k, lo, Off(src, PassOne(src, st).st.pos))
    ensures PassOne(src, st).BrokenOff? ==>
              PassOne(src, st).at == st.pos && PassOne(src, st).st.comments == st.comments && PassOne(src, st).st.errors != []
  {
    PassOneIs(src, st);
    if AtLineComment(src, st.pos) {
      LineKept(src, st, k, lo);
    } else if AtBlockComment(src, st.pos) {
      BlockKept(src, st, k, lo);
    } else if Is(src, st.pos, ';') {
      SemicolonsKept(src, st, k, lo);
    }
  }

  lemma LineKept(src: Text, st: State, k: nat, lo: nat)
    requires Good(src, st) && CommentsIn(st.comments, k, lo, Off(src, st.pos)) && AtLineComment(src, st.pos)
    ensures Passing(src, st, PassedLine(src, st))
    ensures CommentsIn(PassedLine(src, st).comments, k, lo, Off(src, PassedLine(src, st).pos))
  {
    hide ErrorsRight, CommentsIn, Off;
    RunEndIs(src, st.pos, LineChar());
    CommentedIn(src, st, true, RunEnd(src, st.pos, LineChar()), k, lo);
    OtherErrors(src, st, PassedLine(src, st));
    hide RunEnd;
  }

  lemma BlockKept(src: Text, st: State, k: nat, lo: nat)
    requires Good(src, st) && CommentsIn(st.comments, k, lo, Off(src, st.pos)) && AtBlockComment(src, st.pos)
    ensures var p := PassOne(src, st);
            && !p.Neither? && Passing(src, st, p.st)
            && (p.Passed? ==> CommentsIn(p.st.comments, k, lo, Off(src, p.st.pos)))
            && (p.BrokenOff? ==> p.st.comments == st.comments && p.st.errors != [])
  {
    hide ErrorsRight, CommentsIn, Off, BlockEnd, Recorded;
    BlockEndIs(src, st.pos + 2, 1);
    match BlockEnd(src, st.pos + 2, 1)
    case Some(end) =>
      CommentedIn(src, st, false, end, k, lo);
      OtherErrors(src, st, Commented(src, st, false, st.pos, end));
    case None =>
      OneError(src, st, st.(pos := |src|, cutShort := true), st.pos + 2, st.pos + 2);
      var broken := Unended(src, st);
      UnendedIs(src, st);
      CommentedIn(src, broken.(pos := st.pos), false, |src|, k, lo);
      OtherErrors(src, broken, Commented(src, broken, false, st.pos, |src|));
  }

  lemma UnendedIs(src: Text, st: State)
    requires st.pos + 2 <= |src|
    ensures OnlyErrors(st.(pos := |src|, cutShort := true), Unended(src, st))
  {
  }

  lemma SemicolonsKept(src: Text, st: State, k: nat, lo: nat)
    requires Good(src, st) && CommentsIn(st.comments, k, lo, Off(src, st.pos)) && Is(src, st.pos, ';')
    ensures Passing(src, st, Semicolons(src, st))
    ensures CommentsIn(Semicolons(src, st).comments, k, lo, Off(src, Semicolons(src, st).pos))
  {
    hide ErrorsRight, CommentsIn, Off, Repeated;
    RunEndIs(src, st.pos, SemiChar());
    var moved := st.(pos := RunEnd(src, st.pos, SemiChar()));
    hide RunEnd;
    WithinText(src, st.pos, st.pos + 1);
    WithinText(src, st.pos, moved.pos);
    OtherErrors(src, st, moved);
    RepeatedIs(src, moved, [], Between(src, st.pos, st.pos + 1));
    OtherErrors(src, Repeated(moved, [], Between(src, st.pos, st.pos + 1)), Semicolons(src, st));
    CommentsStay(st.comments, k, lo, Off(src, st.pos), Off(src, moved.pos));
  }

  lemma PassingOn(src: Text, a: State, b: State, c: State)
    requires Passing(src, a, b) && Passing(src, b, c)
    ensures Passing(src, a, c)
  {
    hide Good;
  }

  lemma PassingWhite(src: Text, st: State, after: State)
    requires Passing(src, st, after) && after.pos <= |src|
    ensures Passing(src, st, White(src, after)) && White(src, after).comments == after.comments && after.pos <= White(src, after).pos <= |src|
  {
    WhitePassing(src, after);
    hide White;
    PassingOn(src, st, after, White(src, after));
  }

  /** Everything in front of a token: the comments lie between what was before and the token. */
  lemma {:induction false} TriviaKept(src: Text, st: State, k: nat, lo: nat)
    requires Good(src, st) && CommentsIn(st.comments, k, lo, Off(src, st.pos))
    ensures var (after, broken) := Trivia(src, st);
            && Passing(src, st, after)
            && (broken.None? ==> CommentsIn(after.comments, k, lo, Off(src, after.pos)))
            && (broken.Some? ==> broken.value <= |src| && CommentsIn(after.comments, k, lo, Off(src, broken.value)))
            && (broken.Some? ==> after.errors != [])
    decreases |src| - st.pos
  {
    PassOneIs(src, st);
    PassOneKept(src, st, k, lo);
    hide Off, CommentsIn, PassOne, White;
    match PassOne(src, st)
    case Passed(next) =>
      PassingWhite(src, st, next);
      var white := White(src, next);
      WithinText(src, next.pos, white.pos);
      CommentsStay(next.comments, k, lo, Off(src, next.pos), Off(src, white.pos));
      TriviaKept(src, white, k, lo);
      PassingOn(src, st, white, Trivia(src, white).0);
    case BrokenOff(next, i) =>
    case Neither =>
  }

  /** What the next token comes to. */
  ghost predicate NextRight(src: Text, st: State, k: nat, lo: nat, r: (State, Token, nat)) {
    && Good(src, r.0)
    && st.pos <= r.2 <= r.0.pos
    && st.comments <= r.0.comments && CommentsIn(r.0.comments, k, lo, Off(src, r.2))
    && (r.1 == Eof ==> r.2 == r.0.pos == |src|) && (r.1 != Eof ==> st.pos < r.0.pos)
    && (r.1 == Error ==> r.0.errors != [])
    && st.errors <= r.0.errors && st.more <= r.0.more
    && (st.cutShort ==> r.0.cutShort) && (st.quotesOff ==> r.0.quotesOff)
  }

  lemma NextKept(env: Env, src: Text, st: State, k: nat, lo: nat)
    requires Good(src, st) && CommentsIn(st.comments, k, lo, Off(src, st.pos))
    ensures QuotesWithin(src, st) && NextRight(src, st, k, lo, NextToken(env, src, st))
  {
    assert QuotesWithin(src, st);
    WhiteIs(src, st);
    WhitePassing(src, st);
    var white := White(src, st);
    WithinText(src, st.pos, white.pos);
    CommentsStay(st.comments, k, lo, Off(src, st.pos), Off(src, white.pos));
    TriviaIs(src, white);
    TriviaKept(src, white, k, lo);
    PassingOn(src, st, white, Trivia(src, white).0);
    hide Off, CommentsIn, White, Trivia, Scan, ErrorsRight, Nested;
    var (after, broken) := Trivia(src, white);
    if broken.None? && after.pos < |src| {
      ScanKept(env, src, after);
      var r := Scan(env, src, after);
      WithinText(src, after.pos, r.2);
      CommentsStay(after.comments, k, lo, Off(src, after.pos), Off(src, r.2));
    }
  }

  lemma {:induction false} RecordedAllSame(st: State, errs: seq<Span>)
    ensures RecordedAll(st, errs).stack == st.stack && RecordedAll(st, errs).brace == st.brace
    ensures RecordedAll(st, errs).cutShort == st.cutShort && RecordedAll(st, errs).pos == st.pos
    decreases |errs|
  {
    if errs != [] {
      RecordedAllSame(Recorded(st, errs[0]), errs[1..]);
    }
  }
}
