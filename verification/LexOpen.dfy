/**
  Whether more lines can finish a text: the delimiters and interpolations that its tokens leave
  open, and that the interpolations are those the lexer itself has open.
 */
module LexOpen {
  import opened Basics
  import opened LexText
  import opened LexScan
  import opened LexSpec
  import opened LexKeeps
  import opened LexTokens

  datatype Open = Code | Interpolation

  /** Where the last interpolation is. */
  function LastInterpolation(open: seq<Open>): Option<nat> {
    if open == [] then None
    else if open[|open| - 1] == Interpolation then Some(|open| - 1)
    else LastInterpolation(open[..|open| - 1])
  }

  lemma {:induction false} LastInterpolationIs(open: seq<Open>)
    ensures LastInterpolation(open).Some? ==> LastInterpolation(open).value < |open| && open[LastInterpolation(open).value] == Interpolation
    ensures LastInterpolation(open).Some? ==> forall k :: LastInterpolation(open).value < k < |open| ==> open[k] == Code
    ensures LastInterpolation(open).None? ==> forall k :: 0 <= k < |open| ==> open[k] == Code
  {
    if open != [] && open[|open| - 1] != Interpolation {
      LastInterpolationIs(open[..|open| - 1]);
    }
  }

  /** What one token does to what is open. */
  function OpenAfter(open: seq<Open>, kind: Token): seq<Open> {
    match kind
    case LParen => open + [Code]
    case LBracket => open + [Code]
    case LBrace => open + [Code]
    case HashBrace => open + [Code]
    case HashBracket => open + [Code]
    case StringStart => open + [Interpolation]
    case RParen => Closing(open)
    case RBracket => Closing(open)
    case RBrace => Closing(open)
    case StringEnd =>
      LastInterpolationIs(open);
      (match LastInterpolation(open)
       case Some(at) => open[..at]
       case None => open)
    case _ => open
  }

  /** A closer with nothing of code open closes nothing. */
  function Closing(open: seq<Open>): seq<Open> {
    if open != [] && open[|open| - 1] == Code then open[..|open| - 1] else open
  }

  function Opens(tokens: seq<Tok>): seq<Open> {
    if tokens == [] then [] else OpenAfter(Opens(tokens[..|tokens| - 1]), tokens[|tokens| - 1].kind)
  }

  predicate EndsOpenOf(lexed: Lexed) {
    && lexed.more == 0
    && if lexed.cutShort then Interpolation !in Opens(lexed.tokens) else Opens(lexed.tokens) != []
  }

  /** The loop over the tokens comes to `EndsOpenOf`. */
  method EndsOpen(lexed: Lexed) returns (ends: bool)
    ensures ends == EndsOpenOf(lexed)
  {
    var open: seq<Open> := [];
    for i := 0 to |lexed.tokens|
      invariant open == Opens(lexed.tokens[..i])
    {
      assert lexed.tokens[..i + 1][..i] == lexed.tokens[..i];
      match lexed.tokens[i].kind {
        case LParen => open := open + [Code];
        case LBracket => open := open + [Code];
        case LBrace => open := open + [Code];
        case HashBrace => open := open + [Code];
        case HashBracket => open := open + [Code];
        case StringStart => open := open + [Interpolation];
        case RParen =>
          if open != [] && open[|open| - 1] == Code {
            open := open[..|open| - 1];
          }
        case RBracket =>
          if open != [] && open[|open| - 1] == Code {
            open := open[..|open| - 1];
          }
        case RBrace =>
          if open != [] && open[|open| - 1] == Code {
            open := open[..|open| - 1];
          }
        case StringEnd =>
          var at := Position(open);
          if at.Some? {
            open := open[..at.value];
          }
        case _ =>
      }
    }
    assert lexed.tokens[..|lexed.tokens|] == lexed.tokens;
    if lexed.more > 0 {
      return false;
    }
    return if lexed.cutShort then Interpolation !in open else open != [];
  }

  /** The last interpolation, looked for from the end. */
  method Position(open: seq<Open>) returns (at: Option<nat>)
    ensures at == LastInterpolation(open) && (at.Some? ==> at.value < |open|)
  {
    var n := |open|;
    assert open[..n] == open;
    while n > 0
      invariant 0 <= n <= |open| && LastInterpolation(open) == LastInterpolation(open[..n])
    {
      if open[n - 1] == Interpolation {
        return Some(n - 1);
      }
      assert open[..n][..n - 1] == open[..n - 1];
      n := n - 1;
    }
    return None;
  }

  // ---------------------------------------------------------------- the interpolations that are open

  function Interpolations(open: seq<Open>): nat {
    if open == [] then 0
    else Interpolations(open[..|open| - 1]) + if open[|open| - 1] == Interpolation then 1 else 0
  }

  lemma InterpolationsSnoc(open: seq<Open>, o: Open)
    ensures Interpolations(open + [o]) == Interpolations(open) + if o == Interpolation then 1 else 0
  {
    assert (open + [o])[..|open|] == open;
  }

  /** Cutting at the last interpolation takes one away. */
  lemma {:induction false} CutTakesOne(open: seq<Open>)
    ensures Interpolations(open) > 0 <==> LastInterpolation(open).Some?
    ensures LastInterpolation(open).Some? ==> LastInterpolation(open).value < |open|
    ensures LastInterpolation(open).Some? ==> Interpolations(open[..LastInterpolation(open).value]) + 1 == Interpolations(open)
  {
    if open != [] && open[|open| - 1] != Interpolation {
      var init := open[..|open| - 1];
      CutTakesOne(init);
      if LastInterpolation(init).Some? {
        assert init[..LastInterpolation(init).value] == open[..LastInterpolation(init).value];
      }
    }
  }

  lemma {:induction false} InterpolationIsCounted(open: seq<Open>)
    ensures Interpolation in open <==> Interpolations(open) > 0
  {
    if open != [] {
      var init := open[..|open| - 1];
      InterpolationIsCounted(init);
      assert Interpolation in open <==> Interpolation in init || open[|open| - 1] == Interpolation;
    }
  }

  /** What a token does to the number of open interpolations. */
  ghost predicate Steps(kind: Token, n: nat, n': nat) {
    match kind
    case StringStart => n' == n + 1
    case StringEnd => n == n' + 1
    case _ => n' == n
  }

  lemma OpenSteps(open: seq<Open>, kind: Token)
    requires kind == StringEnd ==> Interpolations(open) > 0
    ensures Steps(kind, Interpolations(open), Interpolations(OpenAfter(open, kind)))
  {
    InterpolationsSnoc(open, Code);
    InterpolationsSnoc(open, Interpolation);
    CutTakesOne(open);
    LastInterpolationIs(open);
    hide LastInterpolation;
  }

  lemma StringSteps(src: Text, st: State, start: nat, quote: nat, rest: bool)
    requires st.pos <= |src| && start <= |src| && quote <= |src|
    ensures var r := ScanString(src, st, start, quote, rest);
            && (r.1 == Error ==> r.0.cutShort)
            && (r.1 == StringStart || r.1 == StringMiddle ==>
                  r.0.stack == st.stack + [(st.brace, quote)] && r.0.brace == st.brace + 1)
            && (r.1 == StringLit || r.1 == StringEnd ==> r.0.stack == st.stack && r.0.brace == st.brace)
            && (rest ==> r.1 == Error || r.1 == StringMiddle || r.1 == StringEnd)
            && (!rest ==> r.1 == Error || r.1 == StringStart || r.1 == StringLit)
  {
    hide Off, RecordedAll, StrScan;
    match StrScan(src, st.pos)
    case Closed(end, errs) => RecordedAllSame(st.(pos := end), errs);
    case Brace(end, errs) =>
      RecordedAllSame(st.(pos := end, stack := st.stack + [(st.brace, quote)], brace := st.brace + 1), errs);
    case Unclosed(errs, inEscape) => RecordedAllSame(st.(pos := |src|, cutShort := true), errs);
  }

  lemma CloseSteps(src: Text, st: State)
    requires st.pos < |src| && QuotesWithin(src, st)
    ensures var r := ScanClose(src, st);
            !r.0.cutShort ==> Steps(r.1, |st.stack|, |r.0.stack|)
  {
    hide Off, ScanString;
    var n := |st.stack|;
    if n > 0 && st.brace == st.stack[n - 1].0 + 1 {
      StringSteps(src, st.(pos := st.pos + 1, stack := st.stack[..n - 1], brace := st.brace - 1), st.pos + 1, st.stack[n - 1].1, true);
    }
  }

  lemma PlainSame(env: Env, src: Text, st: State)
    requires st.pos < |src|
    ensures ScanTriple(src, st).0.stack == ScanNumber(env, src, st).0.stack == ScanWord(src, st).0.stack == ScanStray(env, src, st).0.stack == st.stack
    ensures ScanTriple(src, st).0.brace == ScanNumber(env, src, st).0.brace == ScanWord(src, st).0.brace == ScanStray(env, src, st).0.brace == st.brace
    ensures ScanTriple(src, st).1 in {StringLit, Error} && ScanNumber(env, src, st).1 in {Number, Error}
    ensures ScanWord(src, st).1.Word? && ScanStray(env, src, st).1 == Error
  {
    NumeralIs(src, st.pos);
    StrayEndIs(env, src, st.pos);
    WordBeginIs(env, src, st.pos);
    hide Off, Numeral, StrayEnd, WordBegin, RunEnd, TripleEnd, IsAlnum;
  }

  lemma ScanSteps(env: Env, src: Text, st: State)
    requires st.pos < |src| && QuotesWithin(src, st)
    ensures var r := Scan(env, src, st);
            !r.0.cutShort ==> Steps(r.1, |st.stack|, |r.0.stack|)
  {
    hide ScanString, ScanTriple, ScanNumber, ScanWord, ScanClose, ScanStray, Punct, QuotesWithin;
    var i, c := st.pos, src[st.pos];
    PlainSame(env, src, st);
    if c == '"' {
      StringSteps(src, st.(pos := i + 1), i, i, false);
    } else if Punct(src, i).Some? {
      PunctIs(src, i);
    } else if c == '}' {
      CloseSteps(src, st);
    }
  }

  /** The tokens change the number of open interpolations as the lexer does, unless the text is cut short. */
  lemma NextSteps(env: Env, src: Text, st: State)
    requires st.pos <= |src| && QuotesWithin(src, st)
    ensures var r := NextToken(env, src, st);
            !r.0.cutShort ==> Steps(r.1, |st.stack|, |r.0.stack|)
  {
    WhiteIs(src, st);
    TriviaIs(src, White(src, st));
    hide White, Trivia, Scan;
    var (after, broken) := Trivia(src, White(src, st));
    if broken.None? && after.pos < |src| {
      ScanSteps(env, src, after);
    }
  }

  /** The state of the lexer when it has read the text, or so much that an error was not kept. */
  ghost function LastState(env: Env, src: Text, st: State): State
    requires Good(src, st)
    decreases |src| - st.pos
  {
    NextIs(env, src, st);
    var (after, kind, _) := NextToken(env, src, st);
    DroppedGood(src, after, after.(newlines := 0));
    if kind == Eof || after.more > 0 then after else LastState(env, src, after.(newlines := 0))
  }

  /** Nothing that is wrong is forgotten. */
  lemma {:induction false} LexFlags(env: Env, src: Text, st: State, tokens: seq<Tok>)
    requires Good(src, st)
    ensures st.more <= Lex(env, src, st, tokens).more
    ensures st.cutShort ==> st.more > 0 || Lex(env, src, st, tokens).more > 0 || Lex(env, src, st, tokens).cutShort
    decreases |src| - st.pos
  {
    hide Off, NextToken, CommentsIn, Nested, ErrorsRight, QuotesWithin;
    NextIs(env, src, st);
    var (after, kind, start) := NextToken(env, src, st);
    DroppedGood(src, after, after.(newlines := 0));
    if after.more > 0 {
      RestIs(env, src, after.(newlines := 0));
      hide Rest;
    } else if kind != Eof {
      LexFlags(env, src, after.(newlines := 0), tokens + [TokOf(src, after, |st.comments|, kind, start)]);
    }
  }

  lemma OpensSnoc(tokens: seq<Tok>, t: Tok)
    ensures Opens(tokens + [t]) == OpenAfter(Opens(tokens), t.kind)
  {
    assert (tokens + [t])[..|tokens|] == tokens;
  }

  lemma {:induction false} OpenAlongLex(env: Env, src: Text, st: State, tokens: seq<Tok>)
    requires Good(src, st) && Interpolations(Opens(tokens)) == |st.stack|
    requires Lex(env, src, st, tokens).more == 0 && !Lex(env, src, st, tokens).cutShort
    ensures Interpolations(Opens(Lex(env, src, st, tokens).tokens)) == |LastState(env, src, st).stack|
    decreases |src| - st.pos
  {
    hide Off, NextToken, CommentsIn, ErrorsRight, QuotesWithin, Opens, Interpolations, OpenAfter;
    NextIs(env, src, st);
    var (after, kind, start) := NextToken(env, src, st);
    DroppedGood(src, after, after.(newlines := 0));
    if after.more > 0 {
      RestIs(env, src, after.(newlines := 0));
    } else {
      var t := TokOf(src, after, |st.comments|, kind, start);
      NextSteps(env, src, st);
      OpensSnoc(tokens, t);
      if kind != Eof {
        LexFlags(env, src, after.(newlines := 0), tokens + [t]);
      }
      OpenSteps(Opens(tokens), kind);
      if kind != Eof {
        OpenAlongLex(env, src, after.(newlines := 0), tokens + [t]);
      }
    }
  }

  /**
    For a text that is neither cut short nor has errors that are not kept, the interpolations that
    its tokens leave open are as many as the lexer has open at its end.
   */
  lemma OpenInterpolationsAreTheStack(env: Env, src: Text)
    requires Tokenized(env, src).more == 0 && !Tokenized(env, src).cutShort
    ensures Good(src, Initial(src)) && Interpolations(Opens(Tokenized(env, src).tokens)) == |LastState(env, src, Initial(src)).stack|
  {
    InitialGood(src);
    hide Lex, LastState;
    OpenAlongLex(env, src, Initial(src), []);
  }

  // ---------------------------------------------------------------- the braces inside an interpolation

  /** The state after so many tokens. */
  ghost function StateAfter(env: Env, src: Text, n: nat): (st: State)
    ensures Good(src, st)
  {
    if n == 0 then
      InitialGood(src);
      Initial(src)
    else
      var st := StateAfter(env, src, n - 1);
      NextIs(env, src, st);
      NextToken(env, src, st).0
  }

  /** The first tokens. */
  ghost function FirstTokens(env: Env, src: Text, n: nat): seq<Token> {
    if n == 0 then []
    else
      var st := StateAfter(env, src, n - 1);
      NextIs(env, src, st);
      FirstTokens(env, src, n - 1) + [NextToken(env, src, st).1]
  }

  /** The braces that a token leaves open, in the code around all strings and in each open interpolation. */
  function BracesAfter(open: seq<int>, kind: Token): seq<int>
    requires open != []
  {
    var n := |open| - 1;
    match kind
    case LBrace => open[n := open[n] + 1]
    case HashBrace => open[n := open[n] + 1]
    case RBrace => open[n := if open[n] > 0 then open[n] - 1 else 0]
    case StringStart => open + [0]
    case StringEnd => open[..n]
    case _ => open
  }

  /** The braces that tokens leave open: none of code, and none in an interpolation that began and ended. */
  function OpenBraces(tokens: seq<Token>): seq<int> {
    if tokens == [] then [0]
    else
      var open := OpenBraces(tokens[..|tokens| - 1]);
      if open == [] then [] else BracesAfter(open, tokens[|tokens| - 1])
  }

  /** The same from the lexer's counter of braces and where its interpolations began. */
  function Levels(stack: seq<(nat, nat)>, brace: nat): (levels: seq<int>)
    ensures |levels| == |stack| + 1
  {
    if stack == [] then [brace]
    else
      var top := stack[|stack| - 1];
      Levels(stack[..|stack| - 1], top.0) + [brace - top.0 - 1]
  }

  lemma LevelsPushed(stack: seq<(nat, nat)>, brace: nat, quote: nat)
    ensures Levels(stack + [(brace, quote)], brace + 1) == Levels(stack, brace) + [0]
  {
    assert (stack + [(brace, quote)])[..|stack|] == stack;
  }

  lemma LevelsCounted(stack: seq<(nat, nat)>, brace: nat)
    ensures Levels(stack, brace + 1) == Levels(stack, brace)[|stack| := Levels(stack, brace)[|stack|] + 1]
  {
  }

  lemma LevelsPopped(stack: seq<(nat, nat)>, brace: nat)
    requires stack != [] && brace == stack[|stack| - 1].0 + 1
    ensures Levels(stack, brace) == Levels(stack[..|stack| - 1], brace - 1) + [0]
  {
  }

  /** What one token does to the braces, if it does not run into the end of the text. */
  ghost predicate StepsLevels(st: State, kind: Token, st': State) {
    Levels(st'.stack, st'.brace) == BracesAfter(Levels(st.stack, st.brace), kind)
  }

  lemma StringLevels(src: Text, st: State, quote: nat)
    requires st.pos <= |src| && quote <= |src|
    ensures var r := ScanString(src, st, quote, quote, false); !r.0.cutShort ==> StepsLevels(st, r.1, r.0)
  {
    StringSteps(src, st, quote, quote, false);
    LevelsPushed(st.stack, st.brace, quote);
    hide ScanString, Levels;
  }

  lemma RestLevels(src: Text, st: State)
    requires st.pos < |src| && QuotesWithin(src, st) && st.stack != [] && st.brace == st.stack[|st.stack| - 1].0 + 1
    ensures var r := ScanClose(src, st); !r.0.cutShort ==> StepsLevels(st, r.1, r.0)
  {
    hide ScanString, Levels;
    var n := |st.stack|;
    var top := st.stack[n - 1];
    var popped := st.(pos := st.pos + 1, stack := st.stack[..n - 1], brace := st.brace - 1);
    StringSteps(src, popped, st.pos + 1, top.1, true);
    LevelsPushed(popped.stack, popped.brace, top.1);
    LevelsPopped(st.stack, st.brace);
  }

  lemma BraceLevels(src: Text, st: State)
    requires st.pos < |src| && QuotesWithin(src, st) && Nested(src, st)
    requires st.stack == [] || st.brace != st.stack[|st.stack| - 1].0 + 1
    ensures var r := ScanClose(src, st); StepsLevels(st, r.1, r.0)
  {
    hide ScanString;
    LevelsAreNatural(src, st);
    if st.brace > 0 {
      LevelsCounted(st.stack, st.brace - 1);
      if st.stack != [] {
        assert st.stack[|st.stack| - 1].0 < st.brace;
      }
    }
  }

  lemma SameLevels(st: State, st': State, kind: Token)
    requires st'.stack == st.stack && st'.brace == st.brace && kind !in {LBrace, HashBrace, RBrace, StringStart, StringEnd}
    ensures StepsLevels(st, kind, st')
  {
  }

  lemma OpenLevels(st: State, st': State, kind: Token)
    requires st'.stack == st.stack && st'.brace == st.brace + 1 && kind in {LBrace, HashBrace}
    ensures StepsLevels(st, kind, st')
  {
    LevelsCounted(st.stack, st.brace);
    hide Levels;
  }

  lemma ScanLevels(env: Env, src: Text, st: State)
    requires st.pos < |src| && QuotesWithin(src, st) && Nested(src, st)
    ensures var r := Scan(env, src, st); !r.0.cutShort ==> StepsLevels(st, r.1, r.0)
  {
    PlainSame(env, src, st);
    hide ScanString, ScanTriple, ScanNumber, ScanWord, ScanClose, ScanStray, Punct, QuotesWithin, Nested, StepsLevels;
    var i, c, r := st.pos, src[st.pos], Scan(env, src, st);
    if c == '"' {
      if Is(src, i + 1, '"') && Is(src, i + 2, '"') {
        SameLevels(st, r.0, r.1);
      } else {
        StringLevels(src, st.(pos := i + 1), i);
        MovedLevels(st, st.(pos := i + 1), r.1, r.0);
      }
    } else if IsDigit(c) || IsLetter(c) {
      SameLevels(st, r.0, r.1);
    } else if Punct(src, i).Some? {
      PunctIs(src, i);
      SameLevels(st, r.0, r.1);
    } else if c == '{' || (c == '#' && Is(src, i + 1, '{')) {
      OpenLevels(st, r.0, r.1);
    } else if c != '}' {
      SameLevels(st, r.0, r.1);
    } else if st.stack != [] && st.brace == st.stack[|st.stack| - 1].0 + 1 {
      RestLevels(src, st);
    } else {
      BraceLevels(src, st);
    }
  }

  lemma MovedLevels(st: State, moved: State, kind: Token, st': State)
    requires moved.stack == st.stack && moved.brace == st.brace
    ensures StepsLevels(moved, kind, st') == StepsLevels(st, kind, st')
  {
  }

  lemma NextLevels(env: Env, src: Text, st: State)
    requires Good(src, st) && QuotesWithin(src, st)
    ensures var r := NextToken(env, src, st); !r.0.cutShort ==> StepsLevels(st, r.1, r.0)
  {
    WhiteIs(src, st);
    TriviaIs(src, White(src, st));
    hide White, Trivia, Scan, ErrorsRight, Levels;
    var (after, broken) := Trivia(src, White(src, st));
    assert after.stack == st.stack && after.brace == st.brace;
    if broken.None? && after.pos < |src| {
      ScanLevels(env, src, after);
    }
  }

  lemma OneMoreToken(env: Env, src: Text, n: nat)
    ensures var st := StateAfter(env, src, n);
            && QuotesWithin(src, st) && StateAfter(env, src, n + 1) == NextToken(env, src, st).0
            && FirstTokens(env, src, n + 1) == FirstTokens(env, src, n) + [NextToken(env, src, st).1]
  {
    NextIs(env, src, StateAfter(env, src, n));
    hide NextToken, Good, NextRight;
  }

  lemma CutStays(env: Env, src: Text, st: State)
    requires Good(src, st) && QuotesWithin(src, st)
    ensures st.cutShort ==> NextToken(env, src, st).0.cutShort
  {
    NextIs(env, src, st);
    hide NextToken, Off, CommentsIn, ErrorsRight, Nested;
  }

  lemma NoBraces(env: Env, src: Text)
    ensures Levels(StateAfter(env, src, 0).stack, StateAfter(env, src, 0).brace) == OpenBraces(FirstTokens(env, src, 0))
  {
  }

  lemma {:induction false} BracesAreCounted(env: Env, src: Text, n: nat)
    ensures var st := StateAfter(env, src, n); st.cutShort || Levels(st.stack, st.brace) == OpenBraces(FirstTokens(env, src, n))
    decreases n
  {
    hide NextToken, Levels, OpenBraces, BracesAfter, QuotesWithin, StateAfter, FirstTokens, StepsLevels, Good;
    if n == 0 {
      NoBraces(env, src);
    } else {
      var st := StateAfter(env, src, n - 1);
      BracesAreCounted(env, src, n - 1);
      OneMoreToken(env, src, n - 1);
      PosWithin(src, st);
      NextLevels(env, src, st);
      CutStays(env, src, st);
      OpenBracesStep(st, NextToken(env, src, st).0, FirstTokens(env, src, n - 1), NextToken(env, src, st).1);
    }
  }

  lemma OpenBracesStep(st: State, st': State, read: seq<Token>, kind: Token)
    requires st.cutShort || Levels(st.stack, st.brace) == OpenBraces(read)
    requires (st.cutShort ==> st'.cutShort) && (!st'.cutShort ==> StepsLevels(st, kind, st'))
    ensures st'.cutShort || Levels(st'.stack, st'.brace) == OpenBraces(read + [kind])
  {
    if !st'.cutShort {
      OpenBracesSnoc(read, kind);
    }
  }

  lemma OpenBracesSnoc(tokens: seq<Token>, kind: Token)
    requires OpenBraces(tokens) != []
    ensures OpenBraces(tokens + [kind]) == BracesAfter(OpenBraces(tokens), kind)
  {
    assert (tokens + [kind])[..|tokens|] == tokens;
  }

  /**
    In every run of the lexer the interpolations nest, and a closing brace is one of code exactly if,
    by the tokens read, no interpolation is open or a brace opened inside the innermost one still
    is; otherwise that interpolation's string goes on.
   */
  lemma InterpolationsNest(env: Env, src: Text, n: nat)
    ensures var st := StateAfter(env, src, n);
            var open := OpenBraces(FirstTokens(env, src, n));
            && (forall j, k :: 0 <= j < k < |st.stack| ==> st.stack[j].0 < st.stack[k].0)
            && (!st.cutShort ==>
                  && |open| == |st.stack| + 1 && (forall k :: 0 <= k < |open| ==> open[k] >= 0)
                  && (st.pos < |src| && src[st.pos] == '}' ==>
                        (ScanClose(src, st).1 == RBrace <==> |open| == 1 || open[|open| - 1] > 0)))
  {
    var st := StateAfter(env, src, n);
    BracesAreCounted(env, src, n);
    LevelsAreNatural(src, st);
    hide StateAfter, ScanString, FirstTokens, OpenBraces;
    var k := |st.stack|;
    if st.pos < |src| && k > 0 && st.brace == st.stack[k - 1].0 + 1 {
      StringSteps(src, st.(pos := st.pos + 1, stack := st.stack[..k - 1], brace := st.brace - 1), st.pos + 1, st.stack[k - 1].1, true);
    }
  }

  lemma LevelsAreNatural(src: Text, st: State)
    requires Nested(src, st)
    ensures forall k :: 0 <= k < |Levels(st.stack, st.brace)| ==> Levels(st.stack, st.brace)[k] >= 0
    ensures st.stack != [] ==> Levels(st.stack, st.brace)[|st.stack|] == st.brace - st.stack[|st.stack| - 1].0 - 1
  {
    LevelsFrom(st.stack, st.brace);
  }

  lemma {:induction false} LevelsFrom(stack: seq<(nat, nat)>, brace: nat)
    requires forall k :: 0 <= k < |stack| ==> stack[k].0 < brace
    requires forall j, k :: 0 <= j < k < |stack| ==> stack[j].0 < stack[k].0
    ensures forall k :: 0 <= k < |Levels(stack, brace)| ==> Levels(stack, brace)[k] >= 0
  {
    if stack != [] {
      LevelsFrom(stack[..|stack| - 1], stack[|stack| - 1].0);
    }
  }
}
