/** The lexer's state and what one token does to it. */
module LexSpec {
  import opened Basics
  import opened LexText
  import opened LexScan

  const MAX_SYNTAX_ERRORS: nat := 50

  datatype Comment = Comment(line: bool, span: Span, newlines: nat)

  /**
    Where the lexer stands; the interpolations that are open (how many braces were open when each
    began, and where its string's quote is) and the open braces; the comments and line breaks read
    since; the errors kept, and the number of those that are not.
   */
  datatype State = State(
    pos: nat,
    stack: seq<(nat, nat)>,
    brace: nat,
    comments: seq<Comment>,
    newlines: nat,
    errors: seq<Span>,
    more: nat,
    cutShort: bool,
    quotesOff: bool,
    repeats: set<Text>)

  function Initial(src: Text): State {
    State(if Is(src, 0, '\U{FEFF}') then 1 else 0, [], 0, [], 0, [], 0, false, false, {})
  }

  // ---------------------------------------------------------------- errors

  function Recorded(st: State, span: Span): State {
    if |st.errors| < MAX_SYNTAX_ERRORS then st.(errors := st.errors + [span]) else st.(more := st.more + 1)
  }

  function RecordedAll(st: State, spans: seq<Span>): State
    decreases |spans|
  {
    if spans == [] then st else RecordedAll(Recorded(st, spans[0]), spans[1..])
  }

  /** One error for the first time that `written` is reported, and none for the next times. */
  function Repeated(st: State, written: Text, span: Span): State {
    if written in st.repeats then st
    else if |st.errors| < MAX_SYNTAX_ERRORS then st.(errors := st.errors + [span], repeats := st.repeats + {written})
    else st.(more := st.more + 1)
  }

  // ---------------------------------------------------------------- what is in front of a token

  function OneMore(newlines: nat): nat {
    if newlines + 1 < 2 then newlines + 1 else 2
  }

  /** Line breaks counted on, up to two. */
  function LinesIn(src: Text, i: nat, j: nat, newlines: nat): nat
    requires j <= |src|
    decreases j - i
  {
    if i >= j then newlines else LinesIn(src, i + 1, j, if src[i] == '\n' then OneMore(newlines) else newlines)
  }

  function White(src: Text, st: State): State
    requires st.pos <= |src|
  {
    RunEndIs(src, st.pos, BlankChar());
    var end := RunEnd(src, st.pos, BlankChar());
    st.(pos := end, newlines := LinesIn(src, st.pos, end, st.newlines))
  }

  /** A comment from where the lexer stood up to `end`. */
  function Commented(src: Text, st: State, line: bool, from: nat, end: nat): State
    requires from <= |src| && end <= |src|
  {
    st.(pos := end, newlines := 0, comments := st.comments + [Comment(line, Between(src, from, end), st.newlines)])
  }

  predicate AtLineComment(src: Text, i: nat) { Is(src, i, '-') && Is(src, i + 1, '-') }
  predicate AtBlockComment(src: Text, i: nat) { Is(src, i, '{') && Is(src, i + 1, '-') }

  /** The state at the end of a text whose last block comment is open. */
  function Unended(src: Text, st: State): State
    requires st.pos + 2 <= |src|
  {
    Recorded(st.(pos := |src|, cutShort := true), Between(src, st.pos + 2, st.pos + 2))
  }

  /** The semicolons the lexer stands at: one error, read as a line break. */
  function Semicolons(src: Text, st: State): State
    requires st.pos < |src|
  {
    Repeated(st.(pos := RunEnd(src, st.pos, SemiChar())), [], Between(src, st.pos, st.pos + 1)).(newlines := OneMore(st.newlines))
  }

  lemma LineIsNotEmpty(src: Text, i: nat)
    requires AtLineComment(src, i)
    ensures i < RunEnd(src, i, LineChar())
  {
    RunEndIs(src, i + 1, LineChar());
  }

  lemma SemiIsNotEmpty(src: Text, i: nat)
    requires Is(src, i, ';')
    ensures i < RunEnd(src, i, SemiChar())
  {
    RunEndIs(src, i + 1, SemiChar());
  }

  /** What comes of what the lexer stands at: a comment or semicolons, a comment that breaks the text off, or neither. */
  datatype Passed = Passed(st: State) | BrokenOff(st: State, at: nat) | Neither

  function PassedLine(src: Text, st: State): State
    requires AtLineComment(src, st.pos)
  {
    RunEndIs(src, st.pos, LineChar());
    Commented(src, st, true, st.pos, RunEnd(src, st.pos, LineChar()))
  }

  /** One comment or run of semicolons is passed. An open block comment whose error is dropped becomes a token instead. */
  function PassOne(src: Text, st: State): Passed
    requires st.pos <= |src|
  {
    var i := st.pos;
    if AtLineComment(src, i) then Passed(PassedLine(src, st))
    else if AtBlockComment(src, i) then
      BlockEndIs(src, i + 2, 1);
      match BlockEnd(src, i + 2, 1)
      case Some(end) => Passed(Commented(src, st, false, i, end))
      case None =>
        var broken := Unended(src, st);
        if broken.more > 0 then BrokenOff(broken, i) else Passed(Commented(src, broken, false, i, |src|))
    else if Is(src, i, ';') then Passed(Semicolons(src, st))
    else Neither
  }

  lemma PassOneIs(src: Text, st: State)
    requires st.pos <= |src|
    ensures PassOne(src, st).Passed? ==> st.pos < PassOne(src, st).st.pos <= |src|
    ensures PassOne(src, st).BrokenOff? ==> st.pos == PassOne(src, st).at < PassOne(src, st).st.pos == |src|
    ensures !PassOne(src, st).Neither? ==> PassOne(src, st).st.stack == st.stack && PassOne(src, st).st.brace == st.brace
  {
    if AtLineComment(src, st.pos) {
      RunEndIs(src, st.pos, LineChar());
      LineIsNotEmpty(src, st.pos);
    } else if AtBlockComment(src, st.pos) {
      BlockEndIs(src, st.pos + 2, 1);
    } else if Is(src, st.pos, ';') {
      RunEndIs(src, st.pos, SemiChar());
      SemiIsNotEmpty(src, st.pos);
    }
    hide RunEnd, BlockEnd, Off;
  }

  lemma WhiteIs(src: Text, st: State)
    requires st.pos <= |src|
    ensures st.pos <= White(src, st).pos <= |src|
    ensures White(src, st) == st.(pos := White(src, st).pos, newlines := White(src, st).newlines)
  {
    RunEndIs(src, st.pos, BlankChar());
  }

  /** Comments, semicolons and white space, up to what is none of them; or where a comment breaks the text off. */
  function Trivia(src: Text, st: State): (State, Option<nat>)
    requires st.pos <= |src|
    decreases |src| - st.pos
  {
    PassOneIs(src, st);
    match PassOne(src, st)
    case Passed(after) =>
      WhiteIs(src, after);
      Trivia(src, White(src, after))
    case BrokenOff(after, i) => (after, Some(i))
    case Neither => (st, None)
  }

  lemma {:induction false} TriviaIs(src: Text, st: State)
    requires st.pos <= |src|
    ensures st.pos <= Trivia(src, st).0.pos <= |src|
    ensures Trivia(src, st).1.Some? ==> st.pos <= Trivia(src, st).1.value < Trivia(src, st).0.pos == |src|
    ensures Trivia(src, st).0.stack == st.stack && Trivia(src, st).0.brace == st.brace
    decreases |src| - st.pos
  {
    hide PassOne, White;
    PassOneIs(src, st);
    match PassOne(src, st)
    case Passed(after) =>
      WhiteIs(src, after);
      TriviaIs(src, White(src, after));
    case BrokenOff(after, i) =>
    case Neither =>
  }

  // ---------------------------------------------------------------- a token

  /** The part of a string that begins at `st.pos`; `rest` if an interpolation of it comes before. */
  function ScanString(src: Text, st: State, start: nat, quote: nat, rest: bool): (State, Token, nat)
    requires st.pos <= |src| && start <= |src| && quote <= |src|
  {
    match StrScan(src, st.pos)
    case Closed(end, errs) =>
      (RecordedAll(st.(pos := end), errs), if rest then StringEnd else StringLit, start)
    case Brace(end, errs) =>
      (RecordedAll(st.(pos := end, stack := st.stack + [(st.brace, quote)], brace := st.brace + 1), errs),
       if rest then StringMiddle else StringStart, start)
    case Unclosed(errs, inEscape) =>
      var at := if inEscape || st.stack != [] then start else quote;
      (Recorded(RecordedAll(st.(pos := |src|, cutShort := true), errs), Between(src, at, at)), Error, start)
  }

  /** A raw string, whose three quotes the lexer stands at. */
  function ScanTriple(src: Text, st: State): (State, Token, nat)
    requires st.pos < |src|
  {
    match TripleEnd(src, st.pos + 3)
    case Some(end) => (st.(pos := end), StringLit, st.pos)
    case None => (Recorded(st.(pos := |src|, cutShort := true), Between(src, st.pos, st.pos)), Error, st.pos)
  }

  function ScanNumber(env: Env, src: Text, st: State): (State, Token, nat)
    requires st.pos < |src|
  {
    NumeralIs(src, st.pos);
    var (end, good) := Numeral(src, st.pos);
    if good && env.fits(src[st.pos..end]) then (st.(pos := end), Number, st.pos)
    else (Recorded(st.(pos := end), Between(src, st.pos, end)), Error, st.pos)
  }

  function ScanWord(src: Text, st: State): (State, Token, nat)
    requires st.pos < |src|
  {
    RunEndIs(src, st.pos + 1, NameChar());
    var end := RunEnd(src, st.pos + 1, NameChar());
    (st.(pos := end), Word(src[st.pos..end]), st.pos)
  }

  /** A closing brace: the end of an interpolation, whose string goes on, or a brace of code. */
  function ScanClose(src: Text, st: State): (State, Token, nat)
    requires st.pos < |src| && forall k :: 0 <= k < |st.stack| ==> st.stack[k].1 <= |src|
  {
    var n := |st.stack|;
    if n > 0 && st.brace == st.stack[n - 1].0 + 1 then
      ScanString(src, st.(pos := st.pos + 1, stack := st.stack[..n - 1], brace := st.brace - 1),
                 st.pos + 1, st.stack[n - 1].1, true)
    else (st.(pos := st.pos + 1, brace := if st.brace > 0 then st.brace - 1 else 0), RBrace, st.pos)
  }

  /** Where the word that has the character at `i` begins. */
  function WordBegin(env: Env, src: Text, i: nat): nat
    requires i <= |src|
  {
    if i > 0 && (IsAlnum(env, src[i - 1]) || src[i - 1] == '_') then WordBegin(env, src, i - 1) else i
  }

  lemma {:induction false} WordBeginIs(env: Env, src: Text, i: nat)
    requires i <= |src|
    ensures WordBegin(env, src, i) <= i
  {
    if i > 0 && (IsAlnum(env, src[i - 1]) || src[i - 1] == '_') {
      WordBeginIs(env, src, i - 1);
    }
  }

  /** Text that is no token: where it ends. */
  function StrayEnd(env: Env, src: Text, i: nat): nat
    requires i < |src|
  {
    var c := src[i];
    if c == '&' then i + 1
    else if IsAlnum(env, c) then RunEnd(src, i + 1, WordChar(env))
    else if IsQuote(c) then
      match Partner(src, i + 1, c)
      case Some(p) => p + 1
      case None => i + 1
    else RunEnd(src, i + 1, StrayChar(env))
  }

  lemma StrayEndIs(env: Env, src: Text, i: nat)
    requires i < |src|
    ensures i < StrayEnd(env, src, i) <= |src|
  {
    RunEndIs(src, i + 1, WordChar(env));
    RunEndIs(src, i + 1, StrayChar(env));
    PartnerIs(src, i + 1, src[i]);
  }

  function ScanStray(env: Env, src: Text, st: State): (State, Token, nat)
    requires st.pos < |src|
  {
    var i, c := st.pos, src[st.pos];
    StrayEndIs(env, src, i);
    var after := st.(pos := StrayEnd(env, src, i));
    var at := Between(src, i, i + 1);
    if c != '&' && IsAlnum(env, c) then
      WordBeginIs(env, src, i);
      (Repeated(after, src[WordBegin(env, src, i)..after.pos], at), Error, i)
    else
      var off := c != '&' && !IsQuote(c) && c == '\\';
      (Recorded(after.(quotesOff := st.quotesOff || off), at), Error, i)
  }

  /** The token that the lexer stands at. */
  function Scan(env: Env, src: Text, st: State): (State, Token, nat)
    requires st.pos < |src| && forall k :: 0 <= k < |st.stack| ==> st.stack[k].1 <= |src|
  {
    var i, c := st.pos, src[st.pos];
    if c == '"' then
      if Is(src, i + 1, '"') && Is(src, i + 2, '"') then ScanTriple(src, st)
      else ScanString(src, st.(pos := i + 1), i, i, false)
    else if IsDigit(c) then ScanNumber(env, src, st)
    else if IsLetter(c) then ScanWord(src, st)
    else if Punct(src, i).Some? then (st.(pos := i + Punct(src, i).value.1), Punct(src, i).value.0, i)
    else if c == '{' then (st.(pos := i + 1, brace := st.brace + 1), LBrace, i)
    else if c == '#' && Is(src, i + 1, '{') then (st.(pos := i + 2, brace := st.brace + 1), HashBrace, i)
    else if c == '}' then ScanClose(src, st)
    else ScanStray(env, src, st)
  }

  ghost predicate QuotesWithin(src: Text, st: State) {
    forall k :: 0 <= k < |st.stack| ==> st.stack[k].1 <= |src|
  }

  /** The next token: what is in front of it, and the token or the end of the text. */
  function NextToken(env: Env, src: Text, st: State): (State, Token, nat)
    requires st.pos <= |src| && QuotesWithin(src, st)
  {
    WhiteIs(src, st);
    TriviaIs(src, White(src, st));
    var (after, broken) := Trivia(src, White(src, st));
    match broken
    case Some(i) => (after, Error, i)
    case None => if after.pos == |src| then (after, Eof, after.pos) else Scan(env, src, after)
  }
}
