/**
  The lexer itself: it steps through the text and changes its state in place. Each method comes
  to what its specification makes of the state.
 */
module Lexing {
  import opened Basics
  import opened LexText
  import opened LexScan
  import opened LexSpec
  import opened LexKeeps
  import opened LexTokens

  class Lexer {
    const env: Env
    const src: Text
    var pos: nat
    var byteOffset: nat
    var stack: seq<(nat, nat)>
    var brace: nat
    var comments: seq<Comment>
    var gapNewlines: nat
    var gapComments: nat
    var errors: seq<Span>
    var moreErrors: nat
    var cutShort: bool
    var quotesOff: bool
    var repeats: set<Text>

    ghost function Now(): State
      reads this
    {
      State(pos, stack, brace, comments, gapNewlines, errors, moreErrors, cutShort, quotesOff, repeats)
    }

    /** The byte offset is that of the position. */
    ghost predicate Valid()
      reads this
    {
      pos <= |src| && byteOffset == Off(src, pos)
    }

    /** A mark of the byte order at the front is passed over. */
    constructor (env: Env, src: Text)
      ensures Valid() && Now() == Initial(src) && gapComments == 0 && this.env == env && this.src == src
    {
      this.env, this.src := env, src;
      stack, brace, comments, gapNewlines, gapComments := [], 0, [], 0, 0;
      errors, moreErrors, cutShort, quotesOff, repeats := [], 0, false, false, {};
      if Is(src, 0, '\U{FEFF}') {
        pos, byteOffset := 1, Width(src[0]);
        assert Off(src, 1) == Off(src, 0) + Width(src[0]);
      } else {
        pos, byteOffset := 0, 0;
      }
    }

    // ---------------------------------------------------------------- one character

    method Advance()
      requires Valid() && pos < |src|
      modifies this`pos, this`byteOffset
      ensures Valid() && pos == old(pos) + 1
    {
      byteOffset := byteOffset + Width(src[pos]);
      pos := pos + 1;
    }

    method AdvanceWhile(p: char -> bool)
      requires Valid()
      modifies this`pos, this`byteOffset
      ensures Valid() && pos == RunEnd(src, old(pos), p) && old(pos) <= pos
    {
      while pos < |src| && p(src[pos])
        invariant Valid() && RunEnd(src, old(pos), p) == RunEnd(src, pos, p) && old(pos) <= pos
        decreases |src| - pos
      {
        Advance();
      }
    }

    // ---------------------------------------------------------------- errors

    method Report(span: Span)
      modifies this`errors, this`moreErrors
      ensures Now() == Recorded(old(Now()), span)
    {
      if |errors| < MAX_SYNTAX_ERRORS {
        errors := errors + [span];
      } else {
        moreErrors := moreErrors + 1;
      }
    }

    method ReportRepeatable(written: Text, span: Span)
      modifies this`errors, this`moreErrors, this`repeats
      ensures Now() == Repeated(old(Now()), written, span)
    {
      if written in repeats {
        return;
      }
      if |errors| < MAX_SYNTAX_ERRORS {
        repeats := repeats + {written};
        errors := errors + [span];
      } else {
        moreErrors := moreErrors + 1;
      }
    }

    // ---------------------------------------------------------------- what is in front of a token

    method SkipWhitespace()
      requires Valid()
      modifies this`pos, this`byteOffset, this`gapNewlines
      ensures Valid() && Now() == White(src, old(Now()))
    {
      ghost var st := Now();
      RunEndIs(src, pos, BlankChar());
      ghost var end := RunEnd(src, pos, BlankChar());
      while pos < |src| && IsBlank(src[pos])
        invariant Valid() && pos <= end && RunEnd(src, pos, BlankChar()) == end
        invariant LinesIn(src, st.pos, end, st.newlines) == LinesIn(src, pos, end, gapNewlines)
        decreases |src| - pos
      {
        if src[pos] == '\n' {
          gapNewlines := OneMore(gapNewlines);
        }
        Advance();
      }
    }

    method RecordComment(line: bool, from: nat)
      requires Valid() && from <= |src|
      modifies this`comments, this`gapNewlines
      ensures Now() == Commented(src, old(Now()), line, from, pos)
    {
      comments := comments + [Comment(line, Span(Off(src, from), byteOffset), gapNewlines)];
      gapNewlines := 0;
    }

    /** Moves to `BlockEnd`, or to the end of the text with an error if there is none. */
    method SkipBlockComment() returns (closed: bool)
      requires Valid() && pos >= 2
      modifies this`pos, this`byteOffset, this`errors, this`moreErrors, this`cutShort
      ensures Valid() && closed == BlockEnd(src, old(pos), 1).Some?
      ensures closed ==> Now() == old(Now()).(pos := BlockEnd(src, old(pos), 1).value)
      ensures !closed ==> Now() == Unended(src, old(Now()).(pos := old(pos) - 2))
    {
      ghost var st := Now();
      var depth: nat := 1;
      var start := byteOffset;
      while depth > 0
        invariant Valid() && BlockEnd(src, st.pos, 1) == BlockEnd(src, pos, depth) && Now() == st.(pos := pos)
        decreases |src| - pos, depth
      {
        if pos == |src| {
          cutShort := true;
          Report(Span(start, start));
          return false;
        }
        var c := src[pos];
        Advance();
        if c == '{' && Is(src, pos, '-') {
          Advance();
          depth := depth + 1;
        } else if c == '-' && Is(src, pos, '}') {
          Advance();
          depth := depth - 1;
        }
      }
      return true;
    }

    method PassLineComment()
      requires Valid() && AtLineComment(src, pos)
      modifies this`pos, this`byteOffset, this`comments, this`gapNewlines
      ensures Valid() && Now() == PassedLine(src, old(Now()))
    {
      var from := pos;
      AdvanceWhile(LineChar());
      RecordComment(true, from);
    }

    method PassSemicolons()
      requires Valid() && Is(src, pos, ';')
      modifies this`pos, this`byteOffset, this`gapNewlines, this`errors, this`moreErrors, this`repeats
      ensures Valid() && Now() == Semicolons(src, old(Now()))
    {
      hide Repeated;
      ghost var st := Now();
      var start := byteOffset;
      Advance();
      var span := Span(start, byteOffset);
      AdvanceWhile(SemiChar());
      assert pos == RunEnd(src, st.pos, SemiChar());
      ReportRepeatable([], span);
      gapNewlines := OneMore(gapNewlines);
    }

    method PassBlockComment() returns (broken: bool)
      requires Valid() && AtBlockComment(src, pos)
      modifies this`pos, this`byteOffset, this`comments, this`gapNewlines, this`errors, this`moreErrors, this`cutShort
      ensures Valid() && PassOne(src, old(Now())) == if broken then BrokenOff(Now(), old(pos)) else Passed(Now())
    {
      hide BlockEnd, Off;
      var from := pos;
      Advance();
      Advance();
      var closed := SkipBlockComment();
      if !closed && moreErrors > 0 {
        return true;
      }
      RecordComment(false, from);
      return false;
    }

    /** One comment or run of semicolons, if the lexer stands at one. */
    method PassIfAny() returns (passed: Option<bool>)
      requires Valid()
      modifies this`pos, this`byteOffset, this`comments, this`gapNewlines, this`errors, this`moreErrors, this`cutShort, this`repeats
      ensures Valid() && PassOne(src, old(Now())) ==
              match passed
              case None => Neither
              case Some(true) => Passed(Now())
              case Some(false) => BrokenOff(Now(), old(pos))
      ensures passed.None? ==> Now() == old(Now())
    {
      hide PassedLine, Semicolons, Unended, Commented, BlockEnd;
      if AtLineComment(src, pos) {
        PassLineComment();
        return Some(true);
      }
      if AtBlockComment(src, pos) {
        hide PassOne;
        var broken := PassBlockComment();
        return Some(!broken);
      }
      if Is(src, pos, ';') {
        PassSemicolons();
        return Some(true);
      }
      return None;
    }

    /** Comments, semicolons and white space; where a comment breaks the text off. */
    method SkipTrivia() returns (broken: Option<nat>)
      requires Valid()
      modifies this`pos, this`byteOffset, this`comments, this`gapNewlines, this`errors, this`moreErrors, this`cutShort, this`repeats
      ensures Valid() && (Now(), broken) == Trivia(src, old(Now()))
    {
      hide White, PassOne;
      while true
        invariant Valid() && Trivia(src, old(Now())) == Trivia(src, Now())
        decreases |src| - pos
      {
        PassOneIs(src, Now());
        var from := pos;
        var passed := PassIfAny();
        if passed.None? {
          return None;
        }
        if !passed.value {
          return Some(from);
        }
        WhiteIs(src, Now());
        SkipWhitespace();
      }
    }

    // ---------------------------------------------------------------- strings

    /** Moves to the end that `UniEscape` gives the escape at `esc`, with its errors. */
    method UnicodeEscape(esc: nat) returns (ghost errs: seq<Span>)
      requires Valid() && esc + 2 == pos
      modifies this`pos, this`byteOffset, this`errors, this`moreErrors
      ensures Valid() && errs == UniEscape(src, esc).1 && pos == UniEscape(src, esc).0
      ensures Now() == RecordedAll(old(Now()).(pos := UniEscape(src, esc).0), errs)
    {
      hide Off;
      var from := Off(src, esc);
      errs := [];
      if !Is(src, pos, '{') {
        errs := [Span(from, byteOffset)];
        Report(Span(from, byteOffset));
        return;
      }
      Advance();
      AdvanceWhile(PlainHex());
      RunEndIs(src, esc + 3, PlainHex());
      var n := pos - (esc + 3);
      if n == 0 || n > 6 || !Is(src, pos, '}') {
        errs := [Span(from, byteOffset)];
        Report(Span(from, byteOffset));
        return;
      }
      var code := CodeOf(src[esc + 3..pos]);
      Advance();
      if NoCharacter(code) {
        errs := [Span(from, byteOffset)];
        Report(Span(from, byteOffset));
      }
    }

    /** The escape the lexer stands at. */
    method ReadEscape() returns (ghost errs: seq<Span>)
      requires Valid() && pos + 2 <= |src|
      modifies this`pos, this`byteOffset, this`errors, this`moreErrors
      ensures Valid() && errs == Escape(src, old(pos)).1 && pos == Escape(src, old(pos)).0
      ensures Now() == RecordedAll(old(Now()).(pos := Escape(src, old(pos)).0), errs)
    {
      hide Off, UniEscape;
      var esc, from := pos, byteOffset;
      Advance();
      var c := src[pos];
      Advance();
      errs := [];
      if IsEscape(c) {
        return;
      }
      if c == 'u' {
        errs := UnicodeEscape(esc);
        return;
      }
      var span := if IsControl(c) then Span(byteOffset, byteOffset) else Span(from, from);
      errs := [span];
      Report(span);
    }

    /** The state of a text cut short, with one error at `at`. */
    method Unterminated(at: nat)
      requires Valid() && at <= |src|
      modifies this`pos, this`byteOffset, this`errors, this`moreErrors, this`cutShort
      ensures Valid() && Now() == Recorded(old(Now()).(pos := |src|, cutShort := true), Between(src, at, at))
    {
      hide Off;
      AdvanceTo(|src|);
      cutShort := true;
      Report(Span(Off(src, at), Off(src, at)));
    }

    /** The string that goes on where the lexer stands. */
    method ReadString(start: nat, quote: nat, rest: bool) returns (kind: Token)
      requires Valid() && start <= |src| && quote <= |src|
      modifies this`pos, this`byteOffset, this`stack, this`brace, this`errors, this`moreErrors, this`cutShort
      ensures Valid() && (Now(), kind, start) == ScanString(src, old(Now()), start, quote, rest)
    {
      hide Off, Escape, RecordedAll, Recorded;
      ghost var st := Now();
      ghost var errs: seq<Span> := [];
      NoErrs(st);
      while true
        invariant Valid() && StrScan(src, st.pos) == WithErrs(errs, StrScan(src, pos))
        invariant Now() == RecordedAll(st, errs).(pos := pos)
        decreases |src| - pos
      {
        if pos == |src| {
          UnclosedHere(st, errs, |src|);
          Unterminated(if stack != [] then start else quote);
          return Error;
        }
        if src[pos] == '\\' {
          if pos + 1 == |src| {
            UnclosedHere(st, errs, |src|);
            Unterminated(start);
            return Error;
          }
          EscapeIs(src, pos);
          ghost var i := pos;
          ghost var more := ReadEscape();
          MoreErrs(st, errs, more, i, pos, StrScan(src, pos));
          errs := errs + more;
        } else if src[pos] == '{' {
          BraceHere(st, errs, pos + 1, quote);
          Advance();
          stack := stack + [(brace, quote)];
          brace := brace + 1;
          return if rest then StringMiddle else StringStart;
        } else if src[pos] == '"' {
          ClosedHere(st, errs, pos + 1);
          Advance();
          return if rest then StringEnd else StringLit;
        } else {
          Advance();
        }
      }
    }

    /** A raw string, whose three quotes the lexer stands at. */
    method ReadTriple() returns (kind: Token)
      requires Valid() && ThreeQuotes(src, pos)
      modifies this`pos, this`byteOffset, this`errors, this`moreErrors, this`cutShort
      ensures Valid() && (Now(), kind, old(pos)) == ScanTriple(src, old(Now()))
    {
      hide Off;
      ghost var st := Now();
      var start := byteOffset;
      Advance();
      Advance();
      Advance();
      while pos < |src| && !ThreeQuotes(src, pos)
        invariant Valid() && Now() == st.(pos := pos) && TripleEnd(src, st.pos + 3) == TripleEnd(src, pos)
        decreases |src| - pos
      {
        Advance();
      }
      if pos == |src| {
        cutShort := true;
        Report(Span(start, start));
        return Error;
      }
      CloseTriple();
      return StringLit;
    }

    /** Behind the last three of the quotes the lexer stands at. */
    method CloseTriple()
      requires Valid() && ThreeQuotes(src, pos)
      modifies this`pos, this`byteOffset
      ensures Valid() && pos == LastThree(src, old(pos)) + 3
    {
      hide Off;
      while Is(src, pos + 3, '"')
        invariant Valid() && pos + 3 <= |src| && LastThree(src, old(pos)) == LastThree(src, pos)
        decreases |src| - pos
      {
        Advance();
      }
      Advance();
      Advance();
      Advance();
    }

    // ---------------------------------------------------------------- numbers and words

    /** Whether one of the characters from `from` on is a digit. */
    method HasDigit(from: nat) returns (some: bool)
      requires from <= pos <= |src|
      ensures some == SomeDigit(src[from..pos])
    {
      some := false;
      for i := from to pos
        invariant some == SomeDigit(src[from..i])
      {
        assert src[from..i + 1] == src[from..i] + [src[i]];
        if src[i] != '_' {
          some := true;
        }
        DigitBehind(src[from..i], src[i]);
      }
    }

    /** To the end of a number; whether it is written right. */
    method AdvanceNumber() returns (good: bool)
      requires Valid() && pos < |src| && IsDigit(src[pos])
      modifies this`pos, this`byteOffset
      ensures Valid() && (pos, good) == Numeral(src, old(pos))
    {
      hide Off, RunEnd;
      var i := pos;
      Advance();
      if src[i] == '0' && (Is(src, pos, 'x') || Is(src, pos, 'X')) {
        Advance();
        RunEndIs(src, i + 2, HexChar());
        AdvanceWhile(HexChar());
        good := HasDigit(i + 2);
        return;
      }
      if src[i] == '0' && (Is(src, pos, 'b') || Is(src, pos, 'B')) {
        Advance();
        RunEndIs(src, i + 2, BinChar());
        AdvanceWhile(BinChar());
        good := HasDigit(i + 2);
        return;
      }
      RunEndIs(src, i + 1, DigitChar());
      AdvanceWhile(DigitChar());
      if Is(src, pos, '.') && pos + 1 < |src| && IsDigit(src[pos + 1]) {
        RunEndIs(src, pos + 1, DigitChar());
        Advance();
        AdvanceWhile(DigitChar());
      }
      FractionEndIs(src, RunEnd(src, i + 1, DigitChar()));
      hide FractionEnd;
      good := AdvanceExponent();
    }

    /** An exponent, if there is one; whether it has a digit. */
    method AdvanceExponent() returns (good: bool)
      requires Valid()
      modifies this`pos, this`byteOffset
      ensures Valid() && (pos, good) == Exponent(src, old(pos))
    {
      hide Off, RunEnd;
      if Is(src, pos, 'e') || Is(src, pos, 'E') {
        Advance();
        if Is(src, pos, '+') || Is(src, pos, '-') {
          Advance();
        }
        if !(pos < |src| && IsDigit(src[pos])) {
          return false;
        }
        AdvanceWhile(DigitChar());
      }
      return true;
    }

    method ReadNumber() returns (kind: Token)
      requires Valid() && pos < |src| && IsDigit(src[pos])
      modifies this`pos, this`byteOffset, this`errors, this`moreErrors
      ensures Valid() && (Now(), kind, old(pos)) == ScanNumber(env, src, old(Now()))
    {
      hide Off, Numeral;
      var from, start := pos, byteOffset;
      NumeralIs(src, from);
      var good := AdvanceNumber();
      if good && env.fits(src[from..pos]) {
        return Number;
      }
      Report(Span(start, byteOffset));
      return Error;
    }

    method ReadWord() returns (kind: Token)
      requires Valid() && pos < |src|
      modifies this`pos, this`byteOffset
      ensures Valid() && (Now(), kind, old(pos)) == ScanWord(src, old(Now()))
    {
      var from := pos;
      Advance();
      AdvanceWhile(NameChar());
      return Word(src[from..pos]);
    }

    // ---------------------------------------------------------------- braces and text that is no token

    /** A closing brace: the string goes on, or a brace of code is closed. Where the token starts. */
    method ReadClose() returns (kind: Token, start: nat)
      requires Valid() && pos < |src| && QuotesWithin(src, Now())
      modifies this`pos, this`byteOffset, this`stack, this`brace, this`errors, this`moreErrors, this`cutShort
      ensures Valid() && (Now(), kind, start) == ScanClose(src, old(Now()))
    {
      hide ScanString;
      start := pos;
      Advance();
      var n := |stack|;
      if n > 0 && brace == stack[n - 1].0 + 1 {
        var quote := stack[n - 1].1;
        stack := stack[..n - 1];
        brace := brace - 1;
        start := pos;
        kind := ReadString(start, quote, true);
        return;
      }
      if brace > 0 {
        brace := brace - 1;
      }
      kind := RBrace;
    }

    method FindWordBegin(i: nat) returns (begin: nat)
      requires i <= |src|
      ensures begin == WordBegin(env, src, i) <= i
    {
      hide IsAlnum;
      begin := i;
      while begin > 0 && (IsAlnum(env, src[begin - 1]) || src[begin - 1] == '_')
        invariant begin <= i && WordBegin(env, src, i) == WordBegin(env, src, begin)
      {
        begin := begin - 1;
      }
    }

    method FindPartner(mark: char) returns (partner: Option<nat>)
      requires Valid()
      ensures partner == Partner(src, pos, mark)
    {
      var i := pos;
      while i < |src| && src[i] != '\n'
        invariant pos <= i <= |src| && Partner(src, pos, mark) == Partner(src, i, mark)
      {
        if IsPartner(mark, src[i]) {
          return Some(i);
        }
        i := i + 1;
      }
      return None;
    }

    method AdvanceTo(end: nat)
      requires Valid() && pos <= end <= |src|
      modifies this`pos, this`byteOffset
      ensures Valid() && pos == end
    {
      while pos < end
        invariant Valid() && pos <= end
      {
        Advance();
      }
    }

    method ReadStrayWord()
      requires Valid() && pos < |src| && src[pos] != '&' && IsAlnum(env, src[pos])
      modifies this`pos, this`byteOffset, this`errors, this`moreErrors, this`repeats
      ensures Valid() && (Now(), Error, old(pos)) == ScanStray(env, src, old(Now()))
    {
      hide IsAlnum, Off, WordBegin, Repeated;
      var from, start := pos, byteOffset;
      Advance();
      var span := Span(start, byteOffset);
      var begin := FindWordBegin(from);
      AdvanceWhile(WordChar(env));
      ReportRepeatable(src[begin..pos], span);
    }

    /** Text that is no token: one error. */
    method ReadStray()
      requires Valid() && pos < |src|
      modifies this`pos, this`byteOffset, this`errors, this`moreErrors, this`quotesOff, this`repeats
      ensures Valid() && (Now(), Error, old(pos)) == ScanStray(env, src, old(Now()))
    {
      hide IsAlnum, Off, WordBegin, IsQuote;
      var c, start := src[pos], byteOffset;
      StrayEndIs(env, src, pos);
      WordBeginIs(env, src, pos);
      if c != '&' && IsAlnum(env, c) {
        ReadStrayWord();
        return;
      }
      Advance();
      Report(Span(start, byteOffset));
      if c == '&' {
        return;
      }
      if IsQuote(c) {
        var partner := FindPartner(c);
        if partner.Some? {
          PartnerIs(src, pos, c);
          AdvanceTo(partner.value + 1);
        }
        return;
      }
      quotesOff := quotesOff || c == '\\';
      AdvanceWhile(StrayChar(env));
    }

    // ---------------------------------------------------------------- a token

    /** The token the lexer stands at, and where it starts. */
    method ReadToken() returns (kind: Token, start: nat)
      requires Valid() && pos < |src| && QuotesWithin(src, Now())
      modifies this`pos, this`byteOffset, this`stack, this`brace, this`errors, this`moreErrors, this`cutShort, this`quotesOff, this`repeats
      ensures Valid() && (Now(), kind, start) == Scan(env, src, old(Now()))
    {
      hide ScanString, ScanTriple, ScanNumber, ScanWord, ScanClose, ScanStray, Punct, Off, QuotesWithin;
      var c := src[pos];
      start := pos;
      if c == '"' {
        if Is(src, pos + 1, '"') && Is(src, pos + 2, '"') {
          kind := ReadTriple();
        } else {
          Advance();
          kind := ReadString(start, start, false);
        }
      } else if IsDigit(c) {
        kind := ReadNumber();
      } else if IsLetter(c) {
        kind := ReadWord();
      } else if Punct(src, pos).Some? {
        PunctIs(src, pos);
        var punct := Punct(src, pos).value;
        AdvanceTo(pos + punct.1);
        kind := punct.0;
      } else if c == '{' {
        Advance();
        brace := brace + 1;
        kind := LBrace;
      } else if c == '#' && Is(src, pos + 1, '{') {
        Advance();
        Advance();
        brace := brace + 1;
        kind := HashBrace;
      } else if c == '}' {
        kind, start := ReadClose();
      } else {
        ReadStray();
        kind := Error;
      }
    }

    /** The next token, and where it starts. */
    method Next() returns (kind: Token, start: nat)
      requires Valid() && QuotesWithin(src, Now())
      modifies this
      ensures Valid() && (Now(), kind, start) == NextToken(env, src, old(Now())) && gapComments == old(gapComments)
    {
      hide White, Trivia, Scan, Off;
      WhiteIs(src, Now());
      TriviaIs(src, White(src, Now()));
      SkipWhitespace();
      var broken := SkipTrivia();
      if broken.Some? {
        return Error, broken.value;
      }
      if pos == |src| {
        return Eof, pos;
      }
      kind, start := ReadToken();
    }

    // ---------------------------------------------------------------- all tokens

    /** The token that was read, with what is in front of it, behind the others. */
    method PushToken(tokens: seq<Tok>, kind: Token, start: nat) returns (more: seq<Tok>)
      requires Valid() && start <= |src|
      modifies this`gapNewlines, this`gapComments
      ensures more == tokens + [TokOf(src, old(Now()), old(gapComments), kind, start)]
      ensures Now() == old(Now()).(newlines := 0) && gapComments == |comments|
    {
      more := tokens + [Tok(kind, Span(Off(src, start), byteOffset), gapNewlines, gapComments, |comments|)];
      gapComments := |comments|;
      gapNewlines := 0;
    }

    /** The loop comes to `Tokenized`, which is well-formed for every text. */
    method Tokenize() returns (lexed: Lexed)
      requires Valid() && Now() == Initial(src) && gapComments == 0
      modifies this
      ensures lexed == Tokenized(env, src) && WellFormed(Off(src, |src|), lexed)
    {
      EveryTextIsLexed(env, src);
      InitialGood(src);
      assert comments == [];
      hide Off, NextToken, Initial, Nested, ErrorsRight, QuotesWithin, CommentsIn, WellFormed;
      var tokens: seq<Tok> := [];
      while true
        invariant Valid() && Good(src, Now()) && gapComments == |comments|
        invariant Tokenized(env, src) == Lex(env, src, Now(), tokens)
        invariant PrevLast(tokens, |tokens|) == |comments|
        decreases |src| - pos
      {
        ghost var st := Now();
        NextIs(env, src, st);
        var kind, start := Next();
        DroppedGood(src, Now(), Now().(newlines := 0));
        if moreErrors > 0 {
          lexed := CutRest(tokens, start);
          return;
        }
        tokens := PushToken(tokens, kind, start);
        if kind == Eof {
          lexed := Lexed(tokens, comments, errors, moreErrors, cutShort, quotesOff);
          return;
        }
      }
    }

    /** The rest of the text as one error, which starts at `start`, and the end. */
    method CutRest(tokens: seq<Tok>, start: nat) returns (lexed: Lexed)
      requires Valid() && Good(src, Now()) && start <= |src| && gapComments == PrevLast(tokens, |tokens|)
      modifies this
      ensures lexed == CutOff(env, src, old(Now()), tokens, start)
    {
      hide Off, Nested, ErrorsRight;
      ghost var st := Now();
      DroppedGood(src, st, st.(newlines := 0));
      RestIs(env, src, st.(newlines := 0));
      hide Rest, Good;
      var all := PushToken(tokens, Error, start);
      CountOn();
      var n := |tokens|;
      all := all[n := all[n].(span := Span(all[n].span.start, byteOffset))];
      gapNewlines := 0;
      all := PushToken(all, Eof, pos);
      lexed := Lexed(all, comments, errors, moreErrors, cutShort, quotesOff);
      assert all == tokens + [all[n], all[n + 1]];
    }

    /** Reading on to the end only to count errors. */
    method CountOn()
      requires Valid() && Good(src, Now()) && gapComments == |comments|
      modifies this
      ensures Valid() && Now() == Rest(env, src, old(Now())) && gapComments == old(gapComments)
    {
      hide Off, NextToken, Nested, ErrorsRight, QuotesWithin, CommentsIn;
      while true
        invariant Valid() && Good(src, Now()) && gapComments == |comments| == old(gapComments)
        invariant Rest(env, src, old(Now())) == Rest(env, src, Now())
        decreases |src| - pos
      {
        ghost var st := Now();
        NextIs(env, src, st);
        var kind, start := Next();
        DroppedGood(src, Now(), Now().(comments := st.comments));
        comments := comments[..gapComments];
        assert comments == st.comments;
        if kind == Eof {
          return;
        }
      }
    }
  }

  /** Whatever the text is, what the lexer makes of it passes the checks. */
  method LexAndCheck(env: Env, src: Text) returns (ok: bool)
    ensures ok
  {
    hide Off, WellFormed;
    var lexer := new Lexer(env, src);
    var lexed := lexer.Tokenize();
    ok := CheckLexerInvariants(Off(src, |src|), lexed);
  }

  lemma DigitBehind(s: Text, c: char)
    ensures SomeDigit(s + [c]) <==> SomeDigit(s) || c != '_'
  {
    assert (s + [c])[|s|] == c;
    assert forall k :: 0 <= k < |s| ==> (s + [c])[k] == s[k];
  }

  lemma NoErrs(st: State)
    ensures RecordedAll(st, []) == st
    ensures forall s: Str :: WithErrs([], s) == s
  {
    forall s: Str
      ensures WithErrs([], s) == s
    {
      assert [] + s.errs == s.errs;
    }
  }

  /** Errors are recorded wherever the lexer stands. */
  lemma {:induction false} RecordedAllMoved(st: State, errs: seq<Span>, pos: nat, stack: seq<(nat, nat)>, brace: nat, cutShort: bool)
    ensures RecordedAll(st.(pos := pos, stack := stack, brace := brace, cutShort := cutShort), errs)
         == RecordedAll(st, errs).(pos := pos, stack := stack, brace := brace, cutShort := cutShort)
    decreases |errs|
  {
    if errs != [] {
      RecordedAllMoved(Recorded(st, errs[0]), errs[1..], pos, stack, brace, cutShort);
    }
  }

  lemma {:induction false} RecordedAllAppend(st: State, a: seq<Span>, b: seq<Span>)
    ensures RecordedAll(st, a + b) == RecordedAll(RecordedAll(st, a), b)
    decreases |a|
  {
    if a == [] {
      assert a + b == b;
    } else {
      assert (a + b)[1..] == a[1..] + b;
      RecordedAllAppend(Recorded(st, a[0]), a[1..], b);
    }
  }

  lemma MoreErrs(st: State, errs: seq<Span>, more: seq<Span>, i: nat, pos: nat, s: Str)
    ensures RecordedAll(RecordedAll(st, errs).(pos := i).(pos := pos), more) == RecordedAll(st, errs + more).(pos := pos)
    ensures WithErrs(errs, WithErrs(more, s)) == WithErrs(errs + more, s)
  {
    hide RecordedAll;
    var r := RecordedAll(st, errs);
    RecordedAllMoved(r, more, pos, r.stack, r.brace, r.cutShort);
    RecordedAllSame(r, more);
    RecordedAllAppend(st, errs, more);
    assert errs + (more + s.errs) == errs + more + s.errs;
  }

  lemma UnclosedHere(st: State, errs: seq<Span>, end: nat)
    ensures RecordedAll(st.(pos := end, cutShort := true), errs) == RecordedAll(st, errs).(pos := end, cutShort := true)
    ensures RecordedAll(st, errs).stack == st.stack && errs + [] == errs
  {
    RecordedAllMoved(st, errs, end, st.stack, st.brace, true);
    RecordedAllSame(st, errs);
  }

  lemma BraceHere(st: State, errs: seq<Span>, end: nat, quote: nat)
    ensures RecordedAll(st.(pos := end, stack := st.stack + [(st.brace, quote)], brace := st.brace + 1), errs)
         == RecordedAll(st, errs).(pos := end, stack := st.stack + [(st.brace, quote)], brace := st.brace + 1)
    ensures RecordedAll(st, errs).stack == st.stack && RecordedAll(st, errs).brace == st.brace && errs + [] == errs
  {
    RecordedAllMoved(st, errs, end, st.stack + [(st.brace, quote)], st.brace + 1, st.cutShort);
    RecordedAllSame(st, errs);
  }

  lemma ClosedHere(st: State, errs: seq<Span>, end: nat)
    ensures RecordedAll(st.(pos := end), errs) == RecordedAll(st, errs).(pos := end) && errs + [] == errs
  {
    RecordedAllMoved(st, errs, end, st.stack, st.brace, st.cutShort);
    RecordedAllSame(st, errs);
  }
}
