/**
  The tokens of a whole text, with the comments in front of each, and what is true of them
  whatever the text is.
 */
module LexTokens {
  import opened LexText
  import opened LexScan
  import opened LexSpec
  import opened LexKeeps

  /** A token, the line breaks in front of it, and the range of comments in front of it. */
  datatype Tok = Tok(kind: Token, span: Span, newlines: nat, first: nat, last: nat)

  datatype Lexed = Lexed(tokens: seq<Tok>, comments: seq<Comment>, errors: seq<Span>, more: nat, cutShort: bool, quotesOff: bool)

  // ---------------------------------------------------------------- tokenizing

  lemma NextIs(env: Env, src: Text, st: State)
    requires Good(src, st)
    ensures QuotesWithin(src, st) && NextRight(src, st, |st.comments|, Off(src, st.pos), NextToken(env, src, st))
  {
    NextKept(env, src, st, |st.comments|, Off(src, st.pos));
  }

  /** A token that was read, with the comments from the `gap`th on. */
  function TokOf(src: Text, st: State, gap: nat, kind: Token, start: nat): Tok
    requires start <= |src| && st.pos <= |src|
  {
    Tok(kind, Between(src, start, st.pos), st.newlines, gap, |st.comments|)
  }

  function LexedOf(st: State, tokens: seq<Tok>): Lexed {
    Lexed(tokens, st.comments, st.errors, st.more, st.cutShort, st.quotesOff)
  }

  /** Reading on only to count: no comment of the rest is kept. */
  function Rest(env: Env, src: Text, st: State): State
    requires Good(src, st)
    decreases |src| - st.pos
  {
    NextIs(env, src, st);
    var (after, kind, start) := NextToken(env, src, st);
    var dropped := after.(comments := st.comments);
    DroppedGood(src, after, dropped);
    if kind == Eof then dropped else Rest(env, src, dropped)
  }

  lemma DroppedGood(src: Text, st: State, dropped: State)
    requires Good(src, st) && dropped == st.(comments := dropped.comments, newlines := dropped.newlines)
    ensures Good(src, dropped)
  {
  }

  /** The rest of the text as one error, and the end. */
  function CutOff(env: Env, src: Text, st: State, tokens: seq<Tok>, start: nat): Lexed
    requires Good(src, st) && start <= |src|
  {
    var rest := Rest(env, src, st.(newlines := 0));
    var error := Tok(Error, Span(Off(src, start), Off(src, |src|)), st.newlines,
                     if tokens == [] then 0 else tokens[|tokens| - 1].last, |st.comments|);
    LexedOf(rest, tokens + [error, Tok(Eof, Between(src, |src|, |src|), 0, |st.comments|, |st.comments|)])
  }

  /** The tokens from where the lexer stands on, behind those read so far. */
  function Lex(env: Env, src: Text, st: State, tokens: seq<Tok>): Lexed
    requires Good(src, st)
    decreases |src| - st.pos
  {
    NextIs(env, src, st);
    var (after, kind, start) := NextToken(env, src, st);
    DroppedGood(src, after, after.(newlines := 0));
    if after.more > 0 then CutOff(env, src, after, tokens, start)
    else
      var more := tokens + [TokOf(src, after, |st.comments|, kind, start)];
      if kind == Eof then LexedOf(after, more) else Lex(env, src, after.(newlines := 0), more)
  }

  lemma InitialGood(src: Text)
    ensures Good(src, Initial(src))
  {
  }

  function Tokenized(env: Env, src: Text): Lexed {
    InitialGood(src);
    Lex(env, src, Initial(src), [])
  }

  // ---------------------------------------------------------------- what is true of the tokens of any text

  function PrevEnd(tokens: seq<Tok>, i: nat): nat
    requires i <= |tokens|
  {
    if i == 0 then 0 else tokens[i - 1].span.end
  }

  function PrevLast(tokens: seq<Tok>, i: nat): nat
    requires i <= |tokens|
  {
    if i == 0 then 0 else tokens[i - 1].last
  }

  /** The token lies behind the one before it and in the text, and its comments between the two. */
  ghost predicate TokRight(len: nat, tokens: seq<Tok>, comments: seq<Comment>, i: nat)
    requires i < |tokens|
  {
    var t := tokens[i];
    && t.first == PrevLast(tokens, i) && t.first <= t.last <= |comments|
    && PrevEnd(tokens, i) <= t.span.start <= t.span.end <= len
    && CommentsIn(comments[..t.last], t.first, PrevEnd(tokens, i), t.span.start)
  }

  ghost predicate Stream(len: nat, tokens: seq<Tok>, comments: seq<Comment>) {
    forall i :: 0 <= i < |tokens| ==> TokRight(len, tokens, comments, i)
  }

  /** No token but the last is the end, and the last is, where the text ends. */
  ghost predicate EndsOnce(len: nat, tokens: seq<Tok>) {
    && tokens != [] && tokens[|tokens| - 1].kind == Eof && tokens[|tokens| - 1].span.start == len
    && forall i :: 0 <= i < |tokens| - 1 ==> tokens[i].kind != Eof
  }

  /** Text that is no token has an error; so many errors are kept, and others only counted where the tokens end in one error for the rest. */
  ghost predicate ErrorsTold(len: nat, lexed: Lexed) {
    && (lexed.errors == [] ==> forall i :: 0 <= i < |lexed.tokens| ==> lexed.tokens[i].kind != Error)
    && |lexed.errors| <= MAX_SYNTAX_ERRORS
    && (lexed.more > 0 ==>
          && |lexed.errors| == MAX_SYNTAX_ERRORS && |lexed.tokens| >= 2
          && lexed.tokens[|lexed.tokens| - 2].kind == Error && lexed.tokens[|lexed.tokens| - 2].span.end == len)
    && SpansWithin(lexed.errors, len)
  }

  ghost predicate WellFormed(len: nat, lexed: Lexed) {
    && EndsOnce(len, lexed.tokens)
    && Stream(len, lexed.tokens, lexed.comments)
    && PrevLast(lexed.tokens, |lexed.tokens|) == |lexed.comments|
    && ErrorsTold(len, lexed)
  }

  /** The tokens so far. */
  ghost predicate SoFar(src: Text, st: State, tokens: seq<Tok>) {
    && Good(src, st)
    && Stream(Off(src, |src|), tokens, st.comments)
    && PrevLast(tokens, |tokens|) == |st.comments| && PrevEnd(tokens, |tokens|) <= Off(src, st.pos)
    && (forall i :: 0 <= i < |tokens| ==> tokens[i].kind != Eof)
    && (st.errors == [] ==> forall i :: 0 <= i < |tokens| ==> tokens[i].kind != Error)
  }

  lemma StreamSnoc(len: nat, tokens: seq<Tok>, comments: seq<Comment>, longer: seq<Comment>, t: Tok)
    requires Stream(len, tokens, comments) && comments <= longer
    requires TokRight(len, tokens + [t], longer, |tokens|)
    ensures Stream(len, tokens + [t], longer)
  {
    var all := tokens + [t];
    forall i | 0 <= i < |tokens|
      ensures TokRight(len, all, longer, i)
    {
      assert TokRight(len, tokens, comments, i);
      assert longer[..tokens[i].last] == comments[..tokens[i].last];
      assert PrevEnd(all, i) == PrevEnd(tokens, i) && PrevLast(all, i) == PrevLast(tokens, i);
    }
  }

  /** One more token, where it was read. */
  lemma OneMoreTok(env: Env, src: Text, st: State, tokens: seq<Tok>, kind: Token, end: nat)
    requires SoFar(src, st, tokens)
    requires QuotesWithin(src, st) && NextToken(env, src, st).2 <= end <= |src|
    ensures var (after, _, start) := NextToken(env, src, st);
            Stream(Off(src, |src|), tokens + [Tok(kind, Between(src, start, end), after.newlines, |st.comments|, |after.comments|)], after.comments)
  {
    PosWithin(src, st);
    hide Good, Off, NextToken;
    var lo := PrevEnd(tokens, |tokens|);
    NoNewComments(st.comments, lo, Off(src, st.pos));
    NextKept(env, src, st, |st.comments|, lo);
    var (after, _, start) := NextToken(env, src, st);
    WithinText(src, start, end);
    WithinText(src, st.pos, start);
    var t := Tok(kind, Between(src, start, end), after.newlines, |st.comments|, |after.comments|);
    assert after.comments[..|after.comments|] == after.comments;
    hide CommentsIn, Stream;
    assert PrevEnd(tokens + [t], |tokens|) == PrevEnd(tokens, |tokens|) && PrevLast(tokens + [t], |tokens|) == PrevLast(tokens, |tokens|);
    StreamSnoc(Off(src, |src|), tokens, st.comments, after.comments, t);
  }

  lemma NoNewComments(comments: seq<Comment>, lo: nat, hi: nat)
    requires lo <= hi
    ensures CommentsIn(comments, |comments|, lo, hi)
  {
  }

  lemma {:induction false} RestIs(env: Env, src: Text, st: State)
    requires Good(src, st)
    ensures Good(src, Rest(env, src, st)) && Rest(env, src, st).comments == st.comments
    ensures st.more <= Rest(env, src, st).more && st.errors <= Rest(env, src, st).errors
    ensures Rest(env, src, st).pos == |src|
    decreases |src| - st.pos
  {
    NextIs(env, src, st);
    hide NextToken, Good, Off, CommentsIn, QuotesWithin;
    var (after, kind, start) := NextToken(env, src, st);
    var dropped := after.(comments := st.comments);
    DroppedGood(src, after, dropped);
    if kind != Eof {
      PosWithin(src, dropped);
      RestIs(env, src, dropped);
    }
  }

  lemma PosWithin(src: Text, st: State)
    requires Good(src, st)
    ensures st.pos <= |src|
  {
  }

  /** The end of the text behind the tokens so far. */
  lemma WithEof(len: nat, tokens: seq<Tok>, comments: seq<Comment>)
    requires Stream(len, tokens, comments)
    requires PrevLast(tokens, |tokens|) == |comments| && PrevEnd(tokens, |tokens|) <= len
    requires forall i :: 0 <= i < |tokens| ==> tokens[i].kind != Eof
    ensures var all := tokens + [Tok(Eof, Span(len, len), 0, |comments|, |comments|)];
            Stream(len, all, comments) && EndsOnce(len, all) && PrevLast(all, |all|) == |comments|
  {
    var eof := Tok(Eof, Span(len, len), 0, |comments|, |comments|);
    assert TokRight(len, tokens + [eof], comments, |tokens|) by {
      assert comments[..|comments|] == comments;
      NoNewComments(comments, PrevEnd(tokens, |tokens|), len);
    }
    StreamSnoc(len, tokens, comments, comments, eof);
  }

  lemma CutOffRight(env: Env, src: Text, st: State, tokens: seq<Tok>)
    requires SoFar(src, st, tokens) && QuotesWithin(src, st) && NextToken(env, src, st).0.more > 0
    requires Good(src, NextToken(env, src, st).0) && NextToken(env, src, st).2 <= |src|
    ensures WellFormed(Off(src, |src|), CutOff(env, src, NextToken(env, src, st).0, tokens, NextToken(env, src, st).2))
  {
    hide Off, NextToken, Rest, CommentsIn, Stream, Nested;
    OneMoreTok(env, src, st, tokens, Error, |src|);
    var (after, _, start) := NextToken(env, src, st);
    DroppedGood(src, after, after.(newlines := 0));
    RestIs(env, src, after.(newlines := 0));
    var len := Off(src, |src|);
    var error := Tok(Error, Between(src, start, |src|), after.newlines, |st.comments|, |after.comments|);
    var more := tokens + [error];
    assert PrevLast(more, |more|) == |after.comments| && PrevEnd(more, |more|) == len;
    WithEof(len, more, after.comments);
    var eof := Tok(Eof, Span(len, len), 0, |after.comments|, |after.comments|);
    assert tokens + [error, eof] == more + [eof];
    var lexed := CutOff(env, src, after, tokens, start);
    assert lexed.tokens == more + [eof] && lexed.comments == after.comments;
    assert lexed.tokens[|lexed.tokens| - 2] == error;
    hide EndsOnce;
    assert ErrorsTold(len, lexed);
  }

  lemma SoFarNext(env: Env, src: Text, st: State, tokens: seq<Tok>)
    requires SoFar(src, st, tokens) && QuotesWithin(src, st)
    requires NextRight(src, st, |st.comments|, Off(src, st.pos), NextToken(env, src, st))
    ensures var (after, kind, start) := NextToken(env, src, st);
            var more := tokens + [TokOf(src, after, |st.comments|, kind, start)];
            && Stream(Off(src, |src|), more, after.comments)
            && PrevLast(more, |more|) == |after.comments|
            && (kind != Eof ==> SoFar(src, after.(newlines := 0), more))
            && (after.errors == [] ==> forall i :: 0 <= i < |more| ==> more[i].kind != Error)
  {
    hide Off, NextToken, CommentsIn, Stream, Nested, ErrorsRight;
    var (after, kind, start) := NextToken(env, src, st);
    OneMoreTok(env, src, st, tokens, kind, after.pos);
    DroppedGood(src, after, after.(newlines := 0));
    var more := tokens + [TokOf(src, after, |st.comments|, kind, start)];
    assert after.errors == [] ==> st.errors == [] && kind != Error;
  }

  /** The tokens of what is left, behind those so far, are right. */
  lemma {:induction false} LexRight(env: Env, src: Text, st: State, tokens: seq<Tok>)
    requires SoFar(src, st, tokens) && st.more == 0
    ensures WellFormed(Off(src, |src|), Lex(env, src, st, tokens))
    decreases |src| - st.pos
  {
    hide Off, NextToken, CommentsIn, Stream, Nested, CutOff, WellFormed;
    NextIs(env, src, st);
    var (after, kind, start) := NextToken(env, src, st);
    DroppedGood(src, after, after.(newlines := 0));
    if after.more > 0 {
      CutOffRight(env, src, st, tokens);
    } else {
      SoFarNext(env, src, st, tokens);
      var more := tokens + [TokOf(src, after, |st.comments|, kind, start)];
      if kind == Eof {
        AtTheEnd(src, after, tokens, more[|tokens|]);
      } else {
        LexRight(env, src, after.(newlines := 0), more);
      }
    }
  }

  lemma AtTheEnd(src: Text, st: State, tokens: seq<Tok>, eof: Tok)
    requires Good(src, st) && st.more == 0 && eof.kind == Eof && eof.span.start == Off(src, |src|) && eof.last == |st.comments|
    requires forall i :: 0 <= i < |tokens| ==> tokens[i].kind != Eof
    requires Stream(Off(src, |src|), tokens + [eof], st.comments)
    requires st.errors == [] ==> forall i :: 0 <= i < |tokens + [eof]| ==> (tokens + [eof])[i].kind != Error
    ensures WellFormed(Off(src, |src|), LexedOf(st, tokens + [eof]))
  {
    hide Off, Stream, Nested;
  }

  /**
    Every text lexes to a well-formed stream: the tokens lie in the text one behind the other, with
    one end, where the text ends; every comment belongs to the token it is in front of; and errors
    that are not kept leave one error for the rest.
   */
  lemma EveryTextIsLexed(env: Env, src: Text)
    ensures WellFormed(Off(src, |src|), Tokenized(env, src))
  {
    InitialGood(src);
    assert SoFar(src, Initial(src), []);
    hide Off, Lex, WellFormed;
    LexRight(env, src, Initial(src), []);
  }

  /** So no two tokens overlap. */
  lemma {:induction false} TokensAreDisjoint(len: nat, tokens: seq<Tok>, comments: seq<Comment>, i: nat, j: nat)
    requires Stream(len, tokens, comments) && i < j < |tokens|
    ensures tokens[i].span.end <= tokens[j].span.start
    decreases j
  {
    assert TokRight(len, tokens, comments, j);
    if i < j - 1 {
      assert TokRight(len, tokens, comments, j - 1);
      TokensAreDisjoint(len, tokens, comments, i, j - 1);
    }
  }

  // ---------------------------------------------------------------- the checks of it

  /** The first checks: the spans, and the end. */
  method CheckSpans(len: nat, tokens: seq<Tok>) returns (ok: bool)
    ensures ok <==> EndsOnce(len, tokens) &&
                    forall i :: 0 <= i < |tokens| ==> PrevEnd(tokens, i) <= tokens[i].span.start <= tokens[i].span.end <= len
  {
    if tokens == [] {
      return false;
    }
    var seenEof := false;
    for i := 0 to |tokens|
      invariant seenEof <==> i > 0 && tokens[i - 1].kind == Eof
      invariant forall k :: 0 <= k < i ==> PrevEnd(tokens, k) <= tokens[k].span.start <= tokens[k].span.end <= len
      invariant forall k :: 0 <= k < i - 1 ==> tokens[k].kind != Eof
      invariant seenEof ==> tokens[i - 1].span.start == len
    {
      if seenEof {
        return false;
      }
      var span := tokens[i].span;
      if span.end < span.start || span.end > len {
        return false;
      }
      if i > 0 {
        assert PrevEnd(tokens, i) == tokens[i - 1].span.end;
        if span.start < tokens[i - 1].span.start || span.start < tokens[i - 1].span.end {
          return false;
        }
      }
      if tokens[i].kind == Eof {
        seenEof := true;
        if span.start != len {
          return false;
        }
      }
    }
    return seenEof;
  }

  /** The comments of one token, from the end of the token before it on: where the last of them ends, if they lie right. */
  method CheckComments(comments: seq<Comment>, first: nat, last: nat, lo: nat) returns (ok: bool, floor: nat)
    requires first <= last <= |comments|
    ensures ok ==> floor == Floor(comments[..last], first, lo, last)
    ensures ok <==> forall i :: first <= i < last ==> Floor(comments[..last], first, lo, i) <= comments[i].span.start <= comments[i].span.end
  {
    floor := lo;
    for i := first to last
      invariant floor == Floor(comments[..last], first, lo, i)
      invariant forall k :: first <= k < i ==> Floor(comments[..last], first, lo, k) <= comments[k].span.start <= comments[k].span.end
    {
      var span := comments[i].span;
      if span.start < floor || span.end < span.start {
        return false, floor;
      }
      floor := span.end;
    }
    ok := true;
  }

  lemma CommentsAre(comments: seq<Comment>, first: nat, last: nat, lo: nat, hi: nat)
    requires first <= last <= |comments|
    ensures CommentsIn(comments[..last], first, lo, hi) <==>
            (forall i :: first <= i < last ==> Floor(comments[..last], first, lo, i) <= comments[i].span.start <= comments[i].span.end)
            && Floor(comments[..last], first, lo, last) <= hi
  {
  }

  /** The second checks: the comments follow each other, and each lies between two tokens. */
  method CheckRanges(len: nat, tokens: seq<Tok>, comments: seq<Comment>) returns (ok: bool)
    requires forall i :: 0 <= i < |tokens| ==> PrevEnd(tokens, i) <= tokens[i].span.start <= tokens[i].span.end <= len
    ensures ok <==> Stream(len, tokens, comments) && PrevLast(tokens, |tokens|) == |comments|
  {
    hide CommentsIn, Floor;
    var next, floor := 0, 0;
    for i := 0 to |tokens|
      invariant next == PrevLast(tokens, i) && floor == PrevEnd(tokens, i)
      invariant forall k :: 0 <= k < i ==> TokRight(len, tokens, comments, k)
    {
      var t := tokens[i];
      if t.first != next || t.last < t.first || t.last > |comments| {
        assert !TokRight(len, tokens, comments, i);
        return false;
      }
      var fine, behind := CheckComments(comments, t.first, t.last, floor);
      CommentsAre(comments, t.first, t.last, floor, t.span.start);
      if !fine || t.span.start < behind {
        assert !TokRight(len, tokens, comments, i);
        return false;
      }
      assert TokRight(len, tokens, comments, i);
      floor := t.span.end;
      next := t.last;
    }
    return next == |comments|;
  }

  lemma StreamSpans(len: nat, tokens: seq<Tok>, comments: seq<Comment>)
    ensures Stream(len, tokens, comments) ==>
              forall i :: 0 <= i < |tokens| ==> PrevEnd(tokens, i) <= tokens[i].span.start <= tokens[i].span.end <= len
  {
    forall i | Stream(len, tokens, comments) && 0 <= i < |tokens|
      ensures PrevEnd(tokens, i) <= tokens[i].span.start <= tokens[i].span.end <= len
    {
      assert TokRight(len, tokens, comments, i);
    }
  }

  /** The two loops together decide `WellFormed`. */
  method CheckLexerInvariants(len: nat, lexed: Lexed) returns (ok: bool)
    ensures ok <==> WellFormed(len, lexed)
  {
    var tokens := lexed.tokens;
    var spans := CheckSpans(len, tokens);
    if !spans {
      StreamSpans(len, tokens, lexed.comments);
      return false;
    }
    var ranges := CheckRanges(len, tokens, lexed.comments);
    if !ranges {
      return false;
    }
    hide Stream;
    if lexed.errors == [] && exists i :: 0 <= i < |tokens| && tokens[i].kind == Error {
      return false;
    }
    if |lexed.errors| > MAX_SYNTAX_ERRORS {
      return false;
    }
    if lexed.more > 0 {
      if |lexed.errors| != MAX_SYNTAX_ERRORS || |tokens| < 2 || tokens[|tokens| - 2].kind != Error || tokens[|tokens| - 2].span.end != len {
        return false;
      }
    }
    for i := 0 to |lexed.errors|
      invariant SpansWithin(lexed.errors[..i], len)
    {
      if lexed.errors[i].end < lexed.errors[i].start || lexed.errors[i].end > len {
        return false;
      }
    }
    assert lexed.errors[..|lexed.errors|] == lexed.errors;
    return true;
  }
}
