/**
  What a sequence of tokens leaves open, by a grammar of balanced tokens: exactly the openers between
  which only balanced tokens stand.
 */
module LexBalance {
  import opened Basics
  import opened LexText
  import opened LexScan
  import opened LexSpec
  import opened LexKeeps
  import opened LexTokens
  import opened LexOpen

  // ---------------------------------------------------------------- the grammar

  predicate IsOpener(kind: Token) {
    kind in {LParen, LBracket, LBrace, HashBrace, HashBracket}
  }

  predicate IsCloser(kind: Token) {
    kind in {RParen, RBracket, RBrace}
  }

  /** A token that neither opens nor closes. */
  predicate IsPlain(kind: Token) {
    !IsOpener(kind) && !IsCloser(kind) && kind != StringStart && kind != StringEnd
  }

  /** What is around a place: nothing, an opener of code (inside an interpolation or not), or an interpolation. */
  datatype Around = Nothing | InCode(inString: bool) | InString

  predicate Within(around: Around) {
    around == InString || around == InCode(true)
  }

  /** Balanced tokens: pieces one after the other. */
  ghost predicate Balanced(around: Around, ts: seq<Token>)
    decreases |ts|, 1
  {
    ts == [] || exists n: nat :: 0 < n <= |ts| && Piece(around, ts[..n]) && Balanced(around, ts[n..])
  }

  /**
    One piece: a plain token; an opener, balanced tokens and a closer; a string whose parts are around
    tokens of which only openers of code may be left open; a closer or a string end with nothing to close.
   */
  ghost predicate Piece(around: Around, ts: seq<Token>)
    decreases |ts|, 0
  {
    || (|ts| == 1 && IsPlain(ts[0]))
    || (|ts| == 1 && IsCloser(ts[0]) && !around.InCode?)
    || (|ts| == 1 && ts[0] == StringEnd && !Within(around))
    || IsGroup(around, ts)
    || IsQuoted(ts)
  }

  ghost predicate IsGroup(around: Around, ts: seq<Token>)
    decreases |ts| - 1, 4
  {
    |ts| >= 2 && IsOpener(ts[0]) && IsCloser(ts[|ts| - 1]) && Balanced(InCode(Within(around)), ts[1..|ts| - 1])
  }

  ghost predicate IsQuoted(ts: seq<Token>)
    decreases |ts| - 1, 4
  {
    |ts| >= 2 && ts[0] == StringStart && ts[|ts| - 1] == StringEnd && Loose(InString, ts[1..|ts| - 1])
  }

  /** Balanced tokens inside an interpolation, with openers of code between them. */
  ghost predicate Loose(around: Around, ts: seq<Token>)
    decreases |ts|, 3
  {
    Balanced(around, ts) || exists n: nat :: LooseAt(around, ts, n)
  }

  ghost predicate LooseAt(around: Around, ts: seq<Token>, n: nat)
    decreases |ts|, 2
  {
    n < |ts| && IsOpener(ts[n]) && Balanced(around, ts[..n]) && Loose(InCode(true), ts[n + 1..])
  }

  /** The tokens are those that `open` says, one after the other, with balanced tokens between them. */
  ghost predicate Splits(ts: seq<Token>, open: seq<Open>)
    decreases |open|
  {
    if open == [] then Balanced(Nothing, ts) else exists n: nat :: SplitsAt(ts, open, n)
  }

  ghost predicate SplitsAt(ts: seq<Token>, open: seq<Open>, n: nat)
    requires open != []
    decreases |open|, 0
  {
    && n < |ts| && Splits(ts[..n], open[..|open| - 1])
    && (if open[|open| - 1] == Code then IsOpener(ts[n]) else ts[n] == StringStart)
    && Balanced(AroundOf(open), ts[n + 1..])
  }

  function AroundOf(open: seq<Open>): Around {
    if open == [] then Nothing
    else if open[|open| - 1] == Code then InCode(Interpolation in open)
    else InString
  }

  // ---------------------------------------------------------------- tokens one after the other

  /** What is open behind some tokens, where `open` was open in front of them. */
  function Left(open: seq<Open>, ts: seq<Token>): seq<Open>
    decreases |ts|
  {
    if ts == [] then open else Left(OpenAfter(open, ts[0]), ts[1..])
  }

  lemma {:induction false} LeftAppend(open: seq<Open>, a: seq<Token>, b: seq<Token>)
    ensures Left(open, a + b) == Left(Left(open, a), b)
    decreases |a|
  {
    hide OpenAfter;
    if a == [] {
      assert a + b == b;
    } else {
      assert (a + b)[1..] == a[1..] + b;
      LeftAppend(OpenAfter(open, a[0]), a[1..], b);
    }
  }

  lemma LeftOne(open: seq<Open>, kind: Token)
    ensures Left(open, [kind]) == OpenAfter(open, kind)
  {
    hide OpenAfter;
    assert [kind][1..] == [];
  }

  /** Tokens, one token and tokens again. */
  lemma LeftAround(open: seq<Open>, ts: seq<Token>, n: nat)
    requires n < |ts|
    ensures Left(open, ts) == Left(OpenAfter(Left(open, ts[..n]), ts[n]), ts[n + 1..])
  {
    hide OpenAfter, Left;
    assert ts == (ts[..n] + [ts[n]]) + ts[n + 1..];
    LeftAppend(open, ts[..n] + [ts[n]], ts[n + 1..]);
    LeftAppend(open, ts[..n], [ts[n]]);
    LeftOne(Left(open, ts[..n]), ts[n]);
  }

  /** The first token, tokens, and the last one. */
  lemma LeftInside(open: seq<Open>, ts: seq<Token>)
    requires |ts| >= 2
    ensures Left(open, ts) == OpenAfter(Left(OpenAfter(open, ts[0]), ts[1..|ts| - 1]), ts[|ts| - 1])
  {
    hide OpenAfter;
    var body := ts[..|ts| - 1];
    assert ts == body + [ts[|ts| - 1]];
    LeftAppend(open, body, [ts[|ts| - 1]]);
    assert body[1..] == ts[1..|ts| - 1];
    LeftOne(Left(open, body), ts[|ts| - 1]);
  }

  // ---------------------------------------------------------------- one token

  lemma OpenerOpens(open: seq<Open>, kind: Token)
    ensures IsOpener(kind) ==> OpenAfter(open, kind) == open + [Code]
    ensures kind == StringStart ==> OpenAfter(open, kind) == open + [Interpolation]
    ensures IsPlain(kind) ==> OpenAfter(open, kind) == open
  {
    hide LastInterpolation;
  }

  lemma CloserCloses(open: seq<Open>, kind: Token)
    requires IsCloser(kind)
    ensures OpenAfter(open + [Code], kind) == open
    ensures !AroundOf(open).InCode? ==> OpenAfter(open, kind) == open
  {
    hide LastInterpolation;
    assert (open + [Code])[..|open|] == open;
  }

  lemma StrayEnd(open: seq<Open>)
    requires !Within(AroundOf(open))
    ensures OpenAfter(open, StringEnd) == open
  {
    hide LastInterpolation;
    LastInterpolationIs(open);
    assert Interpolation !in open;
  }

  lemma AroundInside(open: seq<Open>)
    ensures AroundOf(open + [Code]) == InCode(Within(AroundOf(open)))
    ensures AroundOf(open + [Interpolation]) == InString
    ensures Within(AroundOf(open)) <==> Interpolation in open
  {
    if open != [] && open[|open| - 1] == Interpolation {
      assert Interpolation in open;
    }
  }

  function Kinds(tokens: seq<Tok>): seq<Token> {
    seq(|tokens|, i requires 0 <= i < |tokens| => tokens[i].kind)
  }

  lemma {:induction false} OpensIsLeft(tokens: seq<Tok>)
    ensures Opens(tokens) == Left([], Kinds(tokens))
  {
    hide OpenAfter;
    if tokens != [] {
      var init, last := tokens[..|tokens| - 1], tokens[|tokens| - 1];
      OpensIsLeft(init);
      assert Kinds(tokens) == Kinds(init) + [last.kind];
      LeftAppend([], Kinds(init), [last.kind]);
      LeftOne(Left([], Kinds(init)), last.kind);
    }
  }

  // ---------------------------------------------------------------- balanced tokens leave open what is open

  lemma {:induction false} BalancedLeaves(open: seq<Open>, ts: seq<Token>)
    requires Balanced(AroundOf(open), ts)
    ensures Left(open, ts) == open
    decreases |ts|, 1
  {
    hide OpenAfter, Left, Piece;
    if ts == [] {
      LeftNone(open);
    } else {
      var n: nat :| 0 < n <= |ts| && Piece(AroundOf(open), ts[..n]) && Balanced(AroundOf(open), ts[n..]);
      hide Balanced;
      PieceLeaves(open, ts[..n]);
      BalancedLeaves(open, ts[n..]);
      assert ts[..n] + ts[n..] == ts;
      LeftAppend(open, ts[..n], ts[n..]);
    }
  }

  lemma LeftNone(open: seq<Open>)
    ensures Left(open, []) == open
  {
  }

  lemma {:induction false} PieceLeaves(open: seq<Open>, ts: seq<Token>)
    requires Piece(AroundOf(open), ts)
    ensures Left(open, ts) == open
    decreases |ts|, 0
  {
    hide OpenAfter, Left, Balanced, Loose, IsPlain, IsOpener, AroundOf, Within;
    if |ts| == 1 {
      assert ts == [ts[0]];
      LeftOne(open, ts[0]);
      OpenerOpens(open, ts[0]);
      if IsCloser(ts[0]) {
        CloserCloses(open, ts[0]);
      } else if !IsPlain(ts[0]) {
        StrayEnd(open);
      }
    } else if IsGroup(AroundOf(open), ts) {
      GroupLeaves(open, ts);
    } else {
      QuotedLeaves(open, ts);
    }
  }

  lemma {:induction false} GroupLeaves(open: seq<Open>, ts: seq<Token>)
    requires IsGroup(AroundOf(open), ts)
    ensures Left(open, ts) == open
    decreases |ts| - 1, 2
  {
    hide OpenAfter, Left, Balanced, IsPlain, IsOpener, IsCloser;
    LeftInside(open, ts);
    OpenerOpens(open, ts[0]);
    AroundInside(open);
    BalancedLeaves(open + [Code], ts[1..|ts| - 1]);
    CloserCloses(open, ts[|ts| - 1]);
  }

  lemma {:induction false} QuotedLeaves(open: seq<Open>, ts: seq<Token>)
    requires IsQuoted(ts)
    ensures Left(open, ts) == open
    decreases |ts| - 1, 2
  {
    hide OpenAfter, Left, Loose, IsPlain, IsOpener, IsCloser;
    LeftInside(open, ts);
    OpenerOpens(open, ts[0]);
    AroundInside(open);
    var codes := LooseLeaves(open + [Interpolation], ts[1..|ts| - 1]);
    CutsThere(open, codes);
  }

  /** The end of a string closes what was opened inside its interpolation. */
  lemma CutsThere(open: seq<Open>, codes: seq<Open>)
    requires forall i :: 0 <= i < |codes| ==> codes[i] == Code
    ensures OpenAfter(open + [Interpolation] + codes, StringEnd) == open
  {
    hide LastInterpolation;
    var all := open + [Interpolation] + codes;
    LastInterpolationIs(all);
    assert all[|open|] == Interpolation && forall k :: |open| < k < |all| ==> all[k] == Code;
    assert all[..|open|] == open;
  }

  /** Openers of code, and balanced tokens between them, only leave code open. */
  lemma {:induction false} LooseLeaves(open: seq<Open>, ts: seq<Token>) returns (codes: seq<Open>)
    requires Loose(AroundOf(open), ts) && Within(AroundOf(open))
    ensures Left(open, ts) == open + codes && forall i :: 0 <= i < |codes| ==> codes[i] == Code
    decreases |ts|, 2
  {
    hide OpenAfter, Left, Balanced, IsOpener, AroundOf;
    if Balanced(AroundOf(open), ts) {
      BalancedLeaves(open, ts);
      codes := [];
    } else {
      var n: nat :| LooseAt(AroundOf(open), ts, n);
      hide Loose;
      AroundInside(open);
      LeftAround(open, ts, n);
      BalancedLeaves(open, ts[..n]);
      OpenerOpens(open, ts[n]);
      var more := LooseLeaves(open + [Code], ts[n + 1..]);
      codes := [Code] + more;
      assert open + [Code] + more == open + codes;
    }
  }

  lemma {:induction false} SplitLeaves(ts: seq<Token>, open: seq<Open>)
    requires Splits(ts, open)
    ensures Left([], ts) == open
    decreases |open|
  {
    hide OpenAfter, Left, Balanced, IsOpener;
    if open == [] {
      BalancedLeaves([], ts);
    } else {
      var n: nat :| SplitsAt(ts, open, n);
      var init, last := open[..|open| - 1], open[|open| - 1];
      hide Splits;
      SplitLeaves(ts[..n], init);
      LeftAround([], ts, n);
      OpenerOpens(init, ts[n]);
      assert init + [last] == open;
      BalancedLeaves(open, ts[n + 1..]);
    }
  }

  // ---------------------------------------------------------------- what is left open splits the tokens

  lemma {:induction false} BalancedMore(around: Around, a: seq<Token>, p: seq<Token>)
    requires Balanced(around, a) && Piece(around, p) && p != []
    ensures Balanced(around, a + p)
    decreases |a|
  {
    hide Piece;
    if a == [] {
      assert a + p == p && p[..|p|] == p && p[|p|..] == [];
      assert Balanced(around, p[|p|..]);
    } else {
      var n: nat :| 0 < n <= |a| && Piece(around, a[..n]) && Balanced(around, a[n..]);
      BalancedMore(around, a[n..], p);
      assert (a + p)[..n] == a[..n] && (a + p)[n..] == a[n..] + p;
    }
  }

  lemma PieceIsSome(around: Around, p: seq<Token>)
    requires Piece(around, p)
    ensures p != []
  {
  }

  lemma {:induction false} SplitMore(ts: seq<Token>, open: seq<Open>, p: seq<Token>)
    requires Splits(ts, open) && Piece(AroundOf(open), p)
    ensures Splits(ts + p, open)
  {
    PieceIsSome(AroundOf(open), p);
    hide Balanced, Piece, IsOpener;
    if open == [] {
      BalancedMore(Nothing, ts, p);
    } else {
      var n: nat :| SplitsAt(ts, open, n);
      BalancedMore(AroundOf(open), ts[n + 1..], p);
      assert (ts + p)[..n] == ts[..n] && (ts + p)[n] == ts[n] && (ts + p)[n + 1..] == ts[n + 1..] + p;
      assert SplitsAt(ts + p, open, n);
    }
  }

  lemma SplitOpened(ts: seq<Token>, open: seq<Open>, kind: Token)
    requires Splits(ts, open)
    ensures IsOpener(kind) ==> Splits(ts + [kind], open + [Code])
    ensures kind == StringStart ==> Splits(ts + [kind], open + [Interpolation])
  {
    hide Piece, IsOpener, AroundOf;
    var all := ts + [kind];
    assert all[..|ts|] == ts && all[|ts|] == kind && all[|ts| + 1..] == [];
    if IsOpener(kind) {
      assert (open + [Code])[..|open|] == open;
      assert SplitsAt(all, open + [Code], |ts|);
    }
    if kind == StringStart {
      assert (open + [Interpolation])[..|open|] == open;
      assert SplitsAt(all, open + [Interpolation], |ts|);
    }
  }

  lemma SplitClosed(ts: seq<Token>, open: seq<Open>, kind: Token)
    requires Splits(ts, open + [Code]) && IsCloser(kind)
    ensures Splits(ts + [kind], open)
  {
    hide Balanced, IsOpener, IsCloser, AroundOf, Within;
    var all := open + [Code];
    assert all[..|open|] == open && all[|all| - 1] == Code;
    var n: nat :| SplitsAt(ts, all, n);
    hide Splits;
    var p := ts[n..] + [kind];
    assert p[0] == ts[n] && p[|p| - 1] == kind && p[1..|p| - 1] == ts[n + 1..];
    AroundInside(open);
    assert IsGroup(AroundOf(open), p);
    SplitMore(ts[..n], open, p);
    assert ts[..n] + p == ts + [kind];
  }

  lemma {:induction false} LooseMore(around: Around, a: seq<Token>, x: Token, b: seq<Token>)
    requires Loose(around, a) && IsOpener(x) && Balanced(InCode(true), b)
    ensures Loose(around, a + [x] + b)
    decreases |a|
  {
    hide Balanced, IsOpener;
    var all := a + [x] + b;
    if Balanced(around, a) {
      assert all[..|a|] == a && all[|a|] == x && all[|a| + 1..] == b;
      assert Loose(InCode(true), b);
      assert LooseAt(around, all, |a|);
    } else {
      var n: nat :| LooseAt(around, a, n);
      LooseMore(InCode(true), a[n + 1..], x, b);
      assert all[..n] == a[..n] && all[n] == a[n] && all[n + 1..] == a[n + 1..] + [x] + b;
      assert LooseAt(around, all, n);
    }
  }

  /** The last interpolation left open starts a string behind which only code was left open. */
  lemma {:induction false} SplitAtString(ts: seq<Token>, base: seq<Open>, codes: seq<Open>) returns (n: nat)
    requires Splits(ts, base + [Interpolation] + codes)
    requires forall i :: 0 <= i < |codes| ==> codes[i] == Code
    ensures n < |ts| && ts[n] == StringStart && Splits(ts[..n], base) && Loose(InString, ts[n + 1..])
    decreases |codes|
  {
    hide Balanced, IsOpener;
    var open := base + [Interpolation] + codes;
    var at: nat :| SplitsAt(ts, open, at);
    hide Splits;
    if codes == [] {
      assert open[..|open| - 1] == base;
      n := at;
    } else {
      var fewer := codes[..|codes| - 1];
      assert open[..|open| - 1] == base + [Interpolation] + fewer && open[|open| - 1] == Code;
      n := SplitAtString(ts[..at], base, fewer);
      assert open[|base|] == Interpolation;
      assert ts[..at][..n] == ts[..n];
      LooseMore(InString, ts[..at][n + 1..], ts[at], ts[at + 1..]);
      assert ts[..at][n + 1..] + [ts[at]] + ts[at + 1..] == ts[n + 1..];
    }
  }

  lemma SplitCut(ts: seq<Token>, open: seq<Open>)
    requires Splits(ts, open)
    ensures Splits(ts + [StringEnd], OpenAfter(open, StringEnd))
  {
    hide Splits, Loose, LastInterpolation, Balanced;
    LastInterpolationIs(open);
    if Interpolation in open {
      var at := LastInterpolation(open).value;
      var base, codes := open[..at], open[at + 1..];
      assert open == base + [Interpolation] + codes;
      var n := SplitAtString(ts, base, codes);
      var p := ts[n..] + [StringEnd];
      assert p[0] == StringStart && p[|p| - 1] == StringEnd && p[1..|p| - 1] == ts[n + 1..];
      assert IsQuoted(p);
      SplitMore(ts[..n], base, p);
      assert ts[..n] + p == ts + [StringEnd];
    } else {
      AroundInside(open);
      StrayEnd(open);
      SplitMore(ts, open, [StringEnd]);
    }
  }

  lemma SplitNext(ts: seq<Token>, open: seq<Open>, kind: Token)
    requires Splits(ts, open)
    ensures Splits(ts + [kind], OpenAfter(open, kind))
  {
    hide Splits, OpenAfter, AroundOf, Within, IsOpener, Balanced;
    OpenerOpens(open, kind);
    if IsPlain(kind) {
      SplitMore(ts, open, [kind]);
    } else if IsOpener(kind) || kind == StringStart {
      SplitOpened(ts, open, kind);
    } else if kind == StringEnd {
      SplitCut(ts, open);
    } else if open != [] && open[|open| - 1] == Code {
      var init := open[..|open| - 1];
      assert open == init + [Code];
      CloserCloses(init, kind);
      SplitClosed(ts, init, kind);
    } else {
      CloserCloses(open, kind);
      StrayCloser(open);
      SplitMore(ts, open, [kind]);
    }
  }

  lemma StrayCloser(open: seq<Open>)
    ensures AroundOf(open).InCode? <==> open != [] && open[|open| - 1] == Code
  {
  }

  lemma {:induction false} LeftSplits(ts: seq<Token>)
    ensures Splits(ts, Left([], ts))
  {
    hide Splits, OpenAfter, Left;
    if ts == [] {
      LeftNone([]);
      NoneSplits();
    } else {
      var init, last := ts[..|ts| - 1], ts[|ts| - 1];
      LeftSplits(init);
      SplitNext(init, Left([], init), last);
      assert ts == init + [last];
      LeftAppend([], init, [last]);
      LeftOne(Left([], init), last);
    }
  }

  lemma NoneSplits()
    ensures Splits([], [])
  {
  }

  // ---------------------------------------------------------------- the main results

  /**
    A sequence of tokens leaves open exactly the openers between which, and behind the last of which, only
    balanced tokens stand.
   */
  lemma OpensExactly(tokens: seq<Tok>, open: seq<Open>)
    ensures Opens(tokens) == open <==> Splits(Kinds(tokens), open)
  {
    hide Splits, Opens, Left, Kinds;
    OpensIsLeft(tokens);
    LeftSplits(Kinds(tokens));
    if Splits(Kinds(tokens), open) {
      SplitLeaves(Kinds(tokens), open);
    }
  }

  /** Balanced tokens behind other tokens change nothing of what is open. */
  lemma BalancedChangesNothing(tokens: seq<Tok>, more: seq<Tok>)
    requires Balanced(AroundOf(Opens(tokens)), Kinds(more))
    ensures Opens(tokens + more) == Opens(tokens)
  {
    hide Balanced, Opens, Left, AroundOf, OpenAfter;
    OpensIsLeft(tokens);
    OpensIsLeft(tokens + more);
    assert Kinds(tokens + more) == Kinds(tokens) + Kinds(more);
    hide Kinds;
    LeftAppend([], Kinds(tokens), Kinds(more));
    BalancedLeaves(Opens(tokens), Kinds(more));
  }

  /**
    A text ends open exactly if no error was dropped and its tokens are not balanced; where it is cut short,
    exactly if no interpolation is left open.
   */
  lemma EndsOpenExactly(lexed: Lexed)
    ensures EndsOpenOf(lexed) <==> (
              && lexed.more == 0
              && if lexed.cutShort then exists open :: Splits(Kinds(lexed.tokens), open) && Interpolation !in open
                 else !Balanced(Nothing, Kinds(lexed.tokens)))
  {
    hide Balanced, Opens, Kinds;
    OpensExactly(lexed.tokens, []);
    assert Opens(lexed.tokens) == [] <==> Balanced(Nothing, Kinds(lexed.tokens));
    OpensExactly(lexed.tokens, Opens(lexed.tokens));
    hide Splits;
    forall open | Splits(Kinds(lexed.tokens), open)
      ensures open == Opens(lexed.tokens)
    {
      OpensExactly(lexed.tokens, open);
    }
  }

  // ---------------------------------------------------------------- without interpolations

  /** How many more openers than closers there are. */
  function Excess(ts: seq<Token>): int {
    if ts == [] then 0
    else Excess(ts[..|ts| - 1]) + Weight(ts[|ts| - 1])
  }

  function Weight(kind: Token): int {
    if IsOpener(kind) then 1 else if IsCloser(kind) then -1 else 0
  }

  predicate NoStrings(ts: seq<Token>) {
    StringStart !in ts && StringEnd !in ts
  }

  lemma CountsOne(open: seq<Open>, kind: Token)
    requires Interpolation !in open && kind != StringStart && kind != StringEnd
    ensures Interpolation !in OpenAfter(open, kind)
    ensures |OpenAfter(open, kind)| == if |open| + Weight(kind) < 0 then 0 else |open| + Weight(kind)
  {
    hide LastInterpolation;
    OpenerOpens(open, kind);
    if IsCloser(kind) {
      CloserCloses(open, kind);
      if open != [] {
        var init := open[..|open| - 1];
        assert open[|open| - 1] in open;
        assert open == init + [Code];
        CloserCloses(init, kind);
      }
    }
  }

  /** What is left open is as much as the suffix with the most openers over closers has too many. */
  lemma {:induction false} LargestExcess(ts: seq<Token>) returns (at: nat)
    requires NoStrings(ts)
    ensures Interpolation !in Left([], ts)
    ensures forall j :: 0 <= j <= |ts| ==> Excess(ts[j..]) <= |Left([], ts)|
    ensures at <= |ts| && Excess(ts[at..]) == |Left([], ts)|
  {
    hide OpenAfter, Left, Weight;
    if ts == [] {
      LeftNone([]);
      at := 0;
    } else {
      var init, last := ts[..|ts| - 1], ts[|ts| - 1];
      at := LargestExcess(init);
      assert ts == init + [last];
      LeftAppend([], init, [last]);
      LeftOne(Left([], init), last);
      CountsOne(Left([], init), last);
      forall j | 0 <= j <= |init|
        ensures Excess(ts[j..]) == Excess(init[j..]) + Weight(last)
      {
        assert ts[j..][..|ts[j..]| - 1] == init[j..];
      }
      assert ts[|ts|..] == [];
      if |Left([], init)| + Weight(last) < 0 {
        at := |ts|;
      }
    }
  }

  /** Without interpolations something is left open exactly if some suffix has more openers than closers. */
  lemma OpenByCounting(tokens: seq<Tok>)
    requires NoStrings(Kinds(tokens))
    ensures Opens(tokens) != [] <==> exists j :: 0 <= j <= |tokens| && Excess(Kinds(tokens)[j..]) > 0
  {
    hide Opens, Excess, Left;
    OpensIsLeft(tokens);
    var at := LargestExcess(Kinds(tokens));
  }
}
