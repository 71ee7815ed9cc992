/**
  The forms of the lexer's tokens, each said without the way that it is read: the longest operator, the
  longest number, the characters of a string up to its end, and the last three quotes of a run.
 */
module LexForms {
  import opened Basics
  import opened LexText
  import opened LexScan
  import opened LexSpec

  // ---------------------------------------------------------------- operators

  predicate IsSingle(c: char) {
    c in {'(', ')', '[', ']', '+', '*', '%', '?', '^', ',', '/', ':', '-', '=', '!', '<', '>', '|', '.'}
  }

  predicate IsDouble(c: char, d: char) {
    (c, d) in {('#', '['), (':', ':'), ('-', '>'), ('=', '='), ('!', '='), ('<', '='), ('>', '='),
               ('|', '>'), ('|', '|'), ('&', '&'), ('.', '.')}
  }

  /** The delimiters and operators of one, two and three characters; braces are not among them. */
  predicate IsOperator(o: Text) {
    || (|o| == 1 && IsSingle(o[0]))
    || (|o| == 2 && IsDouble(o[0], o[1]))
    || (|o| == 3 && o[0] == o[1] == o[2] == '.')
  }

  function OperatorKind(o: Text): Token
    requires IsOperator(o)
  {
    if o[0] == '(' then LParen
    else if o[0] == ')' then RParen
    else if o[0] == '[' then LBracket
    else if o[0] == ']' then RBracket
    else if o[0] == '#' then HashBracket
    else Op(o)
  }

  predicate StandsAt(src: Text, i: nat, o: Text) {
    i + |o| <= |src| && src[i..i + |o|] == o
  }

  lemma OperatorIsRead(src: Text, i: nat)
    requires i < |src| && Punct(src, i).Some?
    ensures var n := Punct(src, i).value.1;
            && i + n <= |src| && IsOperator(src[i..i + n])
            && Punct(src, i).value.0 == OperatorKind(src[i..i + n])
  {
  }

  lemma OperatorIsLongest(src: Text, i: nat, o: Text)
    requires i < |src| && IsOperator(o) && StandsAt(src, i, o)
    ensures Punct(src, i).Some? && |o| <= Punct(src, i).value.1
  {
    assert src[i] == o[0];
    assert |o| > 1 ==> src[i + 1] == o[1];
    assert |o| > 2 ==> src[i + 2] == o[2];
  }

  /** What is read is the longest operator that stands there, and nothing is exactly if none does. */
  lemma OperatorExactly(src: Text, i: nat)
    requires i < |src|
    ensures Punct(src, i).None? <==> forall o :: IsOperator(o) ==> !StandsAt(src, i, o)
    ensures Punct(src, i).Some? ==>
              var (kind, n) := Punct(src, i).value;
              && i + n <= |src| && IsOperator(src[i..i + n]) && kind == OperatorKind(src[i..i + n])
              && forall o :: IsOperator(o) && StandsAt(src, i, o) ==> |o| <= n
  {
    hide Punct, IsOperator, OperatorKind;
    if Punct(src, i).Some? {
      OperatorIsRead(src, i);
      assert StandsAt(src, i, src[i..i + Punct(src, i).value.1]);
    }
    forall o | IsOperator(o) && StandsAt(src, i, o)
      ensures Punct(src, i).Some? && |o| <= Punct(src, i).value.1
    {
      OperatorIsLongest(src, i, o);
    }
  }

  // ---------------------------------------------------------------- raw strings

  /** The quotes from `k` to `e` are a run of at least three, with no three quotes from `i` on before it. */
  predicate FirstRun(src: Text, i: nat, k: nat, e: nat) {
    && i <= k && k + 3 <= e <= |src| && !Is(src, e, '"')
    && (forall j: nat :: k <= j < e ==> Is(src, j, '"'))
    && forall j: nat :: i <= j < k ==> !ThreeQuotes(src, j)
  }

  lemma {:induction false} LastThreeEnds(src: Text, i: nat)
    requires ThreeQuotes(src, i)
    ensures var e := LastThree(src, i) + 3;
            i + 3 <= e <= |src| && !Is(src, e, '"') && forall j: nat :: i <= j < e ==> Is(src, j, '"')
    decreases |src| - i
  {
    if Is(src, i + 3, '"') {
      LastThreeEnds(src, i + 1);
    }
  }

  lemma {:induction false} RunIsFound(src: Text, i: nat) returns (k: nat)
    ensures TripleEnd(src, i).None? ==> forall j: nat :: i <= j ==> !ThreeQuotes(src, j)
    ensures TripleEnd(src, i).Some? ==> FirstRun(src, i, k, TripleEnd(src, i).value)
    decreases |src| - i
  {
    k := i;
    if i < |src| {
      if ThreeQuotes(src, i) {
        LastThreeEnds(src, i);
      } else {
        k := RunIsFound(src, i + 1);
      }
    }
  }

  lemma RunIsThree(src: Text, i: nat, k: nat, e: nat)
    requires FirstRun(src, i, k, e)
    ensures ThreeQuotes(src, k)
  {
  }

  lemma OneRun(src: Text, i: nat, k: nat, e: nat, k': nat, e': nat)
    requires FirstRun(src, i, k, e) && FirstRun(src, i, k', e')
    ensures e == e'
  {
    RunIsThree(src, i, k, e);
    RunIsThree(src, i, k', e');
  }

  /** A raw string ends behind the first run of at least three quotes, whose last three close it; without a run it does not end. */
  lemma RawStringExactly(src: Text, i: nat, e: nat)
    ensures TripleEnd(src, i) == Some(e) <==> exists k: nat :: FirstRun(src, i, k, e)
    ensures TripleEnd(src, i).None? <==> forall j: nat :: i <= j ==> !ThreeQuotes(src, j)
  {
    hide TripleEnd;
    var found := RunIsFound(src, i);
    if TripleEnd(src, i).Some? {
      RunIsThree(src, i, found, TripleEnd(src, i).value);
      forall k: nat | FirstRun(src, i, k, e)
        ensures TripleEnd(src, i) == Some(e)
      {
        OneRun(src, i, k, e, found, TripleEnd(src, i).value);
      }
    } else {
      forall k: nat | FirstRun(src, i, k, e)
        ensures false
      {
        RunIsThree(src, i, k, e);
      }
    }
  }

  // ---------------------------------------------------------------- numbers

  /** Digits and underscores from `i` to `e`, a digit first. */
  predicate DigitsAt(src: Text, i: nat, e: nat) {
    i < e <= |src| && IsDigit(src[i]) && forall k :: i <= k < e ==> IsDigit(src[k]) || src[k] == '_'
  }

  /** Digits up to `a`, and behind them a point and digits or nothing. */
  predicate PlainSplit(src: Text, i: nat, a: nat, e: nat) {
    DigitsAt(src, i, a) && (a == e || (Is(src, a, '.') && DigitsAt(src, a + 1, e)))
  }

  ghost predicate PlainAt(src: Text, i: nat, e: nat) {
    exists a: nat :: PlainSplit(src, i, a, e)
  }

  /** The mark of an exponent, with its sign or without. */
  predicate MarkAt(src: Text, i: nat, e: nat) {
    && e <= |src| && (Is(src, i, 'e') || Is(src, i, 'E'))
    && (e == i + 1 || (e == i + 2 && (Is(src, i + 1, '+') || Is(src, i + 1, '-'))))
  }

  predicate IsPrefix(src: Text, i: nat, lower: char, upper: char) {
    Is(src, i, '0') && (Is(src, i + 1, lower) || Is(src, i + 1, upper))
  }

  /** Digits of the base that the prefix says, and underscores. */
  predicate BasedAt(src: Text, i: nat, e: nat) {
    && i + 2 <= e <= |src|
    && ((IsPrefix(src, i, 'x', 'X') && forall k :: i + 2 <= k < e ==> IsHexDigit(src[k]) || src[k] == '_')
        || (IsPrefix(src, i, 'b', 'B') && forall k :: i + 2 <= k < e ==> src[k] == '0' || src[k] == '1' || src[k] == '_'))
  }

  ghost predicate ScaledAt(src: Text, i: nat, b: nat, s: nat, e: nat) {
    PlainAt(src, i, b) && MarkAt(src, b, s) && DigitsAt(src, s, e)
  }

  predicate HasDigit(src: Text, i: nat, e: nat) {
    exists k :: i <= k < e <= |src| && src[k] != '_'
  }

  /** A number: plain, with an exponent, or with a prefix and a digit behind it. */
  ghost predicate NumberAt(src: Text, i: nat, e: nat) {
    || PlainAt(src, i, e)
    || (exists b: nat, s: nat :: ScaledAt(src, i, b, s, e))
    || (BasedAt(src, i, e) && HasDigit(src, i + 2, e))
  }

  /** A number that breaks off behind the mark of its exponent, or behind its prefix. */
  ghost predicate BrokenAt(src: Text, i: nat, e: nat) {
    || (exists b: nat :: PlainAt(src, i, b) && MarkAt(src, b, e))
    || (BasedAt(src, i, e) && !HasDigit(src, i + 2, e))
  }

  lemma {:induction false} RunIsLongest(src: Text, i: nat, p: char -> bool, e: nat)
    requires i <= e <= |src| && forall k :: i <= k < e ==> p(src[k])
    ensures e <= RunEnd(src, i, p)
    decreases e - i
  {
    if i < e {
      RunIsLongest(src, i + 1, p, e);
    } else {
      RunEndIs(src, i, p);
    }
  }

  lemma DigitsAreLongest(src: Text, i: nat, e: nat)
    requires DigitsAt(src, i, e)
    ensures e <= RunEnd(src, i + 1, DigitChar())
  {
    RunIsLongest(src, i + 1, DigitChar(), e);
  }

  lemma DigitsAreRead(src: Text, i: nat)
    requires i < |src| && IsDigit(src[i])
    ensures DigitsAt(src, i, RunEnd(src, i + 1, DigitChar()))
    ensures var w := RunEnd(src, i + 1, DigitChar()); w < |src| ==> !IsDigit(src[w]) && src[w] != '_'
  {
    RunEndIs(src, i + 1, DigitChar());
  }

  /** Where the digits and the fraction of a number end. */
  function PlainEnd(src: Text, i: nat): nat {
    FractionEnd(src, RunEnd(src, i + 1, DigitChar()))
  }

  lemma PlainIsRead(src: Text, i: nat)
    requires i < |src| && IsDigit(src[i])
    ensures PlainAt(src, i, PlainEnd(src, i))
  {
    hide RunEnd;
    DigitsAreRead(src, i);
    var w := RunEnd(src, i + 1, DigitChar());
    if Is(src, w, '.') && w + 1 < |src| && IsDigit(src[w + 1]) {
      DigitsAreRead(src, w + 1);
      RunOfFirst(src, w + 1, DigitChar());
    }
    assert PlainSplit(src, i, w, PlainEnd(src, i));
  }

  lemma RunOfFirst(src: Text, i: nat, p: char -> bool)
    requires i < |src| && p(src[i])
    ensures RunEnd(src, i, p) == RunEnd(src, i + 1, p)
  {
  }

  lemma PlainIsLongest(src: Text, i: nat, e: nat)
    requires i < |src| && PlainAt(src, i, e)
    ensures e <= PlainEnd(src, i)
    ensures Is(src, e, 'e') || Is(src, e, 'E') ==> e == PlainEnd(src, i)
  {
    hide RunEnd;
    var a: nat :| PlainSplit(src, i, a, e);
    DigitsAreLongest(src, i, a);
    DigitsAreRead(src, i);
    var w := RunEnd(src, i + 1, DigitChar());
    FractionEndIs(src, w);
    if a != e {
      assert a == w;
      DigitsAreLongest(src, a + 1, e);
      DigitsAreRead(src, a + 1);
      RunOfFirst(src, a + 1, DigitChar());
    }
  }

  lemma DecimalIsRead(src: Text, i: nat)
    requires i < |src| && IsDigit(src[i]) && !IsPrefix(src, i, 'x', 'X') && !IsPrefix(src, i, 'b', 'B')
    ensures Numeral(src, i).1 ==> NumberAt(src, i, Numeral(src, i).0)
    ensures !Numeral(src, i).1 ==> BrokenAt(src, i, Numeral(src, i).0)
  {
    hide RunEnd, PlainAt, FractionEnd;
    var f := PlainEnd(src, i);
    PlainIsRead(src, i);
    if Is(src, f, 'e') || Is(src, f, 'E') {
      var s := if Is(src, f + 1, '+') || Is(src, f + 1, '-') then f + 2 else f + 1;
      assert MarkAt(src, f, s);
      if s < |src| && IsDigit(src[s]) {
        DigitsAreRead(src, s);
        RunOfFirst(src, s, DigitChar());
        assert ScaledAt(src, i, f, s, Numeral(src, i).0);
      }
    }
  }

  lemma DecimalIsLongest(src: Text, i: nat, e: nat)
    requires i < |src| && IsDigit(src[i]) && !IsPrefix(src, i, 'x', 'X') && !IsPrefix(src, i, 'b', 'B')
    requires NumberAt(src, i, e) || BrokenAt(src, i, e)
    ensures e <= Numeral(src, i).0
  {
    hide RunEnd, PlainAt, FractionEnd;
    var f := PlainEnd(src, i);
    PlainIsRead(src, i);
    PlainWithin(src, i, f);
    ExponentIs(src, f);
    if PlainAt(src, i, e) {
      PlainIsLongest(src, i, e);
    } else if exists b: nat, s: nat :: ScaledAt(src, i, b, s, e) {
      var b: nat, s: nat :| ScaledAt(src, i, b, s, e);
      PlainIsLongest(src, i, b);
      DigitsAreLongest(src, s, e);
      RunOfFirst(src, s, DigitChar());
    } else {
      var b: nat :| PlainAt(src, i, b) && MarkAt(src, b, e);
      PlainIsLongest(src, i, b);
      ExponentPasses(src, f, e);
    }
  }

  lemma PlainWithin(src: Text, i: nat, e: nat)
    requires PlainAt(src, i, e)
    ensures e <= |src|
  {
  }

  lemma ExponentPasses(src: Text, i: nat, e: nat)
    requires MarkAt(src, i, e)
    ensures e <= Exponent(src, i).0
  {
    var s := if Is(src, i + 1, '+') || Is(src, i + 1, '-') then i + 2 else i + 1;
    if s <= |src| {
      RunEndIs(src, s, DigitChar());
    }
  }

  lemma BasedIsRead(src: Text, i: nat)
    requires i < |src| && (IsPrefix(src, i, 'x', 'X') || IsPrefix(src, i, 'b', 'B'))
    ensures BasedAt(src, i, Numeral(src, i).0)
    ensures Numeral(src, i).1 == HasDigit(src, i + 2, Numeral(src, i).0)
  {
    hide RunEnd;
    RunEndIs(src, i + 2, HexChar());
    RunEndIs(src, i + 2, BinChar());
    SomeDigitIs(src, i + 2, Numeral(src, i).0);
  }

  lemma SomeDigitIs(src: Text, i: nat, e: nat)
    requires i <= e <= |src|
    ensures SomeDigit(src[i..e]) == HasDigit(src, i, e)
  {
    if HasDigit(src, i, e) {
      var k :| i <= k < e && src[k] != '_';
      assert src[i..e][k - i] != '_';
    }
  }

  lemma BasedIsLongest(src: Text, i: nat, e: nat)
    requires i < |src| && (IsPrefix(src, i, 'x', 'X') || IsPrefix(src, i, 'b', 'B'))
    requires NumberAt(src, i, e) || BrokenAt(src, i, e)
    ensures e <= Numeral(src, i).0
  {
    hide RunEnd;
    NumeralIs(src, i);
    if BasedAt(src, i, e) {
      if IsPrefix(src, i, 'x', 'X') {
        RunIsLongest(src, i + 2, HexChar(), e);
      } else {
        RunIsLongest(src, i + 2, BinChar(), e);
      }
    } else {
      forall b: nat | PlainAt(src, i, b)
        ensures b == i + 1
      {
        PlainIsOne(src, i, b);
      }
    }
  }

  lemma PlainIsOne(src: Text, i: nat, e: nat)
    requires i < |src| && PlainAt(src, i, e) && (IsPrefix(src, i, 'x', 'X') || IsPrefix(src, i, 'b', 'B'))
    ensures e == i + 1
  {
    var a: nat :| PlainSplit(src, i, a, e);
    assert a == i + 1;
  }

  /** A number behind no prefix ends in a digit or an underscore, and one broken off does not. */
  lemma EndsOtherwise(src: Text, i: nat, e: nat)
    requires i < |src| && !BasedAt(src, i, e)
    ensures NumberAt(src, i, e) ==> 0 < e <= |src| && (IsDigit(src[e - 1]) || src[e - 1] == '_')
    ensures BrokenAt(src, i, e) ==> 0 < e <= |src| && !IsDigit(src[e - 1]) && src[e - 1] != '_'
  {
  }

  lemma NumberIsNotBroken(src: Text, i: nat, e: nat)
    requires i < |src| && NumberAt(src, i, e)
    ensures !BrokenAt(src, i, e)
  {
    if BasedAt(src, i, e) {
      forall b: nat | PlainAt(src, i, b)
        ensures b == i + 1
      {
        PlainIsOne(src, i, b);
      }
    } else {
      EndsOtherwise(src, i, e);
    }
  }

  /** What is read of a number is the longest text that is one, or is one broken off, and it is right exactly if it is one. */
  lemma NumberExactly(src: Text, i: nat)
    requires i < |src| && IsDigit(src[i])
    ensures var (e, good) := Numeral(src, i);
            && (good <==> NumberAt(src, i, e)) && (!good <==> BrokenAt(src, i, e))
            && forall more: nat :: NumberAt(src, i, more) || BrokenAt(src, i, more) ==> more <= e
  {
    hide Numeral, PlainAt;
    if IsPrefix(src, i, 'x', 'X') || IsPrefix(src, i, 'b', 'B') {
      BasedIsRead(src, i);
    } else {
      DecimalIsRead(src, i);
    }
    hide NumberAt, BrokenAt;
    if NumberAt(src, i, Numeral(src, i).0) {
      NumberIsNotBroken(src, i, Numeral(src, i).0);
    }
    forall more: nat | NumberAt(src, i, more) || BrokenAt(src, i, more)
      ensures more <= Numeral(src, i).0
    {
      if IsPrefix(src, i, 'x', 'X') || IsPrefix(src, i, 'b', 'B') {
        BasedIsLongest(src, i, more);
      } else {
        DecimalIsLongest(src, i, more);
      }
    }
  }

  // ---------------------------------------------------------------- the characters of a string

  function Power(n: nat): nat {
    if n == 0 then 1 else 16 * Power(n - 1)
  }

  /** What hex digits are worth, the first of them the most. */
  function Worth(s: Text): nat
    requires forall k :: 0 <= k < |s| ==> IsHexDigit(s[k])
  {
    if s == [] then 0 else HexValue(s[0]) * Power(|s| - 1) + Worth(s[1..])
  }

  /** A hex digit is worth its place among the sixteen. */
  lemma HexValueIs(c: char, n: nat)
    requires IsHexDigit(c) && n < 16
    ensures HexValue(c) == n <==> c == "0123456789abcdef"[n] || c == "0123456789ABCDEF"[n]
  {
  }

  lemma {:induction false} WorthSnoc(s: Text, c: char)
    requires IsHexDigit(c) && forall k :: 0 <= k < |s| ==> IsHexDigit(s[k])
    ensures Worth(s + [c]) == 16 * Worth(s) + HexValue(c)
  {
    hide HexValue, IsHexDigit;
    var all := s + [c];
    if s == [] {
      assert all[1..] == [];
      assert Worth(all) == HexValue(c) * Power(0) + Worth([]);
    } else {
      assert all[1..] == s[1..] + [c];
      WorthSnoc(s[1..], c);
      Shift(HexValue(s[0]), |s| - 1);
    }
  }

  lemma Shift(d: nat, n: nat)
    ensures d * Power(n + 1) == 16 * (d * Power(n))
  {
  }

  /** The code of an escape is what its digits are worth. */
  lemma {:induction false} CodeIsWorth(s: Text)
    requires forall k :: 0 <= k < |s| ==> IsHexDigit(s[k])
    ensures CodeOf(s) == Worth(s)
  {
    hide HexValue, IsHexDigit;
    if s != [] {
      var init := s[..|s| - 1];
      CodeIsWorth(init);
      WorthSnoc(init, s[|s| - 1]);
      assert init + [s[|s| - 1]] == s;
    }
  }

  /** Hex digits from `i` up to `q`, and none at `q`. */
  predicate HexRun(src: Text, i: nat, q: nat) {
    && i <= q <= |src| && (forall k :: i <= k < q ==> IsHexDigit(src[k]))
    && (q < |src| ==> !IsHexDigit(src[q]))
  }

  /** A Unicode scalar value. */
  predicate IsScalar(code: nat) {
    code < 0xD800 || 0xE000 <= code < 0x110000
  }

  predicate IsShort(c: char) {
    c in {'n', 'r', 't', '0', '\\', '"', '{', '}'}
  }

  /** The braces of a `\u` escape hold one to six hex digits, up to `q`. */
  predicate InBraces(src: Text, i: nat, q: nat) {
    i + 4 <= q <= i + 9 && Is(src, i + 2, '{') && HexRun(src, i + 3, q) && Is(src, q, '}')
  }

  /** A right escape: a backslash and one character, or a code in braces that is one of a character. */
  predicate RightEscape(src: Text, i: nat, e: nat) {
    && i + 2 <= e <= |src|
    && (|| (e == i + 2 && IsShort(src[i + 1]))
        || (src[i + 1] == 'u' && InBraces(src, i, e - 1) && IsScalar(Worth(src[i + 3..e - 1]))))
  }

  /** A wrong escape is passed up to `e`: two characters, or the hex digits and, behind a code of no character, the brace. */
  predicate WrongEscape(src: Text, i: nat, e: nat) {
    && i + 2 <= e <= |src| && !IsShort(src[i + 1])
    && if src[i + 1] != 'u' || !Is(src, i + 2, '{') then e == i + 2
       else if InBraces(src, i, e - 1) then !IsScalar(Worth(src[i + 3..e - 1]))
       else HexRun(src, i + 3, e) && !InBraces(src, i, e)
  }

  /** The error of a wrong escape: the escape, where it should be or where it is. */
  function EscapeError(src: Text, i: nat, e: nat): Span
    requires i + 2 <= e <= |src|
  {
    if src[i + 1] == 'u' then Between(src, i, e)
    else if IsControl(src[i + 1]) then Between(src, e, e)
    else Between(src, i, i)
  }

  predicate EscapeAt(src: Text, i: nat, e: nat, errs: seq<Span>) {
    (RightEscape(src, i, e) && errs == []) || (WrongEscape(src, i, e) && errs == [EscapeError(src, i, e)])
  }

  lemma HexRunIs(src: Text, i: nat)
    requires i <= |src|
    ensures HexRun(src, i, RunEnd(src, i, PlainHex()))
    ensures forall q: nat :: HexRun(src, i, q) ==> q == RunEnd(src, i, PlainHex())
  {
    hide RunEnd;
    RunEndIs(src, i, PlainHex());
    var r := RunEnd(src, i, PlainHex());
    forall q: nat | HexRun(src, i, q)
      ensures q == r
    {
      RunIsLongest(src, i, PlainHex(), q);
    }
  }

  lemma UniEscapeExactly(src: Text, i: nat, e: nat, errs: seq<Span>)
    requires i + 3 <= |src| && src[i + 1] == 'u' && src[i + 2] == '{'
    ensures UniEscape(src, i) == (e, errs) <==> EscapeAt(src, i, e, errs)
  {
    hide RunEnd, CodeOf, Worth, Off, IsHexDigit;
    HexRunIs(src, i + 3);
    var q := RunEnd(src, i + 3, PlainHex());
    RunEndIs(src, i + 3, PlainHex());
    CodeIsWorth(src[i + 3..q]);
  }

  /** An escape is read up to its end, and has an error, exactly as said. */
  lemma EscapeExactly(src: Text, i: nat, e: nat, errs: seq<Span>)
    requires i + 2 <= |src|
    ensures Escape(src, i) == (e, errs) <==> EscapeAt(src, i, e, errs)
  {
    hide RunEnd, CodeOf, Worth, Off;
    if src[i + 1] == 'u' && Is(src, i + 2, '{') {
      UniEscapeExactly(src, i, e, errs);
    }
  }

  // ---------------------------------------------------------------- strings

  /** The text of a string from `i` to `j`: characters and escapes, whose errors in order are `errs`. */
  ghost predicate Body(src: Text, i: nat, j: nat, errs: seq<Span>)
    decreases j - i
  {
    if i >= j then i == j <= |src| && errs == []
    else if j > |src| then false
    else if src[i] == '\\' then exists e: nat :: Escaped(src, i, e, j, errs)
    else src[i] != '"' && src[i] != '{' && Body(src, i + 1, j, errs)
  }

  ghost predicate Escaped(src: Text, i: nat, e: nat, j: nat, errs: seq<Span>)
    requires i < j
    decreases j - i, 0
  {
    && i + 2 <= e <= j
    && (|| (EscapeAt(src, i, e, []) && Body(src, e, j, errs))
        || (errs != [] && EscapeAt(src, i, e, errs[..1]) && Body(src, e, j, errs[1..])))
  }

  /** How a string that goes on at `i` ends. */
  ghost predicate EndsAs(src: Text, i: nat, s: Str) {
    match s
    case Closed(e, errs) => 0 < e && Body(src, i, e - 1, errs) && Is(src, e - 1, '"')
    case Brace(e, errs) => 0 < e && Body(src, i, e - 1, errs) && Is(src, e - 1, '{')
    case Unclosed(errs, inEscape) =>
      if inEscape then 0 < |src| && Body(src, i, |src| - 1, errs) && src[|src| - 1] == '\\'
      else Body(src, i, |src|, errs)
  }

  /** Text of a string is read on. */
  lemma {:induction false} BodyIsRead(src: Text, i: nat, j: nat, errs: seq<Span>)
    requires i <= j <= |src| && Body(src, i, j, errs)
    ensures StrScan(src, i) == WithErrs(errs, StrScan(src, j))
    decreases j - i
  {
    hide Escape, EscapeAt;
    if i < j {
      if src[i] == '\\' {
        var e: nat :| Escaped(src, i, e, j, errs);
        if EscapeAt(src, i, e, []) && Body(src, e, j, errs) {
          EscapeExactly(src, i, e, []);
          BodyIsRead(src, e, j, errs);
        } else {
          EscapeExactly(src, i, e, errs[..1]);
          BodyIsRead(src, e, j, errs[1..]);
          assert errs[..1] + errs[1..] == errs;
          ErrsAppend(errs[..1], errs[1..], StrScan(src, j));
        }
      } else {
        BodyIsRead(src, i + 1, j, errs);
      }
    } else {
      NoErrs(StrScan(src, j));
    }
  }

  lemma NoErrs(s: Str)
    ensures WithErrs([], s) == s
  {
    assert [] + s.errs == s.errs;
  }

  lemma ErrsAppend(a: seq<Span>, b: seq<Span>, s: Str)
    ensures WithErrs(a, WithErrs(b, s)) == WithErrs(a + b, s)
  {
    assert a + (b + s.errs) == a + b + s.errs;
  }

  lemma EscapeThenBody(src: Text, i: nat, j: nat, more: seq<Span>)
    requires i + 2 <= |src| && src[i] == '\\' && Body(src, Escape(src, i).0, j, more)
    ensures Body(src, i, j, Escape(src, i).1 + more)
  {
    var (e, errs) := Escape(src, i);
    EscapeIs(src, i);
    EscapeExactly(src, i, e, errs);
    hide Escape;
    BodyReaches(src, e, j, more);
    var all := errs + more;
    if errs == [] {
      assert all == more;
    } else {
      OneError(src, i, e, errs);
      assert all[..1] == errs && all[1..] == more;
    }
    hide EscapeAt;
    assert Escaped(src, i, e, j, all);
  }

  lemma OneError(src: Text, i: nat, e: nat, errs: seq<Span>)
    requires EscapeAt(src, i, e, errs) && errs != []
    ensures |errs| == 1
  {
  }

  lemma BodyReaches(src: Text, i: nat, j: nat, errs: seq<Span>)
    requires Body(src, i, j, errs)
    ensures i <= j <= |src|
  {
  }

  lemma {:induction false} StringEnds(src: Text, i: nat)
    requires i <= |src|
    ensures EndsAs(src, i, StrScan(src, i))
    decreases |src| - i
  {
    hide Escape, EscapeAt;
    if i < |src| {
      if src[i] == '\\' {
        if i + 1 < |src| {
          EscapeIs(src, i);
          var (e, errs) := Escape(src, i);
          StringEnds(src, e);
          hide Body;
          match StrScan(src, e)
          case Closed(end, more) => EscapeThenBody(src, i, end - 1, more);
          case Brace(end, more) => EscapeThenBody(src, i, end - 1, more);
          case Unclosed(more, inEscape) => EscapeThenBody(src, i, if inEscape then |src| - 1 else |src|, more);
        }
      } else if src[i] != '{' && src[i] != '"' {
        StringEnds(src, i + 1);
        match StrScan(src, i + 1)
        case Closed(end, more) => BodyReaches(src, i + 1, end - 1, more);
        case Brace(end, more) => BodyReaches(src, i + 1, end - 1, more);
        case Unclosed(more, inEscape) => BodyReaches(src, i + 1, if inEscape then |src| - 1 else |src|, more);
      }
    }
  }

  /** A string ends at its first quote or brace that no escape has, or not at all, with the errors of its escapes in order. */
  lemma StringExactly(src: Text, i: nat, s: Str)
    requires i <= |src|
    ensures StrScan(src, i) == s <==> EndsAs(src, i, s)
  {
    StringEnds(src, i);
    if EndsAs(src, i, s) {
      hide Body;
      var j := match s
        case Closed(e, _) => e - 1
        case Brace(e, _) => e - 1
        case Unclosed(_, inEscape) => if inEscape then |src| - 1 else |src|;
      BodyReaches(src, i, j, s.errs);
      BodyIsRead(src, i, j, s.errs);
      assert s.errs + [] == s.errs;
    }
  }
}
