/** What the lexer reads at one place: strings, comments, numbers and operators, as functions of the text. */
module LexScan {
  import opened Basics
  import opened LexText

  datatype Token =
    | Eof | Error
    | LParen | RParen | LBracket | RBracket | LBrace | RBrace | HashBrace | HashBracket
    | StringStart | StringMiddle | StringEnd | StringLit
    | Number | Word(name: Text) | Op(text: Text)

  // ---------------------------------------------------------------- strings

  /** How reading a string ends: at its quote, at the `{` of an interpolation, or with the text; and the wrong escapes in it. */
  datatype Str = Closed(end: nat, errs: seq<Span>) | Brace(end: nat, errs: seq<Span>) | Unclosed(errs: seq<Span>, inEscape: bool)

  function HexValue(c: char): nat
    requires IsHexDigit(c)
  {
    if IsDigit(c) then c as int - '0' as int
    else if 'a' <= c <= 'f' then c as int - 'a' as int + 10
    else c as int - 'A' as int + 10
  }

  function CodeOf(s: Text): nat
    requires forall k :: 0 <= k < |s| ==> IsHexDigit(s[k])
  {
    if s == [] then 0 else 16 * CodeOf(s[..|s| - 1]) + HexValue(s[|s| - 1])
  }

  /** No code of a character: a surrogate, or beyond the last. */
  predicate NoCharacter(code: nat) {
    0xD800 <= code <= 0xDFFF || code > 0x10FFFF
  }

  /** The `\u` escape whose backslash is at `i`: where it ends, and what is wrong with it. */
  function UniEscape(src: Text, i: nat): (nat, seq<Span>)
    requires i + 2 <= |src|
  {
    if !Is(src, i + 2, '{') then (i + 2, [Between(src, i, i + 2)])
    else
      RunEndIs(src, i + 3, PlainHex());
      var q := RunEnd(src, i + 3, PlainHex());
      var n := q - (i + 3);
      if n == 0 || n > 6 || !Is(src, q, '}') then (q, [Between(src, i, q)])
      else if NoCharacter(CodeOf(src[i + 3..q])) then (q + 1, [Between(src, i, q + 1)])
      else (q + 1, [])
  }

  predicate IsEscape(c: char) {
    c == 'n' || c == 'r' || c == 't' || c == '0' || c == '\\' || c == '"' || c == '{' || c == '}'
  }

  /** The escape whose backslash is at `i`. */
  function Escape(src: Text, i: nat): (nat, seq<Span>)
    requires i + 2 <= |src|
  {
    var c := src[i + 1];
    if IsEscape(c) then (i + 2, [])
    else if c == 'u' then UniEscape(src, i)
    else if IsControl(c) then (i + 2, [Between(src, i + 2, i + 2)])
    else (i + 2, [Between(src, i, i)])
  }

  lemma EscapeIs(src: Text, i: nat)
    requires i + 2 <= |src|
    ensures i + 2 <= Escape(src, i).0 <= |src|
  {
    if Is(src, i + 2, '{') {
      RunEndIs(src, i + 3, PlainHex());
    }
  }

  function WithErrs(errs: seq<Span>, s: Str): Str {
    match s
    case Closed(end, more) => Closed(end, errs + more)
    case Brace(end, more) => Brace(end, errs + more)
    case Unclosed(more, inEscape) => Unclosed(errs + more, inEscape)
  }

  /** The string whose text goes on at `i`. */
  function StrScan(src: Text, i: nat): Str
    requires i <= |src|
    decreases |src| - i
  {
    if i == |src| then Unclosed([], false)
    else if src[i] == '\\' then
      if i + 1 == |src| then Unclosed([], true)
      else
        EscapeIs(src, i);
        WithErrs(Escape(src, i).1, StrScan(src, Escape(src, i).0))
    else if src[i] == '{' then Brace(i + 1, [])
    else if src[i] == '"' then Closed(i + 1, [])
    else StrScan(src, i + 1)
  }

  ghost predicate SpansWithin(spans: seq<Span>, end: nat) {
    forall k :: 0 <= k < |spans| ==> spans[k].start <= spans[k].end <= end
  }

  lemma EscapeErrs(src: Text, i: nat)
    requires i + 2 <= |src|
    ensures SpansWithin(Escape(src, i).1, Off(src, |src|))
  {
    EscapeIs(src, i);
    OffGrows(src, i, i + 2);
    OffGrows(src, i + 2, |src|);
    if Is(src, i + 2, '{') {
      RunEndIs(src, i + 3, PlainHex());
      var q := RunEnd(src, i + 3, PlainHex());
      OffGrows(src, i, q);
      OffGrows(src, q, |src|);
      if q < |src| {
        OffGrows(src, i, q + 1);
        OffGrows(src, q + 1, |src|);
      }
    }
  }

  /** A string that ends ends behind where it was read from, and its errors lie in the text. */
  lemma {:induction false} StrScanIs(src: Text, i: nat)
    requires i <= |src|
    ensures !StrScan(src, i).Unclosed? ==> i < StrScan(src, i).end <= |src|
    ensures SpansWithin(StrScan(src, i).errs, Off(src, |src|))
    decreases |src| - i
  {
    if i < |src| {
      if src[i] == '\\' {
        if i + 1 < |src| {
          EscapeIs(src, i);
          EscapeErrs(src, i);
          hide Escape, Off;
          StrScanIs(src, Escape(src, i).0);
        }
      } else if src[i] != '{' && src[i] != '"' {
        StrScanIs(src, i + 1);
      }
    }
  }

  /** Where a run of quotes has its last three. */
  function LastThree(src: Text, i: nat): nat
    decreases |src| - i
  {
    if Is(src, i + 3, '"') then LastThree(src, i + 1) else i
  }

  predicate ThreeQuotes(src: Text, i: nat) {
    Is(src, i, '"') && Is(src, i + 1, '"') && Is(src, i + 2, '"')
  }

  /** Where the raw string whose text goes on at `i` ends: behind the last three of a run of quotes. */
  function TripleEnd(src: Text, i: nat): Option<nat>
    decreases |src| - i
  {
    if i >= |src| then None
    else if ThreeQuotes(src, i) then Some(LastThree(src, i) + 3)
    else TripleEnd(src, i + 1)
  }

  lemma {:induction false} LastThreeIs(src: Text, i: nat)
    requires i + 3 <= |src|
    ensures i <= LastThree(src, i) && LastThree(src, i) + 3 <= |src|
    decreases |src| - i
  {
    if Is(src, i + 3, '"') {
      LastThreeIs(src, i + 1);
    }
  }

  lemma {:induction false} TripleEndIs(src: Text, i: nat)
    ensures TripleEnd(src, i).Some? ==> i < TripleEnd(src, i).value <= |src|
    decreases |src| - i
  {
    if i < |src| {
      if ThreeQuotes(src, i) {
        LastThreeIs(src, i);
      } else {
        TripleEndIs(src, i + 1);
      }
    }
  }

  // ---------------------------------------------------------------- comments

  /** Where the block comment, open `depth` times at `i`, ends. */
  function BlockEnd(src: Text, i: nat, depth: nat): Option<nat>
    decreases |src| - i
  {
    if depth == 0 then Some(i)
    else if i >= |src| then None
    else if src[i] == '{' && Is(src, i + 1, '-') then BlockEnd(src, i + 2, depth + 1)
    else if src[i] == '-' && Is(src, i + 1, '}') then BlockEnd(src, i + 2, depth - 1)
    else BlockEnd(src, i + 1, depth)
  }

  lemma {:induction false} BlockEndIs(src: Text, i: nat, depth: nat)
    requires i <= |src|
    ensures BlockEnd(src, i, depth).Some? ==> i <= BlockEnd(src, i, depth).value <= |src|
    decreases |src| - i
  {
    if depth > 0 && i < |src| {
      if src[i] == '{' && Is(src, i + 1, '-') {
        BlockEndIs(src, i + 2, depth + 1);
      } else if src[i] == '-' && Is(src, i + 1, '}') {
        BlockEndIs(src, i + 2, depth - 1);
      } else {
        BlockEndIs(src, i + 1, depth);
      }
    }
  }

  // ---------------------------------------------------------------- numbers

  predicate SomeDigit(s: Text) {
    exists k :: 0 <= k < |s| && s[k] != '_'
  }

  /** A number behind a prefix of two characters, of digits of `p`. */
  function Prefixed(src: Text, i: nat, p: char -> bool): (nat, bool)
    requires i + 2 <= |src|
  {
    RunEndIs(src, i + 2, p);
    var end := RunEnd(src, i + 2, p);
    (end, SomeDigit(src[i + 2..end]))
  }

  /** The digits of a fraction behind `i`, if there are some. */
  function FractionEnd(src: Text, i: nat): nat {
    if Is(src, i, '.') && i + 1 < |src| && IsDigit(src[i + 1]) then RunEnd(src, i + 1, DigitChar()) else i
  }

  /** An exponent at `i`, if there is one, and whether it has digits. */
  function Exponent(src: Text, i: nat): (nat, bool) {
    if Is(src, i, 'e') || Is(src, i, 'E') then
      var s := if Is(src, i + 1, '+') || Is(src, i + 1, '-') then i + 2 else i + 1;
      if s < |src| && IsDigit(src[s]) then (RunEnd(src, s, DigitChar()), true) else (s, false)
    else (i, true)
  }

  /** The number whose first digit is at `i`: where it ends, and whether it is written right. */
  function Numeral(src: Text, i: nat): (nat, bool)
    requires i < |src|
  {
    if src[i] == '0' && (Is(src, i + 1, 'x') || Is(src, i + 1, 'X')) then Prefixed(src, i, HexChar())
    else if src[i] == '0' && (Is(src, i + 1, 'b') || Is(src, i + 1, 'B')) then Prefixed(src, i, BinChar())
    else Exponent(src, FractionEnd(src, RunEnd(src, i + 1, DigitChar())))
  }

  lemma FractionEndIs(src: Text, i: nat)
    requires i <= |src|
    ensures i <= FractionEnd(src, i) <= |src|
  {
    if i + 1 <= |src| {
      RunEndIs(src, i + 1, DigitChar());
    }
  }

  lemma ExponentIs(src: Text, i: nat)
    requires i <= |src|
    ensures i <= Exponent(src, i).0 <= |src|
  {
    if i + 1 < |src| {
      RunEndIs(src, i + 1, DigitChar());
      RunEndIs(src, i + 2, DigitChar());
    }
  }

  lemma PrefixedIs(src: Text, i: nat, p: char -> bool)
    requires i + 2 <= |src|
    ensures i < Prefixed(src, i, p).0 <= |src|
  {
    RunEndIs(src, i + 2, p);
  }

  lemma NumeralIs(src: Text, i: nat)
    requires i < |src|
    ensures i < Numeral(src, i).0 <= |src|
  {
    if i + 2 <= |src| {
      PrefixedIs(src, i, HexChar());
      PrefixedIs(src, i, BinChar());
    }
    RunEndIs(src, i + 1, DigitChar());
    FractionEndIs(src, RunEnd(src, i + 1, DigitChar()));
    ExponentIs(src, FractionEnd(src, RunEnd(src, i + 1, DigitChar())));
    hide Exponent, FractionEnd, RunEnd, Prefixed;
  }

  // ---------------------------------------------------------------- quotation marks and operators

  predicate IsPartner(mark: char, c: char) {
    if mark == '\'' || mark == '`' then c == mark else IsCurly(c)
  }

  /** Where the partner of a quotation mark is on its line. */
  function Partner(src: Text, i: nat, mark: char): Option<nat>
    decreases |src| - i
  {
    if i >= |src| || src[i] == '\n' then None
    else if IsPartner(mark, src[i]) then Some(i)
    else Partner(src, i + 1, mark)
  }

  lemma {:induction false} PartnerIs(src: Text, i: nat, mark: char)
    ensures Partner(src, i, mark).Some? ==> i <= Partner(src, i, mark).value < |src|
    decreases |src| - i
  {
    if i < |src| && src[i] != '\n' && !IsPartner(mark, src[i]) {
      PartnerIs(src, i + 1, mark);
    }
  }

  /** One operator of the characters at `i`, the longest that is one. */
  function Longest(src: Text, i: nat, second: char): (Token, nat)
    requires i < |src|
  {
    if Is(src, i + 1, second) then (Op(src[i..i + 2]), 2) else (Op(src[i..i + 1]), 1)
  }

  /** The delimiter or operator at `i`, and its length; braces are not among them. */
  function Punct(src: Text, i: nat): Option<(Token, nat)>
    requires i < |src|
  {
    match src[i]
    case '(' => Some((LParen, 1))
    case ')' => Some((RParen, 1))
    case '[' => Some((LBracket, 1))
    case ']' => Some((RBracket, 1))
    case '#' => if Is(src, i + 1, '[') then Some((HashBracket, 2)) else None
    case '+' => Some((Op(src[i..i + 1]), 1))
    case '*' => Some((Op(src[i..i + 1]), 1))
    case '%' => Some((Op(src[i..i + 1]), 1))
    case '?' => Some((Op(src[i..i + 1]), 1))
    case '^' => Some((Op(src[i..i + 1]), 1))
    case ',' => Some((Op(src[i..i + 1]), 1))
    case '/' => Some((Op(src[i..i + 1]), 1))
    case ':' => Some(Longest(src, i, ':'))
    case '-' => Some(Longest(src, i, '>'))
    case '=' => Some(Longest(src, i, '='))
    case '!' => Some(Longest(src, i, '='))
    case '<' => Some(Longest(src, i, '='))
    case '>' => Some(Longest(src, i, '='))
    case '|' => if Is(src, i + 1, '>') then Some((Op(src[i..i + 2]), 2)) else Some(Longest(src, i, '|'))
    case '&' => if Is(src, i + 1, '&') then Some((Op(src[i..i + 2]), 2)) else None
    case '.' =>
      if Is(src, i + 1, '.') && Is(src, i + 2, '.') then Some((Op(src[i..i + 3]), 3)) else Some(Longest(src, i, '.'))
    case _ => None
  }

  lemma PunctIs(src: Text, i: nat)
    requires i < |src| && Punct(src, i).Some?
    ensures 0 < Punct(src, i).value.1 && i + Punct(src, i).value.1 <= |src|
    ensures !IsBlank(src[i])
    ensures Punct(src, i).value.0 !in {Eof, Error, StringStart, StringMiddle, StringEnd, LBrace, RBrace, HashBrace}
  {
  }

  // ---------------------------------------------------------------- in a text that goes on with a line

  lemma IsStays(a: Text, t: Text, i: nat, c: char)
    requires GoesOn(a, t) && i <= |a| && c != '\n'
    ensures Is(t, i, c) == Is(a, i, c)
  {
  }

  lemma UniEscapeStays(a: Text, t: Text, i: nat)
    requires GoesOn(a, t) && i + 2 <= |a|
    ensures UniEscape(t, i) == UniEscape(a, i)
  {
    OffOfPrefix(a, t, i);
    OffOfPrefix(a, t, i + 2);
    if Is(a, i + 2, '{') {
      RunEndIs(a, i + 3, PlainHex());
      RunEndStays(a, t, i + 3, PlainHex());
      var q := RunEnd(a, i + 3, PlainHex());
      OffOfPrefix(a, t, q);
      IsStays(a, t, q, '}');
      if q < |a| {
        OffOfPrefix(a, t, q + 1);
      }
      assert t[i + 3..q] == a[i + 3..q];
      hide CodeOf, Off, RunEnd;
    }
  }

  lemma EscapeStays(a: Text, t: Text, i: nat)
    requires GoesOn(a, t) && i + 2 <= |a|
    ensures Escape(t, i) == Escape(a, i)
  {
    UniEscapeStays(a, t, i);
    OffOfPrefix(a, t, i);
    OffOfPrefix(a, t, i + 2);
    hide UniEscape, Off;
  }

  /** A string that is closed is the same in a text that goes on. */
  lemma {:induction false} StrScanStays(a: Text, t: Text, i: nat)
    requires GoesOn(a, t) && i <= |a| && !StrScan(a, i).Unclosed?
    ensures StrScan(t, i) == StrScan(a, i)
    decreases |a| - i
  {
    hide Escape;
    if a[i] == '\\' {
      EscapeIs(a, i);
      EscapeStays(a, t, i);
      StrScanStays(a, t, Escape(a, i).0);
    } else if a[i] != '{' && a[i] != '"' {
      StrScanStays(a, t, i + 1);
    }
  }

  lemma {:induction false} LastThreeStays(a: Text, t: Text, i: nat)
    requires GoesOn(a, t) && i + 3 <= |a|
    ensures LastThree(t, i) == LastThree(a, i)
    decreases |a| - i
  {
    if Is(a, i + 3, '"') {
      LastThreeStays(a, t, i + 1);
    }
  }

  lemma {:induction false} TripleEndStays(a: Text, t: Text, i: nat)
    requires GoesOn(a, t) && TripleEnd(a, i).Some?
    ensures TripleEnd(t, i) == TripleEnd(a, i)
    decreases |a| - i
  {
    if ThreeQuotes(a, i) {
      LastThreeStays(a, t, i);
    } else {
      TripleEndStays(a, t, i + 1);
    }
  }

  lemma {:induction false} BlockEndStays(a: Text, t: Text, i: nat, depth: nat)
    requires GoesOn(a, t) && i <= |a| && BlockEnd(a, i, depth).Some?
    ensures BlockEnd(t, i, depth) == BlockEnd(a, i, depth)
    decreases |a| - i
  {
    if depth > 0 {
      if a[i] == '{' && Is(a, i + 1, '-') {
        BlockEndStays(a, t, i + 2, depth + 1);
      } else if a[i] == '-' && Is(a, i + 1, '}') {
        BlockEndStays(a, t, i + 2, depth - 1);
      } else {
        BlockEndStays(a, t, i + 1, depth);
      }
    }
  }

  lemma PrefixedStays(a: Text, t: Text, i: nat, p: char -> bool)
    requires GoesOn(a, t) && i + 2 <= |a| && !p('\n')
    ensures Prefixed(t, i, p) == Prefixed(a, i, p)
  {
    RunEndIs(a, i + 2, p);
    RunEndStays(a, t, i + 2, p);
    var end := RunEnd(a, i + 2, p);
    assert t[i + 2..end] == a[i + 2..end];
  }

  lemma FractionEndStays(a: Text, t: Text, i: nat)
    requires GoesOn(a, t) && i <= |a|
    ensures FractionEnd(t, i) == FractionEnd(a, i)
  {
    if i < |a| {
      RunEndStays(a, t, i + 1, DigitChar());
    }
  }

  lemma ExponentStays(a: Text, t: Text, i: nat)
    requires GoesOn(a, t) && i <= |a|
    ensures Exponent(t, i) == Exponent(a, i)
  {
    if i < |a| {
      RunEndStays(a, t, i + 1, DigitChar());
      if i + 1 < |a| {
        RunEndStays(a, t, i + 2, DigitChar());
      }
    }
  }

  lemma NumeralStays(a: Text, t: Text, i: nat)
    requires GoesOn(a, t) && i < |a|
    ensures Numeral(t, i) == Numeral(a, i)
  {
    hide Exponent, FractionEnd, RunEnd, Prefixed;
    IsStays(a, t, i + 1, 'x');
    IsStays(a, t, i + 1, 'X');
    IsStays(a, t, i + 1, 'b');
    IsStays(a, t, i + 1, 'B');
    if i + 2 <= |a| {
      PrefixedStays(a, t, i, HexChar());
      PrefixedStays(a, t, i, BinChar());
    }
    RunEndIs(a, i + 1, DigitChar());
    RunEndStays(a, t, i + 1, DigitChar());
    var e := RunEnd(a, i + 1, DigitChar());
    FractionEndIs(a, e);
    FractionEndStays(a, t, e);
    ExponentStays(a, t, FractionEnd(a, e));
  }

  lemma {:induction false} PartnerStays(a: Text, t: Text, i: nat, mark: char)
    requires GoesOn(a, t) && i <= |a|
    ensures Partner(t, i, mark) == Partner(a, i, mark)
    decreases |a| - i
  {
    if i < |a| && a[i] != '\n' && !IsPartner(mark, a[i]) {
      PartnerStays(a, t, i + 1, mark);
    }
  }

  lemma PunctStays(a: Text, t: Text, i: nat)
    requires GoesOn(a, t) && i < |a|
    ensures Punct(t, i) == Punct(a, i)
  {
    assert t[i..i + 1] == a[i..i + 1];
    assert i + 2 <= |a| ==> t[i..i + 2] == a[i..i + 2];
    assert i + 3 <= |a| ==> t[i..i + 3] == a[i..i + 3];
  }
}
