/** The text of a file: byte offsets, characters and the runs of them that a lexer reads. */
module LexText {

  type Text = seq<char>

  /** What of Unicode and of number literals is given from outside. */
  datatype Env = Env(letter: char -> bool, fits: Text -> bool)

  // ---------------------------------------------------------------- offsets

  /** The bytes of a character in UTF-8. */
  function Width(c: char): nat {
    if c as int < 0x80 then 1 else if c as int < 0x800 then 2 else if c as int < 0x10000 then 3 else 4
  }

  /** The byte offset of the character `n`. */
  function Off(src: Text, n: nat): nat
    requires n <= |src|
  {
    if n == 0 then 0 else Off(src, n - 1) + Width(src[n - 1])
  }

  lemma {:induction false} OffGrows(src: Text, m: nat, n: nat)
    requires m <= n <= |src|
    ensures Off(src, m) <= Off(src, n) && (m < n ==> Off(src, m) < Off(src, n))
  {
    if m < n {
      OffGrows(src, m, n - 1);
    }
  }

  lemma {:induction false} OffOfPrefix(a: Text, t: Text, n: nat)
    requires a <= t && n <= |a|
    ensures Off(t, n) == Off(a, n)
  {
    if n > 0 {
      OffOfPrefix(a, t, n - 1);
    }
  }

  datatype Span = Span(start: nat, end: nat)

  function Between(src: Text, from: nat, to: nat): Span
    requires from <= |src| && to <= |src|
  {
    Span(Off(src, from), Off(src, to))
  }

  // ---------------------------------------------------------------- characters

  predicate Is(src: Text, i: nat, c: char) {
    i < |src| && src[i] == c
  }

  predicate IsDigit(c: char) { '0' <= c <= '9' }
  predicate IsLetter(c: char) { 'a' <= c <= 'z' || 'A' <= c <= 'Z' || c == '_' }
  predicate IsHexDigit(c: char) { IsDigit(c) || 'a' <= c <= 'f' || 'A' <= c <= 'F' }
  predicate IsControl(c: char) { c < ' ' || 0x7F <= c as int <= 0x9F }
  predicate IsBlank(c: char) { c == ' ' || c == '\t' || c == '\r' || c == '\n' }

  /** A letter or a digit, of ASCII or beyond. */
  predicate IsAlnum(env: Env, c: char) {
    IsDigit(c) || (IsLetter(c) && c != '_') || (c as int >= 0x80 && env.letter(c))
  }

  predicate IsCurly(c: char) { c == '\U{201C}' || c == '\U{201D}' || c == '\U{2018}' || c == '\U{2019}' }
  predicate IsQuote(c: char) { c == '\'' || c == '`' || IsCurly(c) }

  /** A character that begins no token and belongs to none. */
  predicate IsStray(env: Env, c: char) {
    if IsBlank(c) then false
    else if c == '@' || c == '$' || c == '~' || c == '\\' then true
    else if c as int < 0x80 then IsControl(c)
    else if IsCurly(c) then false
    else !IsAlnum(env, c)
  }

  // ---------------------------------------------------------------- runs

  /** Where the run of characters that `p` has ends, from `i` on. */
  function RunEnd(src: Text, i: nat, p: char -> bool): nat
    decreases |src| - i
  {
    if i < |src| && p(src[i]) then RunEnd(src, i + 1, p) else i
  }

  lemma {:induction false} RunEndIs(src: Text, i: nat, p: char -> bool)
    requires i <= |src|
    ensures i <= RunEnd(src, i, p) <= |src|
    ensures RunEnd(src, i, p) < |src| ==> !p(src[RunEnd(src, i, p)])
    ensures forall k :: i <= k < RunEnd(src, i, p) ==> p(src[k])
    decreases |src| - i
  {
    if i < |src| && p(src[i]) {
      RunEndIs(src, i + 1, p);
    }
  }

  function NameChar(): char -> bool { c => IsLetter(c) || IsDigit(c) }
  function DigitChar(): char -> bool { c => IsDigit(c) || c == '_' }
  function HexChar(): char -> bool { c => IsHexDigit(c) || c == '_' }
  function BinChar(): char -> bool { c => c == '0' || c == '1' || c == '_' }
  function PlainHex(): char -> bool { c => IsHexDigit(c) }
  function SemiChar(): char -> bool { c => c == ';' }
  function BlankChar(): char -> bool { c => IsBlank(c) }
  function LineChar(): char -> bool { c => c != '\n' }
  function WordChar(env: Env): char -> bool { c => IsAlnum(env, c) || c == '_' }
  function StrayChar(env: Env): char -> bool { c => IsStray(env, c) }

  // ---------------------------------------------------------------- a text that goes on with a line

  /** `t` is `a`, a line end, and more. */
  ghost predicate GoesOn(a: Text, t: Text) {
    a <= t && Is(t, |a|, '\n')
  }

  /** A run that a line end ends is the same in a text that goes on. */
  lemma {:induction false} RunEndStays(a: Text, t: Text, i: nat, p: char -> bool)
    requires GoesOn(a, t) && i <= |a| && (!p('\n') || RunEnd(a, i, p) < |a|)
    ensures RunEnd(t, i, p) == RunEnd(a, i, p)
    decreases |a| - i
  {
    if i < |a| && p(a[i]) {
      RunEndStays(a, t, i + 1, p);
    }
  }
}
