/** What the lexer reads at a place depends on the text from there on, wherever that text stands. */
module LexShift {
  import opened Basics
  import opened LexText
  import opened LexScan
  import opened LexSpec

  /** `l` is the text `t` from `d` on. */
  ghost predicate Tail(t: Text, l: Text, d: nat) {
    d <= |t| && t[d..] == l
  }

  lemma TailAt(t: Text, l: Text, d: nat, i: nat)
    requires Tail(t, l, d)
    ensures |t| == d + |l| && (i < |l| ==> t[d + i] == l[i])
  {
    if i < |l| {
      assert t[d..][i] == t[d + i];
    }
  }

  lemma IsShift(t: Text, l: Text, d: nat, i: nat, c: char)
    requires Tail(t, l, d)
    ensures Is(t, d + i, c) == Is(l, i, c)
  {
    TailAt(t, l, d, i);
  }

  lemma SliceShift(t: Text, l: Text, d: nat, i: nat, j: nat)
    requires Tail(t, l, d) && i <= j <= |l|
    ensures |t| == d + |l| && t[d + i..d + j] == l[i..j]
  {
    TailAt(t, l, d, i);
    assert t[d..][i..j] == t[d + i..d + j];
  }

  lemma {:induction false} RunEndShift(t: Text, l: Text, d: nat, i: nat, p: char -> bool)
    requires Tail(t, l, d)
    ensures RunEnd(t, d + i, p) == d + RunEnd(l, i, p)
    decreases |l| - i
  {
    TailAt(t, l, d, i);
    if i < |l| && p(l[i]) {
      RunEndShift(t, l, d, i + 1, p);
    }
  }

  lemma {:induction false} PartnerShift(t: Text, l: Text, d: nat, i: nat, mark: char)
    requires Tail(t, l, d)
    ensures match Partner(l, i, mark) case Some(p) => Partner(t, d + i, mark) == Some(d + p) case None => Partner(t, d + i, mark).None?
    decreases |l| - i
  {
    TailAt(t, l, d, i);
    if i < |l| && l[i] != '\n' && !IsPartner(mark, l[i]) {
      PartnerShift(t, l, d, i + 1, mark);
    }
  }

  lemma PrefixedShift(t: Text, l: Text, d: nat, i: nat, p: char -> bool)
    requires Tail(t, l, d) && i + 2 <= |l|
    ensures d + i + 2 <= |t| && Prefixed(t, d + i, p) == (d + Prefixed(l, i, p).0, Prefixed(l, i, p).1)
  {
    TailAt(t, l, d, i);
    RunEndIs(l, i + 2, p);
    RunEndShift(t, l, d, i + 2, p);
    SliceShift(t, l, d, i + 2, RunEnd(l, i + 2, p));
  }

  lemma FractionEndShift(t: Text, l: Text, d: nat, i: nat)
    requires Tail(t, l, d)
    ensures FractionEnd(t, d + i) == d + FractionEnd(l, i)
  {
    IsShift(t, l, d, i, '.');
    TailAt(t, l, d, i + 1);
    RunEndShift(t, l, d, i + 1, DigitChar());
  }

  lemma ExponentShift(t: Text, l: Text, d: nat, i: nat)
    requires Tail(t, l, d)
    ensures Exponent(t, d + i) == (d + Exponent(l, i).0, Exponent(l, i).1)
  {
    IsShift(t, l, d, i, 'e');
    IsShift(t, l, d, i, 'E');
    IsShift(t, l, d, i + 1, '+');
    IsShift(t, l, d, i + 1, '-');
    TailAt(t, l, d, i + 1);
    TailAt(t, l, d, i + 2);
    RunEndShift(t, l, d, i + 1, DigitChar());
    RunEndShift(t, l, d, i + 2, DigitChar());
    hide RunEnd;
  }

  lemma NumeralShift(t: Text, l: Text, d: nat, i: nat)
    requires Tail(t, l, d) && i < |l|
    ensures d + i < |t| && Numeral(t, d + i) == (d + Numeral(l, i).0, Numeral(l, i).1)
  {
    hide Exponent, FractionEnd, RunEnd, Prefixed;
    TailAt(t, l, d, i);
    IsShift(t, l, d, i + 1, 'x');
    IsShift(t, l, d, i + 1, 'X');
    IsShift(t, l, d, i + 1, 'b');
    IsShift(t, l, d, i + 1, 'B');
    if i + 2 <= |l| {
      PrefixedShift(t, l, d, i, HexChar());
      PrefixedShift(t, l, d, i, BinChar());
    }
    RunEndShift(t, l, d, i + 1, DigitChar());
    FractionEndShift(t, l, d, RunEnd(l, i + 1, DigitChar()));
    ExponentShift(t, l, d, FractionEnd(l, RunEnd(l, i + 1, DigitChar())));
  }

  lemma PunctShift(t: Text, l: Text, d: nat, i: nat)
    requires Tail(t, l, d) && i < |l|
    ensures d + i < |t| && Punct(t, d + i) == Punct(l, i)
  {
    TailAt(t, l, d, i);
    TailAt(t, l, d, i + 1);
    TailAt(t, l, d, i + 2);
    SliceShift(t, l, d, i, i + 1);
    if i + 2 <= |l| {
      SliceShift(t, l, d, i, i + 2);
    }
    if i + 3 <= |l| {
      SliceShift(t, l, d, i, i + 3);
    }
  }

  /** No word reaches over the beginning of the tail. */
  ghost predicate CleanCut(env: Env, t: Text, d: nat) {
    0 < d <= |t| && !(IsAlnum(env, t[d - 1]) || t[d - 1] == '_')
  }

  lemma {:induction false} WordBeginShift(env: Env, t: Text, l: Text, d: nat, i: nat)
    requires Tail(t, l, d) && CleanCut(env, t, d) && i <= |l|
    ensures d + i <= |t| && WordBegin(env, t, d + i) == d + WordBegin(env, l, i)
  {
    hide IsAlnum;
    TailAt(t, l, d, i);
    if i > 0 {
      TailAt(t, l, d, i - 1);
      WordBeginShift(env, t, l, d, i - 1);
    }
  }

  lemma StrayEndShift(env: Env, t: Text, l: Text, d: nat, i: nat)
    requires Tail(t, l, d) && i < |l|
    ensures d + i < |t| && StrayEnd(env, t, d + i) == d + StrayEnd(env, l, i)
  {
    TailAt(t, l, d, i);
    RunEndShift(t, l, d, i + 1, WordChar(env));
    RunEndShift(t, l, d, i + 1, StrayChar(env));
    PartnerShift(t, l, d, i + 1, l[i]);
    hide RunEnd, Partner, IsAlnum, IsQuote;
  }

  lemma UniEscapeShift(t: Text, l: Text, d: nat, i: nat)
    requires Tail(t, l, d) && i + 2 <= |l|
    ensures d + i + 2 <= |t| && UniEscape(t, d + i).0 == d + UniEscape(l, i).0 && |UniEscape(t, d + i).1| == |UniEscape(l, i).1|
  {
    TailAt(t, l, d, i);
    IsShift(t, l, d, i + 2, '{');
    if Is(l, i + 2, '{') {
      RunEndIs(l, i + 3, PlainHex());
      RunEndShift(t, l, d, i + 3, PlainHex());
      var q := RunEnd(l, i + 3, PlainHex());
      IsShift(t, l, d, q, '}');
      SliceShift(t, l, d, i + 3, q);
    }
    hide CodeOf, Off, RunEnd;
  }

  lemma EscapeShift(t: Text, l: Text, d: nat, i: nat)
    requires Tail(t, l, d) && i + 2 <= |l|
    ensures d + i + 2 <= |t| && Escape(t, d + i).0 == d + Escape(l, i).0 && |Escape(t, d + i).1| == |Escape(l, i).1|
  {
    TailAt(t, l, d, i + 1);
    UniEscapeShift(t, l, d, i);
    hide UniEscape, Off;
  }

  /** The same string, read `d` characters further on. */
  ghost predicate SameStr(far: Str, near: Str, d: nat) {
    && |far.errs| == |near.errs|
    && match near
       case Closed(end, _) => far.Closed? && far.end == d + end
       case Brace(end, _) => far.Brace? && far.end == d + end
       case Unclosed(_, inEscape) => far.Unclosed? && far.inEscape == inEscape
  }

  lemma {:induction false} StrScanShift(t: Text, l: Text, d: nat, i: nat)
    requires Tail(t, l, d) && i <= |l|
    ensures d + i <= |t| && SameStr(StrScan(t, d + i), StrScan(l, i), d)
    decreases |l| - i
  {
    TailAt(t, l, d, i);
    if i < |l| {
      if l[i] == '\\' {
        if i + 1 < |l| {
          EscapeIs(l, i);
          EscapeIs(t, d + i);
          EscapeShift(t, l, d, i);
          hide Escape;
          StrScanShift(t, l, d, Escape(l, i).0);
        }
      } else if l[i] != '{' && l[i] != '"' {
        StrScanShift(t, l, d, i + 1);
      }
    }
  }
}
