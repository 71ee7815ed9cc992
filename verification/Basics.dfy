/** What several components need: a value that may be missing, powers, and the part of a sequence before an element. */
module Basics {

  datatype Option<T> = None | Some(value: T)

  function Pow(b: nat, e: nat): nat {
    if e == 0 then 1 else b * Pow(b, e - 1)
  }

  /** What comes before the first `x`. */
  function UpTo<T(==)>(s: seq<T>, x: T): seq<T> {
    if s == [] || s[0] == x then [] else [s[0]] + UpTo(s[1..], x)
  }

  lemma {:induction false} UpToIs<T>(s: seq<T>, x: T)
    ensures UpTo(s, x) <= s && x !in UpTo(s, x)
    ensures |UpTo(s, x)| < |s| ==> s[|UpTo(s, x)|] == x
    ensures x in s ==> |UpTo(s, x)| < |s|
  {
    if s != [] && s[0] != x {
      UpToIs(s[1..], x);
    }
  }

  lemma {:induction false} UpToLonger<T>(s: seq<T>, more: seq<T>, x: T)
    ensures x in s ==> UpTo(s + more, x) == UpTo(s, x)
    ensures UpTo(s, x) <= UpTo(s + more, x)
  {
    if s != [] {
      assert (s + more)[1..] == s[1..] + more;
      if s[0] != x {
        UpToLonger(s[1..], more, x);
      }
    }
  }

  lemma {:induction false} UpToOf<T>(s: seq<T>, t: seq<T>, x: T)
    requires x !in s && (t == [] || t[0] == x)
    ensures UpTo(s + t, x) == s
  {
    if s != [] {
      assert (s + t)[1..] == s[1..] + t;
      UpToOf(s[1..], t, x);
    }
  }

  /** A number beyond all of these. */
  lemma {:induction false} BeyondAll(used: set<nat>) returns (n: nat)
    ensures n !in used && forall u :: u in used ==> u < n
    decreases used
  {
    if used == {} {
      n := 0;
    } else {
      var u :| u in used;
      var m := BeyondAll(used - {u});
      n := if m <= u then u + 1 else m;
      assert used == used - {u} + {u};
    }
  }

  // ---------------------------------------------------------------- what is around a text

  /** `text` is `value` without the elements of `p` at its ends. */
  ghost predicate Around<T>(value: seq<T>, text: seq<T>, p: T -> bool) {
    exists i: nat :: Stands(value, text, i, p)
  }

  /** From `i` on `text` stands in `value`, it begins and ends with none of `p`, and around it there are only those. */
  ghost predicate Stands<T>(value: seq<T>, text: seq<T>, i: nat, p: T -> bool) {
    && i + |text| <= |value| && value[i..i + |text|] == text
    && (forall k :: 0 <= k < i ==> p(value[k])) && (forall k :: i + |text| <= k < |value| ==> p(value[k]))
    && (text != [] ==> !p(value[i]) && !p(value[i + |text| - 1]))
  }

  /** There is one such text. */
  lemma AroundIsOne<T>(value: seq<T>, a: seq<T>, b: seq<T>, p: T -> bool)
    requires Around(value, a, p) && Around(value, b, p)
    ensures a == b
  {
    var i: nat :| Stands(value, a, i, p);
    var j: nat :| Stands(value, b, j, p);
  }
}
