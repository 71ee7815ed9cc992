/** Block comments by a grammar of their own, and that the lexer finds exactly these. */
module LexComment {
  import opened Basics
  import opened LexText
  import opened LexScan
  import opened LexSpec

  predicate OpensAt(src: Text, i: nat) {
    i + 1 < |src| && src[i] == '{' && src[i + 1] == '-'
  }

  predicate ClosesAt(src: Text, i: nat) {
    i + 1 < |src| && src[i] == '-' && src[i + 1] == '}'
  }

  /** From `i` to `e` there are characters at which no comment opens or closes, and whole comments. */
  ghost predicate Inside(src: Text, i: nat, e: nat)
    decreases e - i, 1
  {
    i <= e <= |src| &&
    (i == e
     || (!OpensAt(src, i) && !ClosesAt(src, i) && Inside(src, i + 1, e))
     || exists m: nat :: i < m <= e && CommentAt(src, i, m) && Inside(src, m, e))
  }

  /** A comment from `i` to `e`: its opening, what is inside it, and its close. */
  ghost predicate CommentAt(src: Text, i: nat, e: nat)
    decreases e - i, 0
  {
    e >= i + 4 && OpensAt(src, i) && ClosesAt(src, e - 2) && Inside(src, i + 2, e - 2)
  }

  /** Where `depth` comments that are open end, from `i` on. */
  ghost predicate EndsAt(src: Text, i: nat, depth: nat, e: nat)
    decreases depth
  {
    if depth == 0 then e == i
    else exists c: nat :: Inside(src, i, c) && ClosesAt(src, c) && EndsAt(src, c + 2, depth - 1, e)
  }

  /** What is inside a comment is read over: the depth is the same behind it. */
  lemma {:induction false} InsideIsPassed(src: Text, i: nat, c: nat, depth: nat)
    requires Inside(src, i, c) && depth > 0
    ensures BlockEnd(src, i, depth) == BlockEnd(src, c, depth)
    decreases c - i
  {
    if i < c {
      if !OpensAt(src, i) && !ClosesAt(src, i) && Inside(src, i + 1, c) {
        InsideIsPassed(src, i + 1, c, depth);
      } else {
        var m: nat :| i < m <= c && CommentAt(src, i, m) && Inside(src, m, c);
        InsideIsPassed(src, i + 2, m - 2, depth + 1);
        InsideIsPassed(src, m, c, depth);
      }
    }
  }

  lemma {:induction false} EndIsFound(src: Text, i: nat, depth: nat, e: nat)
    requires EndsAt(src, i, depth, e)
    ensures BlockEnd(src, i, depth) == Some(e)
    decreases depth
  {
    if depth > 0 {
      var c: nat :| Inside(src, i, c) && ClosesAt(src, c) && EndsAt(src, c + 2, depth - 1, e);
      InsideIsPassed(src, i, c, depth);
      EndIsFound(src, c + 2, depth - 1, e);
    }
  }

  /** And where an end is found, what is before it is inside and comments. */
  lemma {:induction false} FoundIsEnd(src: Text, i: nat, depth: nat)
    requires i <= |src| && depth > 0 && BlockEnd(src, i, depth).Some?
    ensures exists c: nat :: Inside(src, i, c) && ClosesAt(src, c) && BlockEnd(src, c + 2, depth - 1) == BlockEnd(src, i, depth)
    decreases |src| - i
  {
    if OpensAt(src, i) {
      FoundIsEnd(src, i + 2, depth + 1);
      var k: nat :| Inside(src, i + 2, k) && ClosesAt(src, k) && BlockEnd(src, k + 2, depth) == BlockEnd(src, i + 2, depth + 1);
      FoundIsEnd(src, k + 2, depth);
      var c: nat :| Inside(src, k + 2, c) && ClosesAt(src, c) && BlockEnd(src, c + 2, depth - 1) == BlockEnd(src, k + 2, depth);
      assert CommentAt(src, i, k + 2);
      assert Inside(src, i, c);
    } else if ClosesAt(src, i) {
      assert Inside(src, i, i);
    } else {
      FoundIsEnd(src, i + 1, depth);
      var c: nat :| Inside(src, i + 1, c) && ClosesAt(src, c) && BlockEnd(src, c + 2, depth - 1) == BlockEnd(src, i + 1, depth);
      assert Inside(src, i, c);
    }
  }

  lemma InsideGoesOn(src: Text, i: nat, c: nat)
    requires Inside(src, i, c)
    ensures i <= c <= |src|
  {
  }

  /** The lexer finds the end of a comment exactly where it is, and none exactly if there is none. */
  lemma CommentExactly(src: Text, i: nat)
    requires AtBlockComment(src, i)
    ensures forall e: nat :: BlockEnd(src, i + 2, 1) == Some(e) <==> CommentAt(src, i, e)
    ensures BlockEnd(src, i + 2, 1).None? <==> forall e: nat :: !CommentAt(src, i, e)
  {
    forall e: nat
      ensures BlockEnd(src, i + 2, 1) == Some(e) <==> CommentAt(src, i, e)
    {
      if CommentAt(src, i, e) {
        assert EndsAt(src, e, 0, e);
        assert EndsAt(src, i + 2, 1, e);
        EndIsFound(src, i + 2, 1, e);
      }
      if BlockEnd(src, i + 2, 1) == Some(e) {
        FoundIsEnd(src, i + 2, 1);
        var c: nat :| Inside(src, i + 2, c) && ClosesAt(src, c) && BlockEnd(src, c + 2, 0) == Some(e);
        InsideGoesOn(src, i + 2, c);
      }
    }
  }
}
