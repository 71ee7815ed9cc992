/** Counting the entries of a map that satisfy a predicate, one update at a time. */
module Counting {

  ghost function Count<K(!new), V>(m: map<K, V>, p: V -> bool): nat {
    |set k | k in m && p(m[k])|
  }

  ghost function One(b: bool): nat {
    if b then 1 else 0
  }

  /** Giving one key a value changes the count by that key alone. */
  lemma CountUpdate<K(!new), V>(m: map<K, V>, k: K, v: V, p: V -> bool)
    ensures Count(m[k := v], p) == Count(m, p) - One(k in m && p(m[k])) + One(p(v))
  {
    var m' := m[k := v];
    var rest := set x | x in m && x != k && p(m[x]);
    WithOne(m, k, p, rest);
    WithOne(m', k, p, rest);
  }

  /** Taking one key out changes the count by that key alone. */
  lemma CountRemove<K(!new), V>(m: map<K, V>, k: K, p: V -> bool)
    ensures Count(m - {k}, p) == Count(m, p) - One(k in m && p(m[k]))
  {
    var m' := m - {k};
    var rest := set x | x in m && x != k && p(m[x]);
    WithOne(m, k, p, rest);
    WithOne(m', k, p, rest);
  }

  /** Two keys that are counted make a count of two. */
  lemma CountTwo<K(!new), V>(m: map<K, V>, k: K, l: K, p: V -> bool)
    requires k in m && l in m && k != l && p(m[k]) && p(m[l])
    ensures Count(m, p) >= 2
  {
    CountRemove(m, k, p);
    ThereIsCounted(m - {k}, l, p);
  }

  lemma WithOne<K(!new), V>(m: map<K, V>, k: K, p: V -> bool, rest: set<K>)
    requires forall x :: x in rest <==> x in m && x != k && p(m[x])
    ensures Count(m, p) == |rest| + One(k in m && p(m[k]))
  {
    var all := set x | x in m && p(m[x]);
    if k in all {
      assert all == rest + {k};
    } else {
      assert all == rest;
    }
  }

  /** A count above zero counts something. */
  lemma CountedIsThere<K(!new), V>(m: map<K, V>, p: V -> bool)
    requires Count(m, p) > 0
    ensures exists k :: k in m && p(m[k])
  {
    var counted := set k | k in m && p(m[k]);
    assert |counted| > 0;
    var k :| k in counted;
    assert k in m && p(m[k]);
  }

  lemma ThereIsCounted<K(!new), V>(m: map<K, V>, k: K, p: V -> bool)
    requires k in m && p(m[k])
    ensures Count(m, p) > 0
  {
    var counted := set x | x in m && p(m[x]);
    assert k in counted;
    assert |counted| > 0;
  }

  /** Two maps with the same counted keys have the same count. */
  lemma CountSame<K(!new), V>(m: map<K, V>, m': map<K, V>, p: V -> bool)
    requires forall k :: (k in m && p(m[k])) <==> (k in m' && p(m'[k]))
    ensures Count(m, p) == Count(m', p)
  {
    assert (set k | k in m && p(m[k])) == (set k | k in m' && p(m'[k]));
  }

  /** What is counted under one of two predicates that exclude each other. */
  lemma CountSplit<K(!new), V(!new)>(m: map<K, V>, p: V -> bool, q: V -> bool, either: V -> bool)
    requires forall v :: either(v) <==> p(v) || q(v)
    requires forall v :: !(p(v) && q(v))
    ensures Count(m, either) == Count(m, p) + Count(m, q)
  {
    var ps := set k | k in m && p(m[k]);
    var qs := set k | k in m && q(m[k]);
    assert (set k | k in m && either(m[k])) == ps + qs;
  }

  /** A count that is part of another is no larger. */
  lemma CountImplied<K(!new), V>(m: map<K, V>, p: V -> bool, q: V -> bool)
    requires forall k :: k in m && p(m[k]) ==> q(m[k])
    ensures Count(m, p) <= Count(m, q)
  {
    var small := set k | k in m && p(m[k]);
    var large := set k | k in m && q(m[k]);
    SubsetSize(small, large);
  }

  /** Two counts, one part of the other, are equal exactly when they count the same entries. */
  lemma CountTight<K(!new), V>(m: map<K, V>, p: V -> bool, q: V -> bool)
    requires forall k :: k in m && p(m[k]) ==> q(m[k])
    ensures Count(m, p) == Count(m, q) <==> forall k :: k in m && q(m[k]) ==> p(m[k])
  {
    var small := set k | k in m && p(m[k]);
    var large := set k | k in m && q(m[k]);
    if Count(m, p) == Count(m, q) {
      SubsetSize(small, large);
      forall k | k in m && q(m[k])
        ensures p(m[k])
      {
        assert k in large;
      }
    }
    if forall k :: k in m && q(m[k]) ==> p(m[k]) {
      assert small == large;
    }
  }

  lemma {:induction false} SubsetSize<T>(a: set<T>, b: set<T>)
    requires a <= b
    ensures |a| <= |b|
    ensures |a| == |b| ==> a == b
  {
    if a != {} {
      var x :| x in a;
      SubsetSize(a - {x}, b - {x});
    }
  }
}
