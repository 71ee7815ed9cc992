/**
  Tables whose copies share layers: a heap of layers with reference counts, as `Arc` keeps
  them. A table is a list of references; `get_mut` gives a layer to change in place exactly
  when one table has it.
 */
module LayeredTables {
  import opened Counting
  import opened LayerShape

  type Ref = nat
  type TableId = nat

  /** How a kind of layer is measured and joined (`HashMap::len`, `Vec::extend`, ...). */
  datatype Kind<!L> = Kind(alone: L, len: L -> nat, join: (L, L) -> L)

  /** The layers that some table has, how many tables have each, and the layers of each table, oldest first. */
  datatype Mem<L> = Mem(
    heap: map<Ref, L>,
    count: map<Ref, nat>,
    tables: map<TableId, seq<Ref>>,
    nextRef: Ref,
    nextTable: TableId)

  ghost function Has(r: Ref): seq<Ref> -> bool {
    (refs: seq<Ref>) => r in refs
  }

  ghost predicate Distinct(refs: seq<Ref>) {
    forall i, j :: 0 <= i < j < |refs| ==> refs[i] != refs[j]
  }

  ghost predicate Held<L>(heap: map<Ref, L>, refs: seq<Ref>) {
    forall i :: 0 <= i < |refs| ==> refs[i] in heap
  }

  ghost predicate Valid<L>(m: Mem<L>) {
    && m.heap.Keys == m.count.Keys
    && (forall r :: r in m.heap ==> r < m.nextRef)
    && (forall t :: t in m.tables ==> t < m.nextTable && Held(m.heap, m.tables[t]) && Distinct(m.tables[t]))
    && (forall r :: r in m.count ==> m.count[r] == Count(m.tables, Has(r)))
  }

  ghost function Show<L>(heap: map<Ref, L>, refs: seq<Ref>): (view: seq<L>)
    requires Held(heap, refs)
    ensures |view| == |refs| && forall i :: 0 <= i < |refs| ==> view[i] == heap[refs[i]]
  {
    seq(|refs|, i requires 0 <= i < |refs| => heap[refs[i]])
  }

  /** The layers of the table `t`, as it shows them. */
  ghost function View<L>(m: Mem<L>, t: TableId): seq<L>
    requires Valid(m) && t in m.tables
  {
    Show(m.heap, m.tables[t])
  }

  /** What other tables than `t` show is the same in both. */
  ghost predicate OthersSame<L>(m: Mem<L>, m': Mem<L>, t: TableId)
    requires Valid(m) && Valid(m')
  {
    forall u :: u in m.tables && u != t ==> u in m'.tables && View(m', u) == View(m, u)
  }

  /** The other tables have the layers they had, and `t` has layers of its own and fresh ones. */
  ghost predicate OnlyGrows<L>(m: Mem<L>, m': Mem<L>, t: TableId) {
    && t in m.tables && t in m'.tables && m.nextRef <= m'.nextRef
    && (forall u :: u in m.tables && u != t ==> u in m'.tables && m'.tables[u] == m.tables[u])
    && (forall r :: r in m'.tables[t] ==> r in m.tables[t] || r >= m.nextRef)
  }

  // ---------------------------------------------------------------- what the operations do

  /** The table is alone with its newest layer: `Arc::get_mut` gives it out. */
  predicate Owns<L>(m: Mem<L>, t: TableId) {
    t in m.tables && m.tables[t] != [] && var r := m.tables[t][|m.tables[t]| - 1]; r in m.count && m.count[r] == 1
  }

  /** A copy copies no layer: it counts for each one more time. */
  ghost predicate Cloned<L>(m: Mem<L>, m': Mem<L>, t: TableId) {
    && t in m.tables
    && m'.heap == m.heap && m'.nextRef == m.nextRef && m'.nextTable == m.nextTable + 1
    && m'.tables == m.tables[m.nextTable := m.tables[t]]
    && m'.count.Keys == m.count.Keys
    && forall r :: r in m.count ==> m'.count[r] == m.count[r] + One(r in m.tables[t])
  }

  /** One reference to each of `refs` is given up; the layers with no other are gone. */
  ghost predicate Released<L>(heap: map<Ref, L>, count: map<Ref, nat>, heap': map<Ref, L>, count': map<Ref, nat>, refs: seq<Ref>) {
    && heap'.Keys == count'.Keys
    && (forall r :: r in heap' ==> r in heap && heap'[r] == heap[r])
    && (forall r :: r in heap && (r in refs ==> r in count && count[r] > 1) ==> r in heap')
    && (forall r :: r in count' ==> r in count && count[r] == count'[r] + One(r in refs))
  }

  /** A dropped table lets go of its layers; those it was alone with are gone. */
  ghost predicate Dropped<L>(m: Mem<L>, m': Mem<L>, t: TableId) {
    && t in m.tables
    && m'.tables == m.tables - {t} && m'.nextRef == m.nextRef && m'.nextTable == m.nextTable
    && Released(m.heap, m.count, m'.heap, m'.count, m.tables[t])
  }

  /** The newest layer of `t` is changed in place. */
  ghost predicate ChangedInPlace<L>(m: Mem<L>, m': Mem<L>, t: TableId, layer: L) {
    && Owns(m, t)
    && m' == m.(heap := m.heap[m.tables[t][|m.tables[t]| - 1] := layer])
  }

  /**
    The table `t` keeps its first `keep` layers and has a fresh one behind them; of the layers
    it lets go, those nobody else has are gone.
   */
  ghost predicate Replaced<L>(m: Mem<L>, m': Mem<L>, t: TableId, keep: nat, layer: L) {
    && t in m.tables && keep <= |m.tables[t]|
    && m'.tables == m.tables[t := m.tables[t][..keep] + [m.nextRef]]
    && m'.nextRef == m.nextRef + 1 && m'.nextTable == m.nextTable
    && m'.heap.Keys == m'.count.Keys
    && m.nextRef in m'.heap && m'.heap[m.nextRef] == layer && m'.count[m.nextRef] == 1
    && (forall r :: r in m'.heap && r != m.nextRef ==> r in m.heap && m'.heap[r] == m.heap[r])
    && (forall r :: r in m.heap && (r in m.tables[t][keep..] ==> r in m.count && m.count[r] > 1) ==> r in m'.heap)
    && (forall r :: r in m'.count && r != m.nextRef ==>
          r in m.count && m.count[r] == m'.count[r] + One(r in m.tables[t][keep..]))
  }

  // ---------------------------------------------------------------- lemmas

  /** A layer that two tables have is counted at least twice. */
  lemma TwoHolders<L>(m: Mem<L>, t: TableId, u: TableId, r: Ref)
    requires Valid(m) && t in m.tables && u in m.tables && t != u && r in m.tables[t] && r in m.tables[u]
    ensures r in m.count && m.count[r] >= 2
  {
    CountTwo(m.tables, t, u, Has(r));
    var i :| 0 <= i < |m.tables[t]| && m.tables[t][i] == r;
    assert m.tables[t][i] in m.heap;
    assert r in m.count;
  }

  lemma OneHolder<L>(m: Mem<L>, t: TableId, u: TableId)
    requires Valid(m) && Owns(m, t) && u in m.tables && u != t
    ensures m.tables[t][|m.tables[t]| - 1] !in m.tables[u]
  {
    var r := m.tables[t][|m.tables[t]| - 1];
    if r in m.tables[u] {
      TwoHolders(m, t, u, r);
    }
  }

  lemma NewTableValid<L>(m: Mem<L>, m': Mem<L>)
    requires Valid(m) && m' == m.(tables := m.tables[m.nextTable := []], nextTable := m.nextTable + 1)
    ensures Valid(m') && m.nextTable !in m.tables && View(m', m.nextTable) == []
    ensures OthersSame(m, m', m.nextTable)
  {
    forall r | r in m'.count
      ensures m'.count[r] == Count(m'.tables, Has(r))
    {
      CountUpdate(m.tables, m.nextTable, [], Has(r));
    }
  }

  /** A copy shows what the table shows. */
  lemma ClonedValid<L>(m: Mem<L>, m': Mem<L>, t: TableId)
    requires Valid(m) && Cloned(m, m', t)
    ensures Valid(m') && m.nextTable !in m.tables && View(m', m.nextTable) == View(m, t)
    ensures OthersSame(m, m', m.nextTable)
  {
    forall r | r in m'.count
      ensures m'.count[r] == Count(m'.tables, Has(r))
    {
      CountUpdate(m.tables, m.nextTable, m.tables[t], Has(r));
    }
  }

  lemma DroppedValid<L>(m: Mem<L>, m': Mem<L>, t: TableId)
    requires Valid(m) && Dropped(m, m', t)
    ensures Valid(m') && m'.tables.Keys == m.tables.Keys - {t}
    ensures OthersSame(m, m', t)
  {
    forall r | r in m'.count
      ensures m'.count[r] == Count(m'.tables, Has(r))
    {
      CountRemove(m.tables, t, Has(r));
    }
    forall u | u in m'.tables
      ensures Held(m'.heap, m'.tables[u]) && Distinct(m'.tables[u])
    {
      DroppedHolds(m, m', t, u);
    }
  }

  lemma DroppedHolds<L>(m: Mem<L>, m': Mem<L>, t: TableId, u: TableId)
    requires Valid(m) && Dropped(m, m', t) && u in m'.tables
    ensures u in m.tables && m'.tables[u] == m.tables[u] && Held(m'.heap, m'.tables[u]) && Distinct(m'.tables[u])
  {
    assert Held(m.heap, m.tables[u]);
    forall i | 0 <= i < |m'.tables[u]|
      ensures m'.tables[u][i] in m'.heap
    {
      var r := m'.tables[u][i];
      assert r in m.heap && r in m.tables[u];
      if r in m.tables[t] {
        TwoHolders(m, t, u, r);
      }
    }
  }

  /** What one table changes in place no other table shows. */
  lemma ChangedInPlaceValid<L>(m: Mem<L>, m': Mem<L>, t: TableId, layer: L)
    requires Valid(m) && ChangedInPlace(m, m', t, layer)
    ensures Valid(m') && m'.tables.Keys == m.tables.Keys
    ensures View(m', t) == View(m, t)[..|m.tables[t]| - 1] + [layer]
    ensures OthersSame(m, m', t)
  {
    var refs := m.tables[t];
    assert refs[|refs| - 1] in m.heap;
    assert Distinct(refs);
    forall u | u in m.tables && u != t
      ensures View(m', u) == View(m, u)
    {
      OneHolder(m, t, u);
      forall i | 0 <= i < |m.tables[u]|
        ensures m'.heap[m.tables[u][i]] == m.heap[m.tables[u][i]]
      {
        assert m.tables[u][i] in m.tables[u];
      }
    }
  }

  lemma OthersStaySame<L>(a: Mem<L>, b: Mem<L>, c: Mem<L>, t: TableId)
    requires Valid(a) && Valid(b) && Valid(c)
    requires a.tables.Keys == b.tables.Keys == c.tables.Keys
    requires OthersSame(a, b, t) && OthersSame(b, c, t)
    ensures OthersSame(a, c, t)
  {
  }

  lemma FreshIsHeldByNone<L>(m: Mem<L>, r: Ref)
    requires Valid(m) && r >= m.nextRef
    ensures Count(m.tables, Has(r)) == 0
  {
    forall u | u in m.tables
      ensures r !in m.tables[u]
    {
      assert forall i :: 0 <= i < |m.tables[u]| ==> m.tables[u][i] in m.heap;
    }
    if Count(m.tables, Has(r)) > 0 {
      CountedIsThere(m.tables, Has(r));
    }
  }

  lemma EndsApart(refs: seq<Ref>, keep: nat, r: Ref)
    requires Distinct(refs) && keep <= |refs| && r in refs[..keep]
    ensures r !in refs[keep..]
  {
    var i :| 0 <= i < keep && refs[i] == r;
    forall j | 0 <= j < |refs[keep..]|
      ensures refs[keep..][j] != r
    {
      assert refs[keep..][j] == refs[keep + j];
    }
  }

  lemma ReplacedCounts<L>(m: Mem<L>, m': Mem<L>, t: TableId, keep: nat, layer: L, r: Ref)
    requires Valid(m) && Replaced(m, m', t, keep, layer) && r in m'.count
    ensures m'.count[r] == Count(m'.tables, Has(r))
  {
    hide Distinct;
    var refs := m.tables[t];
    CountUpdate(m.tables, t, m'.tables[t], Has(r));
    if r == m.nextRef {
      FreshIsHeldByNone(m, r);
      assert Held(m.heap, refs);
    } else {
      hide Held;
      assert refs == refs[..keep] + refs[keep..];
      assert r in refs <==> r in refs[..keep] || r in refs[keep..];
      if r in refs[..keep] {
        EndsApart(refs, keep, r);
      }
    }
  }

  lemma ReplacedHolds<L>(m: Mem<L>, m': Mem<L>, t: TableId, keep: nat, layer: L, u: TableId, i: nat)
    requires Valid(m) && Replaced(m, m', t, keep, layer)
    requires u in m.tables && i < |m.tables[u]| && (u != t || i < keep)
    ensures m'.tables[u][i] == m.tables[u][i] && m.tables[u][i] in m'.heap
    ensures m'.heap[m.tables[u][i]] == m.heap[m.tables[u][i]]
  {
    var refs, r := m.tables[t], m.tables[u][i];
    assert Held(m.heap, m.tables[u]);
    assert r in m.heap && r in m.tables[u] && r != m.nextRef;
    if r in refs[keep..] {
      var j :| keep <= j < |refs| && refs[j] == r;
      assert Distinct(refs);
      TwoHolders(m, t, u, r);
    }
  }

  lemma ReplacedIsValid<L>(m: Mem<L>, m': Mem<L>, t: TableId, keep: nat, layer: L)
    requires Valid(m) && Replaced(m, m', t, keep, layer)
    ensures Valid(m') && m'.tables.Keys == m.tables.Keys
  {
    hide Count;
    forall r | r in m'.count
      ensures m'.count[r] == Count(m'.tables, Has(r))
    {
      ReplacedCounts(m, m', t, keep, layer, r);
    }
    forall u | u in m'.tables
      ensures Held(m'.heap, m'.tables[u]) && Distinct(m'.tables[u])
    {
      assert Held(m.heap, m.tables[u]) && Distinct(m.tables[u]);
      forall i | 0 <= i < |m'.tables[u]|
        ensures m'.tables[u][i] in m'.heap
      {
        if u != t || i < keep {
          ReplacedHolds(m, m', t, keep, layer, u, i);
        }
      }
    }
  }

  /** Replacing the end of one table's layers leaves what every other table shows. */
  lemma ReplacedValid<L>(m: Mem<L>, m': Mem<L>, t: TableId, keep: nat, layer: L)
    requires Valid(m) && Replaced(m, m', t, keep, layer)
    ensures Valid(m') && m'.tables.Keys == m.tables.Keys
    ensures View(m', t) == View(m, t)[..keep] + [layer]
    ensures OthersSame(m, m', t)
  {
    ReplacedIsValid(m, m', t, keep, layer);
    hide Valid, Replaced;
    forall u | u in m.tables && u != t
      ensures u in m'.tables && View(m', u) == View(m, u)
    {
      ReplacedOther(m, m', t, keep, layer, u);
    }
    ReplacedOwn(m, m', t, keep, layer);
  }

  lemma ReplacedOther<L>(m: Mem<L>, m': Mem<L>, t: TableId, keep: nat, layer: L, u: TableId)
    requires Valid(m) && Valid(m') && Replaced(m, m', t, keep, layer) && u in m.tables && u != t
    ensures u in m'.tables && View(m', u) == View(m, u)
  {
    assert m'.tables[u] == m.tables[u];
    hide Valid, Replaced;
    forall i | 0 <= i < |m.tables[u]|
      ensures m.tables[u][i] in m'.heap && m'.heap[m.tables[u][i]] == m.heap[m.tables[u][i]]
    {
      ReplacedHolds(m, m', t, keep, layer, u, i);
    }
  }

  lemma ReplacedOwn<L>(m: Mem<L>, m': Mem<L>, t: TableId, keep: nat, layer: L)
    requires Valid(m) && Valid(m') && Replaced(m, m', t, keep, layer)
    ensures View(m', t) == View(m, t)[..keep] + [layer]
  {
    assert m'.tables[t] == m.tables[t][..keep] + [m.nextRef] && m'.heap[m.nextRef] == layer;
    hide Valid, Replaced;
    forall i | 0 <= i < keep
      ensures View(m', t)[i] == View(m, t)[i]
    {
      ReplacedHolds(m, m', t, keep, layer, t, i);
    }
  }

  lemma ReleasedReplaced<L>(
    m: Mem<L>, m': Mem<L>, heap: map<Ref, L>, count: map<Ref, nat>, t: TableId, keep: nat, layer: L)
    requires t in m.tables && keep <= |m.tables[t]| && m.nextRef !in m.heap && m.heap.Keys == m.count.Keys
    requires Released(m.heap, m.count, heap, count, m.tables[t][keep..])
    requires m'.heap == heap[m.nextRef := layer] && m'.count == count[m.nextRef := 1]
    requires m'.tables == m.tables[t := m.tables[t][..keep] + [m.nextRef]]
    requires m'.nextRef == m.nextRef + 1 && m'.nextTable == m.nextTable
    ensures Replaced(m, m', t, keep, layer)
  {
  }

  lemma ReplacedGrows<L>(m: Mem<L>, m': Mem<L>, t: TableId, keep: nat)
    requires t in m.tables && keep <= |m.tables[t]| && m'.nextRef == m.nextRef + 1
    requires m'.tables == m.tables[t := m.tables[t][..keep] + [m.nextRef]]
    ensures OnlyGrows(m, m', t)
  {
  }

  lemma SameGrows<L>(m: Mem<L>, m': Mem<L>, t: TableId)
    requires t in m.tables && m'.tables == m.tables && m'.nextRef == m.nextRef
    ensures OnlyGrows(m, m', t)
  {
  }

  // ---------------------------------------------------------------- the tables, changed in place

  class Store<L(!new)> {
    const kind: Kind<L>
    var heap: map<Ref, L>
    var count: map<Ref, nat>
    var tables: map<TableId, seq<Ref>>
    var nextRef: Ref
    var nextTable: TableId
    /** How many rows were copied to make layers one (`rows_copied`). */
    var copied: nat

    ghost function Now(): Mem<L>
      reads this
    {
      Mem(heap, count, tables, nextRef, nextTable)
    }

    constructor (kind: Kind<L>)
      ensures Valid(Now()) && this.kind == kind && tables == map[] && nextTable == 0 && copied == 0
    {
      this.kind := kind;
      copied := 0;
      heap, count, tables := map[], map[], map[];
      nextRef, nextTable := 0, 0;
    }

    method New() returns (t: TableId)
      requires Valid(Now())
      modifies this`tables, this`nextTable
      ensures Valid(Now()) && t !in old(tables) && tables == old(tables)[t := []]
      ensures View(Now(), t) == [] && OthersSame(old(Now()), Now(), t)
      ensures t == old(nextTable) && nextTable == t + 1
    {
      ghost var before := Now();
      t := nextTable;
      tables := tables[t := []];
      nextTable := nextTable + 1;
      NewTableValid(before, Now());
    }

    /** `Clone`: every layer of the table is counted once more. */
    method Clone(t: TableId) returns (copy: TableId)
      requires Valid(Now()) && t in tables
      modifies this`tables, this`count, this`nextTable
      ensures Valid(Now()) && copy !in old(tables) && tables == old(tables)[copy := old(tables[t])]
      ensures View(Now(), copy) == old(View(Now(), t)) && OthersSame(old(Now()), Now(), copy)
      ensures copy == old(nextTable) && nextTable == copy + 1
    {
      ghost var before := Now();
      var counts := CountMore(tables[t], count);
      copy := nextTable;
      tables := tables[copy := tables[t]];
      count := counts;
      nextTable := nextTable + 1;
      ClonedValid(before, Now(), t);
    }

    static method CountMore(refs: seq<Ref>, count: map<Ref, nat>) returns (more: map<Ref, nat>)
      requires Distinct(refs) && forall i :: 0 <= i < |refs| ==> refs[i] in count
      ensures more.Keys == count.Keys
      ensures forall r :: r in count ==> more[r] == count[r] + One(r in refs)
    {
      more := count;
      for i := 0 to |refs|
        invariant more.Keys == count.Keys
        invariant forall r :: r in count ==> more[r] == count[r] + One(r in refs[..i])
      {
        assert refs[..i + 1] == refs[..i] + [refs[i]];
        assert refs[i] !in refs[..i];
        more := more[refs[i] := more[refs[i]] + 1];
      }
      assert refs[..|refs|] == refs;
    }

    /** One reference to a layer is given up; with the last one the layer is gone. */
    method Release(r: Ref) returns (layer: L)
      requires r in heap && r in count && heap.Keys == count.Keys
      modifies this`heap, this`count
      ensures layer == old(heap[r])
      ensures heap.Keys == count.Keys && heap.Keys <= old(heap.Keys) && old(heap.Keys) <= heap.Keys + {r}
      ensures r in heap <==> old(count[r]) > 1
      ensures forall x :: x in heap ==> heap[x] == old(heap[x]) && old(count[x]) == count[x] + One(x == r)
    {
      layer := heap[r];
      if count[r] <= 1 {
        heap, count := heap - {r}, count - {r};
      } else {
        count := count[r := count[r] - 1];
      }
    }
  
    /** `Drop`: every layer of the table is given up. */
    method Drop(t: TableId)
      requires Valid(Now()) && t in tables
      modifies this`heap, this`count, this`tables
      ensures Valid(Now()) && tables == old(tables) - {t}
      ensures OthersSame(old(Now()), Now(), t)
    {
      ghost var before := Now();
      var refs := tables[t];
      ReleaseAll(refs);
      tables := tables - {t};
      DroppedValid(before, Now(), t);
    }

    method ReleaseAll(refs: seq<Ref>)
      requires heap.Keys == count.Keys && Held(heap, refs) && Distinct(refs)
      modifies this`heap, this`count
      ensures Released(old(heap), old(count), heap, count, refs)
    {
      for i := 0 to |refs|
        invariant heap.Keys == count.Keys && heap.Keys <= old(heap.Keys)
        invariant forall r :: r in heap ==> heap[r] == old(heap[r]) && old(count[r]) == count[r] + One(r in refs[..i])
        invariant forall r :: r in old(heap) && (r in refs[..i] ==> old(count[r]) > 1) ==> r in heap
      {
        assert refs[..i + 1] == refs[..i] + [refs[i]];
        assert refs[i] !in refs[..i];
        var _ := Release(refs[i]);
      }
      assert refs[..|refs|] == refs;
    }

    /** The layers of the table from `keep` on are given up for a fresh one. */
    method ReplaceEnd(t: TableId, keep: nat, layer: L)
      requires Valid(Now()) && t in tables && keep <= |tables[t]|
      modifies this`heap, this`count, this`tables, this`nextRef
      ensures Valid(Now()) && tables == old(tables)[t := old(tables[t])[..keep] + [old(nextRef)]] && nextRef == old(nextRef) + 1
      ensures View(Now(), t) == old(View(Now(), t))[..keep] + [layer]
      ensures OthersSame(old(Now()), Now(), t)
    {
      ghost var before := Now();
      var refs := tables[t];
      assert Held(heap, refs) && Distinct(refs) && heap.Keys == count.Keys && nextRef !in heap;
      hide Valid, OthersSame, View, Released, Replaced;
      ReleaseAll(refs[keep..]);
      ghost var heap', count' := heap, count;
      heap, count := heap[nextRef := layer], count[nextRef := 1];
      tables := tables[t := refs[..keep] + [nextRef]];
      nextRef := nextRef + 1;
      ReleasedReplaced(before, Now(), heap', count', t, keep, layer);
      ReplacedValid(before, Now(), t, keep, layer);
    }

    /** The last two layers of the table made one. */
    method JoinLastTwo(t: TableId)
      requires Valid(Now()) && t in tables && |tables[t]| >= 2
      modifies this`heap, this`count, this`tables, this`nextRef, this`copied
      ensures Valid(Now()) && tables.Keys == old(tables.Keys) && OnlyGrows(old(Now()), Now(), t)
      ensures var v := old(View(Now(), t));
              && View(Now(), t) == v[..|v| - 2] + [kind.join(v[|v| - 2], v[|v| - 1])]
              && copied == old(copied) + kind.len(v[|v| - 2]) + kind.len(v[|v| - 1])
      ensures OthersSame(old(Now()), Now(), t)
    {
      var refs := tables[t];
      assert Held(heap, refs);
      ghost var v := View(Now(), t);
      assert |v| == |refs| && v[|refs| - 2] == heap[refs[|refs| - 2]] && v[|refs| - 1] == heap[refs[|refs| - 1]];
      hide View, OthersSame, Valid, OnlyGrows;
      ghost var m := Now();
      copied := copied + kind.len(heap[refs[|refs| - 2]]) + kind.len(heap[refs[|refs| - 1]]);
      ReplaceEnd(t, |refs| - 2, kind.join(heap[refs[|refs| - 2]], heap[refs[|refs| - 1]]));
      ReplacedGrows(m, Now(), t, |refs| - 2);
    }

    /** `Arc::get_mut`: the table is alone with its newest layer and changes it in place. */
    method ChangeNewest(t: TableId, layer: L)
      requires Valid(Now()) && Owns(Now(), t)
      modifies this`heap
      ensures Valid(Now())
      ensures View(Now(), t) == old(View(Now(), t))[..|tables[t]| - 1] + [layer]
      ensures OthersSame(old(Now()), Now(), t)
    {
      ghost var before := Now();
      heap := heap[tables[t][|tables[t]| - 1] := layer];
      ChangedInPlaceValid(before, Now(), t, layer);
    }

    /** The table shows `Placed` of its layers: changed in place if it owns the newest, and otherwise one layer more. */
    method PlaceRow(t: TableId, add: L -> L)
      requires Valid(Now()) && t in tables
      modifies this`heap, this`count, this`tables, this`nextRef
      ensures Valid(Now()) && tables.Keys == old(tables.Keys) && OnlyGrows(old(Now()), Now(), t)
      ensures View(Now(), t) == Placed(old(View(Now(), t)), old(Owns(Now(), t)), add, kind.alone)
      ensures OthersSame(old(Now()), Now(), t)
    {
      ghost var v := View(Now(), t);
      var refs := tables[t];
      assert Held(heap, refs) && heap.Keys == count.Keys;
      assert |v| == |refs| && forall i :: 0 <= i < |refs| ==> v[i] == heap[refs[i]];
      var own := |refs| > 0 && count[refs[|refs| - 1]] == 1;
      assert own == Owns(Now(), t);
      hide Valid, View, OthersSame, OnlyGrows, Owns;
      ghost var m := Now();
      if own {
        ChangeNewest(t, add(heap[refs[|refs| - 1]]));
        SameGrows(m, Now(), t);
      } else {
        ReplaceEnd(t, |refs|, add(kind.alone));
        ReplacedGrows(m, Now(), t, |refs|);
        assert v[..|refs|] == v;
      }
    }

    /** The table shows `Settle` of its layers, and `copied` has grown by what that costs. */
    method SettleTable(t: TableId)
      requires Valid(Now()) && t in tables
      modifies this`heap, this`count, this`tables, this`nextRef, this`copied
      ensures Valid(Now()) && tables.Keys == old(tables.Keys) && OnlyGrows(old(Now()), Now(), t)
      ensures View(Now(), t) == Settle(old(View(Now(), t)), kind.len, kind.join)
      ensures copied == old(copied) + SettleCost(old(View(Now(), t)), kind.len, kind.join)
      ensures OthersSame(old(Now()), Now(), t)
    {
      ghost var before := View(Now(), t);
      while |tables[t]| >= 2 && TooClose(t)
        invariant Valid(Now()) && tables.Keys == old(tables.Keys) && OnlyGrows(old(Now()), Now(), t)
        invariant OthersSame(old(Now()), Now(), t)
        invariant copied + SettleCost(View(Now(), t), kind.len, kind.join) ==
                  old(copied) + SettleCost(before, kind.len, kind.join)
        invariant Settle(View(Now(), t), kind.len, kind.join) == Settle(before, kind.len, kind.join)
        decreases |tables[t]|
      {
        ghost var m, v := Now(), View(Now(), t);
        assert |v| == |tables[t]|;
        JoinLastTwo(t);
        assert |View(Now(), t)| == |v| - 1;
        OthersStaySame(old(Now()), m, Now(), t);
      }
    }

    /** `add_row`: the table shows the row, settled into layers, and no other table shows it. */
    method AddRow(t: TableId, add: L -> L)
      requires Valid(Now()) && t in tables
      modifies this`heap, this`count, this`tables, this`nextRef, this`copied
      ensures Valid(Now()) && tables.Keys == old(tables.Keys) && OnlyGrows(old(Now()), Now(), t)
      ensures copied == old(copied) +
              SettleCost(Placed(old(View(Now(), t)), old(Owns(Now(), t)), add, kind.alone), kind.len, kind.join)
      ensures View(Now(), t) ==
              LayerShape.AddRow(old(View(Now(), t)), old(Owns(Now(), t)), add, kind.alone, kind.len, kind.join)
      ensures OthersSame(old(Now()), Now(), t)
    {
      PlaceRow(t, add);
      ghost var m := Now();
      SettleTable(t);
      OthersStaySame(old(Now()), m, Now(), t);
    }

    /** The last two layers are to be made one. */
    predicate TooClose(t: TableId)
      requires Valid(Now()) && t in tables && |tables[t]| >= 2
      reads this
    {
      var refs := tables[t];
      assert Held(heap, refs);
      kind.len(heap[refs[|refs| - 2]]) <= 2 * kind.len(heap[refs[|refs| - 1]])
    }
  }
}
