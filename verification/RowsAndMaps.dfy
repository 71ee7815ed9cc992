/** What layered tables mean: a list (`Rows`) and a map (`Layers`) that are cheap to copy. */
module RowsAndMaps {
  import opened Counting
  import opened LayerShape
  import opened LayeredTables
  import opened Basics
  import opened TableRuns

  // ---------------------------------------------------------------- lists

  function RowsKind<T>(): Kind<seq<T>> {
    Kind([], (rows: seq<T>) => |rows|, (older: seq<T>, newer: seq<T>) => older + newer)
  }

  function PushTo<T>(row: T): seq<T> -> seq<T> {
    (rows: seq<T>) => rows + [row]
  }

  /** The rows of a list in order. */
  ghost function Flat<T>(layers: seq<seq<T>>): seq<T> {
    if layers == [] then [] else Flat(layers[..|layers| - 1]) + layers[|layers| - 1]
  }

  lemma FlatSnoc<T>(layers: seq<seq<T>>, last: seq<T>)
    ensures Flat(layers + [last]) == Flat(layers) + last
  {
    assert (layers + [last])[..|layers|] == layers;
  }

  lemma {:induction false} SettleKeepsRows<T>(layers: seq<seq<T>>)
    ensures Flat(Settle(layers, RowsKind<T>().len, RowsKind<T>().join)) == Flat(layers)
    decreases |layers|
  {
    var kind := RowsKind<T>();
    SettleStep(layers, kind.len, kind.join);
    hide Settle;
    if LastTooClose(layers, kind.len) {
      MergeKeepsRows(layers);
      hide Flat, Merged;
      SettleKeepsRows(Merged(layers, kind.join));
    }
  }

  lemma MergeKeepsRows<T>(layers: seq<seq<T>>)
    requires |layers| >= 2
    ensures Flat(Merged(layers, RowsKind<T>().join)) == Flat(layers)
  {
    hide Flat;
    var n := |layers|;
    var init, older, newer := layers[..n - 2], layers[n - 2], layers[n - 1];
    FlatLast(layers);
    FlatLast(layers[..n - 1]);
    assert layers[..n - 1][..n - 2] == init;
    FlatSnoc(init, older + newer);
    hide RowsKind;
    assert Flat(init) + older + newer == Flat(init) + (older + newer);
  }

  lemma FlatLast<T>(layers: seq<seq<T>>)
    requires layers != []
    ensures Flat(layers) == Flat(layers[..|layers| - 1]) + layers[|layers| - 1]
  {
  }

  /** A row pushed is the last row, whatever becomes of the layers. */
  lemma PushAppends<T>(layers: seq<seq<T>>, own: bool, row: T)
    ensures var kind := RowsKind<T>();
            Flat(AddRow(layers, own, PushTo(row), kind.alone, kind.len, kind.join)) == Flat(layers) + [row]
  {
    hide Settle, Flat;
    var n := |layers|;
    SettleKeepsRows(Placed(layers, own, PushTo(row), []));
    if n > 0 && own {
      FlatLast(layers);
      FlatSnoc(layers[..n - 1], layers[n - 1] + [row]);
    } else {
      FlatSnoc(layers, [row]);
      assert PushTo(row)([]) == [row];
    }
  }

  function PushAny<T>(): T -> seq<T> -> seq<T> {
    (row: T) => PushTo(row)
  }

  /** The layers of a list, made by pushes of `rows` with `history` as in `Built`. */
  function RowLayers<T>(rows: seq<T>, history: seq<bool>): seq<seq<T>>
    requires |rows| == |history|
  {
    LayersOf(RowsKind<T>(), PushAny<T>(), rows, history)
  }

  /** Every history of pushes makes layers that hold the rows in order. */
  lemma {:induction false} RowLayersHoldTheRows<T>(rows: seq<T>, history: seq<bool>)
    requires |rows| == |history|
    ensures Flat(RowLayers(rows, history)) == rows
  {
    if rows != [] {
      var n := |rows| - 1;
      var before := RowLayers(rows[..n], history[..n]);
      RowLayersHoldTheRows(rows[..n], history[..n]);
      PushAppends(before, history[n], rows[n]);
      assert RowLayers(rows, history) == AddRow(before, history[n], PushTo(rows[n]), [], RowsKind<T>().len, RowsKind<T>().join);
      hide *;
      assert rows == rows[..n] + [rows[n]];
    }
  }

  /** The layers of a list have the sizes that its history gives them, and cost the copies it gives them. */
  lemma {:induction false} RowsAreBuiltAlike<T(!new)>(rows: seq<T>, history: seq<bool>)
    requires |rows| == |history|
    ensures Alike(RowsKind<T>(), PushAny<T>(), rows, history)
  {
    if rows != [] {
      var n := |rows| - 1;
      var a, b := RowLayers(rows[..n], history[..n]), Built(history[..n]);
      RowsAreBuiltAlike(rows[..n], history[..n]);
      RowsAddUp(Placed(a, history[n], PushTo(rows[n]), []));
      PlacedAlike(a, b, history[n], rows[n]);
      hide Placed, SameSizes, AddsUp, Alike;
      AlikeGoesOn(RowsKind<T>(), PushAny<T>(), rows, history);
    }
  }

  lemma RowsAddUp<T(!new)>(layers: seq<seq<T>>)
    ensures AddsUp(layers, RowsKind<T>().len, RowsKind<T>().join)
  {
    AdditiveAddsUp(layers, RowsKind<T>().len, RowsKind<T>().join);
  }

  lemma PlacedAlike<T>(a: seq<seq<T>>, b: seq<Copies>, own: bool, row: T)
    requires SameSizes(a, b, RowsKind<T>().len, Size())
    ensures SameSizes(Placed(a, own, PushTo(row), []), Placed(b, own, NewRow(), []), RowsKind<T>().len, Size())
  {
  }

  /** The rows a table shows. */
  ghost function RowsOf<T>(m: Mem<seq<T>>, t: TableId): seq<T>
    requires Valid(m) && t in m.tables
  {
    Flat(View(m, t))
  }

  lemma {:induction false} FlatFront<T>(layers: seq<seq<T>>)
    requires layers != []
    ensures Flat(layers) == layers[0] + Flat(layers[1..])
  {
    if |layers| == 1 {
      assert layers[..0] == [] && layers[1..] == [];
    } else {
      var init, last := layers[..|layers| - 1], layers[|layers| - 1];
      FlatFront(init);
      FlatSnoc(init[1..], last);
      assert layers[1..] == init[1..] + [last] && init[0] == layers[0];
      assert layers[0] + Flat(init[1..]) + last == layers[0] + (Flat(init[1..]) + last);
    }
  }

  function Nth<T>(rows: seq<T>, index: nat): Option<T> {
    if index < |rows| then Some(rows[index]) else None
  }

  lemma NthStep<T>(layers: seq<seq<T>>, i: nat, left: nat)
    requires i < |layers|
    ensures Nth(Flat(layers[i..]), left) ==
            if left < |layers[i]| then Some(layers[i][left]) else Nth(Flat(layers[i + 1..]), left - |layers[i]|)
  {
    FlatFront(layers[i..]);
    assert layers[i..][1..] == layers[i + 1..];
  }

  /** `Rows::get`: the row at `index` of the concatenated layers, by one layer or by a walk over several. */
  method GetRow<T(!new)>(store: Store<seq<T>>, t: TableId, index: nat) returns (row: Option<T>)
    requires Valid(store.Now()) && t in store.tables
    ensures row == Nth(RowsOf(store.Now(), t), index)
  {
    var refs := store.tables[t];
    ghost var view := View(store.Now(), t);
    assert Held(store.heap, refs);
    if |refs| == 1 {
      NthStep(view, 0, index);
      assert view[1..] == [] && view[0..] == view;
      return Nth(store.heap[refs[0]], index);
    }
    var left: nat := index;
    assert view[0..] == view;
    for i := 0 to |refs|
      invariant Nth(Flat(view), index) == Nth(Flat(view[i..]), left)
    {
      var layer := store.heap[refs[i]];
      NthStep(view, i, left);
      if left < |layer| {
        return Some(layer[left]);
      }
      left := left - |layer|;
    }
    assert view[|refs|..] == [];
    return None;
  }

  /** The `len` that each list carries: a copy takes it over, a push counts it up. */
  function LenAfter<T>(lens: map<TableId, nat>, next: TableId, op: Op<T>): map<TableId, nat> {
    match op
    case New => lens[next := 0]
    case Clone(t) => if t in lens then lens[next := lens[t]] else lens
    case Add(t, _) => if t in lens then lens[t := lens[t] + 1] else lens
    case Drop(t) => lens - {t}
  }

  ghost predicate Lens<T>(lens: map<TableId, nat>, run: Run<T>)
    requires Sound(run)
  {
    lens.Keys == run.live && forall t :: t in run.live ==> lens[t] == |run.given[t]|
  }

  lemma LenFollows<T>(lens: map<TableId, nat>, run: Run<T>, op: Op<T>)
    requires Sound(run) && Lens(lens, run)
    ensures Lens(LenAfter(lens, |run.given|, op), After(run, op))
  {
  }

  /**
    The list `t` of a run: while it is there it shows the rows that a plain list shows which was
    copied whole, in few layers of the doubling shape, and in one layer of its own if it was never
    copied. What was copied for its pushes stays within the amortised bound, and so does what was
    copied at all if rows were pushed to no other list.
   */
  ghost predicate ListIsRight<T(!new)>(m: Mem<seq<T>>, ops: seq<Op<T>>, history: seq<seq<bool>>, paid: seq<nat>, t: TableId)
    requires Follows(m, RowsKind<T>(), PushAny<T>(), RunOf(ops), history, paid) && t < |paid|
  {
    var rows := RunOf(ops).given[t];
    && (t in m.tables ==> RowsOf(m, t) == rows && View(m, t) == RowLayers(rows, history[t]))
    && (t in m.tables ==> InFewLayers(View(m, t), RowsKind<T>().len, |rows|))
    && (t in m.tables && NeverCopied(ops, t) ==> InOneOwnLayer(m, t))
    && Amortised(paid[t], |rows|)
    && (RunOf(ops).filled <= {t} ==> Amortised(Sum(paid), |rows|))
  }

  /** Every run of new, clone, push and drop on any number of lists that share layers. */
  method PlayRows<T(!new)>(ops: seq<Op<T>>)
    returns (store: Store<seq<T>>, lens: map<TableId, nat>, paid: seq<nat>, ghost history: seq<seq<bool>>)
    ensures Follows(store.Now(), RowsKind<T>(), PushAny<T>(), RunOf(ops), history, paid)
    ensures store.copied == Sum(paid) && Lens(lens, RunOf(ops))
    ensures forall t :: 0 <= t < |paid| ==> ListIsRight(store.Now(), ops, history, paid, t)
  {
    store := new Store<seq<T>>(RowsKind<T>());
    lens, paid, history := map[], [], [];
    for i := 0 to |ops|
      invariant Follows(store.Now(), RowsKind<T>(), PushAny<T>(), RunOf(ops[..i]), history, paid)
      invariant store.copied == Sum(paid) && Lens(lens, RunOf(ops[..i]))
      invariant store.kind == RowsKind<T>() && fresh(store)
    {
      hide Valid, Accounts, Grown, SoleAreAlone, Lens, LenAfter, After, Sum, RowsKind, PushAny;
      assert ops[..i + 1][..i] == ops[..i];
      LenFollows(lens, RunOf(ops[..i]), ops[i]);
      FollowsIs(store.Now(), store.kind, PushAny<T>(), RunOf(ops[..i]), history, paid);
      lens := LenAfter(lens, store.nextTable, ops[i]);
      paid, history := Step(store, PushAny<T>(), ops[i], paid, RunOf(ops[..i]), history);
    }
    assert ops[..|ops|] == ops;
    hide Follows, Lens, RunOf, ListIsRight, Sum;
    forall t | 0 <= t < |paid|
      ensures ListIsRight(store.Now(), ops, history, paid, t)
    {
      RowsRun(store.Now(), ops, history, paid, t);
    }
  }

  lemma RowsRun<T(!new)>(m: Mem<seq<T>>, ops: seq<Op<T>>, history: seq<seq<bool>>, paid: seq<nat>, t: TableId)
    requires Follows(m, RowsKind<T>(), PushAny<T>(), RunOf(ops), history, paid) && t < |paid|
    ensures ListIsRight(m, ops, history, paid, t)
  {
    RowsAreBuiltAlike(RunOf(ops).given[t], history[t]);
    RowLayersHoldTheRows(RunOf(ops).given[t], history[t]);
    hide RunOf, Valid, InFewLayers, Alike, Flat, InOneOwnLayer, NeverCopied, Amortised, SoleAreAlone;
    RunIsCheap(m, RowsKind<T>(), PushAny<T>(), ops, history, paid, t);
    if t in m.tables && NeverCopied(ops, t) {
      NeverCopiedIsOneLayer(m, RowsKind<T>(), PushAny<T>(), ops, history, paid, t);
    }
  }

  /** `Rows::push` on one of several tables. */
  method PushRow<T(!new)>(store: Store<seq<T>>, t: TableId, row: T)
    requires Valid(store.Now()) && t in store.tables && store.kind == RowsKind<T>()
    modifies store
    ensures Valid(store.Now()) && store.tables.Keys == old(store.tables.Keys)
    ensures RowsOf(store.Now(), t) == old(RowsOf(store.Now(), t)) + [row]
    ensures OthersSame(old(store.Now()), store.Now(), t)
  {
    PushAppends(View(store.Now(), t), Owns(store.Now(), t), row);
    store.AddRow(t, PushTo(row));
  }

  // ---------------------------------------------------------------- maps

  function MapKind<K, V>(): Kind<map<K, V>> {
    Kind(map[], (m: map<K, V>) => |m|, (older: map<K, V>, newer: map<K, V>) => older + newer)
  }

  function InsertIn<K, V>(k: K, v: V): map<K, V> -> map<K, V> {
    (m: map<K, V>) => m[k := v]
  }

  /** What the first layer says that has the key. */
  function Lookup<K, V>(layers: seq<map<K, V>>, k: K): Option<V> {
    if layers == [] then None
    else if k in layers[0] then Some(layers[0][k])
    else Lookup(layers[1..], k)
  }

  /** What the newest layer says that has the key. */
  function Newest<K, V>(layers: seq<map<K, V>>, k: K): Option<V> {
    if layers == [] then None
    else if k in layers[|layers| - 1] then Some(layers[|layers| - 1][k])
    else Newest(layers[..|layers| - 1], k)
  }

  lemma {:induction false} LookupAppend<K, V>(a: seq<map<K, V>>, b: seq<map<K, V>>, k: K)
    ensures Lookup(a + b, k) == if Lookup(a, k).Some? then Lookup(a, k) else Lookup(b, k)
  {
    if a == [] {
      assert a + b == b;
    } else {
      assert (a + b)[1..] == a[1..] + b;
      LookupAppend(a[1..], b, k);
    }
  }

  /** Layers made one say what the newest of them said. */
  lemma NewestOfJoined<K, V>(init: seq<map<K, V>>, older: map<K, V>, newer: map<K, V>, k: K)
    ensures Newest(init + [older + newer], k) == Newest(init + [older, newer], k)
  {
    assert (init + [older + newer])[..|init|] == init;
    assert (init + [older, newer])[..|init| + 1] == init + [older];
    assert (init + [older])[..|init|] == init;
  }

  /** Settling keeps what the newest layer with a key says. */
  lemma {:induction false} SettleKeepsNewest<K(!new), V(!new)>(
    layers: seq<map<K, V>>, len: map<K, V> -> nat, join: (map<K, V>, map<K, V>) -> map<K, V>, k: K)
    requires forall a, b :: join(a, b) == a + b
    ensures Newest(Settle(layers, len, join), k) == Newest(layers, k)
    decreases |layers|
  {
    var n := |layers|;
    SettleStep(layers, len, join);
    hide Settle;
    if LastTooClose(layers, len) {
      var init, older, newer := layers[..n - 2], layers[n - 2], layers[n - 1];
      var merged := Merged(layers, join);
      assert Newest(merged, k) == Newest(layers, k) by {
        assert layers == init + [older, newer];
        NewestOfJoined(init, older, newer, k);
      }
      SettleKeepsNewest(merged, len, join, k);
    }
  }

  /** What the newest layer says, the last of the settled layers says. */
  lemma {:induction false} SettleKeepsLast<K(!new), V(!new)>(
    layers: seq<map<K, V>>, len: map<K, V> -> nat, join: (map<K, V>, map<K, V>) -> map<K, V>, k: K)
    requires forall a, b :: join(a, b) == a + b
    requires layers != [] && k in layers[|layers| - 1]
    ensures var settled := Settle(layers, len, join);
            settled != [] && k in settled[|settled| - 1] && settled[|settled| - 1][k] == layers[|layers| - 1][k]
    decreases |layers|
  {
    SettleStep(layers, len, join);
    hide Settle;
    if LastTooClose(layers, len) {
      SettleKeepsLast(Merged(layers, join), len, join, k);
    }
  }

  function Inserted<K, V>(layers: seq<map<K, V>>, own: bool, k: K, v: V): seq<map<K, V>> {
    var kind := MapKind<K, V>();
    AddRow(layers, own, InsertIn(k, v), kind.alone, kind.len, kind.join)
  }

  /** The keys of some layers. */
  ghost function KeysOf<K, V>(layers: seq<map<K, V>>): set<K> {
    if layers == [] then {} else layers[0].Keys + KeysOf(layers[1..])
  }

  lemma {:induction false} KeysAppend<K, V>(a: seq<map<K, V>>, b: seq<map<K, V>>)
    ensures KeysOf(a + b) == KeysOf(a) + KeysOf(b)
  {
    if a == [] {
      assert a + b == b;
    } else {
      assert (a + b)[1..] == a[1..] + b;
      KeysAppend(a[1..], b);
    }
  }

  lemma KeysOfOne<K, V>(layer: map<K, V>)
    ensures KeysOf([layer]) == layer.Keys
  {
  }

  lemma {:induction false} KeyIsThere<K, V>(layers: seq<map<K, V>>, k: K)
    ensures k in KeysOf(layers) <==> exists i :: 0 <= i < |layers| && k in layers[i]
  {
    if layers != [] {
      KeyIsThere(layers[1..], k);
      if i :| 0 <= i < |layers| && k in layers[i] {
        assert i > 0 ==> layers[1..][i - 1] == layers[i];
      }
      if i :| 0 <= i < |layers[1..]| && k in layers[1..][i] {
        assert layers[i + 1] == layers[1..][i];
      }
    }
  }

  /**
    Settling stops behind the newest layer that is more than twice as large as all behind it made
    one: it is at `j` that the layers which are left alone end.
   */
  ghost predicate StopsAt<K, V>(layers: seq<map<K, V>>, j: int) {
    0 <= j < |layers| - 1 && |layers[j]| > 2 * |KeysOf(layers[j + 1..])|
  }

  lemma MapMerge<K, V>(layers: seq<map<K, V>>)
    ensures LastTooClose(layers, MapKind<K, V>().len) <==>
            |layers| >= 2 && |layers[|layers| - 2]| <= 2 * |layers[|layers| - 1]|
    ensures |layers| >= 2 ==>
              Merged(layers, MapKind<K, V>().join) == layers[..|layers| - 2] + [layers[|layers| - 2] + layers[|layers| - 1]]
  {
  }

  /** The number of layers that settling leaves, from the layers alone. */
  lemma {:induction false} SettleStops<K, V>(layers: seq<map<K, V>>)
    requires layers != []
    ensures var m := |Settle(layers, MapKind<K, V>().len, MapKind<K, V>().join)|;
            && 1 <= m <= |layers| && (m >= 2 ==> StopsAt(layers, m - 2))
            && forall j :: m - 1 <= j ==> !StopsAt(layers, j)
    decreases |layers|
  {
    hide StopsAt, Settle, MapKind, Merged, LastTooClose;
    var kind := MapKind<K, V>();
    SettleStep(layers, kind.len, kind.join);
    MapMerge(layers);
    LastStop(layers);
    if LastTooClose(layers, kind.len) {
      var merged := Merged(layers, kind.join);
      MergedStops(layers, merged);
      SettleStops(merged);
    }
  }

  lemma MergedStops<K, V>(layers: seq<map<K, V>>, merged: seq<map<K, V>>)
    requires |layers| >= 2
    requires merged == layers[..|layers| - 2] + [layers[|layers| - 2] + layers[|layers| - 1]]
    ensures forall j :: j < |layers| - 2 ==> (StopsAt(layers, j) <==> StopsAt(merged, j))
  {
    forall j | 0 <= j < |layers| - 2
      ensures StopsAt(layers, j) <==> StopsAt(merged, j)
    {
      MergedKeys(layers, merged, j + 1);
    }
  }

  lemma LastStop<K, V>(layers: seq<map<K, V>>)
    requires layers != []
    ensures StopsAt(layers, |layers| - 2) <==> |layers| >= 2 && |layers[|layers| - 2]| > 2 * |layers[|layers| - 1]|
    ensures forall j :: j >= |layers| - 1 ==> !StopsAt(layers, j)
  {
    var n := |layers|;
    assert layers[n - 1..] == [layers[n - 1]];
    KeysOfOne(layers[n - 1]);
  }

  lemma MergedKeys<K, V>(layers: seq<map<K, V>>, merged: seq<map<K, V>>, j: nat)
    requires |layers| >= 2 && j <= |layers| - 2
    requires merged == layers[..|layers| - 2] + [layers[|layers| - 2] + layers[|layers| - 1]]
    ensures KeysOf(merged[j..]) == KeysOf(layers[j..])
  {
    var n := |layers|;
    var mid, older, newer := layers[j..n - 2], layers[n - 2], layers[n - 1];
    assert merged[j..] == mid + [older + newer] && layers[j..] == mid + [older] + [newer];
    KeysAppend(mid, [older + newer]);
    KeysAppend(mid + [older], [newer]);
    KeysAppend(mid, [older]);
    KeysOfOne(older);
    KeysOfOne(newer);
    KeysOfOne(older + newer);
  }

  /** The layer `j` is more than twice as large as all that follows it with the key, made one. */
  ghost predicate Stands<K, V>(layers: seq<map<K, V>>, own: bool, k: K, j: int) {
    0 <= j < |layers| - One(own) && |layers[j]| > 2 * |KeysOf(layers[j + 1..]) + {k}|
  }

  /** A layer that has the key, or one behind it, stands when the key is given a value again. */
  ghost predicate OutOfReach<K, V>(layers: seq<map<K, V>>, own: bool, k: K) {
    exists i, j :: 0 <= i <= j < |layers| && k in layers[i] && Stands(layers, own, k, j)
  }

  /**
    What becomes of a key that is given a value again, which the debug assertion forbids: it keeps
    the value it has exactly where settling does not reach a layer that has it.
   */
  lemma InsertAgain<K(!new), V(!new)>(layers: seq<map<K, V>>, own: bool, k: K, v: V)
    ensures Lookup(Inserted(layers, own, k, v), k) == if OutOfReach(layers, own, k) then Lookup(layers, k) else Some(v)
    ensures Lookup(Inserted(layers, own, k, v), k) == Lookup(layers, k) <==>
            OutOfReach(layers, own, k) || Lookup(layers, k) == Some(v)
  {
    var m := |Inserted(layers, own, k, v)|;
    hide Inserted, OutOfReach;
    InsertedFront(layers, own, k, v);
    ReachOfInsert(layers, own, k, v);
    assert layers == layers[..m - 1] + layers[m - 1..];
    LookupAppend(layers[..m - 1], layers[m - 1..], k);
    hide Lookup;
    LookupThere(layers[..m - 1], k);
  }

  lemma InsertedFront<K(!new), V(!new)>(layers: seq<map<K, V>>, own: bool, k: K, v: V)
    ensures var after := Inserted(layers, own, k, v);
            && 1 <= |after| <= |layers| + 1
            && Lookup(after, k) ==
                 if Lookup(layers[..|after| - 1], k).Some? then Lookup(layers[..|after| - 1], k) else Some(v)
  {
    var placed, after := Placed(layers, own, InsertIn(k, v), map[]), Inserted(layers, own, k, v);
    var m := |after|;
    SettleFront(placed, MapKind<K, V>().len, MapKind<K, V>().join);
    SettleKeepsLast(placed, MapKind<K, V>().len, MapKind<K, V>().join, k);
    PlacedFront(layers, own, InsertIn(k, v), map[], m - 1);
    LookupInLast(after, k);
  }

  lemma PlacedKeys<K, V>(layers: seq<map<K, V>>, own: bool, k: K, v: V, j: nat)
    requires j < |Placed(layers, own, InsertIn(k, v), map[])|
    ensures j <= |layers| && KeysOf(Placed(layers, own, InsertIn(k, v), map[])[j..]) == KeysOf(layers[j..]) + {k}
  {
    var n, placed := |layers|, Placed(layers, own, InsertIn(k, v), map[]);
    if n > 0 && own {
      var mid, last := layers[j..n - 1], layers[n - 1];
      assert placed[j..] == mid + [last[k := v]] && layers[j..] == mid + [last];
      KeysAppend(mid, [last[k := v]]);
      KeysAppend(mid, [last]);
      KeysOfOne(last);
      KeysOfOne(last[k := v]);
    } else {
      var none: map<K, V> := map[];
      assert placed[j..] == layers[j..] + [none[k := v]];
      KeysAppend(layers[j..], [none[k := v]]);
      KeysOfOne(none[k := v]);
    }
  }

  lemma StopsAtPlaced<K, V>(layers: seq<map<K, V>>, own: bool, k: K, v: V, j: int)
    ensures StopsAt(Placed(layers, own, InsertIn(k, v), map[]), j) <==> Stands(layers, own, k, j)
  {
    var placed := Placed(layers, own, InsertIn(k, v), map[]);
    if 0 <= j < |placed| - 1 {
      assert placed[j] == layers[j];
      PlacedKeys(layers, own, k, v, j + 1);
    }
  }

  lemma ReachOf<K, V>(layers: seq<map<K, V>>, own: bool, k: K, v: V, m: nat)
    requires var placed := Placed(layers, own, InsertIn(k, v), map[]);
             1 <= m <= |placed| && (m >= 2 ==> StopsAt(placed, m - 2)) && forall j :: m - 1 <= j ==> !StopsAt(placed, j)
    ensures m <= |layers| + 1 && (OutOfReach(layers, own, k) <==> exists i :: 0 <= i < m - 1 && k in layers[i])
  {
    hide StopsAt, Stands;
    if OutOfReach(layers, own, k) {
      var i, j :| 0 <= i <= j < |layers| && k in layers[i] && Stands(layers, own, k, j);
      StopsAtPlaced(layers, own, k, v, j);
      assert i < m - 1;
    }
    if i :| 0 <= i < m - 1 && k in layers[i] {
      StopsAtPlaced(layers, own, k, v, m - 2);
      assert i <= m - 2;
    }
  }

  lemma ReachOfInsert<K(!new), V(!new)>(layers: seq<map<K, V>>, own: bool, k: K, v: V)
    ensures 1 <= |Inserted(layers, own, k, v)| <= |layers| + 1
    ensures OutOfReach(layers, own, k) <==> exists i :: 0 <= i < |Inserted(layers, own, k, v)| - 1 && k in layers[i]
  {
    hide StopsAt, OutOfReach, Settle;
    SettleStops(Placed(layers, own, InsertIn(k, v), map[]));
    ReachOf(layers, own, k, v, |Inserted(layers, own, k, v)|);
  }

  lemma LookupInLast<K, V>(layers: seq<map<K, V>>, k: K)
    requires layers != [] && k in layers[|layers| - 1]
    ensures Lookup(layers, k) ==
            var front := Lookup(layers[..|layers| - 1], k);
            if front.Some? then front else Some(layers[|layers| - 1][k])
  {
    var m := |layers|;
    assert layers == layers[..m - 1] + [layers[m - 1]];
    LookupAppend(layers[..m - 1], [layers[m - 1]], k);
  }

  lemma PlacedFront<L>(layers: seq<L>, own: bool, add: L -> L, alone: L, n: nat)
    requires n < |Placed(layers, own, add, alone)|
    ensures n <= |layers| && Placed(layers, own, add, alone)[..n] == layers[..n]
  {
  }

  /** A key in the newest layer, which nobody shares, does not keep its value. */
  lemma KeyGivenAgainIsReplaced()
    ensures Lookup(Inserted([map[1 := 10]], true, 1, 20), 1) == Some(20)
    ensures Lookup([map[1 := 10]], 1) == Some(10)
  {
    var layers: seq<map<int, int>> := [map[1 := 10]];
    InsertAgain(layers, true, 1, 20);
    assert !OutOfReach(layers, true, 1);
  }

  ghost predicate Disjoint<K, V>(layers: seq<map<K, V>>) {
    forall i, j :: 0 <= i < j < |layers| ==> layers[i].Keys !! layers[j].Keys
  }

  lemma {:induction false} LookupThere<K, V>(layers: seq<map<K, V>>, k: K)
    ensures Lookup(layers, k).Some? ==>
              exists i :: 0 <= i < |layers| && k in layers[i] && Lookup(layers, k) == Some(layers[i][k])
    ensures Lookup(layers, k).None? ==> forall i :: 0 <= i < |layers| ==> k !in layers[i]
  {
    if layers != [] && k !in layers[0] {
      LookupThere(layers[1..], k);
      if Lookup(layers, k).Some? {
        var i :| 0 <= i < |layers[1..]| && k in layers[1..][i] && Lookup(layers[1..], k) == Some(layers[1..][i][k]);
        assert layers[i + 1] == layers[1..][i];
      } else {
        forall i | 0 <= i < |layers|
          ensures k !in layers[i]
        {
          if i > 0 {
            assert layers[i] == layers[1..][i - 1];
          }
        }
      }
    }
  }

  lemma {:induction false} NewestThere<K, V>(layers: seq<map<K, V>>, k: K)
    ensures Newest(layers, k).Some? ==>
              exists i :: 0 <= i < |layers| && k in layers[i] && Newest(layers, k) == Some(layers[i][k])
    ensures Newest(layers, k).None? ==> forall i :: 0 <= i < |layers| ==> k !in layers[i]
  {
    if layers != [] && k !in layers[|layers| - 1] {
      NewestThere(layers[..|layers| - 1], k);
    }
  }

  lemma NewestIsLookup<K, V>(layers: seq<map<K, V>>, k: K)
    requires Disjoint(layers)
    ensures Newest(layers, k) == Lookup(layers, k)
  {
    LookupThere(layers, k);
    NewestThere(layers, k);
  }

  lemma {:induction false} SettleKeepsDisjoint<K(!new), V(!new)>(
    layers: seq<map<K, V>>, len: map<K, V> -> nat, join: (map<K, V>, map<K, V>) -> map<K, V>)
    requires forall a, b :: join(a, b) == a + b
    requires Disjoint(layers)
    ensures Disjoint(Settle(layers, len, join))
    decreases |layers|
  {
    SettleStep(layers, len, join);
    hide Settle;
    if LastTooClose(layers, len) {
      MergedDisjoint(layers, Merged(layers, join));
      SettleKeepsDisjoint(Merged(layers, join), len, join);
    }
  }

  lemma LookupOne<K, V>(layer: map<K, V>, k: K)
    ensures Lookup([layer], k) == if k in layer then Some(layer[k]) else None
  {
  }

  lemma LookupPlaced<K, V>(layers: seq<map<K, V>>, own: bool, k: K, v: V, x: K)
    requires forall i :: 0 <= i < |layers| ==> k !in layers[i]
    ensures Lookup(Placed(layers, own, InsertIn(k, v), map[]), x) == if x == k then Some(v) else Lookup(layers, x)
  {
    var n := |layers|;
    LookupThere(layers, k);
    if n > 0 && own {
      var front, last := layers[..n - 1], layers[n - 1];
      assert layers == front + [last];
      LookupAppend(front, [last], x);
      LookupAppend(front, [last[k := v]], x);
      LookupThere(front, k);
      LookupOne(last, x);
      LookupOne(last[k := v], x);
      hide Lookup;
    } else {
      var none: map<K, V> := map[];
      assert InsertIn(k, v)(none) == none[k := v];
      LookupAppend(layers, [none[k := v]], x);
      LookupOne(none[k := v], x);
      hide Lookup;
    }
  }

  /** Each key given a value once: the layers say what a plain map says. */
  lemma InsertFresh<K(!new), V(!new)>(layers: seq<map<K, V>>, own: bool, k: K, v: V, x: K)
    requires Disjoint(layers) && Lookup(layers, k).None?
    ensures Disjoint(Inserted(layers, own, k, v))
    ensures Lookup(Inserted(layers, own, k, v), x) == if x == k then Some(v) else Lookup(layers, x)
  {
    var kind := MapKind<K, V>();
    var placed := Placed(layers, own, InsertIn(k, v), map[]);
    LookupThere(layers, k);
    assert Disjoint(placed);
    SettleKeepsDisjoint(placed, kind.len, kind.join);
    SettleKeepsNewest(placed, kind.len, kind.join, x);
    NewestIsLookup(placed, x);
    NewestIsLookup(Inserted(layers, own, k, v), x);
    LookupPlaced(layers, own, k, v, x);
  }

  // ---------------------------------------------------------------- the shape of a map's layers

  lemma UnionSize<K, V>(a: map<K, V>, b: map<K, V>)
    requires a.Keys !! b.Keys
    ensures |a + b| == |a| + |b|
  {
    assert (a + b).Keys == a.Keys + b.Keys;
    assert |a.Keys + b.Keys| == |a.Keys| + |b.Keys|;
  }

  lemma {:induction false} DisjointAddsUp<K(!new), V(!new)>(
    layers: seq<map<K, V>>, len: map<K, V> -> nat, join: (map<K, V>, map<K, V>) -> map<K, V>)
    requires (forall a, b :: join(a, b) == a + b) && (forall a :: len(a) == |a|) && Disjoint(layers)
    ensures AddsUp(layers, len, join)
    decreases |layers|
  {
    if LastTooClose(layers, len) {
      UnionSize(layers[|layers| - 2], layers[|layers| - 1]);
      MergedDisjoint(layers, Merged(layers, join));
      DisjointAddsUp(Merged(layers, join), len, join);
    }
  }

  lemma MergedDisjoint<K, V>(layers: seq<map<K, V>>, merged: seq<map<K, V>>)
    requires |layers| >= 2 && Disjoint(layers)
    requires merged == layers[..|layers| - 2] + [layers[|layers| - 2] + layers[|layers| - 1]]
    ensures Disjoint(merged)
  {
  }

  /** A map's layers keep the shape, as long as each key is given a value once. */
  lemma InsertKeepsTheShape<K(!new), V(!new)>(layers: seq<map<K, V>>, own: bool, k: K, v: V)
    requires Disjoint(layers) && Lookup(layers, k).None? && Shaped(layers, MapKind<K, V>().len)
    ensures Shaped(Inserted(layers, own, k, v), MapKind<K, V>().len)
    ensures Total(Inserted(layers, own, k, v), MapKind<K, V>().len) == Total(layers, MapKind<K, V>().len) + 1
  {
    var kind, add := MapKind<K, V>(), InsertIn(k, v);
    LookupThere(layers, k);
    PlacedDisjoint(layers, own, k, add, map[]);
    DisjointAddsUp(Placed(layers, own, add, map[]), kind.len, kind.join);
    AddRowKeepsTheShape(layers, own, add, map[], kind.len, kind.join);
  }

  /** Where the layers have no key twice, the keys of some layers are as many as their sizes make up. */
  lemma {:induction false} KeysAddUp<K, V>(layers: seq<map<K, V>>)
    requires Disjoint(layers)
    ensures |KeysOf(layers)| == Total(layers, MapKind<K, V>().len)
  {
    if layers != [] {
      var n := |layers| - 1;
      var init, last := layers[..n], layers[n];
      KeysAddUp(init);
      KeysOfLast(layers);
      hide KeysOf, Disjoint;
      assert |KeysOf(init) + last.Keys| == |KeysOf(init)| + |last.Keys|;
    }
  }

  lemma KeysOfLast<K, V>(layers: seq<map<K, V>>)
    requires layers != [] && Disjoint(layers)
    ensures var init, last := layers[..|layers| - 1], layers[|layers| - 1];
            KeysOf(layers) == KeysOf(init) + last.Keys && KeysOf(init) !! last.Keys
  {
    var init, last := layers[..|layers| - 1], layers[|layers| - 1];
    assert layers == init + [last];
    KeysAppend(init, [last]);
    KeysOfOne(last);
    hide KeysOf;
    forall k | k in last
      ensures k !in KeysOf(init)
    {
      KeyIsThere(init, k);
    }
  }

  /** The same by the layers' sizes: the layer is more than twice as large as those behind it and one row. */
  ghost predicate StandsBySize<K, V>(layers: seq<map<K, V>>, own: bool, j: int) {
    0 <= j < |layers| - One(own) && |layers[j]| > 2 * (Total(layers[j + 1..], MapKind<K, V>().len) + 1)
  }

  /** With each key in one layer, the sizes from that layer on decide what becomes of it. */
  lemma InsertAgainBySize<K(!new), V(!new)>(layers: seq<map<K, V>>, own: bool, k: K, v: V, i: nat)
    requires Disjoint(layers) && i < |layers| && k in layers[i]
    ensures Lookup(layers, k) == Some(layers[i][k])
    ensures Lookup(Inserted(layers, own, k, v), k) ==
            Some(if exists j :: i <= j && StandsBySize(layers, own, j) then layers[i][k] else v)
  {
    InsertAgain(layers, own, k, v);
    LookupThere(layers, k);
    ReachBySize(layers, own, k, i);
  }

  lemma ReachBySize<K, V>(layers: seq<map<K, V>>, own: bool, k: K, i: nat)
    requires Disjoint(layers) && i < |layers| && k in layers[i]
    ensures OutOfReach(layers, own, k) <==> exists j :: i <= j && StandsBySize(layers, own, j)
  {
    if OutOfReach(layers, own, k) {
      var h, j :| 0 <= h <= j < |layers| && k in layers[h] && Stands(layers, own, k, j);
      assert h == i;
      KeysBehind(layers, k, i, j);
      assert StandsBySize(layers, own, j);
    }
    if j :| i <= j && StandsBySize(layers, own, j) {
      KeysBehind(layers, k, i, j);
      assert Stands(layers, own, k, j);
    }
  }

  lemma KeysBehind<K, V>(layers: seq<map<K, V>>, k: K, i: nat, j: nat)
    requires Disjoint(layers) && i <= j < |layers| && k in layers[i]
    ensures |KeysOf(layers[j + 1..]) + {k}| == Total(layers[j + 1..], MapKind<K, V>().len) + 1
  {
    KeysAddUp(layers[j + 1..]);
    KeyIsThere(layers[j + 1..], k);
    assert k !in KeysOf(layers[j + 1..]);
  }

  lemma PlacedDisjoint<K(!new), V(!new)>(layers: seq<map<K, V>>, own: bool, k: K, add: map<K, V> -> map<K, V>, none: map<K, V>)
    requires forall a :: k !in a ==> add(a).Keys == a.Keys + {k}
    requires none == map[] && (forall i :: 0 <= i < |layers| ==> k !in layers[i]) && Disjoint(layers)
    ensures Disjoint(Placed(layers, own, add, none))
  {
  }

  // ---------------------------------------------------------------- maps in a store

  /** `Layers::get`: `Lookup` in the layers, by one layer or by a walk over several. */
  method GetKey<K(!new, ==), V(!new)>(store: Store<map<K, V>>, t: TableId, k: K) returns (value: Option<V>)
    requires Valid(store.Now()) && t in store.tables
    ensures value == Lookup(View(store.Now(), t), k)
  {
    var refs := store.tables[t];
    ghost var view := View(store.Now(), t);
    assert Held(store.heap, refs);
    if |refs| == 1 {
      var only := store.heap[refs[0]];
      assert view[1..] == [];
      return if k in only then Some(only[k]) else None;
    }
    assert view[0..] == view;
    for i := 0 to |refs|
      invariant Lookup(view, k) == Lookup(view[i..], k)
    {
      var layer := store.heap[refs[i]];
      assert view[i..][1..] == view[i + 1..];
      if k in layer {
        return Some(layer[k]);
      }
    }
    return None;
  }

  /** `Layers::insert` on one of several maps that share layers: it shows the key, and no other does. */
  method InsertKey<K(!new), V(!new)>(store: Store<map<K, V>>, t: TableId, k: K, v: V, ghost plain: map<K, V>)
    requires store.kind == MapKind<K, V>()
    requires Valid(store.Now()) && t in store.tables && Answers(View(store.Now(), t), plain) && k !in plain
    modifies store
    ensures Valid(store.Now()) && store.tables.Keys == old(store.tables.Keys) && OthersSame(old(store.Now()), store.Now(), t)
    ensures Answers(View(store.Now(), t), plain[k := v])
  {
    ghost var view, own := View(store.Now(), t), Owns(store.Now(), t);
    InsertAnswers(view, plain, own, k, v);
    hide Answers, Valid;
    store.AddRow(t, InsertIn(k, v));
    assert View(store.Now(), t) == Inserted(view, own, k, v);
  }

  function InsertAny<K, V>(): ((K, V)) -> map<K, V> -> map<K, V> {
    (row: (K, V)) => InsertIn(row.0, row.1)
  }

  /** The plain map of some insertions. */
  function MapOf<K, V>(rows: seq<(K, V)>): map<K, V> {
    if rows == [] then map[] else MapOf(rows[..|rows| - 1])[rows[|rows| - 1].0 := rows[|rows| - 1].1]
  }

  /** No key is given a value twice, as the debug assertion demands. */
  ghost predicate FreshKeys<K, V>(rows: seq<(K, V)>) {
    forall i, j :: 0 <= i < j < |rows| ==> rows[i].0 != rows[j].0
  }

  function MapLayers<K, V>(rows: seq<(K, V)>, history: seq<bool>): seq<map<K, V>>
    requires |rows| == |history|
  {
    LayersOf(MapKind<K, V>(), InsertAny<K, V>(), rows, history)
  }

  lemma {:induction false} MapHasTheKeys<K, V>(rows: seq<(K, V)>, k: K)
    ensures k in MapOf(rows) <==> exists i :: 0 <= i < |rows| && rows[i].0 == k
  {
    if rows != [] {
      MapHasTheKeys(rows[..|rows| - 1], k);
    }
  }

  ghost predicate Answers<K(!new), V(!new)>(layers: seq<map<K, V>>, plain: map<K, V>) {
    Disjoint(layers) && forall k :: Lookup(layers, k) == if k in plain then Some(plain[k]) else None
  }

  lemma InsertAnswers<K(!new), V(!new)>(layers: seq<map<K, V>>, plain: map<K, V>, own: bool, k: K, v: V)
    requires Answers(layers, plain) && k !in plain
    ensures Answers(Inserted(layers, own, k, v), plain[k := v])
  {
    hide Disjoint, Inserted;
    InsertFresh(layers, own, k, v, k);
    forall x
      ensures Lookup(Inserted(layers, own, k, v), x) == if x in plain[k := v] then Some(plain[k := v][x]) else None
    {
      InsertFresh(layers, own, k, v, x);
    }
  }

  /** Every history of insertions, each key once, makes layers that answer as the plain map does. */
  lemma {:induction false} MapLayersAnswer<K(!new), V(!new)>(rows: seq<(K, V)>, history: seq<bool>)
    requires |rows| == |history| && FreshKeys(rows)
    ensures Answers(MapLayers(rows, history), MapOf(rows))
  {
    if rows != [] {
      var n := |rows| - 1;
      MapLayersAnswer(rows[..n], history[..n]);
      MapHasTheKeys(rows[..n], rows[n].0);
      InsertAnswers(MapLayers(rows[..n], history[..n]), MapOf(rows[..n]), history[n], rows[n].0, rows[n].1);
    }
  }

  lemma PlacedMapAlike<K(!new), V(!new)>(a: seq<map<K, V>>, b: seq<Copies>, own: bool, k: K, v: V)
    requires SameSizes(a, b, MapKind<K, V>().len, Size()) && Disjoint(a) && Lookup(a, k).None?
    ensures SameSizes(Placed(a, own, InsertIn(k, v), map[]), Placed(b, own, NewRow(), []), MapKind<K, V>().len, Size())
    ensures AddsUp(Placed(a, own, InsertIn(k, v), map[]), MapKind<K, V>().len, MapKind<K, V>().join)
  {
    LookupThere(a, k);
    PlacedMapSizes(a, b, own, k, v);
    hide SameSizes, AddsUp, Lookup, NewRow, Size;
    PlacedDisjoint(a, own, k, InsertIn(k, v), map[]);
    hide Disjoint;
    DisjointAddsUp(Placed(a, own, InsertIn(k, v), map[]), MapKind<K, V>().len, MapKind<K, V>().join);
  }

  lemma PlacedMapSizes<K, V>(a: seq<map<K, V>>, b: seq<Copies>, own: bool, k: K, v: V)
    requires SameSizes(a, b, MapKind<K, V>().len, Size()) && forall i :: 0 <= i < |a| ==> k !in a[i]
    ensures SameSizes(Placed(a, own, InsertIn(k, v), map[]), Placed(b, own, NewRow(), []), MapKind<K, V>().len, Size())
  {
  }

  /** The layers of a map have the sizes and the cost that its history gives them. */
  lemma {:induction false} MapsAreBuiltAlike<K(!new), V(!new)>(rows: seq<(K, V)>, history: seq<bool>)
    requires |rows| == |history| && FreshKeys(rows)
    ensures Alike(MapKind<K, V>(), InsertAny<K, V>(), rows, history)
  {
    if rows != [] {
      var n := |rows| - 1;
      MapsAreBuiltAlike(rows[..n], history[..n]);
      MapLayersAnswer(rows[..n], history[..n]);
      MapHasTheKeys(rows[..n], rows[n].0);
      PlacedMapAlike(MapLayers(rows[..n], history[..n]), Built(history[..n]), history[n], rows[n].0, rows[n].1);
      hide Placed, SameSizes, AddsUp, Alike, Answers, FreshKeys, MapOf;
      AlikeGoesOn(MapKind<K, V>(), InsertAny<K, V>(), rows, history);
    }
  }

  /**
    The map `t` of a run: if its keys were given values once, it answers while it is there as a plain
    map does which was copied whole, in few layers of the doubling shape, and the copying stays
    within the amortised bound. It has one layer of its own if it was never copied.
   */
  ghost predicate MapIsRight<K(!new), V(!new)>(
    m: Mem<map<K, V>>, ops: seq<Op<(K, V)>>, history: seq<seq<bool>>, paid: seq<nat>, t: TableId)
    requires Follows(m, MapKind<K, V>(), InsertAny<K, V>(), RunOf(ops), history, paid) && t < |paid|
  {
    var rows := RunOf(ops).given[t];
    && (t in m.tables && FreshKeys(rows) ==> Answers(View(m, t), MapOf(rows)))
    && (t in m.tables && FreshKeys(rows) ==> InFewLayers(View(m, t), MapKind<K, V>().len, |rows|))
    && (t in m.tables && NeverCopied(ops, t) ==> InOneOwnLayer(m, t))
    && (FreshKeys(rows) ==> Amortised(paid[t], |rows|))
    && (FreshKeys(rows) && RunOf(ops).filled <= {t} ==> Amortised(Sum(paid), |rows|))
  }

  /** Every run of new, clone, insert and drop on any number of maps that share layers. */
  method PlayMaps<K(!new), V(!new)>(ops: seq<Op<(K, V)>>)
    returns (store: Store<map<K, V>>, paid: seq<nat>, ghost history: seq<seq<bool>>)
    ensures Follows(store.Now(), MapKind<K, V>(), InsertAny<K, V>(), RunOf(ops), history, paid) && store.copied == Sum(paid)
    ensures forall t :: 0 <= t < |paid| ==> MapIsRight(store.Now(), ops, history, paid, t)
  {
    store := new Store<map<K, V>>(MapKind<K, V>());
    paid, history := [], [];
    for i := 0 to |ops|
      invariant Follows(store.Now(), MapKind<K, V>(), InsertAny<K, V>(), RunOf(ops[..i]), history, paid)
      invariant store.copied == Sum(paid) && store.kind == MapKind<K, V>() && fresh(store)
    {
      hide Follows, Sum, After, MapKind, InsertAny;
      assert ops[..i + 1][..i] == ops[..i];
      paid, history := Step(store, InsertAny<K, V>(), ops[i], paid, RunOf(ops[..i]), history);
    }
    assert ops[..|ops|] == ops;
    hide Follows, RunOf, MapIsRight, Sum;
    forall t | 0 <= t < |paid|
      ensures MapIsRight(store.Now(), ops, history, paid, t)
    {
      MapsRun(store.Now(), ops, history, paid, t);
    }
  }

  lemma MapsRun<K(!new), V(!new)>(m: Mem<map<K, V>>, ops: seq<Op<(K, V)>>, history: seq<seq<bool>>, paid: seq<nat>, t: TableId)
    requires Follows(m, MapKind<K, V>(), InsertAny<K, V>(), RunOf(ops), history, paid) && t < |paid|
    ensures MapIsRight(m, ops, history, paid, t)
  {
    var rows := RunOf(ops).given[t];
    hide RunOf, Valid, InFewLayers, Alike, InOneOwnLayer, NeverCopied, Amortised, SoleAreAlone, Answers, FreshKeys;
    if FreshKeys(rows) {
      MapsAreBuiltAlike(rows, history[t]);
      MapLayersAnswer(rows, history[t]);
      RunIsCheap(m, MapKind<K, V>(), InsertAny<K, V>(), ops, history, paid, t);
    }
    if t in m.tables && NeverCopied(ops, t) {
      NeverCopiedIsOneLayer(m, MapKind<K, V>(), InsertAny<K, V>(), ops, history, paid, t);
    }
  }
}
