/**
  Runs of new, clone, add and drop on any number of tables that share layers: which layers each
  table comes to have, from the rows it was given and from who shared its newest layer at each of
  them, and how many rows were copied.
 */
module TableRuns {
  import opened Basics
  import opened Counting
  import opened LayerShape
  import opened LayeredTables

  datatype Op<R> = New | Clone(of: TableId) | Add(to: TableId, row: R) | Drop(table: TableId)

  /**
    What a run comes to: the rows given to each table ever made, the tables that are there, those
    made new and never copied, and those that rows were added to.
   */
  datatype Run<R> = Run(given: seq<seq<R>>, live: set<TableId>, sole: set<TableId>, filled: set<TableId>)

  ghost predicate Sound<R>(run: Run<R>) {
    && (forall t :: t in run.live ==> t < |run.given|)
    && (forall t :: t in run.sole ==> t < |run.given|)
    && (forall t :: t in run.filled ==> t < |run.given|)
  }

  /** One operation on tables that are copied whole. */
  function After<R>(run: Run<R>, op: Op<R>): (after: Run<R>)
    requires Sound(run)
    ensures Sound(after) && |run.given| <= |after.given|
  {
    var next := |run.given|;
    match op
    case New => run.(given := run.given + [[]], live := run.live + {next}, sole := run.sole + {next})
    case Clone(t) =>
      if t in run.live then
        run.(given := run.given + [run.given[t]], live := run.live + {next}, sole := run.sole - {t})
      else run
    case Add(t, row) =>
      if t in run.live then run.(given := run.given[t := run.given[t] + [row]], filled := run.filled + {t})
      else run
    case Drop(t) => run.(live := run.live - {t})
  }

  function RunOf<R>(ops: seq<Op<R>>): (run: Run<R>)
    ensures Sound(run)
  {
    if ops == [] then Run([], {}, {}, {}) else After(RunOf(ops[..|ops| - 1]), ops[|ops| - 1])
  }

  /** The `i`th operation makes the table `t` new. */
  ghost predicate MadeAt<R>(ops: seq<Op<R>>, i: nat, t: TableId)
    requires i < |ops|
  {
    ops[i].New? && t == |RunOf(ops[..i]).given|
  }

  /** The `i`th operation copies the table `t`. */
  ghost predicate CopiedAt<R>(ops: seq<Op<R>>, i: nat, t: TableId)
    requires i < |ops|
  {
    ops[i] == Clone(t) && t in RunOf(ops[..i]).live
  }

  ghost predicate NeverCopied<R>(ops: seq<Op<R>>, t: TableId) {
    && (exists i :: 0 <= i < |ops| && MadeAt(ops, i, t))
    && (forall i :: 0 <= i < |ops| ==> !CopiedAt(ops, i, t))
  }

  lemma {:induction false} SoleIsNeverCopied<R>(ops: seq<Op<R>>, t: TableId)
    ensures t in RunOf(ops).sole <==> NeverCopied(ops, t)
  {
    if ops != [] {
      var n := |ops| - 1;
      var before, run := ops[..n], RunOf(ops[..n]);
      SoleIsNeverCopied(before, t);
      forall i | 0 <= i < n
        ensures MadeAt(ops, i, t) <==> MadeAt(before, i, t)
        ensures CopiedAt(ops, i, t) <==> CopiedAt(before, i, t)
      {
        assert before[..i] == ops[..i];
      }
      if MadeAt(ops, n, t) {
        forall i | 0 <= i < |ops|
          ensures !CopiedAt(ops, i, t)
        {
          NotYetMade(ops, i, t);
        }
      }
      if t in run.sole {
        var i :| 0 <= i < n && MadeAt(before, i, t);
        assert MadeAt(ops, i, t);
      }
      assert t in RunOf(ops).sole <==> (t in run.sole || MadeAt(ops, n, t)) && !CopiedAt(ops, n, t);
    }
  }

  lemma NotYetMade<R>(ops: seq<Op<R>>, i: nat, t: TableId)
    requires ops != [] && MadeAt(ops, |ops| - 1, t) && i < |ops|
    ensures !CopiedAt(ops, i, t)
  {
    RunGrows(ops, i, |ops| - 1);
  }

  lemma {:induction false} RunGrows<R>(ops: seq<Op<R>>, i: nat, j: nat)
    requires i <= j <= |ops|
    ensures |RunOf(ops[..i]).given| <= |RunOf(ops[..j]).given|
    decreases j
  {
    if i < j {
      RunGrows(ops, i, j - 1);
      assert ops[..j][..j - 1] == ops[..j - 1];
    }
  }

  // ---------------------------------------------------------------- the layers of one table

  /** The layers of a table given `rows`, where `history` says at which of them it was alone with its newest layer. */
  function LayersOf<L, R>(kind: Kind<L>, add: R -> L -> L, rows: seq<R>, history: seq<bool>): seq<L>
    requires |rows| == |history|
  {
    var n := |rows|;
    if n == 0 then []
    else
      AddRow(LayersOf(kind, add, rows[..n - 1], history[..n - 1]), history[n - 1], add(rows[n - 1]),
             kind.alone, kind.len, kind.join)
  }

  /** The rows copied to build it. */
  function CostOf<L, R>(kind: Kind<L>, add: R -> L -> L, rows: seq<R>, history: seq<bool>): nat
    requires |rows| == |history|
  {
    var n := |rows|;
    if n == 0 then 0
    else
      var before := LayersOf(kind, add, rows[..n - 1], history[..n - 1]);
      CostOf(kind, add, rows[..n - 1], history[..n - 1]) +
        SettleCost(Placed(before, history[n - 1], add(rows[n - 1]), kind.alone), kind.len, kind.join)
  }

  lemma LayersOfSnoc<L, R>(kind: Kind<L>, add: R -> L -> L, rows: seq<R>, history: seq<bool>, row: R, own: bool)
    requires |rows| == |history|
    ensures var before := LayersOf(kind, add, rows, history);
            && LayersOf(kind, add, rows + [row], history + [own]) ==
                 AddRow(before, own, add(row), kind.alone, kind.len, kind.join)
            && CostOf(kind, add, rows + [row], history + [own]) ==
                 CostOf(kind, add, rows, history) +
                   SettleCost(Placed(before, own, add(row), kind.alone), kind.len, kind.join)
  {
    assert (rows + [row])[..|rows|] == rows && (history + [own])[..|history|] == history;
  }

  /** A table never shared has its one layer to itself. */
  ghost predicate Alone<L>(m: Mem<L>, t: TableId)
    requires t in m.tables
  {
    |m.tables[t]| <= 1 && forall u, r :: u in m.tables && u != t && r in m.tables[u] ==> r !in m.tables[t]
  }

  /** So that layer is counted once, and the table changes it in place. */
  lemma AloneIsCountedOnce<L>(m: Mem<L>, t: TableId, r: Ref)
    requires Valid(m) && t in m.tables && Alone(m, t) && r in m.tables[t]
    ensures r in m.count && m.count[r] == 1 && Owns(m, t)
  {
    assert Held(m.heap, m.tables[t]);
    CountRemove(m.tables, t, Has(r));
    if Count(m.tables - {t}, Has(r)) > 0 {
      CountedIsThere(m.tables - {t}, Has(r));
    }
  }

  // ---------------------------------------------------------------- the store follows the run

  /** For each table ever made: its history, and the rows copied by additions to it. */
  ghost predicate Accounts<L, R>(kind: Kind<L>, add: R -> L -> L, run: Run<R>, history: seq<seq<bool>>, paid: seq<nat>) {
    && |history| == |paid| == |run.given|
    && (forall t :: 0 <= t < |run.given| ==> |history[t]| == |run.given[t]|)
    && (forall t :: 0 <= t < |run.given| ==> paid[t] <= CostOf(kind, add, run.given[t], history[t]))
    && (forall t :: 0 <= t < |run.given| && t !in run.filled ==> paid[t] == 0)
  }

  /** Each table that is there has the layers of its rows and history. */
  ghost predicate Grown<L, R>(m: Mem<L>, kind: Kind<L>, add: R -> L -> L, run: Run<R>, history: seq<seq<bool>>)
    requires Valid(m) && Sound(run)
  {
    && m.tables.Keys == run.live && m.nextTable == |run.given| == |history|
    && (forall t :: t in run.live ==> |history[t]| == |run.given[t]|)
    && (forall t :: t in run.live ==> View(m, t) == LayersOf(kind, add, run.given[t], history[t]))
  }

  ghost predicate SoleAreAlone<L, R>(m: Mem<L>, run: Run<R>) {
    forall t :: t in m.tables && t in run.sole ==> Alone(m, t)
  }

  ghost predicate Follows<L, R>(
    m: Mem<L>, kind: Kind<L>, add: R -> L -> L, run: Run<R>, history: seq<seq<bool>>, paid: seq<nat>)
  {
    Valid(m) && Sound(run) && Accounts(kind, add, run, history, paid) && Grown(m, kind, add, run, history) && SoleAreAlone(m, run)
  }

  lemma {:induction false} SumUpdate(c: seq<nat>, i: nat, x: nat)
    requires i < |c|
    ensures Sum(c[i := x]) == Sum(c) - c[i] + x
  {
    var n := |c| - 1;
    if i < n {
      SumUpdate(c[..n], i, x);
      assert c[i := x][..n] == c[..n][i := x];
    } else {
      assert c[i := x][..n] == c[..n];
    }
  }

  /** Where rows are added to one table only, what was copied was copied for it. */
  lemma {:induction false} SumOfOne(c: seq<nat>, t: nat)
    requires t < |c| && forall i :: 0 <= i < |c| && i != t ==> c[i] == 0
    ensures Sum(c) == c[t]
  {
    SumUpdate(c, t, 0);
    SumBound(c[t := 0], 0);
  }

  /** A table more, with the rows and the history of another or with none. */
  lemma OneMoreAccounts<L, R>(
    kind: Kind<L>, add: R -> L -> L, run: Run<R>, after: Run<R>, history: seq<seq<bool>>, paid: seq<nat>,
    rows: seq<R>, owned: seq<bool>)
    requires Sound(run) && Accounts(kind, add, run, history, paid) && |rows| == |owned|
    requires after.given == run.given + [rows] && after.filled == run.filled
    ensures Accounts(kind, add, after, history + [owned], paid + [0]) && Sum(paid + [0]) == Sum(paid)
  {
    hide CostOf;
    SumAppend(paid, [0]);
    assert Sum([0]) == 0 by { assert [0][..0] == []; }
  }

  lemma OneMoreGrown<L, R>(
    m: Mem<L>, m': Mem<L>, kind: Kind<L>, add: R -> L -> L, run: Run<R>, after: Run<R>, history: seq<seq<bool>>,
    rows: seq<R>, owned: seq<bool>)
    requires Valid(m) && Valid(m') && Sound(run) && Sound(after) && Grown(m, kind, add, run, history) && |rows| == |owned|
    requires after.given == run.given + [rows] && after.live == run.live + {|run.given|}
    requires m'.tables.Keys == m.tables.Keys + {m.nextTable} && m'.nextTable == m.nextTable + 1
    requires OthersSame(m, m', m.nextTable) && View(m', m.nextTable) == LayersOf(kind, add, rows, owned)
    ensures Grown(m', kind, add, after, history + [owned])
  {
    hide Valid, View, LayersOf;
  }

  lemma MadeIsAlone<L, R>(m: Mem<L>, m': Mem<L>, run: Run<R>)
    requires Sound(run) && SoleAreAlone(m, run) && m.nextTable == |run.given| && m.nextTable !in m.tables
    requires m'.tables == m.tables[m.nextTable := []]
    ensures SoleAreAlone(m', After(run, New))
  {
  }

  lemma ClonedLeavesAlone<L, R>(m: Mem<L>, m': Mem<L>, run: Run<R>, t: TableId)
    requires Sound(run) && SoleAreAlone(m, run) && m.nextTable == |run.given| && m.nextTable !in m.tables
    requires m.tables.Keys == run.live && t in m.tables && m'.tables == m.tables[m.nextTable := m.tables[t]]
    ensures SoleAreAlone(m', After(run, Clone(t)))
  {
  }

  lemma DroppedFollows<L, R>(
    m: Mem<L>, m': Mem<L>, kind: Kind<L>, add: R -> L -> L, run: Run<R>, history: seq<seq<bool>>, paid: seq<nat>, t: TableId)
    requires Follows(m, kind, add, run, history, paid) && Valid(m')
    requires m'.tables == m.tables - {t} && m'.nextTable == m.nextTable && OthersSame(m, m', t)
    ensures Follows(m', kind, add, After(run, Drop(t)), history, paid)
  {
    hide Valid, View, LayersOf, CostOf;
  }

  lemma AddedAccounts<L, R>(
    kind: Kind<L>, add: R -> L -> L, run: Run<R>, history: seq<seq<bool>>, paid: seq<nat>, t: TableId, row: R, own: bool, cost: nat)
    requires Sound(run) && Accounts(kind, add, run, history, paid) && t in run.live
    requires var before := LayersOf(kind, add, run.given[t], history[t]);
             cost == SettleCost(Placed(before, own, add(row), kind.alone), kind.len, kind.join)
    ensures Accounts(kind, add, After(run, Add(t, row)), history[t := history[t] + [own]], paid[t := paid[t] + cost])
    ensures Sum(paid[t := paid[t] + cost]) == Sum(paid) + cost
  {
    LayersOfSnoc(kind, add, run.given[t], history[t], row, own);
    SumUpdate(paid, t, paid[t] + cost);
    hide CostOf, LayersOf, Sum, Placed, SettleCost;
  }

  lemma AddedGrown<L, R>(
    m: Mem<L>, m': Mem<L>, kind: Kind<L>, add: R -> L -> L, run: Run<R>, history: seq<seq<bool>>, t: TableId, row: R, own: bool)
    requires Valid(m) && Valid(m') && Sound(run) && Grown(m, kind, add, run, history) && t in m.tables
    requires m'.tables.Keys == m.tables.Keys && m'.nextTable == m.nextTable && OthersSame(m, m', t)
    requires View(m', t) == LayersOf(kind, add, run.given[t] + [row], history[t] + [own])
    ensures Grown(m', kind, add, After(run, Add(t, row)), history[t := history[t] + [own]])
  {
    hide Valid, View, LayersOf;
  }

  /** A layer that only one table has, changed in place, is still the only one and that table's alone. */
  lemma AddedLeavesAlone<L, R>(m: Mem<L>, m': Mem<L>, kind: Kind<L>, run: Run<R>, t: TableId, row: R, grow: L -> L)
    requires Valid(m) && Valid(m') && Sound(run) && SoleAreAlone(m, run) && m.tables.Keys == run.live
    requires m'.tables.Keys == m.tables.Keys && OnlyGrows(m, m', t)
    requires View(m', t) == AddRow(View(m, t), Owns(m, t), grow, kind.alone, kind.len, kind.join)
    ensures SoleAreAlone(m', After(run, Add(t, row)))
  {
    forall u | u in m'.tables && u in run.sole
      ensures Alone(m', u)
    {
      AddedKeepsApart(m, m', t, u);
      if u == t {
        if m.tables[t] != [] {
          AloneIsCountedOnce(m, t, m.tables[t][0]);
        }
        assert |View(m', t)| == 1;
      }
    }
  }

  lemma AddedKeepsApart<L>(m: Mem<L>, m': Mem<L>, t: TableId, u: TableId)
    requires Valid(m) && u in m.tables && Alone(m, u) && OnlyGrows(m, m', t) && m'.tables.Keys == m.tables.Keys
    ensures forall w, r :: w in m'.tables && w != u && r in m'.tables[w] ==> r !in m'.tables[u]
  {
    forall w, r | w in m'.tables && w != u && r in m'.tables[w]
      ensures r !in m'.tables[u]
    {
      assert Held(m.heap, m.tables[u]) && Held(m.heap, m.tables[w]);
    }
  }

  lemma MadeFollows<L, R>(
    m: Mem<L>, m': Mem<L>, kind: Kind<L>, add: R -> L -> L, run: Run<R>, history: seq<seq<bool>>, paid: seq<nat>)
    requires Follows(m, kind, add, run, history, paid) && Valid(m') && m.nextTable !in m.tables
    requires m'.tables == m.tables[m.nextTable := []] && m'.nextTable == m.nextTable + 1
    requires OthersSame(m, m', m.nextTable) && View(m', m.nextTable) == []
    ensures Follows(m', kind, add, After(run, New), history + [[]], paid + [0]) && Sum(paid + [0]) == Sum(paid)
  {
    assert LayersOf(kind, add, [], []) == [];
    hide Valid, View, LayersOf, CostOf, SoleAreAlone, Accounts, Sum, OthersSame;
    OneMoreAccounts(kind, add, run, After(run, New), history, paid, [], []);
    OneMoreGrown(m, m', kind, add, run, After(run, New), history, [], []);
    MadeIsAlone(m, m', run);
  }

  lemma ClonedFollows<L, R>(
    m: Mem<L>, m': Mem<L>, kind: Kind<L>, add: R -> L -> L, run: Run<R>, history: seq<seq<bool>>, paid: seq<nat>, t: TableId)
    requires Follows(m, kind, add, run, history, paid) && Valid(m') && m.nextTable !in m.tables && t in m.tables
    requires m'.tables == m.tables[m.nextTable := m.tables[t]] && m'.nextTable == m.nextTable + 1
    requires OthersSame(m, m', m.nextTable) && View(m', m.nextTable) == View(m, t)
    ensures t in run.live && t < |history|
    ensures Follows(m', kind, add, After(run, Clone(t)), history + [history[t]], paid + [0]) && Sum(paid + [0]) == Sum(paid)
  {
    hide Valid, View, LayersOf, CostOf, SoleAreAlone, Accounts, Sum, OthersSame;
    OneMoreAccounts(kind, add, run, After(run, Clone(t)), history, paid, run.given[t], history[t]);
    OneMoreGrown(m, m', kind, add, run, After(run, Clone(t)), history, run.given[t], history[t]);
    ClonedLeavesAlone(m, m', run, t);
  }

  lemma AddedFollows<L, R>(
    m: Mem<L>, m': Mem<L>, kind: Kind<L>, add: R -> L -> L, run: Run<R>, history: seq<seq<bool>>, paid: seq<nat>,
    t: TableId, row: R, cost: nat)
    requires Follows(m, kind, add, run, history, paid) && Valid(m') && m'.nextTable == m.nextTable
    requires m'.tables.Keys == m.tables.Keys && OnlyGrows(m, m', t) && OthersSame(m, m', t)
    requires View(m', t) == AddRow(View(m, t), Owns(m, t), add(row), kind.alone, kind.len, kind.join)
    requires cost == SettleCost(Placed(View(m, t), Owns(m, t), add(row), kind.alone), kind.len, kind.join)
    ensures t in run.live && t < |history| == |paid|
    ensures Follows(m', kind, add, After(run, Add(t, row)), history[t := history[t] + [Owns(m, t)]], paid[t := paid[t] + cost])
    ensures Sum(paid[t := paid[t] + cost]) == Sum(paid) + cost
  {
    assert t in run.live;
    hide Valid, View, LayersOf, CostOf, SoleAreAlone, Sum, OthersSame, OnlyGrows, LayerShape.AddRow, SettleCost, Placed, Owns;
    LayersOfSnoc(kind, add, run.given[t], history[t], row, Owns(m, t));
    AddedAccounts(kind, add, run, history, paid, t, row, Owns(m, t), cost);
    AddedGrown(m, m', kind, add, run, history, t, row, Owns(m, t));
    AddedLeavesAlone(m, m', kind, run, t, row, add(row));
  }

  method StepAdd<L(!new), R(!new)>(
    store: Store<L>, add: R -> L -> L, t: TableId, row: R, paid: seq<nat>, ghost run: Run<R>, ghost history: seq<seq<bool>>)
    returns (paid': seq<nat>, ghost history': seq<seq<bool>>)
    requires Follows(store.Now(), store.kind, add, run, history, paid) && store.copied == Sum(paid) && t in store.tables
    modifies store
    ensures Follows(store.Now(), store.kind, add, After(run, Add(t, row)), history', paid') && store.copied == Sum(paid')
  {
    ghost var m, kind := store.Now(), store.kind;
    FollowsIs(m, kind, add, run, history, paid);
    hide Valid, Follows, Sum, View, OthersSame, OnlyGrows, LayerShape.AddRow, SettleCost, Placed, Owns, After;
    var before := store.copied;
    store.AddRow(t, add(row));
    var cost := store.copied - before;
    AddedFollows(m, store.Now(), kind, add, run, history, paid, t, row, cost);
    paid' := paid[t := paid[t] + cost];
    history' := history[t := history[t] + [Owns(m, t)]];
  }

  /** One operation on the store is that operation on tables copied whole. */
  method Step<L(!new), R(!new)>(
    store: Store<L>, add: R -> L -> L, op: Op<R>, paid: seq<nat>, ghost run: Run<R>, ghost history: seq<seq<bool>>)
    returns (paid': seq<nat>, ghost history': seq<seq<bool>>)
    requires Follows(store.Now(), store.kind, add, run, history, paid) && store.copied == Sum(paid)
    modifies store
    ensures Follows(store.Now(), store.kind, add, After(run, op), history', paid') && store.copied == Sum(paid')
  {
    ghost var m, kind := store.Now(), store.kind;
    paid', history' := paid, history;
    FollowsIs(m, kind, add, run, history, paid);
    hide Valid, Follows, Sum, View, OthersSame, OnlyGrows, LayerShape.AddRow, SettleCost, Placed, Owns;
    if op.New? {
      var t := store.New();
      paid', history' := paid + [0], history + [[]];
      MadeFollows(m, store.Now(), kind, add, run, history, paid);
    } else if op.Clone? && op.of in store.tables {
      var t := store.Clone(op.of);
      paid', history' := paid + [0], history + [history[op.of]];
      ClonedFollows(m, store.Now(), kind, add, run, history, paid, op.of);
    } else if op.Add? && op.to in store.tables {
      paid', history' := StepAdd(store, add, op.to, op.row, paid, run, history);
    } else if op.Drop? && op.table in store.tables {
      store.Drop(op.table);
      DroppedFollows(m, store.Now(), kind, add, run, history, paid, op.table);
    } else if op.Drop? {
      assert run.live - {op.table} == run.live;
    }
  }

  lemma FollowsIs<L, R>(
    m: Mem<L>, kind: Kind<L>, add: R -> L -> L, run: Run<R>, history: seq<seq<bool>>, paid: seq<nat>)
    requires Follows(m, kind, add, run, history, paid)
    ensures Valid(m) && m.tables.Keys == run.live && m.nextTable == |run.given| == |history| == |paid|
    ensures forall t :: t in m.tables ==> t < |history|
    ensures forall t :: 0 <= t < |history| ==> |history[t]| == |run.given[t]|
  {
  }

  // ---------------------------------------------------------------- what a run comes to

  /** The table's layers have the sizes, and cost the copies, that its history alone gives them. */
  ghost predicate Alike<L, R>(kind: Kind<L>, add: R -> L -> L, rows: seq<R>, history: seq<bool>)
    requires |rows| == |history|
  {
    && SameSizes(LayersOf(kind, add, rows, history), Built(history), kind.len, Size())
    && CostOf(kind, add, rows, history) == RowsCopied(history)
  }

  /** Layers of the doubling shape that hold `n` rows, and so are at most `log2(n) + 1`. */
  ghost predicate InFewLayers<L>(layers: seq<L>, len: L -> nat, n: nat) {
    && Shaped(layers, len) && Total(layers, len) == n
    && (layers != [] ==> Pow(2, |layers| - 1) <= n)
  }

  /** The table has at most one layer, which no other table has and which is counted once. */
  ghost predicate InOneOwnLayer<L>(m: Mem<L>, t: TableId)
    requires t in m.tables
  {
    Alone(m, t) && forall r :: r in m.tables[t] ==> r in m.count && m.count[r] == 1
  }

  /** At most `n * log1.5(n)`. */
  ghost predicate Amortised(copied: nat, n: nat) {
    forall c: nat :: Pow(3, c + 1) > Pow(2, c + 1) * n ==> copied <= n * c
  }

  lemma CopiesAddUp(layers: seq<Copies>)
    ensures AddsUp(layers, Size(), JoinCopies())
  {
    AdditiveAddsUp(layers, Size(), JoinCopies());
  }

  lemma AlikeGoesOn<L, R>(kind: Kind<L>, add: R -> L -> L, rows: seq<R>, history: seq<bool>)
    requires |rows| == |history| > 0
    requires var n := |rows| - 1;
             var a, b := LayersOf(kind, add, rows[..n], history[..n]), Built(history[..n]);
             var placed := Placed(a, history[n], add(rows[n]), kind.alone);
             && Alike(kind, add, rows[..n], history[..n]) && AddsUp(placed, kind.len, kind.join)
             && SameSizes(placed, Placed(b, history[n], NewRow(), []), kind.len, Size())
    ensures Alike(kind, add, rows, history)
  {
    var n := |rows| - 1;
    var a, b := LayersOf(kind, add, rows[..n], history[..n]), Built(history[..n]);
    var placed, placed' := Placed(a, history[n], add(rows[n]), kind.alone), Placed(b, history[n], NewRow(), []);
    CopiesAddUp(placed');
    hide Settle, SettleCost, Placed, SameSizes, AddsUp;
    SettleSameSizes(placed, placed', kind.len, kind.join, Size(), JoinCopies());
  }

  lemma AlikeIsCheap<L, R>(kind: Kind<L>, add: R -> L -> L, rows: seq<R>, history: seq<bool>)
    requires |rows| == |history| && Alike(kind, add, rows, history)
    ensures InFewLayers(LayersOf(kind, add, rows, history), kind.len, |rows|)
    ensures Amortised(CostOf(kind, add, rows, history), |rows|)
  {
    var layers := LayersOf(kind, add, rows, history);
    RowsFitAlways(history);
    SameTotal(layers, Built(history), kind.len, Size());
    if layers != [] {
      FewLayers(layers, kind.len);
    }
    forall c: nat | Pow(3, c + 1) > Pow(2, c + 1) * |rows|
      ensures CostOf(kind, add, rows, history) <= |rows| * c
    {
      CopyingIsAmortised(history, c);
    }
  }

  lemma LessIsAmortised(less: nat, copied: nat, n: nat)
    requires less <= copied && Amortised(copied, n)
    ensures Amortised(less, n)
  {
  }

  /** The shape, the sharing and the cost of every table of a run whose lengths add up. */
  lemma RunIsCheap<L, R>(m: Mem<L>, kind: Kind<L>, add: R -> L -> L, ops: seq<Op<R>>, history: seq<seq<bool>>, paid: seq<nat>, t: TableId)
    requires Follows(m, kind, add, RunOf(ops), history, paid) && t < |RunOf(ops).given|
    requires Alike(kind, add, RunOf(ops).given[t], history[t])
    ensures t in m.tables ==> InFewLayers(View(m, t), kind.len, |RunOf(ops).given[t]|)
    ensures Amortised(paid[t], |RunOf(ops).given[t]|)
    ensures RunOf(ops).filled <= {t} ==> Amortised(Sum(paid), |RunOf(ops).given[t]|)
  {
    var run := RunOf(ops);
    AlikeIsCheap(kind, add, run.given[t], history[t]);
    hide RunOf, Valid, LayersOf, CostOf, Alike, InFewLayers, SoleAreAlone;
    LessIsAmortised(paid[t], CostOf(kind, add, run.given[t], history[t]), |run.given[t]|);
    if run.filled <= {t} {
      SumOfOne(paid, t);
    }
  }

  /** A table never copied has one layer, since nothing else counts for it. */
  lemma NeverCopiedIsOneLayer<L, R>(
    m: Mem<L>, kind: Kind<L>, add: R -> L -> L, ops: seq<Op<R>>, history: seq<seq<bool>>, paid: seq<nat>, t: TableId)
    requires Follows(m, kind, add, RunOf(ops), history, paid) && t in m.tables && NeverCopied(ops, t)
    ensures InOneOwnLayer(m, t) && |View(m, t)| <= 1
  {
    SoleIsNeverCopied(ops, t);
    forall r | r in m.tables[t]
      ensures r in m.count && m.count[r] == 1
    {
      AloneIsCountedOnce(m, t, r);
    }
  }
}
