/**
  Adding a row to a table of layers, as a function of the layers: where the row is put, which
  layers are then joined, what shape that keeps, and how many rows it copies.
 */
module LayerShape {
  import opened Basics

  /** Layers joined from the end until the last two are in the doubling shape. */
  function Settle<L>(layers: seq<L>, len: L -> nat, join: (L, L) -> L): seq<L>
    decreases |layers|
  {
    if LastTooClose(layers, len) then Settle(Merged(layers, join), len, join) else layers
  }

  /** The last two layers made one. */
  function Merged<L>(layers: seq<L>, join: (L, L) -> L): seq<L>
    requires |layers| >= 2
  {
    layers[..|layers| - 2] + [join(layers[|layers| - 2], layers[|layers| - 1])]
  }

  predicate LastTooClose<L>(layers: seq<L>, len: L -> nat) {
    |layers| >= 2 && len(layers[|layers| - 2]) <= 2 * len(layers[|layers| - 1])
  }

  lemma SettleStep<L>(layers: seq<L>, len: L -> nat, join: (L, L) -> L)
    ensures Settle(layers, len, join) == if LastTooClose(layers, len) then Settle(Merged(layers, join), len, join) else layers
  {
  }

  /** The row is in the newest layer; `own` when no copy shares the layer that was the newest. */
  function Placed<L>(layers: seq<L>, own: bool, add: L -> L, alone: L): seq<L> {
    var n := |layers|;
    if n > 0 && own then layers[..n - 1] + [add(layers[n - 1])] else layers + [add(alone)]
  }

  function AddRow<L>(layers: seq<L>, own: bool, add: L -> L, alone: L, len: L -> nat, join: (L, L) -> L): seq<L> {
    Settle(Placed(layers, own, add, alone), len, join)
  }

  // ---------------------------------------------------------------- the shape

  /** Every layer has rows, and no layer is as small as twice the next. */
  ghost predicate Shaped<L>(layers: seq<L>, len: L -> nat) {
    && (forall i :: 0 <= i < |layers| ==> len(layers[i]) > 0)
    && (forall i, j :: 0 <= i < |layers| - 1 && j == i + 1 ==> len(layers[i]) > 2 * len(layers[j]))
  }

  /** The shape while the last layers are made one: only the last pair may be too close. */
  ghost predicate Settling<L>(layers: seq<L>, len: L -> nat) {
    && (forall i :: 0 <= i < |layers| ==> len(layers[i]) > 0)
    && (forall i, j :: 0 <= i < |layers| - 2 && j == i + 1 ==> len(layers[i]) > 2 * len(layers[j]))
    && (|layers| >= 2 ==> len(layers[|layers| - 2]) >= len(layers[|layers| - 1]))
  }

  function Total<L>(layers: seq<L>, len: L -> nat): nat {
    if layers == [] then 0 else Total(layers[..|layers| - 1], len) + len(layers[|layers| - 1])
  }

  /** The lengths of two joined layers add up. */
  ghost predicate Additive<L(!new)>(len: L -> nat, join: (L, L) -> L) {
    forall a, b :: len(join(a, b)) == len(a) + len(b)
  }

  /** So do they wherever settling these layers joins two. */
  ghost predicate AddsUp<L>(layers: seq<L>, len: L -> nat, join: (L, L) -> L)
    decreases |layers|
  {
    var n := |layers|;
    LastTooClose(layers, len) ==>
      len(join(layers[n - 2], layers[n - 1])) == len(layers[n - 2]) + len(layers[n - 1]) &&
      AddsUp(Merged(layers, join), len, join)
  }

  lemma {:induction false} AdditiveAddsUp<L(!new)>(layers: seq<L>, len: L -> nat, join: (L, L) -> L)
    requires Additive(len, join)
    ensures AddsUp(layers, len, join)
    decreases |layers|
  {
    if LastTooClose(layers, len) {
      AdditiveAddsUp(Merged(layers, join), len, join);
    }
  }

  lemma PlacedSettling<L>(layers: seq<L>, own: bool, add: L -> L, alone: L, len: L -> nat)
    requires Shaped(layers, len)
    requires len(alone) == 0 && len(add(alone)) == 1
    requires layers != [] ==> len(add(layers[|layers| - 1])) == len(layers[|layers| - 1]) + 1
    ensures Settling(Placed(layers, own, add, alone), len)
    ensures Total(Placed(layers, own, add, alone), len) == Total(layers, len) + 1
  {
    PlacedInShape(layers, own, add, alone, len);
    hide Total, Settling, Shaped;
    var n := |layers|;
    if n > 0 && own {
      TotalLast(layers, len);
      TotalSnoc(layers[..n - 1], add(layers[n - 1]), len);
    } else {
      TotalSnoc(layers, add(alone), len);
    }
  }

  lemma PlacedInShape<L>(layers: seq<L>, own: bool, add: L -> L, alone: L, len: L -> nat)
    requires Shaped(layers, len)
    requires len(add(alone)) == 1
    requires layers != [] ==> len(add(layers[|layers| - 1])) == len(layers[|layers| - 1]) + 1
    ensures Settling(Placed(layers, own, add, alone), len)
  {
    var n, placed := |layers|, Placed(layers, own, add, alone);
    forall i, j | 0 <= i < |placed| - 2 && j == i + 1
      ensures len(placed[i]) > 2 * len(placed[j])
    {
      assert placed[i] == layers[i] && placed[j] == layers[j];
    }
    if |placed| >= 2 {
      assert placed[|placed| - 2] == layers[|placed| - 2];
      assert n > 0 && own ==> len(layers[n - 2]) > 2 * len(layers[n - 1]);
    }
  }

  lemma TotalLast<L>(layers: seq<L>, len: L -> nat)
    requires layers != []
    ensures Total(layers, len) == Total(layers[..|layers| - 1], len) + len(layers[|layers| - 1])
  {
  }

  lemma TotalSnoc<L>(layers: seq<L>, last: L, len: L -> nat)
    ensures Total(layers + [last], len) == Total(layers, len) + len(last)
  {
    assert (layers + [last])[..|layers|] == layers;
  }

  lemma MergeSettling<L>(layers: seq<L>, len: L -> nat, join: (L, L) -> L)
    requires |layers| >= 2 && Settling(layers, len)
    requires len(join(layers[|layers| - 2], layers[|layers| - 1])) == len(layers[|layers| - 2]) + len(layers[|layers| - 1])
    ensures Settling(Merged(layers, join), len) && Total(Merged(layers, join), len) == Total(layers, len)
  {
    SettlingPair(layers, join(layers[|layers| - 2], layers[|layers| - 1]), len);
    TotalPair(layers, join(layers[|layers| - 2], layers[|layers| - 1]), len);
  }

  lemma SettlingPair<L>(layers: seq<L>, c: L, len: L -> nat)
    requires |layers| >= 2 && Settling(layers, len) && len(c) == len(layers[|layers| - 2]) + len(layers[|layers| - 1])
    ensures Settling(layers[..|layers| - 2] + [c], len)
  {
    var n := |layers|;
    var merged := layers[..n - 2] + [c];
    forall i, j | 0 <= i < |merged| - 2 && j == i + 1
      ensures len(merged[i]) > 2 * len(merged[j])
    {
      assert merged[i] == layers[i] && merged[j] == layers[j];
    }
    forall i | 0 <= i < |merged|
      ensures len(merged[i]) > 0
    {
      assert i < n - 2 ==> merged[i] == layers[i];
    }
    if n > 2 {
      assert layers[n - 3] == merged[n - 3];
      assert len(layers[n - 3]) > 2 * len(layers[n - 2]);
    }
  }

  lemma TotalPair<L>(layers: seq<L>, c: L, len: L -> nat)
    requires |layers| >= 2 && len(c) == len(layers[|layers| - 2]) + len(layers[|layers| - 1])
    ensures Total(layers[..|layers| - 2] + [c], len) == Total(layers, len)
  {
    hide Total;
    var n := |layers|;
    TotalSnoc(layers[..n - 2], c, len);
    TotalLast(layers, len);
    TotalLast(layers[..n - 1], len);
    assert layers[..n - 1][..n - 2] == layers[..n - 2];
  }

  lemma {:induction false} SettleShapes<L>(layers: seq<L>, len: L -> nat, join: (L, L) -> L)
    requires Settling(layers, len) && AddsUp(layers, len, join)
    ensures Shaped(Settle(layers, len, join), len)
    ensures Total(Settle(layers, len, join), len) == Total(layers, len)
    decreases |layers|
  {
    SettleStep(layers, len, join);
    if LastTooClose(layers, len) {
      MergeSettling(layers, len, join);
      assert AddsUp(Merged(layers, join), len, join);
      hide Settle, Settling, Shaped, Merged, Total, AddsUp;
      SettleShapes(Merged(layers, join), len, join);
    }
  }

  /** After every addition each layer is non-empty and more than twice the one after it. */
  lemma AddRowKeepsTheShape<L>(layers: seq<L>, own: bool, add: L -> L, alone: L, len: L -> nat, join: (L, L) -> L)
    requires Shaped(layers, len) && AddsUp(Placed(layers, own, add, alone), len, join)
    requires len(alone) == 0 && len(add(alone)) == 1
    requires layers != [] ==> len(add(layers[|layers| - 1])) == len(layers[|layers| - 1]) + 1
    ensures Shaped(AddRow(layers, own, add, alone, len, join), len)
    ensures Total(AddRow(layers, own, add, alone, len, join), len) == Total(layers, len) + 1
  {
    PlacedSettling(layers, own, add, alone, len);
    SettleShapes(Placed(layers, own, add, alone), len, join);
  }

  lemma {:induction false} FirstLayerIsLarge<L>(layers: seq<L>, len: L -> nat)
    requires layers != [] && Shaped(layers, len)
    ensures Pow(2, |layers|) <= len(layers[0]) + 1
  {
    if |layers| > 1 {
      FirstLayerIsLarge(layers[1..], len);
    }
  }

  lemma {:induction false} TotalAtLeast<L>(layers: seq<L>, len: L -> nat)
    requires layers != []
    ensures len(layers[0]) <= Total(layers, len)
  {
    if |layers| > 1 {
      TotalAtLeast(layers[..|layers| - 1], len);
    }
  }

  /** The shape bounds the number of layers by the logarithm of the rows they hold. */
  lemma FewLayers<L>(layers: seq<L>, len: L -> nat)
    requires layers != [] && Shaped(layers, len)
    ensures Pow(2, |layers| - 1) <= Total(layers, len)
  {
    FirstLayerIsLarge(layers, len);
    TotalAtLeast(layers, len);
  }

  /** Settling leaves the older layers alone. */
  lemma {:induction false} SettleFront<L>(layers: seq<L>, len: L -> nat, join: (L, L) -> L)
    requires layers != []
    ensures var settled := Settle(layers, len, join);
            1 <= |settled| <= |layers| && settled[..|settled| - 1] == layers[..|settled| - 1]
    decreases |layers|
  {
    if LastTooClose(layers, len) {
      var merged := Merged(layers, join);
      SettleFront(merged, len, join);
      var m := |Settle(merged, len, join)|;
      assert merged[..m - 1] == layers[..m - 1];
    }
  }

  /** The rows copied to settle `layers`: all of two layers each time they are made one. */
  function SettleCost<L>(layers: seq<L>, len: L -> nat, join: (L, L) -> L): nat
    decreases |layers|
  {
    var n := |layers|;
    if LastTooClose(layers, len) then
      len(layers[n - 2]) + len(layers[n - 1]) + SettleCost(Merged(layers, join), len, join)
    else 0
  }

  /** Two tables with layers of the same sizes, whatever is in them. */
  ghost predicate SameSizes<L, M>(a: seq<L>, b: seq<M>, lenA: L -> nat, lenB: M -> nat) {
    |a| == |b| && forall i :: 0 <= i < |a| ==> lenA(a[i]) == lenB(b[i])
  }

  /** How layers settle, and what it costs, depends on their sizes alone. */
  lemma {:induction false} SettleSameSizes<L, M>(
    a: seq<L>, b: seq<M>, lenA: L -> nat, joinA: (L, L) -> L, lenB: M -> nat, joinB: (M, M) -> M)
    requires AddsUp(a, lenA, joinA) && AddsUp(b, lenB, joinB) && SameSizes(a, b, lenA, lenB)
    ensures SameSizes(Settle(a, lenA, joinA), Settle(b, lenB, joinB), lenA, lenB)
    ensures SettleCost(a, lenA, joinA) == SettleCost(b, lenB, joinB)
    decreases |a|
  {
    SettleStep(a, lenA, joinA);
    SettleStep(b, lenB, joinB);
    hide Settle;
    if LastTooClose(a, lenA) {
      assert SameSizes(Merged(a, joinA), Merged(b, joinB), lenA, lenB);
      SettleSameSizes(Merged(a, joinA), Merged(b, joinB), lenA, joinA, lenB, joinB);
    }
  }

  lemma {:induction false} SameTotal<L, M>(a: seq<L>, b: seq<M>, lenA: L -> nat, lenB: M -> nat)
    requires SameSizes(a, b, lenA, lenB)
    ensures Total(a, lenA) == Total(b, lenB) && (Shaped(a, lenA) <==> Shaped(b, lenB))
  {
    if a != [] {
      SameTotal(a[..|a| - 1], b[..|b| - 1], lenA, lenB);
    }
  }

  // ---------------------------------------------------------------- how often a row is copied

  /** A layer as the number of times each of its rows has been copied. */
  type Copies = seq<nat>

  function Inc(c: Copies): Copies {
    seq(|c|, i requires 0 <= i < |c| => c[i] + 1)
  }

  function Size(): Copies -> nat {
    (c: Copies) => |c|
  }

  /** Making one layer of two copies every row of both. */
  function JoinCopies(): (Copies, Copies) -> Copies {
    (a: Copies, b: Copies) => Inc(a + b)
  }

  function NewRow(): Copies -> Copies {
    (c: Copies) => c + [0]
  }

  /**
    The table built by a history of additions: `own` at each of them says that no copy of the
    table, taken at any point and kept or not, shares the newest layer.
   */
  function Built(history: seq<bool>): seq<Copies> {
    if history == [] then []
    else AddRow(Built(history[..|history| - 1]), history[|history| - 1], NewRow(), [], Size(), JoinCopies())
  }

  /** All rows copied along a history. */
  function RowsCopied(history: seq<bool>): nat {
    if history == [] then 0
    else
      var before := history[..|history| - 1];
      RowsCopied(before) +
        SettleCost(Placed(Built(before), history[|history| - 1], NewRow(), []), Size(), JoinCopies())
  }

  function Sum(c: Copies): nat {
    if c == [] then 0 else Sum(c[..|c| - 1]) + c[|c| - 1]
  }

  function SumAll(layers: seq<Copies>): nat {
    if layers == [] then 0 else SumAll(layers[..|layers| - 1]) + Sum(layers[|layers| - 1])
  }

  /** A row copied `c` times is in a layer of at least `1.5^c` rows. */
  ghost predicate RowFits(c: nat, size: nat) {
    Pow(3, c) <= Pow(2, c) * size
  }

  ghost predicate LayerFits(layer: Copies) {
    forall i :: 0 <= i < |layer| ==> RowFits(layer[i], |layer|)
  }

  ghost predicate AllFit(layers: seq<Copies>) {
    forall i :: 0 <= i < |layers| ==> LayerFits(layers[i])
  }

  lemma RowStillFits(c: nat, size: nat, larger: nat)
    requires RowFits(c, size) && size <= larger
    ensures RowFits(c, larger)
  {
    assert Pow(2, c) * size <= Pow(2, c) * larger;
  }

  /** The bound for a row survives a copy into a layer of 1.5 times the size. */
  lemma RowFitsAfterCopy(c: nat, size: nat, larger: nat)
    requires RowFits(c, size) && 3 * size <= 2 * larger
    ensures RowFits(c + 1, larger)
  {
    var p := Pow(2, c);
    assert p * (3 * size) <= p * (2 * larger);
    assert p * (3 * size) == 3 * (p * size);
    assert p * (2 * larger) == Pow(2, c + 1) * larger;
  }

  lemma JoinFits(a: Copies, b: Copies)
    requires LayerFits(a) && LayerFits(b) && |b| <= |a| <= 2 * |b|
    ensures LayerFits(JoinCopies()(a, b))
  {
    var joined := JoinCopies()(a, b);
    forall i | 0 <= i < |joined|
      ensures RowFits(joined[i], |joined|)
    {
      if i < |a| {
        RowFitsAfterCopy(a[i], |a|, |joined|);
      } else {
        RowFitsAfterCopy(b[i - |a|], |b|, |joined|);
      }
    }
  }

  lemma MergeFits(layers: seq<Copies>)
    requires Settling(layers, Size()) && AllFit(layers) && LastTooClose(layers, Size())
    ensures Settling(Merged(layers, JoinCopies()), Size()) && AllFit(Merged(layers, JoinCopies()))
  {
    var n := |layers|;
    MergeSettling(layers, Size(), JoinCopies());
    assert Size()(layers[n - 2]) >= Size()(layers[n - 1]);
    JoinFits(layers[n - 2], layers[n - 1]);
    hide LayerFits, Settling, JoinCopies;
    assert forall i :: 0 <= i < n - 2 ==> LayerFits(layers[i]);
  }

  lemma {:induction false} SettleFits(layers: seq<Copies>)
    requires Settling(layers, Size()) && AllFit(layers)
    ensures AllFit(Settle(layers, Size(), JoinCopies()))
    decreases |layers|
  {
    SettleStep(layers, Size(), JoinCopies());
    hide Settle;
    if LastTooClose(layers, Size()) {
      MergeFits(layers);
      assert |Merged(layers, JoinCopies())| < |layers|;
      hide Settling, AllFit, Merged;
      SettleFits(Merged(layers, JoinCopies()));
    }
  }

  lemma PlacedFits(layers: seq<Copies>, own: bool)
    requires AllFit(layers)
    ensures AllFit(Placed(layers, own, NewRow(), []))
  {
    var n := |layers|;
    if n > 0 && own {
      var last := layers[n - 1];
      forall i | 0 <= i < |last|
        ensures RowFits(last[i], |last| + 1)
      {
        RowStillFits(last[i], |last|, |last| + 1);
      }
      assert RowFits(0, |last| + 1);
      assert LayerFits(NewRow()(last));
    } else {
      assert RowFits(0, 1);
      assert LayerFits(NewRow()([]));
    }
  }

  lemma CopiesAdditive()
    ensures Additive(Size(), JoinCopies())
    ensures forall l :: Size()(NewRow()(l)) == Size()(l) + 1
  {
  }

  /** Along any history, a row copied `c` times lies in a layer of size `s` with `3^c <= 2^c * s`. */
  lemma {:induction false} RowsFitAlways(history: seq<bool>)
    ensures Shaped(Built(history), Size()) && AllFit(Built(history))
    ensures Total(Built(history), Size()) == |history|
  {
    if history != [] {
      var before, own := Built(history[..|history| - 1]), history[|history| - 1];
      RowsFitAlways(history[..|history| - 1]);
      CopiesAdditive();
      AdditiveAddsUp(Placed(before, own, NewRow(), []), Size(), JoinCopies());
      AddRowKeepsTheShape(before, own, NewRow(), [], Size(), JoinCopies());
      PlacedSettling(before, own, NewRow(), [], Size());
      PlacedFits(before, own);
      SettleFits(Placed(before, own, NewRow(), []));
    }
  }

  // ---------------------------------------------------------------- the sum of the copies

  lemma {:induction false} SumAppend(a: Copies, b: Copies)
    ensures Sum(a + b) == Sum(a) + Sum(b)
  {
    if b == [] {
      assert a + b == a;
    } else {
      assert (a + b)[..|a + b| - 1] == a + b[..|b| - 1];
      SumAppend(a, b[..|b| - 1]);
    }
  }

  lemma {:induction false} SumInc(c: Copies)
    ensures Sum(Inc(c)) == Sum(c) + |c|
  {
    if c != [] {
      assert Inc(c)[..|c| - 1] == Inc(c[..|c| - 1]);
      SumInc(c[..|c| - 1]);
    }
  }

  lemma SumAllSnoc(layers: seq<Copies>, last: Copies)
    ensures SumAll(layers + [last]) == SumAll(layers) + Sum(last)
  {
    assert (layers + [last])[..|layers|] == layers;
  }

  /** Settling adds to the rows' counts exactly the rows it copies. */
  lemma {:induction false} SettleCounts(layers: seq<Copies>)
    ensures SumAll(Settle(layers, Size(), JoinCopies())) == SumAll(layers) + SettleCost(layers, Size(), JoinCopies())
    decreases |layers|
  {
    SettleStep(layers, Size(), JoinCopies());
    hide Settle;
    if LastTooClose(layers, Size()) {
      MergeCounts(layers);
      hide SumAll, Merged;
      SettleCounts(Merged(layers, JoinCopies()));
    }
  }

  lemma MergeCounts(layers: seq<Copies>)
    requires |layers| >= 2
    ensures SumAll(Merged(layers, JoinCopies())) == SumAll(layers) + |layers[|layers| - 2]| + |layers[|layers| - 1]|
  {
    var n := |layers|;
    var older, newer := layers[n - 2], layers[n - 1];
    assert layers == layers[..n - 2] + [older] + [newer];
    SumAllSnoc(layers[..n - 2] + [older], newer);
    SumAllSnoc(layers[..n - 2], older);
    SumAllSnoc(layers[..n - 2], JoinCopies()(older, newer));
    SumAppend(older, newer);
    SumInc(older + newer);
  }

  lemma PlacedSum(layers: seq<Copies>, own: bool)
    ensures SumAll(Placed(layers, own, NewRow(), [])) == SumAll(layers)
  {
    var n := |layers|;
    if n > 0 && own {
      var init, last := layers[..n - 1], layers[n - 1];
      assert layers == init + [last];
      SumAllSnoc(init, last);
      SumAllSnoc(init, last + [0]);
      SumAppend(last, [0]);
      assert Sum([0]) == 0 by { assert [0][..0] == []; }
      assert Placed(layers, own, NewRow(), []) == init + [last + [0]];
    } else {
      SumAllSnoc(layers, [0]);
      assert NewRow()([]) == [0];
      assert Placed(layers, own, NewRow(), []) == layers + [[0]];
      assert Sum([0]) == 0 by { assert [0][..0] == []; }
    }
  }

  lemma {:induction false} CopiesAreCounted(history: seq<bool>)
    ensures RowsCopied(history) == SumAll(Built(history))
  {
    if history != [] {
      var before, own := history[..|history| - 1], history[|history| - 1];
      CopiesAreCounted(before);
      PlacedSum(Built(before), own);
      SettleCounts(Placed(Built(before), own, NewRow(), []));
    }
  }

  lemma {:induction false} PowGrows(c: nat, d: nat, n: nat)
    requires c <= d && Pow(3, c) > Pow(2, c) * n
    ensures Pow(3, d) > Pow(2, d) * n
    decreases d - c
  {
    if c < d {
      assert Pow(3, c + 1) == 3 * Pow(3, c) && Pow(2, c + 1) == 2 * Pow(2, c);
      assert 2 * Pow(2, c) * n == 2 * (Pow(2, c) * n);
      PowGrows(c + 1, d, n);
    }
  }

  lemma {:induction false} SumBound(c: Copies, most: nat)
    requires forall i :: 0 <= i < |c| ==> c[i] <= most
    ensures Sum(c) <= |c| * most
  {
    if c != [] {
      SumBound(c[..|c| - 1], most);
      assert |c| * most == (|c| - 1) * most + most;
    }
  }

  lemma {:induction false} SumAllBound(layers: seq<Copies>, most: nat)
    requires forall i, j :: 0 <= i < |layers| && 0 <= j < |layers[i]| ==> layers[i][j] <= most
    ensures SumAll(layers) <= Total(layers, Size()) * most
  {
    if layers != [] {
      var init, last := layers[..|layers| - 1], layers[|layers| - 1];
      SumAllBound(init, most);
      SumBound(last, most);
      assert (Total(init, Size()) + |last|) * most == Total(init, Size()) * most + |last| * most;
    }
  }

  lemma {:induction false} LayerWithinTotal(layers: seq<Copies>, i: nat)
    requires i < |layers|
    ensures |layers[i]| <= Total(layers, Size())
  {
    if i < |layers| - 1 {
      LayerWithinTotal(layers[..|layers| - 1], i);
    }
  }

  /**
    The amortised bound: the rows copied to build a table of `n` rows are at most `n * c` for
    every `c` with `1.5^(c + 1) > n`, that is `n * log1.5(n)`, however many copies of the table
    were taken between two rows.
   */
  lemma CopyingIsAmortised(history: seq<bool>, c: nat)
    requires Pow(3, c + 1) > Pow(2, c + 1) * |history|
    ensures RowsCopied(history) <= |history| * c
  {
    var layers := Built(history);
    RowsFitAlways(history);
    CopiesAreCounted(history);
    forall i, j | 0 <= i < |layers| && 0 <= j < |layers[i]|
      ensures layers[i][j] <= c
    {
      assert LayerFits(layers[i]);
      LayerWithinTotal(layers, i);
      RowStillFits(layers[i][j], |layers[i]|, |history|);
      if layers[i][j] > c {
        PowGrows(c + 1, layers[i][j], |history|);
      }
    }
    SumAllBound(layers, c);
  }
}
