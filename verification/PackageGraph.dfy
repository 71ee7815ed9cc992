/**
  The packages of a project: every source that a dependency leads to becomes one package, breadth
  first from the root, with the dependency that reached it first.
 */
module PackageGraph {
  import opened Basics

  /**
    What resolving finds: the root, how many dependencies a package has, the source each leads to
    (if any), and the sources that can be read. There are finitely many sources.
   */
  datatype World<!S> = World(root: S, universe: set<S>, keys: S -> nat, leads: (S, nat) -> Option<S>, loads: S -> bool)

  ghost predicate Finite<S(!new)>(w: World<S>) {
    w.root in w.universe && forall s, k :: s in w.universe && w.leads(s, k).Some? ==> w.leads(s, k).value in w.universe
  }

  /** The dependency is met: it leads to the root, which is read already, or to a source that can be read. */
  predicate Met<S(==)>(w: World<S>, s: S, k: nat) {
    w.leads(s, k).Some? && (w.leads(s, k).value == w.root || w.loads(w.leads(s, k).value))
  }

  // ---------------------------------------------------------------- paths

  ghost predicate Edge<S>(w: World<S>, s: S, t: S) {
    exists k :: 0 <= k < w.keys(s) && Met(w, s, k) && w.leads(s, k).value == t
  }

  /** A path of dependencies from the root. */
  ghost predicate Path<S>(w: World<S>, p: seq<S>) {
    && p != [] && p[0] == w.root
    && forall i, j :: 0 <= i < |p| - 1 && j == i + 1 ==> Edge(w, p[i], p[j])
  }

  ghost predicate Reachable<S(!new)>(w: World<S>, s: S) {
    exists p :: Path(w, p) && p[|p| - 1] == s
  }

  lemma PathPrefix<S>(w: World<S>, p: seq<S>)
    requires Path(w, p) && |p| > 1
    ensures Path(w, p[..|p| - 1]) && Edge(w, p[|p| - 2], p[|p| - 1])
  {
    hide Edge;
  }

  lemma PathLonger<S>(w: World<S>, p: seq<S>, t: S)
    requires Path(w, p) && Edge(w, p[|p| - 1], t)
    ensures Path(w, p + [t])
  {
    hide Edge;
  }

  // ---------------------------------------------------------------- resolving, as a value

  /** A dependency of a package: its number and the package it leads to. */
  type Dep = (nat, nat)

  /** The packages by id, with their dependencies and the package that first reached each. */
  datatype Graph<S> = Graph(sources: seq<S>, deps: seq<seq<Dep>>, via: seq<Option<nat>>, bySource: map<S, nat>)

  datatype State<S> = State(g: Graph<S>, failed: set<S>, diagnostics: nat, queue: seq<nat>)

  function Added<S>(g: Graph<S>, s: S, via: Option<nat>): Graph<S> {
    Graph(g.sources + [s], g.deps + [[]], g.via + [via], g.bySource[s := |g.sources|])
  }

  /** What the dependency `k` of the package `from` comes to. */
  function Resolved<S>(w: World<S>, st: State<S>, from: nat, k: nat): (State<S>, Option<nat>)
    requires from < |st.g.sources|
  {
    match w.leads(st.g.sources[from], k)
    case None => (st.(diagnostics := st.diagnostics + 1), None)
    case Some(t) =>
      if t in st.g.bySource then (st, Some(st.g.bySource[t]))
      else if t in st.failed then (st, None)
      else if !w.loads(t) then (st.(diagnostics := st.diagnostics + 1, failed := st.failed + {t}), None)
      else (st.(g := Added(st.g, t, Some(from)), queue := st.queue + [|st.g.sources|]), Some(|st.g.sources|))
  }

  /** And the package has it, if it came to one. */
  function Followed<S>(w: World<S>, st: State<S>, from: nat, k: nat): State<S>
    requires from < |st.g.sources| && |st.g.deps| == |st.g.sources|
  {
    var (after, dep) := Resolved(w, st, from, k);
    match dep
    case None => after
    case Some(id) => after.(g := after.g.(deps := after.g.deps[from := after.g.deps[from] + [(k, id)]]))
  }

  // ---------------------------------------------------------------- what resolving keeps

  /** One id per source, and one source per id. */
  ghost predicate Named<S>(g: Graph<S>) {
    && |g.deps| == |g.via| == |g.sources|
    && (forall i :: 0 <= i < |g.sources| ==> g.sources[i] in g.bySource && g.bySource[g.sources[i]] == i)
    && (forall s :: s in g.bySource ==> g.bySource[s] < |g.sources| && g.sources[g.bySource[s]] == s)
  }

  /** Each package but the root was reached by one before it, over an edge. */
  ghost predicate Reached<S>(w: World<S>, g: Graph<S>)
    requires Named(g)
  {
    && g.sources != [] && g.sources[0] == w.root && g.via[0] == None
    && forall i :: 0 < i < |g.sources| ==>
         g.via[i].Some? && g.via[i].value < i && Edge(w, g.sources[g.via[i].value], g.sources[i])
  }

  /** How far a package is from the root by the packages that first reached it. */
  ghost predicate Depths<S>(g: Graph<S>, depth: seq<nat>)
    requires Named(g)
  {
    && |depth| == |g.sources|
    && (forall i :: 0 <= i < |depth| && g.via[i].None? ==> depth[i] == 0)
    && (forall i :: 0 <= i < |depth| && g.via[i].Some? ==> g.via[i].value < i && depth[i] == depth[g.via[i].value] + 1)
    && (forall i, j :: 0 <= i <= j < |depth| ==> depth[i] <= depth[j])
  }

  /** A dependency that is met is a package, at most one step further away. */
  ghost predicate Near<S>(w: World<S>, g: Graph<S>, depth: seq<nat>, i: nat, k: nat)
    requires i < |g.sources| && i < |depth|
  {
    Met(w, g.sources[i], k) ==>
      var t := w.leads(g.sources[i], k).value;
      t in g.bySource && g.bySource[t] < |depth| && depth[g.bySource[t]] <= depth[i] + 1
  }

  /** The first `k` dependencies of the package `i` that are met, with the packages they lead to. */
  ghost function DepList<S>(w: World<S>, g: Graph<S>, i: nat, k: nat): seq<Dep>
    requires i < |g.sources|
  {
    if k == 0 then []
    else
      DepList(w, g, i, k - 1) +
      (if Met(w, g.sources[i], k - 1) && w.leads(g.sources[i], k - 1).value in g.bySource
       then [(k - 1, g.bySource[w.leads(g.sources[i], k - 1).value])] else [])
  }

  ghost predicate Done<S>(w: World<S>, g: Graph<S>, depth: seq<nat>, i: nat, k: nat)
    requires i < |g.sources| == |g.deps| == |depth|
  {
    (forall j :: 0 <= j < k ==> Near(w, g, depth, i, j)) && g.deps[i] == DepList(w, g, i, k)
  }

  /** Nothing was reported exactly if every dependency looked at so far is met. */
  ghost predicate Told<S>(w: World<S>, g: Graph<S>, diagnostics: nat, h: nat, k: nat) {
    diagnostics == 0 <==>
    && (forall i, j :: 0 <= i < h && i < |g.sources| && 0 <= j < w.keys(g.sources[i]) ==> Met(w, g.sources[i], j))
    && (h < |g.sources| ==> forall j :: 0 <= j < k ==> Met(w, g.sources[h], j))
  }

  /** The first `h` packages are done, the next one up to its dependency `k`, and none behind it. */
  ghost predicate AllDone<S>(w: World<S>, g: Graph<S>, depth: seq<nat>, h: nat, k: nat)
    requires |g.sources| == |g.deps| == |depth|
  {
    && (forall i :: 0 <= i < h && i < |g.sources| ==> Done(w, g, depth, i, w.keys(g.sources[i])))
    && (h < |g.sources| ==> Done(w, g, depth, h, k))
    && (forall i :: h < i < |g.sources| ==> g.deps[i] == [])
  }

  ghost predicate FailedRight<S>(w: World<S>, failed: set<S>, diagnostics: nat) {
    (forall s :: s in failed ==> s != w.root && !w.loads(s)) && (failed != {} ==> diagnostics > 0)
  }

  ghost predicate Known<S>(w: World<S>, g: Graph<S>) {
    forall i :: 0 <= i < |g.sources| ==> g.sources[i] in w.universe
  }

  /** The state when `h` packages are done and `k` dependencies of the next. */
  ghost predicate Inv<S(!new)>(w: World<S>, st: State<S>, depth: seq<nat>, h: nat, k: nat) {
    && Finite(w) && Named(st.g) && Reached(w, st.g) && Known(w, st.g) && Depths(st.g, depth)
    && h <= |st.g.sources|
    && (h < |st.g.sources| ==> depth[|depth| - 1] <= depth[h] + 1)
    && AllDone(w, st.g, depth, h, k)
    && FailedRight(w, st.failed, st.diagnostics)
    && Told(w, st.g, st.diagnostics, h, k)
  }

  // ---------------------------------------------------------------- a source that is new

  lemma AddedNamed<S>(g: Graph<S>, t: S, from: nat)
    requires Named(g) && t !in g.bySource
    ensures Named(Added(g, t, Some(from)))
  {
  }

  lemma AddedReached<S>(w: World<S>, g: Graph<S>, t: S, from: nat)
    requires Named(g) && Reached(w, g) && t !in g.bySource
    requires from < |g.sources| && Edge(w, g.sources[from], t)
    ensures Named(Added(g, t, Some(from))) && Reached(w, Added(g, t, Some(from)))
  {
    hide Edge;
  }

  lemma AddedDepths<S>(g: Graph<S>, depth: seq<nat>, t: S, from: nat)
    requires Named(g) && Depths(g, depth) && t !in g.bySource
    requires from < |g.sources| && depth[|depth| - 1] <= depth[from] + 1
    ensures Named(Added(g, t, Some(from))) && Depths(Added(g, t, Some(from)), depth + [depth[from] + 1])
  {
  }

  lemma {:induction false} DepListStays<S>(w: World<S>, g: Graph<S>, g': Graph<S>, depth: seq<nat>, i: nat, k: nat)
    requires i < |g.sources| && i < |depth| && g.sources <= g'.sources
    requires forall s :: s in g.bySource ==> s in g'.bySource && g'.bySource[s] == g.bySource[s]
    requires forall j :: 0 <= j < k ==> Near(w, g, depth, i, j)
    ensures DepList(w, g', i, k) == DepList(w, g, i, k)
  {
    if k > 0 {
      DepListStays(w, g, g', depth, i, k - 1);
      assert Near(w, g, depth, i, k - 1);
    }
  }

  lemma DoneStays<S>(w: World<S>, g: Graph<S>, g': Graph<S>, depth: seq<nat>, depth': seq<nat>, i: nat, k: nat)
    requires i < |g.sources| == |g.deps| == |depth| && |g'.sources| == |g'.deps| == |depth'|
    requires Done(w, g, depth, i, k) && g.sources <= g'.sources && depth <= depth' && g'.deps[i] == g.deps[i]
    requires forall s :: s in g.bySource ==> s in g'.bySource && g'.bySource[s] == g.bySource[s]
    ensures Done(w, g', depth', i, k)
  {
    DepListStays(w, g, g', depth, i, k);
    hide DepList, Met;
    forall j | 0 <= j < k
      ensures Near(w, g', depth', i, j)
    {
      assert Near(w, g, depth, i, j);
    }
  }

  lemma AllDoneStays<S>(w: World<S>, g: Graph<S>, g': Graph<S>, depth: seq<nat>, depth': seq<nat>, h: nat, k: nat)
    requires |g.sources| == |g.deps| == |depth| && |g'.sources| == |g'.deps| == |depth'|
    requires AllDone(w, g, depth, h, k) && h < |g.sources| && g.sources <= g'.sources && depth <= depth'
    requires g'.deps[..|g.deps|] == g.deps && forall i :: |g.sources| <= i < |g'.sources| ==> g'.deps[i] == []
    requires forall s :: s in g.bySource ==> s in g'.bySource && g'.bySource[s] == g.bySource[s]
    ensures AllDone(w, g', depth', h, k)
  {
    hide Done;
    assert forall i :: 0 <= i < |g.deps| ==> g'.deps[i] == g.deps[i];
    forall i | 0 <= i < h
      ensures Done(w, g', depth', i, w.keys(g'.sources[i]))
    {
      DoneStays(w, g, g', depth, depth', i, w.keys(g.sources[i]));
    }
    DoneStays(w, g, g', depth, depth', h, k);
  }

  // ---------------------------------------------------------------- one dependency

  /** A dependency that is not met is passed over. */
  lemma NotMetDone<S>(w: World<S>, g: Graph<S>, depth: seq<nat>, h: nat, k: nat)
    requires |g.sources| == |g.deps| == |depth| && h < |g.sources|
    requires AllDone(w, g, depth, h, k) && !Met(w, g.sources[h], k)
    ensures AllDone(w, g, depth, h, k + 1)
  {
    assert DepList(w, g, h, k) + [] == DepList(w, g, h, k);
  }

  /** One that is met and has its package is the next of the package's dependencies. */
  lemma MetDone<S>(w: World<S>, g: Graph<S>, g': Graph<S>, depth: seq<nat>, h: nat, k: nat)
    requires |g.sources| == |g.deps| == |depth| && h < |g.sources|
    requires AllDone(w, g, depth, h, k) && Met(w, g.sources[h], k) && Near(w, g, depth, h, k)
    requires g' == g.(deps := g.deps[h := g.deps[h] + [(k, g.bySource[w.leads(g.sources[h], k).value])]])
    ensures AllDone(w, g', depth, h, k + 1)
  {
    hide Met;
    forall i, n | 0 <= i < |g.sources| && 0 <= n
      ensures DepList(w, g', i, n) == DepList(w, g, i, n)
    {
      DepsDoNotMatter(w, g, g', i, n);
    }
    forall i | 0 <= i < h
      ensures Done(w, g', depth, i, w.keys(g'.sources[i]))
    {
      assert Done(w, g, depth, i, w.keys(g.sources[i]));
      hide DepList;
      assert forall j :: 0 <= j < w.keys(g.sources[i]) ==> Near(w, g, depth, i, j) ==> Near(w, g', depth, i, j);
    }
    assert Done(w, g', depth, h, k + 1) by {
      assert Done(w, g, depth, h, k);
      assert forall j :: 0 <= j < k + 1 ==> Near(w, g, depth, h, j) ==> Near(w, g', depth, h, j);
    }
  }

  lemma {:induction false} DepsDoNotMatter<S>(w: World<S>, g: Graph<S>, g': Graph<S>, i: nat, k: nat)
    requires i < |g.sources| && g'.sources == g.sources && g'.bySource == g.bySource
    ensures DepList(w, g', i, k) == DepList(w, g, i, k)
  {
    if k > 0 {
      DepsDoNotMatter(w, g, g', i, k - 1);
    }
  }

  /** A source that is a package is the root or can be read. */
  lemma PresentIsMet<S>(w: World<S>, g: Graph<S>, t: S)
    requires Named(g) && Reached(w, g) && t in g.bySource
    ensures t == w.root || w.loads(t)
  {
    var i := g.bySource[t];
    if i > 0 {
      assert Edge(w, g.sources[g.via[i].value], g.sources[i]);
    }
  }

  lemma ToldStep<S>(w: World<S>, g: Graph<S>, g': Graph<S>, diagnostics: nat, after: nat, h: nat, k: nat)
    requires Told(w, g, diagnostics, h, k) && h < |g.sources| && g.sources <= g'.sources
    requires after == 0 <==> diagnostics == 0 && Met(w, g.sources[h], k)
    ensures Told(w, g', after, h, k + 1)
  {
    hide Met;
    assert forall i :: 0 <= i <= h ==> g'.sources[i] == g.sources[i];
    assert (forall j :: 0 <= j < k + 1 ==> Met(w, g'.sources[h], j))
        <==> ((forall j :: 0 <= j < k ==> Met(w, g.sources[h], j)) && Met(w, g.sources[h], k));
  }

  ghost function DepthAfter<S>(w: World<S>, st: State<S>, depth: seq<nat>, h: nat, k: nat): seq<nat>
    requires h < |st.g.sources| && h < |depth|
  {
    if |Resolved(w, st, h, k).0.g.sources| > |st.g.sources| then depth + [depth[h] + 1] else depth
  }

  lemma OtherDeps<S>(w: World<S>, g: Graph<S>, g': Graph<S>, depth: seq<nat>)
    requires Named(g) && Reached(w, g) && Known(w, g) && Depths(g, depth)
    requires g' == g.(deps := g'.deps) && |g'.deps| == |g.deps|
    ensures Named(g') && Reached(w, g') && Known(w, g') && Depths(g', depth)
  {
    hide Edge;
  }

  /** Looking at one dependency keeps all of it. */
  lemma FollowedKeeps<S(!new)>(w: World<S>, st: State<S>, depth: seq<nat>, h: nat, k: nat)
    requires Inv(w, st, depth, h, k) && h < |st.g.sources| && k < w.keys(st.g.sources[h])
    ensures Inv(w, Followed(w, st, h, k), DepthAfter(w, st, depth, h, k), h, k + 1)
    ensures st.g.sources <= Followed(w, st, h, k).g.sources
  {
    hide Inv;
    if w.leads(st.g.sources[h], k).Some? && w.leads(st.g.sources[h], k).value in st.g.bySource {
      FollowedPresent(w, st, depth, h, k);
    } else if Met(w, st.g.sources[h], k) {
      NewIsNotFailed(w, st, depth, h, k);
      FollowedNew(w, st, depth, h, k);
    } else {
      FollowedNothing(w, st, depth, h, k);
    }
  }

  lemma NewIsNotFailed<S(!new)>(w: World<S>, st: State<S>, depth: seq<nat>, h: nat, k: nat)
    requires Inv(w, st, depth, h, k) && h < |st.g.sources| && Met(w, st.g.sources[h], k)
    requires w.leads(st.g.sources[h], k).value !in st.g.bySource
    ensures w.leads(st.g.sources[h], k).value !in st.failed && w.loads(w.leads(st.g.sources[h], k).value)
  {
    assert st.g.sources[0] == w.root && st.g.sources[0] in st.g.bySource;
    hide AllDone, Told, Depths, Finite, Edge;
  }

  lemma FollowedNothing<S(!new)>(w: World<S>, st: State<S>, depth: seq<nat>, h: nat, k: nat)
    requires Inv(w, st, depth, h, k) && h < |st.g.sources|
    requires !Met(w, st.g.sources[h], k)
    requires !(w.leads(st.g.sources[h], k).Some? && w.leads(st.g.sources[h], k).value in st.g.bySource)
    ensures Inv(w, Followed(w, st, h, k), depth, h, k + 1) && Followed(w, st, h, k).g == st.g
  {
    Sizes(st.g, depth);
    hide AllDone, Told, Named, Reached, Depths, Finite, Known;
    var st' := Followed(w, st, h, k);
    assert st'.g == st.g && st'.diagnostics > 0 && FailedRight(w, st'.failed, st'.diagnostics);
    hide Followed;
    NotMetDone(w, st.g, depth, h, k);
    ToldStep(w, st.g, st.g, st.diagnostics, st'.diagnostics, h, k);
  }

  lemma FollowedPresent<S(!new)>(w: World<S>, st: State<S>, depth: seq<nat>, h: nat, k: nat)
    requires Inv(w, st, depth, h, k) && h < |st.g.sources|
    requires w.leads(st.g.sources[h], k).Some? && w.leads(st.g.sources[h], k).value in st.g.bySource
    ensures Inv(w, Followed(w, st, h, k), depth, h, k + 1)
    ensures Followed(w, st, h, k).g.sources == st.g.sources
  {
    hide AllDone, Told, Reached, Finite, Known, FailedRight;
    var t, st' := w.leads(st.g.sources[h], k).value, Followed(w, st, h, k);
    var id := st.g.bySource[t];
    assert st' == st.(g := st.g.(deps := st.g.deps[h := st.g.deps[h] + [(k, id)]]));
    hide Followed;
    PresentIsMet(w, st.g, t);
    assert Near(w, st.g, depth, h, k) by {
      assert depth[id] <= depth[|depth| - 1];
    }
    hide Named, Depths, Near;
    MetDone(w, st.g, st'.g, depth, h, k);
    OtherDeps(w, st.g, st'.g, depth);
    ToldStep(w, st.g, st'.g, st.diagnostics, st.diagnostics, h, k);
  }

  lemma FollowedNew<S(!new)>(w: World<S>, st: State<S>, depth: seq<nat>, h: nat, k: nat)
    requires Inv(w, st, depth, h, k) && h < |st.g.sources| && k < w.keys(st.g.sources[h])
    requires Met(w, st.g.sources[h], k)
    requires w.leads(st.g.sources[h], k).value !in st.g.bySource && w.leads(st.g.sources[h], k).value !in st.failed
    requires w.loads(w.leads(st.g.sources[h], k).value)
    ensures Inv(w, Followed(w, st, h, k), depth + [depth[h] + 1], h, k + 1)
    ensures Followed(w, st, h, k).g.sources == st.g.sources + [w.leads(st.g.sources[h], k).value]
  {
    Sizes(st.g, depth);
    hide AllDone, Told, Reached, Named, Depths, FailedRight;
    var t, depth', st' := w.leads(st.g.sources[h], k).value, depth + [depth[h] + 1], Followed(w, st, h, k);
    var g1 := Added(st.g, t, Some(h));
    assert st'.g == g1.(deps := g1.deps[h := g1.deps[h] + [(k, |st.g.sources|)]])
        && st'.failed == st.failed && st'.diagnostics == st.diagnostics;
    hide Followed;
    NewPackage(w, st.g, depth, h, k);
    MetDone(w, g1, st'.g, depth', h, k);
    OtherDeps(w, g1, st'.g, depth');
    ToldStep(w, st.g, st'.g, st.diagnostics, st.diagnostics, h, k);
  }

  lemma Sizes<S>(g: Graph<S>, depth: seq<nat>)
    requires Named(g) && Depths(g, depth)
    ensures |g.deps| == |g.via| == |depth| == |g.sources|
  {
  }

  /** A package that is new fits in: it is the last, and no nearer than any. */
  lemma NewPackage<S(!new)>(w: World<S>, g: Graph<S>, depth: seq<nat>, h: nat, k: nat)
    requires Finite(w) && Named(g) && Reached(w, g) && Known(w, g) && Depths(g, depth)
    requires h < |g.sources| && depth[|depth| - 1] <= depth[h] + 1 && AllDone(w, g, depth, h, k)
    requires Met(w, g.sources[h], k) && k < w.keys(g.sources[h]) && w.leads(g.sources[h], k).value !in g.bySource
    ensures var g1, depth' := Added(g, w.leads(g.sources[h], k).value, Some(h)), depth + [depth[h] + 1];
            && Named(g1) && Reached(w, g1) && Known(w, g1) && Depths(g1, depth')
            && |g1.deps| == |depth'|
            && depth'[|depth'| - 1] <= depth'[h] + 1 && AllDone(w, g1, depth', h, k) && Near(w, g1, depth', h, k)
  {
    Sizes(g, depth);
    hide AllDone, Reached, Depths;
    var t, depth' := w.leads(g.sources[h], k).value, depth + [depth[h] + 1];
    var g1 := Added(g, t, Some(h));
    assert Edge(w, g.sources[h], t);
    hide Edge;
    AddedNamed(g, t, h);
    AddedReached(w, g, t, h);
    AddedDepths(g, depth, t, h);
    hide Named;
    AllDoneStays(w, g, g1, depth, depth', h, k);
  }

  // ---------------------------------------------------------------- what it comes to

  /** All packages are done. */
  ghost predicate Finished<S(!new)>(w: World<S>, st: State<S>, depth: seq<nat>) {
    Inv(w, st, depth, |st.g.sources|, 0)
  }

  lemma EdgeIsDone<S(!new)>(w: World<S>, st: State<S>, depth: seq<nat>, s: S, t: S)
    requires Finished(w, st, depth) && s in st.g.bySource && Edge(w, s, t)
    ensures t in st.g.bySource && st.g.bySource[t] < |depth| && st.g.bySource[s] < |depth|
    ensures depth[st.g.bySource[t]] <= depth[st.g.bySource[s]] + 1
  {
    var i := st.g.bySource[s];
    Sizes(st.g, depth);
    assert Done(w, st.g, depth, i, w.keys(st.g.sources[i]));
    var k :| 0 <= k < w.keys(s) && Met(w, s, k) && w.leads(s, k).value == t;
    assert Near(w, st.g, depth, i, k);
  }

  /** No path to a package is shorter than its distance. */
  lemma {:induction false} PathIsNoShorter<S(!new)>(w: World<S>, st: State<S>, depth: seq<nat>, p: seq<S>)
    requires Finished(w, st, depth) && Path(w, p)
    ensures p[|p| - 1] in st.g.bySource && st.g.bySource[p[|p| - 1]] < |depth|
    ensures depth[st.g.bySource[p[|p| - 1]]] <= |p| - 1
    decreases |p|
  {
    if |p| == 1 {
      assert st.g.sources[0] == w.root;
      hide AllDone, Told;
    } else {
      PathPrefix(w, p);
      hide Inv, Path, Edge;
      PathIsNoShorter(w, st, depth, p[..|p| - 1]);
      assert p[..|p| - 1][|p| - 2] == p[|p| - 2];
      EdgeIsDone(w, st, depth, p[|p| - 2], p[|p| - 1]);
    }
  }

  datatype Label = DependsOn(parent: nat, child: nat) | Itself(id: nat)

  /** The dependencies that first reached a package, from the root on. */
  ghost function Links(via: seq<Option<nat>>, id: nat): seq<Label>
    requires id < |via| && forall i :: 0 <= i < |via| && via[i].Some? ==> via[i].value < i
  {
    if via[id].None? then [] else Links(via, via[id].value) + [DependsOn(via[id].value, id)]
  }

  /** The sources along them. */
  ghost function Along<S>(g: Graph<S>, id: nat): seq<S>
    requires id < |g.via| == |g.sources| && forall i :: 0 <= i < |g.via| && g.via[i].Some? ==> g.via[i].value < i
  {
    if g.via[id].None? then [g.sources[id]] else Along(g, g.via[id].value) + [g.sources[id]]
  }

  /** They are a path from the root, as long as the distance. */
  lemma {:induction false} LinksArePath<S>(w: World<S>, g: Graph<S>, depth: seq<nat>, id: nat)
    requires Named(g) && Reached(w, g) && Depths(g, depth) && id < |g.sources|
    ensures Path(w, Along(g, id)) && Along(g, id)[|Along(g, id)| - 1] == g.sources[id]
    ensures |Along(g, id)| == depth[id] + 1 && |Links(g.via, id)| == depth[id]
    ensures forall j :: 0 <= j < depth[id] ==>
              && Links(g.via, id)[j].DependsOn?
              && Links(g.via, id)[j].parent < Links(g.via, id)[j].child < |g.sources|
              && g.sources[Links(g.via, id)[j].parent] == Along(g, id)[j]
              && g.sources[Links(g.via, id)[j].child] == Along(g, id)[j + 1]
    decreases id
  {
    hide Edge, Named;
    Sizes(g, depth);
    if id > 0 {
      var parent := g.via[id].value;
      LinksArePath(w, g, depth, parent);
      PathLonger(w, Along(g, parent), g.sources[id]);
    }
  }

  lemma {:induction false} EveryPackageIsReachable<S(!new)>(w: World<S>, st: State<S>, depth: seq<nat>, s: S)
    requires Finished(w, st, depth) && s in st.g.bySource
    ensures Reachable(w, s)
  {
    LinksArePath(w, st.g, depth, st.g.bySource[s]);
  }

  /** The packages are exactly the sources that can be reached, one id each, whatever was reported. */
  lemma ExactlyTheReachable<S(!new)>(w: World<S>, st: State<S>, depth: seq<nat>, s: S)
    requires Finished(w, st, depth)
    ensures s in st.g.bySource <==> Reachable(w, s)
  {
    hide Finished;
    if s in st.g.bySource {
      EveryPackageIsReachable(w, st, depth, s);
    }
    if Reachable(w, s) {
      var p :| Path(w, p) && p[|p| - 1] == s;
      PathIsNoShorter(w, st, depth, p);
    }
  }

  /** Something is reported exactly if a dependency that can be reached is not met. */
  lemma ReportsExactlyTheUnmet<S(!new)>(w: World<S>, st: State<S>, depth: seq<nat>)
    requires Finished(w, st, depth)
    ensures st.diagnostics == 0 <==> forall s, k :: Reachable(w, s) && 0 <= k < w.keys(s) ==> Met(w, s, k)
  {
    forall s
      ensures s in st.g.bySource <==> Reachable(w, s)
    {
      ExactlyTheReachable(w, st, depth, s);
    }
    hide Reachable, Met, AllDone, Depths, Reached;
    assert forall i :: 0 <= i < |st.g.sources| ==> st.g.sources[i] in st.g.bySource;
  }

  /** The chain to a package is a shortest path to it, even where dependencies are cyclic. */
  lemma LinksAreShortest<S(!new)>(w: World<S>, st: State<S>, depth: seq<nat>, id: nat, p: seq<S>)
    requires Finished(w, st, depth) && id < |st.g.sources| && Path(w, p) && p[|p| - 1] == st.g.sources[id]
    ensures st.g.via[id].Some? ==> st.g.via[id].value < id
    ensures forall i :: 0 <= i < |st.g.via| && st.g.via[i].Some? ==> st.g.via[i].value < i
    ensures id < |st.g.via| && |Links(st.g.via, id)| <= |p| - 1
  {
    LinksArePath(w, st.g, depth, id);
    PathIsNoShorter(w, st, depth, p);
  }

  lemma {:induction false} FewIds<S>(sources: seq<S>, universe: set<S>)
    requires forall i, j :: 0 <= i < j < |sources| ==> sources[i] != sources[j]
    requires forall i :: 0 <= i < |sources| ==> sources[i] in universe
    ensures |sources| <= |universe|
  {
    if sources != [] {
      var n := |sources| - 1;
      FewIds(sources[..n], universe - {sources[n]});
    }
  }

  /** There are no more packages than sources. */
  lemma InvIsBounded<S(!new)>(w: World<S>, st: State<S>, depth: seq<nat>, h: nat, k: nat)
    requires Inv(w, st, depth, h, k)
    ensures |st.g.sources| <= |w.universe|
  {
    hide AllDone, Told, Reached, Depths;
    FewIds(st.g.sources, w.universe);
  }

  /** From one package on to the next. */
  lemma NextPackage<S(!new)>(w: World<S>, st: State<S>, depth: seq<nat>, h: nat)
    requires h < |st.g.sources| && Inv(w, st, depth, h, w.keys(st.g.sources[h]))
    ensures Inv(w, st, depth, h + 1, 0)
  {
    hide Reached, Named, Finite, Known, FailedRight, AllDone, Told;
    Sizes(st.g, depth);
    NextTold(w, st.g, st.diagnostics, h);
    NextDone(w, st.g, depth, h);
    assert h + 1 < |st.g.sources| ==> depth[h] <= depth[h + 1];
  }

  lemma NextDone<S>(w: World<S>, g: Graph<S>, depth: seq<nat>, h: nat)
    requires |g.sources| == |g.deps| == |depth| && h < |g.sources| && AllDone(w, g, depth, h, w.keys(g.sources[h]))
    ensures AllDone(w, g, depth, h + 1, 0)
  {
    assert h + 1 < |g.sources| ==> Done(w, g, depth, h + 1, 0);
    hide Done;
  }

  lemma NextTold<S>(w: World<S>, g: Graph<S>, diagnostics: nat, h: nat)
    requires h < |g.sources| && Told(w, g, diagnostics, h, w.keys(g.sources[h]))
    ensures Told(w, g, diagnostics, h + 1, 0)
  {
    hide Met;
  }

  function Reversed<T>(s: seq<T>): seq<T> {
    if s == [] then [] else [s[|s| - 1]] + Reversed(s[..|s| - 1])
  }

  class Resolver<S(==, !new)> {
    const w: World<S>
    var sources: seq<S>
    var deps: seq<seq<Dep>>
    var via: seq<Option<nat>>
    var bySource: map<S, nat>
    var failed: set<S>
    var diagnostics: nat
    var queue: seq<nat>
    ghost var depth: seq<nat>

    ghost function Now(): State<S>
      reads this
    {
      State(Graph(sources, deps, via, bySource), failed, diagnostics, queue)
    }

    constructor (w: World<S>)
      ensures this.w == w && depth == []
      ensures Now() == State(Graph([], [], [], map[]), {}, 0, [])
    {
      this.w := w;
      sources, deps, via, bySource := [], [], [], map[];
      failed, diagnostics, queue, depth := {}, 0, [], [];
    }

    /** A package of its own for a source that is met the first time. */
    method Add(s: S, from: Option<nat>) returns (id: nat)
      modifies this`sources, this`deps, this`via, this`bySource, this`queue
      ensures id == |old(sources)|
      ensures Now() == old(Now()).(g := Added(old(Now().g), s, from), queue := old(queue) + [id])
    {
      id := |sources|;
      sources, deps, via := sources + [s], deps + [[]], via + [from];
      bySource := bySource[s := id];
      queue := queue + [id];
    }

    /** The package that the dependency `k` of the package `from` leads to, if any. */
    method ResolveDependency(from: nat, k: nat) returns (dep: Option<nat>)
      requires from < |sources|
      modifies this`sources, this`deps, this`via, this`bySource, this`queue, this`failed, this`diagnostics
      ensures (Now(), dep) == Resolved(w, old(Now()), from, k)
    {
      var found := w.leads(sources[from], k);
      if found.None? {
        diagnostics := diagnostics + 1;
        return None;
      }
      var source := found.value;
      if source in bySource {
        return Some(bySource[source]);
      }
      if source in failed {
        return None;
      }
      if !w.loads(source) {
        diagnostics := diagnostics + 1;
        failed := failed + {source};
        return None;
      }
      var id := Add(source, Some(from));
      return Some(id);
    }

    /** One dependency, and the package has it if it came to one. */
    method Follow(from: nat, k: nat)
      requires from < |sources| == |deps|
      modifies this`sources, this`deps, this`via, this`bySource, this`queue, this`failed, this`diagnostics
      ensures Now() == Followed(w, old(Now()), from, k)
    {
      var dep := ResolveDependency(from, k);
      if dep.Some? {
        deps := deps[from := deps[from] + [(k, dep.value)]];
      }
    }

    /** The ids in the queue are those from `h` on, in order. */
    ghost predicate Queued(h: nat)
      reads this
    {
      |queue| + h == |sources| && forall i :: 0 <= i < |queue| ==> queue[i] == h + i
    }

    /** All dependencies of a package, in order. */
    method Process(id: nat)
      requires Inv(w, Now(), depth, id, 0) && id < |sources| && Queued(id + 1)
      modifies this
      ensures Inv(w, Now(), depth, id + 1, 0) && Queued(id + 1)
    {
      hide Inv;
      Shape(id, 0);
      ghost var s := sources[id];
      for k := 0 to w.keys(sources[id])
        invariant id < |sources| == |deps| && sources[id] == s
        invariant Inv(w, Now(), depth, id, k) && Queued(id + 1)
      {
        ghost var st := Now();
        FollowedKeeps(w, st, depth, id, k);
        Shape(id, k);
        ghost var after := DepthAfter(w, st, depth, id, k);
        Follow(id, k);
        depth := after;
        Shape(id, k + 1);
      }
      NextPackage(w, Now(), depth, id);
    }

    lemma Shape(h: nat, k: nat)
      requires Inv(w, Now(), depth, h, k)
      ensures |sources| == |deps| == |depth| == |via|
    {
    }

    /**
      The packages of the project, breadth first from its root: exactly the sources that can be
      reached, each with all its dependencies; something is reported exactly if one of them is
      not met.
     */
    method Resolve()
      requires Finite(w) && Now() == State(Graph([], [], [], map[]), {}, 0, []) && depth == []
      modifies this
      ensures Finished(w, Now(), depth)
      ensures forall s :: s in bySource <==> Reachable(w, s)
      ensures diagnostics == 0 <==> forall s, k :: Reachable(w, s) && 0 <= k < w.keys(s) ==> Met(w, s, k)
    {
      hide Inv, Reachable, Met;
      var root := Add(w.root, None);
      depth := [0];
      RootInv(w, Now());
      ghost var h := 0;
      while queue != []
        invariant h <= |sources| && Inv(w, Now(), depth, h, 0) && Queued(h)
        decreases |w.universe| - h
      {
        InvIsBounded(w, Now(), depth, h, 0);
        ghost var before := Now();
        var id := queue[0];
        queue := queue[1..];
        OtherQueue(w, before, Now(), depth, h);
        Process(id);
        h := h + 1;
        InvIsBounded(w, Now(), depth, h, 0);
      }
      ReportsExactlyTheUnmet(w, Now(), depth);
      forall s
        ensures s in bySource <==> Reachable(w, s)
      {
        ExactlyTheReachable(w, Now(), depth, s);
      }
    }

    /** The chain of dependencies from the root to a package; for the root, the package itself. */
    method Chain(id: nat) returns (labels: seq<Label>)
      requires Finished(w, Now(), depth) && id < |sources|
      ensures forall i :: 0 <= i < |via| && via[i].Some? ==> via[i].value < i
      ensures id < |via| && labels == if id == 0 then [Itself(0)] else Links(via, id)
      ensures forall p :: Path(w, p) && p[|p| - 1] == sources[id] && id > 0 ==> |labels| <= |p| - 1
    {
      LinksArePath(w, Now().g, depth, id);
      forall p | Path(w, p) && p[|p| - 1] == sources[id]
        ensures |Links(via, id)| <= |p| - 1
      {
        LinksAreShortest(w, Now(), depth, id, p);
      }
      labels := Walk(id);
      if labels == [] {
        labels := [Itself(id)];
      }
      labels := Reversed(labels);
    }

    /** The chain, backwards. */
    method Walk(id: nat) returns (labels: seq<Label>)
      requires id < |via| && forall i :: 0 <= i < |via| && via[i].Some? ==> via[i].value < i
      ensures Reversed(labels) == Links(via, id)
    {
      labels := [];
      var at: nat := id;
      while via[at].Some?
        invariant at < |via| && Links(via, id) == Links(via, at) + Reversed(labels)
        decreases at
      {
        var parent := via[at].value;
        ReversedSnoc(labels, DependsOn(parent, at));
        labels := labels + [DependsOn(parent, at)];
        at := parent;
      }
    }
  }

  lemma ReversedSnoc<T>(s: seq<T>, x: T)
    ensures Reversed(s + [x]) == [x] + Reversed(s)
  {
    assert (s + [x])[..|s|] == s;
  }

  lemma OtherQueue<S(!new)>(w: World<S>, st: State<S>, st': State<S>, depth: seq<nat>, h: nat)
    requires Inv(w, st, depth, h, 0) && st' == st.(queue := st'.queue)
    ensures Inv(w, st', depth, h, 0)
  {
  }

  lemma RootInv<S(!new)>(w: World<S>, st: State<S>)
    requires Finite(w) && st == State(Added(Graph([], [], [], map[]), w.root, None), {}, 0, [0])
    ensures Inv(w, st, [0], 0, 0)
  {
  }
}
