/**
  The paths that a lock file names its packages by: normalized by their parts alone, and
  written relative to the project.
 */
module LockPaths {
  import opened Basics

  /** A part of a path: the root, `.`, `..`, or a name. */
  datatype Part = Root | Cur | Parent | Name(name: string)

  type Path = seq<Part>

  /** The parts as a path is taken apart: the root only at the front. */
  predicate WellFormed(p: Path) {
    forall i :: 0 < i < |p| ==> p[i] != Root
  }

  predicate IsAbsolute(p: Path) {
    p != [] && p[0] == Root
  }

  // ---------------------------------------------------------------- normalizing

  /** Whether `PathBuf::pop` has a part to take away: not from nothing and not the root. */
  predicate CanPop(out: Path) {
    out != [] && out != [Root]
  }

  /** What one more part does to the path so far. */
  function Onto(out: Path, part: Part): Path {
    match part
    case Cur => out
    case Parent => if CanPop(out) then out[..|out| - 1] else out + [Parent]
    case Root => [Root]
    case Name(_) => out + [part]
  }

  function Normal(p: Path): Path {
    if p == [] then [] else Onto(Normal(p[..|p| - 1]), p[|p| - 1])
  }

  method NormalizePath(p: Path) returns (out: Path)
    ensures out == Normal(p)
  {
    out := [];
    for i := 0 to |p|
      invariant out == Normal(p[..i])
    {
      assert p[..i + 1][..i] == p[..i];
      match p[i] {
        case Cur =>
        case Parent =>
          if CanPop(out) {
            out := out[..|out| - 1];
          } else {
            out := out + [Parent];
          }
        case Root => out := [Root];
        case Name(_) => out := out + [p[i]];
      }
    }
    assert p[..|p|] == p;
  }

  // ---------------------------------------------------------------- what a path means

  /** A place: how far above the start, and the names from there down. An absolute path starts at the root. */
  datatype Place = Place(absolute: bool, ups: nat, names: seq<string>)

  function Step(at: Place, part: Part): Place {
    match part
    case Cur => at
    case Root => Place(true, 0, [])
    case Name(n) => at.(names := at.names + [n])
    case Parent =>
      if at.names != [] then at.(names := at.names[..|at.names| - 1])
      else if at.absolute then at
      else at.(ups := at.ups + 1)
  }

  /** The place that a path leads to, `..` at the root staying there. */
  function Means(p: Path): Place {
    if p == [] then Place(false, 0, []) else Step(Means(p[..|p| - 1]), p[|p| - 1])
  }

  function Names(names: seq<string>): Path {
    seq(|names|, i requires 0 <= i < |names| => Name(names[i]))
  }

  /** The normal form with the `..` that it keeps at its front, if any. */
  function Form(absolute: bool, up: bool, names: seq<string>): Path {
    (if absolute then [Root] else []) + (if up then [Parent] else []) + Names(names)
  }

  lemma NamesSnoc(names: seq<string>, n: string)
    ensures Names(names + [n]) == Names(names) + [Name(n)]
  {
  }

  /** Whether `p` goes above its start, and how often, counted as the normal form counts: every second `..` takes the one before it away. */
  function Climbs(p: Path): (bool, nat) {
    if p == [] then (false, 0)
    else
      var (up, n) := Climbs(p[..|p| - 1]);
      var at := Means(p[..|p| - 1]);
      match p[|p| - 1]
      case Root => (false, 0)
      case Parent => if at.names != [] then (up, n) else (!up, n + 1)
      case _ => (up, n)
  }

  lemma OntoForm(absolute: bool, up: bool, names: seq<string>, part: Part)
    requires part != Root
    ensures Onto(Form(absolute, up, names), part) ==
            match part
            case Cur => Form(absolute, up, names)
            case Name(n) => Form(absolute, up, names + [n])
            case Parent => if names != [] then Form(absolute, up, names[..|names| - 1]) else Form(absolute, !up, [])
  {
    var form := Form(absolute, up, names);
    match part
    case Cur =>
    case Name(n) => NamesSnoc(names, n);
    case Parent =>
      if names != [] {
        FormPop(absolute, up, names);
      } else {
        OntoEmptyForm(absolute, up);
        assert names == [];
      }
  }

  lemma FormPop(absolute: bool, up: bool, names: seq<string>)
    requires names != []
    ensures var form := Form(absolute, up, names);
            CanPop(form) && form[..|form| - 1] == Form(absolute, up, names[..|names| - 1])
  {
    assert Form(absolute, up, names)[|Form(absolute, up, names)| - 1] == Name(names[|names| - 1]);
  }

  lemma OntoEmptyForm(absolute: bool, up: bool)
    ensures Onto(Form(absolute, up, []), Parent) == Form(absolute, !up, [])
  {
    assert Names([]) == [];
    assert Form(absolute, true, []) == Form(absolute, false, []) + [Parent];
    assert Form(absolute, true, [])[..|Form(absolute, true, [])| - 1] == Form(absolute, false, []);
  }

  /** The normal form of every path: its names, and a `..` at its front if it climbs an odd number of times. */
  lemma {:induction false} NormalIs(p: Path)
    requires WellFormed(p)
    ensures Normal(p) == Form(IsAbsolute(p), Climbs(p).0, Means(p).names)
    ensures Means(p).absolute == IsAbsolute(p)
    ensures Climbs(p).0 <==> Climbs(p).1 % 2 == 1
    ensures !IsAbsolute(p) ==> Means(p).ups == Climbs(p).1
    ensures IsAbsolute(p) ==> Means(p).ups == 0
  {
    if p != [] {
      var init, last := p[..|p| - 1], p[|p| - 1];
      NormalIs(init);
      if last == Root {
        assert |p| == 1;
        assert Names([]) == [];
      } else {
        OntoForm(IsAbsolute(init), Climbs(init).0, Means(init).names, last);
        hide Onto, Form;
        assert IsAbsolute(p) == IsAbsolute(init);
      }
    }
  }

  lemma FormSnoc(absolute: bool, up: bool, names: seq<string>, n: string)
    ensures Form(absolute, up, names + [n]) == Form(absolute, up, names) + [Name(n)]
  {
    NamesSnoc(names, n);
  }

  lemma Snoc(p: Path, part: Part)
    ensures Normal(p + [part]) == Onto(Normal(p), part) && Means(p + [part]) == Step(Means(p), part)
  {
    assert (p + [part])[..|p|] == p;
  }

  lemma ShortForms()
    ensures Normal([]) == [] && Normal([Root]) == [Root] && Normal([Parent]) == [Parent] && Normal([Root, Parent]) == [Root, Parent]
    ensures Means([]) == Place(false, 0, []) && Means([Root]) == Place(true, 0, [])
    ensures Means([Parent]) == Place(false, 1, []) && Means([Root, Parent]) == Place(true, 0, [])
  {
    Snoc([], Root);
    Snoc([], Parent);
    Snoc([Root], Parent);
    assert [] + [Root] == [Root] && [] + [Parent] == [Parent] && [Root] + [Parent] == [Root, Parent];
  }

  lemma EmptyFormIsNormal(absolute: bool, up: bool)
    ensures Normal(Form(absolute, up, [])) == Form(absolute, up, [])
    ensures Means(Form(absolute, up, [])) == Place(absolute, if up && !absolute then 1 else 0, [])
  {
    hide Normal, Means;
    ShortForms();
    assert Names([]) == [];
    assert Form(true, true, []) == [Root, Parent] && Form(true, false, []) == [Root];
    assert Form(false, true, []) == [Parent] && Form(false, false, []) == [];
  }

  lemma {:induction false} FormIsNormal(absolute: bool, up: bool, names: seq<string>)
    ensures Normal(Form(absolute, up, names)) == Form(absolute, up, names)
    ensures Means(Form(absolute, up, names)) == Place(absolute, if up && !absolute then 1 else 0, names)
    decreases |names|
  {
    hide Form, Normal, Means;
    if names == [] {
      EmptyFormIsNormal(absolute, up);
    } else {
      var init, last := names[..|names| - 1], names[|names| - 1];
      FormIsNormal(absolute, up, init);
      FormSnoc(absolute, up, init, last);
      Snoc(Form(absolute, up, init), Name(last));
      assert init + [last] == names;
    }
  }

  /**
    Normalizing keeps the place of every absolute path, and of a relative one exactly if it goes
    at most one step above its start: a second `..` takes the first away.
   */
  lemma NormalKeepsThePlace(p: Path)
    requires WellFormed(p)
    ensures Means(Normal(p)) == Means(p) <==> IsAbsolute(p) || Means(p).ups <= 1
  {
    hide Form, Climbs, Means, Normal;
    NormalIs(p);
    FormIsNormal(IsAbsolute(p), Climbs(p).0, Means(p).names);
  }

  /** Two steps up are none: what is said of leading `..` parts does not hold of two. */
  lemma TwoStepsUpAreNone()
    ensures Normal([Parent, Parent]) == [] && Means([Parent, Parent]) == Place(false, 2, [])
  {
    ShortForms();
    Snoc([Parent], Parent);
    assert [Parent] + [Parent] == [Parent, Parent];
  }

  /** A normal path is left as it is. */
  lemma NormalTwice(p: Path)
    requires WellFormed(p)
    ensures Normal(Normal(p)) == Normal(p) && WellFormed(Normal(p))
  {
    NormalIs(p);
    FormIsNormal(IsAbsolute(p), Climbs(p).0, Means(p).names);
  }

  // ---------------------------------------------------------------- relative to a directory

  /** How many parts two paths share from the front. */
  function Shared(a: Path, b: Path): nat {
    if a != [] && b != [] && a[0] == b[0] then 1 + Shared(a[1..], b[1..]) else 0
  }

  function Ups(n: nat): Path {
    seq(n, i requires 0 <= i < n => Parent)
  }

  lemma {:induction false} SharedIs(a: Path, b: Path)
    ensures Shared(a, b) <= |a| && Shared(a, b) <= |b| && a[..Shared(a, b)] == b[..Shared(a, b)]
  {
    if a != [] && b != [] && a[0] == b[0] {
      SharedIs(a[1..], b[1..]);
      var n := Shared(a[1..], b[1..]);
      assert a[..n + 1] == [a[0]] + a[1..][..n] && b[..n + 1] == [b[0]] + b[1..][..n];
    }
  }

  /** `target` from the directory `base`; there is none between a rooted path and one that is not. */
  function RelativePath(base: Path, target: Path): Option<Path> {
    if IsAbsolute(base) != IsAbsolute(target) then None
    else
      SharedIs(base, target);
      var shared := Shared(base, target);
      var parts := Ups(|base| - shared) + target[shared..];
      if parts == [] then Some([Cur]) else Some(parts)
  }

  /** Parts put on a path, one after the other. */
  function OntoAll(out: Path, parts: Path): Path
    decreases |parts|
  {
    if parts == [] then out else OntoAll(Onto(out, parts[0]), parts[1..])
  }

  lemma {:induction false} NormalAppend(p: Path, q: Path)
    ensures Normal(p + q) == OntoAll(Normal(p), q)
    decreases |q|
  {
    if q == [] {
      assert p + q == p;
    } else {
      assert (p + [q[0]])[..|p|] == p;
      assert p + q == (p + [q[0]]) + q[1..];
      NormalAppend(p + [q[0]], q[1..]);
    }
  }

  lemma {:induction false} OntoAllAppend(out: Path, p: Path, q: Path)
    ensures OntoAll(out, p + q) == OntoAll(OntoAll(out, p), q)
    decreases |p|
  {
    hide Onto;
    if p == [] {
      assert p + q == q;
    } else {
      assert (p + q)[1..] == p[1..] + q;
      OntoAllAppend(Onto(out, p[0]), p[1..], q);
    }
  }

  /** Steps up take parts away, as long as the root is not reached. */
  lemma {:induction false} UpsPop(out: Path, n: nat)
    requires n <= |out| && (IsAbsolute(out) ==> n < |out|)
    ensures OntoAll(out, Ups(n)) == out[..|out| - n]
    decreases n
  {
    if n > 0 {
      assert Ups(n)[1..] == Ups(n - 1);
      UpsPop(out[..|out| - 1], n - 1);
      assert out[..|out| - 1][..|out| - n] == out[..|out| - n];
    } else {
      assert out[..|out|] == out;
    }
  }

  /** The front of a normal path is normal. */
  lemma {:induction false} FrontIsNormal(p: Path, n: nat)
    requires n <= |p| && Normal(p) == p
    ensures Normal(p[..n]) == p[..n]
    decreases |p|
  {
    if n < |p| {
      LastIsPushed(p);
      FrontIsNormal(p[..|p| - 1], n);
      assert p[..|p| - 1][..n] == p[..n];
    } else {
      assert p[..n] == p;
    }
  }

  lemma {:induction false} NormalIsNoLonger(p: Path)
    ensures |Normal(p)| <= |p|
  {
    if p != [] {
      NormalIsNoLonger(p[..|p| - 1]);
    }
  }

  lemma LastIsPushed(p: Path)
    requires p != [] && Normal(p) == p
    ensures Normal(p[..|p| - 1]) == p[..|p| - 1]
  {
    NormalIsNoLonger(p[..|p| - 1]);
  }

  /**
    The path written relative to a normal directory leads, from that directory, to the normal
    form of the target: to the target itself where it is normal.
   */
  lemma RelativeLeadsBack(base: Path, target: Path)
    requires Normal(base) == base && IsAbsolute(base) == IsAbsolute(target)
    ensures RelativePath(base, target).Some? && Normal(base + RelativePath(base, target).value) == Normal(target)
  {
    SharedIs(base, target);
    var n := Shared(base, target);
    var path := RelativePath(base, target).value;
    NormalAppend(base, path);
    FrontIsNormal(base, n);
    TakenApart(target, n);
    hide Normal;
    if Ups(|base| - n) + target[n..] == [] {
      assert |base| == n && |target| == n;
      assert base[..n] == base && target[..n] == target;
      assert OntoAll(base, [Cur]) == OntoAll(base, [Cur][1..]);
    } else {
      hide OntoAll;
      OntoAllAppend(base, Ups(|base| - n), target[n..]);
      UpsPop(base, |base| - n);
    }
  }

  lemma TakenApart(p: Path, n: nat)
    requires n <= |p|
    ensures Normal(p) == OntoAll(Normal(p[..n]), p[n..])
  {
    hide Normal, OntoAll;
    NormalAppend(p[..n], p[n..]);
    assert p[..n] + p[n..] == p;
  }

  // ---------------------------------------------------------------- the shortest way

  /** How many steps two paths are apart: up to what they share, and down again. */
  function Apart(a: Path, b: Path): nat {
    SharedIs(a, b);
    |a| - Shared(a, b) + |b| - Shared(a, b)
  }

  /** Two paths share as many parts as they begin with alike, and no more. */
  lemma {:induction false} SharedExactly(a: Path, b: Path, n: nat)
    requires n <= |a| && n <= |b| && a[..n] == b[..n] && (n == |a| || n == |b| || a[n] != b[n])
    ensures Shared(a, b) == n
  {
    if n > 0 {
      assert a[..n][0] == a[0] && b[..n][0] == b[0];
      assert a[1..][..n - 1] == a[..n][1..] && b[1..][..n - 1] == b[..n][1..];
      SharedExactly(a[1..], b[1..], n - 1);
    }
  }

  lemma {:induction false} SharedStops(a: Path, b: Path)
    ensures var n := Shared(a, b); n <= |a| && n <= |b| && (n == |a| || n == |b| || a[n] != b[n])
  {
    if a != [] && b != [] && a[0] == b[0] {
      SharedStops(a[1..], b[1..]);
    }
  }

  /** One part more brings a path one step nearer exactly if it is the next part of the target. */
  lemma PushedNearer(out: Path, part: Part, target: Path)
    ensures out + [part] <= target ==> Apart(out + [part], target) == Apart(out, target) - 1
    ensures !(out + [part] <= target) ==> Apart(out + [part], target) == Apart(out, target) + 1
  {
    var n := Shared(out, target);
    SharedIs(out, target);
    SharedStops(out, target);
    if out + [part] <= target {
      SharedExactly(out, target, |out|);
      SharedExactly(out + [part], target, |out| + 1);
    } else {
      SharedExactly(out + [part], target, n);
    }
  }

  /** A part put on a path brings it at most one step nearer. */
  lemma OntoNearer(out: Path, part: Part, target: Path)
    requires part != Root
    ensures Apart(out, target) <= Apart(Onto(out, part), target) + 1
  {
    match part
    case Cur =>
    case Name(_) => PushedNearer(out, part, target);
    case Parent =>
      if CanPop(out) {
        assert out[..|out| - 1] + [out[|out| - 1]] == out;
        PushedNearer(out[..|out| - 1], out[|out| - 1], target);
      } else {
        PushedNearer(out, Parent, target);
      }
  }

  /** So a way is at least as long as its ends are apart. */
  lemma {:induction false} WayIsNoShorter(out: Path, q: Path, target: Path)
    requires Root !in q && OntoAll(out, q) == target
    ensures Apart(out, target) <= |q|
    decreases |q|
  {
    if q == [] {
      SharedExactly(out, out, |out|);
    } else {
      OntoNearer(out, q[0], target);
      WayIsNoShorter(Onto(out, q[0]), q[1..], target);
    }
  }

  /** The steps from one path to another: up to what they share, and down to the target. */
  function Way(out: Path, target: Path): Path {
    SharedIs(out, target);
    Ups(|out| - Shared(out, target)) + target[Shared(out, target)..]
  }

  /** A first step nearer is the first step of that way. */
  lemma NearerIsOnTheWay(out: Path, part: Part, target: Path)
    requires part != Root && IsAbsolute(out) == IsAbsolute(target)
    requires Apart(Onto(out, part), target) == Apart(out, target) - 1
    ensures Way(out, target) == [part] + Way(Onto(out, part), target)
    ensures IsAbsolute(Onto(out, part)) == IsAbsolute(target)
  {
    hide Apart, Way;
    if part.Parent? && CanPop(out) {
      UpIsOnTheWay(out, target);
    } else {
      PushedNearer(out, part, target);
      DownIsOnTheWay(out, part, target);
    }
  }

  lemma UpIsOnTheWay(out: Path, target: Path)
    requires out != [] && Apart(out[..|out| - 1], target) == Apart(out, target) - 1
    ensures Way(out, target) == [Parent] + Way(out[..|out| - 1], target)
  {
    var n, init := Shared(out, target), out[..|out| - 1];
    assert init + [out[|out| - 1]] == out;
    PushedNearer(init, out[|out| - 1], target);
    hide Apart;
    SharedIs(out, target);
    SharedStops(out, target);
    SharedBelow(out, target);
    SharedExactly(init, target, n);
    assert Ups(|out| - n) == [Parent] + Ups(|init| - n);
    assert [Parent] + Ups(|init| - n) + target[n..] == [Parent] + (Ups(|init| - n) + target[n..]);
  }

  lemma DownIsOnTheWay(out: Path, part: Part, target: Path)
    requires out + [part] <= target
    ensures Way(out, target) == [part] + Way(out + [part], target)
  {
    SharedExactly(out, target, |out|);
    SharedExactly(out + [part], target, |out| + 1);
    assert target[|out|..] == [part] + target[|out| + 1..];
    assert Ups(0) == [];
  }

  lemma SharedBelow(a: Path, b: Path)
    requires !(a <= b)
    ensures Shared(a, b) < |a|
  {
    SharedIs(a, b);
    assert a[..|a|] == a;
  }

  lemma {:induction false} ShortestIsTheWay(out: Path, q: Path, target: Path)
    requires Root !in q && OntoAll(out, q) == target && |q| == Apart(out, target) && IsAbsolute(out) == IsAbsolute(target)
    ensures q == Way(out, target)
    decreases |q|
  {
    if q == [] {
      SharedExactly(out, out, |out|);
      assert Ups(0) == [];
    } else {
      var next := Onto(out, q[0]);
      OntoNearer(out, q[0], target);
      WayIsNoShorter(next, q[1..], target);
      NearerIsOnTheWay(out, q[0], target);
      ShortestIsTheWay(next, q[1..], target);
      assert q == [q[0]] + q[1..];
    }
  }

  /**
    The relative path is the shortest that leads to a normal target, and no other that leads there
    is as short; of the directory itself, to which the empty path leads too, it is `.`.
   */
  lemma RelativeIsTheShortest(base: Path, target: Path, q: Path)
    requires Normal(base) == base && Normal(target) == target && IsAbsolute(base) == IsAbsolute(target)
    requires Root !in q && Normal(base + q) == target
    ensures RelativePath(base, target).Some?
    ensures var path := RelativePath(base, target).value;
            if base == target then path == [Cur] else |path| <= |q| && (|path| == |q| ==> path == q)
  {
    NormalAppend(base, q);
    hide Normal, OntoAll, Onto;
    WayIsNoShorter(base, q, target);
    SharedIs(base, target);
    var way := Way(base, target);
    if base == target {
      SharedExactly(base, target, |base|);
      assert Ups(0) == [];
    } else {
      assert way != [] by { NotAtOnce(base, target); }
      if |q| == |way| {
        ShortestIsTheWay(base, q, target);
      }
    }
  }

  lemma NotAtOnce(a: Path, b: Path)
    requires a != b
    ensures Way(a, b) != []
  {
    SharedIs(a, b);
    assert a[..|a|] == a && b[..|b|] == b;
  }

  /** So what is inside the directory is written without `..`. */
  lemma InsideIsWrittenPlainly(base: Path, target: Path)
    requires base < target && IsAbsolute(base) == IsAbsolute(target)
    ensures RelativePath(base, target) == Some(target[|base|..])
  {
    SharedExactly(base, target, |base|);
    assert Ups(0) + target[|base|..] == target[|base|..];
  }

  /** A path that is put on another without a root of its own leaves it as absolute as it was. */
  lemma {:induction false} OntoAllFrom(out: Path, q: Path)
    requires Root !in q
    ensures IsAbsolute(OntoAll(out, q)) == IsAbsolute(out)
    decreases |q|
  {
    if q != [] {
      OntoAllFrom(Onto(out, q[0]), q[1..]);
    }
  }

  /** There is a relative path exactly if some path without a root leads from the directory to the target. */
  lemma RelativeExactly(base: Path, target: Path)
    requires Normal(base) == base && WellFormed(target)
    ensures RelativePath(base, target).Some? <==> exists q :: Root !in q && Normal(base + q) == Normal(target)
  {
    NormalIs(target);
    assert IsAbsolute(Normal(target)) == IsAbsolute(target) by { FormIsAbsolute(IsAbsolute(target), Climbs(target).0, Means(target).names); }
    hide Normal, Form, Climbs, Means;
    if IsAbsolute(base) == IsAbsolute(target) {
      RelativeLeadsBack(base, target);
      NoRootInside(base, target);
    }
    forall q | Root !in q && Normal(base + q) == Normal(target)
      ensures IsAbsolute(base) == IsAbsolute(target)
    {
      NormalAppend(base, q);
      OntoAllFrom(base, q);
    }
  }

  lemma FormIsAbsolute(absolute: bool, up: bool, names: seq<string>)
    ensures IsAbsolute(Form(absolute, up, names)) == absolute
  {
  }

  lemma NoRootInside(base: Path, target: Path)
    requires IsAbsolute(base) == IsAbsolute(target) && WellFormed(target)
    ensures Root !in RelativePath(base, target).value
  {
    SharedIs(base, target);
    assert IsAbsolute(base) ==> Shared(base, target) > 0;
  }

  // ---------------------------------------------------------------- one source, however written

  /** `Path::join`: an absolute path stands for itself. */
  function Join(base: Path, p: Path): Path {
    if IsAbsolute(p) then p else base + p
  }

  predicate SamePlace(base: Path, a: Path, b: Path) {
    Normal(Join(base, a)) == Normal(Join(base, b))
  }

  /** A target written relative to the project is the target written absolute. */
  lemma WrittenEitherWay(base: Path, target: Path)
    requires Normal(base) == base && IsAbsolute(base) && IsAbsolute(target) && WellFormed(target)
    ensures RelativePath(base, target).Some? && SamePlace(base, RelativePath(base, target).value, target)
  {
    RelativeLeadsBack(base, target);
    SharedIs(base, target);
    assert Shared(base, target) > 0;
    var p := RelativePath(base, target).value;
    assert !IsAbsolute(p);
  }

  /** Paths of one place lead to one place from an absolute directory, and those that never go above the root conversely. */
  lemma SamePlaceIsOnePlace(base: Path, a: Path, b: Path)
    requires IsAbsolute(base) && WellFormed(Join(base, a)) && WellFormed(Join(base, b))
    ensures SamePlace(base, a, b) ==> Means(Join(base, a)) == Means(Join(base, b))
    ensures Means(Join(base, a)) == Means(Join(base, b)) ==>
              (SamePlace(base, a, b) <==> Climbs(Join(base, a)).0 == Climbs(Join(base, b)).0)
  {
    var p, q := Join(base, a), Join(base, b);
    assert IsAbsolute(p) && IsAbsolute(q);
    NormalIs(p);
    NormalIs(q);
    NormalKeepsThePlace(p);
    NormalKeepsThePlace(q);
    FormsDiffer(Means(p).names);
    hide Form, Climbs, Means;
  }

  lemma FormsDiffer(names: seq<string>)
    ensures Form(true, true, names) != Form(true, false, names)
  {
    assert |Form(true, true, names)| != |Form(true, false, names)|;
  }
}
