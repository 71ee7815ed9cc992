/**
  A bounded record of failed tasks. Each owner has room for `MAX_RECORDED_FAILURES` handles. A
  full owner first gives up the handles that are settled by then; a failure that still finds no
  room is only counted. Proved here: no failure is lost or told twice.
 */
module FailureLedger {

  const MAX_RECORDED_FAILURES := 64

  type Owner = nat

  /** A failed task's handle. Each task fails once: `id` tells the handles apart. */
  datatype Handle = Handle(id: nat, owner: Owner)

  datatype Book = Book(kept: map<Owner, seq<Handle>>, notRecorded: map<Owner, nat>)

  function KeptOf(b: Book, o: Owner): seq<Handle> {
    if o in b.kept then b.kept[o] else []
  }

  function MissedOf(b: Book, o: Owner): nat {
    if o in b.notRecorded then b.notRecorded[o] else 0
  }

  function Keep(s: seq<Handle>, gone: set<Handle>): seq<Handle> {
    if s == [] then [] else (if s[0] in gone then [] else [s[0]]) + Keep(s[1..], gone)
  }

  function LetGo(s: seq<Handle>, gone: set<Handle>): seq<Handle> {
    if s == [] then [] else (if s[0] in gone then [s[0]] else []) + LetGo(s[1..], gone)
  }

  /** What an owner keeps once room was asked for. */
  function Room(kept: seq<Handle>, gone: set<Handle>): seq<Handle> {
    if |kept| >= MAX_RECORDED_FAILURES then Keep(kept, gone) else kept
  }

  function Released(kept: seq<Handle>, gone: set<Handle>): seq<Handle> {
    if |kept| >= MAX_RECORDED_FAILURES then LetGo(kept, gone) else []
  }

  function Recorded(b: Book, h: Handle, gone: set<Handle>): Book {
    var room := Room(KeptOf(b, h.owner), gone);
    if |room| >= MAX_RECORDED_FAILURES then
      Book(b.kept[h.owner := room], b.notRecorded[h.owner := MissedOf(b, h.owner) + 1])
    else
      Book(b.kept[h.owner := room + [h]], b.notRecorded)
  }

  lemma {:induction false} KeepSnoc(s: seq<Handle>, h: Handle, gone: set<Handle>)
    ensures Keep(s + [h], gone) == Keep(s, gone) + (if h in gone then [] else [h])
    ensures LetGo(s + [h], gone) == LetGo(s, gone) + (if h in gone then [h] else [])
  {
    if s == [] {
      assert s + [h] == [h] && [h][1..] == [];
    } else {
      assert (s + [h])[1..] == s[1..] + [h];
      KeepSnoc(s[1..], h, gone);
    }
  }

  /** The record, as it is updated in place. */
  class FailedTasks {
    var handles: map<Owner, seq<Handle>>
    var notRecorded: map<Owner, nat>

    constructor ()
      ensures Contents() == Book(map[], map[])
    {
      handles, notRecorded := map[], map[];
    }

    ghost function Contents(): Book
      reads this
    {
      Book(handles, notRecorded)
    }

    static method Partition(kept: seq<Handle>, gone: set<Handle>) returns (unhandled: seq<Handle>, handled: seq<Handle>)
      ensures unhandled == Keep(kept, gone)
      ensures handled == LetGo(kept, gone)
    {
      unhandled, handled := [], [];
      for i := 0 to |kept|
        invariant unhandled == Keep(kept[..i], gone)
        invariant handled == LetGo(kept[..i], gone)
      {
        KeepSnoc(kept[..i], kept[i], gone);
        assert kept[..i + 1] == kept[..i] + [kept[i]];
        if kept[i] in gone {
          handled := handled + [kept[i]];
        } else {
          unhandled := unhandled + [kept[i]];
        }
      }
      assert kept[..|kept|] == kept;
    }

    /** `gone` holds the handles whose failure was joined or cancelled by now. */
    method Record(h: Handle, gone: set<Handle>) returns (handledSince: seq<Handle>)
      modifies this
      ensures Contents() == Recorded(old(Contents()), h, gone)
      ensures handledSince == Released(KeptOf(old(Contents()), h.owner), gone)
    {
      var kept := if h.owner in handles then handles[h.owner] else [];
      handledSince := [];
      if |kept| >= MAX_RECORDED_FAILURES {
        kept, handledSince := Partition(kept, gone);
      }
      if |kept| >= MAX_RECORDED_FAILURES {
        var before := if h.owner in notRecorded then notRecorded[h.owner] else 0;
        notRecorded := notRecorded[h.owner := before + 1];
        handles := handles[h.owner := kept];
      } else {
        handles := handles[h.owner := kept + [h]];
      }
    }

    /** Everything that is kept, owner after owner, in one list. */
    method Take() returns (taken: seq<Handle>, missed: map<Owner, nat>, ghost owners: seq<Owner>)
      modifies this
      ensures Ascending(owners) && (forall o :: o in owners <==> o in old(handles))
      ensures taken == InOneList(old(handles), owners) && missed == old(notRecorded)
      ensures Contents() == Book(map[], map[])
    {
      taken, owners := [], [];
      var rest := handles.Keys;
      while rest != {}
        invariant Listed(handles.Keys, owners, rest) && taken == InOneList(handles, owners)
        invariant handles == old(handles) && notRecorded == old(notRecorded)
        decreases |rest|
      {
        var _ := Smallest(rest);
        var o :| o in rest && forall p :: p in rest ==> o <= p;
        ListedNext(handles.Keys, owners, rest, o);
        OneListSnoc(handles, owners, o);
        hide Listed, InOneList;
        taken, owners, rest := taken + handles[o], owners + [o], rest - {o};
      }
      missed := notRecorded;
      handles, notRecorded := map[], map[];
    }
  }

  ghost predicate Ascending(owners: seq<Owner>) {
    forall i, j :: 0 <= i < j < |owners| ==> owners[i] < owners[j]
  }

  /** The smallest of `keys` in order, and the rest. */
  ghost predicate Listed(keys: set<Owner>, owners: seq<Owner>, rest: set<Owner>) {
    && Ascending(owners) && rest <= keys
    && (forall i, p :: 0 <= i < |owners| && p in rest ==> owners[i] < p)
    && (forall o :: o in keys <==> o in owners || o in rest)
  }

  lemma ListedNext(keys: set<Owner>, owners: seq<Owner>, rest: set<Owner>, o: Owner)
    requires Listed(keys, owners, rest) && o in rest && forall p :: p in rest ==> o <= p
    ensures Listed(keys, owners + [o], rest - {o}) && o in keys
  {
  }

  function InOneList(kept: map<Owner, seq<Handle>>, owners: seq<Owner>): seq<Handle> {
    if owners == [] then []
    else
      var last := owners[|owners| - 1];
      InOneList(kept, owners[..|owners| - 1]) + if last in kept then kept[last] else []
  }

  lemma OneListSnoc(kept: map<Owner, seq<Handle>>, owners: seq<Owner>, o: Owner)
    requires o in kept
    ensures InOneList(kept, owners + [o]) == InOneList(kept, owners) + kept[o]
  {
    assert (owners + [o])[..|owners|] == owners;
  }

  lemma {:induction false} Smallest(owners: set<Owner>) returns (least: Owner)
    requires owners != {}
    ensures least in owners && forall p :: p in owners ==> least <= p
    decreases owners
  {
    least :| least in owners;
    var rest := owners - {least};
    assert forall p :: p in owners ==> p == least || p in rest;
    if rest != {} {
      var other := Smallest(rest);
      least := if least <= other then least else other;
    }
  }

  /** The one list has each owner's handles as they were kept, and no others. */
  lemma {:induction false} ListHasEachOwners(kept: map<Owner, seq<Handle>>, owners: seq<Owner>, o: Owner)
    requires Ascending(owners) && forall p, h :: p in kept && h in kept[p] ==> h.owner == p
    ensures Of(InOneList(kept, owners), o) == if o in owners && o in kept then kept[o] else []
  {
    if owners != [] {
      var init, last := owners[..|owners| - 1], owners[|owners| - 1];
      ListHasEachOwners(kept, init, o);
      var more := if last in kept then kept[last] else [];
      if o == last {
        OfAppend(InOneList(kept, init), more, o);
      } else {
        OfOthers(InOneList(kept, init), more, o);
      }
    }
  }

  // ---------------------------------------------------------------- runs

  datatype Event =
    | Fails(handle: Handle)     // a task ended with an error: its handle is recorded
    | Handled(handle: Handle)   // its failure is settled: joined, or cancelled
    | Taken                     // the record is emptied for a report

  /**
    The record after a run, with what has happened since it was last emptied: the failures
    in order, those let go, and those that found no room.
   */
  datatype State = State(
    book: Book,
    gone: set<Handle>,
    failed: seq<Handle>,
    released: seq<Handle>,
    missed: seq<Handle>)

  function Start(): State {
    State(Book(map[], map[]), {}, [], [], [])
  }

  function Next(s: State, e: Event): State {
    match e
    case Handled(h) => s.(gone := s.gone + {h})
    case Taken => State(Book(map[], map[]), s.gone, [], [], [])
    case Fails(h) =>
      var kept := KeptOf(s.book, h.owner);
      State(Recorded(s.book, h, s.gone), s.gone, s.failed + [h], s.released + Released(kept, s.gone),
            if |Room(kept, s.gone)| >= MAX_RECORDED_FAILURES then s.missed + [h] else s.missed)
  }

  function After(events: seq<Event>): State {
    if events == [] then Start() else Next(After(events[..|events| - 1]), events[|events| - 1])
  }

  function Of(s: seq<Handle>, o: Owner): seq<Handle> {
    if s == [] then []
    else Of(s[..|s| - 1], o) + (if s[|s| - 1].owner == o then [s[|s| - 1]] else [])
  }

  /** `a` is `b` with some elements left out. */
  ghost predicate InOrder(a: seq<Handle>, b: seq<Handle>) {
    if a == [] then true
    else if b == [] then false
    else if a[|a| - 1] == b[|b| - 1] then InOrder(a[..|a| - 1], b[..|b| - 1])
    else InOrder(a, b[..|b| - 1])
  }

  // ---------------------------------------------------------------- lemmas about sequences

  lemma OfSnoc(s: seq<Handle>, h: Handle, o: Owner)
    ensures Of(s + [h], o) == Of(s, o) + (if h.owner == o then [h] else [])
  {
    assert (s + [h])[..|s + [h]| - 1] == s;
  }

  lemma {:induction false} OfAppend(s: seq<Handle>, t: seq<Handle>, o: Owner)
    requires forall h :: h in t ==> h.owner == o
    ensures Of(s + t, o) == Of(s, o) + t
  {
    if t == [] {
      assert s + t == s;
    } else {
      var init, last := t[..|t| - 1], t[|t| - 1];
      assert s + t == s + init + [last];
      OfSnoc(s + init, last, o);
      OfAppend(s, init, o);
      assert Of(s, o) + init + [last] == Of(s, o) + t;
    }
  }

  lemma {:induction false} OfOthers(s: seq<Handle>, t: seq<Handle>, o: Owner)
    requires forall h :: h in t ==> h.owner != o
    ensures Of(s + t, o) == Of(s, o)
  {
    if t == [] {
      assert s + t == s;
    } else {
      var init, last := t[..|t| - 1], t[|t| - 1];
      assert s + t == s + init + [last];
      assert last in t;
      OfSnoc(s + init, last, o);
      OfOthers(s, init, o);
    }
  }

  /** Making room splits what was kept: every handle stays or is let go, and those that stay keep their order. */
  lemma {:induction false} RoomSplits(s: seq<Handle>, gone: set<Handle>)
    ensures multiset(Keep(s, gone)) + multiset(LetGo(s, gone)) == multiset(s)
    ensures |Keep(s, gone)| + |LetGo(s, gone)| == |s|
    ensures forall h :: h in LetGo(s, gone) <==> h in s && h in gone
    ensures forall h :: h in Keep(s, gone) <==> h in s && h !in gone
  {
    if s != [] {
      assert s == [s[0]] + s[1..];
      RoomSplits(s[1..], gone);
    }
  }

  lemma {:induction false} OrderSnoc(a: seq<Handle>, b: seq<Handle>, h: Handle)
    requires InOrder(a, b)
    ensures InOrder(a, b + [h])
    ensures InOrder(a + [h], b + [h])
    decreases |b|, 1
  {
    assert (b + [h])[..|b + [h]| - 1] == b;
    assert (a + [h])[..|a + [h]| - 1] == a;
    if a != [] && a[|a| - 1] == h {
      OrderShorter(a, b);
    }
  }

  lemma {:induction false} OrderShorter(a: seq<Handle>, b: seq<Handle>)
    requires a != [] && InOrder(a, b)
    ensures InOrder(a[..|a| - 1], b)
    decreases |b|, 0
  {
    var a', b' := a[..|a| - 1], b[..|b| - 1];
    assert b == b' + [b[|b| - 1]];
    if a[|a| - 1] == b[|b| - 1] {
      OrderSnoc(a', b', b[|b| - 1]);
    } else {
      OrderShorter(a, b');
      OrderSnoc(a', b', b[|b| - 1]);
    }
  }

  lemma {:induction false} KeepInOrder(s: seq<Handle>, gone: set<Handle>)
    ensures InOrder(Keep(s, gone), s)
  {
    if s != [] {
      var init, last := s[..|s| - 1], s[|s| - 1];
      assert s == init + [last];
      KeepInOrder(init, gone);
      KeepSnoc(init, last, gone);
      OrderSnoc(Keep(init, gone), init, last);
      assert Keep(init, gone) + [] == Keep(init, gone);
    }
  }

  lemma {:induction false} OrderTransitive(a: seq<Handle>, b: seq<Handle>, c: seq<Handle>)
    requires InOrder(a, b) && InOrder(b, c)
    ensures InOrder(a, c)
    decreases |b| + |c|
  {
    if a != [] {
      var c', last := c[..|c| - 1], c[|c| - 1];
      if b[|b| - 1] == last {
        if a[|a| - 1] == last {
          OrderTransitive(a[..|a| - 1], b[..|b| - 1], c');
        } else {
          OrderTransitive(a, b[..|b| - 1], c');
        }
      } else {
        OrderTransitive(a, b, c');
        assert c == c' + [last];
        OrderSnoc(a, c', last);
      }
    }
  }

  // ---------------------------------------------------------------- the theorem

  /** How one owner's failures, in order, are accounted for. */
  ghost predicate Balanced(kept: seq<Handle>, failed: seq<Handle>, released: seq<Handle>, missed: seq<Handle>) {
    && |kept| <= MAX_RECORDED_FAILURES
    && InOrder(kept, failed)
    && multiset(failed) == multiset(kept) + multiset(released) + multiset(missed)
  }

  /** What holds of one owner's failures, whatever the others do. */
  ghost predicate Accounted(s: State, o: Owner) {
    && Balanced(KeptOf(s.book, o), Of(s.failed, o), Of(s.released, o), Of(s.missed, o))
    && (forall h :: h in KeptOf(s.book, o) ==> h.owner == o)
    && MissedOf(s.book, o) == |Of(s.missed, o)|
    && (forall h :: h in Of(s.released, o) ==> h in s.gone)
  }

  /** One more failure: `room` is what is kept of `kept`, `out` what is let go. */
  lemma BalancedStep(kept: seq<Handle>, failed: seq<Handle>, released: seq<Handle>, missed: seq<Handle>,
                     room: seq<Handle>, out: seq<Handle>, h: Handle)
    requires Balanced(kept, failed, released, missed)
    requires multiset(room) + multiset(out) == multiset(kept) && |room| <= |kept| && InOrder(room, kept)
    ensures |room| >= MAX_RECORDED_FAILURES ==> Balanced(room, failed + [h], released + out, missed + [h])
    ensures |room| < MAX_RECORDED_FAILURES ==> Balanced(room + [h], failed + [h], released + out, missed)
  {
    OrderTransitive(room, kept, failed);
    OrderSnoc(room, failed, h);
  }

  lemma RoomIsMade(kept: seq<Handle>, gone: set<Handle>)
    ensures multiset(Room(kept, gone)) + multiset(Released(kept, gone)) == multiset(kept)
    ensures |Room(kept, gone)| <= |kept|
    ensures InOrder(Room(kept, gone), kept)
    ensures forall h :: h in Released(kept, gone) ==> h in kept && h in gone
    ensures forall h :: h in Room(kept, gone) ==> h in kept
  {
    RoomSplits(kept, gone);
    KeepInOrder(kept, gone);
    SelfInOrder(kept);
  }

  /** The histories of one owner after one more failure of it. */
  lemma HistoriesAfterFailure(s: State, h: Handle)
    requires forall k :: k in KeptOf(s.book, h.owner) ==> k.owner == h.owner
    ensures var s', o, kept := Next(s, Fails(h)), h.owner, KeptOf(s.book, h.owner);
            && Of(s'.failed, o) == Of(s.failed, o) + [h]
            && Of(s'.released, o) == Of(s.released, o) + Released(kept, s.gone)
            && Of(s'.missed, o) ==
                 Of(s.missed, o) + (if |Room(kept, s.gone)| >= MAX_RECORDED_FAILURES then [h] else [])
  {
    RoomIsMade(KeptOf(s.book, h.owner), s.gone);
    OfSnoc(s.failed, h, h.owner);
    OfAppend(s.released, Released(KeptOf(s.book, h.owner), s.gone), h.owner);
    OfSnoc(s.missed, h, h.owner);
  }

  lemma BookAfterFailure(b: Book, h: Handle, gone: set<Handle>)
    ensures var room := Room(KeptOf(b, h.owner), gone);
            var b' := Recorded(b, h, gone);
            if |room| >= MAX_RECORDED_FAILURES then
              KeptOf(b', h.owner) == room && MissedOf(b', h.owner) == MissedOf(b, h.owner) + 1
            else KeptOf(b', h.owner) == room + [h] && MissedOf(b', h.owner) == MissedOf(b, h.owner)
    ensures forall o :: o != h.owner ==>
              KeptOf(Recorded(b, h, gone), o) == KeptOf(b, o) && MissedOf(Recorded(b, h, gone), o) == MissedOf(b, o)
  {
  }

  lemma AccountedAfterFailure(s: State, h: Handle)
    requires Accounted(s, h.owner)
    ensures Accounted(Next(s, Fails(h)), h.owner)
  {
    var o, s' := h.owner, Next(s, Fails(h));
    var kept := KeptOf(s.book, o);
    var room, out := Room(kept, s.gone), Released(kept, s.gone);
    HistoriesAfterFailure(s, h);
    RoomIsMade(kept, s.gone);
    BookAfterFailure(s.book, h, s.gone);
    BalancedStep(kept, Of(s.failed, o), Of(s.released, o), Of(s.missed, o), room, out, h);
    forall k | k in Of(s'.released, o)
      ensures k in s'.gone
    {
      assert k in Of(s.released, o) || k in out;
    }
  }

  lemma {:induction false} SelfInOrder(s: seq<Handle>)
    ensures InOrder(s, s)
  {
    if s != [] {
      SelfInOrder(s[..|s| - 1]);
    }
  }

  /** The failures of one owner never displace those of another. */
  lemma OthersUntouched(s: State, h: Handle, o: Owner)
    requires Accounted(s, h.owner) && o != h.owner
    ensures KeptOf(Next(s, Fails(h)).book, o) == KeptOf(s.book, o)
    ensures MissedOf(Next(s, Fails(h)).book, o) == MissedOf(s.book, o)
    ensures Of(Next(s, Fails(h)).failed, o) == Of(s.failed, o)
    ensures Of(Next(s, Fails(h)).released, o) == Of(s.released, o)
    ensures Of(Next(s, Fails(h)).missed, o) == Of(s.missed, o)
  {
    BookAfterFailure(s.book, h, s.gone);
    HistoriesOfOthers(s, h, o);
  }

  lemma HistoriesOfOthers(s: State, h: Handle, o: Owner)
    requires forall k :: k in KeptOf(s.book, h.owner) ==> k.owner == h.owner
    requires o != h.owner
    ensures Of(Next(s, Fails(h)).failed, o) == Of(s.failed, o)
    ensures Of(Next(s, Fails(h)).released, o) == Of(s.released, o)
    ensures Of(Next(s, Fails(h)).missed, o) == Of(s.missed, o)
  {
    OfSnoc(s.failed, h, o);
    OfSnoc(s.missed, h, o);
    RoomIsMade(KeptOf(s.book, h.owner), s.gone);
    OfOthers(s.released, Released(KeptOf(s.book, h.owner), s.gone), o);
  }

  /**
    Over every run of failures, joins, cancels and reports: since the last report each owner
    keeps at most 64 handles, in the order of the failures, and every failure is exactly one
    of kept, let go because it had been joined or cancelled, or counted as not recorded.
   */
  lemma {:induction false} EveryFailureIsAccounted(events: seq<Event>, o: Owner)
    ensures Accounted(After(events), o)
  {
    if events != [] {
      var s, e := After(events[..|events| - 1]), events[|events| - 1];
      EveryFailureIsAccounted(events[..|events| - 1], o);
      if e.Fails? {
        EveryFailureIsAccounted(events[..|events| - 1], e.handle.owner);
        if e.handle.owner == o {
          AccountedAfterFailure(s, e.handle);
        } else {
          OthersUntouched(s, e.handle, o);
        }
      }
    }
  }

  /** A report takes out, in one list and owner after owner, what each owner has kept. */
  lemma ReportTakesEachOwners(events: seq<Event>, owners: seq<Owner>, o: Owner)
    requires var kept := After(events).book.kept; Ascending(owners) && forall p :: p in owners <==> p in kept
    ensures Of(InOneList(After(events).book.kept, owners), o) == KeptOf(After(events).book, o)
  {
    var kept := After(events).book.kept;
    forall p: Owner, h: Handle | p in kept && h in kept[p]
      ensures h.owner == p
    {
      EveryFailureIsAccounted(events, p);
    }
    ListHasEachOwners(kept, owners, o);
  }

  /** A failure is counted without being kept only while 64 others of its owner wait to be reported. */
  lemma OnlyFullRecordsMiss(events: seq<Event>, h: Handle)
    ensures var s := After(events);
            h in Next(s, Fails(h)).missed && h !in s.missed ==>
              |KeptOf(Next(s, Fails(h)).book, h.owner)| == MAX_RECORDED_FAILURES &&
              forall k :: k in KeptOf(Next(s, Fails(h)).book, h.owner) ==> k !in s.gone
  {
    var s := After(events);
    EveryFailureIsAccounted(events, h.owner);
    RoomSplits(KeptOf(s.book, h.owner), s.gone);
  }

  /**
    A handle is let go only where its owner has no room: while fewer than 64 are kept, each failure is
    kept behind all others; and where room is made, exactly the settled ones go.
   */
  lemma OnlyFullRecordsLetGo(events: seq<Event>, h: Handle)
    ensures var s := After(events);
            var kept, s' := KeptOf(s.book, h.owner), Next(s, Fails(h));
            && (|kept| < MAX_RECORDED_FAILURES ==>
                  KeptOf(s'.book, h.owner) == kept + [h] && s'.released == s.released && s'.missed == s.missed)
            && (|kept| == MAX_RECORDED_FAILURES ==>
                  && s.released <= s'.released
                  && (forall k :: k in s'.released[|s.released|..] <==> k in kept && k in s.gone)
                  && (forall k :: k in kept && k !in s.gone ==> k in KeptOf(s'.book, h.owner))
                  && (h in KeptOf(s'.book, h.owner) <==> (h in kept && h !in s.gone) || exists k :: k in kept && k in s.gone))
            && |kept| <= MAX_RECORDED_FAILURES
  {
    var s := After(events);
    var kept := KeptOf(s.book, h.owner);
    EveryFailureIsAccounted(events, h.owner);
    RoomSplits(kept, s.gone);
    if |kept| == MAX_RECORDED_FAILURES {
      var out := LetGo(kept, s.gone);
      assert Next(s, Fails(h)).released[|s.released|..] == out;
      if out != [] {
        assert out[0] in out;
      } else {
        assert forall k :: k in kept && k in s.gone ==> k in out;
      }
    }
  }
}
