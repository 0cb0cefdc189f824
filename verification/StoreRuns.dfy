/**
 Whole runs over a file of tables: tables are created and dropped and versions are put into them in
 any order, every put returning. The theorems are about each table on its own, whatever happens to
 the others on the shared pages.
 */
module StoreRuns {
  import opened Versions
  import opened Bands
  import opened TreeShape
  import opened TreeGrowth
  import opened Tables
  import opened AccessPaths

  datatype Event = PutInto(table: string, e: Entry) | Create(table: string) | Drop(table: string)

  ghost predicate Step(s: Store, s': Store, ev: Event) {
    match ev
    case PutInto(name, e) => PutTaken(s, s', name, e)
    case Create(name) => Created(s, s', name)
    case Drop(name) => Dropped(s, s', name)
  }

  /** The states a file goes through, from one without tables. */
  ghost predicate IsRun(states: seq<Store>, events: seq<Event>) {
    && |states| == |events| + 1 && states[0].trees == map[]
    && forall i :: 0 <= i < |events| ==> Takes(states, events, i)
  }

  ghost predicate Takes(states: seq<Store>, events: seq<Event>, i: nat)
    requires i < |events| < |states|
  {
    Step(states[i], states[i + 1], events[i])
  }

  /** The versions that puts stored in a table since it was created. */
  function Accepted(states: seq<Store>, events: seq<Event>, n: nat, name: string): seq<Entry>
    requires n <= |events| <= |states|
  {
    if n == 0 then []
    else
      var before, ev := Accepted(states, events, n - 1, name), events[n - 1];
      if ev.table != name then before
      else if ev.PutInto? then if IsDuplicate(states[n - 1], name, ev.e) then before else before + [ev.e]
      else []
  }

  /** No put into the table since it was created split through the versions of one key. */
  predicate CleanSince(states: seq<Store>, events: seq<Event>, n: nat, name: string)
    requires n <= |events| <= |states|
  {
    n == 0 ||
    var ev, s := events[n - 1], states[n - 1];
    if ev.table == name && !ev.PutInto? then true
    else
      && CleanSince(states, events, n - 1, name)
      && (ev.table == name && name in s.trees ==> KeepsOrder(Tree(s, name), ev.e))
  }

  lemma StepKeepsStore(s: Store, s': Store, ev: Event)
    requires StoreOk(s) && Step(s, s', ev)
    ensures StoreOk(s') && OthersSame(s, s', ev.table)
  {
    hide StoreOk, OthersSame, PutTaken, Created, Dropped;
    match ev
    case PutInto(name, e) => PutTakenKeepsStore(s, s', name, e);
    case Create(name) => CreatedKeepsStore(s, s', name);
    case Drop(name) => DropKeepsStore(s, s', name);
  }

  lemma {:induction false} RunKeepsStore(states: seq<Store>, events: seq<Event>, n: nat)
    requires IsRun(states, events) && n <= |events|
    ensures StoreOk(states[n])
  {
    if n > 0 {
      hide StoreOk;
      RunKeepsStore(states, events, n - 1);
      assert Takes(states, events, n - 1);
      StepKeepsStore(states[n - 1], states[n], events[n - 1]);
    }
  }

  /**
   Conservation: at every point of every run, each table's sibling chain runs through its root's
   children exactly once each and holds exactly the versions its puts stored.
   */
  lemma {:induction false} RunConserves(states: seq<Store>, events: seq<Event>, n: nat, name: string)
    requires IsRun(states, events) && n <= |events|
    ensures StoreOk(states[n])
    ensures multiset(RowsOf(states[n], name)) == multiset(Accepted(states, events, n, name))
  {
    if n > 0 {
      var m := n - 1;
      RunConserves(states, events, m, name);
      ConserveStep(states, events, m, n, name);
    }
  }

  lemma ConserveStep(states: seq<Store>, events: seq<Event>, m: nat, n: nat, name: string)
    requires IsRun(states, events) && n == m + 1 <= |events|
    requires multiset(RowsOf(states[m], name)) == multiset(Accepted(states, events, m, name))
    ensures StoreOk(states[n])
    ensures multiset(RowsOf(states[n], name)) == multiset(Accepted(states, events, n, name))
  {
    hide StoreOk, Step, OthersSame, RowsOf, IsDuplicate, Takes;
    StepAt(states, events, m, n);
    StepRows(states[m], states[n], events[m], name);
  }

  lemma StepAt(states: seq<Store>, events: seq<Event>, m: nat, n: nat)
    requires IsRun(states, events) && n == m + 1 <= |events|
    ensures StoreOk(states[m]) && StoreOk(states[n])
    ensures Step(states[m], states[n], events[m]) && OthersSame(states[m], states[n], events[m].table)
  {
    hide StoreOk, Step, OthersSame;
    RunKeepsStore(states, events, m);
    assert Takes(states, events, m);
    StepKeepsStore(states[m], states[n], events[m]);
  }

  lemma StepRows(s: Store, s': Store, ev: Event, name: string)
    requires StoreOk(s) && Step(s, s', ev) && OthersSame(s, s', ev.table)
    ensures var rows := multiset(RowsOf(s, name));
            var rows' := if ev.table != name then rows
                         else if !ev.PutInto? then multiset{}
                         else if IsDuplicate(s, name, ev.e) then rows
                         else rows + multiset{ev.e};
            multiset(RowsOf(s', name)) == rows'
  {
    hide StoreOk, PutTaken, IsDuplicate, StateOk;
    if ev.table == name && ev.PutInto? {
      PutTakenKeepsStore(s, s', name, ev.e);
    }
  }

  // ----- order and agreement along a run -----

  /** What can be said of a tree: its separators bound its leaves, its lookups answer for the chain,
      its scans emit what lookups return. */
  datatype Aspect = Order | Gets | Scans

  ghost predicate Has(t: TreeState, a: Aspect) {
    match a
    case Order => InOrder(t)
    case Gets => GetsAgree(t)
    case Scans => ScansMatchGets(t)
  }

  /** The table's tree has had the aspect at every point since it was created. */
  ghost predicate HeldSince(states: seq<Store>, events: seq<Event>, n: nat, name: string, a: Aspect)
    requires n <= |events| < |states|
  {
    n == 0 ||
    (&& (name in states[n].trees ==> Has(Tree(states[n], name), a))
     && ((events[n - 1].table == name && !events[n - 1].PutInto?) || HeldSince(states, events, n - 1, name, a)))
  }

  lemma RoutedFrame(t: TreeState, t': TreeState, key: Key)
    requires StateOk(t) && SameTree(t, t')
    ensures RoutedEntries(t', key) == RoutedEntries(t, key)
  {
    hide Ordered;
    TreeFrame(t, t');
    var j := RoutedLeafInChain(t.nodes, t.root, t.chain, key);
    assert Leaves(t'.nodes, t'.chain)[j] == Leaves(t.nodes, t.chain)[j];
  }

  lemma AspectFrame(t: TreeState, t': TreeState, a: Aspect)
    requires StateOk(t) && SameTree(t, t')
    ensures Has(t', a) <==> Has(t, a)
  {
    hide RoutedEntries, FirstVisible, ScannedLeaves, Ordered, StateOk, SameTree, Leaves, Flat;
    TreeFrame(t, t');
    forall key ensures RoutedEntries(t', key) == RoutedEntries(t, key) {
      RoutedFrame(t, t', key);
    }
    assert LeavesOf(t') == LeavesOf(t);
    match a
    case Order =>
    case Gets =>
      if GetsAgree(t) { assert GetsAgree(t'); }
      if GetsAgree(t') { assert GetsAgree(t); }
    case Scans =>
      if ScansMatchGets(t) { assert ScansMatchGets(t'); }
      if ScansMatchGets(t') { assert ScansMatchGets(t); }
  }

  lemma OrderedHas(t: TreeState, a: Aspect)
    requires StateOk(t) && InOrder(t)
    ensures Has(t, a)
  {
    OrderedAgrees(t);
  }

  lemma StepHas(t: TreeState, t': TreeState, e: Entry, a: Aspect)
    requires StateOk(t) && InOrder(t) && PutStep(t, t', e)
    ensures Has(t', a) <==> KeepsOrder(t, e)
  {
    hide GetsAgree, ScansMatchGets, StateOk, Reshaped, CutsBetweenKeys, Holds, Ordered, OwnershipKept;
    StepAgreement(t, t', e);
  }

  /** Events elsewhere do not change a table's aspects. */
  lemma ElsewhereHas(s: Store, s': Store, ev: Event, name: string, a: Aspect)
    requires StoreOk(s) && OthersSame(s, s', ev.table) && ev.table != name
    ensures name in s.trees <==> name in s'.trees
    ensures name in s.trees ==> (Has(Tree(s', name), a) <==> Has(Tree(s, name), a))
  {
    hide Has, StateOk, SameTree, RowsOf;
    if name in s.trees {
      AspectFrame(Tree(s, name), Tree(s', name), a);
    }
  }

  /** A put into the table: from an ordered tree every aspect is kept exactly when the put is clean. */
  lemma PutHas(s: Store, s': Store, name: string, e: Entry, a: Aspect)
    requires StoreOk(s) && PutTaken(s, s', name, e) && InOrder(Tree(s, name))
    ensures Has(Tree(s', name), a) <==> KeepsOrder(Tree(s, name), e)
  {
    hide Has, StateOk, PutStep, InOrder, KeepsOrder;
    TreeInStore(s, name);
    StepHas(Tree(s, name), Tree(s', name), e, a);
  }

  lemma CreatedHas(s: Store, s': Store, name: string, a: Aspect)
    requires Created(s, s', name)
    ensures Has(Tree(s', name), a)
  {
    hide Has, StateOk, InOrder, SameRoots, KeepsOtherPages;
    OrderedHas(Tree(s', name), a);
  }

  /** What one event does to the aspects of one table. */
  lemma EventHas(s: Store, s': Store, ev: Event, name: string, a: Aspect)
    requires StoreOk(s) && StoreOk(s') && Step(s, s', ev) && OthersSame(s, s', ev.table)
    ensures ev.table != name ==> (name in s.trees <==> name in s'.trees)
    ensures ev.table != name && name in s'.trees ==> (Has(Tree(s', name), a) <==> Has(Tree(s, name), a))
    ensures ev.table == name && !ev.PutInto? && name in s'.trees ==> Has(Tree(s', name), a)
    ensures ev.table == name && ev.PutInto? ==>
              && name in s.trees && name in s'.trees
              && (InOrder(Tree(s, name)) ==> (Has(Tree(s', name), a) <==> KeepsOrder(Tree(s, name), ev.e)))
  {
    hide StoreOk, StateOk, PutStep, InOrder, KeepsOrder, OthersSame, Has;
    if ev.table != name {
      ElsewhereHas(s, s', ev, name, a);
    } else if ev.PutInto? {
      if InOrder(Tree(s, name)) {
        PutHas(s, s', name, ev.e, a);
      }
    } else if ev.Create? {
      CreatedHas(s, s', name, a);
    }
  }

  lemma HeldStep(states: seq<Store>, events: seq<Event>, m: nat, n: nat, name: string, a: Aspect)
    requires IsRun(states, events) && n == m + 1 <= |events|
    ensures HeldSince(states, events, m, name, a) && name in states[m].trees ==> Has(Tree(states[m], name), a)
    ensures HeldSince(states, events, n, name, a) <==>
            && (name in states[n].trees ==> Has(Tree(states[n], name), a))
            && ((events[m].table == name && !events[m].PutInto?) || HeldSince(states, events, m, name, a))
  {
    hide Has, Step;
  }

  lemma CleanStep(states: seq<Store>, events: seq<Event>, m: nat, n: nat, name: string)
    requires n == m + 1 <= |events| <= |states|
    ensures var ev, s := events[m], states[m];
            CleanSince(states, events, n, name) <==>
            if ev.table == name && !ev.PutInto? then true
            else CleanSince(states, events, m, name)
                 && (ev.table == name && name in s.trees ==> KeepsOrder(Tree(s, name), ev.e))
  {
    hide KeepsOrder;
  }

  /** After a clean stretch the table's tree is ordered. */
  lemma {:induction false} CleanOrdered(states: seq<Store>, events: seq<Event>, n: nat, name: string)
    requires IsRun(states, events) && n <= |events|
    ensures CleanSince(states, events, n, name) && name in states[n].trees ==> InOrder(Tree(states[n], name))
    decreases n
  {
    if n > 0 {
      var m := n - 1;
      CleanOrdered(states, events, m, name);
      CleanOrderedStep(states, events, m, n, name);
    }
  }

  lemma CleanOrderedStep(states: seq<Store>, events: seq<Event>, m: nat, n: nat, name: string)
    requires IsRun(states, events) && n == m + 1 <= |events|
    requires CleanSince(states, events, m, name) && name in states[m].trees ==> InOrder(Tree(states[m], name))
    ensures CleanSince(states, events, n, name) && name in states[n].trees ==> InOrder(Tree(states[n], name))
  {
    hide StoreOk, Step, InOrder, KeepsOrder, OthersSame, Has, CleanSince, Takes;
    var s, s', ev := states[m], states[n], events[m];
    CleanStep(states, events, m, n, name);
    StepAt(states, events, m, n);
    EventHas(s, s', ev, name, Order);
    if name in s.trees {
      OrderHere(Tree(s, name));
    }
    if name in s'.trees {
      OrderHere(Tree(s', name));
    }
  }

  lemma SinceStep(states: seq<Store>, events: seq<Event>, m: nat, n: nat, name: string, a: Aspect)
    requires IsRun(states, events) && n == m + 1 <= |events|
    requires HeldSince(states, events, m, name, a) <==> CleanSince(states, events, m, name)
    ensures HeldSince(states, events, n, name, a) <==> CleanSince(states, events, n, name)
  {
    hide StoreOk, Step, InOrder, KeepsOrder, OthersSame, Has, HeldSince, CleanSince, Takes;
    HeldStep(states, events, m, n, name, a);
    CleanStep(states, events, m, n, name);
    CleanOrdered(states, events, m, name);
    StepAt(states, events, m, n);
    EventHas(states[m], states[n], events[m], name, a);
  }

  lemma {:induction false} SinceIffClean(states: seq<Store>, events: seq<Event>, n: nat, name: string, a: Aspect)
    requires IsRun(states, events) && n <= |events|
    ensures HeldSince(states, events, n, name, a) <==> CleanSince(states, events, n, name)
    decreases n
  {
    if n > 0 {
      var m := n - 1;
      SinceIffClean(states, events, m, name, a);
      SinceStep(states, events, m, n, name, a);
    }
  }

  lemma OrderHere(t: TreeState)
    ensures Has(t, Order) <==> InOrder(t)
  {
  }

  /**
   At every point of every run, and for every table: its trees have been ordered, its lookups have
   agreed with its chain and its scans with its lookups all along exactly when no split cut through
   the versions of one key.
   */
  lemma AgreeIffClean(states: seq<Store>, events: seq<Event>, n: nat, name: string)
    requires IsRun(states, events) && n <= |events|
    ensures HeldSince(states, events, n, name, Order) <==> CleanSince(states, events, n, name)
    ensures HeldSince(states, events, n, name, Gets) <==> CleanSince(states, events, n, name)
    ensures HeldSince(states, events, n, name, Scans) <==> CleanSince(states, events, n, name)
  {
    hide HeldSince, CleanSince;
    SinceIffClean(states, events, n, name, Order);
    SinceIffClean(states, events, n, name, Gets);
    SinceIffClean(states, events, n, name, Scans);
  }

  /** After a clean run a table's chain is sorted and holds the versions its puts stored. */
  lemma CleanRunSorted(states: seq<Store>, events: seq<Event>, n: nat, name: string)
    requires IsRun(states, events) && n <= |events| && CleanSince(states, events, n, name) && name in states[n].trees
    ensures StateOk(Tree(states[n], name)) && InOrder(Tree(states[n], name)) && Sorted(RowsOf(states[n], name))
    ensures forall e :: e in RowsOf(states[n], name) <==> e in Accepted(states, events, n, name)
  {
    assert |states| == |events| + 1;
    hide Sorted, IsRun, StateOk, Has, Accepted, CleanSince;
    CleanOrdered(states, events, n, name);
    RunConserves(states, events, n, name);
    TreeInStore(states[n], name);
    var t := Tree(states[n], name);
    BandedSorted(SepsOf(t), LeavesOf(t));
    SameMembers(RowsOf(states[n], name), Accepted(states, events, n, name));
  }

  lemma SameMembers(a: seq<Entry>, b: seq<Entry>)
    requires multiset(a) == multiset(b)
    ensures forall e :: e in a <==> e in b
  {
    forall e: Entry ensures e in a <==> e in b {
      assert e in a <==> e in multiset(a);
      assert e in b <==> e in multiset(b);
    }
  }

  /** In a clean run a put is a duplicate exactly when the table stored the same version before. */
  lemma CleanRunDuplicate(states: seq<Store>, events: seq<Event>, n: nat, name: string, e: Entry)
    requires IsRun(states, events) && n <= |events| && CleanSince(states, events, n, name) && name in states[n].trees
    ensures IsDuplicate(states[n], name, e) <==>
            exists x :: x in Accepted(states, events, n, name)
                        && x.key == e.key && x.commitSeq == e.commitSeq && x.txn == e.txn
  {
    CleanRunSorted(states, events, n, name);
    hide Sorted, IsRun, Accepted, CleanSince, InOrder, StateOk, RoutedEntries;
    var t := Tree(states[n], name);
    RoutedHolds(t, e);
  }

  /** What a reader without staged writes should see: a committed version of the key that the cut
      admits and that no admitted version is newer than. */
  ghost predicate IsNewest(puts: seq<Entry>, key: Key, visibleSeq: nat, r: Entry) {
    && r in puts && r.key == key && 0 < r.commitSeq <= visibleSeq
    && forall e :: e in puts && e.key == key && 0 < e.commitSeq <= visibleSeq ==> e.commitSeq <= r.commitSeq
  }

  /**
   After a clean run a lookup by a reader with no staged version of the key answers from the
   table's history alone: the newest admitted version that was put, or nothing if there is none.
   */
  lemma CleanRunLookup(states: seq<Store>, events: seq<Event>, n: nat, name: string, key: Key, txn: nat,
                       visibleSeq: nat)
    requires IsRun(states, events) && n <= |events| && CleanSince(states, events, n, name) && name in states[n].trees
    requires forall e :: e in Accepted(states, events, n, name) && e.key == key && e.commitSeq == 0 ==> e.txn != txn
    ensures var puts := Accepted(states, events, n, name);
            var r := FirstVisible(RoutedEntries(Tree(states[n], name), key), key, txn, visibleSeq);
            && (r.Some? ==> IsNewest(puts, key, visibleSeq, r.value))
            && (r.None? ==> forall e :: e in puts && e.key == key ==> e.commitSeq == 0 || e.commitSeq > visibleSeq)
  {
    CleanRunSorted(states, events, n, name);
    hide Sorted, IsRun, Accepted, CleanSince, Ordered, FirstVisible, StateOk;
    OrderedAgrees(Tree(states[n], name));
    NewestByHistory(RowsOf(states[n], name), Accepted(states, events, n, name), key, txn, visibleSeq);
  }

  lemma NewestByHistory(es: seq<Entry>, puts: seq<Entry>, key: Key, txn: nat, visibleSeq: nat)
    requires Sorted(es) && forall e :: e in es <==> e in puts
    requires forall e :: e in puts && e.key == key && e.commitSeq == 0 ==> e.txn != txn
    ensures var r := FirstVisible(es, key, txn, visibleSeq);
            && (r.Some? ==> IsNewest(puts, key, visibleSeq, r.value))
            && (r.None? ==> forall e :: e in puts && e.key == key ==> e.commitSeq == 0 || e.commitSeq > visibleSeq)
  {
    FirstVisibleIsNewest(es, key, txn, visibleSeq);
    LookupFails(es, key, txn, visibleSeq);
  }

  lemma TailMultiset(a: seq<Entry>)
    requires a != []
    ensures multiset(a[1..]) == multiset(a) - multiset{a[0]}
  {
    assert a == [a[0]] + a[1..];
  }

  lemma SortedHead(a: seq<Entry>, b: seq<Entry>)
    requires Sorted(a) && Sorted(b) && multiset(a) == multiset(b) && a != []
    ensures b != [] && a[0] == b[0] && multiset(a[1..]) == multiset(b[1..])
  {
    assert a[0] in multiset(b) && b != [];
    assert b[0] in multiset(a);
    TailMultiset(a);
    TailMultiset(b);
  }

  /** Two strictly sorted lists of the same versions are the same list. */
  lemma {:induction false} SortedUnique(a: seq<Entry>, b: seq<Entry>)
    requires Sorted(a) && Sorted(b) && multiset(a) == multiset(b)
    ensures a == b
  {
    if a == [] {
      assert |multiset(b)| == |multiset(a)|;
    } else {
      SortedHead(a, b);
      SortedUnique(a[1..], b[1..]);
      assert a == [a[0]] + a[1..] && b == [b[0]] + b[1..];
    }
  }

  /** Clean runs that store the same versions in different orders, in whatever tables of whatever
      files, store the same list, so no reader can tell them apart. */
  lemma InsertionOrderIrrelevant(ss: seq<Store>, evs: seq<Event>, n: nat, name: string,
                                 ss': seq<Store>, evs': seq<Event>, n': nat, name': string)
    requires IsRun(ss, evs) && n <= |evs| && CleanSince(ss, evs, n, name) && name in ss[n].trees
    requires IsRun(ss', evs') && n' <= |evs'| && CleanSince(ss', evs', n', name') && name' in ss'[n'].trees
    requires multiset(Accepted(ss, evs, n, name)) == multiset(Accepted(ss', evs', n', name'))
    ensures RowsOf(ss[n], name) == RowsOf(ss'[n'], name')
  {
    hide StoreOk, InOrder;
    assert |ss| == |evs| + 1 && |ss'| == |evs'| + 1;
    hide Sorted, IsRun, Accepted, CleanSince, Ordered, StateOk, Takes, RowsOf;
    CleanRunSorted(ss, evs, n, name);
    CleanRunSorted(ss', evs', n', name');
    RunConserves(ss, evs, n, name);
    RunConserves(ss', evs', n', name');
    SortedUnique(RowsOf(ss[n], name), RowsOf(ss'[n'], name'));
  }

  // ----- separators -----

  /** No put into an empty table brings an entry that overflows a leaf on its own. */
  predicate FirstsFit(states: seq<Store>, events: seq<Event>, n: nat, name: string)
    requires n <= |events| <= |states|
  {
    forall i :: 0 <= i < n && events[i].PutInto? && events[i].table == name ==>
      RowsOf(states[i], name) != [] || events[i].e.bytes <= SPLIT_BYTES
  }

  lemma PackedFrame(t: TreeState, t': TreeState)
    requires StateOk(t) && SameTree(t, t') && Packed(t)
    ensures Packed(t')
  {
    TreeFrame(t, t');
    assert LeavesOf(t') == LeavesOf(t);
  }

  lemma {:induction false} CleanRunPacked(states: seq<Store>, events: seq<Event>, n: nat, name: string)
    requires IsRun(states, events) && n <= |events| && FirstsFit(states, events, n, name)
    requires CleanSince(states, events, n, name) && name in states[n].trees
    ensures Packed(Tree(states[n], name))
    decreases n
  {
    if n > 0 {
      hide Packed;
      var m := n - 1;
      if CleanSince(states, events, m, name) && name in states[m].trees {
        CleanRunPacked(states, events, m, name);
      }
      PackedAfter(states, events, m, n, name);
    }
  }

  lemma PackedAfter(states: seq<Store>, events: seq<Event>, m: nat, n: nat, name: string)
    requires IsRun(states, events) && n == m + 1 <= |events| && FirstsFit(states, events, n, name)
    requires CleanSince(states, events, n, name) && name in states[n].trees
    requires CleanSince(states, events, m, name) && name in states[m].trees ==> Packed(Tree(states[m], name))
    ensures Packed(Tree(states[n], name))
  {
    hide StoreOk, Step, InOrder, KeepsOrder, OthersSame, CleanSince, Takes, Packed, RowsOf;
    var s, s', ev := states[m], states[n], events[m];
    CleanStep(states, events, m, n, name);
    CleanOrdered(states, events, m, name);
    StepAt(states, events, m, n);
    if ev == Create(name) {
      CreatedPacked(s, s', name);
    } else {
      StillThere(s, s', ev, name);
      PackedStep(s, s', ev, name);
    }
  }

  lemma CreatedPacked(s: Store, s': Store, name: string)
    requires Step(s, s', Create(name))
    ensures name in s'.trees && Packed(Tree(s', name))
  {
    hide StateOk, InOrder;
  }

  lemma StillThere(s: Store, s': Store, ev: Event, name: string)
    requires Step(s, s', ev) && OthersSame(s, s', ev.table) && name in s'.trees && ev != Create(name)
    ensures name in s.trees && (ev.table == name ==> ev.PutInto?)
  {
    hide StateOk, PutStep, SameTree, InOrder;
  }

  lemma PackedStep(s: Store, s': Store, ev: Event, name: string)
    requires StoreOk(s) && Step(s, s', ev) && OthersSame(s, s', ev.table) && name in s.trees && name in s'.trees
    requires Packed(Tree(s, name)) && InOrder(Tree(s, name)) && ev != Create(name)
    requires ev.table == name && ev.PutInto? ==> RowsOf(s, name) != [] || ev.e.bytes <= SPLIT_BYTES
    ensures Packed(Tree(s', name))
  {
    hide StateOk, PutStep, InOrder, SameTree, Packed, RowsOf, StoreOk;
    TreeInStore(s, name);
    if ev.table != name {
      PackedFrame(Tree(s, name), Tree(s', name));
    } else {
      RowsInTree(s, name);
      StepKeepsPacked(Tree(s, name), Tree(s', name), ev.e);
    }
  }

  lemma RowsInTree(s: Store, name: string)
    requires name in s.trees
    ensures RowsOf(s, name) == Contents(Tree(s, name))
  {
  }

  /** After a clean run the separators of a table strictly increase. */
  lemma CleanRunSeparators(states: seq<Store>, events: seq<Event>, n: nat, name: string, i: nat, j: nat)
    requires IsRun(states, events) && n <= |events| && FirstsFit(states, events, n, name)
    requires CleanSince(states, events, n, name) && name in states[n].trees
    requires i < j < |SepsOf(Tree(states[n], name))|
    ensures SepsOf(Tree(states[n], name))[i] < SepsOf(Tree(states[n], name))[j]
  {
    assert |states| == |events| + 1;
    hide IsRun, StateOk, Ordered, CleanSince, FirstsFit, StoreOk, Packed, Has;
    CleanRunPacked(states, events, n, name);
    RunKeepsStore(states, events, n);
    TreeInStore(states[n], name);
    CleanOrdered(states, events, n, name);
    SeparatorsIncrease(Tree(states[n], name), i, j);
  }
}
