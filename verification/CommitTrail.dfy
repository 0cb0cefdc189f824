/**
 A commit of the B+tree engine as the puts it makes into the tables of a file, one after the other:
 what the tables store after all of them, or after some of them when one throws.
 */
module CommitTrails {
  import opened Versions
  import opened Bands
  import opened TreeShape
  import opened TreeGrowth
  import opened Tables
  import opened AccessPaths
  import opened LocalStore

  /** The sorted lists that the tables of a file store. */
  function RowsMap(s: Store): map<string, seq<Entry>> {
    map t | t in s.trees :: RowsOf(s, t)
  }

  ghost predicate AllOrdered(s: Store) {
    forall t :: t in s.trees ==> InOrder(Tree(s, t))
  }

  // ----- one put -----

  /** A put that returns, through a clean split or none, stores into the sorted list. */
  lemma PutIsStored(t: TreeState, t': TreeState, e: Entry)
    requires StateOk(t) && InOrder(t) && PutStep(t, t', e) && KeepsOrder(t, e)
    ensures InOrder(t') && Contents(t') == Stored(Contents(t), e)
  {
    hide Reshaped, StateOk, Inserted, InsertPos;
    RoutedHolds(t, e);
  }

  /** The same for a file of ordered tables: one list changes. */
  lemma PutRows(s: Store, s': Store, name: string, e: Entry)
    requires StoreOk(s) && AllOrdered(s) && PutTaken(s, s', name, e) && KeepsOrder(Tree(s, name), e)
    ensures AllOrdered(s') && RowsMap(s') == RowsMap(s)[name := Stored(RowsOf(s, name), e)]
  {
    hide StateOk, StoreOk, PutStep, KeepsOrder, Stored, InOrder, OthersSame, RowsOf, IsDuplicate;
    PutTakenKeepsStore(s, s', name, e);
    TreeInStore(s, name);
    PutIsStored(Tree(s, name), Tree(s', name), e);
    OtherRows(s, s', name);
    assert RowsOf(s', name) == Stored(RowsOf(s, name), e) by { RowsContents(s, s', name); }
  }

  lemma RowsContents(s: Store, s': Store, name: string)
    requires name in s.trees && name in s'.trees
    ensures RowsOf(s, name) == Contents(Tree(s, name)) && RowsOf(s', name) == Contents(Tree(s', name))
  {
  }

  lemma OtherRows(s: Store, s': Store, name: string)
    requires StoreOk(s) && OthersSame(s, s', name)
    ensures forall t :: t in s'.trees && t != name ==>
              t in s.trees && (InOrder(Tree(s', t)) <==> InOrder(Tree(s, t))) && RowsOf(s', t) == RowsOf(s, t)
  {
    hide StateOk, StoreOk, InOrder, SameTree, RowsOf;
    forall t | t in s'.trees && t != name
      ensures t in s.trees && (InOrder(Tree(s', t)) <==> InOrder(Tree(s, t))) && RowsOf(s', t) == RowsOf(s, t)
    {
      TreeInStore(s, t);
      TreeFrame(Tree(s, t), Tree(s', t));
    }
  }

  /** A put whose left half does not fit changes no list. */
  lemma RefusedRows(s: Store, s': Store, name: string, e: Entry)
    requires StoreOk(s) && PutFailed(s, s', name, e) && RefusesLeft(Tree(s, name), e)
    ensures RowsMap(s') == RowsMap(s) && (AllOrdered(s) ==> AllOrdered(s'))
  {
    hide StateOk, StoreOk, RefusesLeft, InOrder, SameTree, FailedStep, OthersSame, RowsOf;
    PutRefusedKeepsStore(s, s', name, e);
    OtherRows(s, s', name);
    TreeInStore(s, name);
    TreeFrame(Tree(s, name), Tree(s', name));
  }

  // ----- trails -----

  datatype TablePut = TablePut(table: string, e: Entry)

  ghost predicate Takes(states: seq<Store>, puts: seq<TablePut>, i: nat)
    requires i < |puts| < |states|
  {
    && PutTaken(states[i], states[i + 1], puts[i].table, puts[i].e)
    && Accepts(Tree(states[i], puts[i].table), puts[i].e)
  }

  /** The files between puts that all return. */
  ghost predicate Trail(states: seq<Store>, puts: seq<TablePut>) {
    && |states| == |puts| + 1 && StoreOk(states[0])
    && forall i :: 0 <= i < |puts| ==> Takes(states, puts, i)
  }

  predicate KeepsOrderAt(states: seq<Store>, puts: seq<TablePut>, i: nat)
    requires i < |puts| < |states|
  {
    puts[i].table in states[i].trees && KeepsOrder(Tree(states[i], puts[i].table), puts[i].e)
  }

  /** No put of the trail split through the versions of one key. */
  predicate AllKeepOrder(states: seq<Store>, puts: seq<TablePut>) {
    && |states| == |puts| + 1
    && forall i :: 0 <= i < |puts| ==> KeepsOrderAt(states, puts, i)
  }

  lemma TrailGrows(states: seq<Store>, puts: seq<TablePut>, s: Store, p: TablePut)
    requires Trail(states, puts)
    requires var last := states[|puts|]; PutTaken(last, s, p.table, p.e) && Accepts(Tree(last, p.table), p.e)
    ensures Trail(states + [s], puts + [p])
    ensures AllKeepOrder(states + [s], puts + [p]) <==>
            AllKeepOrder(states, puts) && KeepsOrder(Tree(states[|puts|], p.table), p.e)
  {
    hide PutStep, SameRoots, Accepts, KeepsOrder;
    var ss, ps := states + [s], puts + [p];
    forall i | 0 <= i < |ps|
      ensures Takes(ss, ps, i)
      ensures i < |puts| ==> (KeepsOrderAt(ss, ps, i) <==> KeepsOrderAt(states, puts, i))
    {
      if i < |puts| {
        assert Takes(states, puts, i);
        assert ss[i] == states[i] && ss[i + 1] == states[i + 1] && ps[i] == puts[i];
      }
    }
    assert KeepsOrderAt(ss, ps, |puts|) <==> KeepsOrder(Tree(states[|puts|], p.table), p.e);
  }

  lemma TrailStep(states: seq<Store>, puts: seq<TablePut>, m: nat, n: nat)
    requires Trail(states, puts) && n == m + 1 <= |puts| && StoreOk(states[m])
    ensures PutTaken(states[m], states[n], puts[m].table, puts[m].e)
    ensures StoreOk(states[n]) && OthersSame(states[m], states[n], puts[m].table)
    ensures states[n].trees.Keys == states[m].trees.Keys
  {
    hide StoreOk, PutStep, Accepts;
    assert Takes(states, puts, m);
    PutTakenKeepsStore(states[m], states[n], puts[m].table, puts[m].e);
  }

  lemma {:induction false} TrailOk(states: seq<Store>, puts: seq<TablePut>, n: nat)
    requires Trail(states, puts) && n <= |puts|
    ensures StoreOk(states[n]) && states[n].trees.Keys == states[0].trees.Keys
  {
    if n > 0 {
      hide StoreOk;
      var m := n - 1;
      TrailOk(states, puts, m);
      TrailStep(states, puts, m, n);
    }
  }

  // ----- what a trail stores -----

  /** The entries put into one table. */
  function EntriesFor(puts: seq<TablePut>, t: string): seq<Entry> {
    if puts == [] then []
    else
      var last := puts[|puts| - 1];
      EntriesFor(puts[..|puts| - 1], t) + if last.table == t then [last.e] else []
  }

  lemma EntriesForStep(puts: seq<TablePut>, p: TablePut, t: string)
    ensures EntriesFor(puts + [p], t) == EntriesFor(puts, t) + if p.table == t then [p.e] else []
  {
    assert (puts + [p])[..|puts|] == puts;
  }

  function StoredAll(es: seq<Entry>, more: seq<Entry>): seq<Entry> {
    if more == [] then es else Stored(StoredAll(es, more[..|more| - 1]), more[|more| - 1])
  }

  lemma StoredAllStep(es: seq<Entry>, more: seq<Entry>, e: Entry)
    ensures StoredAll(es, more + [e]) == Stored(StoredAll(es, more), e)
  {
    assert (more + [e])[..|more|] == more;
  }

  /** The entries a commit puts again: the staged ones under the commit stamp. */
  function Restamped(staged: seq<Entry>, stamp: nat): (r: seq<Entry>)
    ensures |r| == |staged|
  {
    seq(|staged|, i requires 0 <= i < |staged| => staged[i].(commitSeq := stamp))
  }

  lemma {:induction false} ReputIsStoredAll(es: seq<Entry>, staged: seq<Entry>, stamp: nat)
    ensures StoredAll(es, Restamped(staged, stamp)) == Reput(es, staged, stamp)
    decreases |staged|
  {
    if staged != [] {
      var front, last := staged[..|staged| - 1], staged[|staged| - 1];
      ReputIsStoredAll(es, front, stamp);
      assert Restamped(staged, stamp) == Restamped(front, stamp) + [last.(commitSeq := stamp)];
      StoredAllStep(es, Restamped(front, stamp), last.(commitSeq := stamp));
    }
  }

  /** A table nothing was put into keeps its list, clean or not. */
  lemma {:induction false} UntouchedRows(states: seq<Store>, puts: seq<TablePut>, n: nat, t: string)
    requires Trail(states, puts) && n <= |puts| && EntriesFor(puts[..n], t) == []
    ensures RowsOf(states[n], t) == RowsOf(states[0], t)
  {
    if n > 0 {
      hide StoreOk, PutTaken;
      var m := n - 1;
      assert puts[..n] == puts[..m] + [puts[m]];
      EntriesForStep(puts[..m], puts[m], t);
      UntouchedRows(states, puts, m, t);
      TrailOk(states, puts, m);
      TrailStep(states, puts, m, n);
    }
  }

  /** From ordered tables and with clean splits only, every table stores its list with the entries
      put into it inserted one after the other. */
  lemma {:induction false} TrailRows(states: seq<Store>, puts: seq<TablePut>, n: nat, t: string)
    requires Trail(states, puts) && AllOrdered(states[0]) && AllKeepOrder(states, puts) && n <= |puts|
    requires t in states[0].trees
    ensures AllOrdered(states[n]) && t in states[n].trees
    ensures RowsOf(states[n], t) == StoredAll(RowsOf(states[0], t), EntriesFor(puts[..n], t))
  {
    TrailOk(states, puts, n);
    if n > 0 {
      var m := n - 1;
      TrailRows(states, puts, m, t);
      TrailRowsStep(states, puts, m, n, t);
    } else {
      assert puts[..0] == [];
    }
  }

  lemma TrailRowsStep(states: seq<Store>, puts: seq<TablePut>, m: nat, n: nat, t: string)
    requires Trail(states, puts) && AllKeepOrder(states, puts) && n == m + 1 <= |puts| && AllOrdered(states[m])
    requires t in states[m].trees && t in states[n].trees
    requires RowsOf(states[m], t) == StoredAll(RowsOf(states[0], t), EntriesFor(puts[..m], t))
    ensures AllOrdered(states[n])
    ensures RowsOf(states[n], t) == StoredAll(RowsOf(states[0], t), EntriesFor(puts[..n], t))
  {
    hide StoreOk, PutTaken, AllOrdered, KeepsOrder, RowsOf, Stored, StoredAll, EntriesFor, Takes;
    var p := puts[m];
    TrailOk(states, puts, m);
    TrailStep(states, puts, m, n);
    assert KeepsOrderAt(states, puts, m);
    PutRows(states[m], states[n], p.table, p.e);
    assert RowsMap(states[n])[t] == RowsOf(states[n], t) && RowsMap(states[m])[t] == RowsOf(states[m], t);
    assert puts[..n] == puts[..m] + [p];
    EntriesForStep(puts[..m], p, t);
    if p.table == t {
      StoredAllStep(RowsOf(states[0], t), EntriesFor(puts[..m], t), p.e);
    } else {
      assert EntriesFor(puts[..m], t) + [] == EntriesFor(puts[..m], t);
    }
  }

  // ----- a commit -----

  /** The entries that committing a transaction puts into a table. */
  function ToPut(s: Store, t: string, txn: nat, stamp: nat): seq<Entry> {
    Restamped(StagedOf(RowsOf(s, t), txn), stamp)
  }

  /** The puts so far: all there are for the tables done, none for the others. */
  ghost predicate CommitsTables(s: Store, puts: seq<TablePut>, done: set<string>, txn: nat, stamp: nat) {
    forall t :: t in s.trees ==> EntriesFor(puts, t) == if t in done then ToPut(s, t, txn, stamp) else []
  }

  /** The puts so far are those of a commit that may stop anywhere. */
  ghost predicate CommitsPart(s: Store, puts: seq<TablePut>, txn: nat, stamp: nat) {
    forall t :: t in s.trees ==> EntriesFor(puts, t) <= ToPut(s, t, txn, stamp)
  }

  ghost predicate TrailOpen(states: seq<Store>, puts: seq<TablePut>, s0: Store, s: Store) {
    Trail(states, puts) && states[0] == s0 && states[|puts|] == s
  }

  /** The first i staged entries of one table, put again after other puts. */
  ghost predicate PutsSome(puts0: seq<TablePut>, puts: seq<TablePut>, name: string, staged: seq<Entry>, stamp: nat,
                           i: nat)
    requires i <= |staged|
  {
    forall t :: EntriesFor(puts, t) == EntriesFor(puts0, t) + if t == name then Restamped(staged[..i], stamp) else []
  }

  /** The puts of one table stop before its staged entry i. */
  ghost predicate StopsAt(puts0: seq<TablePut>, puts: seq<TablePut>, next: TablePut, name: string,
                          staged: seq<Entry>, stamp: nat, i: nat) {
    && i < |staged| && next == TablePut(name, staged[i].(commitSeq := stamp))
    && PutsSome(puts0, puts, name, staged, stamp, i)
  }

  lemma PutsNone(puts: seq<TablePut>, name: string, staged: seq<Entry>, stamp: nat)
    ensures PutsSome(puts, puts, name, staged, stamp, 0)
  {
    assert Restamped(staged[..0], stamp) == [];
  }

  lemma PutsMore(puts0: seq<TablePut>, puts: seq<TablePut>, name: string, staged: seq<Entry>, stamp: nat, i: nat,
                 p: TablePut)
    requires StopsAt(puts0, puts, p, name, staged, stamp, i)
    ensures PutsSome(puts0, puts + [p], name, staged, stamp, i + 1)
  {
    hide EntriesFor;
    forall t ensures EntriesFor(puts + [p], t)
                  == EntriesFor(puts0, t) + if t == name then Restamped(staged[..i + 1], stamp) else []
    {
      EntriesForStep(puts, p, t);
      assert Restamped(staged[..i + 1], stamp) == Restamped(staged[..i], stamp) + [p.e];
    }
  }

  lemma NothingPut(s: Store, txn: nat, stamp: nat)
    requires StoreOk(s)
    ensures TrailOpen([s], [], s, s) && AllKeepOrder([s], []) && CommitsTables(s, [], {}, txn, stamp)
  {
  }

  /** Before its turn comes a table stores what it stored at the start. */
  lemma NotYetPut(states: seq<Store>, puts: seq<TablePut>, s0: Store, s: Store, done: set<string>, name: string,
                  txn: nat, stamp: nat)
    requires TrailOpen(states, puts, s0, s) && CommitsTables(s0, puts, done, txn, stamp) && name !in done
             && name in s0.trees
    ensures RowsOf(s, name) == RowsOf(s0, name)
  {
    hide StoreOk, Takes, RowsOf;
    assert puts[..|puts|] == puts;
    UntouchedRows(states, puts, |puts|, name);
  }

  /** A table done after the others. */
  lemma TableDone(s: Store, puts0: seq<TablePut>, puts: seq<TablePut>, done: set<string>, name: string,
                  staged: seq<Entry>, txn: nat, stamp: nat)
    requires CommitsTables(s, puts0, done, txn, stamp) && name !in done && staged == StagedOf(RowsOf(s, name), txn)
    requires PutsSome(puts0, puts, name, staged, stamp, |staged|)
    ensures CommitsTables(s, puts, done + {name}, txn, stamp)
  {
    hide EntriesFor, RowsOf, StagedOf;
    assert staged[..|staged|] == staged;
  }

  /** A table that stops after the others. */
  lemma TableStops(s: Store, puts0: seq<TablePut>, puts: seq<TablePut>, next: TablePut, done: set<string>, name: string,
                   staged: seq<Entry>, txn: nat, stamp: nat, i: nat)
    requires CommitsTables(s, puts0, done, txn, stamp) && name !in done && staged == StagedOf(RowsOf(s, name), txn)
    requires StopsAt(puts0, puts, next, name, staged, stamp, i)
    ensures CommitsPart(s, puts + [next], txn, stamp)
  {
    hide EntriesFor, RowsOf, StagedOf, Restamped;
    PutsMore(puts0, puts, name, staged, stamp, i, next);
    RestampedPart(staged, stamp, i + 1);
    forall t | t in s.trees ensures EntriesFor(puts + [next], t) <= ToPut(s, t, txn, stamp) {
      if t == name {
        assert EntriesFor(puts + [next], t) == [] + Restamped(staged[..i + 1], stamp);
      } else {
        assert EntriesFor(puts + [next], t) == EntriesFor(puts0, t) + [];
      }
    }
  }

  lemma RestampedPart(staged: seq<Entry>, stamp: nat, i: nat)
    requires i <= |staged|
    ensures Restamped(staged[..i], stamp) == Restamped(staged, stamp)[..i]
  {
  }

  /** The whole commit was put. */
  ghost predicate CommitMade(states: seq<Store>, puts: seq<TablePut>, s0: Store, s: Store, txn: nat, stamp: nat) {
    TrailOpen(states, puts, s0, s) && CommitsTables(s0, puts, s0.trees.Keys, txn, stamp)
  }

  /** The commit stopped at a put that threw. */
  ghost predicate CommitStopped(states: seq<Store>, puts: seq<TablePut>, next: TablePut, s0: Store, s: Store,
                                txn: nat, stamp: nat) {
    && Trail(states, puts) && states[0] == s0
    && CommitsPart(s0, puts + [next], txn, stamp) && next.table in states[|puts|].trees
    && !Accepts(Tree(states[|puts|], next.table), next.e)
    && PutFailed(states[|puts|], s, next.table, next.e)
  }

  lemma CreatedRows(s: Store, s': Store, name: string)
    requires StoreOk(s) && Created(s, s', name)
    ensures RowsMap(s') == RowsMap(s)[name := []] && s'.trees.Keys == s.trees.Keys + {name}
    ensures AllOrdered(s) ==> AllOrdered(s')
  {
    hide StateOk, InOrder, SameTree, StoreOk, RowsOf, Pages;
    CreatedKeepsStore(s, s', name);
    forall t | t in s'.trees && t != name ensures t in s.trees && (InOrder(Tree(s', t)) <==> InOrder(Tree(s, t))) {
      TreeInStore(s, t);
      TreeFrame(Tree(s, t), Tree(s', t));
    }
  }

  /** What a commit leaves that stopped at a put that threw: every table but that one is committed,
      partly committed or untouched, as far as the puts went. */
  lemma FailedCommitLeaves(states: seq<Store>, puts: seq<TablePut>, next: TablePut, s: Store, txn: nat, stamp: nat,
                           t: string)
    requires states != []
    requires CommitStopped(states, puts, next, states[0], s, txn, stamp)
    requires AllOrdered(states[0]) && AllKeepOrder(states, puts)
    requires t in states[0].trees && t != next.table
    ensures var rows, k := RowsOf(states[0], t), |EntriesFor(puts, t)|;
            && k <= |StagedOf(rows, txn)| && RowsOf(s, t) == Reput(rows, StagedOf(rows, txn)[..k], stamp)
  {
    hide AllOrdered, StoreOk, Takes, KeepsOrderAt, PutFailed, RowsOf, StagedOf;
    forall u | u in states[0].trees ensures EntriesFor(puts, u) <= ToPut(states[0], u, txn, stamp) {
      EntriesForStep(puts, next, u);
    }
    TrailCommitsPart(states, puts, txn, stamp, t);
    TrailOk(states, puts, |puts|);
    PutFailedKeepsOthers(states[|puts|], s, next.table, next.e);
  }

  /** A whole commit with clean splits leaves every table committed. */
  lemma TrailCommits(states: seq<Store>, puts: seq<TablePut>, done: set<string>, txn: nat, stamp: nat)
    requires Trail(states, puts) && AllOrdered(states[0]) && AllKeepOrder(states, puts)
    requires CommitsTables(states[0], puts, done, txn, stamp) && states[0].trees.Keys <= done
    ensures AllOrdered(states[|puts|])
    ensures RowsMap(states[|puts|])
         == map t | t in RowsMap(states[0]) :: TableCommitted(RowsMap(states[0])[t], txn, stamp)
  {
    hide AllOrdered, RowsOf, StoreOk, Takes, KeepsOrderAt;
    var n := |puts|;
    TrailOk(states, puts, n);
    assert puts[..n] == puts;
    forall t | t in states[0].trees
      ensures AllOrdered(states[n]) && RowsOf(states[n], t) == TableCommitted(RowsOf(states[0], t), txn, stamp)
    {
      TrailRows(states, puts, n, t);
      ReputIsStoredAll(RowsOf(states[0], t), StagedOf(RowsOf(states[0], t), txn), stamp);
    }
    if states[0].trees == map[] {
      NoTables(states[n]);
    }
  }

  lemma NoTables(s: Store)
    requires s.trees.Keys == {}
    ensures AllOrdered(s)
  {
  }

  /** Part of a commit with clean splits: each table holds some of its staged entries again under
      the stamp, a first part of them in storage order. */
  lemma TrailCommitsPart(states: seq<Store>, puts: seq<TablePut>, txn: nat, stamp: nat, t: string)
    requires Trail(states, puts) && AllOrdered(states[0]) && AllKeepOrder(states, puts)
    requires CommitsPart(states[0], puts, txn, stamp) && t in states[0].trees
    ensures var rows, k := RowsOf(states[0], t), |EntriesFor(puts, t)|;
            && k <= |StagedOf(rows, txn)|
            && RowsOf(states[|puts|], t) == Reput(rows, StagedOf(rows, txn)[..k], stamp)
  {
    hide AllOrdered, RowsOf, StoreOk, Takes, KeepsOrderAt;
    var rows, k := RowsOf(states[0], t), |EntriesFor(puts, t)|;
    var staged := StagedOf(rows, txn);
    TrailRows(states, puts, |puts|, t);
    assert puts[..|puts|] == puts;
    assert EntriesFor(puts, t) == Restamped(staged, stamp)[..k] == Restamped(staged[..k], stamp);
    ReputIsStoredAll(rows, staged[..k], stamp);
  }

  // ----- what part of a commit shows -----

  /** Until the cut reaches the stamp, nobody sees a commit that stopped halfway. */
  lemma PartHidden(es: seq<Entry>, staged: seq<Entry>, stamp: nat, key: Key, reader: nat, cut: nat)
    requires Sorted(es) && stamp > cut && (forall e :: e in es ==> e.commitSeq != stamp) && KeysDiffer(staged)
    ensures FirstVisible(Reput(es, staged, stamp), key, reader, cut) == FirstVisible(es, key, reader, cut)
  {
    hide Reput, FirstVisible;
    var after := Reput(es, staged, stamp);
    forall x: Entry ensures x in es ==> x in after
      ensures x in after && Visible(x, reader, cut) ==> x in es
    {
      ReputMember(es, staged, stamp, x);
    }
    assert Sorted(after) by { ReputSorted(es, staged, stamp); }
    SameVisible(es, after, key, reader, cut);
  }

  lemma ReputSorted(es: seq<Entry>, staged: seq<Entry>, stamp: nat)
    requires Sorted(es) && stamp > 0 && (forall e :: e in es ==> e.commitSeq != stamp) && KeysDiffer(staged)
    ensures Sorted(Reput(es, staged, stamp))
  {
    ReputMember(es, staged, stamp, Entry(NULL_KEY, 0, 0, false, NO_ROW, 0));
  }

  /** Sorted lists with the same visible versions of a key answer the same. */
  lemma SameVisible(a: seq<Entry>, b: seq<Entry>, key: Key, reader: nat, cut: nat)
    requires Sorted(a) && Sorted(b)
    requires forall x :: Visible(x, reader, cut) && x.key == key ==> (x in a <==> x in b)
    ensures FirstVisible(a, key, reader, cut) == FirstVisible(b, key, reader, cut)
  {
    FirstVisibleIsNewest(a, key, reader, cut);
    FirstVisibleIsNewest(b, key, reader, cut);
    LookupFails(a, key, reader, cut);
    LookupFails(b, key, reader, cut);
  }

  /** Once the cut reaches the stamp, by whatever commit, everybody sees the entries that were put
      again before the commit stopped. */
  lemma PartShows(es: seq<Entry>, staged: seq<Entry>, stamp: nat, k: nat, reader: nat, cut: nat)
    requires Sorted(es) && 0 < stamp <= cut && (forall e :: e in es ==> e.commitSeq < stamp) && KeysDiffer(staged)
    requires k < |staged|
    ensures FirstVisible(Reput(es, staged, stamp), staged[k].key, reader, cut) == Some(staged[k].(commitSeq := stamp))
  {
    hide Reput, FirstVisible;
    var after, mine := Reput(es, staged, stamp), staged[k].(commitSeq := stamp);
    ReputMember(es, staged, stamp, mine);
    LookupFails(after, mine.key, reader, cut);
    FirstVisibleIsNewest(after, mine.key, reader, cut);
    var r := FirstVisible(after, mine.key, reader, cut);
    assert r.Some? by { assert Visible(mine, reader, cut); }
    ReputMember(es, staged, stamp, r.value);
  }

  /**
   A commit that failed, as every other reader sees it in the tables whose puts did not throw: nothing
   of it while the cut is below its stamp, and as soon as a later commit moves the cut to the stamp
   or beyond, the part of it that had been put.
   */
  lemma FailedCommitShows(states: seq<Store>, puts: seq<TablePut>, next: TablePut, s: Store, txn: nat, stamp: nat,
                          t: string, reader: nat, cut: nat)
    requires states != [] && CommitStopped(states, puts, next, states[0], s, txn, stamp)
    requires AllOrdered(states[0]) && AllKeepOrder(states, puts) && t in states[0].trees && t != next.table
    requires stamp > 0 && forall e :: e in RowsOf(states[0], t) ==> e.commitSeq < stamp
    ensures var rows, k := RowsOf(states[0], t), |EntriesFor(puts, t)|;
            var staged := StagedOf(rows, txn);
            && k <= |staged|
            && (cut < stamp ==> forall key ::
               FirstVisible(RowsOf(s, t), key, reader, cut) == FirstVisible(rows, key, reader, cut))
            && (cut >= stamp ==> forall i :: 0 <= i < k ==>
                  FirstVisible(RowsOf(s, t), staged[i].key, reader, cut) == Some(staged[i].(commitSeq := stamp)))
  {
    hide AllOrdered, CommitStopped, AllKeepOrder, RowsOf, StagedOf, Reput, FirstVisible, EntriesFor;
    FailedCommitLeaves(states, puts, next, s, txn, stamp, t);
    SortedTable(states[0], t);
    PartOfCommit(RowsOf(states[0], t), RowsOf(s, t), txn, |EntriesFor(puts, t)|, stamp, reader, cut);
  }

  lemma PartOfCommit(rows: seq<Entry>, rows': seq<Entry>, txn: nat, k: nat, stamp: nat, reader: nat, cut: nat)
    requires Sorted(rows) && stamp > 0 && (forall e :: e in rows ==> e.commitSeq < stamp)
    requires k <= |StagedOf(rows, txn)| && rows' == Reput(rows, StagedOf(rows, txn)[..k], stamp)
    ensures cut < stamp ==> forall key ::
              FirstVisible(rows', key, reader, cut) == FirstVisible(rows, key, reader, cut)
    ensures var staged := StagedOf(rows, txn);
            cut >= stamp ==> forall i :: 0 <= i < k ==>
              FirstVisible(rows', staged[i].key, reader, cut) == Some(staged[i].(commitSeq := stamp))
  {
    hide StagedOf, Reput, FirstVisible, Sorted;
    var staged := StagedOf(rows, txn);
    var part := staged[..k];
    StagedOfDistinct(rows, txn);
    assert KeysDiffer(part);
    if cut < stamp {
      forall key ensures FirstVisible(rows', key, reader, cut) == FirstVisible(rows, key, reader, cut) {
        PartHidden(rows, part, stamp, key, reader, cut);
      }
    } else {
      forall i | 0 <= i < k
        ensures FirstVisible(rows', staged[i].key, reader, cut) == Some(staged[i].(commitSeq := stamp))
      {
        PartShows(rows, part, stamp, i, reader, cut);
      }
    }
  }

  lemma SortedTable(s: Store, t: string)
    requires AllOrdered(s) && t in s.trees
    ensures Sorted(RowsOf(s, t))
  {
    BandedSorted(SepsOf(Tree(s, t)), LeavesOf(Tree(s, t)));
  }

}
