/** The pager, the tree and the table store put to work: scripts of events, and runs that end badly. */
module Scripts {
  import opened Versions
  import opened Bands
  import opened TreeShape
  import opened TreeGrowth
  import opened Paging
  import opened BTrees
  import opened Tables
  import opened AccessPaths
  import opened StoreRuns
  import opened PageBytes

  /** Whether the event can be taken: a new name to create, an old one to drop, a put that returns. */
  predicate CanTake(s: Store, ev: Event) {
    match ev
    case Create(name) => name !in s.trees
    case Drop(name) => name in s.trees
    case PutInto(name, e) => name in s.trees && Accepts(Tree(s, name), e)
  }

  method TakeEvent(store: TableStore, ev: Event) returns (ok: bool)
    requires store.Valid() && (ev.PutInto? ==> ev.e.bytes >= MIN_ENTRY_BYTES)
    modifies store, store.pager, store.pager.allocator, store.btrees.Values
    ensures ok <==> CanTake(old(store.Value()), ev)
    ensures ok ==> store.Valid() && Step(old(store.Value()), store.Value(), ev)
    ensures forall t :: t in store.btrees ==>
              fresh(store.btrees[t]) || (t in old(store.btrees) && store.btrees[t] == old(store.btrees)[t])
  {
    hide Accepts, Created, Dropped, PutTaken, PutFailed, StoreOk, RefusesLeft;
    match ev
    case Create(name) => ok := store.CreateTable(name);
    case Drop(name) => ok := store.DropTable(name);
    case PutInto(name, e) =>
      ok := name in store.btrees;
      if ok {
        var r := store.Put(name, e);
        ok := r.Stored? || r.Duplicate?;
      }
  }

  /** Takes a script from a store without tables up to the first event that cannot be taken: what it
      took is a run. */
  method Play(store: TableStore, script: seq<Event>) returns (n: nat, ghost states: seq<Store>)
    requires store.Valid() && store.btrees == map[]
    requires forall i :: 0 <= i < |script| && script[i].PutInto? ==> script[i].e.bytes >= MIN_ENTRY_BYTES
    modifies store, store.pager, store.pager.allocator
    ensures n <= |script| && IsRun(states, script[..n])
    ensures if n == |script| then store.Valid() && store.Value() == states[n] else !CanTake(states[n], script[n])
  {
    hide Step, StoreOk, CanTake;
    n, states := 0, [store.Value()];
    while n < |script|
      invariant n <= |script| && store.Valid() && IsRun(states, script[..n]) && store.Value() == states[n]
      invariant forall t :: t in store.btrees ==> fresh(store.btrees[t])
      decreases |script| - n
    {
      var ok := TakeEvent(store, script[n]);
      if !ok {
        return;
      }
      RunGrows(states, script, n, store.Value());
      states := states + [store.Value()];
      n := n + 1;
    }
  }

  lemma RunGrows(states: seq<Store>, script: seq<Event>, n: nat, s: Store)
    requires n < |script| && IsRun(states, script[..n]) && Step(states[n], s, script[n])
    ensures IsRun(states + [s], script[..n + 1])
  {
    hide Step;
    var longer, more := states + [s], script[..n + 1];
    forall i | 0 <= i < |more| ensures Takes(longer, more, i) {
      if i < n {
        assert Takes(states, script[..n], i);
        assert longer[i] == states[i] && longer[i + 1] == states[i + 1] && more[i] == script[..n][i];
      }
    }
  }

  // ----- 65 versions of one key -----

  /** Puts the versions 1 to 65 of one key into a new tree. */
  method OneKeyTree() returns (tree: BTree, ghost states: seq<TreeState>)
    ensures tree.Valid() && OneKeyRun(states) && |states| == 66 && tree.State() == states[65]
  {
    hide PutStep, StoredStep, Accepts, OneKeyRun, Filled, InOrder;
    var pager := new Pager();
    tree := new BTree.CreateNew(pager);
    states := [tree.State()];
    EmptyLeaf(states[0]);
    OneKeyStart(states[0]);
    var i := 0;
    while i < 65
      invariant i <= 65 && |states| == i + 1 && OneKeyRun(states) && tree.Valid() && tree.State() == states[i]
      invariant fresh(tree) && fresh(tree.pager) && fresh(tree.pager.allocator)
    {
      OneKeyFills(states, i);
      OneKeyAccepted(states[i], i);
      var r := tree.PutVersion(OneVersion(i + 1));
      PutKeepsValid(states[i], tree.State(), OneVersion(i + 1));
      OneKeyGrows(states, tree.State());
      states := states + [tree.State()];
      i := i + 1;
    }
  }

  lemma OneKeyStart(t: TreeState)
    requires StateOk(t) && InOrder(t) && LeavesOf(t) == [[]]
    ensures OneKeyRun([t])
  {
    hide StateOk, InOrder, PutStep;
  }

  lemma OneKeyGrows(states: seq<TreeState>, t: TreeState)
    requires OneKeyRun(states) && PutStep(states[|states| - 1], t, OneVersion(|states|))
    ensures OneKeyRun(states + [t])
  {
    hide StateOk, InOrder, PutStep, LeavesOf;
    var longer := states + [t];
    forall i | 0 <= i < |longer| - 1 ensures PutStep(longer[i], longer[i + 1], OneVersion(i + 1)) {
      if i < |states| - 1 {
        assert longer[i] == states[i] && longer[i + 1] == states[i + 1];
        assert PutStep(states[i], states[i + 1], OneVersion(i + 1));
      }
    }
  }

  lemma EmptyLeaf(t: TreeState)
    requires |t.chain| == 1 && Contents(t) == []
    ensures LeavesOf(t) == [[]]
  {
    var ls := LeavesOf(t);
    assert ls == [ls[0]];
    ConcatOne(ls[0]);
  }

  lemma OneKeyAccepted(t: TreeState, n: nat)
    requires Filled(t, n) && n <= MAX_LEAF_ENTRIES
    ensures Accepts(t, OneVersion(n + 1))
  {
    hide Inserted, InsertPos, Holds, InOrder;
    FilledAligned(t, n);
    AlignedRouting(t, 1);
    OneKeyInserted(n);
    OneKeyInserted(n + 1);
    var ins := OneKey(n + 1);
    BytesBounds(LeftHalf(ins), 48, 48);
    BytesBounds(RightHalf(ins), 48, 48);
    assert |t.chain| == |LeavesOf(t)|;
  }

  lemma PutKeepsValid(t: TreeState, t': TreeState, e: Entry)
    requires StateOk(t) && PutStep(t, t', e)
    ensures StateOk(t')
  {
    hide StateOk;
  }

  /** A lookup of the newest version returns version 33. */
  method StaleGet() returns (r: Option<Entry>)
    ensures r == Some(OneVersion(33))
  {
    hide OneKeyRun;
    ghost var states;
    var tree;
    tree, states := OneKeyTree();
    r := tree.Get(1, 9, 65);
    StaleLookup(states, 9);
  }

  // ----- an entry one byte too large -----

  /** The leaf of a new tree after n of the fillers. */
  ghost predicate HoldsFillers(t: TreeState, n: nat) {
    StateOk(t) && InOrder(t) && LeavesOf(t) == [Fillers(n)] && SepsOf(t) == [NULL_KEY]
  }

  lemma FillerShape(t: TreeState, t': TreeState, n: nat)
    requires HoldsFillers(t, n) && n < 22 && PutStep(t, t', Filler(n + 1))
    ensures HoldsFillers(t', n + 1)
  {
    hide Inserted, InsertPos, Holds, Overflows, OwnershipKept, Fillers, CleanCut, StateOk, Ordered, Grown;
    FillerRouted(t, n);
    FillerInserted(n);
    FillerOverflows();
  }

  lemma FillerRouted(t: TreeState, n: nat)
    requires HoldsFillers(t, n)
    ensures forall key :: RoutedEntries(t, key) == Fillers(n)
  {
    forall key ensures RoutedEntries(t, key) == Fillers(n) {
      AlignedRouting(t, key);
    }
  }

  method PutFiller(tree: BTree, n: nat)
    requires n < 22 && tree.Valid() && HoldsFillers(tree.State(), n)
    modifies tree, tree.pager, tree.pager.allocator
    ensures tree.Valid() && HoldsFillers(tree.State(), n + 1)
  {
    hide PutStep, StoredStep, Accepts, Overflows, HalvesFit, Inserted, InsertPos, Holds, Fillers, HoldsFillers;
    ghost var t := tree.State();
    FillerRouted(t, n);
    FillerInserted(n);
    FillerOverflows();
    AcceptedByRoom(t, Filler(n + 1));
    var r := tree.PutVersion(Filler(n + 1));
    FillerShape(t, tree.State(), n);
    PutKeepsValid(t, tree.State(), Filler(n + 1));
  }

  /** Puts 22 entries of at most 340 bytes, then one of 343: the last put overflows a page. */
  method FillerPut() returns (r: PutResult)
    ensures r.PageOverflow?
  {
    hide StoredStep, Accepts, Overflows, HalvesFit, Inserted, InsertPos, Holds, Fillers, HoldsFillers;
    var pager := new Pager();
    var tree := new BTree.CreateNew(pager);
    FillersStart(tree.State());
    var i := 0;
    while i < 22
      invariant i <= 22 && tree.Valid() && HoldsFillers(tree.State(), i)
      invariant fresh(tree) && fresh(tree.pager) && fresh(tree.pager.allocator)
    {
      PutFiller(tree, i);
      i := i + 1;
    }
    FillerRouted(tree.State(), 22);
    FillerInserted(22);
    FillersTooMany();
    r := tree.Put(Filler(23));
  }

  lemma FillersStart(t: TreeState)
    requires StateOk(t) && InOrder(t) && |t.chain| == 1 && Contents(t) == []
    ensures HoldsFillers(t, 0)
  {
    hide StateOk;
    EmptyLeaf(t);
    assert Fillers(0) == [];
    EmptyTreeSeps(t);
  }

  lemma AcceptedByRoom(t: TreeState, e: Entry)
    requires !Overflows(Inserted(RoutedEntries(t, e.key), e))
    ensures Accepts(t, e)
  {
  }

  lemma FillersTooMany()
    ensures Overflows(Fillers(23)) && !HalvesFit(Fillers(23))
  {
    FillerOverflows();
  }
}
