/**
 Several tables in one file (createTable, put and dropTable of
 includes/opendb/storage/LocalFileStorageProvider.hpp): every page has at most one owner.
 */
module Tables {
  import opened Versions
  import opened Bands
  import opened BuddyPool
  import opened TreeShape
  import opened TreeGrowth
  import opened Paging
  import opened BTrees

  datatype Root = Root(page: PageId, chain: seq<PageId>)

  /** The trees of a file over its shared pages. */
  datatype Store = Store(nodes: Nodes, owned: set<PageId>, trees: map<string, Root>)

  function TreeOf(s: Store, r: Root): TreeState {
    TreeState(s.nodes, r.page, r.chain, s.owned)
  }

  /** Every tree is intact, and no page belongs to two of them. */
  ghost predicate StoreOk(s: Store) {
    && (forall t :: t in s.trees ==> StateOk(TreeOf(s, s.trees[t])))
    && (forall t, u :: t in s.trees && u in s.trees && t != u ==>
          TreePages(s.trees[t].page, s.trees[t].chain) !! TreePages(s.trees[u].page, s.trees[u].chain))
  }

  /** Everything a table stores, in sibling order. */
  function RowsOf(s: Store, t: string): seq<Entry> {
    if t in s.trees then Contents(TreeOf(s, s.trees[t])) else []
  }

  function PagesOf(s: Store, t: string): set<PageId> {
    if t in s.trees then TreePages(s.trees[t].page, s.trees[t].chain) else {}
  }

  /** Every table but one is untouched, page by page and version by version. */
  ghost predicate OthersSame(s: Store, s': Store, name: string) {
    forall t :: t != name ==>
      && (t in s.trees <==> t in s'.trees)
      && (t in s.trees ==>
            && s'.trees[t] == s.trees[t] && RowsOf(s', t) == RowsOf(s, t)
            && SameTree(TreeOf(s, s.trees[t]), TreeOf(s', s'.trees[t])))
  }

  predicate SameRoots(s: Store, s': Store, name: string) {
    && (forall t :: t in s.trees && t != name ==> t in s'.trees && s'.trees[t] == s.trees[t])
    && (forall t :: t in s'.trees && t != name ==> t in s.trees)
  }

  /** A tree whose pages kept their contents stays what it was. */
  lemma TreeFrame(t: TreeState, t': TreeState)
    requires StateOk(t) && SameTree(t, t')
    ensures StateOk(t') && Contents(t') == Contents(t) && (InOrder(t') <==> InOrder(t))
    ensures Leaves(t'.nodes, t'.chain) == Leaves(t.nodes, t.chain) && t'.nodes[t.root] == t.nodes[t.root]
  {
    forall p | p in Pages(t) ensures p in t.nodes && p in t'.owned && p in t'.nodes && t'.nodes[p] == t.nodes[p] {
      PageInTree(t, p);
    }
    assert forall i :: 0 <= i < |t.chain| ==> t.chain[i] in Pages(t);
    OutsideChain(t.nodes, t'.nodes, t.chain);
  }

  /** The pages of all tables but one keep owner and contents. */
  predicate KeepsOtherPages(s: Store, s': Store, name: string) {
    && (forall p :: p in s.owned && p !in PagesOf(s, name) ==> p in s'.owned)
    && (forall p :: p in s.owned && p !in PagesOf(s, name) && p in s.nodes ==>
       p in s'.nodes && s'.nodes[p] == s.nodes[p])
  }

  /** A change that keeps the pages of the other tables keeps the other tables. */
  lemma OthersFrame(s: Store, s': Store, name: string)
    requires StoreOk(s) && SameRoots(s, s', name) && KeepsOtherPages(s, s', name)
    ensures OthersSame(s, s', name)
    ensures forall t :: t in s'.trees && t != name ==> StateOk(TreeOf(s', s'.trees[t])) && PagesOf(s, t) <= s.owned
  {
    hide Contents, TreeOk, Ordered;
    forall t | t != name && (t in s.trees || t in s'.trees)
      ensures t in s.trees && t in s'.trees && s'.trees[t] == s.trees[t] && RowsOf(s', t) == RowsOf(s, t)
      ensures StateOk(TreeOf(s', s'.trees[t])) && PagesOf(s, t) <= s.owned
      ensures SameTree(TreeOf(s, s.trees[t]), TreeOf(s', s'.trees[t]))
    {
      assert StateOk(TreeOf(s, s.trees[t]));
      assert PagesOf(s, t) !! PagesOf(s, name);
      TreeFrame(TreeOf(s, s.trees[t]), TreeOf(s', s'.trees[t]));
    }
  }

  /**
   A change that keeps the pages of the other tables, owner and contents, and leaves the named
   table intact on pages that were its own or nobody's, keeps the whole store intact.
   */
  lemma StoreFrame(s: Store, s': Store, name: string)
    requires StoreOk(s) && SameRoots(s, s', name) && KeepsOtherPages(s, s', name)
    requires name in s'.trees ==> StateOk(TreeOf(s', s'.trees[name]))
    requires forall p :: p in PagesOf(s', name) ==> p in PagesOf(s, name) || p !in s.owned
    ensures StoreOk(s') && OthersSame(s, s', name)
  {
    hide SameTree, RowsOf, StateOk, KeepsOtherPages;
    OthersFrame(s, s', name);
  }

  lemma SameStore(s: Store, name: string)
    requires StoreOk(s)
    ensures OthersSame(s, s, name)
  {
  }

  // ----- steps -----

  function Tree(s: Store, name: string): TreeState
    requires name in s.trees
  {
    TreeOf(s, s.trees[name])
  }

  lemma TreeInStore(s: Store, name: string)
    requires StoreOk(s) && name in s.trees
    ensures StateOk(Tree(s, name))
  {
  }

  /** A put into one table that returned. */
  ghost predicate PutTaken(s: Store, s': Store, name: string, e: Entry) {
    && name in s.trees && name in s'.trees && SameRoots(s, s', name)
    && PutStep(Tree(s, name), Tree(s', name), e)
  }

  /** A put into one table that threw. */
  ghost predicate PutFailed(s: Store, s': Store, name: string, e: Entry) {
    && name in s.trees && name in s'.trees && SameRoots(s, s', name)
    && FailedStep(Tree(s, name), Tree(s', name), e)
  }

  /** A new table: one empty leaf on a page that had no owner. */
  ghost predicate Created(s: Store, s': Store, name: string) {
    && name !in s.trees && name in s'.trees && SameRoots(s, s', name) && KeepsOtherPages(s, s', name)
    && StateOk(Tree(s', name)) && PagesOf(s', name) !! s.owned
    && RowsOf(s', name) == [] && InOrder(Tree(s', name)) && |Tree(s', name).chain| == 1
  }

  /** A table dropped: its pages lose their owner. */
  predicate Dropped(s: Store, s': Store, name: string) {
    name in s.trees && s'.trees == s.trees - {name} && s'.nodes == s.nodes && s'.owned == s.owned - PagesOf(s, name)
  }

  lemma CreatedKeepsStore(s: Store, s': Store, name: string)
    requires StoreOk(s) && Created(s, s', name)
    ensures StoreOk(s') && OthersSame(s, s', name)
  {
    hide StateOk, InOrder;
    StoreFrame(s, s', name);
  }

  /** A put that stores its version keeps the store intact and touches one table only. */
  lemma PutKeepsStore(s: Store, s': Store, name: string, e: Entry)
    requires StoreOk(s) && name in s.trees && name in s'.trees && SameRoots(s, s', name)
    requires StoredStep(Tree(s, name), Tree(s', name), e)
    ensures StoreOk(s') && OthersSame(s, s', name)
    ensures multiset(RowsOf(s', name)) == multiset(RowsOf(s, name)) + multiset{e}
  {
    StoreFrame(s, s', name);
  }

  /** Freeing exactly one table's pages keeps the others. */
  lemma DropKeepsStore(s: Store, s': Store, name: string)
    requires StoreOk(s) && Dropped(s, s', name)
    ensures StoreOk(s') && OthersSame(s, s', name)
  {
    StoreFrame(s, s', name);
  }

  predicate IsDuplicate(s: Store, name: string, e: Entry) {
    name in s.trees && Versions.Holds(RoutedEntries(Tree(s, name), e.key), e)
  }

  /** A put that returns keeps the store intact, touches one table only, and adds its version to it
      unless the tree has the version already. */
  lemma PutTakenKeepsStore(s: Store, s': Store, name: string, e: Entry)
    requires StoreOk(s) && PutTaken(s, s', name, e)
    ensures StoreOk(s') && OthersSame(s, s', name)
    ensures multiset(RowsOf(s', name))
         == if IsDuplicate(s, name, e) then multiset(RowsOf(s, name)) else multiset(RowsOf(s, name)) + multiset{e}
  {
    hide StoreOk, OthersSame, StoredStep, RowsOf;
    if IsDuplicate(s, name, e) {
      assert s'.trees[name] == s.trees[name];
      assert s'.trees == s.trees;
      assert s' == s;
      SameStore(s, name);
    } else {
      PutKeepsStore(s, s', name, e);
    }
  }

  /** A put that throws leaves every other table alone. */
  lemma PutFailedKeepsOthers(s: Store, s': Store, name: string, e: Entry)
    requires StoreOk(s) && PutFailed(s, s', name, e)
    ensures OthersSame(s, s', name)
    ensures forall t :: t in s'.trees && t != name ==> StateOk(Tree(s', t))
  {
    OthersFrame(s, s', name);
  }

  lemma RefusedIsFailed(t: TreeState, e: Entry)
    ensures RefusesLeft(t, e) ==> !Accepts(t, e)
  {
  }

  lemma RefusedKeepsTree(t: TreeState, t': TreeState, e: Entry)
    requires FailedStep(t, t', e) && RefusesLeft(t, e)
    ensures SameTree(t, t') && StateOk(t') && Contents(t') == Contents(t)
  {
    hide Inserted, InsertPos, Bytes, StateOk, SameTree, Overflows, Holds;
  }

  /** A put whose left half does not fit leaves the whole store as it was, but for a page it took. */
  lemma PutRefusedKeepsStore(s: Store, s': Store, name: string, e: Entry)
    requires StoreOk(s) && PutFailed(s, s', name, e) && RefusesLeft(Tree(s, name), e)
    ensures StoreOk(s') && OthersSame(s, s', name)
    ensures SameTree(Tree(s, name), Tree(s', name)) && RowsOf(s', name) == RowsOf(s, name)
  {
    hide RefusesLeft, StateOk, TreePages, SameTree;
    RefusedKeepsTree(Tree(s, name), Tree(s', name), e);
    assert PagesOf(s', name) == PagesOf(s, name) by { SamePages(Tree(s, name), Tree(s', name)); }
    assert KeepsOtherPages(s, s', name) by { FailedKeepsPages(s, s', name, e); }
    StoreFrame(s, s', name);
  }

  lemma SamePages(t: TreeState, t': TreeState)
    requires SameTree(t, t')
    ensures Pages(t') == Pages(t)
  {
  }

  lemma FailedKeepsPages(s: Store, s': Store, name: string, e: Entry)
    requires PutFailed(s, s', name, e)
    ensures KeepsOtherPages(s, s', name)
  {
    hide HalvesFit, Inserted, InsertPos, Scannable, StateOk, HalfRooted;
  }

  ghost function Roots(trees: map<string, BTree>): map<string, Root>
    reads trees.Values
  {
    map t | t in trees :: Root(trees[t].root, trees[t].chain)
  }

  lemma RootsAdded(trees: map<string, BTree>, name: string, tree: BTree)
    ensures Roots(trees[name := tree]) == Roots(trees)[name := Root(tree.root, tree.chain)]
  {
    var more := trees[name := tree];
    assert forall t :: t in Roots(more) ==> Roots(more)[t] == Roots(trees)[name := Root(tree.root, tree.chain)][t];
  }

  class TableStore {
    const pager: Pager
    var btrees: map<string, BTree>

    ghost function Value(): Store
      reads this, pager, pager.allocator, btrees.Values
    {
      Store(pager.nodes, pager.Owned(), Roots(btrees))
    }

    ghost predicate Valid()
      reads this, pager, pager.allocator, btrees.Values
    {
      && pager.Valid()
      && (forall t :: t in btrees ==> btrees[t].pager == pager)
      && (forall s, t :: s in btrees && t in btrees && s != t ==> btrees[s] != btrees[t])
      && StoreOk(Value())
    }

    constructor (pager: Pager)
      requires pager.Valid()
      ensures this.pager == pager && Valid() && btrees == map[]
    {
      this.pager := pager;
      btrees := map[];
    }

    /** A new table is empty and gets one page nobody owned before. */
    method CreateTable(name: string) returns (ok: bool)
      requires Valid()
      modifies this, pager, pager.allocator
      ensures Valid() && (ok <==> name !in old(btrees))
      ensures !ok ==> Value() == old(Value()) && btrees == old(btrees)
      ensures ok ==> name in btrees && btrees == old(btrees)[name := btrees[name]] && fresh(btrees[name])
      ensures ok ==> Created(old(Value()), Value(), name)
    {
      ok := name !in btrees;
      if ok {
        var _ := AddTable(name);
      }
    }

    method AddTable(name: string) returns (tree: BTree)
      requires Valid() && name !in btrees
      modifies this, pager, pager.allocator
      ensures Valid() && btrees == old(btrees)[name := tree] && fresh(tree)
      ensures Created(old(Value()), Value(), name)
    {
      hide StoreOk, PoolOk;
      hide Created, StateOk, TreePages;
      ghost var s;
      tree, s := NewTree(name);
      btrees := btrees[name := tree];
      RootsAdded(old(btrees), name, tree);
      assert Value() == s;
    }

    method NewTree(name: string) returns (tree: BTree, ghost s: Store)
      requires Valid() && name !in btrees
      modifies pager, pager.allocator
      ensures pager.Valid() && fresh(tree) && tree.pager == pager
      ensures s == Store(pager.nodes, pager.Owned(), Roots(btrees)[name := Root(tree.root, tree.chain)])
      ensures StoreOk(s) && Created(old(Value()), s, name)
    {
      hide Inserted, InsertPos, Concat, Banded, Linked, LinkedAt, LeafOk, Covers, PoolOk, TreeOk;
      ghost var s0 := Value();
      tree := new BTree.CreateNew(pager);
      s := Store(pager.nodes, pager.Owned(), Roots(btrees)[name := Root(tree.root, tree.chain)]);
      assert TreeOf(s, s.trees[name]) == tree.State();
      StoreFrame(s0, s, name);
    }

    /** A put into one table leaves every other table alone, whether it returns or throws. */
    method Put(name: string, e: Entry) returns (r: PutResult)
      requires Valid() && name in btrees && e.bytes >= MIN_ENTRY_BYTES
      modifies pager, pager.allocator, btrees[name]
      ensures r.Duplicate? <==> IsDuplicate(old(Value()), name, e)
      ensures r.Stored? || r.Duplicate? <==> Accepts(old(Tree(Value(), name)), e)
      ensures r.Stored? || r.Duplicate? ==> Valid() && PutTaken(old(Value()), Value(), name, e)
      ensures !r.Stored? && !r.Duplicate? ==> PutFailed(old(Value()), Value(), name, e)
      ensures RefusesLeft(old(Tree(Value(), name)), e) ==> Valid()
    {
      hide StoredStep, Accepts, StateOk, Inserted, InsertPos, OthersSame, RowsOf, PutStep, FailedStep, PoolOk;
      hide RefusesLeft;
      hide TreePages;
      ghost var s := Value();
      assert TreeOf(s, s.trees[name]) == btrees[name].State();
      r := btrees[name].PutVersion(e);
      ghost var s' := Value();
      assert TreeOf(s', s'.trees[name]) == btrees[name].State();
      assert SameRoots(s, s', name);
      if r.Stored? || r.Duplicate? {
        PutTakenKeepsStore(s, s', name, e);
      }
      RefusedIsFailed(Tree(s, name), e);
      if RefusesLeft(Tree(s, name), e) {
        PutRefusedKeepsStore(s, s', name, e);
      }
    }

    /**
     Dropping a table gives back exactly its own pages: the free count grows by their number and
     every other table keeps its pages and its contents.
     */
    method DropTable(name: string) returns (ok: bool)
      requires Valid()
      modifies this, pager, pager.allocator, btrees.Values
      ensures Valid() && (ok <==> name in old(btrees))
      ensures btrees == old(btrees) - {name}
      ensures if ok then Dropped(old(Value()), Value(), name) else Value() == old(Value())
      ensures pager.FreeCount() == old(pager.FreeCount()) + |old(PagesOf(Value(), name))|
      ensures pager.Owned() == old(pager.Owned()) - old(PagesOf(Value(), name))
    {
      ok := name in btrees;
      if ok {
        DropExisting(name);
      } else {
        assert btrees == btrees - {name};
      }
    }

    method DropExisting(name: string)
      requires Valid() && name in btrees
      modifies this, pager, pager.allocator, btrees[name]
      ensures Valid() && btrees == old(btrees) - {name} && Dropped(old(Value()), Value(), name)
      ensures pager.FreeCount() == old(pager.FreeCount()) + |old(PagesOf(Value(), name))|
      ensures pager.Owned() == old(pager.Owned()) - old(PagesOf(Value(), name))
    {
      hide StateOk, PoolOk, TreePages, SameTree;
      ghost var s := Value();
      assert TreeOf(s, s.trees[name]) == btrees[name].State();
      btrees[name].FreeAllPages();
      btrees := btrees - {name};
      assert Value().trees == s.trees - {name};
      DropKeepsStore(s, Value(), name);
    }
  }
}
