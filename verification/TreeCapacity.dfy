/**
 How much a tree takes, in numbers: which puts return, and a program that grows a tree to 128 leaves,
 every put returning, and then makes the put that throws.
 */
module TreeCapacity {
  import opened Versions
  import opened Bands
  import opened TreeShape
  import opened TreeGrowth
  import opened Paging
  import opened BTrees
  import opened AccessPaths
  import opened Scripts

  /**
   A put returns exactly when the version is there already, or its leaf has fewer than 64 entries and
   stays within 4024 bytes, or both halves of the split leaf stay within 4080 bytes and the tree has
   fewer than 128 leaves; no tree has more than 128.
   */
  lemma AcceptsInNumbers(t: TreeState, e: Entry)
    requires StateOk(t)
    ensures |t.chain| <= 128
    ensures var es := RoutedEntries(t, e.key);
            var ins := Inserted(es, e);
            Accepts(t, e) <==>
            || Holds(es, e)
            || (|es| < 64 && Bytes(es) + e.bytes <= 4024)
            || (Bytes(ins[..|ins| / 2]) <= 4080 && Bytes(ins[|ins| / 2..]) <= 4080 && |t.chain| < 128)
  {
    hide Inserted, Holds, Bytes, Linked, LinkedAt;
    var es := RoutedEntries(t, e.key);
    InsertedBytes(es, e);
    InsertedMore(es, e);
    LeavesAreChildren(t);
  }

  lemma LeavesAreChildren(t: TreeState)
    requires StateOk(t)
    ensures |t.chain| <= MAX_INTERNAL_ENTRIES
  {
    hide Linked;
    if t.nodes[t.root].Internal? {
      var seps := t.nodes[t.root].seps;
      assert |multiset(Children(seps))| == |multiset(t.chain)|;
    }
  }

  // ----- a tree of 128 leaves -----

  /** Three of these do not fit one leaf. */
  function Wide(i: nat): Entry {
    Entry(i, i, 1, false, Row(i, i), 1400)
  }

  /** The leaves after n puts in key order: one entry each, but for the last one. */
  function WideLeaf(n: nat, i: nat): seq<Entry> {
    if n == 0 then [] else if i + 2 < n then [Wide(i + 1)] else if n == 1 then [Wide(1)] else [Wide(n - 1), Wide(n)]
  }

  function LeafCount(n: nat): nat {
    if n <= 2 then 1 else n - 1
  }

  function WideLeaves(n: nat): (ls: seq<seq<Entry>>)
    ensures |ls| == LeafCount(n)
  {
    seq(LeafCount(n), i requires 0 <= i < LeafCount(n) => WideLeaf(n, i))
  }

  function WideKeys(n: nat): (keys: seq<Key>)
    ensures |keys| == LeafCount(n)
  {
    seq(LeafCount(n), i requires 0 <= i < LeafCount(n) => if i == 0 then NULL_KEY else i + 1)
  }

  /** The tree after n of these puts. */
  ghost predicate HoldsWide(t: TreeState, n: nat) {
    StateOk(t) && InOrder(t) && LeavesOf(t) == WideLeaves(n) && SepsOf(t) == WideKeys(n)
  }

  lemma WideRouted(t: TreeState, n: nat)
    requires HoldsWide(t, n)
    ensures Route(WideKeys(n), n + 1) == LeafCount(n) - 1
    ensures RoutedEntries(t, n + 1) == WideLeaf(n, LeafCount(n) - 1) && |t.chain| == LeafCount(n)
  {
    hide StateOk;
    AlignedRouting(t, n + 1);
    RouteUnique(WideKeys(n), n + 1, LeafCount(n) - 1);
    assert |LeavesOf(t)| == |t.chain|;
  }

  /** The next entry goes to the end of the last leaf and splits it once there are two. */
  lemma WideInserted(n: nat)
    ensures var es := WideLeaf(n, LeafCount(n) - 1);
            && !Holds(es, Wide(n + 1)) && Inserted(es, Wide(n + 1)) == es + [Wide(n + 1)]
            && Bytes(es) == 1400 * |es| && |es| == if n < 2 then n else 2
  {
    var es := WideLeaf(n, LeafCount(n) - 1);
    InsertPosUnique(es, Wide(n + 1), |es|);
    assert es[..|es|] == es && es[|es|..] == [];
    BytesBounds(es, 1400, 1400);
  }

  lemma WideAccepted(t: TreeState, n: nat)
    requires HoldsWide(t, n) && n < 129
    ensures Accepts(t, Wide(n + 1))
  {
    hide Inserted, Holds, Bytes, StateOk, InOrder;
    WideRouted(t, n);
    WideInserted(n);
    var es := WideLeaf(n, LeafCount(n) - 1);
    var ins := es + [Wide(n + 1)];
    BytesBounds(LeftHalf(ins), 1400, 1400);
    BytesBounds(RightHalf(ins), 1400, 1400);
  }

  lemma WideShape(n: nat, keys: seq<Key>, ls: seq<seq<Entry>>)
    requires ShapeAfter(WideKeys(n), WideLeaves(n), LeafCount(n) - 1,
                        WideLeaf(n, LeafCount(n) - 1) + [Wide(n + 1)], keys, ls)
    ensures keys == WideKeys(n + 1) && ls == WideLeaves(n + 1)
  {
    hide Inserted, InsertPos, Holds, Bytes;
    WideInserted(n);
    var ins := WideLeaf(n, LeafCount(n) - 1) + [Wide(n + 1)];
    BytesBounds(ins, 1400, 1400);
    if n >= 2 {
      assert LeftHalf(ins) == [Wide(n - 1)] && RightHalf(ins) == [Wide(n), Wide(n + 1)];
    }
    forall i: nat | i < |ls| ensures ls[i] == WideLeaves(n + 1)[i] {
    }
  }

  lemma WideStep(t: TreeState, t': TreeState, n: nat)
    requires HoldsWide(t, n) && PutStep(t, t', Wide(n + 1))
    ensures HoldsWide(t', n + 1)
  {
    hide Inserted, InsertPos, Holds, Overflows, OwnershipKept, CleanCut, StateOk, Ordered, Grown, ShapeAfter;
    hide WideLeaf, WideLeaves, WideKeys;
    WideRouted(t, n);
    WideInserted(n);
    WideShape(n, SepsOf(t'), LeavesOf(t'));
    WideCut(t, n);
  }

  lemma WideCut(t: TreeState, n: nat)
    requires HoldsWide(t, n)
    ensures CutsBetweenKeys(t.nodes, t.root, Wide(n + 1))
  {
    hide Inserted, Holds, StateOk, InOrder;
    WideRouted(t, n);
    WideInserted(n);
    WideCleanCut(n);
  }

  lemma WideCleanCut(n: nat)
    ensures var ins := WideLeaf(n, LeafCount(n) - 1) + [Wide(n + 1)]; CleanCut(LeftHalf(ins), RightHalf(ins))
  {
  }

  lemma WideStart(t: TreeState)
    requires StateOk(t) && InOrder(t) && |t.chain| == 1 && Contents(t) == []
    ensures HoldsWide(t, 0)
  {
    hide StateOk;
    EmptyLeaf(t);
    EmptyTreeSeps(t);
  }

  method PutWide(tree: BTree, n: nat)
    requires n < 129 && tree.Valid() && HoldsWide(tree.State(), n)
    modifies tree, tree.pager, tree.pager.allocator
    ensures tree.Valid() && HoldsWide(tree.State(), n + 1)
  {
    hide PutStep, StoredStep, Accepts, HoldsWide;
    ghost var t := tree.State();
    WideAccepted(t, n);
    var r := tree.PutVersion(Wide(n + 1));
    WideStep(t, tree.State(), n);
    PutKeepsValid(t, tree.State(), Wide(n + 1));
  }

  /** Puts 129 entries of 1400 bytes into a new tree: every put returns, and the root has 128 leaves. */
  method GrowTo128() returns (tree: BTree)
    ensures fresh(tree) && fresh(tree.pager) && fresh(tree.pager.allocator)
    ensures tree.Valid() && HoldsWide(tree.State(), 129) && |tree.chain| == 128
  {
    hide HoldsWide;
    var pager := new Pager();
    tree := new BTree.CreateNew(pager);
    WideStart(tree.State());
    var i := 0;
    while i < 129
      invariant i <= 129 && tree.Valid() && HoldsWide(tree.State(), i)
      invariant fresh(tree) && fresh(tree.pager) && fresh(tree.pager.allocator)
    {
      PutWide(tree, i);
      i := i + 1;
    }
    WideRouted(tree.State(), 129);
  }

  /** The 130th such put would bring a 129th leaf: it throws. */
  method OneTooMany() returns (r: PutResult)
    ensures r.ParentNotFound?
  {
    hide HoldsWide, LostParentStep, StoredStep, OverflowStep;
    var tree := GrowTo128();
    WideOverflows(tree.State());
    r := tree.Put(Wide(130));
  }

  lemma WideOverflows(t: TreeState)
    requires HoldsWide(t, 129)
    ensures var es := RoutedEntries(t, 130);
            var ins := Inserted(es, Wide(130));
            !Holds(es, Wide(130)) && Overflows(ins) && HalvesFit(ins)
  {
    hide Inserted, Holds, Bytes, StateOk, InOrder;
    WideRouted(t, 129);
    WideInserted(129);
    var ins := WideLeaf(129, 127) + [Wide(130)];
    BytesBounds(ins, 1400, 1400);
    BytesBounds(LeftHalf(ins), 1400, 1400);
    BytesBounds(RightHalf(ins), 1400, 1400);
  }
}
