/** How a leaf split followed by a root update carries one reachable tree to the next. */
module TreeGrowth {
  import opened Versions
  import opened Bands
  import opened BuddyPool
  import opened TreeShape

  /** Pages outside the chain do not matter to the chain. */
  lemma OutsideChain(nodes: Nodes, nodes': Nodes, chain: seq<PageId>)
    requires forall i :: 0 <= i < |chain| && chain[i] in nodes ==>
             chain[i] in nodes' && nodes'[chain[i]] == nodes[chain[i]]
    requires Linked(nodes, chain)
    ensures Linked(nodes', chain) && Leaves(nodes', chain) == Leaves(nodes, chain)
  {
    forall i | 0 <= i < |chain| ensures LinkedAt(nodes', chain, i) {
      assert LinkedAt(nodes, chain, i);
    }
    forall i | 0 <= i < |chain| ensures Leaves(nodes', chain)[i] == Leaves(nodes, chain)[i] {
      assert LinkedAt(nodes, chain, i);
    }
  }

  /** What a put that overflows the leaf at position j of the chain needs of the tree. */
  ghost predicate CanSplit(nodes: Nodes, root: PageId, chain: seq<PageId>, j: nat, newId: PageId, e: Entry) {
    && TreeOk(nodes, root, chain) && j < |chain|
    && chain[j] == RoutedLeaf(nodes, root, e.key)
    && (Ordered(nodes, root, chain) ==> j == Route(SepKeys(nodes, root), e.key))
    && newId != 0 && newId !in chain && newId != root
    && !Holds(LeafEntries(nodes, chain[j]), e) && e.bytes >= MIN_ENTRY_BYTES
    && HalvesFit(Inserted(LeafEntries(nodes, chain[j]), e))
  }

  /** Whether putting e, if it splits a leaf, does not cut through the versions of one key. */
  predicate CutsBetweenKeys(nodes: Nodes, root: PageId, e: Entry) {
    var ins := Inserted(LeafEntries(nodes, RoutedLeaf(nodes, root, e.key)), e);
    Overflows(ins) ==> CleanCut(LeftHalf(ins), RightHalf(ins))
  }

  lemma SplitStep(nodes: Nodes, root: PageId, chain: seq<PageId>, j: nat, newId: PageId, e: Entry)
    requires CanSplit(nodes, root, chain, j, newId, e)
    ensures var ins := Inserted(LeafEntries(nodes, chain[j]), e);
            var nodes1 := NodesSplit(nodes, chain[j], newId, ins);
            var chain1 := ChainSplit(chain, j, newId);
            && Linked(nodes1, chain1)
            && multiset(Flat(nodes1, chain1)) == multiset(Flat(nodes, chain)) + multiset{e}
  {
    hide LeafOk, HalvesFit, Holds, Inserted, Overflows, Covers, Distinct, Ordered, Flat, NodesSplit, ChainSplit;
    assert LinkedAt(nodes, chain, j);
    var es := LeafEntries(nodes, chain[j]);
    HalvesOk(es, e);
    SplitLinked(nodes, chain, j, newId, Inserted(es, e));
    SplitConserves(nodes, chain, j, newId, e);
  }

  /** The leaf lists of an ordered tree after a split, and when they are banded by the new separators. */
  lemma OrderedSplit(nodes: Nodes, root: PageId, chain: seq<PageId>, j: nat, newId: PageId, e: Entry)
    requires CanSplit(nodes, root, chain, j, newId, e) && Ordered(nodes, root, chain)
    ensures var ins := Inserted(LeafEntries(nodes, chain[j]), e);
            var nodes1 := NodesSplit(nodes, chain[j], newId, ins);
            var chain1 := ChainSplit(chain, j, newId);
            var keys := SepKeys(nodes, root);
            var p := RightHalf(ins)[0].key;
            && j < |keys| && Route(keys, p) == j
            && Flat(nodes1, chain1) == Inserted(Flat(nodes, chain), e)
            && Leaves(nodes1, chain1)
               == Leaves(nodes, chain)[..j] + [LeftHalf(ins), RightHalf(ins)] + Leaves(nodes, chain)[j + 1..]
            && (Banded(keys[..j + 1] + [p] + keys[j + 1..], Leaves(nodes1, chain1))
                <==> CleanCut(LeftHalf(ins), RightHalf(ins)))
  {
    hide Inserted, InsertPos, Concat, CleanCut, Route;
    assert LinkedAt(nodes, chain, j);
    var es := LeafEntries(nodes, chain[j]);
    var ins := Inserted(es, e);
    var a, b := LeftHalf(ins), RightHalf(ins);
    var keys := SepKeys(nodes, root);
    var ls := Leaves(nodes, chain);
    assert ls[j] == es;
    BandedInsert(keys, ls, e);
    var ls1 := ls[j := ins];
    assert ins == a + b;
    BandedSplit(keys, ls1, j, a, b);
    SplitLeaves(nodes, chain, j, newId, ins);
    assert ls1[..j] == ls[..j] && ls1[j + 1..] == ls[j + 1..];
    ConcatHalves(ls, j, a, b);
    ConcatAround(ls1, j);
    assert InBand(keys, j, ls1[j]) && b[0] in ins;
    RouteUnique(keys, b[0].key, j);
  }

  /** A root leaf that overflows: its two halves under a new internal root. */
  lemma GrowRoot(nodes: Nodes, root: PageId, newId: PageId, newRoot: PageId, e: Entry)
    requires CanSplit(nodes, root, [root], 0, newId, e) && nodes[root].Leaf?
    requires Overflows(Inserted(LeafEntries(nodes, root), e))
    requires newRoot != 0 && newRoot != root && newRoot != newId
    ensures var ins := Inserted(LeafEntries(nodes, root), e);
            var seps := [Sep(NULL_KEY, root), Sep(RightHalf(ins)[0].key, newId)];
            var nodes2 := NodesSplit(nodes, root, newId, ins)[newRoot := Internal(seps)];
            && TreeOk(nodes2, newRoot, [root, newId])
            && multiset(Flat(nodes2, [root, newId])) == multiset(Flat(nodes, [root])) + multiset{e}
            && Flat(nodes2, [root, newId]) == Inserted(Flat(nodes, [root]), e)
            && Aligned(nodes2, newRoot, [root, newId])
            && ShapeAfter([NULL_KEY], Leaves(nodes, [root]), 0, ins, SepKeys(nodes2, newRoot),
               Leaves(nodes2, [root, newId]))
            && (Ordered(nodes2, newRoot, [root, newId]) <==> CleanCut(LeftHalf(ins), RightHalf(ins)))
  {
    hide Inserted, InsertPos, Concat, CleanCut, LeafOk, HalvesFit, Banded, Overflows, Holds;
    var chain := [root];
    var chain1 := ChainSplit(chain, 0, newId);
    assert chain1 == [root, newId];
    var ins := Inserted(LeafEntries(nodes, root), e);
    var seps := [Sep(NULL_KEY, root), Sep(RightHalf(ins)[0].key, newId)];
    var nodes1 := NodesSplit(nodes, root, newId, ins);
    var nodes2 := nodes1[newRoot := Internal(seps)];
    SplitStep(nodes, root, chain, 0, newId, e);
    OutsideChain(nodes1, nodes2, chain1);
    assert Children(seps) == chain1;
    LeafRootOrdered(nodes, root);
    OrderedSplit(nodes, root, chain, 0, newId, e);
    assert [NULL_KEY][..1] + [RightHalf(ins)[0].key] + [NULL_KEY][1..] == Keys(seps);
  }

  /** A tree that is one leaf is ordered. */
  lemma LeafRootOrdered(nodes: Nodes, root: PageId)
    requires TreeOk(nodes, root, [root]) && nodes[root].Leaf?
    ensures Ordered(nodes, root, [root])
  {
    assert LinkedAt(nodes, [root], 0);
    assert Leaves(nodes, [root]) == [nodes[root].entries];
  }

  /** A leaf under an internal root that overflows: the root gains one separator. */
  lemma AddChild(nodes: Nodes, root: PageId, chain: seq<PageId>, j: nat, newId: PageId, e: Entry)
    requires CanSplit(nodes, root, chain, j, newId, e)
    requires nodes[root].Internal? && |nodes[root].seps| < MAX_INTERNAL_ENTRIES
    requires Overflows(Inserted(LeafEntries(nodes, chain[j]), e))
    ensures var ins := Inserted(LeafEntries(nodes, chain[j]), e);
            var chain1 := ChainSplit(chain, j, newId);
            var seps := SepInserted(nodes[root].seps, RightHalf(ins)[0].key, newId);
            var nodes2 := NodesSplit(nodes, chain[j], newId, ins)[root := Internal(seps)];
            && TreeOk(nodes2, root, chain1)
            && multiset(Flat(nodes2, chain1)) == multiset(Flat(nodes, chain)) + multiset{e}
            && (Ordered(nodes, root, chain) ==>
                  && Flat(nodes2, chain1) == Inserted(Flat(nodes, chain), e)
                  && Aligned(nodes2, root, chain1)
                  && ShapeAfter(SepKeys(nodes, root), Leaves(nodes, chain), j, ins,
                                SepKeys(nodes2, root), Leaves(nodes2, chain1))
                  && (Ordered(nodes2, root, chain1) <==>
                      CleanCut(LeftHalf(ins), RightHalf(ins))))
  {
    hide Inserted, InsertPos, Concat, CleanCut, Route, SepPos, SepInserted, LeafOk, HalvesFit, Linked, LinkedAt, Banded;
    var ins := Inserted(LeafEntries(nodes, chain[j]), e);
    var chain1 := ChainSplit(chain, j, newId);
    var p := RightHalf(ins)[0].key;
    var seps0 := nodes[root].seps;
    var seps := SepInserted(seps0, p, newId);
    var nodes1 := NodesSplit(nodes, chain[j], newId, ins);
    var nodes2 := nodes1[root := Internal(seps)];
    SplitStep(nodes, root, chain, j, newId, e);
    assert root !in chain1;
    OutsideChain(nodes1, nodes2, chain1);
    SepInsertedCovers(seps0, chain, j, p, newId);
    if Ordered(nodes, root, chain) {
      OrderedSplit(nodes, root, chain, j, newId, e);
      SepInsertedKeys(seps0, p, newId, j);
      assert Children(seps) == chain1;
    }
  }

  /** A full root: the root is cut in half and the new half is lost, but the chain is complete. */
  lemma LoseParent(nodes: Nodes, root: PageId, chain: seq<PageId>, j: nat, newId: PageId, e: Entry,
                   extra: PageId, left: seq<Sep>, right: seq<Sep>)
    requires CanSplit(nodes, root, chain, j, newId, e) && nodes[root].Internal?
    requires extra !in chain && extra != newId && extra != root
    ensures var ins := Inserted(LeafEntries(nodes, chain[j]), e);
            var chain1 := ChainSplit(chain, j, newId);
            var nodes2 := NodesSplit(nodes, chain[j], newId, ins)[root := Internal(left)][extra := Internal(right)];
            && Linked(nodes2, chain1)
            && multiset(Flat(nodes2, chain1)) == multiset(Flat(nodes, chain)) + multiset{e}
  {
    hide Inserted, Holds, HalvesFit, Covers, Ordered, Concat, LeafOk, Overflows, Linked;
    var ins := Inserted(LeafEntries(nodes, chain[j]), e);
    var chain1 := ChainSplit(chain, j, newId);
    var nodes1 := NodesSplit(nodes, chain[j], newId, ins);
    SplitStep(nodes, root, chain, j, newId, e);
    assert root !in chain1 && extra !in chain1;
    OutsideChain(nodes1, nodes1[root := Internal(left)][extra := Internal(right)], chain1);
  }

  /** A put into a leaf with room, in an ordered tree, is an insertion into the sorted whole. */
  lemma OrderedInsert(nodes: Nodes, root: PageId, chain: seq<PageId>, j: nat, e: Entry)
    requires TreeOk(nodes, root, chain) && j < |chain| && Ordered(nodes, root, chain)
    requires j == Route(SepKeys(nodes, root), e.key)
    requires !Holds(LeafEntries(nodes, chain[j]), e)
    ensures var ins := Inserted(LeafEntries(nodes, chain[j]), e);
            var nodes' := nodes[chain[j] := Leaf(ins, RightOf(nodes, chain[j]))];
            && Ordered(nodes', root, chain)
            && Flat(nodes', chain) == Inserted(Flat(nodes, chain), e)
            && Leaves(nodes', chain) == Leaves(nodes, chain)[j := ins]
  {
    assert LinkedAt(nodes, chain, j);
    var ins := Inserted(LeafEntries(nodes, chain[j]), e);
    LeavesUpdate(nodes, chain, j, Leaf(ins, RightOf(nodes, chain[j])));
    BandedInsert(SepKeys(nodes, root), Leaves(nodes, chain), e);
  }

  // ----- whole steps -----

  /** A tree inside a file: its pages, and all the pages of the file that have an owner. */
  datatype TreeState = TreeState(nodes: Nodes, root: PageId, chain: seq<PageId>, owned: set<PageId>)

  function Pages(t: TreeState): set<PageId> {
    TreePages(t.root, t.chain)
  }

  /** All stored versions in sibling order. */
  function Contents(t: TreeState): seq<Entry> {
    Flat(t.nodes, t.chain)
  }

  ghost predicate StateOk(t: TreeState) {
    TreeOk(t.nodes, t.root, t.chain) && Pages(t) <= t.owned
  }

  /** The chain is intact and starts where the leftmost descent ends. */
  predicate Scannable(t: TreeState) {
    && Linked(t.nodes, t.chain) && t.root in t.nodes
    && match t.nodes[t.root]
       case Leaf(_, _) => t.root == t.chain[0]
       case Internal(seps) => seps != [] && seps[0].child == t.chain[0]
  }

  ghost predicate InOrder(t: TreeState) {
    Ordered(t.nodes, t.root, t.chain)
  }

  function RoutedEntries(t: TreeState, key: Key): seq<Entry> {
    LeafEntries(t.nodes, RoutedLeaf(t.nodes, t.root, key))
  }

  /** Whether a put of e returns: the version is there already, or its leaf need not split, or both
      halves fit their pages and the root has room for one more child. */
  predicate Accepts(t: TreeState, e: Entry) {
    var es := RoutedEntries(t, e.key);
    Holds(es, e) || !Overflows(Inserted(es, e)) || (HalvesFit(Inserted(es, e)) && |t.chain| != MAX_INTERNAL_ENTRIES)
  }

  /** Whether a put of e throws before it writes a page of the tree: the left half does not fit. */
  predicate RefusesLeft(t: TreeState, e: Entry) {
    !Accepts(t, e) && Bytes(LeftHalf(Inserted(RoutedEntries(t, e.key), e))) > LEAF_CAPACITY
  }

  /** Whether a put of e leaves an ordered tree ordered. */
  predicate KeepsOrder(t: TreeState, e: Entry) {
    Holds(RoutedEntries(t, e.key), e) || CutsBetweenKeys(t.nodes, t.root, e)
  }

  /** Pages of other owners keep their contents. */
  predicate OthersUntouched(t: TreeState, t': TreeState) {
    forall p :: p in t.owned && p !in Pages(t) && p in t.nodes ==> p in t'.nodes && t'.nodes[p] == t.nodes[p]
  }

  /** The tree keeps its pages, and every page it gains comes fresh from the pager. */
  ghost predicate OwnershipKept(t: TreeState, t': TreeState) {
    && t.owned <= t'.owned && Pages(t) <= Pages(t')
    && Pages(t') - Pages(t) == t'.owned - t.owned
    && OthersUntouched(t, t')
  }

  /** The separators and leaves of an ordered tree after a put of a new version: the routed leaf grows,
      or its halves take its place with the first key of the right one as a new separator. */
  predicate Reshaped(t: TreeState, t': TreeState, e: Entry) {
    var keys, ls := SepKeys(t.nodes, t.root), Leaves(t.nodes, t.chain);
    && Aligned(t'.nodes, t'.root, t'.chain)
    && ShapeAfter(keys, ls, Route(keys, e.key), Inserted(RoutedEntries(t, e.key), e),
                  SepKeys(t'.nodes, t'.root), Leaves(t'.nodes, t'.chain))
  }

  predicate ShapeAfter(keys: seq<Key>, ls: seq<seq<Entry>>, r: nat, ins: seq<Entry>, keys': seq<Key>,
                       ls': seq<seq<Entry>>) {
    && r < |keys| == |ls| && ins != []
    && if Overflows(ins)
       then keys' == keys[..r + 1] + [RightHalf(ins)[0].key] + keys[r + 1..]
            && ls' == ls[..r] + [LeftHalf(ins), RightHalf(ins)] + ls[r + 1..]
       else keys' == keys && ls' == ls[r := ins]
  }

  /** What becomes of the routed leaf: it grows, or its two halves take its place. */
  predicate FromRouted(ins: seq<Entry>, es: seq<Entry>) {
    if Overflows(ins) then es == LeftHalf(ins) || es == RightHalf(ins) else es == ins
  }

  predicate KeyAdded(keys: seq<Key>, q: nat, p: Key, keys': seq<Key>) {
    q <= |keys| && keys' == keys[..q] + [p] + keys[q..]
  }

  /** Leaves and separators after a put of a new version, in any tree, ordered or not: every leaf is
      an old one or comes from the routed one, and a split adds exactly one separator. */
  ghost predicate Grown(t: TreeState, t': TreeState, e: Entry) {
    var ins := Inserted(RoutedEntries(t, e.key), e);
    var keys, keys' := SepKeys(t.nodes, t.root), SepKeys(t'.nodes, t'.root);
    && RoutedEntries(t, e.key) in Leaves(t.nodes, t.chain)
    && (forall es :: es in Leaves(t'.nodes, t'.chain) ==> es in Leaves(t.nodes, t.chain) || FromRouted(ins, es))
    && if Overflows(ins) then exists q: nat :: KeyAdded(keys, q, RightHalf(ins)[0].key, keys') else keys' == keys
  }

  /** What a put that returns true does. */
  ghost predicate StoredStep(t: TreeState, t': TreeState, e: Entry) {
    && StateOk(t') && Grown(t, t', e)
    && multiset(Contents(t')) == multiset(Contents(t)) + multiset{e}
    && (InOrder(t) ==>
          && Contents(t') == Inserted(Contents(t), e) && Reshaped(t, t', e)
          && (InOrder(t') <==> CutsBetweenKeys(t.nodes, t.root, e)))
    && OwnershipKept(t, t')
  }

  /** What a put that returns does, whether it returns true or false. */
  ghost predicate PutStep(t: TreeState, t': TreeState, e: Entry) {
    if Holds(RoutedEntries(t, e.key), e) then t' == t else StoredStep(t, t', e)
  }

  /** What a put that fails to find the parent leaves behind: the new version is in the chain. */
  ghost predicate LostParentStep(t: TreeState, t': TreeState, e: Entry) {
    && Scannable(t')
    && multiset(Contents(t')) == multiset(Contents(t)) + multiset{e}
    && t.owned <= t'.owned && OthersUntouched(t, t')
    && (InOrder(t) ==> HalfRooted(t, t', e))
  }

  /** The chain is that of a split, but the root holds the first half of the separators only. */
  predicate HalfRooted(t: TreeState, t': TreeState, e: Entry) {
    var keys := SepKeys(t.nodes, t.root);
    HalfRootedAt(keys, Leaves(t.nodes, t.chain), Route(keys, e.key), Inserted(RoutedEntries(t, e.key), e), t')
  }

  predicate HalfRootedAt(keys: seq<Key>, ls: seq<seq<Entry>>, r: nat, ins: seq<Entry>, t: TreeState) {
    && r < |keys| == |ls| && ins != []
    && HalfAfter(SplitKeys(keys, r, RightHalf(ins)[0].key), t)
    && Leaves(t.nodes, t.chain) == ls[..r] + [LeftHalf(ins), RightHalf(ins)] + ls[r + 1..]
  }

  function SplitKeys(keys: seq<Key>, r: nat, p: Key): (keys1: seq<Key>)
    requires r < |keys|
    ensures |keys1| == |keys| + 1
  {
    keys[..r + 1] + [p] + keys[r + 1..]
  }

  predicate HalfAfter(keys: seq<Key>, t: TreeState) {
    && t.root in t.nodes && t.nodes[t.root].Internal? && |t.chain| == |keys|
    && Keys(t.nodes[t.root].seps) == keys[..|keys| / 2]
    && Children(t.nodes[t.root].seps) == t.chain[..|keys| / 2]
  }

  /** The chain up to a split leaf that lost its right half: the leaf and an empty new page after it. */
  function ChainCut(chain: seq<PageId>, j: nat, newId: PageId): seq<PageId>
    requires j < |chain|
  {
    chain[..j + 1] + [newId]
  }

  /** The same tree on the same pages with the same contents. */
  predicate SameTree(t: TreeState, t': TreeState) {
    && t'.root == t.root && t'.chain == t.chain
    && forall p :: p in Pages(t) && p in t.nodes ==> p in t'.owned && p in t'.nodes && t'.nodes[p] == t.nodes[p]
  }

  /** What is left along the chain when the right half of the leaf at position j was never written. */
  predicate CutAt(t: TreeState, t': TreeState, j: nat, left: seq<Entry>) {
    j < |t.chain| && Scannable(t') && Contents(t') == Flat(t.nodes, t.chain[..j]) + left
  }

  /** What a put leaves behind that throws because a half does not fit: the tree as it was if the
      left half does not fit, and otherwise a chain that ends after the left half. */
  ghost predicate OverflowStep(t: TreeState, t': TreeState, e: Entry) {
    var left := LeftHalf(Inserted(RoutedEntries(t, e.key), e));
    && t.owned <= t'.owned && OthersUntouched(t, t')
    && if Bytes(left) > LEAF_CAPACITY
       then StateOk(t') && SameTree(t, t') && Contents(t') == Contents(t)
       else exists j: nat :: CutAt(t, t', j, left) && t.chain[j] == RoutedLeaf(t.nodes, t.root, e.key)
  }

  /** What a put that throws leaves behind. */
  ghost predicate FailedStep(t: TreeState, t': TreeState, e: Entry) {
    if HalvesFit(Inserted(RoutedEntries(t, e.key), e)) then LostParentStep(t, t', e) else OverflowStep(t, t', e)
  }

  lemma CutLinked(nodes: Nodes, chain: seq<PageId>, j: nat, newId: PageId, left: seq<Entry>)
    requires Linked(nodes, chain) && j < |chain| && newId != 0 && newId !in chain && LeafOk(left)
    ensures var nodes' := nodes[newId := Leaf([], 0)][chain[j] := Leaf(left, newId)];
            && Linked(nodes', ChainCut(chain, j, newId))
            && Leaves(nodes', ChainCut(chain, j, newId)) == Leaves(nodes, chain[..j]) + [left] + [[]]
  {
    var nodes' := nodes[newId := Leaf([], 0)][chain[j] := Leaf(left, newId)];
    var chain' := ChainCut(chain, j, newId);
    assert Bytes([]) == 0;
    forall i | 0 <= i < |chain'| ensures LinkedAt(nodes', chain', i) {
      if i <= j {
        assert LinkedAt(nodes, chain, i);
        assert chain'[i] == chain[i] && chain[i] != newId && (i < j ==> chain[i] != chain[j]);
      }
    }
    forall i | 0 <= i < |chain'| ensures Leaves(nodes', chain')[i] == (Leaves(nodes, chain[..j]) + [left] + [[]])[i] {
      assert i <= j ==> chain'[i] == chain[i] && chain[i] != newId && (i < j ==> chain[i] != chain[j]);
    }
  }

  /** A left half that does not fit leaves the tree alone. */
  lemma OverflowLeft(t: TreeState, newId: PageId, e: Entry)
    requires StateOk(t) && newId !in t.owned
    requires Bytes(LeftHalf(Inserted(RoutedEntries(t, e.key), e))) > LEAF_CAPACITY
    ensures OverflowStep(t, t.(nodes := t.nodes[newId := Leaf([], 0)], owned := t.owned + {newId}), e)
  {
    hide Inserted, InsertPos, Bytes, LeafOk;
    OutsideChain(t.nodes, t.nodes[newId := Leaf([], 0)], t.chain);
    assert newId !in Pages(t);
  }

  /** A right half that does not fit is lost, with every version behind it in the chain. */
  lemma OverflowRight(t: TreeState, j: nat, newId: PageId, e: Entry)
    requires StateOk(t) && newId !in t.owned && newId != 0
    requires j < |t.chain| && t.chain[j] == RoutedLeaf(t.nodes, t.root, e.key) && e.bytes >= MIN_ENTRY_BYTES
    requires !Holds(LeafEntries(t.nodes, t.chain[j]), e)
    requires var left := LeftHalf(Inserted(RoutedEntries(t, e.key), e)); Bytes(left) <= LEAF_CAPACITY
    ensures var left := LeftHalf(Inserted(RoutedEntries(t, e.key), e));
            var nodes' := t.nodes[newId := Leaf([], 0)][t.chain[j] := Leaf(left, newId)];
            OverflowStep(t, TreeState(nodes', t.root, ChainCut(t.chain, j, newId), t.owned + {newId}), e)
  {
    hide LeafOk, Bytes, Inserted, Holds, Distinct, Concat;
    var left := LeftHalf(Inserted(RoutedEntries(t, e.key), e));
    var nodes' := t.nodes[newId := Leaf([], 0)][t.chain[j] := Leaf(left, newId)];
    var t' := TreeState(nodes', t.root, ChainCut(t.chain, j, newId), t.owned + {newId});
    assert LinkedAt(t.nodes, t.chain, j);
    LeftHalfOk(RoutedEntries(t, e.key), e);
    assert t.chain[j] in Pages(t);
    CutLinked(t.nodes, t.chain, j, newId, left);
    CutContents(Leaves(t.nodes, t.chain[..j]), left);
    assert CutAt(t, t', j, left);
  }

  lemma CutContents(ls: seq<seq<Entry>>, left: seq<Entry>)
    ensures Concat(ls + [left] + [[]]) == Concat(ls) + left
  {
    ConcatSplit(ls + [left], [[]]);
    ConcatSplit(ls, [left]);
    ConcatOne(left);
    ConcatOne([]);
  }

  lemma HalvesOk(es: seq<Entry>, e: Entry)
    requires LeafOk(es) && !Holds(es, e) && e.bytes >= MIN_ENTRY_BYTES && HalvesFit(Inserted(es, e))
    ensures LeafOk(LeftHalf(Inserted(es, e))) && LeafOk(RightHalf(Inserted(es, e)))
  {
    hide Inserted, Holds, Bytes;
    var ins := Inserted(es, e);
    LeftHalfOk(es, e);
    InsertedSorted(es, e);
    assert ins == LeftHalf(ins) + RightHalf(ins);
    SortedParts(LeftHalf(ins), RightHalf(ins));
    InsertedMembers(es, e);
    InsertedMore(es, e);
  }

  lemma LeftHalfOk(es: seq<Entry>, e: Entry)
    requires LeafOk(es) && !Holds(es, e) && e.bytes >= MIN_ENTRY_BYTES
    requires Bytes(LeftHalf(Inserted(es, e))) <= LEAF_CAPACITY
    ensures LeafOk(LeftHalf(Inserted(es, e)))
  {
    hide Inserted, Holds, Bytes;
    var ins := Inserted(es, e);
    InsertedSorted(es, e);
    InsertedMore(es, e);
    assert ins == LeftHalf(ins) + RightHalf(ins);
    SortedParts(LeftHalf(ins), RightHalf(ins));
    InsertedMembers(es, e);
  }

  lemma StoreInLeaf(t: TreeState, j: nat, e: Entry)
    requires StateOk(t) && j < |t.chain| && t.chain[j] == RoutedLeaf(t.nodes, t.root, e.key)
    requires InOrder(t) ==> j == Route(SepKeys(t.nodes, t.root), e.key)
    requires var es := LeafEntries(t.nodes, t.chain[j]);
             !Holds(es, e) && e.bytes >= MIN_ENTRY_BYTES && !Overflows(Inserted(es, e))
    ensures var ins := Inserted(LeafEntries(t.nodes, t.chain[j]), e);
            StoredStep(t, t.(nodes := t.nodes[t.chain[j] := Leaf(ins, RightOf(t.nodes, t.chain[j]))]), e)
  {
    hide Grown, Inserted, InsertPos, Concat, Banded, Bytes, Holds, Overflows, Route, LeafOk;
    assert LinkedAt(t.nodes, t.chain, j);
    InsertIntoLeaf(t.nodes, t.root, t.chain, j, e);
    GrownInLeaf(t, j, e);
    if InOrder(t) {
      OrderedInsert(t.nodes, t.root, t.chain, j, e);
    }
  }

  lemma GrownInLeaf(t: TreeState, j: nat, e: Entry)
    requires StateOk(t) && j < |t.chain| && t.chain[j] == RoutedLeaf(t.nodes, t.root, e.key)
    requires !Overflows(Inserted(LeafEntries(t.nodes, t.chain[j]), e))
    ensures var ins := Inserted(LeafEntries(t.nodes, t.chain[j]), e);
            Grown(t, t.(nodes := t.nodes[t.chain[j] := Leaf(ins, RightOf(t.nodes, t.chain[j]))]), e)
  {
    hide Inserted, InsertPos, Overflows, LeafOk, Covers, Route;
    assert LinkedAt(t.nodes, t.chain, j);
    var ls, ins := Leaves(t.nodes, t.chain), Inserted(LeafEntries(t.nodes, t.chain[j]), e);
    LeavesUpdate(t.nodes, t.chain, j, Leaf(ins, RightOf(t.nodes, t.chain[j])));
    assert ls[j] == RoutedEntries(t, e.key);
    UpdateMembers(ls, j, ins);
  }

  lemma UpdateMembers(ls: seq<seq<Entry>>, j: nat, ins: seq<Entry>)
    requires j < |ls|
    ensures forall es :: es in ls[j := ins] ==> es in ls || es == ins
  {
  }

  lemma SplitMembers(ls: seq<seq<Entry>>, j: nat, a: seq<Entry>, b: seq<Entry>)
    requires j < |ls|
    ensures forall es :: es in ls[..j] + [a, b] + ls[j + 1..] ==> es in ls || es == a || es == b
  {
  }

  /** The leaves of a split, whatever the root becomes. */
  lemma GrownLeaves(t: TreeState, t': TreeState, j: nat, newId: PageId, e: Entry)
    requires CanSplit(t.nodes, t.root, t.chain, j, newId, e)
    requires var ins := Inserted(LeafEntries(t.nodes, t.chain[j]), e);
             && Overflows(ins) && t'.chain == ChainSplit(t.chain, j, newId)
             && Leaves(t'.nodes, t'.chain) == Leaves(NodesSplit(t.nodes, t.chain[j], newId, ins), t'.chain)
    requires exists q: nat ::
               KeyAdded(SepKeys(t.nodes, t.root), q, RightHalf(Inserted(LeafEntries(t.nodes, t.chain[j]), e))[0].key,
                        SepKeys(t'.nodes, t'.root))
    ensures Grown(t, t', e)
  {
    hide Inserted, InsertPos, Overflows, LeafOk, Covers, Route, Ordered, HalvesFit, KeyAdded;
    assert LinkedAt(t.nodes, t.chain, j);
    var ls, ins := Leaves(t.nodes, t.chain), Inserted(LeafEntries(t.nodes, t.chain[j]), e);
    assert ls[j] == RoutedEntries(t, e.key);
    SplitLeaves(t.nodes, t.chain, j, newId, ins);
    SplitMembers(ls, j, LeftHalf(ins), RightHalf(ins));
  }

  /** The state after the leaf split and the parent update, by kind of root. */
  lemma StoreSplittingRoot(t: TreeState, newId: PageId, newRoot: PageId, e: Entry)
    requires CanSplit(t.nodes, t.root, t.chain, 0, newId, e) && StateOk(t) && t.nodes[t.root].Leaf?
    requires Overflows(Inserted(LeafEntries(t.nodes, t.root), e))
    requires newId !in t.owned && newRoot !in t.owned && newRoot != newId && newRoot != 0
    ensures var ins := Inserted(LeafEntries(t.nodes, t.root), e);
            var seps := [Sep(NULL_KEY, t.root), Sep(RightHalf(ins)[0].key, newId)];
            var nodes2 := NodesSplit(t.nodes, t.root, newId, ins)[newRoot := Internal(seps)];
            StoredStep(t, TreeState(nodes2, newRoot, ChainSplit(t.chain, 0, newId), t.owned + {newId} + {newRoot}), e)
  {
    hide Ordered, CleanCut, Flat, HalvesFit, Overflows, Linked, LinkedAt, LeafOk, Holds, Inserted, InsertPos, Concat;
    hide Bytes;
    hide ShapeAfter, OwnershipKept, Covers, NodesSplit;
    var ins := Inserted(LeafEntries(t.nodes, t.root), e);
    var seps := [Sep(NULL_KEY, t.root), Sep(RightHalf(ins)[0].key, newId)];
    var nodes2 := NodesSplit(t.nodes, t.root, newId, ins)[newRoot := Internal(seps)];
    var t' := TreeState(nodes2, newRoot, ChainSplit(t.chain, 0, newId), t.owned + {newId} + {newRoot});
    assert t.chain == [t.root] && t'.chain == [t.root, newId];
    assert SepKeys(t.nodes, t.root) == [NULL_KEY];
    GrowRoot(t.nodes, t.root, newId, newRoot, e);
    GrownPages(t, t', newId, newRoot, ins, seps);
    GrownRootLeaf(t, newId, newRoot, e);
    LeafRootOrdered(t.nodes, t.root);
  }

  lemma GrownRootLeaf(t: TreeState, newId: PageId, newRoot: PageId, e: Entry)
    requires CanSplit(t.nodes, t.root, t.chain, 0, newId, e) && StateOk(t) && t.nodes[t.root].Leaf?
    requires Overflows(Inserted(LeafEntries(t.nodes, t.root), e))
    requires newRoot !in t.owned && newRoot != newId
    ensures var ins := Inserted(LeafEntries(t.nodes, t.root), e);
            var seps := [Sep(NULL_KEY, t.root), Sep(RightHalf(ins)[0].key, newId)];
            var nodes2 := NodesSplit(t.nodes, t.root, newId, ins)[newRoot := Internal(seps)];
            Grown(t, TreeState(nodes2, newRoot, ChainSplit(t.chain, 0, newId), t.owned + {newId} + {newRoot}), e)
  {
    hide Grown, Ordered, InsertPos, LeafOk, Overflows, HalvesFit, Covers;
    assert t.chain == [t.root];
    var ins := Inserted(LeafEntries(t.nodes, t.root), e);
    var p := RightHalf(ins)[0].key;
    var seps := [Sep(NULL_KEY, t.root), Sep(p, newId)];
    var nodes1 := NodesSplit(t.nodes, t.root, newId, ins);
    var t' := TreeState(nodes1[newRoot := Internal(seps)], newRoot, ChainSplit(t.chain, 0, newId),
                        t.owned + {newId} + {newRoot});
    assert t.root in Pages(t) && t'.chain == [t.root, newId];
    assert Leaves(t'.nodes, t'.chain) == Leaves(nodes1, t'.chain);
    assert SepKeys(t.nodes, t.root) == [NULL_KEY] && SepKeys(t'.nodes, t'.root) == [NULL_KEY, p];
    assert KeyAdded(SepKeys(t.nodes, t.root), 1, p, SepKeys(t'.nodes, t'.root));
    GrownLeaves(t, t', 0, newId, e);
  }

  lemma RootOutside(t: TreeState, nodes: Nodes, j: nat, newId: PageId, seps: seq<Sep>)
    requires StateOk(t) && t.nodes[t.root].Internal? && j < |t.chain| && newId !in t.owned
    ensures var chain1 := ChainSplit(t.chain, j, newId);
            Leaves(nodes[t.root := Internal(seps)], chain1) == Leaves(nodes, chain1)
  {
    hide Linked, Covers;
    assert t.root in Pages(t) && t.root !in ChainSplit(t.chain, j, newId);
  }

  lemma GrownChild(t: TreeState, j: nat, newId: PageId, e: Entry)
    requires CanSplit(t.nodes, t.root, t.chain, j, newId, e) && StateOk(t) && t.nodes[t.root].Internal?
    requires Overflows(Inserted(LeafEntries(t.nodes, t.chain[j]), e)) && newId !in t.owned
    ensures var ins := Inserted(LeafEntries(t.nodes, t.chain[j]), e);
            var seps := SepInserted(t.nodes[t.root].seps, RightHalf(ins)[0].key, newId);
            var nodes2 := NodesSplit(t.nodes, t.chain[j], newId, ins)[t.root := Internal(seps)];
            Grown(t, TreeState(nodes2, t.root, ChainSplit(t.chain, j, newId), t.owned + {newId}), e)
  {
    hide Grown, Ordered, InsertPos, LeafOk, Overflows, HalvesFit, Covers;
    var ins := Inserted(LeafEntries(t.nodes, t.chain[j]), e);
    var p := RightHalf(ins)[0].key;
    var seps0 := t.nodes[t.root].seps;
    var seps := SepInserted(seps0, p, newId);
    var nodes1, chain1 := NodesSplit(t.nodes, t.chain[j], newId, ins), ChainSplit(t.chain, j, newId);
    var t' := TreeState(nodes1[t.root := Internal(seps)], t.root, chain1, t.owned + {newId});
    assert Leaves(t'.nodes, chain1) == Leaves(nodes1, chain1) by { RootOutside(t, nodes1, j, newId, seps); }
    assert SepKeys(t'.nodes, t'.root) == Keys(seps);
    KeysAround(seps0, SepPos(seps0, p), Sep(p, newId));
    assert KeyAdded(SepKeys(t.nodes, t.root), SepPos(seps0, p), p, SepKeys(t'.nodes, t'.root));
    GrownLeaves(t, t', j, newId, e);
  }

  lemma GrownPages(t: TreeState, t': TreeState, newId: PageId, newRoot: PageId, ins: seq<Entry>, seps: seq<Sep>)
    requires t.chain == [t.root] && t'.chain == [t.root, newId] && t'.root == newRoot
    requires newId !in t.owned && newRoot !in t.owned && newRoot != newId && t.root in t.owned
    requires t'.owned == t.owned + {newId} + {newRoot}
    requires t'.nodes == NodesSplit(t.nodes, t.root, newId, ins)[newRoot := Internal(seps)]
    ensures OwnershipKept(t, t') && Pages(t') <= t'.owned
  {
    assert Pages(t) == {t.root} && Pages(t') == {t.root, newId, newRoot};
  }

  lemma StoreSplitting(t: TreeState, j: nat, newId: PageId, e: Entry)
    requires CanSplit(t.nodes, t.root, t.chain, j, newId, e) && StateOk(t)
    requires t.nodes[t.root].Internal? && |t.nodes[t.root].seps| < MAX_INTERNAL_ENTRIES
    requires Overflows(Inserted(LeafEntries(t.nodes, t.chain[j]), e))
    requires newId !in t.owned
    ensures var ins := Inserted(LeafEntries(t.nodes, t.chain[j]), e);
            var seps := SepInserted(t.nodes[t.root].seps, RightHalf(ins)[0].key, newId);
            var nodes2 := NodesSplit(t.nodes, t.chain[j], newId, ins)[t.root := Internal(seps)];
            StoredStep(t, TreeState(nodes2, t.root, ChainSplit(t.chain, j, newId), t.owned + {newId}), e)
  {
    hide Ordered, CleanCut, Flat, HalvesFit, Overflows, Linked, LinkedAt, LeafOk, Holds, Inserted, InsertPos, Concat;
    hide Bytes, ShapeAfter, Covers, NodesSplit, SepInserted, Grown, OwnershipKept;
    var ins := Inserted(LeafEntries(t.nodes, t.chain[j]), e);
    AddChild(t.nodes, t.root, t.chain, j, newId, e);
    GrownChild(t, j, newId, e);
    ChildPages(t, j, newId, ins, SepInserted(t.nodes[t.root].seps, RightHalf(ins)[0].key, newId));
  }

  lemma ChildPages(t: TreeState, j: nat, newId: PageId, ins: seq<Entry>, seps: seq<Sep>)
    requires StateOk(t) && j < |t.chain| && newId !in t.owned
    ensures var nodes2 := NodesSplit(t.nodes, t.chain[j], newId, ins)[t.root := Internal(seps)];
            var t' := TreeState(nodes2, t.root, ChainSplit(t.chain, j, newId), t.owned + {newId});
            OwnershipKept(t, t') && Pages(t') <= t'.owned
  {
    hide TreeOk;
    SplitPages(t.root, t.chain, j, newId);
    assert t.chain[j] in Pages(t) && t.root in Pages(t);
  }

  lemma SplitPages(root: PageId, chain: seq<PageId>, j: nat, newId: PageId)
    requires j < |chain|
    ensures TreePages(root, ChainSplit(chain, j, newId)) == TreePages(root, chain) + {newId}
  {
    var chain1 := ChainSplit(chain, j, newId);
    assert chain1[j + 1] == newId;
    forall c | c in chain ensures c in chain1 {
      var i :| 0 <= i < |chain| && chain[i] == c;
      assert chain1[if i <= j then i else i + 1] == c;
    }
  }

  lemma LoseParentStep(t: TreeState, j: nat, newId: PageId, e: Entry, extra: PageId)
    requires CanSplit(t.nodes, t.root, t.chain, j, newId, e) && StateOk(t)
    requires t.nodes[t.root].Internal? && |t.nodes[t.root].seps| == MAX_INTERNAL_ENTRIES
    requires newId !in t.owned && extra !in t.owned && extra != newId
    ensures var ins := Inserted(LeafEntries(t.nodes, t.chain[j]), e);
            var all := SepInserted(t.nodes[t.root].seps, RightHalf(ins)[0].key, newId);
            var nodes2 := NodesSplit(t.nodes, t.chain[j], newId, ins)
                          [t.root := Internal(all[..|all| / 2])][extra := Internal(all[|all| / 2..])];
            LostParentStep(t, TreeState(nodes2, t.root, ChainSplit(t.chain, j, newId), t.owned + {newId} + {extra}), e)
  {
    hide Inserted, Distinct, Flat, Concat;
    hide Ordered, InsertPos, LeafOk, Covers, SepInserted, HalfRooted, HalvesFit, Holds;
    var ins := Inserted(LeafEntries(t.nodes, t.chain[j]), e);
    var p := RightHalf(ins)[0].key;
    var all := SepInserted(t.nodes[t.root].seps, p, newId);
    LoseParent(t.nodes, t.root, t.chain, j, newId, e, extra, all[..|all| / 2], all[|all| / 2..]);
    RootKept(t, j, newId, e);
    assert all[..|all| / 2][0] == all[0];
    if InOrder(t) {
      LoseHalf(t, j, newId, e, extra);
    }
  }

  lemma RootKept(t: TreeState, j: nat, newId: PageId, e: Entry)
    requires StateOk(t) && j < |t.chain| && t.nodes[t.root].Internal?
    ensures var p := RightHalf(Inserted(LeafEntries(t.nodes, t.chain[j]), e))[0].key;
            SepInserted(t.nodes[t.root].seps, p, newId)[0].child == ChainSplit(t.chain, j, newId)[0]
  {
    hide Inserted, InsertPos;
    SepInsertedCovers(t.nodes[t.root].seps, t.chain, j,
                      RightHalf(Inserted(LeafEntries(t.nodes, t.chain[j]), e))[0].key, newId);
  }

  lemma LoseHalf(t: TreeState, j: nat, newId: PageId, e: Entry, extra: PageId)
    requires CanSplit(t.nodes, t.root, t.chain, j, newId, e) && StateOk(t) && InOrder(t)
    requires t.nodes[t.root].Internal? && extra !in t.owned && extra != newId
    ensures var ins := Inserted(LeafEntries(t.nodes, t.chain[j]), e);
            var all := SepInserted(t.nodes[t.root].seps, RightHalf(ins)[0].key, newId);
            var nodes2 := NodesSplit(t.nodes, t.chain[j], newId, ins)
                          [t.root := Internal(all[..|all| / 2])][extra := Internal(all[|all| / 2..])];
            HalfRooted(t, TreeState(nodes2, t.root, ChainSplit(t.chain, j, newId), t.owned + {newId} + {extra}), e)
  {
    hide Inserted, HalvesFit, Distinct, OwnershipKept, Flat;
    hide InsertPos, LeafOk, HalvesFit, Holds, Banded, SepInserted, Concat;
    var ins := Inserted(LeafEntries(t.nodes, t.chain[j]), e);
    var p := RightHalf(ins)[0].key;
    var seps := t.nodes[t.root].seps;
    var all := SepInserted(seps, p, newId);
    var nodes1, chain1 := NodesSplit(t.nodes, t.chain[j], newId, ins), ChainSplit(t.chain, j, newId);
    var nodes2: Nodes := nodes1[t.root := Internal(all[..|all| / 2])][extra := Internal(all[|all| / 2..])];
    assert t.root in Pages(t) && forall i :: 0 <= i < |t.chain| ==> t.chain[i] in Pages(t);
    assert Leaves(nodes2, chain1) == Leaves(nodes1, chain1);
    OrderedSplit(t.nodes, t.root, t.chain, j, newId, e);
    SepInsertedKeys(seps, p, newId, j);
    HalfKeys(all);
  }

  lemma HalfKeys(seps: seq<Sep>)
    ensures Keys(seps[..|seps| / 2]) == Keys(seps)[..|seps| / 2]
    ensures Children(seps[..|seps| / 2]) == Children(seps)[..|seps| / 2]
  {
  }
}
