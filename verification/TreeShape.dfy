/**
 The pages of one B+tree: what a reachable tree looks like, and how inserting, splitting a
 leaf and adding a separator change it. A reachable tree is one leaf, or one internal root
 over leaves; `chain` lists the leaves in sibling order.
 */
module TreeShape {
  import opened Versions
  import opened Bands
  import opened BuddyPool

  const MAX_LEAF_ENTRIES: nat := 64
  const MAX_INTERNAL_ENTRIES: nat := 128
  /** Bytes of a page available to entries: 4088 payload bytes less the 8-byte node header. */
  const LEAF_CAPACITY: nat := 4080
  /** A leaf is split once its entries exceed the payload size less 64. */
  const SPLIT_BYTES: nat := 4024
  /** Null key, stamps, flag, length prefix and an empty tuple. */
  const MIN_ENTRY_BYTES: nat := 26
  /** No leaf page overflows as long as every entry stays at or below this size. */
  const SAFE_ENTRY_BYTES: nat := 313

  datatype Sep = Sep(key: Key, child: PageId)
  datatype Node = Leaf(entries: seq<Entry>, right: PageId) | Internal(seps: seq<Sep>)
  type Nodes = map<PageId, Node>

  function Bytes(es: seq<Entry>): nat {
    if es == [] then 0 else Bytes(es[..|es| - 1]) + es[|es| - 1].bytes
  }

  predicate LeafOk(es: seq<Entry>) {
    && Sorted(es) && |es| <= MAX_LEAF_ENTRIES && Bytes(es) <= LEAF_CAPACITY
    && forall e :: e in es ==> e.bytes >= MIN_ENTRY_BYTES
  }

  function RightOf(nodes: Nodes, id: PageId): PageId {
    if id in nodes && nodes[id].Leaf? then nodes[id].right else 0
  }

  function LeafEntries(nodes: Nodes, id: PageId): seq<Entry> {
    if id in nodes && nodes[id].Leaf? then nodes[id].entries else []
  }

  function Leaves(nodes: Nodes, chain: seq<PageId>): (ls: seq<seq<Entry>>)
    ensures |ls| == |chain|
  {
    seq(|chain|, i requires 0 <= i < |chain| => LeafEntries(nodes, chain[i]))
  }

  /** Everything stored in the tree, in sibling order. */
  function Flat(nodes: Nodes, chain: seq<PageId>): seq<Entry> {
    Concat(Leaves(nodes, chain))
  }

  predicate Distinct(ids: seq<PageId>) {
    forall i, j :: 0 <= i < j < |ids| ==> ids[i] != ids[j]
  }

  function NextInChain(chain: seq<PageId>, i: nat): PageId {
    if i + 1 < |chain| then chain[i + 1] else 0
  }

  predicate LinkedAt(nodes: Nodes, chain: seq<PageId>, i: nat)
    requires i < |chain|
  {
    && chain[i] != 0 && chain[i] in nodes && nodes[chain[i]].Leaf?
    && nodes[chain[i]].right == NextInChain(chain, i)
    && LeafOk(nodes[chain[i]].entries)
  }

  /** The sibling pointers run through exactly the leaves of the chain. */
  predicate Linked(nodes: Nodes, chain: seq<PageId>) {
    chain != [] && Distinct(chain) && forall i :: 0 <= i < |chain| ==> LinkedAt(nodes, chain, i)
  }

  function Children(seps: seq<Sep>): (ids: seq<PageId>)
    ensures |ids| == |seps|
  {
    seq(|seps|, i requires 0 <= i < |seps| => seps[i].child)
  }

  function Keys(seps: seq<Sep>): (keys: seq<Key>)
    ensures |keys| == |seps|
  {
    seq(|seps|, i requires 0 <= i < |seps| => seps[i].key)
  }

  /** The root's children are the leaves of the chain, each once, and the chain starts at the first. */
  predicate Covers(seps: seq<Sep>, chain: seq<PageId>) {
    && 1 <= |seps| <= MAX_INTERNAL_ENTRIES
    && chain != [] && seps[0] == Sep(NULL_KEY, chain[0])
    && multiset(Children(seps)) == multiset(chain)
  }

  predicate TreeOk(nodes: Nodes, root: PageId, chain: seq<PageId>) {
    && Linked(nodes, chain)
    && root != 0 && root in nodes
    && match nodes[root]
       case Leaf(_, _) => chain == [root]
       case Internal(seps) => root !in chain && Covers(seps, chain)
  }

  function SepKeys(nodes: Nodes, root: PageId): seq<Key> {
    if root in nodes && nodes[root].Internal? then Keys(nodes[root].seps) else [NULL_KEY]
  }

  /** The root's children stand in sibling order. */
  predicate Aligned(nodes: Nodes, root: PageId, chain: seq<PageId>) {
    root in nodes && nodes[root].Internal? ==> Children(nodes[root].seps) == chain
  }

  /** Separators stand in sibling order and bound their leaves. */
  ghost predicate Ordered(nodes: Nodes, root: PageId, chain: seq<PageId>) {
    && Aligned(nodes, root, chain)
    && Banded(SepKeys(nodes, root), Leaves(nodes, chain))
  }

  function TreePages(root: PageId, chain: seq<PageId>): set<PageId> {
    (set c | c in chain) + {root}
  }

  /** The leaf a key is routed to. */
  function RoutedLeaf(nodes: Nodes, root: PageId, key: Key): PageId {
    if root in nodes && nodes[root].Internal? && nodes[root].seps != []
    then nodes[root].seps[Route(Keys(nodes[root].seps), key)].child
    else root
  }

  predicate Overflows(es: seq<Entry>) {
    |es| > MAX_LEAF_ENTRIES || Bytes(es) > SPLIT_BYTES
  }

  function LeftHalf(es: seq<Entry>): seq<Entry> { es[..|es| / 2] }
  function RightHalf(es: seq<Entry>): seq<Entry> { es[|es| / 2..] }

  predicate HalvesFit(es: seq<Entry>) {
    Bytes(LeftHalf(es)) <= LEAF_CAPACITY && Bytes(RightHalf(es)) <= LEAF_CAPACITY
  }

  // ----- bytes -----

  lemma {:induction false} BytesConcat(a: seq<Entry>, b: seq<Entry>)
    ensures Bytes(a + b) == Bytes(a) + Bytes(b)
    decreases |b|
  {
    if b == [] {
      assert a + b == a;
    } else {
      BytesConcat(a, b[..|b| - 1]);
      assert (a + b)[..|a + b| - 1] == a + b[..|b| - 1];
    }
  }

  lemma {:induction false} BytesBounds(es: seq<Entry>, lo: nat, hi: nat)
    requires forall e :: e in es ==> lo <= e.bytes <= hi
    ensures lo * |es| <= Bytes(es) <= hi * |es|
  {
    if es != [] {
      BytesBounds(es[..|es| - 1], lo, hi);
      assert es[|es| - 1] in es;
      assert lo * |es| == lo * (|es| - 1) + lo && hi * |es| == hi * (|es| - 1) + hi;
    }
  }

  lemma InsertedBytes(es: seq<Entry>, e: Entry)
    ensures Bytes(Inserted(es, e)) == Bytes(es) + e.bytes
  {
    var p := InsertPos(es, e);
    assert es == es[..p] + es[p..];
    BytesConcat(es[..p], es[p..]);
    BytesConcat(es[..p] + [e], es[p..]);
    BytesConcat(es[..p], [e]);
  }

  /** With entries of at most 313 bytes both halves of an overflowing leaf fit on a page. */
  lemma SmallEntriesFit(es: seq<Entry>, e: Entry)
    requires LeafOk(es) && MIN_ENTRY_BYTES <= e.bytes
    requires forall x :: x in es || x == e ==> x.bytes <= SAFE_ENTRY_BYTES
    ensures HalvesFit(Inserted(es, e))
  {
    var ins := Inserted(es, e);
    InsertedBytes(es, e);
    forall x | x in ins ensures MIN_ENTRY_BYTES <= x.bytes <= SAFE_ENTRY_BYTES {
      assert x == e || x in es;
    }
    BoundedHalvesFit(ins);
  }

  lemma BoundedHalvesFit(ins: seq<Entry>)
    requires forall x :: x in ins ==> MIN_ENTRY_BYTES <= x.bytes <= SAFE_ENTRY_BYTES
    requires Bytes(ins) <= LEAF_CAPACITY + SAFE_ENTRY_BYTES
    ensures HalvesFit(ins)
  {
    var a, b := LeftHalf(ins), RightHalf(ins);
    assert ins == a + b;
    BytesConcat(a, b);
    BytesBounds(a, MIN_ENTRY_BYTES, SAFE_ENTRY_BYTES);
    BytesBounds(b, MIN_ENTRY_BYTES, SAFE_ENTRY_BYTES);
  }

  // ----- routing -----

  lemma RouteByCount(keys: seq<Key>, key: Key, n: nat)
    requires 1 <= n <= |keys|
    requires forall i :: 0 <= i < n ==> keys[i] <= key
    requires n < |keys| ==> key < keys[n]
    ensures Route(keys, key) == n - 1
  {
    if n > 1 {
      RouteByCount(keys[1..], key, n - 1);
    }
  }

  lemma RoutedLeafInChain(nodes: Nodes, root: PageId, chain: seq<PageId>, key: Key) returns (j: nat)
    requires TreeOk(nodes, root, chain)
    ensures j < |chain| && chain[j] == RoutedLeaf(nodes, root, key)
    ensures Ordered(nodes, root, chain) ==> j == Route(SepKeys(nodes, root), key)
  {
    match nodes[root]
    case Leaf(_, _) =>
      j := 0;
    case Internal(seps) =>
      var r := Route(Keys(seps), key);
      var c := Children(seps)[r];
      assert c in multiset(Children(seps));
      assert c in multiset(chain);
      j :| 0 <= j < |chain| && chain[j] == c;
      if Ordered(nodes, root, chain) {
        j := r;
      }
  }

  // ----- a leaf without overflow -----

  lemma LeavesUpdate(nodes: Nodes, chain: seq<PageId>, j: nat, leaf: Node)
    requires j < |chain| && Distinct(chain) && leaf.Leaf?
    ensures Leaves(nodes[chain[j] := leaf], chain) == Leaves(nodes, chain)[j := leaf.entries]
  {
    var nodes' := nodes[chain[j] := leaf];
    forall i | 0 <= i < |chain| ensures Leaves(nodes', chain)[i] == Leaves(nodes, chain)[j := leaf.entries][i] {
    }
  }

  lemma LinkedUpdate(nodes: Nodes, chain: seq<PageId>, j: nat, es: seq<Entry>)
    requires Linked(nodes, chain) && j < |chain| && LeafOk(es)
    ensures Linked(nodes[chain[j] := Leaf(es, RightOf(nodes, chain[j]))], chain)
  {
    hide LeafOk;
    assert LinkedAt(nodes, chain, j);
    var nodes' := nodes[chain[j] := Leaf(es, RightOf(nodes, chain[j]))];
    forall i | 0 <= i < |chain| ensures LinkedAt(nodes', chain, i) {
      assert LinkedAt(nodes, chain, i);
    }
  }

  lemma InsertedLeafOk(es: seq<Entry>, e: Entry)
    requires LeafOk(es) && !Holds(es, e) && e.bytes >= MIN_ENTRY_BYTES && !Overflows(Inserted(es, e))
    ensures LeafOk(Inserted(es, e)) && multiset(Inserted(es, e)) == multiset(es) + multiset{e}
  {
    hide Sorted, Bytes, Inserted, Holds;
    InsertedSorted(es, e);
    InsertedMembers(es, e);
  }

  /** One list gaining an entry, all of them together gain it. */
  lemma ConcatUpdate(ls: seq<seq<Entry>>, j: nat, es: seq<Entry>, e: Entry)
    requires j < |ls| && multiset(es) == multiset(ls[j]) + multiset{e}
    ensures multiset(Concat(ls[j := es])) == multiset(Concat(ls)) + multiset{e}
  {
    hide Concat;
    ConcatAround(ls, j);
    ConcatAround(ls[j := es], j);
    assert ls[j := es][..j] == ls[..j] && ls[j := es][j + 1..] == ls[j + 1..];
  }

  lemma InsertIntoLeaf(nodes: Nodes, root: PageId, chain: seq<PageId>, j: nat, e: Entry)
    requires TreeOk(nodes, root, chain) && j < |chain|
    requires var es := LeafEntries(nodes, chain[j]);
             !Holds(es, e) && e.bytes >= MIN_ENTRY_BYTES && !Overflows(Inserted(es, e))
    ensures var ins := Inserted(LeafEntries(nodes, chain[j]), e);
            var nodes' := nodes[chain[j] := Leaf(ins, RightOf(nodes, chain[j]))];
            && TreeOk(nodes', root, chain)
            && Leaves(nodes', chain) == Leaves(nodes, chain)[j := ins]
            && multiset(Flat(nodes', chain)) == multiset(Flat(nodes, chain)) + multiset{e}
  {
    hide LeafOk, Inserted, Holds, Overflows, Distinct, Covers, Concat, RightOf;
    assert LinkedAt(nodes, chain, j);
    var es := nodes[chain[j]].entries;
    InsertedLeafOk(es, e);
    LinkedUpdate(nodes, chain, j, Inserted(es, e));
    LeavesUpdate(nodes, chain, j, Leaf(Inserted(es, e), RightOf(nodes, chain[j])));
    ConcatUpdate(Leaves(nodes, chain), j, Inserted(es, e), e);
  }

  // ----- splitting a leaf -----

  function ChainSplit(chain: seq<PageId>, j: nat, newId: PageId): seq<PageId>
    requires j < |chain|
  {
    chain[..j + 1] + [newId] + chain[j + 1..]
  }

  function NodesSplit(nodes: Nodes, leaf: PageId, newId: PageId, es: seq<Entry>): Nodes
  {
    nodes[leaf := Leaf(LeftHalf(es), newId)][newId := Leaf(RightHalf(es), RightOf(nodes, leaf))]
  }

  /** The new right page takes over the old sibling, so the chain gains exactly one page. */
  lemma SplitLinked(nodes: Nodes, chain: seq<PageId>, j: nat, newId: PageId, es: seq<Entry>)
    requires Linked(nodes, chain) && j < |chain|
    requires newId != 0 && newId !in chain
    requires LeafOk(LeftHalf(es)) && LeafOk(RightHalf(es))
    ensures Linked(NodesSplit(nodes, chain[j], newId, es), ChainSplit(chain, j, newId))
  {
    assert LinkedAt(nodes, chain, j);
    var nodes' := NodesSplit(nodes, chain[j], newId, es);
    var chain' := ChainSplit(chain, j, newId);
    forall i | 0 <= i < |chain'| ensures LinkedAt(nodes', chain', i) {
      var i0 := if i <= j then i else i - 1;
      assert LinkedAt(nodes, chain, i0);
      assert i != j + 1 ==> chain'[i] == chain[i0] && chain[i0] != newId;
      assert i < j || i > j + 1 ==> chain[i0] != chain[j];
    }
  }

  lemma SplitLeaves(nodes: Nodes, chain: seq<PageId>, j: nat, newId: PageId, es: seq<Entry>)
    requires Linked(nodes, chain) && j < |chain|
    requires newId !in chain
    ensures var ls := Leaves(nodes, chain);
            Leaves(NodesSplit(nodes, chain[j], newId, es), ChainSplit(chain, j, newId))
            == ls[..j] + [LeftHalf(es), RightHalf(es)] + ls[j + 1..]
  {
    assert LinkedAt(nodes, chain, j);
    var nodes' := NodesSplit(nodes, chain[j], newId, es);
    var chain' := ChainSplit(chain, j, newId);
    var ls := Leaves(nodes, chain);
    var ls' := ls[..j] + [LeftHalf(es), RightHalf(es)] + ls[j + 1..];
    forall i | 0 <= i < |chain'| ensures Leaves(nodes', chain')[i] == ls'[i] {
      var i0 := if i <= j then i else i - 1;
      assert i != j + 1 ==> chain'[i] == chain[i0];
      assert i < j || i > j + 1 ==> chain[i0] != chain[j] && ls'[i] == ls[i0];
    }
  }

  lemma SplitConserves(nodes: Nodes, chain: seq<PageId>, j: nat, newId: PageId, e: Entry)
    requires Linked(nodes, chain) && j < |chain| && newId !in chain
    requires !Holds(LeafEntries(nodes, chain[j]), e)
    ensures var ins := Inserted(LeafEntries(nodes, chain[j]), e);
            multiset(Flat(NodesSplit(nodes, chain[j], newId, ins), ChainSplit(chain, j, newId)))
            == multiset(Flat(nodes, chain)) + multiset{e}
  {
    assert LinkedAt(nodes, chain, j);
    var es := LeafEntries(nodes, chain[j]);
    InsertedSorted(es, e);
    SplitLeaves(nodes, chain, j, newId, Inserted(es, e));
    HalvesConserve(Leaves(nodes, chain), j, Inserted(es, e), e);
  }

  lemma HalvesConserve(ls: seq<seq<Entry>>, j: nat, ins: seq<Entry>, e: Entry)
    requires j < |ls| && multiset(ins) == multiset(ls[j]) + multiset{e}
    ensures multiset(Concat(ls[..j] + [LeftHalf(ins), RightHalf(ins)] + ls[j + 1..]))
            == multiset(Concat(ls)) + multiset{e}
  {
    hide Concat;
    ConcatHalves(ls, j, LeftHalf(ins), RightHalf(ins));
    assert ins == LeftHalf(ins) + RightHalf(ins);
    ConcatAround(ls, j);
  }

  // ----- separators -----

  /** Where a promoted key goes: after the leading separators at or below it. */
  function SepPos(seps: seq<Sep>, key: Key): (p: nat)
    ensures p <= |seps|
    ensures forall i :: 0 <= i < p ==> seps[i].key <= key
    ensures p < |seps| ==> key < seps[p].key
  {
    if seps == [] || key < seps[0].key then 0 else 1 + SepPos(seps[1..], key)
  }

  function SepInserted(seps: seq<Sep>, key: Key, child: PageId): (r: seq<Sep>)
    ensures |r| == |seps| + 1
  {
    var p := SepPos(seps, key);
    seps[..p] + [Sep(key, child)] + seps[p..]
  }

  lemma MultisetInsert(s: seq<PageId>, p: nat, x: PageId)
    requires p <= |s|
    ensures multiset(s[..p] + [x] + s[p..]) == multiset(s) + multiset{x}
  {
    assert s == s[..p] + s[p..];
  }

  lemma SepInsertedCovers(seps: seq<Sep>, chain: seq<PageId>, j: nat, key: Key, newId: PageId)
    requires Covers(seps, chain) && j < |chain|
    ensures multiset(Children(SepInserted(seps, key, newId))) == multiset(ChainSplit(chain, j, newId))
    ensures SepInserted(seps, key, newId)[0] == Sep(NULL_KEY, ChainSplit(chain, j, newId)[0])
  {
    var p := SepPos(seps, key);
    var cs := Children(seps);
    assert Children(SepInserted(seps, key, newId)) == cs[..p] + [newId] + cs[p..];
    MultisetInsert(cs, p, newId);
    MultisetInsert(chain, j + 1, newId);
    assert p >= 1;
    assert SepInserted(seps, key, newId)[0] == seps[0] && ChainSplit(chain, j, newId)[0] == chain[0];
  }

  lemma SepInsertedKeys(seps: seq<Sep>, key: Key, child: PageId, r: nat)
    requires r < |seps| && seps[0].key <= key && Route(Keys(seps), key) == r
    ensures Keys(SepInserted(seps, key, child)) == Keys(seps)[..r + 1] + [key] + Keys(seps)[r + 1..]
    ensures Children(SepInserted(seps, key, child)) == Children(seps)[..r + 1] + [child] + Children(seps)[r + 1..]
  {
    var p := SepPos(seps, key);
    var keys := Keys(seps);
    forall i | 0 <= i < p ensures keys[i] <= key {
      assert keys[i] == seps[i].key;
    }
    RouteByCount(keys, key, p);
    KeysAround(seps, p, Sep(key, child));
  }

  lemma KeysAround(seps: seq<Sep>, p: nat, sep: Sep)
    requires p <= |seps|
    ensures Keys(seps[..p] + [sep] + seps[p..]) == Keys(seps)[..p] + [sep.key] + Keys(seps)[p..]
    ensures Children(seps[..p] + [sep] + seps[p..]) == Children(seps)[..p] + [sep.child] + Children(seps)[p..]
  {
    var all := seps[..p] + [sep] + seps[p..];
    forall i | 0 <= i < |all|
      ensures Keys(all)[i] == (Keys(seps)[..p] + [sep.key] + Keys(seps)[p..])[i]
      ensures Children(all)[i] == (Children(seps)[..p] + [sep.child] + Children(seps)[p..])[i]
    {
      assert all[i] == if i < p then seps[i] else if i == p then sep else seps[i - 1];
    }
  }
}
