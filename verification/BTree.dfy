/** The MVCC B+tree (src/BTree.cpp) over a shared pager. */
module BTrees {
  import opened Versions
  import opened Bands
  import opened BuddyPool
  import opened TreeShape
  import opened TreeGrowth
  import opened Paging

  /** How a put ends. The last two are the exceptions the code throws. */
  datatype PutResult = Stored | Duplicate | PageOverflow | ParentNotFound

  class BTree {
    const pager: Pager
    var root: PageId
    /** The leaves in sibling order. */
    ghost var chain: seq<PageId>

    ghost function State(): TreeState
      reads this, pager, pager.allocator
    {
      TreeState(pager.nodes, root, chain, pager.Owned())
    }

    ghost predicate Valid()
      reads this, pager, pager.allocator
    {
      pager.Valid() && StateOk(State())
    }

    constructor CreateNew(pager: Pager)
      requires pager.Valid()
      modifies pager, pager.allocator
      ensures this.pager == pager && Valid() && InOrder(State()) && Contents(State()) == []
      ensures chain == [root] && Pages(State()) == {root} && root !in old(pager.Owned())
      ensures pager.Owned() == old(pager.Owned()) + {root}
      ensures forall p :: p in old(pager.Owned()) && p in old(pager.nodes) ==>
                p in pager.nodes && pager.nodes[p] == old(pager.nodes)[p]
      ensures pager.FreeCount() == if old(pager.FreeCount()) > 0 then old(pager.FreeCount()) - 1 else 0
    {
      this.pager := pager;
      var id := pager.AllocatePage();
      root := id;
      chain := [id];
      new;
      pager.SavePage(id, Leaf([], 0));
      assert LinkedAt(pager.nodes, chain, 0);
      LeafRootOrdered(pager.nodes, root);
      assert Leaves(pager.nodes, chain) == [[]];
      ConcatOne([]);
    }

    /** Allocates a page and initialises it empty. */
    method NewPage(node: Node) returns (id: PageId)
      requires pager.Valid()
      modifies pager, pager.allocator
      ensures pager.Valid() && id != 0 && id !in old(pager.Owned())
      ensures pager.Owned() == old(pager.Owned()) + {id}
      ensures pager.nodes == old(pager.nodes)[id := node]
      ensures pager.FreeCount() == if old(pager.FreeCount()) > 0 then old(pager.FreeCount()) - 1 else 0
    {
      id := pager.AllocatePage();
      pager.SavePage(id, node);
    }

    // ----- findLeaf -----

    method FindLeaf(key: Key) returns (cur: PageId)
      requires Valid()
      ensures cur == RoutedLeaf(pager.nodes, root, key)
      ensures cur in chain
    {
      ghost var j := RoutedLeafInChain(pager.nodes, root, chain, key);
      assert LinkedAt(pager.nodes, chain, j);
      cur := root;
      while pager.nodes[cur].Internal?
        invariant cur in pager.nodes && (cur == root || cur == chain[j])
        invariant pager.nodes[cur].Leaf? ==> cur == chain[j]
        decreases pager.nodes[cur].Internal?
      {
        var seps := pager.nodes[cur].seps;
        var next, i := 0, 0;
        while i < |seps| && key >= seps[i].key
          invariant i <= |seps| && forall l :: 0 <= l < i ==> seps[l].key <= key
          invariant next == if i == 0 then 0 else seps[i - 1].child
        {
          next := seps[i].child;
          i := i + 1;
        }
        // the first separator is Null, so next is always set
        RouteByCount(Keys(seps), key, i);
        cur := next;
      }
    }

    // ----- get -----

    /**
     The version a lookup finds is the first visible one of the routed leaf, and in an ordered
     tree the first visible one of the whole tree.
     */
    method Get(key: Key, txn: nat, visibleSeq: nat) returns (r: Option<Entry>)
      requires Valid()
      ensures r == FirstVisible(RoutedEntries(State(), key), key, txn, visibleSeq)
      ensures InOrder(State()) ==> Sorted(Contents(State()))
      ensures InOrder(State()) ==> r == FirstVisible(Contents(State()), key, txn, visibleSeq)
    {
      hide PoolOk, Concat, Banded, Covers;
      var leaf := FindLeaf(key);
      ghost var j := RoutedLeafInChain(pager.nodes, root, chain, key);
      assert LinkedAt(pager.nodes, chain, j);
      var es := pager.nodes[leaf].entries;
      if InOrder(State()) {
        BandedLookup(SepKeys(pager.nodes, root), Leaves(pager.nodes, chain), key, txn, visibleSeq);
        BandedSorted(SepKeys(pager.nodes, root), Leaves(pager.nodes, chain));
      }
      var i := 0;
      while i < |es|
        invariant i <= |es| && FirstVisible(es, key, txn, visibleSeq) == FirstVisible(es[i..], key, txn, visibleSeq)
      {
        var e := es[i];
        assert es[i..][1..] == es[i + 1..];
        if e.key == key {
          if e.commitSeq == 0 {
            if e.txn == txn {
              return Some(e);
            }
          } else if e.commitSeq <= visibleSeq {
            return Some(e);
          }
        }
        i := i + 1;
      }
      r := None;
    }

    // ----- scan and scanAll -----

    /** Descends to the leaf the sibling chain starts at. */
    method LeftmostLeaf() returns (cur: PageId)
      requires Scannable(State())
      ensures cur == chain[0]
    {
      assert LinkedAt(pager.nodes, chain, 0);
      cur := root;
      while pager.nodes[cur].Internal?
        invariant cur in pager.nodes && (cur == root || cur == chain[0])
        invariant pager.nodes[cur].Leaf? ==> cur == chain[0]
        decreases pager.nodes[cur].Internal?
      {
        cur := pager.nodes[cur].seps[0].child;
      }
    }

    /** Every stored version, in sibling order; this holds for unordered trees too. */
    method ScanAll() returns (out: seq<Entry>)
      requires Scannable(State())
      ensures out == Contents(State())
    {
      assert LinkedAt(pager.nodes, chain, 0);
      ghost var ls := Leaves(pager.nodes, chain);
      ghost var i := 0;
      var cur := LeftmostLeaf();
      out := [];
      assert Concat(ls[..0]) == [];
      hide Concat;
      while cur != 0
        invariant i <= |chain| && cur == (if i < |chain| then chain[i] else 0)
        invariant i < |chain| ==> chain[i] != 0
        invariant out == Concat(ls[..i])
        decreases |chain| - i
      {
        assert LinkedAt(pager.nodes, chain, i);
        assert i + 1 < |chain| ==> LinkedAt(pager.nodes, chain, i + 1);
        var es := pager.nodes[cur].entries;
        var k := 0;
        while k < |es|
          invariant k <= |es| && out == Concat(ls[..i]) + es[..k]
        {
          out := out + [es[k]];
          k := k + 1;
        }
        assert es[..|es|] == es == ls[i];
        ConcatNext(ls, i);
        cur, i := pager.nodes[cur].right, i + 1;
      }
      assert ls[..|chain|] == ls;
    }

    /** The first visible version of the key group starting at index i. */
    method VisibleInGroup(es: seq<Entry>, i: nat, txn: nat, visibleSeq: nat) returns (visible: Option<Entry>)
      requires i < |es|
      ensures visible == FirstVisible(es[i..][..GroupLen(es[i..])], es[i].key, txn, visibleSeq)
    {
      ghost var group := es[i..][..GroupLen(es[i..])];
      var j := i;
      while j < |es| && es[j].key == es[i].key
        invariant i <= j <= i + |group|
        invariant FirstVisible(group, es[i].key, txn, visibleSeq)
                  == FirstVisible(group[j - i..], es[i].key, txn, visibleSeq)
      {
        var e := es[j];
        assert j - i < |group| by { assert es[i..][j - i] == e; }
        assert group[j - i] == e && group[j - i..][1..] == group[j + 1 - i..];
        if e.commitSeq == 0 {
          if e.txn == txn {
            return Some(e);
          }
        } else if e.commitSeq <= visibleSeq {
          return Some(e);
        }
        j := j + 1;
      }
      assert j - i == |group| by { GroupEnds(es, i, j); }
      visible := None;
    }

    /** The first index past the key group starting at i, whether its versions are visible or not. */
    method NextGroup(es: seq<Entry>, i: nat) returns (next: nat)
      requires i < |es|
      ensures i < next <= |es| && GroupLen(es[i..]) == next - i
    {
      next := i;
      while next < |es| && es[next].key == es[i].key
        invariant i <= next <= |es| && forall l :: i <= l < next ==> es[l].key == es[i].key
      {
        next := next + 1;
      }
      GroupEnds(es, i, next);
    }

    /** One round of the scan loop: report at most one version of the group, then skip the group. */
    method ScanGroup(es: seq<Entry>, i: nat, txn: nat, visibleSeq: nat) returns (part: seq<Entry>, next: nat)
      requires i < |es|
      ensures i < next <= |es|
      ensures Scanned(es[i..], txn, visibleSeq) == part + Scanned(es[next..], txn, visibleSeq)
    {
      var visible := VisibleInGroup(es, i, txn, visibleSeq);
      part := [];
      if visible.Some? {
        part := [visible.value];
      }
      next := NextGroup(es, i);
      assert es[i..][next - i..] == es[next..];
      ScannedStep(es[i..], es[next..], next - i, txn, visibleSeq);
    }

    method ScanLeaf(es: seq<Entry>, txn: nat, visibleSeq: nat) returns (out: seq<Entry>)
      ensures out == Scanned(es, txn, visibleSeq)
    {
      hide Scanned;
      out := [];
      var i := 0;
      ghost var whole := Scanned(es, txn, visibleSeq);
      ghost var rest := whole;
      assert es[0..] == es;
      while i < |es|
        invariant i <= |es| && rest == Scanned(es[i..], txn, visibleSeq) && whole == out + rest
      {
        var part, next := ScanGroup(es, i, txn, visibleSeq);
        rest := Scanned(es[next..], txn, visibleSeq);
        assert out + (part + rest) == out + part + rest;
        out, i := out + part, next;
      }
      assert es[i..] == [];
      ScannedEmpty(txn, visibleSeq);
    }

    /**
     Scans leaf by leaf along the chain. In an ordered tree every visible key comes out once, in
     ascending order, with exactly the version a lookup finds.
     */
    method Scan(txn: nat, visibleSeq: nat) returns (out: seq<Entry>)
      requires Valid()
      ensures out == ScannedLeaves(Leaves(pager.nodes, chain), txn, visibleSeq)
      ensures InOrder(State()) ==>
                && KeysAscend(out)
                && forall e :: e in out <==> FirstVisible(Contents(State()), e.key, txn, visibleSeq) == Some(e)
    {
      hide Scanned, FirstVisible, Concat, Banded, LeafOk, PoolOk;
      assert LinkedAt(pager.nodes, chain, 0);
      ghost var ls := Leaves(pager.nodes, chain);
      ghost var i := 0;
      var cur := LeftmostLeaf();
      out := [];
      while cur != 0
        invariant i <= |chain| && cur == (if i < |chain| then chain[i] else 0)
        invariant i < |chain| ==> chain[i] != 0
        invariant out == ScannedLeaves(ls[..i], txn, visibleSeq)
        decreases |chain| - i
      {
        assert LinkedAt(pager.nodes, chain, i);
        assert i + 1 < |chain| ==> LinkedAt(pager.nodes, chain, i + 1);
        var part := ScanLeaf(pager.nodes[cur].entries, txn, visibleSeq);
        assert ls[..i + 1][..i] == ls[..i];
        out := out + part;
        cur, i := pager.nodes[cur].right, i + 1;
      }
      assert ls[..|chain|] == ls;
      if InOrder(State()) {
        BandedScan(SepKeys(pager.nodes, root), ls, txn, visibleSeq);
      }
    }

    // ----- freeAllPages -----

    method PushChildren(stack: seq<PageId>, seps: seq<Sep>) returns (out: seq<PageId>)
      requires forall c :: c in Children(seps) ==> c != 0
      ensures out == stack + Children(seps)
    {
      out := stack;
      var k := 0;
      while k < |seps|
        invariant k <= |seps| && out == stack + Children(seps)[..k]
      {
        assert Children(seps)[k] == seps[k].child && seps[k].child in Children(seps);
        if seps[k].child != 0 {
          out := out + [seps[k].child];
        }
        assert Children(seps)[..k + 1] == Children(seps)[..k] + [seps[k].child];
        k := k + 1;
      }
    }

    /** Gives every page of the tree back, each exactly once, and no other page. */
    method FreeAllPages()
      requires Valid()
      modifies this, pager, pager.allocator
      ensures pager.Valid() && root == 0 && pager.nodes == old(pager.nodes)
      ensures pager.Owned() == old(pager.Owned()) - old(Pages(State()))
      ensures pager.FreeCount() == old(pager.FreeCount()) + |old(Pages(State()))|
    {
      hide PoolOk, Linked, LinkedAt, LeafOk, Covers;
      ghost var t := State();
      var visited: set<PageId> := {};
      var stack := [root];
      while stack != []
        invariant pager.Valid() && pager.nodes == t.nodes && root == t.root
        invariant Walking(t, visited, stack)
        invariant pager.Owned() == t.owned - visited
        invariant pager.FreeCount() == old(pager.FreeCount()) + |visited|
        decreases root !in visited, |stack|
      {
        var id := stack[|stack| - 1];
        WalkStep(t, visited, stack);
        PageInTree(t, id);
        stack := stack[..|stack| - 1];
        if id !in visited {
          visited := visited + {id};
          if pager.nodes[id].Internal? {
            stack := PushChildren(stack, pager.nodes[id].seps);
          }
          pager.FreePage(id);
        }
      }
      assert visited == Pages(t);
      root := 0;
    }

    // ----- put -----

    method IsDuplicate(es: seq<Entry>, e: Entry) returns (dup: bool)
      ensures dup <==> Holds(es, e)
    {
      var i := 0;
      while i < |es|
        invariant i <= |es| && forall l :: 0 <= l < i ==> !SameVersion(es[l], e)
      {
        if es[i].key == e.key && es[i].commitSeq == e.commitSeq && es[i].txn == e.txn {
          assert es[i] in es && SameVersion(es[i], e);
          return true;
        }
        i := i + 1;
      }
      dup := false;
    }

    method Insert(es: seq<Entry>, e: Entry) returns (ins: seq<Entry>)
      ensures ins == Inserted(es, e)
    {
      var it := 0;
      while it < |es|
        invariant it <= |es| && forall l :: 0 <= l < it ==> !Precedes(e, es[l])
      {
        if e.key < es[it].key { break; }
        if e.key == es[it].key && e.commitSeq > es[it].commitSeq { break; }
        if e.key == es[it].key && e.commitSeq == es[it].commitSeq && e.txn < es[it].txn { break; }
        it := it + 1;
      }
      InsertPosUnique(es, e, it);
      ins := es[..it] + [e] + es[it..];
    }

    method ApproxBytes(es: seq<Entry>) returns (n: nat)
      ensures n == Bytes(es)
    {
      n := 0;
      var i := 0;
      while i < |es|
        invariant i <= |es| && n == Bytes(es[..i])
      {
        assert es[..i + 1][..i] == es[..i];
        n := n + es[i].bytes;
        i := i + 1;
      }
      assert es[..|es|] == es;
    }

    /** Writes both halves; throws, with the new page already allocated, if one does not fit. */
    method SplitLeaf(leaf: PageId, es: seq<Entry>) returns (ok: bool, newRight: PageId)
      requires pager.Valid() && leaf in pager.Owned() && leaf in pager.nodes && pager.nodes[leaf].Leaf?
      modifies pager, pager.allocator
      ensures pager.Valid() && newRight != 0 && newRight !in old(pager.Owned())
      ensures pager.Owned() == old(pager.Owned()) + {newRight}
      ensures ok <==> HalvesFit(es)
      ensures ok ==> pager.nodes == NodesSplit(old(pager.nodes), leaf, newRight, es)
      ensures !ok ==>
                var blank := old(pager.nodes)[newRight := Leaf([], 0)];
                var left := LeftHalf(es);
                pager.nodes == if Bytes(left) > LEAF_CAPACITY then blank else blank[leaf := Leaf(left, newRight)]
      ensures pager.FreeCount() == if old(pager.FreeCount()) > 0 then old(pager.FreeCount()) - 1 else 0
    {
      var mid := |es| / 2;
      var left, right := es[..mid], es[mid..];
      var oldSibling := pager.nodes[leaf].right;
      newRight := NewPage(Leaf([], 0));
      var leftBytes := ApproxBytes(left);
      if leftBytes > LEAF_CAPACITY {
        return false, newRight;
      }
      pager.SavePage(leaf, Leaf(left, newRight));
      var rightBytes := ApproxBytes(right);
      if rightBytes > LEAF_CAPACITY {
        return false, newRight;
      }
      pager.SavePage(newRight, Leaf(right, oldSibling));
      ok := true;
      assert pager.nodes == NodesSplit(old(pager.nodes), leaf, newRight, es);
    }

    /** Depth-first search for the internal node that has `child` below it; 0 if there is none. */
    method FindParent(child: PageId) returns (parent: PageId)
      requires root != 0 && root in pager.nodes && pager.nodes[root].Internal?
      requires forall c :: c in Children(pager.nodes[root].seps) ==> c in pager.nodes && pager.nodes[c].Leaf?
      ensures parent == if child in Children(pager.nodes[root].seps) then root else 0
    {
      ghost var children := Children(pager.nodes[root].seps);
      parent := 0;
      var stack := [root];
      ghost var started := false;
      while stack != [] && parent == 0
        invariant !started ==> stack == [root] && parent == 0
        invariant started && parent == 0 ==> child !in children && forall c :: c in stack ==> c in children
        invariant parent != 0 ==> parent == root && child in children
        decreases !started, |stack|
      {
        var cur := stack[|stack| - 1];
        stack := stack[..|stack| - 1];
        started := true;
        if pager.nodes[cur].Internal? {
          var seps := pager.nodes[cur].seps;
          assert children == Children(seps);
          var i := 0;
          while i < |seps| && seps[i].child != child
            invariant i <= |seps| && child !in children[..i]
          {
            i := i + 1;
          }
          if i < |seps| {
            assert children[i] == child;
            parent := cur;
          } else {
            assert children[..|seps|] == children;
            var k := 0;
            while k < |seps|
              invariant k <= |seps| && stack == children[..k]
            {
              stack := stack + [seps[k].child];
              k := k + 1;
            }
          }
        }
      }
    }

    /** The loop that puts a new separator behind every separator whose key is not greater. */
    method AddSeparator(seps0: seq<Sep>, key: Key, child: PageId) returns (seps: seq<Sep>)
      ensures seps == SepInserted(seps0, key, child) && |seps| == |seps0| + 1
    {
      var it := 0;
      while it < |seps0| && key >= seps0[it].key
        invariant it <= |seps0| && forall l :: 0 <= l < it ==> seps0[l].key <= key
      {
        it := it + 1;
      }
      SepPosUnique(seps0, key, it);
      seps := seps0[..it] + [Sep(key, child)] + seps0[it..];
    }

    /** An internal page with too many children keeps the first half; a new page gets the rest. */
    method SplitInternal(page: PageId, seps: seq<Sep>) returns (newRight: PageId)
      requires pager.Valid() && page in pager.Owned()
      modifies pager, pager.allocator
      ensures pager.Valid() && newRight != 0 && newRight !in old(pager.Owned())
      ensures pager.Owned() == old(pager.Owned()) + {newRight}
      ensures pager.nodes
              == old(pager.nodes)[page := Internal(seps[..|seps| / 2])][newRight := Internal(seps[|seps| / 2..])]
    {
      var mid := |seps| / 2;
      newRight := NewPage(Internal([]));
      pager.SavePage(page, Internal(seps[..mid]));
      pager.SavePage(newRight, Internal(seps[mid..]));
      assert newRight != page;
    }

    /**
     Hooks a new right sibling into the tree: a leaf root gets a new root above it, an internal
     root with room gets one more separator. A full root is split in two halves of which only the
     left one stays reachable, and the search for the parent of the root then throws.
     */
    method InsertIntoParent(left: PageId, key: Key, right: PageId) returns (ok: bool, ghost extra: PageId)
      requires pager.Valid() && root in pager.Owned() && root in pager.nodes
      requires pager.nodes[root].Leaf? ==> left == root
      requires pager.nodes[root].Internal? ==>
                 var seps := pager.nodes[root].seps;
                 && seps != [] && seps[0].key == NULL_KEY && |seps| <= MAX_INTERNAL_ENTRIES
                 && left in Children(seps) && root !in Children(seps) && right != root
                 && right in pager.nodes && pager.nodes[right].Leaf?
                 && forall c :: c in Children(seps) ==> c in pager.Owned() && c in pager.nodes && pager.nodes[c].Leaf?
      requires right in pager.Owned()
      modifies this`root, pager, pager.allocator
      ensures pager.Valid()
      ensures ok <==> (old(pager.nodes[root]).Leaf? || |old(pager.nodes[root]).seps| < 128)
      ensures old(pager.nodes[root]).Leaf? ==>
                && root != 0 && root !in old(pager.Owned()) && pager.Owned() == old(pager.Owned()) + {root}
                && pager.nodes == old(pager.nodes)[root := Internal([Sep(NULL_KEY, left), Sep(key, right)])]
                && pager.FreeCount() == if old(pager.FreeCount()) > 0 then old(pager.FreeCount()) - 1 else 0
      ensures ok && old(pager.nodes[root]).Internal? ==>
                var seps := SepInserted(old(pager.nodes[root]).seps, key, right);
                && root == old(root) && pager.Owned() == old(pager.Owned())
                && pager.FreeCount() == old(pager.FreeCount())
                && pager.nodes == old(pager.nodes)[root := Internal(seps)]
      ensures !ok ==>
                var all := SepInserted(old(pager.nodes[root]).seps, key, right);
                && root == old(root) && extra != 0 && extra !in old(pager.Owned())
                && pager.nodes
                   == old(pager.nodes)[root := Internal(all[..|all| / 2])][extra := Internal(all[|all| / 2..])]
                && pager.Owned() == old(pager.Owned()) + {extra}
    {
      hide PoolOk, FreeMark;
      var curLeft, curKey, curRight := left, key, right;
      extra := 0;
      ghost var second := false;
      while true
        invariant pager.Valid() && root == old(root) && root in pager.nodes
        invariant !second ==> curLeft == left && curKey == key && curRight == right
        invariant !second ==> pager.nodes == old(pager.nodes) && pager.Owned() == old(pager.Owned())
        invariant !second ==> pager.FreeCount() == old(pager.FreeCount())
        invariant second ==>
                    && old(pager.nodes[root]).Internal? && |old(pager.nodes[root]).seps| == MAX_INTERNAL_ENTRIES
                    && curLeft == root && extra != 0 && extra !in old(pager.Owned())
                    && (var all := SepInserted(old(pager.nodes[root]).seps, key, right);
                        pager.nodes
                        == old(pager.nodes)[root := Internal(all[..|all| / 2])][extra := Internal(all[|all| / 2..])])
                    && pager.Owned() == old(pager.Owned()) + {extra}
        decreases !second
      {
        if pager.nodes[root].Leaf? {
          var newRoot := NewPage(Internal([]));
          pager.SavePage(newRoot, Internal([Sep(NULL_KEY, root), Sep(curKey, curRight)]));
          root := newRoot;
          return true, extra;
        }
        if second {
          HalfChildren(old(pager.nodes[root]).seps, key, right);
        }
        var parent := FindParent(curLeft);
        if parent == 0 {
          return false, extra;
        }
        var seps := AddSeparator(pager.nodes[parent].seps, curKey, curRight);
        if |seps| <= MAX_INTERNAL_ENTRIES {
          pager.SavePage(parent, Internal(seps));
          return true, extra;
        }
        var mid := |seps| / 2;
        var newRight := SplitInternal(parent, seps);
        curLeft, curKey, curRight := parent, seps[mid].key, newRight;
        extra, second := newRight, true;
      }
    }

    /** The rest of a put whose leaf overflowed: split it and hook the new leaf in. */
    method PutSplitting(leaf: PageId, ins: seq<Entry>, e: Entry, ghost j: nat) returns (r: PutResult)
      requires Valid() && e.bytes >= MIN_ENTRY_BYTES && j < |chain|
               && leaf == chain[j] == RoutedLeaf(pager.nodes, root, e.key)
      requires InOrder(State()) ==> j == Route(SepKeys(pager.nodes, root), e.key)
      requires !Holds(LeafEntries(pager.nodes, leaf), e) && ins == Inserted(LeafEntries(pager.nodes, leaf), e)
               && Overflows(ins)
      modifies this, pager, pager.allocator
      ensures pager.Valid() && !r.Duplicate?
      ensures r.PageOverflow? <==> !HalvesFit(ins)
      ensures r.ParentNotFound? <==> HalvesFit(ins) && old(|chain|) == MAX_INTERNAL_ENTRIES
      ensures r.Stored? ==> StoredStep(old(State()), State(), e)
      ensures r.ParentNotFound? ==> LostParentStep(old(State()), State(), e)
      ensures r.PageOverflow? ==> OverflowStep(old(State()), State(), e)
    {
      hide PoolOk, StoredStep, LostParentStep, OverflowStep, Inserted, InsertPos, Bytes, Concat, Banded, Holds;
      assert LinkedAt(pager.nodes, chain, j);
      SameSize(pager.nodes, root, chain);
      ghost var t := State();
      assert leaf in Pages(t) && root in Pages(t);
      var ok, newRight := SplitLeaf(leaf, ins);
      if !ok {
        if Bytes(LeftHalf(ins)) > LEAF_CAPACITY {
          OverflowLeft(t, newRight, e);
        } else {
          chain := ChainCut(chain, j, newRight);
          OverflowRight(t, j, newRight, e);
        }
        return PageOverflow;
      }
      var promoted := ins[|ins| / 2].key;
      assert promoted == RightHalf(ins)[0].key;
      assert CanSplit(t.nodes, t.root, t.chain, j, newRight, e);
      LeavesStayLeaves(t.nodes, t.root, t.chain, leaf, newRight, ins);
      ghost var extra;
      ok, extra := InsertIntoParent(leaf, promoted, newRight);
      chain := ChainSplit(chain, j, newRight);
      if t.nodes[t.root].Leaf? {
        StoreSplittingRoot(t, newRight, root, e);
      } else if ok {
        StoreSplitting(t, j, newRight, e);
      } else {
        LoseParentStep(t, j, newRight, e, extra);
      }
      r := if ok then Stored else ParentNotFound;
    }

    /**
     Stores one version. It is refused exactly when the routed leaf holds the same version; it
     throws exactly when a half of the overflowing leaf does not fit its page, which takes an entry
     of more than 313 bytes, or when the root already has 128 children. A put that throws because
     the right half does not fit cuts the sibling chain after the left half.
     */
    method Put(e: Entry) returns (r: PutResult)
      requires Valid() && e.bytes >= MIN_ENTRY_BYTES
      modifies this, pager, pager.allocator
      ensures var es := old(RoutedEntries(State(), e.key));
              && (r.Duplicate? <==> Holds(es, e))
              && (r.PageOverflow? <==> !Holds(es, e) && Overflows(Inserted(es, e)) && !HalvesFit(Inserted(es, e)))
              && (r.ParentNotFound? <==> !Holds(es, e) && Overflows(Inserted(es, e)) && HalvesFit(Inserted(es, e))
                                         && old(|chain|) == 128)
      ensures r.Duplicate? ==> State() == old(State())
      ensures r.Stored? ==> StoredStep(old(State()), State(), e)
      ensures r.ParentNotFound? ==> LostParentStep(old(State()), State(), e)
      ensures r.PageOverflow? ==> OverflowStep(old(State()), State(), e)
      ensures r.PageOverflow? ==> exists x :: (x == e || x in old(Contents(State()))) && x.bytes > SAFE_ENTRY_BYTES
      ensures pager.Valid() && old(pager.Owned()) <= pager.Owned() && OthersUntouched(old(State()), State())
    {
      hide PoolOk, Scannable, HalfRooted, Inserted, InsertPos, Bytes, Concat, Banded, Holds, Covers;
      var leaf := FindLeaf(e.key);
      ghost var j := RoutedLeafInChain(pager.nodes, root, chain, e.key);
      assert LinkedAt(pager.nodes, chain, j);
      var es := pager.nodes[leaf].entries;
      var dup := IsDuplicate(es, e);
      if dup {
        return Duplicate;
      }
      var ins := Insert(es, e);
      var bytes := ApproxBytes(ins);
      if |ins| > MAX_LEAF_ENTRIES || bytes > SPLIT_BYTES {
        OverflowNeedsLargeEntry(pager.nodes, chain, j, e);
        r := PutSplitting(leaf, ins, e, j);
        return;
      }
      StoreInLeaf(State(), j, e);
      assert leaf in Pages(State());
      pager.SavePage(leaf, Leaf(ins, pager.nodes[leaf].right));
      r := Stored;
    }

    /** A put, as far as the engine above the tree is concerned. */
    method PutVersion(e: Entry) returns (r: PutResult)
      requires Valid() && e.bytes >= MIN_ENTRY_BYTES
      modifies this, pager, pager.allocator
      ensures pager.Valid()
      ensures r.Duplicate? <==> Versions.Holds(old(RoutedEntries(State(), e.key)), e)
      ensures r.Stored? || r.Duplicate? <==> Accepts(old(State()), e)
      ensures r.Stored? || r.Duplicate? ==> PutStep(old(State()), State(), e)
      ensures !r.Stored? && !r.Duplicate? ==> FailedStep(old(State()), State(), e)
    {
      hide Inserted, InsertPos, Overflows, HalvesFit, StoredStep, StateOk, LostParentStep, OverflowStep;
      r := Put(e);
    }
  }

  lemma OverflowNeedsLargeEntry(nodes: Nodes, chain: seq<PageId>, j: nat, e: Entry)
    requires Linked(nodes, chain) && j < |chain| && e.bytes >= MIN_ENTRY_BYTES
    ensures !HalvesFit(Inserted(LeafEntries(nodes, chain[j]), e)) ==>
              exists x :: (x == e || x in Flat(nodes, chain)) && x.bytes > SAFE_ENTRY_BYTES
  {
    assert LinkedAt(nodes, chain, j);
    var es := LeafEntries(nodes, chain[j]);
    if forall x :: x in es || x == e ==> x.bytes <= SAFE_ENTRY_BYTES {
      SmallEntriesFit(es, e);
    } else {
      var x :| (x in es || x == e) && x.bytes > SAFE_ENTRY_BYTES;
      if x in es {
        assert Leaves(nodes, chain)[j] == es;
        LeafInConcat(Leaves(nodes, chain), j, x);
      }
    }
  }

  lemma SepPosUnique(seps: seq<Sep>, key: Key, p: nat)
    requires p <= |seps|
    requires forall i :: 0 <= i < p ==> seps[i].key <= key
    requires p < |seps| ==> key < seps[p].key
    ensures SepPos(seps, key) == p
  {
    var q := SepPos(seps, key);
    assert q < |seps| ==> key < seps[q].key;
  }

  lemma GroupEnds(es: seq<Entry>, i: nat, j: nat)
    requires i < j <= |es| && forall l :: i <= l < j ==> es[l].key == es[i].key
    requires j < |es| ==> es[j].key != es[i].key
    ensures GroupLen(es[i..]) == j - i
  {
    var tail := es[i..];
    assert forall l :: 0 <= l < j - i ==> tail[l] == es[i + l];
    assert j < |es| ==> tail[j - i] == es[j];
  }

  lemma ScannedEmpty(txn: nat, visibleSeq: nat)
    ensures Scanned([], txn, visibleSeq) == []
  {
  }

  lemma ScannedStep(tail: seq<Entry>, rest: seq<Entry>, n: nat, txn: nat, visibleSeq: nat)
    requires tail != [] && GroupLen(tail) == n && rest == tail[n..]
    ensures Scanned(tail, txn, visibleSeq)
         == ToSeq(FirstVisible(tail[..n], tail[0].key, txn, visibleSeq)) + Scanned(rest, txn, visibleSeq)
  {
  }

  /** A page of a tree is its internal root or one of its leaves. */
  lemma PageInTree(t: TreeState, id: PageId)
    requires StateOk(t) && id in Pages(t)
    ensures id != 0 && id in t.nodes && id in t.owned
    ensures t.nodes[id].Internal? ==> id == t.root && Covers(t.nodes[id].seps, t.chain)
  {
    if id in t.chain {
      var i :| 0 <= i < |t.chain| && t.chain[i] == id;
      assert LinkedAt(t.nodes, t.chain, i);
    }
  }

  /** Where the depth-first walk over a tree stands: what it has visited and what it still has to. */
  ghost predicate Walking(t: TreeState, visited: set<PageId>, stack: seq<PageId>) {
    && StateOk(t) && visited <= Pages(t)
    && (forall p :: p in stack ==> p in Pages(t))
    && (t.root !in visited ==> stack == [t.root] && visited == {})
    && (t.root in visited ==> forall c :: c in t.chain ==> c in visited || c in stack)
  }

  lemma WalkStep(t: TreeState, visited: set<PageId>, stack: seq<PageId>)
    requires Walking(t, visited, stack) && stack != []
    ensures var id, rest := stack[|stack| - 1], stack[..|stack| - 1];
            && id in Pages(t) && id in t.nodes
            && (id in visited ==> t.root in visited && Walking(t, visited, rest))
            && (id !in visited && t.nodes[id].Leaf? ==> Walking(t, visited + {id}, rest))
            && (id !in visited && t.nodes[id].Internal? ==>
                  && id == t.root && Walking(t, visited + {id}, rest + Children(t.nodes[id].seps))
                  && forall c :: c in Children(t.nodes[id].seps) ==> c != 0)
  {
    var id, rest := stack[|stack| - 1], stack[..|stack| - 1];
    assert stack == rest + [id];
    PageInTree(t, id);
    if t.nodes[id].Internal? {
      var seps := t.nodes[id].seps;
      forall c | c in Children(seps) || c in t.chain ensures c in t.chain && c in Children(seps) && c != 0 {
        ChildInChain(seps, t.chain, c);
        PageInTree(t, c);
      }
    }
  }

  /** A tree has as many leaves as its root has children. */
  lemma SameSize(nodes: Nodes, root: PageId, chain: seq<PageId>)
    requires TreeOk(nodes, root, chain)
    ensures nodes[root].Internal? ==> |nodes[root].seps| == |chain|
    ensures nodes[root].Leaf? ==> |chain| == 1
  {
    if nodes[root].Internal? {
      assert |multiset(Children(nodes[root].seps))| == |multiset(chain)|;
    }
  }

  lemma ChildInChain(seps: seq<Sep>, chain: seq<PageId>, c: PageId)
    requires Covers(seps, chain)
    ensures c in Children(seps) <==> c in chain
  {
    assert c in Children(seps) <==> c in multiset(Children(seps));
    assert c in chain <==> c in multiset(chain);
  }

  /** Between the leaf split and the parent update the root's children are still leaves. */
  lemma LeavesStayLeaves(nodes: Nodes, root: PageId, chain: seq<PageId>, leaf: PageId, newRight: PageId,
                         ins: seq<Entry>)
    requires TreeOk(nodes, root, chain) && leaf in chain && newRight !in chain && newRight != root
    ensures var nodes1 := NodesSplit(nodes, leaf, newRight, ins);
            && root in nodes1 && nodes1[root].Leaf? == nodes[root].Leaf?
            && newRight in nodes1 && nodes1[newRight].Leaf?
            && (nodes[root].Leaf? ==> leaf == root)
            && (nodes[root].Internal? ==>
                  && nodes1[root] == nodes[root]
                  && leaf in Children(nodes[root].seps) && root !in Children(nodes[root].seps)
                  && forall c :: c in Children(nodes[root].seps) ==> c in chain && c in nodes1 && nodes1[c].Leaf?)
  {
    if nodes[root].Internal? {
      var seps := nodes[root].seps;
      ChildInChain(seps, chain, leaf);
      ChildInChain(seps, chain, root);
      forall c | c in Children(seps) ensures c in chain && c in nodes && nodes[c].Leaf? {
        ChildInChain(seps, chain, c);
        var i :| 0 <= i < |chain| && chain[i] == c;
        assert LinkedAt(nodes, chain, i);
      }
    }
  }

  /** The lower half of a grown root has only old children and the new one. */
  lemma HalfChildren(seps: seq<Sep>, key: Key, right: PageId)
    ensures var all := SepInserted(seps, key, right);
            forall c :: c in Children(all[..|all| / 2]) ==> c == right || c in Children(seps)
  {
    var all := SepInserted(seps, key, right);
    var half := all[..|all| / 2];
    forall i | 0 <= i < |half| ensures half[i].child == right || half[i].child in Children(seps) {
      assert half[i] == all[i];
      assert half[i] == Sep(key, right) || half[i] in seps;
      if half[i] != Sep(key, right) {
        var l :| 0 <= l < |seps| && seps[l] == half[i];
        assert Children(seps)[l] == half[i].child;
      }
    }
  }
}
