/**
 The two ways into a tree: lookups route through the separators, scans follow the sibling chain.
 From an ordered tree the two agree after a put exactly when the put did not cut through the
 versions of one key.
 */
module AccessPaths {
  import opened Versions
  import opened Bands
  import opened TreeShape
  import opened TreeGrowth

  // ----- lists of leaves -----

  /** For every reader, looking a key up in the routed leaf is looking it up along the chain. */
  ghost predicate LookupsAgree(keys: seq<Key>, ls: seq<seq<Entry>>) {
    && |keys| == |ls| > 0
    && forall key, txn, cut ::
         FirstVisible(ls[Route(keys, key)], key, txn, cut) == FirstVisible(Concat(ls), key, txn, cut)
  }

  /** For every reader, the scan emits exactly the versions that routed lookups return. */
  ghost predicate ScansAgree(keys: seq<Key>, ls: seq<seq<Entry>>) {
    && |keys| == |ls| > 0
    && forall txn, cut, e ::
         e in ScannedLeaves(ls, txn, cut) <==> FirstVisible(ls[Route(keys, e.key)], e.key, txn, cut) == Some(e)
  }

  lemma BandedAgrees(keys: seq<Key>, ls: seq<seq<Entry>>)
    requires Banded(keys, ls)
    ensures LookupsAgree(keys, ls) && ScansAgree(keys, ls)
  {
    forall key, txn, cut
      ensures FirstVisible(ls[Route(keys, key)], key, txn, cut) == FirstVisible(Concat(ls), key, txn, cut)
    {
      BandedLookup(keys, ls, key, txn, cut);
    }
    forall txn, cut, e ensures e in ScannedLeaves(ls, txn, cut) <==>
                               FirstVisible(ls[Route(keys, e.key)], e.key, txn, cut) == Some(e)
    {
      BandedScan(keys, ls, txn, cut);
      BandedLookup(keys, ls, e.key, txn, cut);
    }
  }

  /** A reader that sees the last version left of a cut finds one on the left and not the same on the right. */
  lemma CutHidesVersion(a: seq<Entry>, b: seq<Entry>)
    requires Sorted(a + b) && a != [] && b != []
    ensures var x := a[|a| - 1];
            && FirstVisible(a, x.key, x.txn, x.commitSeq).Some?
            && FirstVisible(b, x.key, x.txn, x.commitSeq) != FirstVisible(a, x.key, x.txn, x.commitSeq)
  {
    var x := a[|a| - 1];
    LookupFails(a, x.key, x.txn, x.commitSeq);
    assert Visible(x, x.txn, x.commitSeq);
    CutHidesVersions(a, b, x.key, x.txn, x.commitSeq);
    FirstVisibleConcat(a, b, x.key, x.txn, x.commitSeq);
  }

  /** A key whose versions were cut is routed to the right half. */
  lemma CutKeyRoute(keys: seq<Key>, ls: seq<seq<Entry>>, r: nat, a: seq<Entry>, b: seq<Entry>)
    requires Banded(keys, ls) && r < |ls| && ls[r] == a + b && b != []
    ensures var keys' := keys[..r + 1] + [b[0].key] + keys[r + 1..];
            Route(keys', b[0].key) == r + 1
  {
    var p := b[0].key;
    var keys' := keys[..r + 1] + [p] + keys[r + 1..];
    assert InBand(keys, r, ls[r]) && ls[r][|a|] == b[0] && b[0] in ls[r];
    assert keys'[r + 1] == p && forall i :: 0 <= i <= r ==> keys'[i] == keys[i];
    assert forall i :: r + 1 < i < |keys'| ==> keys'[i] == keys[i - 1];
    RouteUnique(keys', p, r + 1);
  }

  lemma CutLookup(keys: seq<Key>, ls: seq<seq<Entry>>, r: nat, a: seq<Entry>, b: seq<Entry>, txn: nat, cut: nat)
    requires Banded(keys, ls) && r < |ls| && ls[r] == a + b && b != []
    requires FirstVisible(a, b[0].key, txn, cut).Some?
    ensures FirstVisible(Concat(ls[..r] + [a, b] + ls[r + 1..]), b[0].key, txn, cut)
            == FirstVisible(a, b[0].key, txn, cut)
  {
    hide Concat;
    var left, right := Concat(ls[..r]), Concat(ls[r + 1..]);
    var p := b[0].key;
    ConcatHalves(ls, r, a, b);
    SidesOfBand(keys, ls, r);
    assert InBand(keys, r, ls[r]) && ls[r][|a|] == b[0] && b[0] in ls[r];
    LookupFails(left, p, txn, cut);
    FirstVisibleConcat(left + (a + b), right, p, txn, cut);
    FirstVisibleConcat(left, a + b, p, txn, cut);
    FirstVisibleConcat(a, b, p, txn, cut);
  }

  /** A cut through the versions of one key shows on both paths. */
  lemma DirtyCutDisagrees(keys: seq<Key>, ls: seq<seq<Entry>>, r: nat, a: seq<Entry>, b: seq<Entry>)
    requires Banded(keys, ls) && r < |ls| && ls[r] == a + b && b != [] && !CleanCut(a, b)
    ensures var keys', ls' := keys[..r + 1] + [b[0].key] + keys[r + 1..], ls[..r] + [a, b] + ls[r + 1..];
            !LookupsAgree(keys', ls') && !ScansAgree(keys', ls')
  {
    hide Concat, Scanned, ScannedLeaves, FirstVisible;
    var keys', ls' := keys[..r + 1] + [b[0].key] + keys[r + 1..], ls[..r] + [a, b] + ls[r + 1..];
    var x := a[|a| - 1];
    assert Sorted(a + b) && (a + b)[|a| - 1] == x && (a + b)[|a|] == b[0];
    assert Precedes((a + b)[|a| - 1], (a + b)[|a|]);
    assert x.key == b[0].key;
    assert ls'[r] == a && ls'[r + 1] == b;
    CutHidesVersion(a, b);
    CutKeyRoute(keys, ls, r, a, b);
    CutLookup(keys, ls, r, a, b, x.txn, x.commitSeq);
    SortedParts(a, b);
    ScanAgreesWithLookup(a, x.txn, x.commitSeq);
    var y := FirstVisible(a, x.key, x.txn, x.commitSeq).value;
    LeafIsScanned(ls', x.txn, x.commitSeq, r, y);
  }

  /** After a split the two paths agree if and only if it did not cut through the versions of one key. */
  lemma SplitAgreement(keys: seq<Key>, ls: seq<seq<Entry>>, r: nat, a: seq<Entry>, b: seq<Entry>)
    requires Banded(keys, ls) && r < |ls| && ls[r] == a + b && b != []
    ensures var keys', ls' := keys[..r + 1] + [b[0].key] + keys[r + 1..], ls[..r] + [a, b] + ls[r + 1..];
            && (LookupsAgree(keys', ls') <==> CleanCut(a, b))
            && (ScansAgree(keys', ls') <==> CleanCut(a, b))
  {
    hide LookupsAgree, ScansAgree;
    if CleanCut(a, b) {
      BandedSplit(keys, ls, r, a, b);
      BandedAgrees(keys[..r + 1] + [b[0].key] + keys[r + 1..], ls[..r] + [a, b] + ls[r + 1..]);
    } else {
      DirtyCutDisagrees(keys, ls, r, a, b);
    }
  }

  // ----- scans that repeat a key -----

  lemma {:induction false} ScannedJoin(u: seq<seq<Entry>>, v: seq<seq<Entry>>, txn: nat, cut: nat)
    ensures ScannedLeaves(u + v, txn, cut) == ScannedLeaves(u, txn, cut) + ScannedLeaves(v, txn, cut)
    decreases |v|
  {
    hide Scanned;
    if v == [] {
      assert u + v == u;
    } else {
      var front, last := v[..|v| - 1], v[|v| - 1];
      ScannedJoin(u, front, txn, cut);
      assert (u + v)[..|u + v| - 1] == u + front && (u + v)[|u + v| - 1] == last;
    }
  }

  lemma ScannedOne(es: seq<Entry>, txn: nat, cut: nat)
    ensures ScannedLeaves([es], txn, cut) == Scanned(es, txn, cut)
  {
    hide Scanned;
    assert [es][..0] == [];
    assert ScannedLeaves([es][..0], txn, cut) == [];
  }

  lemma ScannedHalves(ls: seq<seq<Entry>>, r: nat, a: seq<Entry>, b: seq<Entry>, txn: nat, cut: nat)
    requires r < |ls|
    ensures ScannedLeaves(ls[..r] + [a, b] + ls[r + 1..], txn, cut)
         == ScannedLeaves(ls[..r], txn, cut) + (Scanned(a, txn, cut) + Scanned(b, txn, cut))
            + ScannedLeaves(ls[r + 1..], txn, cut)
  {
    hide Scanned, ScannedLeaves;
    ScannedJoin(ls[..r] + [a, b], ls[r + 1..], txn, cut);
    ScannedJoin(ls[..r], [a, b], txn, cut);
    assert [a, b] == [a] + [b];
    ScannedJoin([a], [b], txn, cut);
    ScannedOne(a, txn, cut);
    ScannedOne(b, txn, cut);
  }

  lemma ScannedMember(es: seq<Entry>, txn: nat, cut: nat, e: Entry)
    requires Sorted(es) && e in Scanned(es, txn, cut)
    ensures e in es && Visible(e, txn, cut)
  {
    hide Scanned;
    ScanAgreesWithLookup(es, txn, cut);
    assert FirstVisible(es, e.key, txn, cut) == Some(e);
  }

  /** Two visible versions of one key, one on each side of a cut, take a committed one on the left. */
  lemma HalvesApart(a: seq<Entry>, b: seq<Entry>, txn: nat, cut: nat)
    requires Sorted(a + b) && b != []
    requires forall e :: e in a && e.key == b[0].key ==> e.commitSeq == 0
    ensures KeysBelow(Scanned(a, txn, cut), Scanned(b, txn, cut))
  {
    hide Scanned;
    SortedParts(a, b);
    forall x, y | x in Scanned(a, txn, cut) && y in Scanned(b, txn, cut) ensures x.key < y.key {
      ScannedMember(a, txn, cut, x);
      ScannedMember(b, txn, cut, y);
      var i, j :| 0 <= i < |a| && a[i] == x && 0 <= j < |b| && b[j] == y;
      assert Precedes(a[i], b[j]) && Precedes(a[i], b[0]);
      assert j > 0 ==> Precedes(b[0], b[j]);
    }
  }

  lemma ScannedSides(keys: seq<Key>, ls: seq<seq<Entry>>, r: nat, txn: nat, cut: nat)
    requires Banded(keys, ls) && r < |ls|
    ensures KeysAscend(ScannedLeaves(ls[..r], txn, cut)) && KeysAscend(ScannedLeaves(ls[r + 1..], txn, cut))
    ensures forall e :: e in ScannedLeaves(ls[..r], txn, cut) ==> e.key < keys[r]
    ensures forall e :: e in ScannedLeaves(ls[r + 1..], txn, cut) ==> r + 1 < |keys| && keys[r + 1] <= e.key
  {
    hide Scanned, ScannedLeaves;
    var left, right := ScannedLeaves(ls[..r], txn, cut), ScannedLeaves(ls[r + 1..], txn, cut);
    BandedScanPrefix(keys, ls, r, txn, cut);
    BandedScanPrefix(keys, ls, |ls|, txn, cut);
    assert ls[..|ls|] == ls == ls[..r + 1] + ls[r + 1..];
    ScannedJoin(ls[..r + 1], ls[r + 1..], txn, cut);
    var head := ScannedLeaves(ls[..r + 1], txn, cut);
    forall i, j | 0 <= i < j < |right| ensures right[i].key < right[j].key {
      assert (head + right)[|head| + i] == right[i] && (head + right)[|head| + j] == right[j];
    }
    forall e | e in left ensures e.key < keys[r] {
      var i := InScannedLeaves(ls[..r], txn, cut, e);
      ScannedMember(ls[i], txn, cut, e);
      assert InBand(keys, i, ls[i]);
    }
    forall e | e in right ensures r + 1 < |keys| && keys[r + 1] <= e.key {
      var i := InScannedLeaves(ls[r + 1..], txn, cut, e);
      ScannedMember(ls[r + 1 + i], txn, cut, e);
      assert InBand(keys, r + 1 + i, ls[r + 1 + i]);
    }
  }

  lemma StagedCutScans(keys: seq<Key>, ls: seq<seq<Entry>>, r: nat, a: seq<Entry>, b: seq<Entry>, txn: nat, cut: nat)
    requires Banded(keys, ls) && r < |ls| && ls[r] == a + b && b != []
    requires forall e :: e in a && e.key == b[0].key ==> e.commitSeq == 0
    ensures KeysAscend(ScannedLeaves(ls[..r] + [a, b] + ls[r + 1..], txn, cut))
  {
    hide Scanned, ScannedLeaves, FirstVisible;
    var left, right := ScannedLeaves(ls[..r], txn, cut), ScannedLeaves(ls[r + 1..], txn, cut);
    var sa, sb := Scanned(a, txn, cut), Scanned(b, txn, cut);
    SortedParts(a, b);
    ScanAgreesWithLookup(a, txn, cut);
    ScanAgreesWithLookup(b, txn, cut);
    HalvesApart(a, b, txn, cut);
    ScannedSides(keys, ls, r, txn, cut);
    assert InBand(keys, r, ls[r]);
    forall e | e in sa + sb ensures e in ls[r] {
      if e in sa { ScannedMember(a, txn, cut, e); } else { ScannedMember(b, txn, cut, e); }
    }
    ScannedHalves(ls, r, a, b, txn, cut);
  }

  /** A reader that sees a committed version left of a cut through its key and the first one right of it. */
  lemma SeenOnBothSides(a: seq<Entry>, b: seq<Entry>, c: Entry) returns (m: nat, n: nat)
    requires Sorted(a + b) && b != [] && c in a && c.key == b[0].key && c.commitSeq > 0
    ensures var sa, sb := Scanned(a, b[0].txn, c.commitSeq), Scanned(b, b[0].txn, c.commitSeq);
            m < |sa| && n < |sb| && sa[m].key == sb[n].key
  {
    hide Scanned, FirstVisible;
    var txn, cut, p := b[0].txn, c.commitSeq, b[0].key;
    SortedParts(a, b);
    var i :| 0 <= i < |a| && a[i] == c;
    assert Precedes(a[i], b[0]);
    LookupFails(a, p, txn, cut);
    LookupFails(b, p, txn, cut);
    assert b[0] in b && Visible(b[0], txn, cut);
    ScanAgreesWithLookup(a, txn, cut);
    ScanAgreesWithLookup(b, txn, cut);
    var y, z := FirstVisible(a, p, txn, cut).value, FirstVisible(b, p, txn, cut).value;
    var sa, sb := Scanned(a, txn, cut), Scanned(b, txn, cut);
    m :| 0 <= m < |sa| && sa[m] == y;
    n :| 0 <= n < |sb| && sb[n] == z;
  }

  /** A committed version left of a cut through its key makes some scan emit the key twice. */
  lemma CommittedCutRepeats(ls: seq<seq<Entry>>, r: nat, a: seq<Entry>, b: seq<Entry>, c: Entry)
    requires r < |ls| && Sorted(a + b) && b != [] && c in a && c.key == b[0].key && c.commitSeq > 0
    ensures !KeysAscend(ScannedLeaves(ls[..r] + [a, b] + ls[r + 1..], b[0].txn, c.commitSeq))
  {
    hide Scanned, ScannedLeaves, Sorted;
    var txn, cut := b[0].txn, c.commitSeq;
    var m, n := SeenOnBothSides(a, b, c);
    ScannedHalves(ls, r, a, b, txn, cut);
    var left, sa, sb := ScannedLeaves(ls[..r], txn, cut), Scanned(a, txn, cut), Scanned(b, txn, cut);
    var all := ScannedLeaves(ls[..r] + [a, b] + ls[r + 1..], txn, cut);
    assert all[|left| + m] == sa[m] && all[|left| + |sa| + n] == sb[n];
  }

  ghost predicate ScansOnce(ls: seq<seq<Entry>>) {
    forall txn, cut :: KeysAscend(ScannedLeaves(ls, txn, cut))
  }

  /** Every scan emits each key once and in ascending order after a split exactly when no committed
      version of the promoted key stays on the left. */
  lemma ScansOnceIff(keys: seq<Key>, ls: seq<seq<Entry>>, r: nat, a: seq<Entry>, b: seq<Entry>)
    requires Banded(keys, ls) && r < |ls| && ls[r] == a + b && b != []
    ensures ScansOnce(ls[..r] + [a, b] + ls[r + 1..]) <==> forall e :: e in a && e.key == b[0].key ==> e.commitSeq == 0
  {
    hide KeysAscend, ScannedLeaves;
    var ls' := ls[..r] + [a, b] + ls[r + 1..];
    if forall e :: e in a && e.key == b[0].key ==> e.commitSeq == 0 {
      forall txn, cut ensures KeysAscend(ScannedLeaves(ls', txn, cut)) {
        StagedCutScans(keys, ls, r, a, b, txn, cut);
      }
    } else {
      var c :| c in a && c.key == b[0].key && c.commitSeq > 0;
      CommittedCutRepeats(ls, r, a, b, c);
    }
  }

  // ----- trees -----

  function SepsOf(t: TreeState): seq<Key> {
    SepKeys(t.nodes, t.root)
  }

  function LeavesOf(t: TreeState): seq<seq<Entry>> {
    Leaves(t.nodes, t.chain)
  }

  /** Lookups through the root find what a search along the chain finds, for every key and reader. */
  ghost predicate GetsAgree(t: TreeState) {
    forall key, txn, cut ::
      FirstVisible(RoutedEntries(t, key), key, txn, cut) == FirstVisible(Contents(t), key, txn, cut)
  }

  /** Scans along the chain emit exactly what lookups through the root return, for every reader. */
  ghost predicate ScansMatchGets(t: TreeState) {
    forall txn, cut, e ::
      e in ScannedLeaves(LeavesOf(t), txn, cut) <==> FirstVisible(RoutedEntries(t, e.key), e.key, txn, cut) == Some(e)
  }

  lemma AlignedRouting(t: TreeState, key: Key)
    requires StateOk(t) && Aligned(t.nodes, t.root, t.chain)
    ensures |SepsOf(t)| == |LeavesOf(t)| > 0
    ensures RoutedEntries(t, key) == LeavesOf(t)[Route(SepsOf(t), key)]
  {
    var r := Route(SepsOf(t), key);
    if t.nodes[t.root].Internal? {
      assert Children(t.nodes[t.root].seps)[r] == t.chain[r];
    }
    assert LinkedAt(t.nodes, t.chain, r);
  }

  lemma TreeAsLists(t: TreeState)
    requires StateOk(t) && Aligned(t.nodes, t.root, t.chain)
    ensures GetsAgree(t) <==> LookupsAgree(SepsOf(t), LeavesOf(t))
    ensures ScansMatchGets(t) <==> ScansAgree(SepsOf(t), LeavesOf(t))
  {
    hide FirstVisible, ScannedLeaves, StateOk, RoutedEntries, Route;
    var keys, ls := SepsOf(t), LeavesOf(t);
    forall key ensures |keys| == |ls| > 0 && RoutedEntries(t, key) == ls[Route(keys, key)] {
      AlignedRouting(t, key);
    }
    assert Contents(t) == Concat(ls);
    AlignedRouting(t, NULL_KEY);
  }

  lemma OrderedAgrees(t: TreeState)
    requires StateOk(t) && InOrder(t)
    ensures GetsAgree(t) && ScansMatchGets(t)
  {
    hide LookupsAgree, ScansAgree, GetsAgree, ScansMatchGets;
    TreeAsLists(t);
    BandedAgrees(SepsOf(t), LeavesOf(t));
  }

  /** In an ordered tree the duplicate test on the routed leaf answers for the whole tree. */
  lemma RoutedHolds(t: TreeState, e: Entry)
    requires StateOk(t) && InOrder(t)
    ensures Holds(RoutedEntries(t, e.key), e) <==> Holds(Contents(t), e)
  {
    var keys, ls := SepKeys(t.nodes, t.root), Leaves(t.nodes, t.chain);
    BandedHolds(keys, ls, e);
    var j := RoutedLeafInChain(t.nodes, t.root, t.chain, e.key);
    assert ls[j] == RoutedEntries(t, e.key);
  }

  /** After a split in an ordered tree the two paths agree exactly when the cut was clean. */
  lemma DirtySplitDisagrees(t: TreeState, t': TreeState, e: Entry)
    requires StateOk(t) && InOrder(t) && StateOk(t') && Reshaped(t, t', e) && !Holds(RoutedEntries(t, e.key), e)
    requires !CutsBetweenKeys(t.nodes, t.root, e)
    ensures !GetsAgree(t') && !ScansMatchGets(t')
  {
    hide LookupsAgree, ScansAgree, GetsAgree, ScansMatchGets, Banded, Inserted, InsertPos, StateOk, Overflows, Route;
    hide Holds;
    var keys, ls := SepsOf(t), LeavesOf(t);
    var r := Route(keys, e.key);
    var ins := Inserted(RoutedEntries(t, e.key), e);
    AlignedRouting(t, e.key);
    BandedInsert(keys, ls, e);
    var ls1 := ls[r := ins];
    assert ins == LeftHalf(ins) + RightHalf(ins);
    assert ls1[..r] == ls[..r] && ls1[r + 1..] == ls[r + 1..];
    DirtyCutDisagrees(keys, ls1, r, LeftHalf(ins), RightHalf(ins));
    TreeAsLists(t');
  }

  /**
   A put that returns, into an ordered tree, leaves the two access paths in agreement if and only
   if it does not split through the versions of one key.
   */
  lemma StepAgreement(t: TreeState, t': TreeState, e: Entry)
    requires StateOk(t) && InOrder(t) && PutStep(t, t', e)
    ensures GetsAgree(t') <==> KeepsOrder(t, e)
    ensures ScansMatchGets(t') <==> KeepsOrder(t, e)
  {
    hide GetsAgree, ScansMatchGets, StateOk, Reshaped, CutsBetweenKeys, Holds, InOrder, OwnershipKept;
    if KeepsOrder(t, e) {
      OrderedAgrees(t');
    } else {
      DirtySplitDisagrees(t, t', e);
    }
  }

  // ----- a root that lost half of its separators -----

  /** Routing by the first separators only sends every key past them to the last of their leaves. */
  lemma HalfRoute(keys: seq<Key>, mid: nat, key: Key)
    requires NonDecreasing(keys) && 0 < mid < |keys| && keys[0] <= key
    ensures Route(keys[..mid], key) == if key < keys[mid] then Route(keys, key) else mid - 1
  {
    var half := keys[..mid];
    if key < keys[mid] {
      var r := Route(keys, key);
      RouteUnique(half, key, r);
    } else {
      RouteUnique(half, key, mid - 1);
    }
  }

  lemma HalfLookup(keys: seq<Key>, ls: seq<seq<Entry>>, mid: nat, key: Key, txn: nat, cut: nat)
    requires Banded(keys, ls) && 0 < mid < |keys|
    ensures var r := Route(keys[..mid], key);
            && r < mid
            && FirstVisible(ls[r], key, txn, cut)
               == if key < keys[mid] then FirstVisible(Concat(ls), key, txn, cut) else None
  {
    hide Concat;
    HalfRoute(keys, mid, key);
    BandedLookup(keys, ls, key, txn, cut);
    if key >= keys[mid] {
      assert InBand(keys, mid - 1, ls[mid - 1]);
      LookupFails(ls[mid - 1], key, txn, cut);
    }
  }

  /**
   After a put that could not find the parent, as the 129th child makes it do, every key below the
   first separator that the root lost is found as before, and every key from it on is found no more,
   though the chain holds all versions.
   */
  lemma LostParentLookup(t: TreeState, t': TreeState, e: Entry, key: Key, txn: nat, cut: nat)
    requires StateOk(t) && InOrder(t) && LostParentStep(t, t', e) && !Holds(RoutedEntries(t, e.key), e)
    requires Overflows(Inserted(RoutedEntries(t, e.key), e)) && CutsBetweenKeys(t.nodes, t.root, e)
    ensures var r, p := Route(SepsOf(t), e.key), RightHalf(Inserted(RoutedEntries(t, e.key), e))[0].key;
            && r < |SepsOf(t)|
            && var keys := SplitKeys(SepsOf(t), r, p);
            FirstVisible(RoutedEntries(t', key), key, txn, cut)
            == if key < keys[|keys| / 2] then FirstVisible(Contents(t'), key, txn, cut) else None
  {
    hide Inserted, InsertPos, FirstVisible, Concat, Banded, Overflows, Holds, LeafOk, Covers, Route;
    AlignedRouting(t, e.key);
    var keys, ls, r := SepsOf(t), LeavesOf(t), Route(SepsOf(t), e.key);
    var ins := Inserted(RoutedEntries(t, e.key), e);
    assert ins != [] by { InsertedMore(RoutedEntries(t, e.key), e); }
    BandedInsert(keys, ls, e);
    var ls1 := ls[r := ins];
    assert ins == LeftHalf(ins) + RightHalf(ins) && ls1[..r] == ls[..r] && ls1[r + 1..] == ls[r + 1..];
    BandedSplit(keys, ls1, r, LeftHalf(ins), RightHalf(ins));
    var keys', ls' := SplitKeys(keys, r, RightHalf(ins)[0].key), LeavesOf(t');
    HalfLookup(keys', ls', |keys'| / 2, key, txn, cut);
    HalfRouted(t', keys', key);
  }

  lemma HalfRouted(t: TreeState, keys: seq<Key>, key: Key)
    requires Scannable(t) && HalfAfter(keys, t) && |keys| > 1
    ensures var r := Route(keys[..|keys| / 2], key);
            r < |t.chain| && RoutedEntries(t, key) == LeavesOf(t)[r]
  {
    var seps := t.nodes[t.root].seps;
    var r := Route(Keys(seps), key);
    assert Children(seps)[r] == t.chain[r];
    assert LinkedAt(t.nodes, t.chain, r);
  }

  // ----- separators -----

  /** Only the leaf of a one-leaf tree may be empty. */
  predicate Packed(t: TreeState) {
    |t.chain| == 1 || forall i :: 0 <= i < |t.chain| ==> LeavesOf(t)[i] != []
  }

  /** In an ordered tree without empty leaves the separators strictly increase. */
  lemma SeparatorsIncrease(t: TreeState, i: nat, j: nat)
    requires StateOk(t) && InOrder(t) && Packed(t) && i < j < |SepsOf(t)|
    ensures SepsOf(t)[i] < SepsOf(t)[j]
  {
    var keys, ls := SepsOf(t), LeavesOf(t);
    assert InBand(keys, i, ls[i]) && ls[i][0] in ls[i];
    assert keys[i] < keys[i + 1] <= keys[j];
  }

  /** A put leaves no leaf empty, unless it is the first one and its entry alone overflows the leaf. */
  lemma StepKeepsPacked(t: TreeState, t': TreeState, e: Entry)
    requires StateOk(t) && InOrder(t) && PutStep(t, t', e) && Packed(t)
    requires Contents(t) != [] || e.bytes <= SPLIT_BYTES
    ensures Packed(t')
  {
    hide Banded, Inserted, InsertPos, Linked, LinkedAt, OwnershipKept, Covers, Concat, Holds, ShapeAfter, LeafOk;
    if !Holds(RoutedEntries(t, e.key), e) {
      AlignedRouting(t, e.key);
      var ls, r := LeavesOf(t), Route(SepsOf(t), e.key);
      var ins := Inserted(RoutedEntries(t, e.key), e);
      if ls[r] == [] {
        assert ls == [[]];
        ConcatOne([]);
        assert ins == [e] by { FirstInsert(e); }
        BytesOne(e);
      }
      ShapePacked(SepsOf(t), ls, r, ins, SepsOf(t'), LeavesOf(t'));
    }
  }

  lemma ShapePacked(keys: seq<Key>, ls: seq<seq<Entry>>, r: nat, ins: seq<Entry>, keys': seq<Key>, ls': seq<seq<Entry>>)
    requires ShapeAfter(keys, ls, r, ins, keys', ls') && (|ls| == 1 || forall i :: 0 <= i < |ls| ==> ls[i] != [])
    requires |ins| > 1 || !Overflows(ins)
    ensures |ls'| == 1 || forall i :: 0 <= i < |ls'| ==> ls'[i] != []
  {
    hide Overflows;
  }

  lemma FirstInsert(e: Entry)
    ensures Inserted([], e) == [e]
  {
  }

  lemma BytesOne(e: Entry)
    ensures Bytes([e]) == e.bytes
  {
    assert [e][..0] == [];
    assert Bytes([e][..0]) == 0;
  }

  // ----- a lookup that returns an old version -----

  function OneVersion(n: nat): Entry {
    Entry(1, n, 1, false, Row(1, n), 48)
  }

  /** The versions n, n - 1, ..., 1 of one key, as a leaf stores them. */
  function OneKey(n: nat): (es: seq<Entry>)
    ensures |es| == n && forall i :: 0 <= i < n ==> es[i] == OneVersion(n - i)
  {
    seq(n, i requires 0 <= i < n => OneVersion(n - i))
  }

  /** Puts of the versions 1, 2, ... of one key into a new table. */
  ghost predicate OneKeyRun(states: seq<TreeState>) {
    && states != [] && StateOk(states[0]) && InOrder(states[0]) && LeavesOf(states[0]) == [[]]
    && forall i :: 0 <= i < |states| - 1 ==> PutStep(states[i], states[i + 1], OneVersion(i + 1))
  }

  lemma OneKeyInserted(n: nat)
    ensures Inserted(OneKey(n), OneVersion(n + 1)) == OneKey(n + 1) && !Holds(OneKey(n), OneVersion(n + 1))
    ensures Bytes(OneKey(n)) == 48 * n
  {
    InsertPosUnique(OneKey(n), OneVersion(n + 1), 0);
    BytesBounds(OneKey(n), 48, 48);
  }

  /** What a one-leaf tree of n versions of the key looks like. */
  ghost predicate Filled(t: TreeState, n: nat) {
    StateOk(t) && InOrder(t) && LeavesOf(t) == [OneKey(n)] && SepsOf(t) == [NULL_KEY]
  }

  lemma FillShape(t: TreeState, t': TreeState, n: nat)
    requires Filled(t, n) && PutStep(t, t', OneVersion(n + 1))
    ensures StateOk(t') && Aligned(t'.nodes, t'.root, t'.chain)
    ensures ShapeAfter([NULL_KEY], [OneKey(n)], 0, OneKey(n + 1), SepsOf(t'), LeavesOf(t'))
    ensures !Overflows(OneKey(n + 1)) ==> InOrder(t')
  {
    hide StateOk, Ordered, Inserted, InsertPos, Holds, Overflows, OwnershipKept, OneKey, Aligned, ShapeAfter, CleanCut;
    FilledAligned(t, n);
    AlignedRouting(t, 1);
    OneKeyInserted(n);
  }

  lemma FilledAligned(t: TreeState, n: nat)
    requires Filled(t, n)
    ensures Aligned(t.nodes, t.root, t.chain)
  {
  }

  lemma {:induction false} OneKeyFills(states: seq<TreeState>, n: nat)
    requires OneKeyRun(states) && n < |states| && n <= MAX_LEAF_ENTRIES
    ensures Filled(states[n], n)
  {
    hide StateOk, PutStep, Ordered;
    if n == 0 {
      assert OneKey(0) == [];
      EmptyTreeSeps(states[0]);
    } else {
      OneKeyFills(states, n - 1);
      OneKeyInserted(n);
      assert PutStep(states[n - 1], states[n], OneVersion(n - 1 + 1));
      FillShape(states[n - 1], states[n], n - 1);
    }
  }

  lemma EmptyTreeSeps(t: TreeState)
    requires StateOk(t) && InOrder(t) && |LeavesOf(t)| == 1
    ensures SepsOf(t) == [NULL_KEY]
  {
  }

  /** The 65th version of one key splits its leaf: a lookup then returns version 33, and a scan emits
      the key twice. */
  lemma StaleLookup(states: seq<TreeState>, reader: nat)
    requires OneKeyRun(states) && |states| == 66
    ensures FirstVisible(RoutedEntries(states[65], 1), 1, reader, 65) == Some(OneVersion(33))
    ensures FirstVisible(Contents(states[65]), 1, reader, 65) == Some(OneVersion(65))
    ensures ScannedLeaves(LeavesOf(states[65]), reader, 65) == [OneVersion(65), OneVersion(33)]
  {
    hide StateOk, PutStep, Ordered, FirstVisible, ScannedLeaves, OneKeyRun, OneKey, LeftHalf, RightHalf, ShapeAfter;
    var t' := states[65];
    assert PutStep(states[64], t', OneVersion(64 + 1)) by { LastPut(states); }
    OneKeyFills(states, 64);
    FillShape(states[64], t', 64);
    OneKeyHalves(SepsOf(t'), LeavesOf(t'));
    AlignedRouting(t', 1);
    StaleHalves(reader);
  }

  lemma OneKeyHalves(keys: seq<Key>, ls: seq<seq<Entry>>)
    requires ShapeAfter([NULL_KEY], [OneKey(64)], 0, OneKey(65), keys, ls)
    ensures keys == [NULL_KEY, 1] && ls == [LeftHalf(OneKey(65)), RightHalf(OneKey(65))]
  {
  }

  lemma StaleHalves(reader: nat)
    ensures var left, right := LeftHalf(OneKey(65)), RightHalf(OneKey(65));
            && FirstVisible(right, 1, reader, 65) == Some(OneVersion(33))
            && FirstVisible(Concat([left, right]), 1, reader, 65) == Some(OneVersion(65))
            && ScannedLeaves([left, right], reader, 65) == [OneVersion(65), OneVersion(33)]
  {
    hide FirstVisible, ScannedLeaves, Scanned;
    var left, right := LeftHalf(OneKey(65)), RightHalf(OneKey(65));
    HalfVersions(left, 65, reader);
    HalfVersions(right, 33, reader);
    FirstVisibleConcat(left, right, 1, reader, 65);
    ConcatTwo(left, right);
    ScannedJoin([left], [right], reader, 65);
    ScannedOne(left, reader, 65);
    ScannedOne(right, reader, 65);
    assert [left] + [right] == [left, right];
  }

  lemma LastPut(states: seq<TreeState>)
    requires OneKeyRun(states) && |states| == 66
    ensures PutStep(states[64], states[65], OneVersion(64 + 1))
  {
  }

  lemma ConcatTwo(a: seq<Entry>, b: seq<Entry>)
    ensures Concat([a, b]) == a + b
  {
    assert [a, b] == [a] + [b];
    ConcatSplit([a], [b]);
    ConcatOne(a);
    ConcatOne(b);
  }

  /** A run of versions of one key that starts with version n: the newest one is seen and scanned. */
  lemma HalfVersions(es: seq<Entry>, n: nat, reader: nat)
    requires 0 < |es| <= n <= 65 && forall i :: 0 <= i < |es| ==> es[i] == OneVersion(n - i)
    ensures FirstVisible(es, 1, reader, 65) == Some(OneVersion(n))
    ensures Scanned(es, reader, 65) == [OneVersion(n)]
  {
    assert es[..|es|] == es && es[|es|..] == [];
    assert es[0] == OneVersion(n);
  }
}
