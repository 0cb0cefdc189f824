/**
 A two-level tree whose separators bound their leaves, as a list of separator keys and a
 list of leaf contents: concatenating the leaves gives one sorted list, and routing by
 separator finds the only leaf that can hold a key.
 */
module Bands {
  import opened Versions

  function Concat(ls: seq<seq<Entry>>): seq<Entry> {
    if ls == [] then [] else ls[0] + Concat(ls[1..])
  }

  /** Leaf i holds keys from separator i up to but not including separator i + 1. */
  predicate InBand(keys: seq<Key>, i: nat, es: seq<Entry>)
    requires i < |keys|
  {
    forall e :: e in es ==> keys[i] <= e.key && (i + 1 < |keys| ==> e.key < keys[i + 1])
  }

  predicate NonDecreasing(keys: seq<Key>) {
    forall i, j :: 0 <= i < j < |keys| ==> keys[i] <= keys[j]
  }

  /** The separators bound their leaves. Two separators may be equal, with an empty leaf between them. */
  ghost predicate Banded(keys: seq<Key>, ls: seq<seq<Entry>>) {
    && |keys| == |ls| > 0
    && keys[0] == NULL_KEY
    && NonDecreasing(keys)
    && forall i :: 0 <= i < |ls| ==> Sorted(ls[i]) && InBand(keys, i, ls[i])
  }

  /** The routing loop: the last separator of the leading run of separators at or below the key. */
  function Route(keys: seq<Key>, key: Key): (r: nat)
    ensures keys != [] ==> r < |keys|
    ensures r > 0 ==> r < |keys| && keys[r] <= key
    ensures keys != [] && r + 1 < |keys| && keys[0] <= key ==> keys[r + 1] > key
  {
    if |keys| <= 1 || keys[1] > key then 0 else 1 + Route(keys[1..], key)
  }

  // ----- concatenation -----

  lemma {:induction false} ConcatSplit(a: seq<seq<Entry>>, b: seq<seq<Entry>>)
    ensures Concat(a + b) == Concat(a) + Concat(b)
  {
    hide Concat;
    if a == [] {
      assert a + b == b;
      ConcatNone();
    } else {
      ConcatSplit(a[1..], b);
      assert (a + b)[1..] == a[1..] + b && (a + b)[0] == a[0];
      ConcatHead(a + b);
      ConcatHead(a);
    }
  }

  lemma ConcatNone()
    ensures Concat([]) == []
  {
  }

  lemma ConcatHead(ls: seq<seq<Entry>>)
    requires ls != []
    ensures Concat(ls) == ls[0] + Concat(ls[1..])
  {
  }

  lemma ConcatOne(es: seq<Entry>)
    ensures Concat([es]) == es
  {
    assert [es][1..] == [];
    assert Concat([es][1..]) == [];
  }

  lemma ConcatNext(ls: seq<seq<Entry>>, i: nat)
    requires i < |ls|
    ensures Concat(ls[..i + 1]) == Concat(ls[..i]) + ls[i]
  {
    assert ls[..i + 1] == ls[..i] + [ls[i]];
    ConcatSplit(ls[..i], [ls[i]]);
    ConcatOne(ls[i]);
  }

  lemma ConcatAround(ls: seq<seq<Entry>>, r: nat)
    requires r < |ls|
    ensures Concat(ls) == Concat(ls[..r]) + ls[r] + Concat(ls[r + 1..])
  {
    assert ls == ls[..r] + ls[r..];
    ConcatSplit(ls[..r], ls[r..]);
    assert ls[r..][1..] == ls[r + 1..];
  }

  lemma {:induction false} InConcat(ls: seq<seq<Entry>>, e: Entry) returns (i: nat)
    requires e in Concat(ls)
    ensures i < |ls| && e in ls[i]
  {
    if e in ls[0] {
      i := 0;
    } else {
      i := InConcat(ls[1..], e);
      i := i + 1;
    }
  }

  lemma LeafInConcat(ls: seq<seq<Entry>>, i: nat, e: Entry)
    requires i < |ls| && e in ls[i]
    ensures e in Concat(ls)
  {
    ConcatAround(ls, i);
  }

  /** Replacing one leaf by its two halves does not change the concatenation. */
  lemma ConcatHalves(ls: seq<seq<Entry>>, r: nat, a: seq<Entry>, b: seq<Entry>)
    requires r < |ls|
    ensures Concat(ls[..r] + [a, b] + ls[r + 1..]) == Concat(ls[..r]) + (a + b) + Concat(ls[r + 1..])
  {
    ConcatSplit(ls[..r] + [a, b], ls[r + 1..]);
    ConcatSplit(ls[..r], [a, b]);
    assert [a, b] == [a] + [b];
    ConcatSplit([a], [b]);
    ConcatOne(a);
    ConcatOne(b);
  }

  // ----- order -----

  /** Entries of leaves left and right of leaf r stay left and right of its band. */
  lemma SidesOfBand(keys: seq<Key>, ls: seq<seq<Entry>>, r: nat)
    requires Banded(keys, ls) && r < |ls|
    ensures forall e :: e in Concat(ls[..r]) ==> e.key < keys[r]
    ensures r + 1 < |keys| ==> forall e :: e in Concat(ls[r + 1..]) ==> keys[r + 1] <= e.key
    ensures r + 1 == |keys| ==> Concat(ls[r + 1..]) == []
  {
    forall e | e in Concat(ls[..r]) ensures e.key < keys[r] {
      var i := InConcat(ls[..r], e);
      assert InBand(keys, i, ls[i]);
    }
    if r + 1 < |keys| {
      forall e | e in Concat(ls[r + 1..]) ensures keys[r + 1] <= e.key {
        var i := InConcat(ls[r + 1..], e);
        assert InBand(keys, r + 1 + i, ls[r + 1 + i]);
      }
    }
  }

  predicate KeysBelow(a: seq<Entry>, b: seq<Entry>) {
    forall x, y :: x in a && y in b ==> x.key < y.key
  }

  lemma {:induction false} BandedPrefixSorted(keys: seq<Key>, ls: seq<seq<Entry>>, n: nat)
    requires Banded(keys, ls) && n <= |ls|
    ensures Sorted(Concat(ls[..n]))
  {
    if n > 0 {
      BandedPrefixSorted(keys, ls, n - 1);
      SidesOfBand(keys, ls, n - 1);
      assert InBand(keys, n - 1, ls[n - 1]);
      ConcatNext(ls, n - 1);
    }
  }

  lemma BandedSorted(keys: seq<Key>, ls: seq<seq<Entry>>)
    requires Banded(keys, ls)
    ensures Sorted(Concat(ls))
  {
    BandedPrefixSorted(keys, ls, |ls|);
    assert ls[..|ls|] == ls;
  }

  /** Looking a key up in the routed leaf is looking it up in the whole tree. */
  lemma BandedLookup(keys: seq<Key>, ls: seq<seq<Entry>>, key: Key, txn: nat, visibleSeq: nat)
    requires Banded(keys, ls)
    ensures FirstVisible(Concat(ls), key, txn, visibleSeq) == FirstVisible(ls[Route(keys, key)], key, txn, visibleSeq)
  {
    var r := Route(keys, key);
    ConcatAround(ls, r);
    SidesOfBand(keys, ls, r);
    FirstVisibleConcat(Concat(ls[..r]) + ls[r], Concat(ls[r + 1..]), key, txn, visibleSeq);
    FirstVisibleConcat(Concat(ls[..r]), ls[r], key, txn, visibleSeq);
  }

  /** A version is in the tree exactly when it is in the routed leaf. */
  lemma BandedHolds(keys: seq<Key>, ls: seq<seq<Entry>>, e: Entry)
    requires Banded(keys, ls)
    ensures Holds(Concat(ls), e) <==> Holds(ls[Route(keys, e.key)], e)
  {
    var r := Route(keys, e.key);
    ConcatAround(ls, r);
    SidesOfBand(keys, ls, r);
  }

  lemma InsertedMembers(es: seq<Entry>, e: Entry)
    ensures forall x :: x in Inserted(es, e) ==> x == e || x in es
  {
  }

  lemma InsertedMore(es: seq<Entry>, e: Entry)
    ensures |Inserted(es, e)| == |es| + 1
  {
  }

  /** Inserting into the routed leaf is inserting into the sorted whole. */
  lemma BandedInsert(keys: seq<Key>, ls: seq<seq<Entry>>, e: Entry)
    requires Banded(keys, ls) && !Holds(ls[Route(keys, e.key)], e)
    ensures var r := Route(keys, e.key);
            && Banded(keys, ls[r := Inserted(ls[r], e)])
            && Concat(ls[r := Inserted(ls[r], e)]) == Inserted(Concat(ls), e)
  {
    hide Inserted, InsertPos, Concat;
    var r := Route(keys, e.key);
    InsertedMembers(ls[r], e);
    var leaf := Inserted(ls[r], e);
    var ls' := ls[r := leaf];
    var left, right := Concat(ls[..r]), Concat(ls[r + 1..]);
    ConcatAround(ls, r);
    ConcatAround(ls', r);
    assert ls'[..r] == ls[..r] && ls'[r + 1..] == ls[r + 1..];
    SidesOfBand(keys, ls, r);
    InsertedSorted(ls[r], e);
    assert InBand(keys, r, ls[r]);
    assert InBand(keys, r, leaf);
    InsertedBetween(left, ls[r], right, e);
  }

  /** A split does not cut through the versions of one key. */
  predicate CleanCut(a: seq<Entry>, b: seq<Entry>)
    requires b != []
  {
    a == [] || a[|a| - 1].key < b[0].key
  }

  /** With the first key of the right half promoted, a split keeps the separators bounding their leaves
      exactly when it does not cut through the versions of one key. */
  lemma BandedSplit(keys: seq<Key>, ls: seq<seq<Entry>>, r: nat, a: seq<Entry>, b: seq<Entry>)
    requires Banded(keys, ls) && r < |ls| && ls[r] == a + b && b != []
    ensures Banded(keys[..r + 1] + [b[0].key] + keys[r + 1..], ls[..r] + [a, b] + ls[r + 1..]) <==> CleanCut(a, b)
  {
    var p := b[0].key;
    var keys' := keys[..r + 1] + [p] + keys[r + 1..];
    var ls' := ls[..r] + [a, b] + ls[r + 1..];
    assert InBand(keys, r, ls[r]);
    assert forall e :: e in a || e in b ==> e in ls[r];
    assert b[0] in b;
    assert ls'[r] == a && ls'[r + 1] == b && keys'[r] == keys[r] && keys'[r + 1] == p;
    if CleanCut(a, b) {
      if a != [] {
        assert a[|a| - 1] in a;
      }
      forall i | 0 <= i < |ls'| ensures Sorted(ls'[i]) && InBand(keys', i, ls'[i]) {
        HalvesInBand(keys, ls, r, a, b, i);
      }
      assert NonDecreasing(keys');
    } else {
      assert a[|a| - 1] in a && ls[r][|a| - 1] == a[|a| - 1] && ls[r][|a|] == b[0];
      assert Precedes(ls[r][|a| - 1], ls[r][|a|]);
      assert !InBand(keys', r, ls'[r]);
    }
  }

  lemma HalvesInBand(keys: seq<Key>, ls: seq<seq<Entry>>, r: nat, a: seq<Entry>, b: seq<Entry>, i: nat)
    requires Banded(keys, ls) && r < |ls| && ls[r] == a + b && b != [] && CleanCut(a, b)
    requires i <= |ls|
    ensures var keys' := keys[..r + 1] + [b[0].key] + keys[r + 1..];
            var ls' := ls[..r] + [a, b] + ls[r + 1..];
            Sorted(ls'[i]) && InBand(keys', i, ls'[i])
  {
    var keys' := keys[..r + 1] + [b[0].key] + keys[r + 1..];
    var ls' := ls[..r] + [a, b] + ls[r + 1..];
    if i < r {
      assert ls'[i] == ls[i] && InBand(keys, i, ls[i]);
      assert keys'[i] == keys[i] && keys'[i + 1] == keys[i + 1];
    } else if i == r {
      assert ls'[i] == a && InBand(keys, r, ls[r]);
      SortedParts(a, b);
      forall e | e in a ensures e in ls[r] && e.key < b[0].key {
        var j :| 0 <= j < |a| && a[j] == e;
        assert j < |a| - 1 ==> Precedes(a[j], a[|a| - 1]);
      }
    } else if i == r + 1 {
      assert ls'[i] == b && InBand(keys, r, ls[r]);
      SortedParts(a, b);
      forall e | e in b ensures e in ls[r] && b[0].key <= e.key {
        var j :| 0 <= j < |b| && b[j] == e;
        assert j > 0 ==> Precedes(b[0], b[j]);
      }
    } else {
      assert ls'[i] == ls[i - 1] && InBand(keys, i - 1, ls[i - 1]);
      assert keys'[i] == keys[i - 1] && (i + 1 < |keys'| ==> keys'[i + 1] == keys[i]);
    }
  }

  // ----- scans leaf by leaf -----

  /** The scan over the sibling chain: each leaf scanned on its own. */
  function ScannedLeaves(ls: seq<seq<Entry>>, txn: nat, visibleSeq: nat): seq<Entry> {
    if ls == [] then []
    else ScannedLeaves(ls[..|ls| - 1], txn, visibleSeq) + Scanned(ls[|ls| - 1], txn, visibleSeq)
  }

  lemma {:induction false} InScannedLeaves(ls: seq<seq<Entry>>, txn: nat, visibleSeq: nat, e: Entry) returns (i: nat)
    requires e in ScannedLeaves(ls, txn, visibleSeq)
    ensures i < |ls| && e in Scanned(ls[i], txn, visibleSeq)
  {
    if e in Scanned(ls[|ls| - 1], txn, visibleSeq) {
      i := |ls| - 1;
    } else {
      i := InScannedLeaves(ls[..|ls| - 1], txn, visibleSeq, e);
    }
  }

  lemma {:induction false} LeafIsScanned(ls: seq<seq<Entry>>, txn: nat, visibleSeq: nat, i: nat, e: Entry)
    requires i < |ls| && e in Scanned(ls[i], txn, visibleSeq)
    ensures e in ScannedLeaves(ls, txn, visibleSeq)
  {
    if i < |ls| - 1 {
      LeafIsScanned(ls[..|ls| - 1], txn, visibleSeq, i, e);
    }
  }

  lemma {:induction false} BandedScanPrefix(keys: seq<Key>, ls: seq<seq<Entry>>, n: nat, txn: nat, visibleSeq: nat)
    requires Banded(keys, ls) && n <= |ls|
    ensures KeysAscend(ScannedLeaves(ls[..n], txn, visibleSeq))
  {
    hide Scanned, FirstVisible;
    if n > 0 {
      BandedScanPrefix(keys, ls, n - 1, txn, visibleSeq);
      ScanAgreesWithLookup(ls[n - 1], txn, visibleSeq);
      var head, tail := ScannedLeaves(ls[..n - 1], txn, visibleSeq), Scanned(ls[n - 1], txn, visibleSeq);
      assert ls[..n][..n - 1] == ls[..n - 1];
      assert InBand(keys, n - 1, ls[n - 1]);
      forall e | e in head ensures e.key < keys[n - 1] {
        var i := InScannedLeaves(ls[..n - 1], txn, visibleSeq, e);
        ScanAgreesWithLookup(ls[i], txn, visibleSeq);
        assert InBand(keys, i, ls[i]);
      }
      forall e | e in tail ensures keys[n - 1] <= e.key {
        assert FirstVisible(ls[n - 1], e.key, txn, visibleSeq) == Some(e);
      }
      forall i, j | 0 <= i < j < |head + tail| ensures (head + tail)[i].key < (head + tail)[j].key {
        assert i < |head| ==> (head + tail)[i] in head;
        assert j >= |head| ==> (head + tail)[j] in tail;
      }
    }
  }

  /** Scanning the leaves one by one emits each visible key once, ascending, as a lookup returns it. */
  lemma BandedScan(keys: seq<Key>, ls: seq<seq<Entry>>, txn: nat, visibleSeq: nat)
    requires Banded(keys, ls)
    ensures KeysAscend(ScannedLeaves(ls, txn, visibleSeq))
    ensures forall e :: e in ScannedLeaves(ls, txn, visibleSeq) <==>
                        FirstVisible(Concat(ls), e.key, txn, visibleSeq) == Some(e)
  {
    BandedScanPrefix(keys, ls, |ls|, txn, visibleSeq);
    assert ls[..|ls|] == ls;
    forall e: Entry ensures e in ScannedLeaves(ls, txn, visibleSeq) <==>
                            FirstVisible(Concat(ls), e.key, txn, visibleSeq) == Some(e)
    {
      BandedLookup(keys, ls, e.key, txn, visibleSeq);
      var r := Route(keys, e.key);
      ScanAgreesWithLookup(ls[r], txn, visibleSeq);
      if e in ScannedLeaves(ls, txn, visibleSeq) {
        var i := InScannedLeaves(ls, txn, visibleSeq, e);
        ScanAgreesWithLookup(ls[i], txn, visibleSeq);
        assert InBand(keys, i, ls[i]);
        RouteUnique(keys, e.key, i);
      } else if e in Scanned(ls[r], txn, visibleSeq) {
        LeafIsScanned(ls, txn, visibleSeq, r, e);
      }
    }
  }

  lemma RouteUnique(keys: seq<Key>, key: Key, i: nat)
    requires NonDecreasing(keys) && i < |keys| && keys[0] <= key
    requires keys[i] <= key && (i + 1 < |keys| ==> key < keys[i + 1])
    ensures Route(keys, key) == i
  {
    var r := Route(keys, key);
    assert r > 0 ==> keys[r] <= key;
  }
}
