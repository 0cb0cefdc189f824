/**
 Row versions in storage order, and what a reader sees in a sorted list of them.

 Keys are the ranks of the values a run uses in their comparison order, with rank 0 for
 Null: any finite set of values on which `==` and `compare` agree is numbered this way.
 */
module Versions {

  datatype Option<T> = None | Some(value: T)

  type Key = nat
  const NULL_KEY: Key := 0

  /** A row: the value of its "_id" column (NULL_KEY if it has none) and everything else. */
  datatype Row = Row(id: Key, body: nat)

  /** The payload of a tombstone. */
  const NO_ROW := Row(NULL_KEY, 0)

  /** One leaf entry. `commitSeq` 0 marks a staged write of `txn`; `bytes` is the encoded size. */
  datatype Entry = Entry(key: Key, commitSeq: nat, txn: nat, tombstone: bool, row: Row, bytes: nat)

  /** Storage order: key ascending, then commitSeq descending, then txn ascending. */
  predicate Precedes(a: Entry, b: Entry) {
    || a.key < b.key
    || (a.key == b.key && a.commitSeq > b.commitSeq)
    || (a.key == b.key && a.commitSeq == b.commitSeq && a.txn < b.txn)
  }

  predicate SameVersion(a: Entry, b: Entry) {
    a.key == b.key && a.commitSeq == b.commitSeq && a.txn == b.txn
  }

  predicate Holds(es: seq<Entry>, e: Entry) {
    exists x :: x in es && SameVersion(x, e)
  }

  predicate Sorted(es: seq<Entry>) {
    forall i, j :: 0 <= i < j < |es| ==> Precedes(es[i], es[j])
  }

  /** Who sees a version with this stamp and writer: a staged one its writer, a committed one every
      reader whose cut admits it. */
  predicate Seen(commitSeq: nat, writer: nat, txn: nat, visibleSeq: nat) {
    if commitSeq == 0 then writer == txn else commitSeq <= visibleSeq
  }

  predicate Visible(e: Entry, txn: nat, visibleSeq: nat) {
    Seen(e.commitSeq, e.txn, txn, visibleSeq)
  }

  // ----- lists in strictly ascending order -----

  predicate Rising<T>(a: seq<T>, rank: T -> int) {
    forall i, j :: 0 <= i < j < |a| ==> rank(a[i]) < rank(a[j])
  }

  lemma RisingLast<T>(a: seq<T>, b: seq<T>, rank: T -> int)
    requires Rising(a, rank) && Rising(b, rank) && a != [] && forall x :: x in a <==> x in b
    ensures b != [] && a[|a| - 1] == b[|b| - 1]
  {
    assert a[|a| - 1] in b && b != [];
    assert b[|b| - 1] in a;
    var i :| 0 <= i < |b| && b[i] == a[|a| - 1];
    var j :| 0 <= j < |a| && a[j] == b[|b| - 1];
  }

  /** Two strictly ascending lists with the same members are equal. */
  lemma {:induction false} RisingUnique<T>(a: seq<T>, b: seq<T>, rank: T -> int)
    requires Rising(a, rank) && Rising(b, rank) && forall x :: x in a <==> x in b
    ensures a == b
  {
    if a != [] {
      RisingLast(a, b, rank);
      var a', b', top := a[..|a| - 1], b[..|b| - 1], a[|a| - 1];
      forall x ensures x in a' <==> x in b' {
        assert x in a <==> x in a' || x == top;
        assert x in b <==> x in b' || x == top;
        assert top !in a' && top !in b';
      }
      RisingUnique(a', b', rank);
      assert a == a' + [top] && b == b' + [top];
    } else if b != [] {
      RisingLast(b, a, rank);
    }
  }

  // ----- insertion -----

  /** Where a new version goes: before the first entry it precedes. */
  function InsertPos(es: seq<Entry>, e: Entry): (p: nat)
    ensures p <= |es|
    ensures forall i :: 0 <= i < p ==> !Precedes(e, es[i])
    ensures p < |es| ==> Precedes(e, es[p])
  {
    if es == [] || Precedes(e, es[0]) then 0 else 1 + InsertPos(es[1..], e)
  }

  function Inserted(es: seq<Entry>, e: Entry): (r: seq<Entry>)
    ensures |r| == |es| + 1
  {
    var p := InsertPos(es, e);
    es[..p] + [e] + es[p..]
  }

  lemma InsertPosUnique(es: seq<Entry>, e: Entry, p: nat)
    requires p <= |es|
    requires forall i :: 0 <= i < p ==> !Precedes(e, es[i])
    requires p < |es| ==> Precedes(e, es[p])
    ensures InsertPos(es, e) == p
  {
    var q := InsertPos(es, e);
    assert q < |es| ==> Precedes(e, es[q]);
    assert forall i :: 0 <= i < q ==> !Precedes(e, es[i]);
  }

  lemma InsertedSorted(es: seq<Entry>, e: Entry)
    requires Sorted(es) && !Holds(es, e)
    ensures Sorted(Inserted(es, e))
    ensures multiset(Inserted(es, e)) == multiset(es) + multiset{e}
  {
    var p := InsertPos(es, e);
    var r := Inserted(es, e);
    forall i | 0 <= i < p ensures Precedes(es[i], e) {
      assert es[i] in es;
    }
    forall i | p <= i < |es| ensures Precedes(e, es[i]) {
      assert i > p ==> Precedes(es[p], es[i]);
    }
    forall i, j | 0 <= i < j < |r| ensures Precedes(r[i], r[j]) {
      assert r[i] == if i < p then es[i] else if i == p then e else es[i - 1];
      assert r[j] == if j < p then es[j] else if j == p then e else es[j - 1];
    }
    assert es == es[..p] + es[p..];
  }

  /** Inserting in the middle of a list whose ends lie on either side of the new version. */
  lemma InsertedBetween(left: seq<Entry>, mid: seq<Entry>, right: seq<Entry>, e: Entry)
    requires forall x :: x in left ==> !Precedes(e, x)
    requires forall x :: x in right ==> Precedes(e, x)
    ensures Inserted(left + mid + right, e) == left + Inserted(mid, e) + right
  {
    var all := left + mid + right;
    var p := InsertPos(mid, e);
    var q := |left| + p;
    forall i | 0 <= i < q ensures !Precedes(e, all[i]) {
      assert all[i] == if i < |left| then left[i] else mid[i - |left|];
    }
    if q < |all| {
      assert all[q] == if p < |mid| then mid[p] else right[0];
    }
    InsertPosUnique(all, e, q);
  }

  lemma SortedParts(a: seq<Entry>, b: seq<Entry>)
    requires Sorted(a + b)
    ensures Sorted(a) && Sorted(b)
    ensures forall i, j :: 0 <= i < |a| && 0 <= j < |b| ==> Precedes(a[i], b[j])
  {
    var ab := a + b;
    assert forall i :: 0 <= i < |a| ==> a[i] == ab[i];
    assert forall i :: 0 <= i < |b| ==> b[i] == ab[|a| + i];
  }

  // ----- what a reader sees -----

  /** The lookup loop: the first entry of the key that the reader may see. */
  function FirstVisible(es: seq<Entry>, key: Key, txn: nat, visibleSeq: nat): (r: Option<Entry>)
    ensures r.Some? ==> r.value in es && r.value.key == key && Visible(r.value, txn, visibleSeq)
  {
    if es == [] then None
    else if es[0].key == key && Visible(es[0], txn, visibleSeq) then Some(es[0])
    else FirstVisible(es[1..], key, txn, visibleSeq)
  }

  /** The lookup fails only if the reader may see no version of the key. */
  lemma {:induction false} LookupFails(es: seq<Entry>, key: Key, txn: nat, visibleSeq: nat)
    ensures FirstVisible(es, key, txn, visibleSeq).None? <==>
            forall e :: e in es && e.key == key ==> !Visible(e, txn, visibleSeq)
  {
    if es != [] {
      LookupFails(es[1..], key, txn, visibleSeq);
      assert forall e :: e in es <==> e == es[0] || e in es[1..];
    }
  }

  /**
   In a sorted list the lookup finds the visible version with the greatest commitSeq, and
   among equal stamps the one with the smallest transaction id.
   */
  lemma {:induction false} FirstVisibleIsNewest(es: seq<Entry>, key: Key, txn: nat, visibleSeq: nat)
    requires Sorted(es)
    ensures var r := FirstVisible(es, key, txn, visibleSeq);
            r.Some? ==> forall e :: e in es && e.key == key && Visible(e, txn, visibleSeq) ==>
                          e == r.value || Precedes(r.value, e)
  {
    if es != [] {
      FirstVisibleIsNewest(es[1..], key, txn, visibleSeq);
      assert forall e :: e in es <==> e == es[0] || e in es[1..];
    }
  }

  /** A reader's own staged write is found exactly when no committed version of the key is visible. */
  lemma OwnStagedWriteFound(es: seq<Entry>, key: Key, txn: nat, visibleSeq: nat, mine: Entry)
    requires Sorted(es) && mine in es && mine.key == key && mine.commitSeq == 0 && mine.txn == txn
    ensures FirstVisible(es, key, txn, visibleSeq) == Some(mine) <==>
            forall e :: e in es && e.key == key && e.commitSeq > 0 ==> e.commitSeq > visibleSeq
  {
    FirstVisibleIsNewest(es, key, txn, visibleSeq);
    LookupFails(es, key, txn, visibleSeq);
    var r := FirstVisible(es, key, txn, visibleSeq);
    assert Visible(mine, txn, visibleSeq);
    var i, j :| 0 <= i < |es| && es[i] == mine && 0 <= j < |es| && es[j] == r.value;
    assert i == j || Precedes(es[if i < j then i else j], es[if i < j then j else i]);
  }

  /** A committed version at or below the reader's cut hides the reader's own staged write. */
  lemma OwnStagedWriteHidden()
    ensures var committed, mine := Entry(1, 5, 1, false, Row(1, 10), 48), Entry(1, 0, 2, false, Row(1, 20), 48);
            Sorted([committed, mine]) && FirstVisible([committed, mine], 1, 2, 5) == Some(committed)
  {
  }

  lemma {:induction false} FirstVisibleConcat(a: seq<Entry>, b: seq<Entry>, key: Key, txn: nat, visibleSeq: nat)
    ensures FirstVisible(a + b, key, txn, visibleSeq)
         == if FirstVisible(a, key, txn, visibleSeq).Some? then FirstVisible(a, key, txn, visibleSeq)
            else FirstVisible(b, key, txn, visibleSeq)
  {
    if a == [] {
      assert a + b == b;
    } else {
      FirstVisibleConcat(a[1..], b, key, txn, visibleSeq);
      assert (a + b)[1..] == a[1..] + b;
    }
  }

  /**
   If a sorted leaf is cut inside the versions of one key, the key is routed to the right part; a
   lookup there is still correct exactly when the reader sees no version of it in the left part.
   */
  lemma CutHidesVersions(a: seq<Entry>, b: seq<Entry>, key: Key, txn: nat, visibleSeq: nat)
    requires Sorted(a + b)
    ensures FirstVisible(b, key, txn, visibleSeq) == FirstVisible(a + b, key, txn, visibleSeq) <==>
            forall e :: e in a && e.key == key ==> !Visible(e, txn, visibleSeq)
  {
    FirstVisibleConcat(a, b, key, txn, visibleSeq);
    LookupFails(a, key, txn, visibleSeq);
    SortedParts(a, b);
    var x, y := FirstVisible(a, key, txn, visibleSeq), FirstVisible(b, key, txn, visibleSeq);
    if x.Some? && y.Some? {
      var i, j :| 0 <= i < |a| && a[i] == x.value && 0 <= j < |b| && b[j] == y.value;
      assert Precedes(a[i], b[j]);
    }
  }

  // ----- scans -----

  /** The length of the leading group of equal keys. */
  function GroupLen(es: seq<Entry>): (n: nat)
    requires es != []
    ensures 1 <= n <= |es|
    ensures forall i :: 0 <= i < n ==> es[i].key == es[0].key
    ensures n < |es| ==> es[n].key != es[0].key
  {
    if |es| == 1 || es[1].key != es[0].key then 1 else 1 + GroupLen(es[1..])
  }

  function ToSeq<T>(o: Option<T>): seq<T> {
    if o.Some? then [o.value] else []
  }

  /** The scan loop over one leaf: per key group the first visible version. */
  function Scanned(es: seq<Entry>, txn: nat, visibleSeq: nat): seq<Entry> {
    if es == [] then []
    else
      var n := GroupLen(es);
      ToSeq(FirstVisible(es[..n], es[0].key, txn, visibleSeq)) + Scanned(es[n..], txn, visibleSeq)
  }

  predicate KeysAscend(es: seq<Entry>) {
    forall i, j :: 0 <= i < j < |es| ==> es[i].key < es[j].key
  }

  lemma LookupByGroup(es: seq<Entry>, key: Key, txn: nat, visibleSeq: nat)
    requires Sorted(es) && es != []
    ensures FirstVisible(es, key, txn, visibleSeq)
         == FirstVisible(if key == es[0].key then es[..GroupLen(es)] else es[GroupLen(es)..], key, txn, visibleSeq)
  {
    var n := GroupLen(es);
    assert es == es[..n] + es[n..];
    FirstVisibleConcat(es[..n], es[n..], key, txn, visibleSeq);
  }

  /**
   A scan of a sorted list emits every visible key exactly once, in ascending order, and
   for each of them the version a lookup returns.
   */
  lemma {:induction false} ScanAgreesWithLookup(es: seq<Entry>, txn: nat, visibleSeq: nat)
    requires Sorted(es)
    ensures KeysAscend(Scanned(es, txn, visibleSeq))
    ensures forall e :: e in Scanned(es, txn, visibleSeq) <==> FirstVisible(es, e.key, txn, visibleSeq) == Some(e)
  {
    if es != [] {
      var n := GroupLen(es);
      var k := es[0].key;
      var head := ToSeq(FirstVisible(es[..n], k, txn, visibleSeq));
      var tail := Scanned(es[n..], txn, visibleSeq);
      ScanAgreesWithLookup(es[n..], txn, visibleSeq);
      forall e | e in tail ensures e.key > k {
        assert FirstVisible(es[n..], e.key, txn, visibleSeq) == Some(e);
      }
      forall e: Entry
        ensures e in Scanned(es, txn, visibleSeq) <==> FirstVisible(es, e.key, txn, visibleSeq) == Some(e)
      {
        LookupByGroup(es, e.key, txn, visibleSeq);
        assert e in Scanned(es, txn, visibleSeq) <==> e in head || e in tail;
      }
      AscendConcat(head, tail);
    }
  }

  lemma AscendConcat(head: seq<Entry>, tail: seq<Entry>)
    requires |head| <= 1 && KeysAscend(tail)
    requires forall i, e :: 0 <= i < |head| && e in tail ==> head[i].key < e.key
    ensures KeysAscend(head + tail)
  {
  }
}
