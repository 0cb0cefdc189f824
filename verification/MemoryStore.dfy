/**
 The in-memory engine (includes/opendb/storage/InMemoryStorageEngine.hpp) as a value: per table and
 key an append-only list of versions, newest last, and the visibility cut.
 */
module MemoryStore {
  import opened Versions

  /** `commitSeq` 0 marks a staged write of `txn`. */
  datatype Version = Version(commitSeq: nat, txn: nat, tombstone: bool, row: Row)

  type Rows = map<Key, seq<Version>>

  datatype Db = Db(tables: map<string, Rows>, autoId: map<string, nat>, visibleSeq: nat)

  const EMPTY_DB := Db(map[], map[], 0)

  predicate Sees(v: Version, txn: nat, visibleSeq: nat) {
    Seen(v.commitSeq, v.txn, txn, visibleSeq)
  }

  predicate StagedBy(v: Version, txn: nat) {
    v.txn == txn && v.commitSeq == 0
  }

  function VersionsOf(db: Db, table: string, key: Key): seq<Version> {
    if table in db.tables && key in db.tables[table] then db.tables[table][key] else []
  }

  /** The reverse walk over one key's versions: the last visible one. */
  function Newest(vs: seq<Version>, txn: nat, visibleSeq: nat): (r: Option<Version>)
    ensures r.Some? ==> r.value in vs && Sees(r.value, txn, visibleSeq)
  {
    if vs == [] then None
    else if Sees(vs[|vs| - 1], txn, visibleSeq) then Some(vs[|vs| - 1])
    else Newest(vs[..|vs| - 1], txn, visibleSeq)
  }

  /** The row a reader gets out of a version: none for a tombstone. */
  function RowIn(v: Option<Version>): Option<Row> {
    if v.None? || v.value.tombstone then None else Some(v.value.row)
  }

  function Lookup(db: Db, txn: nat, table: string, key: Key): Option<Row> {
    RowIn(Newest(VersionsOf(db, table, key), txn, db.visibleSeq))
  }

  // ----- operations -----

  datatype Op =
    | PutOp(txn: nat, table: string, key: Key, row: Row)
    | RemoveOp(txn: nat, table: string, key: Key)
    | CommitOp(txn: nat, stamp: nat)
    | AbortOp(txn: nat)

  function Appended(db: Db, table: string, key: Key, v: Version): Db {
    var rows := if table in db.tables then db.tables[table] else map[];
    var vs := if key in rows then rows[key] else [];
    db.(tables := db.tables[table := rows[key := vs + [v]]])
  }

  function NextId(db: Db, table: string): Key {
    1 + if table in db.autoId then db.autoId[table] else 0
  }

  /** A put with a Null key takes the table's next automatic key and writes it into the row. */
  function AfterPut(db: Db, txn: nat, table: string, key: Key, row: Row): Db {
    if key == NULL_KEY then
      var id := NextId(db, table);
      Appended(db.(autoId := db.autoId[table := id]), table, id, Version(0, txn, false, row.(id := id)))
    else
      Appended(db, table, key, Version(0, txn, false, row))
  }

  function AfterRemove(db: Db, txn: nat, table: string, key: Key): Db {
    Appended(db, table, key, Version(0, txn, true, NO_ROW))
  }

  function StampOne(v: Version, txn: nat, stamp: nat): Version {
    if StagedBy(v, txn) then v.(commitSeq := stamp) else v
  }

  function Stamped(vs: seq<Version>, txn: nat, stamp: nat): (r: seq<Version>)
    ensures |r| == |vs|
  {
    seq(|vs|, i requires 0 <= i < |vs| => StampOne(vs[i], txn, stamp))
  }

  function StampedRows(rows: Rows, txn: nat, stamp: nat): Rows {
    map k | k in rows :: Stamped(rows[k], txn, stamp)
  }

  function Max(a: nat, b: nat): nat {
    if a < b then b else a
  }

  function AfterCommit(db: Db, txn: nat, stamp: nat): Db {
    db.(tables := map t | t in db.tables :: StampedRows(db.tables[t], txn, stamp),
        visibleSeq := Max(db.visibleSeq, stamp))
  }

  /** The versions that are not staged by the transaction, in order. */
  function Purged(vs: seq<Version>, txn: nat): seq<Version> {
    if vs == [] then []
    else
      var last := vs[|vs| - 1];
      Purged(vs[..|vs| - 1], txn) + if StagedBy(last, txn) then [] else [last]
  }

  /** Keys without a version left disappear. */
  function PurgedRows(rows: Rows, txn: nat): Rows {
    map k | k in rows && Purged(rows[k], txn) != [] :: Purged(rows[k], txn)
  }

  /** Tables without a key left disappear, and with them their automatic key counter. */
  function AfterAbort(db: Db, txn: nat): Db {
    var gone := set t | t in db.tables && PurgedRows(db.tables[t], txn) == map[];
    db.(tables := map t | t in db.tables && t !in gone :: PurgedRows(db.tables[t], txn),
        autoId := db.autoId - gone)
  }

  function Apply(db: Db, op: Op): Db {
    match op
    case PutOp(txn, table, key, row) => AfterPut(db, txn, table, key, row)
    case RemoveOp(txn, table, key) => AfterRemove(db, txn, table, key)
    case CommitOp(txn, stamp) => AfterCommit(db, txn, stamp)
    case AbortOp(txn) => AfterAbort(db, txn)
  }

  function Run(ops: seq<Op>): Db {
    if ops == [] then EMPTY_DB else Apply(Run(ops[..|ops| - 1]), ops[|ops| - 1])
  }

  lemma RunStep(front: seq<Op>, op: Op)
    ensures Run(front + [op]) == Apply(Run(front), op)
  {
    assert (front + [op])[..|front|] == front;
  }

  // ----- how the operations change one key -----

  lemma {:induction false} PurgedMember(vs: seq<Version>, txn: nat, v: Version)
    ensures v in Purged(vs, txn) <==> v in vs && !StagedBy(v, txn)
  {
    if vs != [] {
      PurgedMember(vs[..|vs| - 1], txn, v);
      assert v in vs <==> v in vs[..|vs| - 1] || v == vs[|vs| - 1];
    }
  }

  lemma PurgedAppend(vs: seq<Version>, v: Version, txn: nat)
    ensures Purged(vs + [v], txn) == Purged(vs, txn) + if StagedBy(v, txn) then [] else [v]
  {
    assert (vs + [v])[..|vs|] == vs;
  }

  /** What each operation does to the version list of one key, whatever happens to empty rows and tables. */
  lemma StepByKey(db: Db, op: Op, table: string, key: Key)
    ensures var vs, vs' := VersionsOf(db, table, key), VersionsOf(Apply(db, op), table, key);
            match op
            case PutOp(txn, t, k, row) =>
              var id := if k == NULL_KEY then NextId(db, t) else k;
              var r := if k == NULL_KEY then row.(id := id) else row;
              vs' == if t == table && id == key then vs + [Version(0, txn, false, r)] else vs
            case RemoveOp(txn, t, k) =>
              vs' == if t == table && k == key then vs + [Version(0, txn, true, NO_ROW)] else vs
            case CommitOp(txn, stamp) => vs' == Stamped(vs, txn, stamp)
            case AbortOp(txn) => vs' == Purged(vs, txn)
  {
    if op.AbortOp? && table in db.tables && key in db.tables[table] {
      var rows := PurgedRows(db.tables[table], op.txn);
      assert key in rows <==> Purged(db.tables[table][key], op.txn) != [];
    }
  }

  // ----- reachable states -----

  /** No version carries a stamp above the cut. */
  ghost predicate StampsBelow(db: Db) {
    forall t, k, v :: v in VersionsOf(db, t, k) ==> v.commitSeq <= db.visibleSeq
  }

  lemma StepKeepsStampsBelow(db: Db, op: Op)
    requires StampsBelow(db)
    ensures StampsBelow(Apply(db, op))
  {
    var db' := Apply(db, op);
    forall t, k, v | v in VersionsOf(db', t, k) ensures v.commitSeq <= db'.visibleSeq {
      StepByKey(db, op, t, k);
      if op.AbortOp? {
        PurgedMember(VersionsOf(db, t, k), op.txn, v);
      } else if op.CommitOp? {
        var i :| 0 <= i < |VersionsOf(db', t, k)| && VersionsOf(db', t, k)[i] == v;
        assert VersionsOf(db, t, k)[i] in VersionsOf(db, t, k);
      }
    }
  }

  lemma {:induction false} RunStampsBelow(ops: seq<Op>)
    ensures StampsBelow(Run(ops))
  {
    if ops != [] {
      RunStampsBelow(ops[..|ops| - 1]);
      StepKeepsStampsBelow(Run(ops[..|ops| - 1]), ops[|ops| - 1]);
    }
  }

  ghost predicate StagesNothing(db: Db, txn: nat) {
    forall t, k, v :: v in VersionsOf(db, t, k) ==> !StagedBy(v, txn)
  }

  // ----- commit -----

  lemma {:induction false} CommitShowsOwnView(vs: seq<Version>, txn: nat, stamp: nat, visibleSeq: nat, reader: nat)
    requires stamp > 0
    requires forall v :: v in vs ==> v.commitSeq <= visibleSeq && (reader == txn || !StagedBy(v, reader))
    ensures RowIn(Newest(Stamped(vs, txn, stamp), reader, Max(visibleSeq, stamp))) == RowIn(Newest(vs, txn, visibleSeq))
  {
    if vs != [] {
      var front := vs[..|vs| - 1];
      CommitShowsOwnView(front, txn, stamp, visibleSeq, reader);
      assert Stamped(vs, txn, stamp)[..|vs| - 1] == Stamped(front, txn, stamp);
      assert vs[|vs| - 1] in vs;
    }
  }

  /**
   On every reachable state a commit with a positive stamp makes exactly what the transaction saw
   just before visible to every reader that stages nothing, itself included.
   */
  lemma CommitPublishes(ops: seq<Op>, txn: nat, stamp: nat, reader: nat, table: string, key: Key)
    requires stamp > 0 && (reader == txn || StagesNothing(Run(ops), reader))
    ensures Lookup(Run(ops + [CommitOp(txn, stamp)]), reader, table, key) == Lookup(Run(ops), txn, table, key)
  {
    var db := Run(ops);
    RunStampsBelow(ops);
    assert (ops + [CommitOp(txn, stamp)])[..|ops|] == ops;
    StepByKey(db, CommitOp(txn, stamp), table, key);
    CommitShowsOwnView(VersionsOf(db, table, key), txn, stamp, db.visibleSeq, reader);
  }

  /** A commit with stamp 0 publishes nothing. */
  lemma StampZeroPublishesNothing(db: Db, txn: nat, table: string, key: Key)
    ensures VersionsOf(AfterCommit(db, txn, 0), table, key) == VersionsOf(db, table, key)
    ensures AfterCommit(db, txn, 0).visibleSeq == db.visibleSeq
  {
    StepByKey(db, CommitOp(txn, 0), table, key);
    assert Stamped(VersionsOf(db, table, key), txn, 0) == VersionsOf(db, table, key);
  }

  // ----- abort -----

  lemma {:induction false} PurgeInvisible(vs: seq<Version>, txn: nat, reader: nat, visibleSeq: nat)
    requires reader != txn
    ensures Newest(Purged(vs, txn), reader, visibleSeq) == Newest(vs, reader, visibleSeq)
  {
    if vs != [] {
      var front, last := vs[..|vs| - 1], vs[|vs| - 1];
      PurgeInvisible(front, txn, reader, visibleSeq);
      if StagedBy(last, txn) {
        assert Purged(vs, txn) == Purged(front, txn);
      } else {
        assert Purged(vs, txn) == Purged(front, txn) + [last];
        assert Purged(vs, txn)[..|Purged(vs, txn)| - 1] == Purged(front, txn);
      }
    }
  }

  /** An abort is invisible to every other reader. */
  lemma AbortInvisible(db: Db, txn: nat, reader: nat, table: string, key: Key)
    requires reader != txn
    ensures Lookup(AfterAbort(db, txn), reader, table, key) == Lookup(db, reader, table, key)
  {
    StepByKey(db, AbortOp(txn), table, key);
    PurgeInvisible(VersionsOf(db, table, key), txn, reader, db.visibleSeq);
  }

  /** An abort takes a table away, and its counter with it, exactly when the transaction staged all its
      versions; rows without versions do not outlive it either. */
  lemma AbortDropsIff(db: Db, txn: nat, table: string)
    requires table in db.tables
    ensures var db' := AfterAbort(db, txn);
            && (table in db'.tables <==>
                exists k, v :: v in VersionsOf(db, table, k) && !(v.txn == txn && v.commitSeq == 0))
            && (table in db'.autoId <==> table in db.autoId && table in db'.tables)
            && (table in db'.autoId ==> db'.autoId[table] == db.autoId[table])
            && (table in db'.tables ==> forall k :: k in db'.tables[table] ==> db'.tables[table][k] != [])
  {
    hide Purged;
    var rows := PurgedRows(db.tables[table], txn);
    if rows != map[] {
      var k :| k in rows;
      var v := rows[k][0];
      PurgedMember(VersionsOf(db, table, k), txn, v);
      assert v in VersionsOf(db, table, k) && !(v.txn == txn && v.commitSeq == 0);
    }
    forall k, v | v in VersionsOf(db, table, k) && !(v.txn == txn && v.commitSeq == 0) ensures k in rows {
      PurgedMember(VersionsOf(db, table, k), txn, v);
    }
  }

  predicate WrittenBy(op: Op, txn: nat) {
    (op.PutOp? || op.RemoveOp?) && op.txn == txn
  }

  // ----- scan -----

  /** The keys of a table in comparison order. */
  function Ascending(keys: set<Key>): (r: seq<Key>)
    ensures forall k :: k in r <==> k in keys
    ensures forall i, j :: 0 <= i < j < |r| ==> r[i] < r[j]
    ensures |r| == |keys|
  {
    if keys == {} then []
    else
      var top := Greatest(keys);
      var below := Ascending(keys - {top});
      GreatestLast(keys, top, below);
      below + [top]
  }

  lemma GreatestLast(keys: set<Key>, top: Key, below: seq<Key>)
    requires top in keys && forall k :: k in keys ==> k <= top
    requires forall k :: k in below <==> k in keys - {top}
    requires forall i, j :: 0 <= i < j < |below| ==> below[i] < below[j]
    ensures var r := below + [top];
            && (forall k :: k in r <==> k in keys)
            && forall i, j :: 0 <= i < j < |r| ==> r[i] < r[j]
  {
    forall i | 0 <= i < |below| ensures below[i] < top {
      assert below[i] in below;
    }
  }

  function Greatest(keys: set<Key>): (m: Key)
    requires keys != {}
    ensures m in keys && forall k :: k in keys ==> k <= m
  {
    ThereIsAGreatest(keys);
    var m :| m in keys && forall k :: k in keys ==> k <= m;
    m
  }

  lemma {:induction false} ThereIsAGreatest(keys: set<Key>)
    requires keys != {}
    ensures exists m :: m in keys && forall k :: k in keys ==> k <= m
  {
    var x :| x in keys;
    if keys != {x} {
      ThereIsAGreatest(keys - {x});
      var m :| m in keys - {x} && forall k :: k in keys - {x} ==> k <= m;
      var top := if m < x then x else m;
      assert forall k :: k in keys ==> k == x || k in keys - {x};
      assert top in keys && forall k :: k in keys ==> k <= top;
    }
  }

  function TableKeys(db: Db, table: string): set<Key> {
    if table in db.tables then db.tables[table].Keys else {}
  }

  /** The rows of the given keys that the reader can see, in the order of the keys. */
  function Gathered(db: Db, txn: nat, table: string, keys: seq<Key>): seq<Row> {
    if keys == [] then []
    else
      var last := keys[|keys| - 1];
      Gathered(db, txn, table, keys[..|keys| - 1]) + ToSeq(Lookup(db, txn, table, last))
  }

  lemma GatheredOneMore(db: Db, txn: nat, table: string, keys: seq<Key>, i: nat)
    requires i < |keys|
    ensures Gathered(db, txn, table, keys[..i + 1])
         == Gathered(db, txn, table, keys[..i]) + ToSeq(Lookup(db, txn, table, keys[i]))
  {
    assert keys[..i + 1][..i] == keys[..i];
  }

  function ScanRows(db: Db, txn: nat, table: string): seq<Row> {
    Gathered(db, txn, table, Ascending(TableKeys(db, table)))
  }

  /** The keys among the given ones that the reader can see a row of. */
  function SeenKeys(db: Db, txn: nat, table: string, keys: seq<Key>): (r: seq<Key>)
    ensures forall k :: k in r <==> k in keys && Lookup(db, txn, table, k).Some?
  {
    if keys == [] then []
    else
      var last := keys[|keys| - 1];
      SeenKeys(db, txn, table, keys[..|keys| - 1]) + if Lookup(db, txn, table, last).Some? then [last] else []
  }

  lemma {:induction false} GatheredBySeen(db: Db, txn: nat, table: string, keys: seq<Key>)
    requires forall i, j :: 0 <= i < j < |keys| ==> keys[i] < keys[j]
    ensures var seen := SeenKeys(db, txn, table, keys);
            var out := Gathered(db, txn, table, keys);
            && |out| == |seen|
            && (forall i :: 0 <= i < |out| ==> Lookup(db, txn, table, seen[i]) == Some(out[i]))
            && forall i, j :: 0 <= i < j < |seen| ==> seen[i] < seen[j]
  {
    if keys != [] {
      GatheredBySeen(db, txn, table, keys[..|keys| - 1]);
      var seen := SeenKeys(db, txn, table, keys[..|keys| - 1]);
      forall i | 0 <= i < |seen| ensures seen[i] < keys[|keys| - 1] {
        assert seen[i] in keys[..|keys| - 1];
      }
    }
  }

  /** A scan emits exactly the rows that lookups find, one per key, in key order. */
  lemma ScanIsLookups(db: Db, txn: nat, table: string) returns (keys: seq<Key>)
    ensures forall i, j :: 0 <= i < j < |keys| ==> keys[i] < keys[j]
    ensures forall k :: k in keys <==> Lookup(db, txn, table, k).Some?
    ensures |ScanRows(db, txn, table)| == |keys|
    ensures forall i :: 0 <= i < |keys| ==> Lookup(db, txn, table, keys[i]) == Some(ScanRows(db, txn, table)[i])
  {
    var all := Ascending(TableKeys(db, table));
    keys := SeenKeys(db, txn, table, all);
    GatheredBySeen(db, txn, table, all);
  }
}
