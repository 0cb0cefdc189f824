/**
 The B+tree-backed engine (includes/opendb/storage/LocalFileStorageProvider.hpp) on values, and its
 agreement with the in-memory engine. A table is the sorted list of versions its tree stores. A
 commit puts every staged version again under its stamp and leaves the staged one behind; an abort
 does nothing.
 */
module LocalStore {
  import opened Versions
  import opened MemoryStore

  datatype LocalDb = LocalDb(tables: map<string, seq<Entry>>, autoId: map<string, nat>, visibleSeq: nat)

  /** The encoded size of an entry; any size at all will do here. */
  type SizeOf = (Key, bool, Row) -> nat

  /** A put is refused if the tree holds the same version, and its caller does not look. */
  function Stored(es: seq<Entry>, e: Entry): seq<Entry> {
    if Versions.Holds(es, e) then es else Inserted(es, e)
  }

  /** The staged versions of a transaction in storage order. */
  function StagedOf(es: seq<Entry>, txn: nat): seq<Entry> {
    if es == [] then []
    else
      var last := es[|es| - 1];
      StagedOf(es[..|es| - 1], txn) + if last.commitSeq == 0 && last.txn == txn then [last] else []
  }

  function Reput(es: seq<Entry>, staged: seq<Entry>, stamp: nat): seq<Entry> {
    if staged == [] then es
    else Stored(Reput(es, staged[..|staged| - 1], stamp), staged[|staged| - 1].(commitSeq := stamp))
  }

  function TableCommitted(es: seq<Entry>, txn: nat, stamp: nat): seq<Entry> {
    Reput(es, StagedOf(es, txn), stamp)
  }

  function LocalNextId(db: LocalDb, table: string): Key {
    1 + if table in db.autoId then db.autoId[table] else 0
  }

  function WriteStaged(db: LocalDb, table: string, e: Entry): LocalDb
    requires table in db.tables
  {
    db.(tables := db.tables[table := Stored(db.tables[table], e)])
  }

  /** Writes to a table that does not exist are refused. */
  function ApplyLocal(db: LocalDb, op: Op, size: SizeOf): LocalDb {
    match op
    case PutOp(txn, table, key, row) =>
      if table !in db.tables then db
      else if key == NULL_KEY then
        var id := LocalNextId(db, table);
        WriteStaged(db.(autoId := db.autoId[table := id]), table,
                    Entry(id, 0, txn, false, row.(id := id), size(id, false, row.(id := id))))
      else WriteStaged(db, table, Entry(key, 0, txn, false, row, size(key, false, row)))
    case RemoveOp(txn, table, key) =>
      if table !in db.tables then db
      else WriteStaged(db, table, Entry(key, 0, txn, true, NO_ROW, size(key, true, NO_ROW)))
    case CommitOp(txn, stamp) =>
      db.(tables := map t | t in db.tables :: TableCommitted(db.tables[t], txn, stamp),
          visibleSeq := Max(db.visibleSeq, stamp))
    case AbortOp(_) => db
  }

  function NoRows(created: set<string>): LocalDb {
    LocalDb(map t | t in created :: [], map[], 0)
  }

  function RunLocal(created: set<string>, ops: seq<Op>, size: SizeOf): LocalDb {
    if ops == [] then NoRows(created)
    else ApplyLocal(RunLocal(created, ops[..|ops| - 1], size), ops[|ops| - 1], size)
  }

  lemma RunLocalStep(created: set<string>, ops: seq<Op>, op: Op, size: SizeOf)
    ensures RunLocal(created, ops + [op], size) == ApplyLocal(RunLocal(created, ops, size), op, size)
  {
    assert (ops + [op])[..|ops|] == ops;
  }

  function EntriesOf(db: LocalDb, table: string): seq<Entry> {
    if table in db.tables then db.tables[table] else []
  }

  function EntryRow(e: Option<Entry>): Option<Row> {
    if e.None? || e.value.tombstone then None else Some(e.value.row)
  }

  function LocalLookup(db: LocalDb, txn: nat, table: string, key: Key): Option<Row> {
    EntryRow(FirstVisible(EntriesOf(db, table), key, txn, db.visibleSeq))
  }

  /** The rows of a scan: tombstones are skipped. */
  function LiveRows(es: seq<Entry>): seq<Row> {
    if es == [] then []
    else
      var last := es[|es| - 1];
      LiveRows(es[..|es| - 1]) + if last.tombstone then [] else [last.row]
  }

  function LocalScan(db: LocalDb, txn: nat, table: string): seq<Row> {
    LiveRows(Scanned(EntriesOf(db, table), txn, db.visibleSeq))
  }

  // ----- lists of entries -----

  lemma StoredMember(es: seq<Entry>, e: Entry, x: Entry)
    requires Sorted(es)
    ensures Sorted(Stored(es, e))
    ensures x in Stored(es, e) <==> x in es || (x == e && !Versions.Holds(es, e))
  {
    if !Versions.Holds(es, e) {
      InsertedSorted(es, e);
      var r := Inserted(es, e);
      assert x in r <==> x in multiset(r);
      assert x in es <==> x in multiset(es);
    }
  }

  lemma {:induction false} StagedOfMember(es: seq<Entry>, txn: nat, x: Entry)
    ensures x in StagedOf(es, txn) <==> x in es && x.commitSeq == 0 && x.txn == txn
  {
    if es != [] {
      StagedOfMember(es[..|es| - 1], txn, x);
      assert x in es <==> x in es[..|es| - 1] || x == es[|es| - 1];
    }
  }

  predicate KeysDiffer(es: seq<Entry>) {
    forall i, j :: 0 <= i < j < |es| ==> es[i].key != es[j].key
  }

  /** Staged versions of one transaction have different keys. */
  lemma {:induction false} StagedOfDistinct(es: seq<Entry>, txn: nat)
    requires Sorted(es)
    ensures KeysDiffer(StagedOf(es, txn))
  {
    if es != [] {
      var front, last := es[..|es| - 1], es[|es| - 1];
      StagedOfDistinct(front, txn);
      var st := StagedOf(front, txn);
      if last.commitSeq == 0 && last.txn == txn {
        forall i | 0 <= i < |st| ensures st[i].key != last.key {
          StagedOfMember(front, txn, st[i]);
          var j :| 0 <= j < |front| && front[j] == st[i];
          assert Precedes(es[j], es[|es| - 1]);
        }
      }
    }
  }

  /** What re-putting some staged versions adds: exactly their stamped copies. */
  lemma {:induction false} ReputMember(es: seq<Entry>, staged: seq<Entry>, stamp: nat, x: Entry)
    requires Sorted(es) && stamp > 0 && forall e :: e in es ==> e.commitSeq != stamp
    requires KeysDiffer(staged)
    ensures Sorted(Reput(es, staged, stamp))
    ensures x in Reput(es, staged, stamp) <==>
            x in es || exists i :: 0 <= i < |staged| && x == staged[i].(commitSeq := stamp)
  {
    if staged != [] {
      var front, last := staged[..|staged| - 1], staged[|staged| - 1];
      var mid, e := Reput(es, front, stamp), last.(commitSeq := stamp);
      ReputMember(es, front, stamp, x);
      forall y | y in mid ensures !SameVersion(y, e) {
        ReputMember(es, front, stamp, y);
      }
      StoredMember(mid, e, x);
      assert forall i :: 0 <= i < |front| ==> front[i] == staged[i];
    }
  }

  lemma CommittedMember(es: seq<Entry>, txn: nat, stamp: nat, x: Entry)
    requires Sorted(es) && stamp > 0 && forall e :: e in es ==> e.commitSeq < stamp
    ensures Sorted(TableCommitted(es, txn, stamp))
    ensures x in TableCommitted(es, txn, stamp) <==>
            x in es || (x.commitSeq == stamp && x.(commitSeq := 0) in es && x.txn == txn)
  {
    var st := StagedOf(es, txn);
    StagedOfDistinct(es, txn);
    ReputMember(es, st, stamp, x);
    forall i | 0 <= i < |st|
      ensures st[i] in es && st[i].txn == txn && st[i].(commitSeq := stamp).(commitSeq := 0) == st[i]
    {
      StagedOfMember(es, txn, st[i]);
    }
    if x.commitSeq == stamp && x.(commitSeq := 0) in es && x.txn == txn {
      StagedOfMember(es, txn, x.(commitSeq := 0));
      var i :| 0 <= i < |st| && st[i] == x.(commitSeq := 0);
      assert x == st[i].(commitSeq := stamp);
    }
  }

  // ----- histories -----

  /** The operation addresses an existing table, its transaction is still open, a write names its key
      and finds no staged version of it, and a commit brings a new, greater stamp. */
  predicate Disciplined(created: set<string>, mem: Db, ended: set<nat>, op: Op) {
    && op.txn !in ended
    && (op.PutOp? ==> op.key != NULL_KEY)
    && (op.PutOp? || op.RemoveOp? ==>
          op.table in created && forall v :: v in VersionsOf(mem, op.table, op.key) ==> v.commitSeq > 0)
    && (op.CommitOp? ==> op.stamp > mem.visibleSeq)
  }

  function EndedIn(ops: seq<Op>): set<nat> {
    set i | 0 <= i < |ops| && (ops[i].CommitOp? || ops[i].AbortOp?) :: ops[i].txn
  }

  predicate DisciplinedRun(created: set<string>, ops: seq<Op>) {
    ops == [] ||
    (DisciplinedRun(created, ops[..|ops| - 1])
     && Disciplined(created, Run(ops[..|ops| - 1]), EndedIn(ops[..|ops| - 1]), ops[|ops| - 1]))
  }

  // ----- the relation between the engines -----

  function VersionIn(e: Entry): Version {
    Version(e.commitSeq, e.txn, e.tombstone, e.row)
  }

  /** Stamps strictly increase along the list, and only the last version may be staged. */
  predicate StrictOrder(vs: seq<Version>) {
    forall i, j :: 0 <= i < j < |vs| ==>
        0 < vs[i].commitSeq && (vs[j].commitSeq == 0 || vs[i].commitSeq < vs[j].commitSeq)
  }

  /** One key: the tree stores what the memory lists, plus staged leftovers of ended transactions. */
  ghost predicate KeyMatches(es: seq<Entry>, vs: seq<Version>, key: Key, ended: set<nat>) {
    && StrictOrder(vs)
    && (forall v :: v in vs && v.commitSeq == 0 ==> v.txn !in ended)
    && (forall v :: v in vs ==> exists e :: e in es && e.key == key && VersionIn(e) == v)
    && (forall e :: e in es && e.key == key ==> VersionIn(e) in vs || (e.commitSeq == 0 && e.txn in ended))
  }

  ghost predicate Matches(local: LocalDb, mem: Db, created: set<string>, ended: set<nat>) {
    && local.tables.Keys == created && local.visibleSeq == mem.visibleSeq
    && StampsBelow(mem)
    && (forall t :: t in created ==> Sorted(local.tables[t]))
    && (forall t, k :: t in created ==> KeyMatches(local.tables[t], VersionsOf(mem, t, k), k, ended))
  }

  lemma TreeStampsBelow(es: seq<Entry>, vs: seq<Version>, key: Key, ended: set<nat>, cut: nat)
    requires KeyMatches(es, vs, key, ended) && forall v :: v in vs ==> v.commitSeq <= cut
    ensures forall e :: e in es && e.key == key ==> e.commitSeq <= cut
  {
    forall e | e in es && e.key == key ensures e.commitSeq <= cut {
      assert VersionIn(e) in vs ==> VersionIn(e).commitSeq <= cut;
    }
  }

  /** Staging a version of a key that has no staged one. */
  lemma StageKey(es: seq<Entry>, vs: seq<Version>, ended: set<nat>, e: Entry)
    requires Sorted(es) && KeyMatches(es, vs, e.key, ended) && e.commitSeq == 0 && e.txn !in ended
    requires forall v :: v in vs ==> v.commitSeq > 0
    ensures !Versions.Holds(es, e)
    ensures KeyMatches(Stored(es, e), vs + [VersionIn(e)], e.key, ended)
  {
    forall x | x in es ensures !SameVersion(x, e) {
      assert x.key == e.key && x.commitSeq == 0 ==> VersionIn(x) in vs || x.txn in ended;
    }
    var es', vs' := Stored(es, e), vs + [VersionIn(e)];
    forall i | 0 <= i < |vs| ensures vs[i].commitSeq > 0 {
      assert vs[i] in vs;
    }
    StoredMember(es, e, e);
    forall v | v in vs' ensures exists x :: x in es' && x.key == e.key && VersionIn(x) == v {
      if v in vs {
        var x :| x in es && x.key == e.key && VersionIn(x) == v;
        StoredMember(es, e, x);
      }
    }
    forall x | x in es' && x.key == e.key ensures VersionIn(x) in vs' || (x.commitSeq == 0 && x.txn in ended) {
      StoredMember(es, e, x);
    }
  }

  /** A version of another key does not matter. */
  lemma OtherKey(es: seq<Entry>, es': seq<Entry>, vs: seq<Version>, key: Key, ended: set<nat>)
    requires KeyMatches(es, vs, key, ended) && forall x: Entry :: x.key == key ==> (x in es' <==> x in es)
    ensures KeyMatches(es', vs, key, ended)
  {
    forall v | v in vs ensures exists x :: x in es' && x.key == key && VersionIn(x) == v {
      var x :| x in es && x.key == key && VersionIn(x) == v;
      assert x in es';
    }
  }

  lemma StampedMember(vs: seq<Version>, txn: nat, stamp: nat, v: Version)
    ensures v in Stamped(vs, txn, stamp) <==> exists w :: w in vs && StampOne(w, txn, stamp) == v
  {
    var r := Stamped(vs, txn, stamp);
    assert forall i :: 0 <= i < |vs| ==> vs[i] in vs && r[i] == StampOne(vs[i], txn, stamp);
    if v in r {
      var i :| 0 <= i < |r| && r[i] == v;
    }
  }

  /** Committing one key on both sides. */
  lemma CommitKey(es: seq<Entry>, vs: seq<Version>, key: Key, ended: set<nat>, txn: nat, stamp: nat)
    requires Sorted(es) && KeyMatches(es, vs, key, ended) && txn !in ended && stamp > 0
    requires (forall e :: e in es ==> e.commitSeq < stamp) && forall v :: v in vs ==> v.commitSeq < stamp
    ensures KeyMatches(TableCommitted(es, txn, stamp), Stamped(vs, txn, stamp), key, ended + {txn})
  {
    var es', vs' := TableCommitted(es, txn, stamp), Stamped(vs, txn, stamp);
    forall v | v in vs' ensures exists x :: x in es' && x.key == key && VersionIn(x) == v {
      StampedMember(vs, txn, stamp, v);
      var w :| w in vs && StampOne(w, txn, stamp) == v;
      var x :| x in es && x.key == key && VersionIn(x) == w;
      var x' := if StagedBy(w, txn) then x.(commitSeq := stamp) else x;
      assert x'.(commitSeq := 0) == x.(commitSeq := 0);
      CommittedMember(es, txn, stamp, x');
      assert VersionIn(x') == v;
    }
    forall x | x in es' && x.key == key ensures VersionIn(x) in vs' || (x.commitSeq == 0 && x.txn in ended + {txn}) {
      CommittedMember(es, txn, stamp, x);
      var y := if x in es then x else x.(commitSeq := 0);
      assert y in es && y.key == key;
      if VersionIn(y) in vs {
        StampedMember(vs, txn, stamp, StampOne(VersionIn(y), txn, stamp));
      }
    }
    forall v | v in vs' && v.commitSeq == 0 ensures v.txn !in ended + {txn} {
      StampedMember(vs, txn, stamp, v);
    }
    StampedStrict(vs, txn, stamp);
  }

  lemma StampedStrict(vs: seq<Version>, txn: nat, stamp: nat)
    requires StrictOrder(vs) && stamp > 0 && forall v :: v in vs ==> v.commitSeq < stamp
    ensures StrictOrder(Stamped(vs, txn, stamp))
  {
    var r := Stamped(vs, txn, stamp);
    forall i, j | 0 <= i < j < |r|
      ensures 0 < r[i].commitSeq && (r[j].commitSeq == 0 || r[i].commitSeq < r[j].commitSeq)
    {
      assert vs[i] in vs && vs[j] in vs;
    }
  }

  lemma {:induction false} PurgedStrict(vs: seq<Version>, txn: nat)
    requires StrictOrder(vs)
    ensures StrictOrder(Purged(vs, txn))
  {
    if vs != [] {
      var front, last := vs[..|vs| - 1], vs[|vs| - 1];
      PurgedStrict(front, txn);
      var p := Purged(front, txn);
      forall i | 0 <= i < |p| ensures 0 < p[i].commitSeq && (last.commitSeq == 0 || p[i].commitSeq < last.commitSeq) {
        PurgedMember(front, txn, p[i]);
        var j :| 0 <= j < |front| && front[j] == p[i];
        assert vs[j] == p[i];
      }
    }
  }

  /** Aborting one key: the memory forgets the staged version, the tree keeps it as a leftover. */
  lemma AbortKey(es: seq<Entry>, vs: seq<Version>, key: Key, ended: set<nat>, txn: nat)
    requires KeyMatches(es, vs, key, ended)
    ensures KeyMatches(es, Purged(vs, txn), key, ended + {txn})
  {
    PurgedStrict(vs, txn);
    forall v: Version ensures v in Purged(vs, txn) <==> v in vs && !StagedBy(v, txn) {
      PurgedMember(vs, txn, v);
    }
  }

  lemma StepMatchesKey(local: LocalDb, mem: Db, created: set<string>, ended: set<nat>, op: Op, size: SizeOf, t: string,
                       k: Key)
    requires Matches(local, mem, created, ended) && Disciplined(created, mem, ended, op) && t in created
    ensures var local', mem' := ApplyLocal(local, op, size), MemoryStore.Apply(mem, op);
            var ended' := if op.CommitOp? || op.AbortOp? then ended + {op.txn} else ended;
            t in local'.tables && Sorted(local'.tables[t])
                && KeyMatches(local'.tables[t], VersionsOf(mem', t, k), k, ended')
  {
    var es, vs := local.tables[t], VersionsOf(mem, t, k);
    assert KeyMatches(es, vs, k, ended);
    StepByKey(mem, op, t, k);
    match op {
      case PutOp(txn, table, key, row) =>
        if table == t {
          StageAnyKey(es, mem, t, k, ended, Entry(key, 0, txn, false, row, size(key, false, row)));
        }
      case RemoveOp(txn, table, key) =>
        if table == t {
          StageAnyKey(es, mem, t, k, ended, Entry(key, 0, txn, true, NO_ROW, size(key, true, NO_ROW)));
        }
      case CommitOp(txn, stamp) =>
        forall e | e in es ensures e.commitSeq < stamp {
          assert KeyMatches(es, VersionsOf(mem, t, e.key), e.key, ended);
          TreeStampsBelow(es, VersionsOf(mem, t, e.key), e.key, ended, mem.visibleSeq);
        }
        CommittedSorted(es, txn, stamp);
        CommitKey(es, vs, k, ended, txn, stamp);
      case AbortOp(txn) => AbortKey(es, vs, k, ended, txn);
    }
  }

  lemma CommittedSorted(es: seq<Entry>, txn: nat, stamp: nat)
    requires Sorted(es) && stamp > 0 && forall e :: e in es ==> e.commitSeq < stamp
    ensures Sorted(TableCommitted(es, txn, stamp))
  {
    CommittedMember(es, txn, stamp, Entry(0, 0, 0, false, NO_ROW, 0));
  }

  lemma StageAnyKey(es: seq<Entry>, mem: Db, t: string, k: Key, ended: set<nat>, e: Entry)
    requires Sorted(es) && KeyMatches(es, VersionsOf(mem, t, k), k, ended) && e.commitSeq == 0 && e.txn !in ended
    requires k == e.key ==> forall v :: v in VersionsOf(mem, t, k) ==> v.commitSeq > 0
    ensures Sorted(Stored(es, e))
    ensures var vs := VersionsOf(mem, t, k);
            KeyMatches(Stored(es, e), if k == e.key then vs + [VersionIn(e)] else vs, k, ended)
  {
    StoredMember(es, e, e);
    if k == e.key {
      StageKey(es, VersionsOf(mem, t, k), ended, e);
    } else {
      forall x: Entry | x.key == k ensures x in Stored(es, e) <==> x in es {
        StoredMember(es, e, x);
      }
      OtherKey(es, Stored(es, e), VersionsOf(mem, t, k), k, ended);
    }
  }

  lemma StepMatches(local: LocalDb, mem: Db, created: set<string>, ended: set<nat>, op: Op, size: SizeOf,
                    local': LocalDb, mem': Db, ended': set<nat>)
    requires Matches(local, mem, created, ended) && Disciplined(created, mem, ended, op)
    requires local' == ApplyLocal(local, op, size) && mem' == MemoryStore.Apply(mem, op)
    requires ended' == if op.CommitOp? || op.AbortOp? then ended + {op.txn} else ended
    ensures Matches(local', mem', created, ended')
  {
    StepKeepsStampsBelow(mem, op);
    StepKeepsTables(local, op, size);
    assert local'.visibleSeq == mem'.visibleSeq;
    forall t, k | t in created
      ensures Sorted(local'.tables[t]) && KeyMatches(local'.tables[t], VersionsOf(mem', t, k), k, ended')
    {
      StepMatchesKey(local, mem, created, ended, op, size, t, k);
    }
    forall t | t in created ensures Sorted(local'.tables[t]) {
      StepMatchesKey(local, mem, created, ended, op, size, t, NULL_KEY);
    }
  }

  lemma StepKeepsTables(local: LocalDb, op: Op, size: SizeOf)
    ensures ApplyLocal(local, op, size).tables.Keys == local.tables.Keys
  {
  }

  lemma {:induction false} RunMatches(created: set<string>, ops: seq<Op>, size: SizeOf)
    requires DisciplinedRun(created, ops)
    ensures Matches(RunLocal(created, ops, size), Run(ops), created, EndedIn(ops))
  {
    if ops != [] {
      var front, op := ops[..|ops| - 1], ops[|ops| - 1];
      RunMatches(created, front, size);
      EndedStep(ops);
      StepMatches(RunLocal(created, front, size), Run(front), created, EndedIn(front), op, size,
                  RunLocal(created, ops, size), Run(ops), EndedIn(ops));
    }
  }

  lemma EndedStep(ops: seq<Op>)
    requires ops != []
    ensures var front, op := ops[..|ops| - 1], ops[|ops| - 1];
            EndedIn(ops) == if op.CommitOp? || op.AbortOp? then EndedIn(front) + {op.txn} else EndedIn(front)
  {
    var front, op := ops[..|ops| - 1], ops[|ops| - 1];
    forall t ensures t in EndedIn(ops) <==> t in EndedIn(front) || ((op.CommitOp? || op.AbortOp?) && t == op.txn) {
      assert forall i :: 0 <= i < |front| ==> front[i] == ops[i];
      if t in EndedIn(ops) {
        var i :| 0 <= i < |ops| && (ops[i].CommitOp? || ops[i].AbortOp?) && ops[i].txn == t;
        assert i < |front| ==> front[i].txn in EndedIn(front);
      }
    }
  }

  // ----- readers -----

  predicate WritesNothing(ops: seq<Op>, txn: nat) {
    forall i :: 0 <= i < |ops| ==> !WrittenBy(ops[i], txn)
  }

  predicate NoStagedBy(es: seq<Entry>, txn: nat) {
    forall e :: e in es && e.commitSeq == 0 ==> e.txn != txn
  }

  /** Entries of a transaction stem from its writes. */
  lemma {:induction false} ReaderStagesNothing(created: set<string>, ops: seq<Op>, size: SizeOf, reader: nat, t: string)
    requires DisciplinedRun(created, ops) && WritesNothing(ops, reader) && t in created
    ensures NoStagedBy(EntriesOf(RunLocal(created, ops, size), t), reader)
  {
    if ops != [] {
      var front, op := ops[..|ops| - 1], ops[|ops| - 1];
      ReaderStagesNothing(created, front, size, reader, t);
      RunMatches(created, front, size);
      var local := RunLocal(created, front, size);
      var es, es' := local.tables[t], EntriesOf(ApplyLocal(local, op, size), t);
      forall e | e in es' && e.commitSeq == 0 ensures e.txn != reader {
        StagedOrigin(created, local, Run(front), EndedIn(front), op, size, t, e);
      }
    }
  }

  lemma StagedOrigin(created: set<string>, local: LocalDb, mem: Db, ended: set<nat>, op: Op, size: SizeOf, t: string,
                     e: Entry)
    requires Matches(local, mem, created, ended) && Disciplined(created, mem, ended, op) && t in created
    requires e in EntriesOf(ApplyLocal(local, op, size), t) && e.commitSeq == 0
    ensures e in local.tables[t] || WrittenBy(op, e.txn)
  {
    var es := local.tables[t];
    match op {
      case PutOp(txn, table, key, row) => StoredMember(es, Entry(key, 0, txn, false, row, size(key, false, row)), e);
      case RemoveOp(txn, table, key) => StoredMember(es, Entry(key, 0, txn, true, NO_ROW, size(key, true, NO_ROW)), e);
      case CommitOp(txn, stamp) =>
        forall x | x in es ensures x.commitSeq < stamp {
          assert KeyMatches(es, VersionsOf(mem, t, x.key), x.key, ended);
          TreeStampsBelow(es, VersionsOf(mem, t, x.key), x.key, ended, mem.visibleSeq);
        }
        CommittedMember(es, txn, stamp, e);
      case AbortOp(_) =>
    }
  }

  /** The newest of a strictly ordered list, for a reader that staged none of it: the committed
      version with the greatest stamp. */
  lemma StrictLast(vs: seq<Version>)
    requires StrictOrder(vs) && vs != []
    ensures var front, last := vs[..|vs| - 1], vs[|vs| - 1];
            && StrictOrder(front) && (forall v :: v in vs <==> v == last || v in front)
            && (last.commitSeq > 0 ==> forall v :: v in front ==> v.commitSeq < last.commitSeq)
            && (last.commitSeq == 0 || last !in front)
  {
    assert vs == vs[..|vs| - 1] + [vs[|vs| - 1]];
  }

  lemma {:induction false} NewestStrict(vs: seq<Version>, reader: nat, cut: nat)
    requires StrictOrder(vs) && forall v :: v in vs ==> v.commitSeq <= cut && !StagedBy(v, reader)
    ensures var r := Newest(vs, reader, cut);
            && (r.None? ==> forall v :: v in vs ==> v.commitSeq == 0)
            && (r.Some? ==> r.value.commitSeq > 0 && forall v :: v in vs && v != r.value ==>
               v.commitSeq < r.value.commitSeq)
  {
    if vs != [] {
      hide StrictOrder, StagedBy;
      StrictLast(vs);
      NewestStrict(vs[..|vs| - 1], reader, cut);
    }
  }

  /** A key that matches reads the same on both sides. */
  lemma SameView(es: seq<Entry>, vs: seq<Version>, key: Key, ended: set<nat>, reader: nat, cut: nat)
    requires Sorted(es) && KeyMatches(es, vs, key, ended) && NoStagedBy(es, reader)
    requires forall v :: v in vs ==> v.commitSeq <= cut
    ensures EntryRow(FirstVisible(es, key, reader, cut)) == RowIn(Newest(vs, reader, cut))
  {
    forall v | v in vs ensures !StagedBy(v, reader) {
      var e :| e in es && e.key == key && VersionIn(e) == v;
    }
    NewestStrict(vs, reader, cut);
    FirstVisibleIsNewest(es, key, reader, cut);
    LookupFails(es, key, reader, cut);
    var f, n := FirstVisible(es, key, reader, cut), Newest(vs, reader, cut);
    if n.Some? {
      var e :| e in es && e.key == key && VersionIn(e) == n.value;
      assert Visible(e, reader, cut);
      assert f.Some? && VersionIn(f.value) in vs;
      assert f.value.commitSeq >= e.commitSeq;
      assert VersionIn(f.value) == n.value;
    } else {
      assert forall e :: e in es && e.key == key ==> e.commitSeq == 0;
    }
  }

  /** After every disciplined history the two engines give every reader that never wrote the same
      row for every key. */
  lemma SameGets(created: set<string>, ops: seq<Op>, size: SizeOf, reader: nat, table: string, key: Key)
    requires DisciplinedRun(created, ops) && WritesNothing(ops, reader) && table in created
    ensures LocalLookup(RunLocal(created, ops, size), reader, table, key) == Lookup(Run(ops), reader, table, key)
  {
    var local, mem := RunLocal(created, ops, size), Run(ops);
    RunMatches(created, ops, size);
    ReaderStagesNothing(created, ops, size, reader, table);
    assert KeyMatches(local.tables[table], VersionsOf(mem, table, key), key, EndedIn(ops));
    SameView(local.tables[table], VersionsOf(mem, table, key), key, EndedIn(ops), reader, mem.visibleSeq);
  }

  // ----- scans -----

  function LiveKeys(es: seq<Entry>): seq<Key> {
    if es == [] then []
    else
      var last := es[|es| - 1];
      LiveKeys(es[..|es| - 1]) + if last.tombstone then [] else [last.key]
  }

  /** The i-th live row belongs to the i-th live key. */
  predicate LiveAt(es: seq<Entry>, key: Key, row: Row) {
    exists e :: e in es && !e.tombstone && e.key == key && e.row == row
  }

  lemma {:induction false} LiveByKey(es: seq<Entry>)
    ensures |LiveKeys(es)| == |LiveRows(es)|
    ensures forall i :: 0 <= i < |LiveKeys(es)| ==> LiveAt(es, LiveKeys(es)[i], LiveRows(es)[i])
    ensures forall e :: e in es && !e.tombstone ==> e.key in LiveKeys(es)
  {
    if es != [] {
      var front, last := es[..|es| - 1], es[|es| - 1];
      LiveByKey(front);
      assert forall e :: e in es <==> e in front || e == last;
      forall k, r | LiveAt(front, k, r) ensures LiveAt(es, k, r) {
        var e :| e in front && !e.tombstone && e.key == k && e.row == r;
        assert e in es;
      }
      if !last.tombstone {
        assert last in es;
        assert LiveAt(es, last.key, last.row);
      }
    }
  }

  lemma {:induction false} LiveKeysAscend(es: seq<Entry>)
    requires KeysAscend(es)
    ensures forall i, j :: 0 <= i < j < |LiveKeys(es)| ==> LiveKeys(es)[i] < LiveKeys(es)[j]
  {
    if es != [] {
      var front, last := es[..|es| - 1], es[|es| - 1];
      LiveKeysAscend(front);
      LiveByKey(front);
      var ks := LiveKeys(front);
      forall i | 0 <= i < |ks| ensures ks[i] < last.key {
        assert LiveAt(front, ks[i], LiveRows(front)[i]);
        var j :| 0 <= j < |front| && front[j].key == ks[i];
        assert es[j] == front[j];
      }
    }
  }

  /** A scan of a sorted table emits exactly the rows that lookups find, one per key, in key order. */
  lemma LocalScanIsLookups(local: LocalDb, reader: nat, table: string) returns (keys: seq<Key>)
    requires Sorted(EntriesOf(local, table))
    ensures forall i, j :: 0 <= i < j < |keys| ==> keys[i] < keys[j]
    ensures forall k :: k in keys <==> LocalLookup(local, reader, table, k).Some?
    ensures |LocalScan(local, reader, table)| == |keys|
    ensures forall i :: 0 <= i < |keys| ==>
            LocalLookup(local, reader, table, keys[i]) == Some(LocalScan(local, reader, table)[i])
  {
    var es := EntriesOf(local, table);
    var out := Scanned(es, reader, local.visibleSeq);
    ScanAgreesWithLookup(es, reader, local.visibleSeq);
    LiveByKey(out);
    LiveKeysAscend(out);
    keys := LiveKeys(out);
    var rows := LiveRows(out);
    forall i | 0 <= i < |keys| ensures LocalLookup(local, reader, table, keys[i]) == Some(rows[i]) {
      assert LiveAt(out, keys[i], rows[i]);
      var e :| e in out && !e.tombstone && e.key == keys[i] && e.row == rows[i];
      assert FirstVisible(es, e.key, reader, local.visibleSeq) == Some(e);
    }
    forall k: Key | LocalLookup(local, reader, table, k).Some? ensures k in keys {
      assert FirstVisible(es, k, reader, local.visibleSeq).value in out;
    }
  }

  /** And the same rows in the same order out of a scan. */
  lemma SameScans(created: set<string>, ops: seq<Op>, size: SizeOf, reader: nat, table: string)
    requires DisciplinedRun(created, ops) && WritesNothing(ops, reader) && table in created
    ensures LocalScan(RunLocal(created, ops, size), reader, table) == ScanRows(Run(ops), reader, table)
  {
    hide RunLocal, Run, DisciplinedRun, LocalLookup, Lookup, LocalScan, ScanRows, Sorted, KeyMatches, StampsBelow;
    var local, mem := RunLocal(created, ops, size), Run(ops);
    RunMatches(created, ops, size);
    assert Sorted(EntriesOf(local, table));
    var lk := LocalScanIsLookups(local, reader, table);
    var mk := ScanIsLookups(mem, reader, table);
    forall k: Key ensures LocalLookup(local, reader, table, k) == Lookup(mem, reader, table, k) {
      SameGets(created, ops, size, reader, table, k);
    }
    RisingUnique(lk, mk, (k: Key) => k);
  }

  // ----- serial histories -----

  /** One transaction at a time, each under a fresh id, with named keys, no key written twice by one
      transaction, and every stamp greater than all stamps before it. */
  predicate SerialStep(created: set<string>, front: seq<Op>, op: Op) {
    && op.txn !in EndedIn(front)
    && (forall i :: 0 <= i < |front| ==> front[i].txn == op.txn || front[i].txn in EndedIn(front))
    && (op.PutOp? ==> op.key != NULL_KEY)
    && (op.PutOp? || op.RemoveOp? ==>
          op.table in created && forall i :: 0 <= i < |front| ==>
              !(WrittenBy(front[i], op.txn) && WritesKey(front[i], op.table, op.key)))
    && (op.CommitOp? ==> op.stamp > 0 && forall i :: 0 <= i < |front| && front[i].CommitOp? ==>
       front[i].stamp < op.stamp)
  }

  predicate WritesKey(op: Op, table: string, key: Key) {
    (op.PutOp? || op.RemoveOp?) && op.table == table && op.key == key
  }

  predicate SerialRun(created: set<string>, ops: seq<Op>) {
    ops == [] || (SerialRun(created, ops[..|ops| - 1]) && SerialStep(created, ops[..|ops| - 1], ops[|ops| - 1]))
  }

  lemma {:induction false} CutBelow(ops: seq<Op>, stamp: nat)
    requires stamp > 0 && forall i :: 0 <= i < |ops| && ops[i].CommitOp? ==> ops[i].stamp < stamp
    ensures Run(ops).visibleSeq < stamp
  {
    if ops != [] {
      CutBelow(ops[..|ops| - 1], stamp);
    }
  }

  /** Some open transaction wrote every staged version. */
  ghost predicate StagedByOpen(ops: seq<Op>, t: string, k: Key, v: Version) {
    v.txn !in EndedIn(ops) && exists i :: 0 <= i < |ops| && WrittenBy(ops[i], v.txn) && WritesKey(ops[i], t, k)
  }

  lemma {:induction false} StagedIsOpen(created: set<string>, ops: seq<Op>, t: string, k: Key, v: Version)
    requires SerialRun(created, ops) && v in VersionsOf(Run(ops), t, k) && v.commitSeq == 0
    ensures StagedByOpen(ops, t, k, v)
  {
    var front, op := ops[..|ops| - 1], ops[|ops| - 1];
    var vs := VersionsOf(Run(front), t, k);
    assert forall i :: 0 <= i < |front| ==> front[i] == ops[i];
    StepByKey(Run(front), op, t, k);
    EndedStep(ops);
    if op.CommitOp? {
      StampedMember(vs, op.txn, op.stamp, v);
    } else if op.AbortOp? {
      PurgedMember(vs, op.txn, v);
    }
    if v in vs {
      StagedIsOpen(created, front, t, k, v);
      var i :| 0 <= i < |front| && WrittenBy(front[i], v.txn) && WritesKey(front[i], t, k);
      assert WrittenBy(ops[i], v.txn) && WritesKey(ops[i], t, k);
    } else {
      assert WrittenBy(op, v.txn) && WritesKey(op, t, k);
    }
  }

  /** Serial histories are disciplined, so all of the above holds of them. */
  lemma {:induction false} SerialIsDisciplined(created: set<string>, ops: seq<Op>)
    requires SerialRun(created, ops)
    ensures DisciplinedRun(created, ops)
  {
    if ops != [] {
      var front, op := ops[..|ops| - 1], ops[|ops| - 1];
      SerialIsDisciplined(created, front);
      if op.PutOp? || op.RemoveOp? {
        forall v | v in VersionsOf(Run(front), op.table, op.key) ensures v.commitSeq > 0 {
          if v.commitSeq == 0 {
            StagedIsOpen(created, front, op.table, op.key, v);
          }
        }
      } else if op.CommitOp? {
        CutBelow(front, op.stamp);
      }
    }
  }

  lemma NothingRun(created: set<string>, size: SizeOf)
    ensures Run([]) == EMPTY_DB && RunLocal(created, [], size) == NoRows(created)
  {
  }

  lemma LastWriteWins(a: Row, b: Row)
    ensures var p, q, c := PutOp(1, "t", 1, a), PutOp(1, "t", 1, b), CommitOp(1, 1);
            Lookup(MemoryStore.Apply(MemoryStore.Apply(MemoryStore.Apply(EMPTY_DB, p), q), c), 2, "t", 1) == Some(b)
  {
    var p, q, c := PutOp(1, "t", 1, a), PutOp(1, "t", 1, b), CommitOp(1, 1);
    var m1 := MemoryStore.Apply(EMPTY_DB, p);
    var m2 := MemoryStore.Apply(m1, q);
    StepByKey(EMPTY_DB, p, "t", 1);
    StepByKey(m1, q, "t", 1);
    StepByKey(m2, c, "t", 1);
    assert VersionsOf(MemoryStore.Apply(m2, c), "t", 1) == [Version(1, 1, false, a), Version(1, 1, false, b)];
  }

  /** A second staged version of a key by the same transaction is refused. */
  lemma FirstWriteStays(e: Entry, f: Entry)
    requires SameVersion(e, f)
    ensures Stored([], e) == [e] && Stored([e], f) == [e]
  {
    assert e in [e];
  }

  /** A stamped version goes in front of the staged one. */
  lemma StampedFirst(e: Entry)
    requires e.commitSeq == 0
    ensures Stored([e], e.(commitSeq := 1)) == [e.(commitSeq := 1), e]
  {
    var s := e.(commitSeq := 1);
    assert !Versions.Holds([e], s);
    InsertPosUnique([e], s, 0);
    assert Inserted([e], s) == [] + [s] + [e];
  }

  /** Committing a table of one staged version puts it again in front of itself. */
  lemma OneCommitted(e: Entry)
    requires e.commitSeq == 0
    ensures TableCommitted([e], e.txn, 1) == [e.(commitSeq := 1), e]
  {
    hide Stored;
    var none: seq<Entry> := [];
    assert [e][..0] == none;
    assert StagedOf(none, e.txn) == none;
    assert StagedOf([e], e.txn) == none + [e] == [e];
    assert Reput([e], none, 1) == [e];
    StampedFirst(e);
  }

  lemma TablesAfter(db: LocalDb, op: Op, size: SizeOf, table: string)
    requires table in db.tables && (op.PutOp? ==> op.table == table && op.key != NULL_KEY) && !op.RemoveOp?
    ensures table in ApplyLocal(db, op, size).tables
    ensures ApplyLocal(db, op, size).tables[table]
         == match op
            case PutOp(txn, _, key, row) =>
              Stored(db.tables[table], Entry(key, 0, txn, false, row, size(key, false, row)))
            case CommitOp(txn, stamp) => TableCommitted(db.tables[table], txn, stamp)
            case _ => db.tables[table]
    ensures op.CommitOp? ==> ApplyLocal(db, op, size).visibleSeq == Max(db.visibleSeq, op.stamp)
    ensures !op.CommitOp? ==> ApplyLocal(db, op, size).visibleSeq == db.visibleSeq
  {
    hide Stored, TableCommitted;
  }

  /** Two writes of one key in one transaction: the tree keeps the first, the memory the last. */
  lemma SecondWriteDiffers(created: set<string>, size: SizeOf, a: Row, b: Row)
    requires "t" in created
    ensures var ops := [PutOp(1, "t", 1, a), PutOp(1, "t", 1, b), CommitOp(1, 1)];
            LocalLookup(RunLocal(created, ops, size), 2, "t", 1) == Some(a) && Lookup(Run(ops), 2, "t", 1) == Some(b)
  {
    hide ApplyLocal, RunLocal, Stored, TableCommitted, Run, Lookup;
    var p, q, c := PutOp(1, "t", 1, a), PutOp(1, "t", 1, b), CommitOp(1, 1);
    RunStep([], p);
    RunStep([p], q);
    RunStep([p, q], c);
    RunLocalStep(created, [], p, size);
    RunLocalStep(created, [p], q, size);
    RunLocalStep(created, [p, q], c, size);
    assert [] + [p] == [p] && [p] + [q] == [p, q] && [p, q] + [c] == [p, q, c];
    NothingRun(created, size);
    LastWriteWins(a, b);
    var e, f := Entry(1, 0, 1, false, a, size(1, false, a)), Entry(1, 0, 1, false, b, size(1, false, b));
    var d0 := NoRows(created);
    var d1 := ApplyLocal(d0, p, size);
    var d2 := ApplyLocal(d1, q, size);
    TablesAfter(d0, p, size, "t");
    TablesAfter(d1, q, size, "t");
    TablesAfter(d2, c, size, "t");
    FirstWriteStays(e, f);
    OneCommitted(e);
  }
}
