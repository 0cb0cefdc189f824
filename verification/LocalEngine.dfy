/**
 The B+tree-backed engine (includes/opendb/storage/LocalFileStorageProvider.hpp) over the tables of
 one file. As long as no split cut through the versions of one key, its state is the one its
 specification on sorted lists gives for the history so far.
 */
module LocalEngines {
  import opened Versions
  import opened Bands
  import opened TreeShape
  import opened TreeGrowth
  import opened Tables
  import opened MemoryStore
  import opened LocalStore
  import opened CommitTrails
  import opened AutoKeys

  datatype Outcome = Done | NoSuchTable | Threw

  /** No stored entry is smaller than the smallest one. */
  lemma StoredBytes(t: TreeState, e: Entry)
    requires StateOk(t) && e in Contents(t)
    ensures e.bytes >= MIN_ENTRY_BYTES
  {
    var i := InConcat(Leaves(t.nodes, t.chain), e);
    assert LinkedAt(t.nodes, t.chain, i);
  }

  /** Scanning leaf by leaf is scanning the whole sorted list. */
  lemma LeafwiseScan(t: TreeState, out: seq<Entry>, txn: nat, visibleSeq: nat)
    requires StateOk(t) && InOrder(t) && KeysAscend(out)
    requires forall e :: e in out <==> FirstVisible(Contents(t), e.key, txn, visibleSeq) == Some(e)
    ensures out == Scanned(Contents(t), txn, visibleSeq)
  {
    BandedSorted(SepKeys(t.nodes, t.root), Leaves(t.nodes, t.chain));
    ScanAgreesWithLookup(Contents(t), txn, visibleSeq);
    RisingUnique(out, Scanned(Contents(t), txn, visibleSeq), (e: Entry) => e.key);
  }

  /** The staged entry of a put: a Null key becomes the next automatic one, in the row as well. */
  function NewEntry(next: Key, txn: nat, key: Key, row: Row, size: SizeOf): Entry {
    if key == NULL_KEY
    then Entry(next, 0, txn, false, row.(id := next), size(next, false, row.(id := next)))
    else Entry(key, 0, txn, false, row, size(key, false, row))
  }

  lemma NewEntryBytes(next: Key, txn: nat, key: Key, row: Row, size: SizeOf)
    requires forall k, t, r :: size(k, t, r) >= MIN_ENTRY_BYTES
    ensures NewEntry(next, txn, key, row, size).bytes >= MIN_ENTRY_BYTES
  {
  }

  function Tombstone(txn: nat, key: Key, size: SizeOf): Entry {
    Entry(key, 0, txn, true, NO_ROW, size(key, true, NO_ROW))
  }

  /** Every write of the history addresses one of the tables. */
  predicate Addresses(created: set<string>, history: seq<Op>) {
    forall i :: 0 <= i < |history| && (history[i].PutOp? || history[i].RemoveOp?) ==> history[i].table in created
  }

  lemma HistoryGrows(created: set<string>, ops: seq<Op>, op: Op, size: SizeOf)
    requires Addresses(created, ops) && (op.PutOp? || op.RemoveOp? ==> op.table in created)
    ensures Addresses(created, ops + [op])
    ensures RunLocal(created, ops + [op], size) == ApplyLocal(RunLocal(created, ops, size), op, size)
  {
    RunLocalStep(created, ops, op, size);
  }

  lemma RowsAt(s: Store, table: string)
    requires table in s.trees
    ensures table in RowsMap(s) && RowsMap(s)[table] == RowsOf(s, table)
  {
  }

  lemma PutApplies(db: LocalDb, db': LocalDb, txn: nat, table: string, key: Key, row: Row, size: SizeOf, clean: bool)
    requires table in db.tables && db'.visibleSeq == db.visibleSeq
    requires db'.autoId == if key == NULL_KEY then db.autoId[table := LocalNextId(db, table)] else db.autoId
    requires var e := NewEntry(LocalNextId(db, table), txn, key, row, size);
             clean ==> db'.tables == db.tables[table := Stored(db.tables[table], e)]
    ensures clean ==> db' == ApplyLocal(db, PutOp(txn, table, key, row), size)
  {
  }

  lemma RemoveApplies(db: LocalDb, db': LocalDb, txn: nat, table: string, key: Key, size: SizeOf, clean: bool)
    requires table in db.tables && db'.visibleSeq == db.visibleSeq && db'.autoId == db.autoId
    requires clean ==> db'.tables == db.tables[table := Stored(db.tables[table], Tombstone(txn, key, size))]
    ensures clean ==> db' == ApplyLocal(db, RemoveOp(txn, table, key), size)
  {
  }

  lemma CommitApplies(trail: seq<Store>, puts: seq<TablePut>, s: Store, s': Store, db: LocalDb, db': LocalDb,
                      txn: nat, stamp: nat, size: SizeOf, clean: bool)
    requires CommitMade(trail, puts, s, s', txn, stamp) && (clean ==> AllOrdered(s) && AllKeepOrder(trail, puts))
    requires db.tables == RowsMap(s) && db'.tables == RowsMap(s')
    requires db'.autoId == db.autoId && db'.visibleSeq == Max(db.visibleSeq, stamp)
    ensures clean ==> AllOrdered(s') && db' == ApplyLocal(db, CommitOp(txn, stamp), size)
  {
    hide AllOrdered, CommitsTables, Takes, KeepsOrderAt, RowsMap, StoreOk, TableCommitted;
    if clean {
      TrailCommits(trail, puts, trail[0].trees.Keys, txn, stamp);
    }
  }

  /** A table created late is a table created first, as long as nothing was written to it. */
  lemma {:induction false} CreatedLate(created: set<string>, name: string, ops: seq<Op>, size: SizeOf)
    requires name !in created && Addresses(created, ops)
    ensures var db, db' := RunLocal(created, ops, size), RunLocal(created + {name}, ops, size);
            && db.tables.Keys == created && db.autoId.Keys <= created
            && db' == db.(tables := db.tables[name := []])
  {
    if ops == [] {
      assert NoRows(created + {name}).tables == NoRows(created).tables[name := []];
    } else {
      var front, op := ops[..|ops| - 1], ops[|ops| - 1];
      CreatedLate(created, name, front, size);
      LateStep(RunLocal(created, front, size), RunLocal(created + {name}, front, size), created, name, op, size);
    }
  }

  lemma LateStep(db: LocalDb, db': LocalDb, created: set<string>, name: string, op: Op, size: SizeOf)
    requires db.tables.Keys == created && db.autoId.Keys <= created && name !in created
    requires db' == db.(tables := db.tables[name := []])
    requires op.PutOp? || op.RemoveOp? ==> op.table in created
    ensures var next := ApplyLocal(db, op, size);
            && next.tables.Keys == created && next.autoId.Keys <= created
            && ApplyLocal(db', op, size) == next.(tables := next.tables[name := []])
  {
    hide Stored, TableCommitted;
    LateTables(db, db', name, op, size);
  }

  lemma LateTables(db: LocalDb, db': LocalDb, name: string, op: Op, size: SizeOf)
    requires name !in db.tables && db' == db.(tables := db.tables[name := []])
    requires op.PutOp? || op.RemoveOp? ==> op.table != name
    ensures ApplyLocal(db', op, size).tables == ApplyLocal(db, op, size).tables[name := []]
  {
    hide Stored;
    match op
    case CommitOp(txn, stamp) => assert TableCommitted([], txn, stamp) == [];
    case _ =>
  }

  lemma CreateFollows(db: LocalDb, db': LocalDb, created: set<string>, created': set<string>, name: string,
                      ops: seq<Op>, size: SizeOf, clean: bool)
    requires name !in created && created' == created + {name} && Addresses(created, ops)
    requires clean ==> db == RunLocal(created, ops, size)
    requires db' == LocalDb(db.tables[name := []], db.autoId - {name}, db.visibleSeq)
    ensures Addresses(created', ops)
    ensures clean ==> db' == RunLocal(created', ops, size)
  {
    hide RunLocal;
    CreatedLate(created, name, ops, size);
    if clean {
      assert db.autoId - {name} == db.autoId;
    }
  }

  /** What one write does to the file, whether the tree takes the version or throws. */
  ghost predicate Wrote(s: Store, s': Store, table: string, e: Entry, ok: bool, wasClean: bool, clean: bool) {
    && table in s.trees
    && (ok <==> Accepts(Tree(s, table), e))
    && (if ok then PutTaken(s, s', table, e) else PutFailed(s, s', table, e))
    && (clean <==> wasClean && (ok ==> KeepsOrder(Tree(s, table), e)))
  }

  /** The put throws and leaves the tree as it was. */
  predicate Refused(s: Store, table: string, e: Entry) {
    table in s.trees && RefusesLeft(Tree(s, table), e)
  }

  lemma WriteDone(s: Store, s': Store, table: string, e: Entry, ok: bool, wasClean: bool, clean: bool)
    requires StoreOk(s) && table in s.trees && (wasClean ==> AllOrdered(s))
    requires ok <==> Accepts(Tree(s, table), e)
    requires if ok then PutTaken(s, s', table, e) else PutFailed(s, s', table, e)
    requires clean <==> wasClean && (ok ==> KeepsOrder(Tree(s, table), e))
    ensures Wrote(s, s', table, e, ok, wasClean, clean)
    ensures ok && clean ==> AllOrdered(s') && RowsMap(s') == RowsMap(s)[table := Stored(RowsOf(s, table), e)]
    ensures Refused(s, table, e) ==> !ok && RowsMap(s') == RowsMap(s) && (clean ==> AllOrdered(s'))
  {
    hide StoreOk, AllOrdered, RowsMap, Stored, PutTaken, PutFailed, Accepts, KeepsOrder, RefusesLeft, Tree, RowsOf;
    if ok && clean {
      PutRows(s, s', table, e);
    }
    RefusedIsFailed(Tree(s, table), e);
    if Refused(s, table, e) {
      RefusedRows(s, s', table, e);
    }
  }

  class LocalEngine {
    const store: TableStore
    const size: SizeOf
    var autoId: map<string, nat>
    var visibleSeq: nat
    /** No split so far cut through the versions of one key. */
    ghost var clean: bool
    /** The operations that were done. */
    ghost var history: seq<Op>

    ghost function Value(): LocalDb
      reads this, store, store.pager, store.pager.allocator, store.btrees.Values
    {
      LocalDb(RowsMap(store.Value()), autoId, visibleSeq)
    }

    ghost predicate Ready()
      reads this, store, store.pager, store.pager.allocator, store.btrees.Values
    {
      && store.Valid() && (clean ==> AllOrdered(store.Value()))
      && forall k, t, r :: size(k, t, r) >= MIN_ENTRY_BYTES
    }

    /** The file is intact, and its state is the specification's after the history. */
    ghost predicate Valid()
      reads this, store, store.pager, store.pager.allocator, store.btrees.Values
    {
      && Ready() && Addresses(store.btrees.Keys, history)
      && (clean ==> Value() == RunLocal(store.btrees.Keys, history, size))
    }

    constructor (store: TableStore, size: SizeOf)
      requires store.Valid() && store.btrees == map[] && forall k, t, r :: size(k, t, r) >= MIN_ENTRY_BYTES
      ensures this.store == store && this.size == size && Valid() && clean && history == []
    {
      this.store, this.size := store, size;
      autoId, visibleSeq, clean, history := map[], 0, true, [];
    }

    method Get(txn: nat, table: string, key: Key) returns (r: Option<Row>)
      requires Valid()
      ensures table !in store.btrees ==> r == None
      ensures table in store.btrees ==>
                r == EntryRow(FirstVisible(RoutedEntries(Tree(store.Value(), table), key), key, txn, visibleSeq))
      ensures clean ==> r == LocalLookup(Value(), txn, table, key)
      ensures clean && DisciplinedRun(store.btrees.Keys, history) && WritesNothing(history, txn)
              && table in store.btrees ==>
                r == Lookup(Run(history), txn, table, key)
    {
      if table !in store.btrees {
        return None;
      }
      ghost var s := store.Value();
      assert Tree(s, table) == store.btrees[table].State();
      var e := store.btrees[table].Get(key, txn, visibleSeq);
      r := if e.None? || e.value.tombstone then None else Some(e.value.row);
      if clean {
        assert InOrder(Tree(s, table)) && Value().tables[table] == RowsOf(s, table);
        if DisciplinedRun(store.btrees.Keys, history) && WritesNothing(history, txn) {
          SameGets(store.btrees.Keys, history, size, txn, table, key);
        }
      }
    }

    /** Emits the rows of the scanned versions that are not tombstones. */
    method Scan(txn: nat, table: string) returns (out: seq<Row>)
      requires Valid()
      ensures clean ==> out == LocalScan(Value(), txn, table)
      ensures clean && DisciplinedRun(store.btrees.Keys, history) && WritesNothing(history, txn)
              && table in store.btrees ==>
                out == ScanRows(Run(history), txn, table)
    {
      if table !in store.btrees {
        return [];
      }
      ghost var s := store.Value();
      assert Tree(s, table) == store.btrees[table].State();
      var es := store.btrees[table].Scan(txn, visibleSeq);
      out := EmitLive(es);
      if clean {
        TreeInStore(s, table);
        LeafwiseScan(Tree(s, table), es, txn, visibleSeq);
        assert Value().tables[table] == RowsOf(s, table);
        if DisciplinedRun(store.btrees.Keys, history) && WritesNothing(history, txn) {
          SameScans(store.btrees.Keys, history, size, txn, table);
        }
      }
    }

    method EmitLive(es: seq<Entry>) returns (out: seq<Row>)
      ensures out == LiveRows(es)
    {
      out := [];
      var i := 0;
      while i < |es|
        invariant i <= |es| && out == LiveRows(es[..i])
      {
        assert es[..i + 1][..i] == es[..i];
        if !es[i].tombstone {
          out := out + [es[i].row];
        }
        i := i + 1;
      }
      assert es[..|es|] == es;
    }

    method CreateTable(name: string) returns (ok: bool)
      requires Valid()
      modifies this`autoId, store, store.pager, store.pager.allocator
      ensures Valid() && (ok <==> name !in old(store.btrees)) && history == old(history)
      ensures store.btrees.Keys == old(store.btrees.Keys) + {name}
      ensures ok ==> Created(old(store.Value()), store.Value(), name)
      ensures !ok ==> Value() == old(Value())
    {
      hide Created, AllOrdered, StoreOk, RowsMap, RunLocal, Addresses;
      ok := name !in store.btrees;
      if ok {
        AddTable(name);
        CreateFollows(old(Value()), Value(), old(store.btrees.Keys), store.btrees.Keys, name, history, size, clean);
      } else {
        assert store.btrees.Keys == old(store.btrees.Keys) + {name};
      }
    }

    /** A new table has no rows and no automatic keys. */
    method AddTable(name: string)
      requires Ready() && name !in store.btrees
      modifies this`autoId, store, store.pager, store.pager.allocator
      ensures Ready() && Created(old(store.Value()), store.Value(), name)
      ensures store.btrees.Keys == old(store.btrees.Keys) + {name}
      ensures Value() == LocalDb(old(Value().tables)[name := []], old(autoId) - {name}, visibleSeq)
    {
      hide RowsOf;
      hide Created, AllOrdered, StoreOk, RowsMap;
      ghost var s := store.Value();
      var _ := store.CreateTable(name);
      autoId := autoId - {name};
      CreatedRows(s, store.Value(), name);
      assert store.btrees.Keys == old(store.btrees.Keys) + {name};
    }

    /** Puts one version into a tree; false stands for an exception. */
    method Write(name: string, e: Entry) returns (ok: bool)
      requires Ready() && name in store.btrees && e.bytes >= MIN_ENTRY_BYTES
      modifies this`clean, store.pager, store.pager.allocator, store.btrees[name]
      ensures var s := old(store.Value());
              && Wrote(s, store.Value(), name, e, ok, old(clean), clean)
              && (clean ==> old(clean)) && (ok ==> Ready())
              && (ok && clean ==> RowsMap(store.Value()) == RowsMap(s)[name := Stored(RowsOf(s, name), e)])
              && (Refused(s, name, e) ==> !ok && Ready() && RowsMap(store.Value()) == RowsMap(s))
    {
      hide Wrote, PutTaken, PutFailed, Accepts, KeepsOrder, AllOrdered, StoreOk, RowsMap, Stored, RefusesLeft, Tree;
      ghost var s := store.Value();
      var r := store.Put(name, e);
      ok := r.Stored? || r.Duplicate?;
      clean := clean && (ok ==> KeepsOrder(Tree(s, name), e));
      WriteDone(s, store.Value(), name, e, ok, old(clean), clean);
    }

    /** A Null key takes the next automatic key, which also goes into the row. */
    method Put(txn: nat, table: string, key: Key, row: Row) returns (r: Outcome)
      requires Valid()
      modifies this, store.pager, store.pager.allocator, store.btrees.Values
      ensures visibleSeq == old(visibleSeq)
      ensures r.NoSuchTable? <==> table !in store.btrees
      ensures r.NoSuchTable? ==> Valid() && Value() == old(Value()) && clean == old(clean) && history == old(history)
      ensures table in store.btrees ==>
                var s, e := old(store.Value()), NewEntry(old(LocalNextId(Value(), table)), txn, key, row, size);
                && Wrote(s, store.Value(), table, e, r.Done?, old(clean), clean)
                && (if r.Done? then Valid() else history == old(history))
                && (Refused(s, table, e) ==> Ready() && Value().tables == old(Value()).tables)
                && (Refused(s, table, e) && key != NULL_KEY ==> Valid() && Value() == old(Value()))
      ensures old(clean) && table in store.btrees ==>
                old(LocalNextId(Value(), table)) == 1 + NullPuts(old(history), table)
      ensures r.Done? ==> history == old(history) + [PutOp(txn, table, key, row)]
      ensures r.Done? && clean ==> Value() == ApplyLocal(old(Value()), PutOp(txn, table, key, row), size)
    {
      hide NullPuts, LocalNextId, StateOk, RowsOf;
      hide Wrote, Refused, AllOrdered, StoreOk, RowsMap, ApplyLocal, RunLocal, Addresses, NewEntry;
      if table !in store.btrees {
        return NoSuchTable;
      }
      ghost var op := PutOp(txn, table, key, row);
      LocalDrawCounts(store.btrees.Keys, history, size, table);
      var ok := StageRow(txn, table, key, row);
      if !ok {
        return Threw;
      }
      HistoryGrows(store.btrees.Keys, history, op, size);
      history := history + [op];
      r := Done;
    }

    method StageRow(txn: nat, table: string, key: Key, row: Row) returns (ok: bool)
      requires Ready() && table in store.btrees
      modifies this`clean, this`autoId, store.pager, store.pager.allocator, store.btrees[table]
      ensures var s, e := old(store.Value()), NewEntry(old(LocalNextId(Value(), table)), txn, key, row, size);
              && Wrote(s, store.Value(), table, e, ok, old(clean), clean)
              && (clean ==> old(clean)) && (ok ==> Ready())
              && (Refused(s, table, e) ==> !ok && Ready() && Value().tables == old(Value()).tables)
      ensures autoId == if key == NULL_KEY then old(autoId)[table := old(LocalNextId(Value(), table))] else old(autoId)
      ensures ok && clean ==> Value() == ApplyLocal(old(Value()), PutOp(txn, table, key, row), size)
    {
      hide Wrote, Refused, AllOrdered, StoreOk, RowsMap, Stored, ApplyLocal, NewEntry, RowsOf;
      ghost var db, s := Value(), store.Value();
      var next := NextKey(table, key);
      var e := NewEntry(next, txn, key, row, size);
      NewEntryBytes(next, txn, key, row, size);
      RowsAt(s, table);
      ok := Write(table, e);
      PutApplies(db, Value(), txn, table, key, row, size, ok && clean);
    }

    /** The next automatic key, taken only if the put names none. */
    method NextKey(table: string, key: Key) returns (next: Key)
      modifies this`autoId
      ensures next == 1 + if table in old(autoId) then old(autoId)[table] else 0
      ensures autoId == if key == NULL_KEY then old(autoId)[table := next] else old(autoId)
    {
      next := 1 + if table in autoId then autoId[table] else 0;
      if key == NULL_KEY {
        autoId := autoId[table := next];
      }
    }

    method Remove(txn: nat, table: string, key: Key) returns (r: Outcome)
      requires Valid()
      modifies this, store.pager, store.pager.allocator, store.btrees.Values
      ensures visibleSeq == old(visibleSeq) && autoId == old(autoId)
      ensures r.NoSuchTable? <==> table !in store.btrees
      ensures r.NoSuchTable? ==> Valid() && Value() == old(Value()) && clean == old(clean) && history == old(history)
      ensures table in store.btrees ==>
                var s, e := old(store.Value()), Tombstone(txn, key, size);
                && Wrote(s, store.Value(), table, e, r.Done?, old(clean), clean)
                && (if r.Done? then Valid() else history == old(history))
                && (Refused(s, table, e) ==> Valid() && Value() == old(Value()))
      ensures r.Done? ==> history == old(history) + [RemoveOp(txn, table, key)]
      ensures r.Done? && clean ==> Value() == ApplyLocal(old(Value()), RemoveOp(txn, table, key), size)
    {
      hide Wrote, Refused, AllOrdered, StoreOk, RowsMap, Stored, ApplyLocal, RunLocal, Addresses;
      if table !in store.btrees {
        return NoSuchTable;
      }
      ghost var op := RemoveOp(txn, table, key);
      var ok := StageTombstone(txn, table, key);
      if !ok {
        return Threw;
      }
      HistoryGrows(store.btrees.Keys, history, op, size);
      history := history + [op];
      r := Done;
    }

    method StageTombstone(txn: nat, table: string, key: Key) returns (ok: bool)
      requires Ready() && table in store.btrees
      modifies this`clean, store.pager, store.pager.allocator, store.btrees[table]
      ensures var s, e := old(store.Value()), Tombstone(txn, key, size);
              && Wrote(s, store.Value(), table, e, ok, old(clean), clean)
              && (clean ==> old(clean)) && (ok ==> Ready())
              && (Refused(s, table, e) ==> !ok && Ready() && Value() == old(Value()))
      ensures ok && clean ==> Value() == ApplyLocal(old(Value()), RemoveOp(txn, table, key), size)
    {
      hide Wrote, Refused, AllOrdered, StoreOk, RowsMap, Stored, ApplyLocal, RowsOf;
      ghost var db, s := Value(), store.Value();
      RowsAt(s, table);
      ok := Write(table, Tombstone(txn, key, size));
      RemoveApplies(db, Value(), txn, table, key, size, ok && clean);
    }

    /** An abort leaves the staged versions where they are. */
    method Abort(txn: nat)
      requires Valid()
      modifies this`history
      ensures Valid() && Value() == old(Value()) && history == old(history) + [AbortOp(txn)]
      ensures Value() == ApplyLocal(old(Value()), AbortOp(txn), size)
    {
      hide AllOrdered, StoreOk, RowsMap, RunLocal, Addresses;
      HistoryGrows(store.btrees.Keys, history, AbortOp(txn), size);
      history := history + [AbortOp(txn)];
    }

    /** Collects every staged version of the transaction in one table before anything is put. */
    method CollectStaged(name: string, txn: nat) returns (staged: seq<Entry>)
      requires Ready() && name in store.btrees
      ensures staged == StagedOf(RowsOf(store.Value(), name), txn)
      ensures forall e :: e in staged ==> e.bytes >= MIN_ENTRY_BYTES
    {
      ghost var s := store.Value();
      assert Tree(s, name) == store.btrees[name].State();
      TreeInStore(s, name);
      var all := store.btrees[name].ScanAll();
      staged := [];
      var i := 0;
      while i < |all|
        invariant i <= |all| && staged == StagedOf(all[..i], txn)
      {
        assert all[..i + 1][..i] == all[..i];
        if all[i].commitSeq == 0 && all[i].txn == txn {
          staged := staged + [all[i]];
        }
        i := i + 1;
      }
      assert all[..|all|] == all;
      forall e | e in staged ensures e.bytes >= MIN_ENTRY_BYTES {
        StagedOfMember(all, txn, e);
        StoredBytes(Tree(s, name), e);
      }
    }


    /** Puts the staged versions of one table again under the stamp, as far as the puts return. */
    method PutStaged(name: string, staged: seq<Entry>, stamp: nat, ghost trail0: seq<Store>, ghost puts0: seq<TablePut>,
                     ghost wasClean: bool)
      returns (ok: bool, ghost trail: seq<Store>, ghost puts: seq<TablePut>, ghost next: TablePut)
      requires Ready() && name in store.btrees && forall e :: e in staged ==> e.bytes >= MIN_ENTRY_BYTES
      requires Trail(trail0, puts0) && trail0[|puts0|] == store.Value()
      requires clean <==> wasClean && AllKeepOrder(trail0, puts0)
      modifies this`clean, store.pager, store.pager.allocator, store.btrees[name]
      ensures Trail(trail, puts) && trail[0] == trail0[0]
      ensures ok ==> Ready() && trail[|puts|] == store.Value() && (clean <==> wasClean && AllKeepOrder(trail, puts))
      ensures ok ==> PutsSome(puts0, puts, name, staged, stamp, |staged|)
      ensures !ok ==>
                && next.table == name && name in trail[|puts|].trees
                && !Accepts(Tree(trail[|puts|], name), next.e) && PutFailed(trail[|puts|], store.Value(), name, next.e)
                && exists i: nat :: StopsAt(puts0, puts, next, name, staged, stamp, i)
    {
      hide PutTaken, PutFailed, Accepts, KeepsOrder, AllOrdered, StoreOk, RowsMap, Stored, Takes, KeepsOrderAt;
      hide PutsSome, EntriesFor;
      trail, puts, next := trail0, puts0, TablePut(name, Entry(NULL_KEY, 0, 0, false, NO_ROW, 0));
      var i := 0;
      PutsNone(puts0, name, staged, stamp);
      while i < |staged|
        invariant i <= |staged| && Ready() && TrailOpen(trail, puts, trail0[0], store.Value())
        invariant clean <==> wasClean && AllKeepOrder(trail, puts)
        invariant PutsSome(puts0, puts, name, staged, stamp, i)
      {
        var e := staged[i].(commitSeq := stamp);
        ghost var p := TablePut(name, e);
        ok := Write(name, e);
        if !ok {
          next := p;
          assert StopsAt(puts0, puts, next, name, staged, stamp, i);
          return;
        }
        TrailGrows(trail, puts, store.Value(), p);
        PutsMore(puts0, puts, name, staged, stamp, i, p);
        trail, puts := trail + [store.Value()], puts + [p];
        i := i + 1;
      }
      ok := true;
    }

    /** One table of a commit. */
    method CommitTable(name: string, txn: nat, stamp: nat, ghost s0: Store, ghost trail0: seq<Store>,
                       ghost puts0: seq<TablePut>, ghost wasClean: bool, ghost done: set<string>)
      returns (ok: bool, ghost trail: seq<Store>, ghost puts: seq<TablePut>, ghost next: TablePut)
      requires Ready() && name in store.btrees && name !in done && name in s0.trees
      requires TrailOpen(trail0, puts0, s0, store.Value()) && CommitsTables(s0, puts0, done, txn, stamp)
      requires clean <==> wasClean && AllKeepOrder(trail0, puts0)
      modifies this`clean, store.pager, store.pager.allocator, store.btrees[name]
      ensures ok ==>
                && Ready() && TrailOpen(trail, puts, s0, store.Value())
                && CommitsTables(s0, puts, done + {name}, txn, stamp)
                && (clean <==> wasClean && AllKeepOrder(trail, puts))
      ensures !ok ==> CommitStopped(trail, puts, next, s0, store.Value(), txn, stamp)
    {
      hide PutFailed, Accepts, KeepsOrder, AllOrdered, StoreOk, EntriesFor, Takes, RowsOf, AllKeepOrder, PutsSome;
      var staged := CollectStaged(name, txn);
      NotYetPut(trail0, puts0, s0, store.Value(), done, name, txn, stamp);
      ok, trail, puts, next := PutStaged(name, staged, stamp, trail0, puts0, wasClean);
      if ok {
        TableDone(s0, puts0, puts, done, name, staged, txn, stamp);
      } else {
        ghost var i :| StopsAt(puts0, puts, next, name, staged, stamp, i);
        TableStops(s0, puts0, puts, next, done, name, staged, txn, stamp, i);
      }
    }

    /** All tables of a commit, as far as the puts return. */
    method PutAllStaged(txn: nat, stamp: nat)
      returns (ok: bool, ghost trail: seq<Store>, ghost puts: seq<TablePut>, ghost next: TablePut)
      requires Ready()
      modifies this`clean, store.pager, store.pager.allocator, store.btrees.Values
      ensures ok ==>
                && Ready() && CommitMade(trail, puts, old(store.Value()), store.Value(), txn, stamp)
                && (clean <==> old(clean) && AllKeepOrder(trail, puts))
      ensures !ok ==> CommitStopped(trail, puts, next, old(store.Value()), store.Value(), txn, stamp)
    {
      hide AllOrdered, StoreOk, RowsMap, AllKeepOrder, CommitsTables, CommitStopped, TrailOpen;
      ghost var s0 := store.Value();
      trail, puts, next := [s0], [], TablePut("", Entry(NULL_KEY, 0, 0, false, NO_ROW, 0));
      var todo := store.btrees.Keys;
      assert s0.trees.Keys - todo == {};
      NothingPut(s0, txn, stamp);
      while todo != {}
        invariant todo <= store.btrees.Keys && Ready() && TrailOpen(trail, puts, s0, store.Value())
        invariant clean <==> old(clean) && AllKeepOrder(trail, puts)
        invariant CommitsTables(s0, puts, s0.trees.Keys - todo, txn, stamp)
      {
        var name :| name in todo;
        ghost var done := s0.trees.Keys - todo;
        ok, trail, puts, next := CommitTable(name, txn, stamp, s0, trail, puts, old(clean), done);
        if !ok {
          return;
        }
        todo := todo - {name};
        assert s0.trees.Keys - todo == done + {name};
      }
      assert s0.trees.Keys - todo == s0.trees.Keys;
      ok := true;
    }

    /** Puts every staged version of every table again under the stamp, then moves the cut up. It
        fails exactly at the first put that throws, and then leaves the cut where it was. */
    method Commit(txn: nat, stamp: nat)
      returns (ok: bool, ghost trail: seq<Store>, ghost puts: seq<TablePut>, ghost next: TablePut)
      requires Valid()
      modifies this, store.pager, store.pager.allocator, store.btrees.Values
      ensures autoId == old(autoId) && visibleSeq == if ok then Max(old(visibleSeq), stamp) else old(visibleSeq)
      ensures ok ==>
                && Valid() && history == old(history) + [CommitOp(txn, stamp)]
                && CommitMade(trail, puts, old(store.Value()), store.Value(), txn, stamp)
                && (clean <==> old(clean) && AllKeepOrder(trail, puts))
      ensures ok && clean ==> Value() == ApplyLocal(old(Value()), CommitOp(txn, stamp), size)
      ensures !ok ==> CommitStopped(trail, puts, next, old(store.Value()), store.Value(), txn, stamp)
    {
      hide AllOrdered, StoreOk, RowsMap, AllKeepOrder, CommitMade, CommitStopped, ApplyLocal, RunLocal, Addresses;
      ok, trail, puts, next := Publish(txn, stamp);
      if ok {
        HistoryGrows(store.btrees.Keys, history, CommitOp(txn, stamp), size);
        history := history + [CommitOp(txn, stamp)];
      }
    }

    /** Puts all staged entries again under the stamp and, if none threw, moves the cut. */
    method Publish(txn: nat, stamp: nat)
      returns (ok: bool, ghost trail: seq<Store>, ghost puts: seq<TablePut>, ghost next: TablePut)
      requires Ready()
      modifies this`clean, this`visibleSeq, store.pager, store.pager.allocator, store.btrees.Values
      ensures visibleSeq == if ok then Max(old(visibleSeq), stamp) else old(visibleSeq)
      ensures ok ==>
                && Ready() && CommitMade(trail, puts, old(store.Value()), store.Value(), txn, stamp)
                && (clean <==> old(clean) && AllKeepOrder(trail, puts))
      ensures ok && clean ==> Value() == ApplyLocal(old(Value()), CommitOp(txn, stamp), size)
      ensures !ok ==> CommitStopped(trail, puts, next, old(store.Value()), store.Value(), txn, stamp)
    {
      hide AllOrdered, StoreOk, RowsMap, AllKeepOrder, CommitMade, CommitStopped, ApplyLocal;
      ok, trail, puts, next := PutAllStaged(txn, stamp);
      if ok {
        visibleSeq := if stamp > visibleSeq then stamp else visibleSeq;
        CommitApplies(trail, puts, old(store.Value()), store.Value(), old(Value()), Value(), txn, stamp, size, clean);
      }
    }
  }
}
