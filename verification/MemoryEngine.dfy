/** The in-memory engine's methods, each proved against its specification on values. */
module MemoryEngines {
  import opened Versions
  import opened MemoryStore

  class MemoryEngine {
    var tables: map<string, Rows>
    var autoId: map<string, nat>
    var visibleSeq: nat

    function Value(): Db
      reads this
    {
      Db(tables, autoId, visibleSeq)
    }

    constructor ()
      ensures Value() == EMPTY_DB
    {
      tables, autoId, visibleSeq := map[], map[], 0;
    }

    /** Walks one key's versions from the newest to the oldest. */
    method NewestOf(vs: seq<Version>, txn: nat) returns (r: Option<Version>)
      ensures r == Newest(vs, txn, visibleSeq)
    {
      var i := |vs|;
      assert vs[..i] == vs;
      while i > 0
        invariant i <= |vs| && Newest(vs, txn, visibleSeq) == Newest(vs[..i], txn, visibleSeq)
      {
        assert vs[..i][..i - 1] == vs[..i - 1];
        var v := vs[i - 1];
        if (if v.commitSeq == 0 then v.txn == txn else v.commitSeq <= visibleSeq) {
          return Some(v);
        }
        i := i - 1;
      }
      r := None;
    }

    method Get(txn: nat, table: string, key: Key) returns (r: Option<Row>)
      ensures r == Lookup(Value(), txn, table, key)
    {
      if table !in tables || key !in tables[table] {
        return None;
      }
      var v := NewestOf(tables[table][key], txn);
      if v.None? || v.value.tombstone {
        return None;
      }
      r := Some(v.value.row);
    }

    method Append(table: string, key: Key, v: Version)
      modifies this`tables
      ensures Value() == Appended(old(Value()), table, key, v)
    {
      var rows: Rows := if table in tables then tables[table] else map[];
      var vs := if key in rows then rows[key] else [];
      tables := tables[table := rows[key := vs + [v]]];
    }

    method Put(txn: nat, table: string, key: Key, row: Row)
      modifies this
      ensures Value() == AfterPut(old(Value()), txn, table, key, row)
    {
      var effective, stored := key, row;
      if key == NULL_KEY {
        autoId := autoId[table := if table in autoId then autoId[table] + 1 else 1];
        effective := autoId[table];
        stored := row.(id := effective);
      }
      Append(table, effective, Version(0, txn, false, stored));
    }

    method Remove(txn: nat, table: string, key: Key)
      modifies this
      ensures Value() == AfterRemove(old(Value()), txn, table, key)
    {
      Append(table, key, Version(0, txn, true, NO_ROW));
    }

    /** Emits the visible row of every key, in key order. */
    method Scan(txn: nat, table: string) returns (out: seq<Row>)
      ensures out == ScanRows(Value(), txn, table)
    {
      out := [];
      if table !in tables {
        return;
      }
      var keys := Ascending(tables[table].Keys);
      out := ScanKeys(txn, table, keys);
    }

    method ScanKeys(txn: nat, table: string, keys: seq<Key>) returns (out: seq<Row>)
      requires table in tables && forall k :: k in keys ==> k in tables[table]
      ensures out == Gathered(Value(), txn, table, keys)
    {
      out := [];
      var i := 0;
      while i < |keys|
        invariant i <= |keys| && out == Gathered(Value(), txn, table, keys[..i])
      {
        GatheredOneMore(Value(), txn, table, keys, i);
        var v := NewestOf(tables[table][keys[i]], txn);
        assert Lookup(Value(), txn, table, keys[i]) == RowIn(v);
        if v.Some? && !v.value.tombstone {
          out := out + [v.value.row];
        }
        i := i + 1;
      }
      assert keys[..|keys|] == keys;
    }

    // ----- commit -----

    method StampVersions(vs: seq<Version>, txn: nat, stamp: nat) returns (r: seq<Version>)
      ensures r == Stamped(vs, txn, stamp)
    {
      r := vs;
      var i := 0;
      while i < |vs|
        invariant i <= |vs| == |r|
        invariant forall k :: 0 <= k < |vs| ==> r[k] == if k < i then StampOne(vs[k], txn, stamp) else vs[k]
      {
        if r[i].txn == txn && r[i].commitSeq == 0 {
          r := r[i := r[i].(commitSeq := stamp)];
        }
        i := i + 1;
      }
    }

    method StampRows(rows: Rows, txn: nat, stamp: nat) returns (r: Rows)
      ensures r == StampedRows(rows, txn, stamp)
    {
      r := rows;
      var todo := rows.Keys;
      while todo != {}
        invariant todo <= rows.Keys == r.Keys
        invariant forall k :: k in rows ==> r[k] == if k in todo then rows[k] else Stamped(rows[k], txn, stamp)
        decreases |todo|
      {
        var k :| k in todo;
        var vs := StampVersions(r[k], txn, stamp);
        r := r[k := vs];
        todo := todo - {k};
      }
    }

    /** Stamps every staged version of the transaction, in every table, and moves the cut up. */
    method Commit(txn: nat, stamp: nat)
      modifies this
      ensures Value() == AfterCommit(old(Value()), txn, stamp)
    {
      var todo := tables.Keys;
      ghost var before := tables;
      while todo != {}
        invariant todo <= before.Keys == tables.Keys && autoId == old(autoId) && visibleSeq == old(visibleSeq)
        invariant forall t :: t in before ==>
                    tables[t] == if t in todo then before[t] else StampedRows(before[t], txn, stamp)
        decreases |todo|
      {
        var t :| t in todo;
        var rows := StampRows(tables[t], txn, stamp);
        tables := tables[t := rows];
        todo := todo - {t};
      }
      visibleSeq := if visibleSeq < stamp then stamp else visibleSeq;
      assert tables == AfterCommit(old(Value()), txn, stamp).tables;
    }

    // ----- abort -----

    method PurgeVersions(vs: seq<Version>, txn: nat) returns (r: seq<Version>)
      ensures r == Purged(vs, txn)
    {
      r := [];
      var i := 0;
      while i < |vs|
        invariant i <= |vs| && r == Purged(vs[..i], txn)
      {
        assert vs[..i + 1][..i] == vs[..i];
        if !(vs[i].txn == txn && vs[i].commitSeq == 0) {
          r := r + [vs[i]];
        }
        i := i + 1;
      }
      assert vs[..|vs|] == vs;
    }

    method PurgeRows(rows: Rows, txn: nat) returns (r: Rows)
      ensures r == PurgedRows(rows, txn)
    {
      r := rows;
      var todo := rows.Keys;
      while todo != {}
        invariant todo <= rows.Keys
        invariant forall k :: k in todo ==> k in r && r[k] == rows[k]
        invariant forall k :: k in rows && k !in todo ==>
                    && (k in r <==> Purged(rows[k], txn) != [])
                    && (k in r ==> r[k] == Purged(rows[k], txn))
        invariant r.Keys <= rows.Keys
        decreases |todo|
      {
        var k :| k in todo;
        var vs := PurgeVersions(r[k], txn);
        if vs == [] {
          r := r - {k};
        } else {
          r := r[k := vs];
        }
        todo := todo - {k};
      }
    }

    /** Drops every staged version of the transaction, then empty keys, then empty tables. */
    method Abort(txn: nat)
      modifies this
      ensures Value() == AfterAbort(old(Value()), txn)
    {
      var todo := tables.Keys;
      while todo != {}
        invariant Aborting(old(Value()), Value(), txn, todo)
        decreases |todo|
      {
        var t :| t in todo;
        ghost var db := Value();
        AbortTable(t, txn);
        AbortingStep(old(Value()), db, Value(), txn, todo, t);
        todo := todo - {t};
      }
      AbortDone(old(Value()), Value(), txn);
    }

    method AbortTable(t: string, txn: nat)
      requires t in tables
      modifies this`tables, this`autoId
      ensures var rows := PurgedRows(old(tables)[t], txn);
              if rows == map[] then tables == old(tables) - {t} && autoId == old(autoId) - {t}
              else tables == old(tables)[t := rows] && autoId == old(autoId)
    {
      var rows := PurgeRows(tables[t], txn);
      if rows == map[] {
        tables := tables - {t};
        autoId := autoId - {t};
      } else {
        tables := tables[t := rows];
      }
    }
  }

  /** The tables still to do are untouched, the others are purged or gone. */
  ghost predicate Aborting(db0: Db, db: Db, txn: nat, todo: set<string>) {
    && todo <= db0.tables.Keys && db.visibleSeq == db0.visibleSeq
    && (forall t :: t in db.tables ==>
          t in db0.tables && db.tables[t] == if t in todo then db0.tables[t] else PurgedRows(db0.tables[t], txn))
    && (forall t :: t in db0.tables ==> (t in db.tables <==> t in todo || PurgedRows(db0.tables[t], txn) != map[]))
    && (forall t :: t in db.autoId <==> t in db0.autoId && (t in db0.tables ==> t in db.tables))
    && (forall t :: t in db.autoId ==> db.autoId[t] == db0.autoId[t])
  }

  lemma AbortingStep(db0: Db, db: Db, db': Db, txn: nat, todo: set<string>, t: string)
    requires Aborting(db0, db, txn, todo) && t in todo && db'.visibleSeq == db.visibleSeq && t in db.tables
    requires var rows := PurgedRows(db.tables[t], txn);
             if rows == map[] then db'.tables == db.tables - {t} && db'.autoId == db.autoId - {t}
             else db'.tables == db.tables[t := rows] && db'.autoId == db.autoId
    ensures Aborting(db0, db', txn, todo - {t})
  {
    hide PurgedRows, Aborting;
    if PurgedRows(db.tables[t], txn) == map[] {
      AbortDrops(db0, db, db', txn, todo, t);
    } else {
      AbortKeeps(db0, db, db', txn, todo, t);
    }
  }

  lemma AbortDrops(db0: Db, db: Db, db': Db, txn: nat, todo: set<string>, t: string)
    requires Aborting(db0, db, txn, todo) && t in todo && t in db.tables && PurgedRows(db.tables[t], txn) == map[]
    requires db' == Db(db.tables - {t}, db.autoId - {t}, db.visibleSeq)
    ensures Aborting(db0, db', txn, todo - {t})
  {
    hide PurgedRows;
  }

  lemma AbortKeeps(db0: Db, db: Db, db': Db, txn: nat, todo: set<string>, t: string)
    requires Aborting(db0, db, txn, todo) && t in todo && t in db.tables && PurgedRows(db.tables[t], txn) != map[]
    requires db' == db.(tables := db.tables[t := PurgedRows(db.tables[t], txn)])
    ensures Aborting(db0, db', txn, todo - {t})
  {
    hide PurgedRows;
  }

  lemma AbortDone(db0: Db, db: Db, txn: nat)
    requires Aborting(db0, db, txn, {})
    ensures db == AfterAbort(db0, txn)
  {
    var after := AfterAbort(db0, txn);
    assert db.tables.Keys == after.tables.Keys;
    assert db.tables == after.tables;
    assert db.autoId.Keys == after.autoId.Keys;
    assert db.autoId == after.autoId;
  }
}
