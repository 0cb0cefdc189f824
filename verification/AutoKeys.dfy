/**
 Automatic keys: a put with a Null key draws the next key of its table, in both engines, so that rows
 inserted without a key never meet under one key.
 */
module AutoKeys {
  import opened Versions
  import opened MemoryStore
  import opened LocalStore
  import opened MemoryEngines

  predicate DrawsFrom(op: Op, table: string) {
    op.PutOp? && op.key == NULL_KEY && op.table == table
  }

  /** The table went away with its last row, and with it its counter. */
  predicate DropsTable(front: seq<Op>, op: Op, table: string) {
    op.AbortOp? && table in Run(front).tables && table !in Run(front + [op]).tables
  }

  /** The keys drawn from the table since it was last dropped. */
  function Draws(ops: seq<Op>, table: string): nat {
    if ops == [] then 0
    else
      var front, op := ops[..|ops| - 1], ops[|ops| - 1];
      if DropsTable(front, op, table) then 0 else Draws(front, table) + if DrawsFrom(op, table) then 1 else 0
  }

  lemma DrawsStep(front: seq<Op>, op: Op, table: string)
    ensures Draws(front + [op], table) ==
            if DropsTable(front, op, table) then 0 else Draws(front, table) + if DrawsFrom(op, table) then 1 else 0
  {
    assert (front + [op])[..|front|] == front;
  }

  /** After every run the next automatic key is one more than the number of keys drawn so far. */
  lemma {:induction false} DrawCounts(ops: seq<Op>, table: string)
    ensures NextId(Run(ops), table) == 1 + Draws(ops, table)
  {
    if ops != [] {
      var front, op := ops[..|ops| - 1], ops[|ops| - 1];
      assert ops == front + [op];
      DrawCounts(front, table);
      DrawsStep(front, op, table);
      RunStep(front, op);
    }
  }

  /** The key that the put at position i draws. */
  function Drawn(ops: seq<Op>, i: nat): Key
    requires i < |ops| && ops[i].PutOp?
  {
    NextId(Run(ops[..i]), ops[i].table)
  }

  /** A key drawn later is greater, unless the table was dropped in between. */
  lemma {:induction false} DrawsRise(ops: seq<Op>, i: nat, j: nat, table: string)
    requires i < j <= |ops| && DrawsFrom(ops[i], table)
    requires forall m :: i < m < j ==> !DropsTable(ops[..m], ops[m], table)
    ensures Drawn(ops, i) < NextId(Run(ops[..j]), table)
    ensures j < |ops| && DrawsFrom(ops[j], table) ==> Drawn(ops, i) < Drawn(ops, j)
    decreases j
  {
    var m := j - 1;
    assert ops[..j] == ops[..m] + [ops[m]];
    DrawsStep(ops[..m], ops[m], table);
    DrawCounts(ops[..j], table);
    DrawCounts(ops[..m], table);
    if i < m {
      DrawsRise(ops, i, m, table);
    }
  }

  // ----- rows inserted without a key -----

  /** A counter is kept for tables that exist, and for no others. */
  lemma {:induction false} CountersHaveTables(ops: seq<Op>)
    ensures Run(ops).autoId.Keys <= Run(ops).tables.Keys
  {
    if ops != [] {
      CountersHaveTables(ops[..|ops| - 1]);
    }
  }

  /** The rows put one after the other with a Null key. */
  function Inserts(txn: nat, table: string, rows: seq<Row>): (ops: seq<Op>)
    ensures |ops| == |rows|
  {
    seq(|rows|, i requires 0 <= i < |rows| => PutOp(txn, table, NULL_KEY, rows[i]))
  }

  /** The rows under the keys from 1 on. */
  function Numbered(rows: seq<Row>): (r: seq<Row>)
    ensures |r| == |rows|
  {
    seq(|rows|, i requires 0 <= i < |rows| => rows[i].(id := i + 1))
  }

  function OneTo(n: nat): (keys: seq<Key>)
    ensures |keys| == n && forall i :: 0 <= i < n ==> keys[i] == i + 1
  {
    seq(n, i requires 0 <= i < n => i + 1)
  }

  /** Key k holds version k - 1 of the list. */
  function NumberedVersion(commitSeq: nat, txn: nat, rows: seq<Row>, k: Key): seq<Version> {
    if 1 <= k <= |rows| then [Version(commitSeq, txn, false, rows[k - 1].(id := k))] else []
  }

  /** The rows are staged under the keys from 1 on, and no other key is there. */
  ghost predicate AllStaged(db: Db, txn: nat, table: string, rows: seq<Row>) {
    && NextId(db, table) == |rows| + 1
    && forall k: Key :: VersionsOf(db, table, k) == NumberedVersion(0, txn, rows, k)
  }

  lemma OneMoreStaged(db: Db, txn: nat, table: string, rows: seq<Row>, row: Row)
    requires AllStaged(db, txn, table, rows)
    ensures AllStaged(Apply(db, PutOp(txn, table, NULL_KEY, row)), txn, table, rows + [row])
  {
    var op := PutOp(txn, table, NULL_KEY, row);
    forall k: Key ensures VersionsOf(Apply(db, op), table, k) == NumberedVersion(0, txn, rows + [row], k) {
      StepByKey(db, op, table, k);
    }
  }

  lemma NoneStaged(front: seq<Op>, txn: nat, table: string)
    requires table !in Run(front).tables
    ensures AllStaged(Run(front), txn, table, [])
  {
    CountersHaveTables(front);
  }

  lemma {:induction false} InsertsStage(front: seq<Op>, txn: nat, table: string, rows: seq<Row>)
    requires table !in Run(front).tables
    ensures AllStaged(Run(front + Inserts(txn, table, rows)), txn, table, rows)
  {
    hide Run, AllStaged, Apply;
    if rows == [] {
      assert front + Inserts(txn, table, rows) == front;
      NoneStaged(front, txn, table);
    } else {
      var less, row := rows[..|rows| - 1], rows[|rows| - 1];
      InsertsStage(front, txn, table, less);
      var before, op := front + Inserts(txn, table, less), PutOp(txn, table, NULL_KEY, row);
      assert front + Inserts(txn, table, rows) == before + [op];
      RunStep(before, op);
      OneMoreStaged(Run(before), txn, table, less, row);
      assert less + [row] == rows;
    }
  }

  lemma StagedBecomesSeen(db: Db, txn: nat, table: string, rows: seq<Row>, stamp: nat, reader: nat, k: Key)
    requires AllStaged(db, txn, table, rows) && stamp > 0
    ensures Lookup(Apply(db, CommitOp(txn, stamp)), reader, table, k)
         == if 1 <= k <= |rows| then Some(rows[k - 1].(id := k)) else None
  {
    var db' := Apply(db, CommitOp(txn, stamp));
    StepByKey(db, CommitOp(txn, stamp), table, k);
    assert VersionsOf(db', table, k) == NumberedVersion(stamp, txn, rows, k);
  }

  /**
   Rows inserted without a key into a new table and committed are there, each under a key of its own:
   every reader looks them up under 1 to n, and scans them in the order they were put.
   */
  lemma InsertsLand(front: seq<Op>, txn: nat, table: string, rows: seq<Row>, stamp: nat, reader: nat)
    requires table !in Run(front).tables && stamp > 0
    ensures var db := Run(front + Inserts(txn, table, rows) + [CommitOp(txn, stamp)]);
            && (forall i: nat :: i < |rows| ==> Lookup(db, reader, table, i + 1) == Some(rows[i].(id := i + 1)))
            && (forall k: Key :: k == 0 || k > |rows| ==> Lookup(db, reader, table, k) == None)
            && ScanRows(db, reader, table) == Numbered(rows)
  {
    hide Run, AllStaged, Apply, Lookup, ScanRows;
    var before, op := front + Inserts(txn, table, rows), CommitOp(txn, stamp);
    InsertsStage(front, txn, table, rows);
    RunStep(before, op);
    var db := Run(before + [op]);
    forall k: Key
      ensures Lookup(db, reader, table, k) == if 1 <= k <= |rows| then Some(rows[k - 1].(id := k)) else None
    {
      StagedBecomesSeen(Run(before), txn, table, rows, stamp, reader, k);
    }
    var keys := ScanIsLookups(db, reader, table);
    FirstNumbers(keys, |rows|);
  }

  /** Rising keys that are exactly 1 to n are 1 to n in this order. */
  lemma FirstNumbers(keys: seq<Key>, n: nat)
    requires forall i, j :: 0 <= i < j < |keys| ==> keys[i] < keys[j]
    requires forall k: Key :: k in keys <==> 1 <= k <= n
    ensures keys == OneTo(n)
  {
    forall k: Key ensures k in keys <==> k in OneTo(n) {
      if 1 <= k <= n {
        assert OneTo(n)[k - 1] == k;
      }
    }
    RisingUnique(keys, OneTo(n), (k: Key) => k);
  }

  /** The same on the engine: inserting rows into a new table, committing and scanning. */
  method InsertAll(engine: MemoryEngine, txn: nat, table: string, rows: seq<Row>, stamp: nat, reader: nat,
                   ghost front: seq<Op>) returns (out: seq<Row>)
    requires engine.Value() == Run(front) && table !in engine.tables && stamp > 0
    modifies engine
    ensures out == Numbered(rows)
    ensures engine.Value() == Run(front + Inserts(txn, table, rows) + [CommitOp(txn, stamp)])
  {
    hide Run, ScanRows;
    ghost var ops := Inserts(txn, table, rows);
    var i := 0;
    assert front + ops[..0] == front;
    while i < |rows|
      invariant i <= |rows| && engine.Value() == Run(front + ops[..i])
    {
      assert front + ops[..i + 1] == front + ops[..i] + [ops[i]] && ops[i] == PutOp(txn, table, NULL_KEY, rows[i]);
      RunStep(front + ops[..i], ops[i]);
      engine.Put(txn, table, NULL_KEY, rows[i]);
      i := i + 1;
    }
    assert ops[..i] == ops;
    RunStep(front + ops, CommitOp(txn, stamp));
    engine.Commit(txn, stamp);
    InsertsLand(front, txn, table, rows, stamp, reader);
    out := engine.Scan(reader, table);
  }

  // ----- the tree engine -----

  /** The keys drawn from a table that is never dropped. */
  function NullPuts(ops: seq<Op>, table: string): nat {
    if ops == [] then 0
    else NullPuts(ops[..|ops| - 1], table) + if DrawsFrom(ops[|ops| - 1], table) then 1 else 0
  }

  /** The tree engine's next automatic key is one more than the number of keys drawn, whatever was
      committed or aborted in between. */
  lemma {:induction false} LocalDrawCounts(created: set<string>, ops: seq<Op>, size: SizeOf, table: string)
    requires table in created
    ensures RunLocal(created, ops, size).tables.Keys == created
    ensures LocalNextId(RunLocal(created, ops, size), table) == 1 + NullPuts(ops, table)
  {
    hide Stored, TableCommitted;
    if ops != [] {
      LocalDrawCounts(created, ops[..|ops| - 1], size, table);
    }
  }

  lemma {:induction false} NullPutsGrow(ops: seq<Op>, i: nat, j: nat, table: string)
    requires i < j <= |ops| && DrawsFrom(ops[i], table)
    ensures NullPuts(ops[..i], table) < NullPuts(ops[..j], table)
    decreases j
  {
    assert ops[..j][..j - 1] == ops[..j - 1];
    if i + 1 < j {
      NullPutsGrow(ops, i, j - 1, table);
    }
  }

  /** A key that the tree engine draws later is greater. */
  lemma LocalDrawsRise(created: set<string>, ops: seq<Op>, size: SizeOf, i: nat, j: nat, table: string)
    requires table in created && i < j <= |ops| && DrawsFrom(ops[i], table)
    ensures LocalNextId(RunLocal(created, ops[..i], size), table)
          < LocalNextId(RunLocal(created, ops[..j], size), table)
  {
    LocalDrawCounts(created, ops[..i], size, table);
    LocalDrawCounts(created, ops[..j], size, table);
    NullPutsGrow(ops, i, j, table);
  }

  /** The operation with its key written out. */
  function WithKey(front: seq<Op>, op: Op): Op {
    if op.PutOp? && op.key == NULL_KEY
    then var id := 1 + NullPuts(front, op.table); PutOp(op.txn, op.table, id, op.row.(id := id))
    else op
  }

  /** The history with every drawn key written out. */
  function Named(ops: seq<Op>): (named: seq<Op>)
    ensures |named| == |ops|
  {
    if ops == [] then [] else Named(ops[..|ops| - 1]) + [WithKey(ops[..|ops| - 1], ops[|ops| - 1])]
  }

  /** Both engines draw the same keys: no put draws from a table that was dropped after a draw. */
  predicate DrawsAlike(ops: seq<Op>) {
    forall i :: 0 <= i < |ops| && ops[i].PutOp? && ops[i].key == NULL_KEY ==>
      Draws(ops[..i], ops[i].table) == NullPuts(ops[..i], ops[i].table)
  }

  lemma {:induction false} NamedLocal(created: set<string>, ops: seq<Op>, size: SizeOf)
    ensures RunLocal(created, Named(ops), size).tables == RunLocal(created, ops, size).tables
    ensures RunLocal(created, Named(ops), size).visibleSeq == RunLocal(created, ops, size).visibleSeq
  {
    hide Stored, TableCommitted, RunLocal, Named;
    if ops == [] {
      NoneNamed();
    } else {
      var front, op := ops[..|ops| - 1], ops[|ops| - 1];
      assert ops == front + [op];
      NamedLocal(created, front, size);
      NamedStep(front, op);
      RunLocalStep(created, front, op, size);
      RunLocalStep(created, Named(front), WithKey(front, op), size);
      if op.PutOp? && op.table in created {
        LocalDrawCounts(created, front, size, op.table);
      }
      CreatedTables(created, front, size);
    }
  }

  lemma NoneNamed()
    ensures Named([]) == []
  {
  }

  lemma NamedStep(front: seq<Op>, op: Op)
    ensures Named(front + [op]) == Named(front) + [WithKey(front, op)]
  {
    assert (front + [op])[..|front|] == front;
  }

  lemma {:induction false} CreatedTables(created: set<string>, ops: seq<Op>, size: SizeOf)
    ensures RunLocal(created, ops, size).tables.Keys == created
  {
    hide Stored, TableCommitted;
    if ops != [] {
      CreatedTables(created, ops[..|ops| - 1], size);
    }
  }

  lemma {:induction false} NamedMemory(ops: seq<Op>)
    requires DrawsAlike(ops)
    ensures Run(Named(ops)).tables == Run(ops).tables && Run(Named(ops)).visibleSeq == Run(ops).visibleSeq
  {
    hide Run, Named, Draws;
    if ops == [] {
      NoneNamed();
    } else {
      var front, op := ops[..|ops| - 1], ops[|ops| - 1];
      assert ops == front + [op];
      AlikeFront(ops);
      NamedMemory(front);
      NamedStep(front, op);
      RunStep(front, op);
      RunStep(Named(front), WithKey(front, op));
      if op.PutOp? && op.key == NULL_KEY {
        DrawCounts(front, op.table);
      }
    }
  }

  lemma AlikeFront(ops: seq<Op>)
    requires DrawsAlike(ops) && ops != []
    ensures DrawsAlike(ops[..|ops| - 1])
    ensures var front, op := ops[..|ops| - 1], ops[|ops| - 1];
            op.PutOp? && op.key == NULL_KEY ==> Draws(front, op.table) == NullPuts(front, op.table)
  {
    hide Draws, NullPuts;
    var front := ops[..|ops| - 1];
    forall i | 0 <= i < |front| && front[i].PutOp? && front[i].key == NULL_KEY
      ensures Draws(front[..i], front[i].table) == NullPuts(front[..i], front[i].table)
    {
      assert front[..i] == ops[..i];
    }
  }

  lemma {:induction false} NamedWriters(ops: seq<Op>, txn: nat)
    requires WritesNothing(ops, txn)
    ensures WritesNothing(Named(ops), txn)
  {
    if ops != [] {
      NamedWriters(ops[..|ops| - 1], txn);
    }
  }

  /**
   The two engines answer alike also where keys are drawn: over every history that is disciplined once
   the drawn keys are written out, for readers that never write.
   */
  lemma SameAnswers(created: set<string>, ops: seq<Op>, size: SizeOf, reader: nat, table: string, key: Key)
    requires DisciplinedRun(created, Named(ops)) && DrawsAlike(ops) && WritesNothing(ops, reader) && table in created
    ensures LocalLookup(RunLocal(created, ops, size), reader, table, key) == Lookup(Run(ops), reader, table, key)
    ensures LocalScan(RunLocal(created, ops, size), reader, table) == ScanRows(Run(ops), reader, table)
  {
    hide RunLocal, Run, Named, DisciplinedRun, DrawsAlike, WritesNothing;
    NamedLocal(created, ops, size);
    NamedMemory(ops);
    NamedWriters(ops, reader);
    SameGets(created, Named(ops), size, reader, table, key);
    SameScans(created, Named(ops), size, reader, table);
    SameTables(Run(Named(ops)), Run(ops), reader, table);
  }

  lemma SameTables(a: Db, b: Db, reader: nat, table: string)
    requires a.tables == b.tables && a.visibleSeq == b.visibleSeq
    ensures ScanRows(a, reader, table) == ScanRows(b, reader, table)
    ensures forall key :: Lookup(a, reader, table, key) == Lookup(b, reader, table, key)
  {
    hide Gathered, Ascending, Newest;
    SameGathered(a, b, reader, table, Ascending(TableKeys(a, table)));
  }

  lemma {:induction false} SameGathered(a: Db, b: Db, reader: nat, table: string, keys: seq<Key>)
    requires a.tables == b.tables && a.visibleSeq == b.visibleSeq
    ensures Gathered(a, reader, table, keys) == Gathered(b, reader, table, keys)
  {
    if keys != [] {
      SameGathered(a, b, reader, table, keys[..|keys| - 1]);
    }
  }

  /** Without aborts the draws are alike. */
  lemma {:induction false} AlikeWithoutAborts(ops: seq<Op>, table: string)
    requires forall i :: 0 <= i < |ops| ==> !ops[i].AbortOp?
    ensures Draws(ops, table) == NullPuts(ops, table)
  {
    if ops != [] {
      AlikeWithoutAborts(ops[..|ops| - 1], table);
    }
  }

  lemma {:induction false} InsertsAlike(txn: nat, table: string, rows: seq<Row>, stamp: nat)
    ensures DrawsAlike(Inserts(txn, table, rows)) && DrawsAlike(Inserts(txn, table, rows) + [CommitOp(txn, stamp)])
    ensures NullPuts(Inserts(txn, table, rows), table) == |rows|
  {
    hide Draws, NullPuts;
    var ops := Inserts(txn, table, rows) + [CommitOp(txn, stamp)];
    forall i, t | 0 <= i <= |ops| ensures Draws(ops[..i], t) == NullPuts(ops[..i], t) {
      AlikeWithoutAborts(ops[..i], t);
    }
    forall i | 0 <= i < |rows| ensures Inserts(txn, table, rows)[..i] == ops[..i] {
    }
    InsertsDraw(txn, table, rows);
  }

  lemma {:induction false} InsertsDraw(txn: nat, table: string, rows: seq<Row>)
    ensures NullPuts(Inserts(txn, table, rows), table) == |rows|
  {
    if rows != [] {
      InsertsDraw(txn, table, rows[..|rows| - 1]);
      assert Inserts(txn, table, rows)[..|rows| - 1] == Inserts(txn, table, rows[..|rows| - 1]);
    }
  }

  lemma {:induction false} InsertsDisciplined(created: set<string>, txn: nat, table: string, rows: seq<Row>)
    requires table in created
    ensures var named := Named(Inserts(txn, table, rows)); DisciplinedRun(created, named) && EndedIn(named) == {}
  {
    if rows == [] {
      NoneNamed();
    } else {
      hide Named, Run, DrawsAlike, AllStaged;
      var less, row := rows[..|rows| - 1], rows[|rows| - 1];
      var front, op := Inserts(txn, table, less), PutOp(txn, table, NULL_KEY, row);
      assert Inserts(txn, table, rows) == front + [op];
      InsertsDisciplined(created, txn, table, less);
      NamedStep(front, op);
      InsertsAlike(txn, table, less, 1);
      NamedMemory(front);
      FreshKey(txn, table, less);
      var named := Named(front) + [WithKey(front, op)];
      assert named[..|named| - 1] == Named(front);
      EndedStep(named);
    }
  }

  /** The next key has no version. */
  lemma FreshKey(txn: nat, table: string, rows: seq<Row>)
    ensures VersionsOf(Run(Inserts(txn, table, rows)), table, |rows| + 1) == []
  {
    assert table !in Run([]).tables;
    InsertsStage([], txn, table, rows);
    assert [] + Inserts(txn, table, rows) == Inserts(txn, table, rows);
  }

  lemma {:induction false} InsertsCut(txn: nat, table: string, rows: seq<Row>)
    ensures Run(Named(Inserts(txn, table, rows))).visibleSeq == 0
  {
    if rows == [] {
      NoneNamed();
    } else {
      hide Named;
      var less, row := rows[..|rows| - 1], rows[|rows| - 1];
      InsertsCut(txn, table, less);
      assert Inserts(txn, table, rows) == Inserts(txn, table, less) + [PutOp(txn, table, NULL_KEY, row)];
      NamedStep(Inserts(txn, table, less), PutOp(txn, table, NULL_KEY, row));
      RunStep(Named(Inserts(txn, table, less)), WithKey(Inserts(txn, table, less), PutOp(txn, table, NULL_KEY, row)));
    }
  }

  /** Rows inserted without a key into a table of the tree engine and committed are scanned one by one,
      under the keys from 1 on. */
  lemma LocalInsertsLand(created: set<string>, txn: nat, table: string, rows: seq<Row>, size: SizeOf, stamp: nat,
                         reader: nat)
    requires table in created && stamp > 0 && reader != txn
    ensures LocalScan(RunLocal(created, Inserts(txn, table, rows) + [CommitOp(txn, stamp)], size), reader, table)
         == Numbered(rows)
  {
    hide RunLocal, Run, Named, LocalScan, ScanRows, DrawsAlike;
    var front, op := Inserts(txn, table, rows), CommitOp(txn, stamp);
    var ops := front + [op];
    InsertsDisciplined(created, txn, table, rows);
    InsertsAlike(txn, table, rows, stamp);
    InsertsCut(txn, table, rows);
    NamedStep(front, op);
    var named := Named(front) + [op];
    assert named[..|named| - 1] == Named(front);
    assert DisciplinedRun(created, Named(ops));
    SameAnswers(created, ops, size, reader, table, NULL_KEY);
    StartsEmpty();
    InsertsLand([], txn, table, rows, stamp, reader);
    assert [] + front == front;
  }

  lemma StartsEmpty()
    ensures Run([]) == EMPTY_DB
  {
  }
}
