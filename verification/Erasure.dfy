/**
 What an abort undoes (abort in includes/opendb/storage/InMemoryStorageEngine.hpp): the history with
 the aborted transaction's writes taken out, and when the two histories give the same versions.
 Automatic keys are what can tell them apart: a write of the transaction may move the counter that
 another transaction draws its key from, or keep it from being dropped.
 */
module Erasure {
  import opened Versions
  import opened MemoryStore

  /** The history without the writes of one transaction. */
  function Erased(ops: seq<Op>, txn: nat): seq<Op> {
    if ops == [] then []
    else
      var last := ops[|ops| - 1];
      Erased(ops[..|ops| - 1], txn) + if WrittenBy(last, txn) then [] else [last]
  }

  predicate Uncommitted(ops: seq<Op>, txn: nat) {
    forall i :: 0 <= i < |ops| && ops[i].CommitOp? ==> ops[i].txn != txn
  }

  /** Without the transaction's staged versions, the table's version lists are those of the erased history. */
  ghost predicate ErasedAt(ops: seq<Op>, txn: nat, table: string) {
    forall key :: Purged(VersionsOf(Run(ops), table, key), txn) == VersionsOf(Run(Erased(ops, txn)), table, key)
  }

  /** Another transaction draws an automatic key from the table. */
  predicate DrawsKey(op: Op, txn: nat, table: string) {
    op.PutOp? && op.txn != txn && op.table == table && op.key == NULL_KEY
  }

  /** Every other transaction draws the automatic keys it would draw without the transaction. */
  predicate SameDraws(ops: seq<Op>, txn: nat, table: string) {
    forall i :: 0 <= i < |ops| && DrawsKey(ops[i], txn, table) ==>
      NextId(Run(ops[..i]), table) == NextId(Run(Erased(ops[..i], txn)), table)
  }

  // ----- purging commutes with the operations -----

  lemma {:induction false} PurgedStamped(vs: seq<Version>, txn: nat, other: nat, stamp: nat)
    requires other != txn
    ensures Purged(Stamped(vs, other, stamp), txn) == Stamped(Purged(vs, txn), other, stamp)
  {
    if vs != [] {
      var front, last := vs[..|vs| - 1], vs[|vs| - 1];
      PurgedStamped(front, txn, other, stamp);
      assert Stamped(vs, other, stamp)[..|vs| - 1] == Stamped(front, other, stamp);
      var tail: seq<Version> := if StagedBy(last, txn) then [] else [last];
      assert Stamped(Purged(front, txn) + tail, other, stamp)
             == Stamped(Purged(front, txn), other, stamp) + Stamped(tail, other, stamp);
    }
  }

  lemma {:induction false} PurgedPurged(vs: seq<Version>, txn: nat, other: nat)
    ensures Purged(Purged(vs, other), txn) == Purged(Purged(vs, txn), other)
  {
    if vs != [] {
      var front, last := vs[..|vs| - 1], vs[|vs| - 1];
      PurgedPurged(front, txn, other);
      PurgedLast(vs, txn, other);
      PurgedLast(vs, other, txn);
    }
  }

  lemma PurgedLast(vs: seq<Version>, txn: nat, other: nat)
    requires vs != []
    ensures var front, last := Purged(vs[..|vs| - 1], other), vs[|vs| - 1];
            Purged(Purged(vs, other), txn)
            == Purged(front, txn) + if StagedBy(last, txn) || StagedBy(last, other) then [] else [last]
  {
    var front, last := Purged(vs[..|vs| - 1], other), vs[|vs| - 1];
    if StagedBy(last, other) {
      assert Purged(vs, other) == front;
    } else {
      assert Purged(vs, other) == front + [last];
      PurgedAppend(front, last, txn);
    }
  }

  lemma RunNothing(txn: nat)
    ensures Run([]) == EMPTY_DB && Erased([], txn) == []
  {
  }

  lemma ErasedStep(front: seq<Op>, op: Op, txn: nat)
    ensures Run(front + [op]) == Apply(Run(front), op)
    ensures Run(Erased(front + [op], txn))
         == if WrittenBy(op, txn) then Run(Erased(front, txn)) else Apply(Run(Erased(front, txn)), op)
  {
    hide Apply, Run;
    assert (front + [op])[..|front|] == front;
    RunStep(front, op);
    if WrittenBy(op, txn) {
      assert Erased(front + [op], txn) == Erased(front, txn);
    } else {
      RunStep(Erased(front, txn), op);
    }
  }

  lemma PurgeCommutes(db: Db, db': Db, op: Op, txn: nat, table: string, key: Key)
    requires Purged(VersionsOf(db, table, key), txn) == VersionsOf(db', table, key)
    requires op.CommitOp? ==> op.txn != txn
    requires DrawsKey(op, txn, table) ==> NextId(db, table) == NextId(db', table)
    ensures Purged(VersionsOf(Apply(db, op), table, key), txn)
         == VersionsOf(if WrittenBy(op, txn) then db' else Apply(db', op), table, key)
  {
    var vs := VersionsOf(db, table, key);
    StepByKey(db, op, table, key);
    StepByKey(db', op, table, key);
    match op
    case PutOp(t, _, k, row) =>
      var r := if k == NULL_KEY then row.(id := NextId(db, op.table)) else row;
      PurgedAppend(vs, Version(0, t, false, r), txn);
    case RemoveOp(t, _, _) => PurgedAppend(vs, Version(0, t, true, NO_ROW), txn);
    case CommitOp(t, stamp) => PurgedStamped(vs, txn, t, stamp);
    case AbortOp(t) => PurgedPurged(vs, txn, t);
  }

  /** A different automatic key shows: the real history writes a key that the erased one does not. */
  lemma DifferentDrawShows(db: Db, db': Db, op: Op, txn: nat)
    requires op.PutOp? && DrawsKey(op, txn, op.table) && NextId(db, op.table) != NextId(db', op.table)
    requires forall key :: Purged(VersionsOf(db, op.table, key), txn) == VersionsOf(db', op.table, key)
    ensures var key := NextId(db, op.table);
            Purged(VersionsOf(Apply(db, op), op.table, key), txn) != VersionsOf(Apply(db', op), op.table, key)
  {
    var key := NextId(db, op.table);
    var vs := VersionsOf(db, op.table, key);
    StepByKey(db, op, op.table, key);
    StepByKey(db', op, op.table, key);
    PurgedAppend(vs, Version(0, op.txn, false, op.row.(id := key)), txn);
    assert |Purged(vs, txn) + [Version(0, op.txn, false, op.row.(id := key))]| > |VersionsOf(db', op.table, key)|;
  }

  /** One operation keeps the two histories together exactly when it draws the same key in both. */
  lemma StepErases(front: seq<Op>, op: Op, txn: nat, table: string)
    requires ErasedAt(front, txn, table) && (op.CommitOp? ==> op.txn != txn)
    ensures ErasedAt(front + [op], txn, table) <==>
            (DrawsKey(op, txn, table) ==> NextId(Run(front), table) == NextId(Run(Erased(front, txn)), table))
  {
    var db, db' := Run(front), Run(Erased(front, txn));
    ErasedStep(front, op, txn);
    if DrawsKey(op, txn, table) && NextId(db, table) != NextId(db', table) {
      DifferentDrawShows(db, db', op, txn);
    } else {
      forall key ensures Purged(VersionsOf(Run(front + [op]), table, key), txn)
                      == VersionsOf(Run(Erased(front + [op], txn)), table, key)
      {
        PurgeCommutes(db, db', op, txn, table, key);
      }
    }
  }

  lemma {:induction false} SameDrawsErase(ops: seq<Op>, txn: nat, table: string, n: nat)
    requires Uncommitted(ops, txn) && SameDraws(ops, txn, table) && n <= |ops|
    ensures ErasedAt(ops[..n], txn, table)
  {
    if n > 0 {
      hide Apply, Run, Erased, ErasedAt;
      SameDrawsErase(ops, txn, table, n - 1);
      assert ops[..n] == ops[..n - 1] + [ops[n - 1]];
      StepErases(ops[..n - 1], ops[n - 1], txn, table);
    }
  }

  /**
   Purging undoes exactly a transaction's writes, all along a history, if and only if every other
   transaction draws the automatic keys it would have drawn without it.
   */
  lemma EraseIff(ops: seq<Op>, txn: nat, table: string)
    requires Uncommitted(ops, txn)
    ensures (forall n :: 0 <= n <= |ops| ==> ErasedAt(ops[..n], txn, table)) <==> SameDraws(ops, txn, table)
  {
    if SameDraws(ops, txn, table) {
      forall n | 0 <= n <= |ops| ensures ErasedAt(ops[..n], txn, table) {
        SameDrawsErase(ops, txn, table, n);
      }
    } else {
      var i :| 0 <= i < |ops| && DrawsKey(ops[i], txn, table)
               && NextId(Run(ops[..i]), table) != NextId(Run(Erased(ops[..i], txn)), table);
      if ErasedAt(ops[..i], txn, table) {
        assert ops[..i + 1] == ops[..i] + [ops[i]];
        StepErases(ops[..i], ops[i], txn, table);
      }
    }
  }

  lemma CutByStep(db: Db, op: Op)
    ensures Apply(db, op).visibleSeq == if op.CommitOp? then Max(db.visibleSeq, op.stamp) else db.visibleSeq
  {
  }

  lemma {:induction false} SameCut(ops: seq<Op>, txn: nat)
    ensures Run(ops).visibleSeq == Run(Erased(ops, txn)).visibleSeq
  {
    hide Apply, Run, Erased;
    if ops == [] {
      RunNothing(txn);
    } else {
      var front, last := ops[..|ops| - 1], ops[|ops| - 1];
      SameCut(front, txn);
      assert ops == front + [last];
      ErasedStep(front, last, txn);
      CutByStep(Run(front), last);
      CutByStep(Run(Erased(front, txn)), last);
    }
  }

  /** After an abort every reader but the transaction itself sees what it would see had the
      transaction never written, in every table whose automatic keys it did not shift. */
  lemma AbortErases(ops: seq<Op>, txn: nat, reader: nat, table: string, key: Key)
    requires Uncommitted(ops, txn) && SameDraws(ops, txn, table) && reader != txn
    ensures Lookup(Run(ops + [AbortOp(txn)]), reader, table, key) == Lookup(Run(Erased(ops, txn)), reader, table, key)
  {
    SameDrawsErase(ops, txn, table, |ops|);
    assert ops[..|ops|] == ops;
    assert (ops + [AbortOp(txn)])[..|ops|] == ops;
    StepByKey(Run(ops), AbortOp(txn), table, key);
    SameCut(ops, txn);
  }

  // ----- a condition that can be read off the history -----

  predicate WritesTable(ops: seq<Op>, txn: nat, table: string) {
    exists i :: 0 <= i < |ops| && WrittenBy(ops[i], txn) && ops[i].table == table
  }

  /** No other transaction draws an automatic key from the table; or the transaction draws none
      itself and no other transaction that wrote into the table aborts. */
  predicate KeysSettled(ops: seq<Op>, txn: nat, table: string) {
    || (forall i :: 0 <= i < |ops| ==> !DrawsKey(ops[i], txn, table))
    || (forall i :: 0 <= i < |ops| ==> Undisturbed(ops, ops[i], txn, table))
  }

  predicate Undisturbed(ops: seq<Op>, op: Op, txn: nat, table: string) {
    match op
    case PutOp(t, name, key, _) => !(t == txn && name == table && key == NULL_KEY)
    case AbortOp(t) => t == txn || !WritesTable(ops, t, table)
    case _ => true
  }

  /** A version that no purge in the history removes. */
  ghost predicate Lasting(db: Db, ops: seq<Op>, txn: nat, table: string, key: Key, v: Version) {
    v in VersionsOf(db, table, key) && v.txn != txn && WritesTable(ops, v.txn, table)
  }

  ghost predicate HasLasting(db: Db, ops: seq<Op>, txn: nat, table: string) {
    exists key, v :: Lasting(db, ops, txn, table, key, v)
  }

  lemma AbortKeepsCounter(db: Db, t: nat, table: string, key: Key, v: Version)
    requires NextId(db, table) > 1 ==> v in VersionsOf(db, table, key) && v.txn != t
    ensures NextId(AfterAbort(db, t), table) == NextId(db, table)
  {
    if NextId(db, table) > 1 {
      PurgedMember(db.tables[table][key], t, v);
      assert key in PurgedRows(db.tables[table], t);
    }
  }

  lemma StepKeepsLasting(db: Db, op: Op, ops: seq<Op>, txn: nat, table: string)
    requires HasLasting(db, ops, txn, table) && Undisturbed(ops, op, txn, table)
    ensures HasLasting(Apply(db, op), ops, txn, table)
  {
    var key, v :| Lasting(db, ops, txn, table, key, v);
    var vs, vs' := VersionsOf(db, table, key), VersionsOf(Apply(db, op), table, key);
    StepByKey(db, op, table, key);
    if op.AbortOp? {
      PurgedMember(vs, op.txn, v);
      assert Lasting(Apply(db, op), ops, txn, table, key, v);
    } else if op.CommitOp? {
      var i :| 0 <= i < |vs| && vs[i] == v;
      assert vs'[i] == StampOne(v, op.txn, op.stamp);
      assert Lasting(Apply(db, op), ops, txn, table, key, vs'[i]);
    } else {
      assert Lasting(Apply(db, op), ops, txn, table, key, v);
    }
  }

  /** The counter of the table stays the same in both histories. */
  lemma StepKeepsCounter(db: Db, db': Db, op: Op, ops: seq<Op>, txn: nat, table: string)
    requires Undisturbed(ops, op, txn, table) && op in ops
    requires NextId(db, table) == NextId(db', table)
    requires NextId(db, table) > 1 ==> HasLasting(db, ops, txn, table)
    requires forall key :: Purged(VersionsOf(db, table, key), txn) == VersionsOf(db', table, key)
    ensures NextId(Apply(db, op), table) == NextId(if WrittenBy(op, txn) then db' else Apply(db', op), table)
    ensures NextId(Apply(db, op), table) > 1 ==> HasLasting(Apply(db, op), ops, txn, table)
  {
    if NextId(db, table) > 1 {
      StepKeepsLasting(db, op, ops, txn, table);
      var key, v :| Lasting(db, ops, txn, table, key, v);
      PurgedMember(VersionsOf(db, table, key), txn, v);
      if op.AbortOp? {
        AbortKeepsCounter(db, op.txn, table, key, v);
        AbortKeepsCounter(db', op.txn, table, key, v);
      }
    }
    if DrawsKey(op, txn, table) {
      var id := NextId(db, table);
      StepByKey(db, op, table, id);
      var i :| 0 <= i < |ops| && ops[i] == op;
      assert Lasting(Apply(db, op), ops, txn, table, id, Version(0, op.txn, false, op.row.(id := id)));
    }
  }

  lemma {:induction false} CounterAgrees(ops: seq<Op>, txn: nat, table: string, n: nat)
    requires Uncommitted(ops, txn) && n <= |ops|
    requires forall i :: 0 <= i < |ops| ==> Undisturbed(ops, ops[i], txn, table)
    ensures ErasedAt(ops[..n], txn, table)
    ensures NextId(Run(ops[..n]), table) == NextId(Run(Erased(ops[..n], txn)), table)
    ensures NextId(Run(ops[..n]), table) > 1 ==> HasLasting(Run(ops[..n]), ops, txn, table)
  {
    if n > 0 {
      hide Apply, Run, Erased;
      var front, op := ops[..n - 1], ops[n - 1];
      CounterAgrees(ops, txn, table, n - 1);
      assert ops[..n] == front + [op];
      ErasedStep(front, op, txn);
      StepErases(front, op, txn, table);
      StepKeepsCounter(Run(front), Run(Erased(front, txn)), op, ops, txn, table);
    }
  }

  /** Settled keys are drawn the same with and without the transaction. */
  lemma SettledDraws(ops: seq<Op>, txn: nat, table: string)
    requires Uncommitted(ops, txn) && KeysSettled(ops, txn, table)
    ensures SameDraws(ops, txn, table)
  {
    if forall i :: 0 <= i < |ops| ==> Undisturbed(ops, ops[i], txn, table) {
      forall i | 0 <= i < |ops| && DrawsKey(ops[i], txn, table)
        ensures NextId(Run(ops[..i]), table) == NextId(Run(Erased(ops[..i], txn)), table)
      {
        CounterAgrees(ops, txn, table, i);
      }
    }
  }

  // ----- where an abort leaves a trace -----

  /** An aborted automatic key is not given back: the next one drawn is greater than without the abort. */
  lemma AbortKeepsDraw(r: Row, q: Row)
    ensures var ops := [PutOp(1, "t", NULL_KEY, r), PutOp(2, "t", NULL_KEY, q), CommitOp(2, 1)];
            && Uncommitted(ops, 1)
            && Lookup(Run(ops + [AbortOp(1)]), 3, "t", 1) == None
            && Lookup(Run(Erased(ops, 1)), 3, "t", 1) == Some(q.(id := 1))
  {
    hide Apply, Lookup, Run, Erased;
    RunNothing(1);
    var p, o, c, a := PutOp(1, "t", NULL_KEY, r), PutOp(2, "t", NULL_KEY, q), CommitOp(2, 1), AbortOp(1);
    ErasedStep([], p, 1);
    ErasedStep([p], o, 1);
    ErasedStep([p, o], c, 1);
    assert [] + [p] == [p] && [p] + [o] == [p, o] && [p, o] + [c] == [p, o, c];
    RunStep([p, o, c], a);
    SecondDraw(r, q);
    FirstDraw(q);
  }

  lemma SecondDraw(r: Row, q: Row)
    ensures var d2 := Apply(Apply(EMPTY_DB, PutOp(1, "t", NULL_KEY, r)), PutOp(2, "t", NULL_KEY, q));
            Lookup(Apply(Apply(d2, CommitOp(2, 1)), AbortOp(1)), 3, "t", 1) == None
  {
    var p, o, c, a := PutOp(1, "t", NULL_KEY, r), PutOp(2, "t", NULL_KEY, q), CommitOp(2, 1), AbortOp(1);
    var d1 := Apply(EMPTY_DB, p);
    var d2 := Apply(d1, o);
    StepByKey(EMPTY_DB, p, "t", 1);
    StepByKey(d1, o, "t", 1);
    StepByKey(d2, c, "t", 1);
    StepByKey(Apply(d2, c), a, "t", 1);
    var mine := Version(0, 1, false, r.(id := 1));
    assert VersionsOf(Apply(d2, c), "t", 1) == [mine] && Purged([mine], 1) == Purged([], 1);
  }

  lemma FirstDraw(q: Row)
    ensures Lookup(Apply(Apply(EMPTY_DB, PutOp(2, "t", NULL_KEY, q)), CommitOp(2, 1)), 3, "t", 1) == Some(q.(id := 1))
  {
    var o, c := PutOp(2, "t", NULL_KEY, q), CommitOp(2, 1);
    StepByKey(EMPTY_DB, o, "t", 1);
    StepByKey(Apply(EMPTY_DB, o), c, "t", 1);
    assert VersionsOf(Apply(Apply(EMPTY_DB, o), c), "t", 1) == [Version(1, 2, false, q.(id := 1))];
  }

  /** A named row of the transaction keeps the table, and with it the counter, alive through the
      abort of another transaction. */
  lemma AbortKeepsCounterAlive(r: Row, q: Row, w: Row)
    ensures var ops := [PutOp(1, "t", 5, r), PutOp(2, "t", NULL_KEY, q), AbortOp(2), PutOp(3, "t", NULL_KEY, w),
            CommitOp(3, 1)];
            && Uncommitted(ops, 1)
            && Lookup(Run(ops + [AbortOp(1)]), 4, "t", 1) == None
            && Lookup(Run(Erased(ops, 1)), 4, "t", 1) == Some(w.(id := 1))
  {
    hide Apply, Lookup, Run, Erased;
    RunNothing(1);
    var p, o, b := PutOp(1, "t", 5, r), PutOp(2, "t", NULL_KEY, q), AbortOp(2);
    var n, c, a := PutOp(3, "t", NULL_KEY, w), CommitOp(3, 1), AbortOp(1);
    ErasedStep([], p, 1);
    ErasedStep([p], o, 1);
    ErasedStep([p, o], b, 1);
    ErasedStep([p, o, b], n, 1);
    ErasedStep([p, o, b, n], c, 1);
    assert [] + [p] == [p] && [p] + [o] == [p, o] && [p, o] + [b] == [p, o, b] && [p, o, b] + [n] == [p, o, b, n]
           && [p, o, b, n] + [c] == [p, o, b, n, c];
    RunStep([p, o, b, n, c], a);
    CounterAlive(r, q, w);
    CounterDropped(q, w);
  }

  lemma CounterAlive(r: Row, q: Row, w: Row)
    ensures var d2 := Apply(Apply(EMPTY_DB, PutOp(1, "t", 5, r)), PutOp(2, "t", NULL_KEY, q));
            var d4 := Apply(Apply(d2, AbortOp(2)), PutOp(3, "t", NULL_KEY, w));
            Lookup(Apply(Apply(d4, CommitOp(3, 1)), AbortOp(1)), 4, "t", 1) == None
  {
    var p, o, b := PutOp(1, "t", 5, r), PutOp(2, "t", NULL_KEY, q), AbortOp(2);
    var n, c, a := PutOp(3, "t", NULL_KEY, w), CommitOp(3, 1), AbortOp(1);
    var d1 := Apply(EMPTY_DB, p);
    var d2 := Apply(d1, o);
    var d3 := Apply(d2, b);
    var d4 := Apply(d3, n);
    StepByKey(EMPTY_DB, p, "t", 5);
    StepByKey(d1, o, "t", 5);
    AbortKeepsCounter(d2, 2, "t", 5, Version(0, 1, false, r));
    assert NextId(d3, "t") == 2;
    StepByKey(EMPTY_DB, p, "t", 1);
    StepByKey(d1, o, "t", 1);
    StepByKey(d2, b, "t", 1);
    var theirs := Version(0, 2, false, q.(id := 1));
    assert VersionsOf(d2, "t", 1) == [theirs] && Purged([theirs], 2) == Purged([], 2);
    StepByKey(d3, n, "t", 1);
    StepByKey(d4, c, "t", 1);
    StepByKey(Apply(d4, c), a, "t", 1);
  }

  lemma CounterDropped(q: Row, w: Row)
    ensures var e1 := Apply(EMPTY_DB, PutOp(2, "t", NULL_KEY, q));
            var e3 := Apply(Apply(e1, AbortOp(2)), PutOp(3, "t", NULL_KEY, w));
            Lookup(Apply(e3, CommitOp(3, 1)), 4, "t", 1) == Some(w.(id := 1))
  {
    hide Apply;
    var e2 := Apply(Apply(EMPTY_DB, PutOp(2, "t", NULL_KEY, q)), AbortOp(2));
    var n, c := PutOp(3, "t", NULL_KEY, w), CommitOp(3, 1);
    TableDropped(q);
    StepByKey(e2, n, "t", 1);
    StepByKey(Apply(e2, n), c, "t", 1);
    CutByStep(e2, n);
    CutByStep(Apply(e2, n), c);
    assert VersionsOf(Apply(Apply(e2, n), c), "t", 1) == [Version(1, 3, false, w.(id := 1))];
  }

  /** The abort of the only writer drops the table and its counter. */
  lemma TableDropped(q: Row)
    ensures var e2 := Apply(Apply(EMPTY_DB, PutOp(2, "t", NULL_KEY, q)), AbortOp(2));
            e2.visibleSeq == 0 && NextId(e2, "t") == 1 && VersionsOf(e2, "t", 1) == []
  {
    var e1 := Apply(EMPTY_DB, PutOp(2, "t", NULL_KEY, q));
    var theirs := Version(0, 2, false, q.(id := 1));
    var none: seq<Version> := [];
    assert none + [theirs] == [theirs] && [theirs][..0] == none;
    assert e1.tables["t"] == map[1 := [theirs]];
    assert Purged([theirs], 2) == Purged(none, 2) == none;
    assert PurgedRows(e1.tables["t"], 2) == map[];
  }
}
