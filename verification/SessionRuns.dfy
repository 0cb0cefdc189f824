/**
 What auto-commit sessions do to the data, read off the calls they made: the engine's state is that of
 the writes and commits in the order of the calls, and a committed row is what readers get.
 */
module SessionRuns {
  import opened Versions
  import opened Locks
  import opened Transactions
  import opened MemoryStore
  import opened Dispatcher

  // ----- the history of the engine -----

  function Fetches(steps: seq<Step>): nat {
    if steps == [] then 0 else Fetches(steps[..|steps| - 1]) + if steps[|steps| - 1].Fetch? then 1 else 0
  }

  function Marks(steps: seq<Step>): nat {
    if steps == [] then 0 else Marks(steps[..|steps| - 1]) + if steps[|steps| - 1].MarkCommitted? then 1 else 0
  }

  /** The transaction of the session's command: commands are numbered as they are fetched. */
  function TxnOf(steps: seq<Step>, s: nat): nat {
    if steps == [] then 0
    else
      var last := steps[|steps| - 1];
      if last.Fetch? && last.s == s then Fetches(steps) else TxnOf(steps[..|steps| - 1], s)
  }

  /** The table of the session's command. */
  function TableOf(steps: seq<Step>, s: nat): string {
    if steps == [] then ""
    else
      var last := steps[|steps| - 1];
      if last.Fetch? && last.s == s then last.table else TableOf(steps[..|steps| - 1], s)
  }

  /** The stamp the session read: the number of transactions marked by then. */
  function StampOf(steps: seq<Step>, s: nat): nat {
    if steps == [] then 0
    else
      var last := steps[|steps| - 1];
      if last == ReadStamp(s) then Marks(steps[..|steps| - 1]) else StampOf(steps[..|steps| - 1], s)
  }

  /** What the call asks of the engine, if anything. */
  function OpOf(front: seq<Step>, step: Step): Option<Op> {
    match step
    case PutRow(s, key, row) => Some(PutOp(TxnOf(front, s), TableOf(front, s), key, row))
    case RemoveRow(s, key) => Some(RemoveOp(TxnOf(front, s), TableOf(front, s), key))
    case EngineCommit(s) => Some(CommitOp(TxnOf(front, s), StampOf(front, s)))
    case _ => None
  }

  function OpsOf(steps: seq<Step>): seq<Op> {
    if steps == [] then []
    else OpsOf(steps[..|steps| - 1]) + ToSeq(OpOf(steps[..|steps| - 1], steps[|steps| - 1]))
  }

  /** The sessions and counters are what the calls so far say. */
  ghost predicate Follows(sys: System, steps: seq<Step>) {
    && sys.txns.nextId == Fetches(steps) && sys.txns.commitSeq == Marks(steps)
    && forall s :: s in sys.sessions && sys.sessions[s].Busy? ==>
         && sys.sessions[s].txn == TxnOf(steps, s) && sys.sessions[s].table == TableOf(steps, s)
         && (sys.sessions[s].stage.HasStamp? ==> sys.sessions[s].stage.stamp == StampOf(steps, s))
  }

  lemma StepFollows(sys: System, front: seq<Step>, step: Step, steps: seq<Step>)
    requires SessionsOk(sys) && Follows(sys, front) && Enabled(sys, step) && steps == front + [step]
    ensures Follows(Next(sys, step), steps)
  {
    hide Granted, Released, Grantable, AfterPut, AfterRemove, AfterCommit;
    assert steps[..|steps| - 1] == front;
  }

  lemma StepApplies(sys: System, front: seq<Step>, step: Step, steps: seq<Step>)
    requires Follows(sys, front) && Enabled(sys, step) && sys.db == Run(OpsOf(front)) && steps == front + [step]
    ensures Next(sys, step).db == Run(OpsOf(steps))
  {
    hide Granted, Released, Grantable, AfterPut, AfterRemove, AfterCommit, Run;
    assert steps[..|steps| - 1] == front;
    var op := OpOf(front, step);
    if op.Some? {
      RunStep(OpsOf(front), op.value);
    } else {
      assert OpsOf(front) + [] == OpsOf(front);
    }
  }

  /**
   In every interleaving the engine's state is that of the calls' writes and commits, in the order of the
   calls: under transactions numbered as commands were fetched, each with its row, and under stamps
   that count the transactions marked when the stamp was read.
   */
  lemma {:induction false} EngineFollowsCalls(states: seq<System>, steps: seq<Step>, n: nat)
    requires Dispatcher.IsRun(states, steps) && n <= |steps|
    ensures Follows(states[n], steps[..n]) && states[n].db == Run(OpsOf(steps[..n]))
  {
    if n > 0 {
      hide Follows, Run, OpsOf, Inv;
      var m := n - 1;
      EngineFollowsCalls(states, steps, m);
      assert steps[..n] == steps[..m] + [steps[m]];
      SessionsAlwaysOk(states, steps, m);
      StepFollows(states[m], steps[..m], steps[m], steps[..n]);
      StepApplies(states[m], steps[..m], steps[m], steps[..n]);
    } else {
      assert steps[..n] == [];
    }
  }

  lemma SessionsAlwaysOk(states: seq<System>, steps: seq<Step>, n: nat)
    requires Dispatcher.IsRun(states, steps) && n <= |steps|
    ensures SessionsOk(states[n]) && StampsOk(states[n]) && StampsBelow(states[n].db)
  {
    RunKeepsInv(states, steps, n);
  }

  // ----- what a committed write shows -----

  /** The key that a write call of the session goes to. */
  function KeyOf(sys: System, step: Step): Key
    requires (step.PutRow? || step.RemoveRow?) && At(sys, step.s).Busy?
  {
    if step.key == NULL_KEY && step.PutRow? then NextId(sys.db, At(sys, step.s).table) else step.key
  }

  /** The call writes the key of the table. */
  predicate Writes(sys: System, step: Step, table: string, key: Key) {
    (step.PutRow? || step.RemoveRow?) && At(sys, step.s).Busy? && At(sys, step.s).table == table
    && KeyOf(sys, step) == key
  }

  /** The row that the write leaves at the key: the row that was put, with its drawn key, or none. */
  function RowOf(step: Step, key: Key): Option<Row>
    requires step.PutRow? || step.RemoveRow?
  {
    if step.RemoveRow? then None else if step.key == NULL_KEY then Some(step.row.(id := key)) else Some(step.row)
  }

  /** The newest version of the list is the transaction's, with the row, under the stamp. */
  predicate EndsWith(vs: seq<Version>, txn: nat, stamp: nat, row: Option<Row>) {
    vs != [] && vs[|vs| - 1].txn == txn && vs[|vs| - 1].commitSeq == stamp && RowIn(Some(vs[|vs| - 1])) == row
  }

  lemma WriteEnds(sys: System, step: Step, table: string, key: Key)
    requires Enabled(sys, step) && Writes(sys, step, table, key)
    ensures EndsWith(VersionsOf(Next(sys, step).db, table, key), At(sys, step.s).txn, 0, RowOf(step, key))
  {
    hide Granted, Released, Grantable;
    var x := At(sys, step.s);
    match step
    case PutRow(_, k, row) => StepByKey(sys.db, PutOp(x.txn, x.table, k, row), table, key);
    case RemoveRow(_, k) => StepByKey(sys.db, RemoveOp(x.txn, x.table, k), table, key);
  }

  /** A call that does not write the key and is not the transaction's commit leaves its version newest. */
  lemma StepKeepsEnd(sys: System, step: Step, table: string, key: Key, txn: nat, stamp: nat, row: Option<Row>)
    requires Enabled(sys, step) && !Writes(sys, step, table, key)
    requires step.EngineCommit? && stamp == 0 ==> At(sys, step.s).txn != txn
    requires EndsWith(VersionsOf(sys.db, table, key), txn, stamp, row)
    ensures EndsWith(VersionsOf(Next(sys, step).db, table, key), txn, stamp, row)
  {
    hide Granted, Released, Grantable, AfterPut, AfterRemove, AfterCommit;
    var x := At(sys, step.s);
    match step
    case PutRow(_, k, r) => StepByKey(sys.db, PutOp(x.txn, x.table, k, r), table, key);
    case RemoveRow(_, k) => StepByKey(sys.db, RemoveOp(x.txn, x.table, k), table, key);
    case EngineCommit(_) => StepByKey(sys.db, CommitOp(x.txn, x.stage.stamp), table, key);
    case _ =>
  }

  lemma CommitEnds(sys: System, s: nat, table: string, key: Key, txn: nat, row: Option<Row>)
    requires Enabled(sys, EngineCommit(s)) && At(sys, s).txn == txn
    requires EndsWith(VersionsOf(sys.db, table, key), txn, 0, row)
    ensures EndsWith(VersionsOf(Next(sys, EngineCommit(s)).db, table, key), txn, At(sys, s).stage.stamp, row)
  {
    hide Granted, Released, Grantable;
    StepByKey(sys.db, CommitOp(txn, At(sys, s).stage.stamp), table, key);
  }

  /** From a write to its command's commit the session goes on with the same command. */
  lemma {:induction false} SameCommand(states: seq<System>, steps: seq<Step>, s: nat, p: nat, i: nat)
    requires Dispatcher.IsRun(states, steps) && p <= i <= |steps| && InStage(At(states[p], s), Working)
    requires forall j :: p <= j < i ==> steps[j] != EngineCommit(s)
    ensures var x, y := At(states[p], s), At(states[i], s);
            && y.Busy? && y.txn == x.txn && y.table == x.table
            && (y.stage.Working? || y.stage.Marked? || y.stage.HasStamp?)
  {
    hide Granted, Released, Grantable, AfterPut, AfterRemove, AfterCommit;
    if p < i {
      SameCommand(states, steps, s, p, i - 1);
    }
  }

  lemma {:induction false} UncommittedStays(states: seq<System>, steps: seq<Step>, p: nat, i: nat, table: string,
                                            key: Key)
    requires Dispatcher.IsRun(states, steps) && p < i <= |steps| && Writes(states[p], steps[p], table, key)
    requires forall j :: p < j < i ==> steps[j] != EngineCommit(steps[p].s) && !Writes(states[j], steps[j], table, key)
    ensures EndsWith(VersionsOf(states[i].db, table, key), At(states[p], steps[p].s).txn, 0, RowOf(steps[p], key))
  {
    hide EndsWith, Next, Writes, RowOf, Inv, SessionsOk, KeyOf;
    WriterWorks(states[p], steps[p], table, key);
    if p + 1 == i {
      WriteEnds(states[p], steps[p], table, key);
    } else {
      var m := i - 1;
      UncommittedStays(states, steps, p, m, table, key);
      SameCommand(states, steps, steps[p].s, p, m);
      SessionsAlwaysOk(states, steps, m);
      if steps[m].EngineCommit? {
        OtherTxn(states[m], steps[p].s, steps[m].s);
      }
      StepKeepsEnd(states[m], steps[m], table, key, At(states[p], steps[p].s).txn, 0, RowOf(steps[p], key));
    }
  }

  lemma WriterWorks(sys: System, step: Step, table: string, key: Key)
    requires Enabled(sys, step) && Writes(sys, step, table, key)
    ensures (step.PutRow? || step.RemoveRow?) && InStage(At(sys, step.s), Working)
  {
  }

  lemma OtherTxn(sys: System, s: nat, u: nat)
    requires SessionsOk(sys) && At(sys, s).Busy? && s != u && At(sys, u).Busy?
    ensures At(sys, s).txn != At(sys, u).txn
  {
  }

  lemma {:induction false} CommittedStays(states: seq<System>, steps: seq<Step>, c: nat, i: nat, table: string,
                                          key: Key, txn: nat, stamp: nat, row: Option<Row>)
    requires Dispatcher.IsRun(states, steps) && c < i <= |steps| && stamp > 0
    requires forall j :: c < j < i ==> !Writes(states[j], steps[j], table, key)
    requires EndsWith(VersionsOf(states[c + 1].db, table, key), txn, stamp, row)
    ensures EndsWith(VersionsOf(states[i].db, table, key), txn, stamp, row)
  {
    hide EndsWith, Next, Writes, Enabled;
    if c + 1 < i {
      var m := i - 1;
      CommittedStays(states, steps, c, m, table, key, txn, stamp, row);
      StepKeepsEnd(states[m], steps[m], table, key, txn, stamp, row);
    }
  }

  lemma NewestSeen(db: Db, table: string, key: Key, txn: nat, stamp: nat, row: Option<Row>, reader: nat)
    requires StampsBelow(db) && stamp > 0 && EndsWith(VersionsOf(db, table, key), txn, stamp, row)
    ensures Lookup(db, reader, table, key) == row
  {
    var vs := VersionsOf(db, table, key);
    assert vs[|vs| - 1] in vs;
  }

  /**
   In every interleaving: once a write has been committed, and nobody has written the key since the
   write, every reader gets exactly its row, or nothing if it was a removal.
   */
  lemma CommittedRowRead(states: seq<System>, steps: seq<Step>, n: nat, p: nat, c: nat, table: string, key: Key,
                         reader: nat)
    requires Dispatcher.IsRun(states, steps) && p < c < n <= |steps|
    requires Writes(states[p], steps[p], table, key) && steps[c] == EngineCommit(steps[p].s)
    requires forall j :: p < j < c ==> steps[j] != EngineCommit(steps[p].s)
    requires forall j :: p < j < n ==> !Writes(states[j], steps[j], table, key)
    ensures Lookup(states[n].db, reader, table, key) == RowOf(steps[p], key)
  {
    hide EndsWith, Next, Writes, RowOf, Lookup, StampsBelow, SessionsOk, Enabled;
    WriterWorks(states[p], steps[p], table, key);
    var s, txn := steps[p].s, At(states[p], steps[p].s).txn;
    UncommittedStays(states, steps, p, c, table, key);
    SameCommand(states, steps, s, p, c);
    SessionsAlwaysOk(states, steps, c);
    var stamp := CommitStamp(states[c], s);
    CommitEnds(states[c], s, table, key, txn, RowOf(steps[p], key));
    CommittedStays(states, steps, c, n, table, key, txn, stamp, RowOf(steps[p], key));
    SessionsAlwaysOk(states, steps, n);
    NewestSeen(states[n].db, table, key, txn, stamp, RowOf(steps[p], key), reader);
  }

  lemma CommitStamp(sys: System, s: nat) returns (stamp: nat)
    requires StampsOk(sys) && Enabled(sys, EngineCommit(s))
    ensures At(sys, s).Busy? && At(sys, s).stage == HasStamp(stamp) && stamp > 0
  {
    stamp := At(sys, s).stage.stamp;
  }

  /** Until then nobody but the writer sees the write: every other reader gets what it got before. */
  lemma StagedRowHidden(sys: System, step: Step, table: string, key: Key, reader: nat)
    requires Enabled(sys, step) && (step.PutRow? || step.RemoveRow?) && reader != At(sys, step.s).txn
    ensures Lookup(Next(sys, step).db, reader, table, key) == Lookup(sys.db, reader, table, key)
    ensures Next(sys, step).db.visibleSeq == sys.db.visibleSeq
  {
    hide Granted, Released, Grantable;
    var x := At(sys, step.s);
    match step
    case PutRow(_, k, row) => StepByKey(sys.db, PutOp(x.txn, x.table, k, row), table, key);
    case RemoveRow(_, k) => StepByKey(sys.db, RemoveOp(x.txn, x.table, k), table, key);
  }

  /** The writer itself sees its own write at once. */
  lemma OwnRowSeen(sys: System, step: Step, table: string, key: Key)
    requires Enabled(sys, step) && Writes(sys, step, table, key)
    ensures Lookup(Next(sys, step).db, At(sys, step.s).txn, table, key) == RowOf(step, key)
  {
    hide Next, Writes, RowOf;
    WriteEnds(sys, step, table, key);
  }

  // ----- locks and progress -----

  /** A waiting session gets its table lock exactly when every session that holds a lock on the table
      reads, and so does it. */
  lemma TakesLockIff(states: seq<System>, steps: seq<Step>, n: nat, s: nat)
    requires Dispatcher.IsRun(states, steps) && n <= |steps| && InStage(At(states[n], s), Waiting)
    ensures var sys := states[n];
            Enabled(sys, TakeLock(s)) <==>
            forall u :: u in sys.sessions && HasLock(sys.sessions[u]) && sys.sessions[u].table == At(sys, s).table ==>
              sys.sessions[u].kind == Select && At(sys, s).kind == Select
  {
    RunKeepsInv(states, steps, n);
    WaiterServedIff(states[n], s);
  }

  lemma WaiterServedIff(sys: System, s: nat)
    requires SessionsOk(sys) && LocksOk(sys) && InStage(At(sys, s), Waiting)
    ensures Enabled(sys, TakeLock(s)) <==>
            forall u :: u in sys.sessions && HasLock(sys.sessions[u]) && sys.sessions[u].table == At(sys, s).table ==>
              sys.sessions[u].kind == Select && At(sys, s).kind == Select
  {
    var x := At(sys, s);
    var key := TableLock(x.table);
    hide Grantable;
    assert NoneEmpty(sys.held) by { assert forall k :: k in sys.held ==> LockOk(sys.held[k]); }
    GrantableIff(sys.held, x.txn, key, ModeOf(x.kind));
    assert !Locks.Holds(sys.held, x.txn, key);
    forall u | u in sys.sessions && HasLock(sys.sessions[u]) && sys.sessions[u].table == x.table
      ensures Locks.Holds(sys.held, sys.sessions[u].txn, key) && sys.held[key].mode == ModeOf(sys.sessions[u].kind)
    {
    }
  }

  /** A session that gives up waiting is idle, its transaction aborted, and nothing else has changed. */
  lemma TimeoutAborts(sys: System, s: nat)
    requires SessionsOk(sys) && Enabled(sys, LockTimeout(s))
    ensures var sys' := Next(sys, LockTimeout(s));
            && At(sys', s).Idle? && PhaseOf(sys'.txns, At(sys, s).txn) == Aborted
            && sys'.held == sys.held && sys'.db == sys.db && sys'.log == sys.log
            && sys'.txns.commitSeq == sys.txns.commitSeq && forall u :: u != s ==> At(sys', u) == At(sys, u)
  {
  }

  lemma Goes(states: seq<System>, steps: seq<Step>, step: Step) returns (states': seq<System>, steps': seq<Step>)
    requires Dispatcher.IsRun(states, steps) && Enabled(states[|steps|], step)
    ensures Dispatcher.IsRun(states', steps') && steps' == steps + [step]
    ensures states'[|steps'|] == Next(states[|steps|], step)
  {
    states', steps' := Extended(states, steps, step);
  }

  /** How many calls of its own a session with its lock is from its end. */
  function Rank(x: Session): nat {
    match x
    case Idle => 0
    case Busy(_, _, _, stage) =>
      match stage
      case Waiting => 5
      case Working => 4
      case Marked => 3
      case HasStamp(_) => 2
      case Stored => 1
  }

  /** The call that takes a session with its lock one stage on. */
  function Onward(x: Session, s: nat): Step
    requires HasLock(x)
  {
    match x.stage
    case Working => MarkCommitted(s)
    case Marked => ReadStamp(s)
    case HasStamp(_) => EngineCommit(s)
    case _ => Unlock(s)
  }

  lemma OnwardMoves(sys: System, s: nat)
    requires HasLock(At(sys, s))
    ensures var step := Onward(At(sys, s), s); Enabled(sys, step) && !step.LockTimeout?
    ensures var x, sys' := At(sys, s), Next(sys, Onward(At(sys, s), s));
            && sys'.sessions == sys.sessions[s := At(sys', s)] && Rank(At(sys', s)) == Rank(x) - 1
            && (Rank(x) > 1 ==> HasLock(At(sys', s))) && (Rank(x) == 1 ==> At(sys', s).Idle?)
  {
    hide Granted, Released, Grantable, AfterPut, AfterRemove, AfterCommit;
  }

  predicate NoTimeouts(steps: seq<Step>, from: nat) {
    forall i :: from <= i < |steps| ==> !steps[i].LockTimeout?
  }

  /** A session with its lock can finish its command by its own calls alone. */
  lemma {:induction false} Finishes(states: seq<System>, steps: seq<Step>, s: nat)
    returns (states': seq<System>, steps': seq<Step>)
    requires Dispatcher.IsRun(states, steps) && HasLock(At(states[|steps|], s))
    ensures Dispatcher.IsRun(states', steps') && steps <= steps' && NoTimeouts(steps', |steps|)
    ensures states'[|steps'|].sessions == states[|steps|].sessions[s := Idle]
    decreases Rank(At(states[|steps|], s))
  {
    hide Next, Enabled, Onward;
    OnwardMoves(states[|steps|], s);
    var states1, steps1 := Goes(states, steps, Onward(At(states[|steps|], s), s));
    if Rank(At(states[|steps|], s)) == 1 {
      states', steps' := states1, steps1;
    } else {
      states', steps' := Finishes(states1, steps1, s);
    }
  }

  function BusyOnes(sys: System): set<nat> {
    set s | s in sys.sessions && sys.sessions[s].Busy?
  }

  /** When nobody holds a lock whoever waits gets one. */
  lemma WaiterServed(states: seq<System>, steps: seq<Step>, s: nat)
    returns (states': seq<System>, steps': seq<Step>)
    requires Dispatcher.IsRun(states, steps) && InStage(At(states[|steps|], s), Waiting)
    requires forall u :: u in states[|steps|].sessions ==> !HasLock(states[|steps|].sessions[u])
    ensures Dispatcher.IsRun(states', steps') && steps <= steps' && NoTimeouts(steps', |steps|)
    ensures states'[|steps'|].sessions == states[|steps|].sessions[s := Idle]
  {
    TakesLockIff(states, steps, |steps|, s);
    states', steps' := Goes(states, steps, TakeLock(s));
    states', steps' := Finishes(states', steps', s);
  }

  /** Sessions never block each other for good: from every reachable state there is a way on to one in
      which all commands have ended, none of them by a timeout. */
  lemma {:induction false} AllFinish(states: seq<System>, steps: seq<Step>)
    returns (states': seq<System>, steps': seq<Step>)
    requires Dispatcher.IsRun(states, steps)
    ensures Dispatcher.IsRun(states', steps') && steps <= steps' && NoTimeouts(steps', |steps|)
    ensures BusyOnes(states'[|steps'|]) == {}
    decreases |BusyOnes(states[|steps|])|
  {
    var sys := states[|steps|];
    if BusyOnes(sys) == {} {
      states', steps' := states, steps;
    } else {
      var s :| s in BusyOnes(sys);
      if u :| u in sys.sessions && HasLock(sys.sessions[u]) {
        s := u;
        states', steps' := Finishes(states, steps, s);
      } else {
        states', steps' := WaiterServed(states, steps, s);
      }
      assert BusyOnes(states'[|steps'|]) == BusyOnes(sys) - {s};
      states', steps' := AllFinish(states', steps');
    }
  }
}
