/**
 Auto-commit sessions of the dispatcher (src/EngineDispatcher.cpp) running side by side over the lock
 table, the transaction manager and the in-memory engine. Each step is one call that takes one of
 their mutexes; the sessions interleave in any order.
 */
module Dispatcher {
  import opened Versions
  import opened Locks
  import opened Transactions
  import opened MemoryStore

  /** A Select takes a Shared table lock, an Insert, Update or Delete an Exclusive one. */
  datatype Kind = Select | Write

  /** How far a command has come. */
  datatype Stage =
    | Waiting                // transaction begun, table lock requested
    | Working                // lock granted, rows are being read or staged
    | Marked                 // commitTxn has returned
    | HasStamp(stamp: nat)   // visibleSeq has been read
    | Stored                 // the engine has committed, the lock is still held

  datatype Session = Idle | Busy(txn: nat, table: string, kind: Kind, stage: Stage)

  /** One engine commit of a writing command. */
  datatype Commitment = Commitment(table: string, txn: nat, stamp: nat)

  datatype System = System(held: Held, txns: Txns, db: Db, sessions: map<nat, Session>, log: seq<Commitment>)

  const BOOT := System(map[], NO_TXNS, EMPTY_DB, map[], [])

  function At(sys: System, s: nat): Session {
    if s in sys.sessions then sys.sessions[s] else Idle
  }

  function TableLock(table: string): Resource {
    Resource(table, "")
  }

  function ModeOf(kind: Kind): Mode {
    if kind == Select then Shared else Exclusive
  }

  datatype Step =
    | Fetch(s: nat, table: string, kind: Kind)
    | TakeLock(s: nat)
    | LockTimeout(s: nat)
    | PutRow(s: nat, key: Key, row: Row)
    | RemoveRow(s: nat, key: Key)
    | MarkCommitted(s: nat)
    | ReadStamp(s: nat)
    | EngineCommit(s: nat)
    | Unlock(s: nat)

  predicate InStage(x: Session, stage: Stage) {
    x.Busy? && x.stage == stage
  }

  predicate Enabled(sys: System, step: Step) {
    var x := At(sys, step.s);
    match step
    case Fetch(_, _, _) => x.Idle?
    case TakeLock(_) => InStage(x, Waiting) && Grantable(sys.held, x.txn, TableLock(x.table), ModeOf(x.kind))
    case LockTimeout(_) => InStage(x, Waiting)
    case PutRow(_, _, _) => InStage(x, Working) && x.kind == Write
    case RemoveRow(_, _) => InStage(x, Working) && x.kind == Write
    case MarkCommitted(_) => InStage(x, Working)
    case ReadStamp(_) => InStage(x, Marked)
    case EngineCommit(_) => x.Busy? && x.stage.HasStamp?
    case Unlock(_) => InStage(x, Stored)
  }

  function Moved(sys: System, s: nat, x: Session): System {
    sys.(sessions := sys.sessions[s := x])
  }

  function Next(sys: System, step: Step): System
    requires Enabled(sys, step)
  {
    var s, x := step.s, At(sys, step.s);
    match step
    case Fetch(_, table, kind) =>
      Moved(sys, s, Busy(sys.txns.nextId + 1, table, kind, Waiting)).(txns := Begun(sys.txns))
    case TakeLock(_) =>
      Moved(sys, s, x.(stage := Working)).(held := Granted(sys.held, x.txn, TableLock(x.table), ModeOf(x.kind)))
    case LockTimeout(_) => Moved(sys, s, Idle).(txns := AbortMarked(sys.txns, x.txn))
    case PutRow(_, key, row) => sys.(db := AfterPut(sys.db, x.txn, x.table, key, row))
    case RemoveRow(_, key) => sys.(db := AfterRemove(sys.db, x.txn, x.table, key))
    case MarkCommitted(_) => Moved(sys, s, x.(stage := Marked)).(txns := CommitMarked(sys.txns, x.txn))
    case ReadStamp(_) => Moved(sys, s, x.(stage := HasStamp(sys.txns.commitSeq)))
    case EngineCommit(_) =>
      Moved(sys, s, x.(stage := Stored)).(
        db := AfterCommit(sys.db, x.txn, x.stage.stamp),
        log := if x.kind == Write then sys.log + [Commitment(x.table, x.txn, x.stage.stamp)] else sys.log)
    case Unlock(_) => Moved(sys, s, Idle).(held := Released(sys.held, x.txn))
  }

  // ----- the invariant -----

  predicate HasLock(x: Session) {
    x.Busy? && !x.stage.Waiting?
  }

  /** The session may have staged versions of the table. */
  predicate MayStage(x: Session, table: string, txn: nat) {
    x.Busy? && x.txn == txn && x.table == table && x.kind == Write && !x.stage.Waiting? && !x.stage.Stored?
  }

  ghost predicate SessionsOk(sys: System) {
    && (forall s :: s in sys.sessions && sys.sessions[s].Busy? ==>
          && 1 <= sys.sessions[s].txn <= sys.txns.nextId
          && (sys.sessions[s].stage.Waiting? || sys.sessions[s].stage.Working? ==>
                PhaseOf(sys.txns, sys.sessions[s].txn) == Active))
    && (forall s, t ::
          s in sys.sessions && t in sys.sessions && s != t && sys.sessions[s].Busy? && sys.sessions[t].Busy? ==>
          sys.sessions[s].txn != sys.sessions[t].txn)
  }

  /** The lock table holds exactly the table locks of the sessions that are past waiting. */
  ghost predicate LocksOk(sys: System) {
    && HeldOk(sys.held)
    && (forall s :: s in sys.sessions && HasLock(sys.sessions[s]) ==>
          && Locks.Holds(sys.held, sys.sessions[s].txn, TableLock(sys.sessions[s].table))
          && sys.held[TableLock(sys.sessions[s].table)].mode == ModeOf(sys.sessions[s].kind))
    && (forall k, t :: Locks.Holds(sys.held, t, k) ==>
          exists s ::
            && s in sys.sessions && HasLock(sys.sessions[s]) && sys.sessions[s].txn == t
            && TableLock(sys.sessions[s].table) == k)
  }

  ghost predicate StagedOwned(sys: System) {
    forall t, k, v :: v in VersionsOf(sys.db, t, k) && v.commitSeq == 0 ==>
      exists s :: s in sys.sessions && MayStage(sys.sessions[s], t, v.txn)
  }

  ghost predicate CommitsLogged(sys: System) {
    forall t, k, v :: v in VersionsOf(sys.db, t, k) && v.commitSeq > 0 ==> Commitment(t, v.txn, v.commitSeq) in sys.log
  }

  /** Committed versions first, with non-decreasing stamps, then staged ones. */
  predicate InStampOrder(vs: seq<Version>) {
    forall i, j :: 0 <= i < j < |vs| ==>
      vs[j].commitSeq == 0 || (vs[i].commitSeq > 0 && vs[i].commitSeq <= vs[j].commitSeq)
  }

  ghost predicate KeysInOrder(sys: System) {
    forall t, k :: InStampOrder(VersionsOf(sys.db, t, k))
  }

  /** All commitments of a table are below the stamp. */
  predicate Above(log: seq<Commitment>, table: string, stamp: nat) {
    forall c :: c in log && c.table == table ==> c.stamp < stamp
  }

  ghost predicate StampsOk(sys: System) {
    && (forall i, j :: 0 <= i < j < |sys.log| && sys.log[i].table == sys.log[j].table ==>
       sys.log[i].stamp < sys.log[j].stamp)
    && (forall c :: c in sys.log ==> 0 < c.stamp <= sys.txns.commitSeq)
    && (forall s :: s in sys.sessions && sys.sessions[s].Busy? ==>
          var x := sys.sessions[s];
          && (x.stage.Marked? ==>
                && sys.txns.commitSeq > 0
                && (x.kind == Write ==> Above(sys.log, x.table, sys.txns.commitSeq)))
          && (x.stage.HasStamp? ==>
                && 0 < x.stage.stamp <= sys.txns.commitSeq
                && (x.kind == Write ==> Above(sys.log, x.table, x.stage.stamp))))
  }

  ghost predicate Inv(sys: System) {
    && SessionsOk(sys) && LocksOk(sys) && StampsOk(sys)
    && StampsBelow(sys.db) && StagedOwned(sys) && CommitsLogged(sys) && KeysInOrder(sys)
  }

  /** A writer past waiting has its table to itself. */
  lemma WriterAlone(sys: System, s: nat, t: nat)
    requires SessionsOk(sys) && LocksOk(sys)
    requires s in sys.sessions && t in sys.sessions && HasLock(sys.sessions[s]) && HasLock(sys.sessions[t])
    requires sys.sessions[s].table == sys.sessions[t].table && sys.sessions[s].kind == Write
    ensures s == t
  {
    var k := TableLock(sys.sessions[s].table);
    assert LockOk(sys.held[k]);
    assert |sys.held[k].holders| == 1;
  }

  // ----- sessions and locks -----

  /** One session moves, and no transaction but its own changes its phase. */
  lemma SessionMoves(sys: System, sys': System, s: nat)
    requires SessionsOk(sys) && s in sys'.sessions && sys'.sessions == sys.sessions[s := sys'.sessions[s]]
    requires sys.txns.nextId <= sys'.txns.nextId
    requires forall t :: 1 <= t <= sys.txns.nextId && (At(sys, s).Busy? ==> t != At(sys, s).txn) ==>
               PhaseOf(sys'.txns, t) == PhaseOf(sys.txns, t)
    requires At(sys', s).Busy? ==>
               && 1 <= At(sys', s).txn <= sys'.txns.nextId
               && (At(sys', s).txn > sys.txns.nextId || (At(sys, s).Busy? && At(sys', s).txn == At(sys, s).txn))
               && (At(sys', s).stage.Waiting? || At(sys', s).stage.Working? ==>
                  PhaseOf(sys'.txns, At(sys', s).txn) == Active)
    ensures SessionsOk(sys')
  {
    forall u | u in sys'.sessions && u != s && sys'.sessions[u].Busy?
      ensures sys'.sessions[u] == sys.sessions[u]
              && PhaseOf(sys'.txns, sys.sessions[u].txn) == PhaseOf(sys.txns, sys.sessions[u].txn)
    {
    }
  }

  lemma StepKeepsSessions(sys: System, step: Step)
    requires SessionsOk(sys) && Enabled(sys, step)
    ensures SessionsOk(Next(sys, step))
  {
    hide Granted, Released, Grantable, AfterPut, AfterRemove, AfterCommit;
    if !step.PutRow? && !step.RemoveRow? {
      SessionMoves(sys, Next(sys, step), step.s);
    }
  }

  lemma StepKeepsLocks(sys: System, step: Step)
    requires SessionsOk(sys) && LocksOk(sys) && Enabled(sys, step)
    ensures LocksOk(Next(sys, step))
  {
    hide HeldOk, Granted, Released, Grantable;
    match step
    case TakeLock(s) => TakeLockKeepsLocks(sys, s);
    case Unlock(s) => UnlockKeepsLocks(sys, s);
    case _ => LocksFrame(sys, Next(sys, step), step.s);
  }

  /** Nothing happens to the locks if the lock table stays and the session neither gains nor loses one. */
  lemma LocksFrame(sys: System, sys': System, s: nat)
    requires LocksOk(sys) && sys'.held == sys.held
    requires sys'.sessions == sys.sessions
             || (s in sys'.sessions && sys'.sessions == sys.sessions[s := sys'.sessions[s]])
    requires HasLock(At(sys, s)) <==> HasLock(At(sys', s))
    requires HasLock(At(sys, s)) ==>
               At(sys', s).txn == At(sys, s).txn && At(sys', s).table == At(sys, s).table
                   && At(sys', s).kind == At(sys, s).kind
    ensures LocksOk(sys')
  {
    forall k, t | Locks.Holds(sys'.held, t, k)
      ensures exists u ::
                && u in sys'.sessions && HasLock(sys'.sessions[u]) && sys'.sessions[u].txn == t
                && TableLock(sys'.sessions[u].table) == k
    {
      var u :| u in sys.sessions && HasLock(sys.sessions[u]) && sys.sessions[u].txn == t
          && TableLock(sys.sessions[u].table) == k;
      assert HasLock(sys'.sessions[u]);
    }
  }

  /** A grant to a newcomer adds exactly its holding, and the mode is the one it asked for. */
  lemma NewcomerGranted(held: Held, txn: nat, key: Resource, mode: Mode)
    requires HeldOk(held) && Grantable(held, txn, key, mode) && !Locks.Holds(held, txn, key)
    ensures var held' := Granted(held, txn, key, mode);
            && HeldOk(held')
            && (forall t, k :: Locks.Holds(held', t, k) <==> Locks.Holds(held, t, k) || (t == txn && k == key))
            && (forall k :: k in held' <==> k in held || k == key)
            && (forall k :: k in held ==> held'[k].mode == held[k].mode)
            && held'[key].mode == mode
  {
    GrantKeepsOk(held, txn, key, mode);
  }

  lemma TakeLockKeepsLocks(sys: System, s: nat)
    requires SessionsOk(sys) && LocksOk(sys) && Enabled(sys, TakeLock(s))
    ensures LocksOk(Next(sys, TakeLock(s)))
  {
    var x, sys' := At(sys, s), Next(sys, TakeLock(s));
    var key := TableLock(x.table);
    assert !Locks.Holds(sys.held, x.txn, key);
    NewcomerGranted(sys.held, x.txn, key, ModeOf(x.kind));
    hide Granted, Grantable, Locks.Holds, HeldOk;
    forall u | u in sys'.sessions && HasLock(sys'.sessions[u])
      ensures Locks.Holds(sys'.held, sys'.sessions[u].txn, TableLock(sys'.sessions[u].table))
      ensures sys'.held[TableLock(sys'.sessions[u].table)].mode == ModeOf(sys'.sessions[u].kind)
    {
      assert u != s ==> sys'.sessions[u] == sys.sessions[u];
    }
    forall k, t | Locks.Holds(sys'.held, t, k)
      ensures exists u ::
                && u in sys'.sessions && HasLock(sys'.sessions[u]) && sys'.sessions[u].txn == t
                && TableLock(sys'.sessions[u].table) == k
    {
      if t == x.txn && k == key {
        assert HasLock(sys'.sessions[s]);
      } else {
        assert Locks.Holds(sys.held, t, k);
        var u :| u in sys.sessions && HasLock(sys.sessions[u]) && sys.sessions[u].txn == t
            && TableLock(sys.sessions[u].table) == k;
        assert u != s && sys'.sessions[u] == sys.sessions[u];
      }
    }
  }

  lemma UnlockKeepsLocks(sys: System, s: nat)
    requires SessionsOk(sys) && LocksOk(sys) && Enabled(sys, Unlock(s))
    ensures LocksOk(Next(sys, Unlock(s)))
  {
    hide Released;
    var x, sys' := At(sys, s), Next(sys, Unlock(s));
    ReleaseKeepsOk(sys.held, x.txn);
    forall u | u in sys'.sessions && HasLock(sys'.sessions[u])
      ensures Locks.Holds(sys'.held, sys'.sessions[u].txn, TableLock(sys'.sessions[u].table))
      ensures sys'.held[TableLock(sys'.sessions[u].table)].mode == ModeOf(sys'.sessions[u].kind)
    {
      assert u != s && sys'.sessions[u] == sys.sessions[u] && sys.sessions[u].txn != x.txn;
      assert Locks.Holds(sys.held, sys.sessions[u].txn, TableLock(sys.sessions[u].table));
    }
    forall k, t | Locks.Holds(sys'.held, t, k)
      ensures exists u ::
                && u in sys'.sessions && HasLock(sys'.sessions[u]) && sys'.sessions[u].txn == t
                && TableLock(sys'.sessions[u].table) == k
    {
      assert t != x.txn && Locks.Holds(sys.held, t, k);
      var u :| u in sys.sessions && HasLock(sys.sessions[u]) && sys.sessions[u].txn == t
          && TableLock(sys.sessions[u].table) == k;
      assert u != s && sys'.sessions[u] == sys.sessions[u];
    }
  }

  // ----- stamps -----

  lemma StepKeepsStamps(sys: System, step: Step)
    requires SessionsOk(sys) && LocksOk(sys) && StampsOk(sys) && Enabled(sys, step)
    ensures StampsOk(Next(sys, step))
  {
    hide VersionsOf, Stamped;
    hide Granted, Released, Grantable, AfterPut, AfterRemove, AfterCommit;
    var sys' := Next(sys, step);
    if step.EngineCommit? {
      EngineCommitKeepsStamps(sys, step.s);
    } else {
      assert sys'.log == sys.log && sys'.txns.commitSeq >= sys.txns.commitSeq;
    }
  }

  lemma EngineCommitKeepsStamps(sys: System, s: nat)
    requires SessionsOk(sys) && LocksOk(sys) && StampsOk(sys) && Enabled(sys, EngineCommit(s))
    ensures StampsOk(Next(sys, EngineCommit(s)))
  {
    hide AfterCommit;
    var x, sys' := At(sys, s), Next(sys, EngineCommit(s));
    if x.kind == Write {
      var c := Commitment(x.table, x.txn, x.stage.stamp);
      assert forall i :: 0 <= i < |sys.log| ==> sys.log[i] in sys.log;
      forall u | u in sys'.sessions && sys'.sessions[u].Busy? && HasLock(sys'.sessions[u])
          && sys'.sessions[u].kind == Write && u != s
        ensures sys'.sessions[u] == sys.sessions[u] && sys.sessions[u].table != x.table
      {
        if sys.sessions[u].table == x.table {
          WriterAlone(sys, s, u);
        }
      }
      forall u, n | u in sys'.sessions && u != s && sys.sessions[u].Busy? && HasLock(sys.sessions[u])
          && sys.sessions[u].kind == Write
                    && Above(sys.log, sys.sessions[u].table, n)
        ensures Above(sys'.log, sys.sessions[u].table, n)
      {
      }
    }
  }

  // ----- versions -----

  /** What an engine commit does to one key: it stamps the staged tail if the key is in the session's
      table and nothing otherwise, and the tail belongs to that session alone. */
  lemma EngineCommitByKey(sys: System, s: nat, table: string, key: Key)
    requires Inv(sys) && Enabled(sys, EngineCommit(s))
    ensures var x := At(sys, s);
            var vs, vs' := VersionsOf(sys.db, table, key), VersionsOf(Next(sys, EngineCommit(s)).db, table, key);
            && vs' == Stamped(vs, x.txn, x.stage.stamp)
            && (x.table != table || x.kind == Select ==> vs' == vs)
            && (x.table == table && x.kind == Write ==>
                  forall v :: v in vs ==> if v.commitSeq == 0 then v.txn == x.txn else v.commitSeq < x.stage.stamp)
  {
    var x := At(sys, s);
    var vs := VersionsOf(sys.db, table, key);
    StepByKey(sys.db, CommitOp(x.txn, x.stage.stamp), table, key);
    forall v | v in vs && v.commitSeq == 0
      ensures x.table == table && x.kind == Write ==> v.txn == x.txn
      ensures v.txn == x.txn ==> x.table == table && x.kind == Write
    {
      var u :| u in sys.sessions && MayStage(sys.sessions[u], table, v.txn);
      if x.table == table && x.kind == Write {
        WriterAlone(sys, s, u);
      }
      assert v.txn == x.txn ==> u == s;
    }
  }

  lemma EngineCommitKeepsData(sys: System, s: nat)
    requires Inv(sys) && Enabled(sys, EngineCommit(s))
    ensures var sys' := Next(sys, EngineCommit(s)); StagedOwned(sys') && CommitsLogged(sys') && KeysInOrder(sys')
  {
    hide AfterPut, AfterRemove, AfterCommit, Granted, Released, VersionsOf;
    var x, sys' := At(sys, s), Next(sys, EngineCommit(s));
    forall t, k ensures InStampOrder(VersionsOf(sys'.db, t, k)) {
      EngineCommitByKey(sys, s, t, k);
      assert InStampOrder(VersionsOf(sys.db, t, k));
    }
    forall t, k, v | v in VersionsOf(sys'.db, t, k)
      ensures v.commitSeq > 0 ==> Commitment(t, v.txn, v.commitSeq) in sys'.log
      ensures v.commitSeq == 0 ==> exists u :: u in sys'.sessions && MayStage(sys'.sessions[u], t, v.txn)
    {
      EngineCommitByKey(sys, s, t, k);
      CommittedVersion(sys, s, t, k, v);
    }
  }

  lemma CommittedVersion(sys: System, s: nat, t: string, k: Key, v: Version)
    requires Inv(sys) && Enabled(sys, EngineCommit(s))
    requires v in VersionsOf(Next(sys, EngineCommit(s)).db, t, k)
    ensures var sys' := Next(sys, EngineCommit(s));
            && (v.commitSeq > 0 ==> Commitment(t, v.txn, v.commitSeq) in sys'.log)
            && (v.commitSeq == 0 ==> exists u :: u in sys'.sessions && MayStage(sys'.sessions[u], t, v.txn))
  {
    hide AfterPut, AfterRemove, AfterCommit, Granted, Released, VersionsOf;
    var x, sys' := At(sys, s), Next(sys, EngineCommit(s));
    var vs, vs' := VersionsOf(sys.db, t, k), VersionsOf(sys'.db, t, k);
    EngineCommitByKey(sys, s, t, k);
    var i :| 0 <= i < |vs'| && vs'[i] == v;
    assert vs[i] in vs;
    if x.table == t && x.kind == Write {
      assert vs'[i] == StampOne(vs[i], x.txn, x.stage.stamp);
    } else {
      assert v in vs;
      if v.commitSeq == 0 {
        var u :| u in sys.sessions && MayStage(sys.sessions[u], t, v.txn);
        assert u in sys'.sessions && (u != s ==> sys'.sessions[u] == sys.sessions[u]);
        assert u != s;
      }
    }
  }

  /** Staging a version keeps the data invariants: it goes to the tail of a key of the session's table. */
  lemma StagingKeepsData(sys: System, sys': System, s: nat, key: Key, v: Version)
    requires Inv(sys) && InStage(At(sys, s), Working) && At(sys, s).kind == Write
    requires sys'.sessions == sys.sessions && sys'.log == sys.log && v.commitSeq == 0 && v.txn == At(sys, s).txn
    requires forall t, k :: VersionsOf(sys'.db, t, k)
               == if t == At(sys, s).table && k == key then VersionsOf(sys.db, t, k) + [v] else VersionsOf(sys.db, t, k)
    ensures StagedOwned(sys') && CommitsLogged(sys') && KeysInOrder(sys')
  {
    var x := At(sys, s);
    forall t, k ensures InStampOrder(VersionsOf(sys'.db, t, k)) {
      assert InStampOrder(VersionsOf(sys.db, t, k));
    }
    assert MayStage(sys'.sessions[s], x.table, v.txn);
    forall t, k, w | w in VersionsOf(sys'.db, t, k)
      ensures w.commitSeq == 0 ==> exists u :: u in sys'.sessions && MayStage(sys'.sessions[u], t, w.txn)
      ensures w.commitSeq > 0 ==> Commitment(t, w.txn, w.commitSeq) in sys'.log
    {
      assert w in VersionsOf(sys.db, t, k) || (w == v && t == x.table);
    }
  }

  /** Steps that leave the data alone only have to keep the sessions that may stage. */
  lemma DataFrame(sys: System, sys': System, s: nat)
    requires StagedOwned(sys) && CommitsLogged(sys) && KeysInOrder(sys) && sys'.db == sys.db && sys'.log == sys.log
    requires s in sys'.sessions && sys'.sessions == sys.sessions[s := sys'.sessions[s]]
    requires forall t, n :: MayStage(At(sys, s), t, n) ==> MayStage(sys'.sessions[s], t, n)
    ensures StagedOwned(sys') && CommitsLogged(sys') && KeysInOrder(sys')
  {
    forall t, k, v | v in VersionsOf(sys'.db, t, k) && v.commitSeq == 0
      ensures exists u :: u in sys'.sessions && MayStage(sys'.sessions[u], t, v.txn)
    {
      var u :| u in sys.sessions && MayStage(sys.sessions[u], t, v.txn);
      assert MayStage(sys'.sessions[u], t, v.txn);
    }
  }

  lemma StepKeepsData(sys: System, step: Step)
    requires Inv(sys) && Enabled(sys, step)
    ensures var sys' := Next(sys, step); StagedOwned(sys') && CommitsLogged(sys') && KeysInOrder(sys')
  {
    var sys', x := Next(sys, step), At(sys, step.s);
    match step {
      case PutRow(s, key, row) =>
        var id := if key == NULL_KEY then NextId(sys.db, x.table) else key;
        var v := Version(0, x.txn, false, if key == NULL_KEY then row.(id := id) else row);
        forall t, k ensures VersionsOf(sys'.db, t, k)
          == if t == x.table && k == id then VersionsOf(sys.db, t, k) + [v] else VersionsOf(sys.db, t, k)
        {
          StepByKey(sys.db, PutOp(x.txn, x.table, key, row), t, k);
        }
        StagingKeepsData(sys, sys', s, id, v);
      case RemoveRow(s, key) =>
        var v := Version(0, x.txn, true, NO_ROW);
        forall t, k ensures VersionsOf(sys'.db, t, k)
          == if t == x.table && k == key then VersionsOf(sys.db, t, k) + [v] else VersionsOf(sys.db, t, k)
        {
          StepByKey(sys.db, RemoveOp(x.txn, x.table, key), t, k);
        }
        StagingKeepsData(sys, sys', s, key, v);
      case EngineCommit(s) => EngineCommitKeepsData(sys, s);
      case _ => DataFrame(sys, sys', step.s);
    }
  }

  lemma StepKeepsCut(sys: System, step: Step)
    requires StampsBelow(sys.db) && Enabled(sys, step)
    ensures StampsBelow(Next(sys, step).db)
  {
    var x := At(sys, step.s);
    match step
    case PutRow(_, key, row) => StepKeepsStampsBelow(sys.db, PutOp(x.txn, x.table, key, row));
    case RemoveRow(_, key) => StepKeepsStampsBelow(sys.db, RemoveOp(x.txn, x.table, key));
    case EngineCommit(_) => StepKeepsStampsBelow(sys.db, CommitOp(x.txn, x.stage.stamp));
    case _ =>
  }

  // ----- runs -----

  ghost predicate IsRun(states: seq<System>, steps: seq<Step>) {
    && |states| == |steps| + 1 && states[0] == BOOT
    && forall i :: 0 <= i < |steps| ==> Enabled(states[i], steps[i]) && states[i + 1] == Next(states[i], steps[i])
  }

  lemma {:induction false} RunKeepsInv(states: seq<System>, steps: seq<Step>, n: nat)
    requires IsRun(states, steps) && n <= |steps|
    ensures Inv(states[n])
  {
    if n > 0 {
      RunKeepsInv(states, steps, n - 1);
      StepKeepsSessions(states[n - 1], steps[n - 1]);
      StepKeepsLocks(states[n - 1], steps[n - 1]);
      StepKeepsStamps(states[n - 1], steps[n - 1]);
      StepKeepsData(states[n - 1], steps[n - 1]);
      StepKeepsCut(states[n - 1], steps[n - 1]);
    }
  }

  /** In every interleaving the commands that write one table commit under strictly increasing stamps. */
  lemma StampsIncreasePerTable(states: seq<System>, steps: seq<Step>, n: nat, i: nat, j: nat)
    requires IsRun(states, steps) && n <= |steps|
    requires i < j < |states[n].log| && states[n].log[i].table == states[n].log[j].table
    ensures states[n].log[i].stamp < states[n].log[j].stamp
  {
    RunKeepsInv(states, steps, n);
  }

  /** In every interleaving each key lists its committed versions in stamp order, all of them visible,
      and then the staged versions of the one session that holds the table. */
  lemma VersionsInStampOrder(states: seq<System>, steps: seq<Step>, n: nat, table: string, key: Key)
    requires IsRun(states, steps) && n <= |steps|
    ensures InStampOrder(VersionsOf(states[n].db, table, key))
    ensures forall v :: v in VersionsOf(states[n].db, table, key) ==> v.commitSeq <= states[n].db.visibleSeq
    ensures var vs := VersionsOf(states[n].db, table, key);
            forall v, w :: v in vs && w in vs && v.commitSeq == 0 && w.commitSeq == 0 ==> v.txn == w.txn
  {
    RunKeepsInv(states, steps, n);
    var sys := states[n];
    forall v, w | v in VersionsOf(sys.db, table, key) && w in VersionsOf(sys.db, table, key)
      && v.commitSeq == 0 && w.commitSeq == 0 ensures v.txn == w.txn
    {
      var s :| s in sys.sessions && MayStage(sys.sessions[s], table, v.txn);
      var u :| u in sys.sessions && MayStage(sys.sessions[u], table, w.txn);
      WriterAlone(sys, s, u);
    }
  }

  /** The version is the last committed one of its key: only staged ones come after it. */
  predicate LastCommitted(vs: seq<Version>, v: Version) {
    exists i :: 0 <= i < |vs| && vs[i] == v && forall j :: i < j < |vs| ==> vs[j].commitSeq == 0
  }

  lemma {:induction false} NewestIsLastCommitted(vs: seq<Version>, reader: nat, visibleSeq: nat)
    requires InStampOrder(vs) && forall v :: v in vs ==> v.commitSeq <= visibleSeq && !StagedBy(v, reader)
    ensures var r := Newest(vs, reader, visibleSeq);
            && (r.None? ==> forall v :: v in vs ==> v.commitSeq == 0)
            && (r.Some? ==> r.value.commitSeq > 0 && forall v :: v in vs ==> v.commitSeq <= r.value.commitSeq)
  {
    if vs != [] {
      assert vs[|vs| - 1] in vs;
      assert forall v :: v in vs[..|vs| - 1] ==> v in vs;
      NewestIsLastCommitted(vs[..|vs| - 1], reader, visibleSeq);
      assert forall v :: v in vs ==> v == vs[|vs| - 1] || v in vs[..|vs| - 1];
    }
  }

  lemma StagedAfterLast(front: seq<Version>, last: Version, v: Version)
    requires LastCommitted(front, v) && last.commitSeq == 0
    ensures LastCommitted(front + [last], v)
  {
    var i :| 0 <= i < |front| && front[i] == v && forall j :: i < j < |front| ==> front[j].commitSeq == 0;
    assert (front + [last])[i] == v;
  }

  lemma {:induction false} NewestComesLast(vs: seq<Version>, reader: nat, visibleSeq: nat)
    requires forall i :: 0 <= i < |vs| ==> vs[i].commitSeq <= visibleSeq && !StagedBy(vs[i], reader)
    ensures var r := Newest(vs, reader, visibleSeq); r.Some? ==> LastCommitted(vs, r.value)
  {
    if vs != [] {
      var front, last := vs[..|vs| - 1], vs[|vs| - 1];
      NewestComesLast(front, reader, visibleSeq);
      assert vs == front + [last];
      if last.commitSeq == 0 && Newest(front, reader, visibleSeq).Some? {
        StagedAfterLast(front, last, Newest(front, reader, visibleSeq).value);
      }
    }
  }

  /** A reader that stages nothing gets, for every key, the last committed version: it is in the log,
      no version has a greater stamp, and only staged versions were written after it. */
  lemma ReadsLastCommit(states: seq<System>, steps: seq<Step>, n: nat, reader: nat, table: string, key: Key)
    requires IsRun(states, steps) && n <= |steps| && StagesNothing(states[n].db, reader)
    ensures var sys := states[n];
            var vs := VersionsOf(sys.db, table, key);
            var r := Newest(vs, reader, sys.db.visibleSeq);
            && (r.None? ==> forall v :: v in vs ==> v.commitSeq == 0)
            && (r.Some? ==>
                  && Commitment(table, r.value.txn, r.value.commitSeq) in sys.log
                  && LastCommitted(vs, r.value)
                  && forall v :: v in vs ==> v.commitSeq <= r.value.commitSeq)
  {
    RunKeepsInv(states, steps, n);
    var sys := states[n];
    assert InStampOrder(VersionsOf(sys.db, table, key));
    NewestIsLastCommitted(VersionsOf(sys.db, table, key), reader, sys.db.visibleSeq);
    NewestComesLast(VersionsOf(sys.db, table, key), reader, sys.db.visibleSeq);
  }

  /** A Select never runs beside staged writes to its table. */
  lemma SelectSeesNoStaging(states: seq<System>, steps: seq<Step>, n: nat, s: nat, key: Key)
    requires IsRun(states, steps) && n <= |steps|
    requires s in states[n].sessions && HasLock(states[n].sessions[s]) && states[n].sessions[s].kind == Select
    ensures forall v :: v in VersionsOf(states[n].db, states[n].sessions[s].table, key) ==> v.commitSeq > 0
  {
    RunKeepsInv(states, steps, n);
    var sys := states[n];
    var table := sys.sessions[s].table;
    forall v | v in VersionsOf(sys.db, table, key) ensures v.commitSeq > 0 {
      if v.commitSeq == 0 {
        var u :| u in sys.sessions && MayStage(sys.sessions[u], table, v.txn);
        WriterAlone(sys, u, s);
        assert false;
      }
    }
  }

  lemma Extended(states: seq<System>, steps: seq<Step>, step: Step) returns (states': seq<System>, steps': seq<Step>)
    requires IsRun(states, steps) && Enabled(states[|steps|], step)
    ensures steps' == steps + [step] && |states'| == |steps'| + 1
    ensures IsRun(states', steps') && states'[|steps'|] == Next(states[|steps|], step)
  {
    states', steps' := states + [Next(states[|steps|], step)], steps + [step];
  }

  /** One session from its first step to the commit mark, next to whatever the others are doing. */
  lemma UpToMark(states: seq<System>, steps: seq<Step>, s: nat, table: string)
    returns (states': seq<System>, steps': seq<Step>)
    requires IsRun(states, steps) && At(states[|steps|], s).Idle? && TableLock(table) !in states[|steps|].held
    ensures IsRun(states', steps')
    ensures var sys, sys' := states[|steps|], states'[|steps'|];
            && sys'.log == sys.log && sys'.txns.commitSeq == sys.txns.commitSeq + 1
            && sys'.txns.nextId == sys.txns.nextId + 1
            && sys'.held == sys.held[TableLock(table) := Lock(Exclusive, [sys'.txns.nextId])]
            && sys'.sessions == sys.sessions[s := Busy(sys'.txns.nextId, table, Write, Marked)]
  {
    states', steps' := Extended(states, steps, Fetch(s, table, Write));
    states', steps' := Extended(states', steps', TakeLock(s));
    states', steps' := Extended(states', steps', MarkCommitted(s));
  }

  /** The same session from the mark to the engine commit. */
  lemma UpToCommit(states: seq<System>, steps: seq<Step>, s: nat)
    returns (states': seq<System>, steps': seq<Step>)
    requires IsRun(states, steps) && InStage(At(states[|steps|], s), Marked) && At(states[|steps|], s).kind == Write
    ensures IsRun(states', steps')
    ensures var sys, sys' := states[|steps|], states'[|steps'|];
            && sys'.txns == sys.txns
            && sys'.log == sys.log + [Commitment(At(sys, s).table, At(sys, s).txn, sys.txns.commitSeq)]
            && sys'.sessions == sys.sessions[s := At(sys, s).(stage := Stored)]
  {
    states', steps' := Extended(states, steps, ReadStamp(s));
    states', steps' := Extended(states', steps', EngineCommit(s));
  }

  /** Commands on different tables can read the same stamp: both mark their transaction before
      either of them reads the counter. */
  lemma StampSharedAcrossTables() returns (states: seq<System>, steps: seq<Step>)
    ensures IsRun(states, steps)
    ensures states[|steps|].log == [Commitment("a", 1, 2), Commitment("b", 2, 2)]
  {
    states, steps := [BOOT], [];
    states, steps := UpToMark(states, steps, 0, "a");
    assert "a"[0] != "b"[0];
    states, steps := UpToMark(states, steps, 1, "b");
    states, steps := UpToCommit(states, steps, 0);
    states, steps := UpToCommit(states, steps, 1);
  }
}
