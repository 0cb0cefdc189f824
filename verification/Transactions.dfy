/** Transaction ids, states and the commit counter (includes/opendb/core/TransactionManager.hpp). */
module Transactions {

  datatype Phase = Active | Committed | Aborted | NotFound

  datatype Txns = Txns(nextId: nat, commitSeq: nat, states: map<nat, Phase>)

  const NO_TXNS := Txns(0, 0, map[])

  function PhaseOf(m: Txns, txn: nat): Phase {
    if txn in m.states then m.states[txn] else NotFound
  }

  function Begun(m: Txns): Txns {
    m.(nextId := m.nextId + 1, states := m.states[m.nextId + 1 := Active])
  }

  /** A commit of anything but an active transaction changes nothing, the counter included. */
  function CommitMarked(m: Txns, txn: nat): Txns {
    if PhaseOf(m, txn) != Active then m
    else m.(commitSeq := m.commitSeq + 1, states := m.states[txn := Committed])
  }

  function AbortMarked(m: Txns, txn: nat): Txns {
    if PhaseOf(m, txn) != Active then m else m.(states := m.states[txn := Aborted])
  }

  datatype Action = Begin | Commit(txn: nat) | Abort(txn: nat)

  function Apply(m: Txns, a: Action): Txns {
    match a
    case Begin => Begun(m)
    case Commit(txn) => CommitMarked(m, txn)
    case Abort(txn) => AbortMarked(m, txn)
  }

  function RunFrom(m: Txns, actions: seq<Action>): Txns {
    if actions == [] then m else Apply(RunFrom(m, actions[..|actions| - 1]), actions[|actions| - 1])
  }

  function CommittedIn(m: Txns): set<nat> {
    set t | t in m.states && m.states[t] == Committed
  }

  /** The ids handed out are exactly 1 to nextId, none of them is unknown, and the counter counts
      the committed ones. */
  ghost predicate Ok(m: Txns) {
    && (forall t: nat :: t in m.states <==> 1 <= t <= m.nextId)
    && (forall t :: t in m.states ==> m.states[t] != NotFound)
    && m.commitSeq == |CommittedIn(m)|
  }

  lemma StepKeepsOk(m: Txns, a: Action)
    requires Ok(m)
    ensures Ok(Apply(m, a))
    ensures m.nextId <= Apply(m, a).nextId && m.commitSeq <= Apply(m, a).commitSeq
    ensures forall t :: PhaseOf(m, t) == Committed || PhaseOf(m, t) == Aborted ==>
              PhaseOf(Apply(m, a), t) == PhaseOf(m, t)
    ensures !a.Begin? && PhaseOf(m, a.txn) == Active ==>
              PhaseOf(Apply(m, a), a.txn) == if a.Commit? then Committed else Aborted
    ensures forall t :: (a.Begin? && t != m.nextId + 1) || (!a.Begin? && t != a.txn) ==>
              PhaseOf(Apply(m, a), t) == PhaseOf(m, t)
  {
    var m' := Apply(m, a);
    if a.Commit? && PhaseOf(m, a.txn) == Active {
      assert CommittedIn(m') == CommittedIn(m) + {a.txn};
    } else {
      assert CommittedIn(m') == CommittedIn(m);
    }
  }

  /** Over every run the counter equals the number of committed transactions, counters never go
      back, and a transaction that has ended keeps its outcome. */
  lemma {:induction false} RunKeepsOk(m: Txns, actions: seq<Action>)
    requires Ok(m)
    ensures var m' := RunFrom(m, actions);
            && Ok(m') && m.nextId <= m'.nextId && m.commitSeq <= m'.commitSeq
            && forall t :: PhaseOf(m, t) == Committed || PhaseOf(m, t) == Aborted ==> PhaseOf(m', t) == PhaseOf(m, t)
  {
    if actions != [] {
      RunKeepsOk(m, actions[..|actions| - 1]);
      StepKeepsOk(RunFrom(m, actions[..|actions| - 1]), actions[|actions| - 1]);
    }
  }

  class TransactionManager {
    var nextId: nat
    var commitSeq: nat
    var states: map<nat, Phase>

    function Value(): Txns
      reads this
    {
      Txns(nextId, commitSeq, states)
    }

    constructor ()
      ensures Value() == NO_TXNS && Ok(Value())
    {
      nextId, commitSeq, states := 0, 0, map[];
      new;
      assert CommittedIn(Value()) == {};
    }

    method BeginTxn() returns (txn: nat)
      requires Ok(Value())
      modifies this
      ensures Value() == Begun(old(Value())) && Ok(Value())
      ensures old(PhaseOf(Value(), txn)) == NotFound && PhaseOf(Value(), txn) == Active
    {
      StepKeepsOk(Value(), Begin);
      nextId := nextId + 1;
      states := states[nextId := Active];
      txn := nextId;
    }

    method CommitTxn(txn: nat) returns (ok: bool)
      requires Ok(Value())
      modifies this
      ensures Value() == CommitMarked(old(Value()), txn) && Ok(Value())
      ensures ok <==> old(PhaseOf(Value(), txn)) == Active
      ensures ok ==> PhaseOf(Value(), txn) == Committed && commitSeq == old(commitSeq) + 1
    {
      StepKeepsOk(Value(), Commit(txn));
      if txn !in states || states[txn] != Active {
        return false;
      }
      states := states[txn := Committed];
      commitSeq := commitSeq + 1;
      ok := true;
    }

    method AbortTxn(txn: nat) returns (ok: bool)
      requires Ok(Value())
      modifies this
      ensures Value() == AbortMarked(old(Value()), txn) && Ok(Value())
      ensures ok <==> old(PhaseOf(Value(), txn)) == Active
      ensures ok ==> PhaseOf(Value(), txn) == Aborted && commitSeq == old(commitSeq)
    {
      StepKeepsOk(Value(), Abort(txn));
      if txn !in states || states[txn] != Active {
        return false;
      }
      states := states[txn := Aborted];
      ok := true;
    }
  }
}
