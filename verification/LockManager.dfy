/**
 The lock manager's critical sections, each proved to be one step of the blocking protocol, and the
 queries the deadlock detector reads.
 */
module LockManagers {
  import opened Locks
  import opened LockProtocol

  class LockManager {
    var held: Held
    var waiters: map<Resource, seq<Waiter>>
    /** What the calling threads are doing; the program keeps this on their stacks. */
    ghost var calls: map<nat, Call>

    ghost function Value(): State
      reads this
    {
      State(held, waiters, calls)
    }

    constructor ()
      ensures Value() == START
    {
      held, waiters, calls := map[], map[], map[];
    }

    method IsHolder(holders: seq<nat>, txn: nat) returns (found: bool)
      ensures found <==> txn in holders
    {
      var i := 0;
      while i < |holders|
        invariant i <= |holders| && txn !in holders[..i]
      {
        if holders[i] == txn {
          return true;
        }
        i := i + 1;
      }
      found := false;
    }

    method CanGrant(txn: nat, key: Resource, mode: Mode) returns (ok: bool)
      ensures ok <==> Grantable(held, txn, key, mode)
      ensures NoneEmpty(held) ==> (!ok <==> Blocked(held, txn, key, mode))
    {
      if NoneEmpty(held) {
        GrantableIff(held, txn, key, mode);
      }
      if key !in held {
        return true;
      }
      var mine := IsHolder(held[key].holders, txn);
      ok := mine || (mode == Shared && held[key].mode == Shared);
    }

    method GrantNow(txn: nat, key: Resource, mode: Mode)
      modifies this`held
      ensures held == Granted(old(held), txn, key, mode)
    {
      if key !in held {
        held := held[key := Lock(mode, [txn])];
        return;
      }
      var lock := held[key];
      var mine := IsHolder(lock.holders, txn);
      if mine {
        if mode == Exclusive && lock.mode == Shared {
          held := held[key := lock.(mode := Exclusive)];
        }
        return;
      }
      if mode == Exclusive {
        lock := Lock(Exclusive, []);
      }
      assert lock.holders == [] ==> lock.holders + [txn] == [txn];
      held := held[key := lock.(holders := lock.holders + [txn])];
    }

    method Register(txn: nat, key: Resource, mode: Mode)
      modifies this`waiters
      ensures waiters == old(waiters)[key := old(WaitersOn(Value(), key)) + [Waiter(txn, mode)]]
    {
      var ws := if key in waiters then waiters[key] else [];
      waiters := waiters[key := ws + [Waiter(txn, mode)]];
    }

    method Deregister(txn: nat, key: Resource)
      modifies this`waiters
      ensures waiters == old(waiters)[key := Dropped(old(WaitersOn(Value(), key)), txn)]
    {
      var w := if key in waiters then waiters[key] else [];
      var i := 0;
      while i < |w| && w[i].txn != txn
        invariant i <= |w| && Dropped(w, txn) == w[..i] + Dropped(w[i..], txn)
        invariant waiters == old(waiters)
      {
        DroppedLater(w, i, txn);
        i := i + 1;
      }
      ghost var all := w;
      assert all == old(WaitersOn(Value(), key));
      if i < |w| {
        w := w[..i] + w[i + 1..];
      } else {
        assert w[i..] == [] && w == w[..i] + Dropped(w[i..], txn);
      }
      assert w == Dropped(all, txn);
      waiters := waiters[key := w];
    }

    /** The first critical section of acquireKey and tryAcquireKey. */
    method EnterAcquire(txn: nat, key: Resource, mode: Mode, timed: bool) returns (granted: bool)
      requires CallOf(Value(), txn).Idle?
      modifies this
      ensures Value() == Next(old(Value()), Begin(txn, key, mode, timed))
      ensures granted <==> Grantable(old(held), txn, key, mode)
      ensures NoneEmpty(old(held)) ==>
                && (!granted <==> Blocked(old(held), txn, key, mode))
                && (granted ==> forall t, k :: Holds(held, t, k) <==> Holds(old(held), t, k) || (t == txn && k == key))
    {
      granted := CanGrant(txn, key, mode);
      if granted {
        if NoneEmpty(held) {
          GrantAdds(held, txn, key, mode);
        }
        GrantNow(txn, key, mode);
        calls := calls[txn := Idle];
      } else {
        Register(txn, key, mode);
        calls := calls[txn := Asleep(key, mode, timed, false)];
      }
    }

    /** What acquireKey does after its wait returns: drop the entry, re-check, grant or queue again. */
    method WakeBlocking(txn: nat, key: Resource, mode: Mode) returns (granted: bool)
      requires CallOf(Value(), txn).Asleep? && SleepsOn(calls[txn], key, mode) && !calls[txn].timed
      modifies this
      ensures Value() == Next(old(Value()), Wake(txn))
      ensures granted <==> Grantable(old(held), txn, key, mode)
    {
      Deregister(txn, key);
      granted := CanGrant(txn, key, mode);
      if granted {
        GrantNow(txn, key, mode);
        calls := calls[txn := Idle];
      } else {
        Register(txn, key, mode);
        calls := calls[txn := Asleep(key, mode, false, false)];
      }
    }

    /** What tryAcquireKey does after its wait returns without a timeout. */
    method WakeTimed(txn: nat, key: Resource, mode: Mode) returns (granted: bool)
      requires CallOf(Value(), txn).Asleep? && SleepsOn(calls[txn], key, mode) && calls[txn].timed
      modifies this
      ensures Value() == Next(old(Value()), Wake(txn))
      ensures granted <==> Grantable(old(held), txn, key, mode)
    {
      granted := CanGrant(txn, key, mode);
      if granted {
        Deregister(txn, key);
        GrantNow(txn, key, mode);
        calls := calls[txn := Idle];
      } else {
        calls := calls[txn := Asleep(key, mode, true, false)];
      }
    }

    /** What tryAcquireKey does when its wait times out. */
    method GiveUp(txn: nat, key: Resource)
      requires CallOf(Value(), txn).Asleep? && calls[txn].key == key && calls[txn].timed
      modifies this
      ensures Value() == Next(old(Value()), TimeOut(txn))
    {
      Deregister(txn, key);
      if waiters[key] == [] {
        waiters := waiters - {key};
      }
      calls := calls[txn := Idle];
    }

    method RemoveHolder(holders: seq<nat>, txn: nat) returns (rest: seq<nat>, removed: bool)
      ensures removed <==> txn in holders
      ensures rest == Without(holders, txn)
    {
      var i := 0;
      while i < |holders| && holders[i] != txn
        invariant i <= |holders| && txn !in holders[..i]
        invariant Without(holders, txn) == holders[..i] + Without(holders[i..], txn)
      {
        WithoutFrom(holders, txn, i);
        i := i + 1;
      }
      removed := i < |holders|;
      if removed {
        rest := holders[..i] + holders[i + 1..];
      } else {
        assert holders[..i] == holders;
        rest := holders;
      }
    }

    /** One round of the release loop: one resource loses the transaction. */
    method ReleaseOneOf(txn: nat, key: Resource) returns (removed: bool)
      requires key in held
      modifies this`held
      ensures held == ReleasedKey(old(held), txn, key)
      ensures removed <==> txn in old(held)[key].holders
    {
      var rest;
      rest, removed := RemoveHolder(held[key].holders, txn);
      if removed {
        held := if rest == [] then held - {key} else held[key := held[key].(holders := rest)];
      }
    }

    /** Releases everything the transaction holds and says whether the waiters must be notified. */
    method ReleaseEverything(txn: nat) returns (notify: bool)
      requires CallOf(Value(), txn).Idle?
      modifies this
      ensures Value() == Next(old(Value()), Release(txn))
      ensures notify <==> held != old(held)
    {
      ghost var before := held;
      var todo := held.Keys;
      notify := false;
      while todo != {}
        invariant Releasing(before, held, txn, todo) && waiters == old(waiters) && calls == old(calls)
        invariant notify <==> exists k :: k in before && k !in todo && txn in before[k].holders
        decreases |todo|
      {
        var k :| k in todo;
        ReleasingStep(before, held, txn, todo, k);
        var removed := ReleaseOneOf(txn, k);
        notify := notify || removed;
        todo := todo - {k};
      }
      ReleasingDone(before, held, txn);
      if notify {
        calls := calls[txn := Notifying];
      }
    }

    /** Releases one resource, if the transaction holds it. */
    method ReleaseResource(txn: nat, key: Resource) returns (notify: bool)
      requires CallOf(Value(), txn).Idle?
      modifies this
      ensures Value() == Next(old(Value()), ReleaseKey(txn, key))
      ensures notify <==> held != old(held)
    {
      notify := false;
      if key in held {
        WithoutShorter(held[key].holders, txn);
        notify := ReleaseOneOf(txn, key);
      }
      if notify {
        calls := calls[txn := Notifying];
      }
    }

    // ----- queries -----

    method GetHolders(table: string) returns (out: set<nat>)
      ensures out == HoldersOf(held, table)
    {
      out := set k, t | k in held && k.table == table && t in held[k].holders :: t;
    }

    /** Some table the transaction waits for; the map's iteration order decides if there are several. */
    method WaiterTable(txn: nat) returns (table: string)
      ensures WaitsFor(waiters, txn, table) || (table == "" && forall t :: !WaitsFor(waiters, txn, t))
    {
      var todo := waiters.Keys;
      while todo != {}
        invariant todo <= waiters.Keys
        invariant forall k :: k in waiters && k !in todo ==> !ListsTxn(waiters[k], txn)
        decreases |todo|
      {
        var k :| k in todo;
        todo := todo - {k};
        var i := 0;
        while i < |waiters[k]|
          invariant i <= |waiters[k]| && forall j :: 0 <= j < i ==> waiters[k][j].txn != txn
        {
          if waiters[k][i].txn == txn {
            return k.table;
          }
          i := i + 1;
        }
      }
      table := "";
    }
  }

  lemma DroppedLater(w: seq<Waiter>, i: nat, txn: nat)
    requires i < |w| && w[i].txn != txn
    ensures Dropped(w[i..], txn) == [w[i]] + Dropped(w[i + 1..], txn)
    ensures forall rest: seq<Waiter> :: w[..i] + ([w[i]] + rest) == w[..i + 1] + rest
  {
    assert w[i..][1..] == w[i + 1..];
    assert w[..i + 1] == w[..i] + [w[i]];
  }

  predicate ListsTxn(ws: seq<Waiter>, txn: nat) {
    exists i :: 0 <= i < |ws| && ws[i].txn == txn
  }

  /** The transaction is in the queue of the table or of one of its rows. */
  predicate WaitsFor(waiters: map<Resource, seq<Waiter>>, txn: nat, table: string) {
    exists k :: k in waiters && k.table == table && ListsTxn(waiters[k], txn)
  }

  /** The transactions holding the table or one of its rows. */
  function HoldersOf(held: Held, table: string): set<nat> {
    set k, t | k in held && k.table == table && t in held[k].holders :: t
  }

  /** A transaction holds, or waits for, a table through the table itself or any of its rows. */
  lemma TableOrRows(held: Held, waiters: map<Resource, seq<Waiter>>, txn: nat, table: string)
    ensures txn in HoldersOf(held, table) <==> exists row :: Holds(held, txn, Resource(table, row))
    ensures WaitsFor(waiters, txn, table) <==>
            exists row, mode :: Resource(table, row) in waiters && Waiter(txn, mode) in waiters[Resource(table, row)]
  {
    forall k | k in held && k.table == table ensures k == Resource(table, k.row) {
    }
    if WaitsFor(waiters, txn, table) {
      var k :| k in waiters && k.table == table && ListsTxn(waiters[k], txn);
      var i :| 0 <= i < |waiters[k]| && waiters[k][i].txn == txn;
      assert Resource(table, k.row) in waiters && Waiter(txn, waiters[k][i].mode) in waiters[Resource(table, k.row)];
    }
    if row, mode :| Resource(table, row) in waiters && Waiter(txn, mode) in waiters[Resource(table, row)] {
      assert ListsTxn(waiters[Resource(table, row)], txn);
    }
  }

  /** The resources outside `todo` have lost the transaction, the others are untouched. */
  ghost predicate Releasing(before: Held, held: Held, txn: nat, todo: set<Resource>) {
    && todo <= before.Keys && held.Keys <= before.Keys
    && (forall k :: k in todo ==> k in held && held[k] == before[k])
    && (forall k :: k in before && k !in todo ==>
          && (k in held <==> k in Released(before, txn))
          && (k in held ==> held[k] == Released(before, txn)[k]))
  }

  lemma ReleasingStep(before: Held, held: Held, txn: nat, todo: set<Resource>, key: Resource)
    requires Releasing(before, held, txn, todo) && key in todo
    ensures Releasing(before, ReleasedKey(held, txn, key), txn, todo - {key})
  {
    if txn !in held[key].holders {
      WithoutAbsent(held[key].holders, txn);
    }
  }

  lemma ReleasingDone(before: Held, held: Held, txn: nat)
    requires Releasing(before, held, txn, {})
    ensures held == Released(before, txn)
    ensures held != before <==> exists k :: k in before && txn in before[k].holders
  {
    assert held.Keys == Released(before, txn).Keys;
    if k :| k in before && txn in before[k].holders {
      WithoutShorter(before[k].holders, txn);
      assert k in held ==> held[k] != before[k];
    } else {
      forall k | k in before ensures k in held && held[k] == before[k] {
        WithoutAbsent(before[k].holders, txn);
      }
    }
  }
}
