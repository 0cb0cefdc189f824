/**
 Lock states of the lock manager (includes/opendb/core/LockManager.hpp): who holds which resource
 in which mode, when a request may be granted, and what granting and releasing do.
 */
module Locks {

  datatype Mode = Shared | Exclusive

  /** A whole table if `row` is empty, one row of it otherwise. */
  datatype Resource = Resource(table: string, row: string)

  datatype Lock = Lock(mode: Mode, holders: seq<nat>)

  type Held = map<Resource, Lock>

  predicate Grantable(held: Held, txn: nat, key: Resource, mode: Mode) {
    || key !in held
    || txn in held[key].holders
    || (mode == Shared && held[key].mode == Shared)
  }

  function Granted(held: Held, txn: nat, key: Resource, mode: Mode): Held {
    if key !in held then held[key := Lock(mode, [txn])]
    else if txn in held[key].holders then
      if mode == Exclusive && held[key].mode == Shared then held[key := held[key].(mode := Exclusive)] else held
    else if mode == Exclusive then held[key := Lock(Exclusive, [txn])]
    else held[key := held[key].(holders := held[key].holders + [txn])]
  }

  /** The list without the first occurrence of the transaction. */
  function Without(holders: seq<nat>, txn: nat): seq<nat> {
    if holders == [] then []
    else if holders[0] == txn then holders[1..]
    else [holders[0]] + Without(holders[1..], txn)
  }

  /** Releasing one resource; the entry disappears with its last holder. */
  function ReleasedKey(held: Held, txn: nat, key: Resource): Held {
    if key !in held || txn !in held[key].holders then held
    else if Without(held[key].holders, txn) == [] then held - {key}
    else held[key := held[key].(holders := Without(held[key].holders, txn))]
  }

  predicate Holds(held: Held, txn: nat, key: Resource) {
    key in held && txn in held[key].holders
  }

  /** Releasing everything the transaction holds. */
  function Released(held: Held, txn: nat): Held {
    map k | k in held && (txn in held[k].holders ==> Without(held[k].holders, txn) != []) ::
      held[k].(holders := Without(held[k].holders, txn))
  }

  predicate Distinct(holders: seq<nat>) {
    forall i, j :: 0 <= i < j < |holders| ==> holders[i] != holders[j]
  }

  predicate LockOk(l: Lock) {
    l.holders != [] && Distinct(l.holders) && (l.mode == Exclusive ==> |l.holders| == 1)
  }

  predicate HeldOk(held: Held) {
    forall k :: k in held ==> LockOk(held[k])
  }

  /** The request upgrades a lock that others share. */
  predicate UpgradesBesideOthers(held: Held, txn: nat, key: Resource, mode: Mode) {
    mode == Exclusive && Holds(held, txn, key) && |held[key].holders| > 1
  }

  // ----- list facts -----

  lemma {:induction false} WithoutMember(holders: seq<nat>, txn: nat, t: nat)
    requires Distinct(holders)
    ensures t in Without(holders, txn) <==> t in holders && t != txn
    ensures Distinct(Without(holders, txn))
  {
    if holders != [] {
      WithoutMember(holders[1..], txn, t);
      assert forall x :: x in holders <==> x == holders[0] || x in holders[1..];
      if holders[0] != txn {
        WithoutMember(holders[1..], txn, holders[0]);
      }
    }
  }

  lemma {:induction false} WithoutShorter(holders: seq<nat>, txn: nat)
    ensures |Without(holders, txn)| == if txn in holders then |holders| - 1 else |holders|
  {
    if holders != [] {
      WithoutShorter(holders[1..], txn);
    }
  }

  lemma {:induction false} WithoutAbsent(holders: seq<nat>, txn: nat)
    requires txn !in holders
    ensures Without(holders, txn) == holders
  {
    if holders != [] {
      WithoutAbsent(holders[1..], txn);
      assert holders == [holders[0]] + holders[1..];
    }
  }

  lemma WithoutFrom(holders: seq<nat>, txn: nat, i: nat)
    requires i < |holders| && holders[i] != txn
    ensures holders[..i] + Without(holders[i..], txn) == holders[..i + 1] + Without(holders[i + 1..], txn)
  {
    assert holders[i..][1..] == holders[i + 1..];
  }

  // ----- single steps -----

  /** Granting a grantable request keeps the lock table sound exactly when it does not upgrade a
      lock that others share. */
  lemma GrantKeepsOk(held: Held, txn: nat, key: Resource, mode: Mode)
    requires HeldOk(held) && Grantable(held, txn, key, mode)
    ensures HeldOk(Granted(held, txn, key, mode)) <==> !UpgradesBesideOthers(held, txn, key, mode)
    ensures Holds(Granted(held, txn, key, mode), txn, key)
  {
    var held' := Granted(held, txn, key, mode);
    if UpgradesBesideOthers(held, txn, key, mode) {
      assert LockOk(held[key]);
      assert !LockOk(held'[key]);
    } else {
      forall k | k in held' ensures LockOk(held'[k]) {
        assert k in held ==> LockOk(held[k]);
      }
    }
  }

  /**
   A request is granted exactly when the caller holds the resource already, or whoever holds it
   shares it and the caller asks to share it too.
   */
  lemma GrantableIff(held: Held, txn: nat, key: Resource, mode: Mode)
    requires NoneEmpty(held)
    ensures Grantable(held, txn, key, mode) <==>
            Holds(held, txn, key) || forall h :: Holds(held, h, key) ==> mode == Shared && held[key].mode == Shared
    ensures !Grantable(held, txn, key, mode) <==> Blocked(held, txn, key, mode)
  {
    if key in held {
      assert Holds(held, held[key].holders[0], key);
    }
  }

  /** Another transaction stands in the way: it holds the resource, and one of the two is exclusive. */
  ghost predicate Blocked(held: Held, txn: nat, key: Resource, mode: Mode) {
    && !Holds(held, txn, key)
    && exists h :: h != txn && Holds(held, h, key) && (mode == Exclusive || held[key].mode == Exclusive)
  }

  predicate NoneEmpty(held: Held) {
    forall k :: k in held ==> held[k].holders != []
  }

  /** Upgrades beside sharers included, nobody is left out of the lock table but its holders. */
  lemma EventKeepsNoneEmpty(held: Held, e: Event)
    requires NoneEmpty(held)
    ensures NoneEmpty(After(held, e))
  {
  }

  /** A grant adds the caller and takes nobody away; the lock is shared only if all requests were. */
  lemma GrantAdds(held: Held, txn: nat, key: Resource, mode: Mode)
    requires NoneEmpty(held) && Grantable(held, txn, key, mode)
    ensures var held' := Granted(held, txn, key, mode);
            && (forall t, k :: Holds(held', t, k) <==> Holds(held, t, k) || (t == txn && k == key))
            && key in held'
            && (held'[key].mode == Shared <==> mode == Shared && (key in held ==> held[key].mode == Shared))
            && forall k :: k != key ==> (k in held' <==> k in held) && (k in held ==> held'[k] == held[k])
  {
  }

  /** A shared lock upgraded beside another sharer: both hold an Exclusive lock. */
  lemma UpgradeBesideSharer()
    ensures var k := Resource("t", "");
            var held := Granted(Granted(map[], 1, k, Shared), 2, k, Shared);
            && HeldOk(held) && Grantable(held, 1, k, Exclusive)
            && Granted(held, 1, k, Exclusive)[k] == Lock(Exclusive, [1, 2])
  {
  }

  lemma ReleaseKeepsOk(held: Held, txn: nat)
    requires HeldOk(held)
    ensures HeldOk(Released(held, txn))
    ensures forall k :: !Holds(Released(held, txn), txn, k)
    ensures forall t, k :: t != txn ==> (Holds(Released(held, txn), t, k) <==> Holds(held, t, k))
    ensures forall k :: k in Released(held, txn) ==> k in held && Released(held, txn)[k].mode == held[k].mode
  {
    var held' := Released(held, txn);
    forall k | k in held
      ensures Distinct(Without(held[k].holders, txn))
      ensures forall t :: t in Without(held[k].holders, txn) <==> t in held[k].holders && t != txn
    {
      assert LockOk(held[k]);
      forall t: nat ensures t in Without(held[k].holders, txn) <==> t in held[k].holders && t != txn {
        WithoutMember(held[k].holders, txn, t);
      }
      WithoutMember(held[k].holders, txn, txn);
    }
    forall k | k in held' ensures LockOk(held'[k]) {
      assert LockOk(held[k]);
      if txn !in held[k].holders {
        WithoutAbsent(held[k].holders, txn);
      }
    }
    forall t: nat, k | t != txn && Holds(held, t, k) ensures Holds(held', t, k) {
      assert t in Without(held[k].holders, txn);
    }
  }

  lemma ReleaseKeyKeepsOk(held: Held, txn: nat, key: Resource)
    requires HeldOk(held)
    ensures HeldOk(ReleasedKey(held, txn, key))
    ensures !Holds(ReleasedKey(held, txn, key), txn, key)
    ensures forall t, k :: t != txn || k != key ==> (Holds(ReleasedKey(held, txn, key), t, k) <==> Holds(held, t, k))
    ensures forall k :: k in ReleasedKey(held, txn, key) ==>
              k in held && ReleasedKey(held, txn, key)[k].mode == held[k].mode
  {
    var held' := ReleasedKey(held, txn, key);
    if Holds(held, txn, key) {
      assert LockOk(held[key]);
      var rest := Without(held[key].holders, txn);
      forall t: nat ensures t in rest <==> t in held[key].holders && t != txn {
        WithoutMember(held[key].holders, txn, t);
      }
      WithoutMember(held[key].holders, txn, txn);
      assert held[key].mode == Exclusive ==> held[key].holders == [txn];
      forall k | k in held' ensures LockOk(held'[k]) {
        assert LockOk(held[k]);
      }
      forall t: nat, k | (t != txn || k != key) && Holds(held, t, k) ensures Holds(held', t, k) {
        assert k == key ==> t in rest;
      }
    }
  }

  // ----- whole runs -----

  datatype Event =
    | Acquire(txn: nat, key: Resource, mode: Mode)
    | ReleaseAll(txn: nat)
    | ReleaseOne(txn: nat, key: Resource)

  /** Requests are granted only when grantable, and only sole holders upgrade. */
  predicate Allowed(held: Held, e: Event) {
    e.Acquire? ==> Grantable(held, e.txn, e.key, e.mode) && !UpgradesBesideOthers(held, e.txn, e.key, e.mode)
  }

  function After(held: Held, e: Event): Held {
    match e
    case Acquire(txn, key, mode) => Granted(held, txn, key, mode)
    case ReleaseAll(txn) => Released(held, txn)
    case ReleaseOne(txn, key) => ReleasedKey(held, txn, key)
  }

  function AfterAll(held: Held, es: seq<Event>): Held {
    if es == [] then held else After(AfterAll(held, es[..|es| - 1]), es[|es| - 1])
  }

  predicate AllowedRun(held: Held, es: seq<Event>) {
    es == [] || (AllowedRun(held, es[..|es| - 1]) && Allowed(AfterAll(held, es[..|es| - 1]), es[|es| - 1]))
  }

  lemma StepKeepsOk(held: Held, e: Event)
    requires HeldOk(held) && Allowed(held, e)
    ensures HeldOk(After(held, e))
  {
    match e
    case Acquire(txn, key, mode) => GrantKeepsOk(held, txn, key, mode);
    case ReleaseAll(txn) => ReleaseKeepsOk(held, txn);
    case ReleaseOne(txn, key) => ReleaseKeyKeepsOk(held, txn, key);
  }

  /** In every reachable lock table holder lists are non-empty and duplicate-free, and an Exclusive
      lock has one holder. */
  lemma {:induction false} RunKeepsOk(es: seq<Event>)
    requires AllowedRun(map[], es)
    ensures HeldOk(AfterAll(map[], es))
  {
    if es != [] {
      RunKeepsOk(es[..|es| - 1]);
      StepKeepsOk(AfterAll(map[], es[..|es| - 1]), es[|es| - 1]);
    }
  }

  predicate GivesUp(e: Event, txn: nat, key: Resource) {
    e == ReleaseAll(txn) || e == ReleaseOne(txn, key)
  }

  /** An exclusive holder stays the only holder until it lets go, whatever the others do. */
  lemma {:induction false} ExclusiveUntilReleased(held: Held, es: seq<Event>, txn: nat, key: Resource)
    requires HeldOk(held) && key in held && held[key] == Lock(Exclusive, [txn])
    requires AllowedRun(held, es) && forall e :: e in es ==> !GivesUp(e, txn, key)
    ensures HeldOk(AfterAll(held, es)) && key in AfterAll(held, es) && AfterAll(held, es)[key] == Lock(Exclusive, [txn])
  {
    if es != [] {
      var front, e := es[..|es| - 1], es[|es| - 1];
      assert e in es && forall x :: x in front ==> x in es;
      ExclusiveUntilReleased(held, front, txn, key);
      var h := AfterAll(held, front);
      StepKeepsOk(h, e);
      if e.ReleaseAll? {
        WithoutAbsent(h[key].holders, e.txn);
      }
    }
  }

  /** Right after an Exclusive grant the requester is the only holder. */
  lemma ExclusiveGrantIsSole(held: Held, txn: nat, key: Resource)
    requires HeldOk(held) && Allowed(held, Acquire(txn, key, Exclusive))
    ensures var held' := Granted(held, txn, key, Exclusive); key in held' && held'[key] == Lock(Exclusive, [txn])
  {
    if key in held {
      assert LockOk(held[key]) && |held[key].holders| == 1;
    }
  }
}
