/** The wait-chain walk (includes/opendb/core/DeadlockDetector.hpp) over a lock state that stands still. */
module DeadlockDetection {
  import opened Locks
  import opened LockProtocol
  import opened LockManagers

  const MAX_HOPS: nat := 1024

  datatype Verdict = NoCycle | Cycle(victim: nat)

  type Waiters = map<Resource, seq<Waiter>>

  /** Some transaction holds the first table and waits for the second. */
  predicate Blocks(held: Held, waiters: Waiters, table: string, next: string) {
    exists h :: h in HoldersOf(held, table) && WaitsFor(waiters, h, next)
  }

  /** A wait chain from origin back to origin: it waits for the first table, a holder of each table
      waits for the next one, and it holds the last. */
  ghost predicate ClosedChain(held: Held, waiters: Waiters, origin: nat, chain: seq<string>) {
    && chain != [] && "" !in chain
    && WaitsFor(waiters, origin, chain[0])
    && (forall i :: 0 <= i < |chain| - 1 ==> Blocks(held, waiters, chain[i], chain[i + 1]))
    && origin in HoldersOf(held, chain[|chain| - 1])
  }

  /** Every table has at most one holder and every transaction waits for at most one table. */
  ghost predicate SinglePath(held: Held, waiters: Waiters) {
    && (forall t, a, b :: a in HoldersOf(held, t) && b in HoldersOf(held, t) ==> a == b)
    && (forall x, s, t :: WaitsFor(waiters, x, s) && WaitsFor(waiters, x, t) ==> s == t)
  }

  // ----- the walks the detector may take -----

  /** The lock manager may name the table as the one the transaction waits for; empty stands for none. */
  ghost predicate MayName(waiters: Waiters, txn: nat, table: string) {
    WaitsFor(waiters, txn, table) || (table == "" && forall t :: !WaitsFor(waiters, txn, t))
  }

  /** Depending on the order of the holders the walk may go on to the next table. */
  ghost predicate MayHop(held: Held, waiters: Waiters, origin: nat, table: string, next: string) {
    next != "" && exists h :: h in HoldersOf(held, table) && h != origin && MayName(waiters, h, next)
  }

  /** The walk may end at the table: no holder is origin, and each may be named as waiting for nothing. */
  ghost predicate MayEnd(held: Held, waiters: Waiters, origin: nat, table: string) {
    origin !in HoldersOf(held, table) && forall h :: h in HoldersOf(held, table) ==> MayName(waiters, h, "")
  }

  ghost predicate Walk(held: Held, waiters: Waiters, origin: nat, walked: seq<string>) {
    && "" !in walked && (walked != [] ==> MayName(waiters, origin, walked[0]))
    && forall i :: 0 < i < |walked| ==> MayHop(held, waiters, origin, walked[i - 1], walked[i])
  }

  /** The walk ends with the verdict: on a table that origin holds, at a dead end, or out of hops. */
  ghost predicate WalkGives(held: Held, waiters: Waiters, origin: nat, walked: seq<string>, r: Verdict) {
    && Walk(held, waiters, origin, walked)
    && if walked == [] then r == NoCycle && MayName(waiters, origin, "")
       else if |walked| <= MAX_HOPS then
         var last := walked[|walked| - 1];
         if r.Cycle? then r.victim == origin && origin in HoldersOf(held, last) else MayEnd(held, waiters, origin, last)
       else r == NoCycle && |walked| == MAX_HOPS + 1
  }

  /** Some walk gives no verdict. */
  ghost predicate MayMiss(held: Held, waiters: Waiters, origin: nat) {
    exists walked :: WalkGives(held, waiters, origin, walked, NoCycle)
  }

  class DeadlockDetector {
    const locks: LockManager

    constructor (locks: LockManager)
      ensures this.locks == locks
    {
      this.locks := locks;
    }

    /**
     One hop: the holders in the order the hash set yields them, until one is origin or one is
     itself waiting. `next` is empty if there is neither.
     */
    method Hop(table: string, origin: nat) returns (closed: bool, next: string)
      ensures closed ==> origin in HoldersOf(locks.held, table)
      ensures !closed && next != "" ==> Blocks(locks.held, locks.waiters, table, next)
      ensures !closed && next == "" ==>
                && origin !in HoldersOf(locks.held, table)
                && forall h, t :: h in HoldersOf(locks.held, table) && WaitsFor(locks.waiters, h, t) ==>
                   t == "" || WaitsFor(locks.waiters, h, "")
      ensures !closed && next != "" ==> MayHop(locks.held, locks.waiters, origin, table, next)
      ensures !closed && next == "" ==> MayEnd(locks.held, locks.waiters, origin, table)
      ensures SinglePath(locks.held, locks.waiters) && origin in HoldersOf(locks.held, table) ==> closed
    {
      var todo := locks.GetHolders(table);
      while todo != {}
        invariant todo <= HoldersOf(locks.held, table)
        invariant forall h :: h in HoldersOf(locks.held, table) && h !in todo ==>
                    h != origin && forall t :: WaitsFor(locks.waiters, h, t) ==>
                        t == "" || WaitsFor(locks.waiters, h, "")
        invariant forall h :: h in HoldersOf(locks.held, table) && h !in todo ==> MayName(locks.waiters, h, "")
        decreases |todo|
      {
        var holder :| holder in todo;
        if holder == origin {
          return true, "";
        }
        var waitsOn := locks.WaiterTable(holder);
        if waitsOn != "" {
          return false, waitsOn;
        }
        todo := todo - {holder};
      }
      closed, next := false, "";
    }

    /**
     Follows one wait chain for at most 1024 hops. A verdict always names origin and has a closed
     chain behind it; where the chain is the only one there is, every closed chain of at most 1024
     tables is found. In general the verdict is that of one of the walks there are.
     */
    method DetectCycle(origin: nat) returns (r: Verdict)
      ensures exists walked :: WalkGives(locks.held, locks.waiters, origin, walked, r)
      ensures r.Cycle? ==>
                && r.victim == origin
                && exists chain :: |chain| <= 1024 && ClosedChain(locks.held, locks.waiters, origin, chain)
      ensures SinglePath(locks.held, locks.waiters) ==>
                (r.Cycle? <==>
                 exists chain :: |chain| <= 1024 && ClosedChain(locks.held, locks.waiters, origin, chain))
    {
      var table := locks.WaiterTable(origin);
      if table == "" {
        assert WalkGives(locks.held, locks.waiters, origin, [], NoCycle);
        return NoCycle;
      }
      ghost var walked := [table];
      var i := 0;
      while i < MAX_HOPS
        invariant i <= MAX_HOPS && |walked| == i + 1 && walked[i] == table
        invariant OpenChain(locks.held, locks.waiters, origin, walked)
        invariant Walk(locks.held, locks.waiters, origin, walked)
        invariant SinglePath(locks.held, locks.waiters) ==>
                    forall k :: 0 <= k < i ==> origin !in HoldersOf(locks.held, walked[k])
      {
        var closed, next := Hop(table, origin);
        if closed {
          assert ClosedChain(locks.held, locks.waiters, origin, walked);
          assert WalkGives(locks.held, locks.waiters, origin, walked, Cycle(origin));
          return Cycle(origin);
        }
        if next == "" {
          if SinglePath(locks.held, locks.waiters) {
            DeadEnd(locks.held, locks.waiters, origin, walked);
          }
          assert WalkGives(locks.held, locks.waiters, origin, walked, NoCycle);
          return NoCycle;
        }
        walked := walked + [next];
        table := next;
        i := i + 1;
      }
      if SinglePath(locks.held, locks.waiters) {
        TooLong(locks.held, locks.waiters, origin, walked);
      }
      assert WalkGives(locks.held, locks.waiters, origin, walked, NoCycle);
      r := NoCycle;
    }
  }

  /** The part of a wait chain the walk has followed so far. */
  ghost predicate OpenChain(held: Held, waiters: Waiters, origin: nat, walked: seq<string>) {
    && walked != [] && "" !in walked
    && WaitsFor(waiters, origin, walked[0])
    && forall i :: 0 <= i < |walked| - 1 ==> Blocks(held, waiters, walked[i], walked[i + 1])
  }

  function OnTable(table: string): Resource {
    Resource(table, "")
  }

  /** A table with two holders. */
  function SharedHeld(): Held {
    map[OnTable("a") := Lock(Shared, [2, 3]), OnTable("b") := Lock(Exclusive, [1]),
        OnTable("c") := Lock(Exclusive, [4])]
  }

  function SharedWaiters(): Waiters {
    map[OnTable("a") := [Waiter(1, Exclusive)], OnTable("b") := [Waiter(2, Shared)],
        OnTable("c") := [Waiter(3, Shared)]]
  }

  lemma SharedHolders()
    ensures HeldOk(SharedHeld())
    ensures HoldersOf(SharedHeld(), "a") == {2, 3} && HoldersOf(SharedHeld(), "b") == {1}
            && HoldersOf(SharedHeld(), "c") == {4}
  {
    var held := SharedHeld();
    assert held[OnTable("a")].holders[0] == 2 && held[OnTable("a")].holders[1] == 3;
    assert held[OnTable("b")].holders[0] == 1 && held[OnTable("c")].holders[0] == 4;
    assert 2 in held[OnTable("a")].holders && 3 in held[OnTable("a")].holders;
    assert 1 in held[OnTable("b")].holders && 4 in held[OnTable("c")].holders;
  }

  lemma SharedWaits()
    ensures WaitsFor(SharedWaiters(), 1, "a") && WaitsFor(SharedWaiters(), 2, "b") && WaitsFor(SharedWaiters(), 3, "c")
    ensures forall t :: !WaitsFor(SharedWaiters(), 4, t)
  {
    var waiters: map<Resource, seq<Waiter>> := SharedWaiters();
    assert waiters[OnTable("a")][0].txn == 1 && waiters[OnTable("b")][0].txn == 2 && waiters[OnTable("c")][0].txn == 3;
    assert ListsTxn(waiters[OnTable("a")], 1) && ListsTxn(waiters[OnTable("b")], 2)
           && ListsTxn(waiters[OnTable("c")], 3);
  }

  /**
   With two holders of one table some walk misses a cycle: transaction 1 waits for table a, whose
   holder 2 waits for table b, which 1 holds; but the walk may follow holder 3 to table c, whose
   holder waits for nothing.
   */
  lemma MissedCycle()
    ensures var held, waiters := SharedHeld(), SharedWaiters();
            && HeldOk(held)
            && ClosedChain(held, waiters, 1, ["a", "b"])
            && WalkGives(held, waiters, 1, ["a", "b"], Cycle(1))
            && WalkGives(held, waiters, 1, ["a", "c"], NoCycle)
  {
    hide SharedHeld, SharedWaiters, WaitsFor, HoldersOf, HeldOk;
    SharedHolders();
    SharedWaits();
    var held, waiters := SharedHeld(), SharedWaiters();
    assert Blocks(held, waiters, "a", "b");
    assert 2 in HoldersOf(held, "a") && MayName(waiters, 2, "b") && MayHop(held, waiters, 1, "a", "b");
    assert 3 in HoldersOf(held, "a") && MayName(waiters, 3, "c") && MayHop(held, waiters, 1, "a", "c");
  }

  /**
   Some walk misses, whatever cycles there are, if and only if origin may be named as waiting for
   nothing, or a walk of at most 1024 tables reaches one whose holders may all be named as waiting
   for nothing, or some walk is longer.
   */
  lemma MissesIff(held: Held, waiters: Waiters, origin: nat)
    ensures MayMiss(held, waiters, origin) <==>
            || MayName(waiters, origin, "")
            || (exists walked :: 0 < |walked| <= 1024 && Walk(held, waiters, origin, walked)
                                 && MayEnd(held, waiters, origin, walked[|walked| - 1]))
            || (exists walked :: |walked| == 1025 && Walk(held, waiters, origin, walked))
  {
    hide MayName, MayEnd, MayHop;
    if MayMiss(held, waiters, origin) {
      var walked :| WalkGives(held, waiters, origin, walked, NoCycle);
      assert Walk(held, waiters, origin, walked);
    } else {
      assert !WalkGives(held, waiters, origin, [], NoCycle);
      forall walked | walked != [] && Walk(held, waiters, origin, walked)
        ensures !(|walked| <= MAX_HOPS && MayEnd(held, waiters, origin, walked[|walked| - 1]))
        ensures |walked| != MAX_HOPS + 1
      {
        assert !WalkGives(held, waiters, origin, walked, NoCycle);
      }
    }
  }

  /** With a single path every closed chain starts the way the walk went. */
  lemma {:induction false} SameWay(held: Held, waiters: Waiters, origin: nat, walked: seq<string>, chain: seq<string>,
                                   n: nat)
    requires SinglePath(held, waiters) && OpenChain(held, waiters, origin, walked)
    requires ClosedChain(held, waiters, origin, chain) && n < |walked| && n < |chain|
    ensures walked[n] == chain[n]
  {
    if n > 0 {
      SameWay(held, waiters, origin, walked, chain, n - 1);
      assert Blocks(held, waiters, walked[n - 1], walked[n]);
      assert Blocks(held, waiters, chain[n - 1], chain[n]);
    }
  }

  /** If the walk stops at a table that origin does not hold and whose holder waits for nothing,
      there is no closed chain. */
  lemma DeadEnd(held: Held, waiters: Waiters, origin: nat, walked: seq<string>)
    requires SinglePath(held, waiters) && OpenChain(held, waiters, origin, walked)
    requires var last := walked[|walked| - 1];
             && origin !in HoldersOf(held, last)
             && forall h, t :: h in HoldersOf(held, last) && WaitsFor(waiters, h, t) ==>
                t == "" || WaitsFor(waiters, h, "")
    requires forall k :: 0 <= k < |walked| - 1 ==> origin !in HoldersOf(held, walked[k])
    ensures forall chain :: !ClosedChain(held, waiters, origin, chain)
  {
    forall chain ensures !ClosedChain(held, waiters, origin, chain) {
      if ClosedChain(held, waiters, origin, chain) {
        var n, m := |walked| - 1, |chain| - 1;
        if m <= n {
          SameWay(held, waiters, origin, walked, chain, m);
          assert false;
        } else {
          SameWay(held, waiters, origin, walked, chain, n);
          NoWayOn(held, waiters, chain, n);
        }
      }
    }
  }

  lemma NoWayOn(held: Held, waiters: Waiters, chain: seq<string>, n: nat)
    requires SinglePath(held, waiters) && n + 1 < |chain| && "" !in chain
    requires forall h, t :: h in HoldersOf(held, chain[n]) && WaitsFor(waiters, h, t) ==>
             t == "" || WaitsFor(waiters, h, "")
    ensures !Blocks(held, waiters, chain[n], chain[n + 1])
  {
    assert chain[n + 1] in chain;
  }

  lemma TooLong(held: Held, waiters: Waiters, origin: nat, walked: seq<string>)
    requires SinglePath(held, waiters) && OpenChain(held, waiters, origin, walked) && |walked| == MAX_HOPS + 1
    requires forall k :: 0 <= k < MAX_HOPS ==> origin !in HoldersOf(held, walked[k])
    ensures forall chain :: ClosedChain(held, waiters, origin, chain) ==> |chain| > 1024
  {
    forall chain | ClosedChain(held, waiters, origin, chain) ensures |chain| > MAX_HOPS {
      if |chain| <= MAX_HOPS {
        SameWay(held, waiters, origin, walked, chain, |chain| - 1);
        assert false;
      }
    }
  }

  // ----- rings -----

  /** Tables of different names. */
  function Name(i: nat): (name: string)
    ensures |name| == i
  {
    seq(i, _ => 't')
  }

  function RingTables(n: nat): set<Resource> {
    set i: nat | 1 <= i <= n :: OnTable(Name(i))
  }

  /** The transaction after x, around the ring. */
  function After(n: nat, x: nat): nat {
    if x == n then 1 else x + 1
  }

  /** Transactions 1 to n: each waits for the table that the one after it holds. */
  function RingHeld(n: nat): Held {
    map k | k in RingTables(n) :: Lock(Exclusive, [After(n, |k.table|)])
  }

  function RingWaiters(n: nat): Waiters {
    map k | k in RingTables(n) :: [Waiter(|k.table|, Exclusive)]
  }

  function RingChain(n: nat): (chain: seq<string>)
    ensures |chain| == n
  {
    seq(n, i requires 0 <= i < n => Name(i + 1))
  }

  lemma RingHolders(n: nat)
    ensures HeldOk(RingHeld(n))
    ensures forall i: nat :: 1 <= i <= n ==> HoldersOf(RingHeld(n), Name(i)) == {After(n, i)}
    ensures forall t, x :: x in HoldersOf(RingHeld(n), t) ==> 1 <= |t| <= n && t == Name(|t|) && x == After(n, |t|)
  {
    var held := RingHeld(n);
    forall i: nat | 1 <= i <= n ensures HoldersOf(held, Name(i)) == {After(n, i)} {
      assert OnTable(Name(i)) in RingTables(n);
      assert held[OnTable(Name(i))].holders[0] == After(n, i);
      assert After(n, i) in held[OnTable(Name(i))].holders;
    }
  }

  lemma RingWaits(n: nat)
    ensures forall x: nat, t :: WaitsFor(RingWaiters(n), x, t) <==> 1 <= x <= n && t == Name(x)
  {
    var waiters := RingWaiters(n);
    forall x: nat, t ensures WaitsFor(waiters, x, t) <==> 1 <= x <= n && t == Name(x) {
      if 1 <= x <= n && t == Name(x) {
        assert OnTable(t) in RingTables(n);
        assert OnTable(t) in waiters && waiters[OnTable(t)][0].txn == x;
        assert ListsTxn(waiters[OnTable(t)], x);
      }
    }
  }

  /** Whatever order the holders and waits are visited in, the walk from transaction 1 follows the ring. */
  lemma {:induction false} RingWalk(n: nat, walked: seq<string>)
    requires n >= 1 && walked != [] && Walk(RingHeld(n), RingWaiters(n), 1, walked)
    ensures |walked| <= n && walked[|walked| - 1] == Name(|walked|)
  {
    hide RingHeld, RingWaiters, WaitsFor, HoldersOf, Name;
    RingHolders(n);
    RingWaits(n);
    var held, waiters, m := RingHeld(n), RingWaiters(n), |walked|;
    if m == 1 {
      assert MayName(waiters, 1, walked[0]);
      assert WaitsFor(waiters, 1, Name(1));
    } else {
      assert Walk(held, waiters, 1, walked[..m - 1]);
      RingWalk(n, walked[..m - 1]);
      assert MayHop(held, waiters, 1, walked[m - 2], walked[m - 1]);
    }
  }

  /**
   A ring of n transactions, each waiting for a table the next one holds, is a cycle through n tables.
   Every walk from transaction 1 reports it if n is at most 1024, and no walk does if n is greater.
   */
  lemma RingFoundIff(n: nat)
    requires n >= 1
    ensures var held, waiters := RingHeld(n), RingWaiters(n);
            && HeldOk(held) && SinglePath(held, waiters) && ClosedChain(held, waiters, 1, RingChain(n))
            && forall walked, r :: WalkGives(held, waiters, 1, walked, r) ==>
               r == if n <= 1024 then Cycle(1) else NoCycle
  {
    hide RingHeld, RingWaiters, WaitsFor, HoldersOf, HeldOk, Name;
    RingHolders(n);
    RingWaits(n);
    var held, waiters, chain := RingHeld(n), RingWaiters(n), RingChain(n);
    forall i | 0 <= i < n - 1 ensures Blocks(held, waiters, chain[i], chain[i + 1]) {
      assert i + 2 in HoldersOf(held, Name(i + 1)) && WaitsFor(waiters, i + 2, Name(i + 2));
    }
    assert "" !in chain by { NamesNotEmpty(n); }
    forall walked, r | WalkGives(held, waiters, 1, walked, r)
      ensures r == if n <= 1024 then Cycle(1) else NoCycle
    {
      RingVerdict(n, walked, r);
    }
  }

  lemma NamesNotEmpty(n: nat)
    ensures "" !in RingChain(n)
  {
  }

  lemma RingVerdict(n: nat, walked: seq<string>, r: Verdict)
    requires n >= 1 && WalkGives(RingHeld(n), RingWaiters(n), 1, walked, r)
    ensures r == if n <= 1024 then Cycle(1) else NoCycle
  {
    hide RingHeld, RingWaiters, WaitsFor, HoldersOf, Name;
    RingHolders(n);
    RingWaits(n);
    var held, waiters := RingHeld(n), RingWaiters(n);
    assert WaitsFor(waiters, 1, Name(1));
    if walked != [] {
      RingWalk(n, walked);
      var last := walked[|walked| - 1];
      var x := After(n, |walked|);
      assert x in HoldersOf(held, last) && WaitsFor(waiters, x, Name(x));
    }
  }

  /** Three transactions, each waiting for the next one: every walk reports transaction 1. */
  lemma ThreeDeadlock()
    ensures var held: Held := map[OnTable("t") := Lock(Exclusive, [2]), OnTable("tt") := Lock(Exclusive, [3]),
                                  OnTable("ttt") := Lock(Exclusive, [1])];
            var waiters: Waiters := map[OnTable("t") := [Waiter(1, Exclusive)], OnTable("tt") := [Waiter(2, Exclusive)],
                                        OnTable("ttt") := [Waiter(3, Exclusive)]];
            && ClosedChain(held, waiters, 1, ["t", "tt", "ttt"])
            && forall walked, r :: WalkGives(held, waiters, 1, walked, r) ==> r == Cycle(1)
  {
    hide WalkGives, ClosedChain, SinglePath, HeldOk;
    RingFoundIff(3);
    assert Name(1) == "t" && Name(2) == "tt" && Name(3) == "ttt";
    assert RingChain(3) == ["t", "tt", "ttt"];
    var held: Held := map[OnTable("t") := Lock(Exclusive, [2]), OnTable("tt") := Lock(Exclusive, [3]),
                          OnTable("ttt") := Lock(Exclusive, [1])];
    assert RingTables(3) == {OnTable("t"), OnTable("tt"), OnTable("ttt")};
    assert RingHeld(3) == held;
    var waiters: Waiters := map[OnTable("t") := [Waiter(1, Exclusive)], OnTable("tt") := [Waiter(2, Exclusive)],
                                OnTable("ttt") := [Waiter(3, Exclusive)]];
    assert RingWaiters(3) == waiters;
  }
}
