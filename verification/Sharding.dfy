/**
 Rows spread over several in-memory engines (includes/opendb/storage/ShardedStorageEngine.hpp): routing,
 and when the shards together behave like one engine.
 */
module Sharding {
  import opened BitMath
  import opened Versions
  import opened MemoryStore
  import opened ValueCodec

  // ----- routing -----

  const FNV_OFFSET: nat := 1469598103934665603
  const FNV_PRIME: nat := 1099511628211
  const WORD: nat := 0x1_0000_0000_0000_0000

  /** FNV-1a in 64-bit arithmetic. */
  function Hash(bytes: seq<Byte>): nat {
    if bytes == [] then FNV_OFFSET
    else HashStep(Hash(bytes[..|bytes| - 1]), bytes[|bytes| - 1])
  }

  function HashStep(h: nat, b: Byte): nat {
    (Xor(h, b) * FNV_PRIME) % WORD
  }

  datatype Policy =
    | Unpartitioned
    | ByHash(column: string, shardCount: nat)
    | ByRange(column: string, boundaries: seq<Key>)
    | ByList(column: string, lists: seq<seq<Key>>)

  /** How keys are encoded, and what value a row has in a column. */
  datatype Layout = Layout(keyBytes: Key -> seq<Byte>, column: (Row, string) -> Option<Key>)

  function RouteByKey(l: Layout, n: nat, key: Key): (r: Option<nat>)
    ensures r.None? <==> n == 0
    ensures r.Some? ==> r.value < n
  {
    if n == 0 then None
    else if n == 1 then Some(0)
    else Some(Hash(l.keyBytes(key)) % n)
  }

  /** The first shard whose half-open range holds the value. */
  function RangeShard(boundaries: seq<Key>, v: Key, i: nat, n: nat): (r: Option<nat>)
    requires |boundaries| == n + 1 && i <= n
    ensures r.Some? ==> i <= r.value < n && boundaries[r.value] <= v < boundaries[r.value + 1]
    ensures forall j :: i <= j < (if r.Some? then r.value else n) ==> !(boundaries[j] <= v < boundaries[j + 1])
    decreases n - i
  {
    if i == n then None
    else if boundaries[i] <= v < boundaries[i + 1] then Some(i)
    else RangeShard(boundaries, v, i + 1, n)
  }

  function ListShard(lists: seq<seq<Key>>, v: Key, i: nat): (r: Option<nat>)
    requires i <= |lists|
    ensures r.Some? ==> i <= r.value < |lists| && v in lists[r.value]
    ensures forall j :: i <= j < (if r.Some? then r.value else |lists|) ==> v !in lists[j]
    decreases |lists| - i
  {
    if i == |lists| then None
    else if v in lists[i] then Some(i)
    else ListShard(lists, v, i + 1)
  }

  /** The shard the table's policy pins a row to, if it pins one. */
  function RouteByPolicy(l: Layout, n: nat, policy: Policy, row: Row): (r: Option<nat>)
    ensures r.Some? ==> r.value < n && !policy.Unpartitioned? && l.column(row, policy.column).Some?
    ensures policy.ByHash? && policy.shardCount > 0 && n > 0 && l.column(row, policy.column).Some? ==> r.Some?
    ensures r.Some? && policy.ByHash? ==> n == 1 || r == RouteByKey(l, n, l.column(row, policy.column).value)
    ensures r.Some? && policy.ByRange? ==>
              && |policy.boundaries| == n + 1
              && policy.boundaries[r.value] <= l.column(row, policy.column).value < policy.boundaries[r.value + 1]
    ensures r.None? && policy.ByRange? && 0 < n == |policy.boundaries| - 1 && l.column(row, policy.column).Some? ==>
              var v := l.column(row, policy.column).value;
              forall i :: 0 <= i < n ==> !(policy.boundaries[i] <= v < policy.boundaries[i + 1])
    ensures r.None? && n > 0 && policy.ByList? && |policy.lists| == n && l.column(row, policy.column).Some? ==>
              forall i :: 0 <= i < n ==> l.column(row, policy.column).value !in policy.lists[i]
    ensures r.Some? && policy.ByList? ==>
              |policy.lists| == n && l.column(row, policy.column).value in policy.lists[r.value]
  {
    if n == 0 then None
    else match policy
      case Unpartitioned => None
      case ByHash(column, shardCount) =>
        var v := l.column(row, column);
        if v.None? || shardCount == 0 then None else Some(Hash(l.keyBytes(v.value)) % n)
      case ByRange(column, boundaries) =>
        var v := l.column(row, column);
        if v.None? || |boundaries| != n + 1 then None else RangeShard(boundaries, v.value, 0, n)
      case ByList(column, lists) =>
        var v := l.column(row, column);
        if v.None? || |lists| != n then None else ListShard(lists, v.value, 0)
  }

  /** Where a put goes: by policy if that pins a shard, by key otherwise. */
  function RouteOfPut(l: Layout, n: nat, policy: Policy, key: Key, row: Row): (r: Option<nat>)
    ensures r.Some? ==> r.value < n
    ensures r.None? ==> n == 0
  {
    var p := RouteByPolicy(l, n, policy, row);
    if p.Some? then p else RouteByKey(l, n, key)
  }

  // ----- the shards as a value -----

  type Shards = seq<Db>

  function PolicyOf(policies: map<string, Policy>, table: string): Policy {
    if table in policies then policies[table] else Unpartitioned
  }

  function OnAll(shards: Shards, op: Op): Shards {
    seq(|shards|, i requires 0 <= i < |shards| => MemoryStore.Apply(shards[i], op))
  }

  /** Writes go to one shard, commits and aborts to all of them. */
  function ApplySharded(l: Layout, policies: map<string, Policy>, shards: Shards, op: Op): (r: Shards)
    ensures |r| == |shards|
  {
    match op
    case PutOp(_, table, key, row) =>
      var i := RouteOfPut(l, |shards|, PolicyOf(policies, table), key, row);
      if i.None? then shards else shards[i.value := MemoryStore.Apply(shards[i.value], op)]
    case RemoveOp(_, _, key) =>
      var i := RouteByKey(l, |shards|, key);
      if i.None? then shards else shards[i.value := MemoryStore.Apply(shards[i.value], op)]
    case CommitOp(_, _) => OnAll(shards, op)
    case AbortOp(_) => OnAll(shards, op)
  }

  function RunSharded(l: Layout, policies: map<string, Policy>, n: nat, ops: seq<Op>): (r: Shards)
    ensures |r| == n
  {
    if ops == [] then seq(n, _ => EMPTY_DB)
    else ApplySharded(l, policies, RunSharded(l, policies, n, ops[..|ops| - 1]), ops[|ops| - 1])
  }

  function LookupSharded(l: Layout, shards: Shards, txn: nat, table: string, key: Key): Option<Row> {
    var i := RouteByKey(l, |shards|, key);
    if i.None? then None else Lookup(shards[i.value], txn, table, key)
  }

  function ScanSharded(shards: Shards, txn: nat, table: string): seq<Row> {
    if shards == [] then []
    else ScanSharded(shards[..|shards| - 1], txn, table) + ScanRows(shards[|shards| - 1], txn, table)
  }

  // ----- simulation -----

  /** A put the shards can find again: it names its key and goes where the key routes to. */
  predicate Findable(l: Layout, n: nat, policies: map<string, Policy>, op: Op) {
    op.PutOp? ==>
      && op.key != NULL_KEY
      && RouteOfPut(l, n, PolicyOf(policies, op.table), op.key, op.row) == RouteByKey(l, n, op.key)
  }

  /** Puts into unpartitioned tables, and into hash tables whose partition column is absent or holds the key. */
  lemma HashOnKeyFindable(l: Layout, n: nat, policies: map<string, Policy>, op: Op)
    requires op.PutOp? && op.key != NULL_KEY
    requires var policy := PolicyOf(policies, op.table);
             || policy.Unpartitioned?
             || (policy.ByHash? && (l.column(op.row, policy.column) == None
                 || l.column(op.row, policy.column) == Some(op.key)))
    ensures Findable(l, n, policies, op)
  {
    var policy := PolicyOf(policies, op.table);
    if policy.ByHash? && n == 1 {
      assert Hash(l.keyBytes(op.key)) % 1 == 0;
    }
  }

  /** A shard's versions of a key: all of them if the key routes to it, none otherwise. */
  predicate InPlace(l: Layout, n: nat, shard: Db, db: Db, i: nat, t: string, k: Key) {
    VersionsOf(shard, t, k) == if RouteByKey(l, n, k) == Some(i) then VersionsOf(db, t, k) else []
  }

  /** Every key's versions are on the shard the key routes to, and only there. */
  ghost predicate Simulates(l: Layout, shards: Shards, db: Db) {
    && (forall i :: 0 <= i < |shards| ==> shards[i].visibleSeq == db.visibleSeq)
    && forall i, t, k :: 0 <= i < |shards| ==> InPlace(l, |shards|, shards[i], db, i, t, k)
  }

  /** One key on one shard, after one operation on the shards and on the single engine. */
  lemma StepOnShard(l: Layout, policies: map<string, Policy>, shards: Shards, db: Db, op: Op, i: nat, t: string, k: Key)
    requires i < |shards| && Findable(l, |shards|, policies, op) && InPlace(l, |shards|, shards[i], db, i, t, k)
    ensures InPlace(l, |shards|, ApplySharded(l, policies, shards, op)[i], MemoryStore.Apply(db, op), i, t, k)
  {
    StepByKey(shards[i], op, t, k);
    StepByKey(db, op, t, k);
  }

  lemma StepSimulates(l: Layout, policies: map<string, Policy>, shards: Shards, db: Db, op: Op, shards': Shards,
                      db': Db)
    requires shards != [] && Simulates(l, shards, db) && Findable(l, |shards|, policies, op)
    requires shards' == ApplySharded(l, policies, shards, op) && db' == MemoryStore.Apply(db, op)
    ensures Simulates(l, shards', db')
  {
    forall i, t, k | 0 <= i < |shards| ensures InPlace(l, |shards|, shards'[i], db', i, t, k) {
      assert InPlace(l, |shards|, shards[i], db, i, t, k);
      StepOnShard(l, policies, shards, db, op, i, t, k);
    }
    forall i | 0 <= i < |shards| ensures shards'[i].visibleSeq == db'.visibleSeq {
    }
  }

  lemma {:induction false} RunSimulates(l: Layout, policies: map<string, Policy>, n: nat, ops: seq<Op>)
    requires n > 0 && forall i :: 0 <= i < |ops| ==> Findable(l, n, policies, ops[i])
    ensures Simulates(l, RunSharded(l, policies, n, ops), Run(ops))
  {
    if ops != [] {
      RunSimulates(l, policies, n, ops[..|ops| - 1]);
      StepSimulates(l, policies, RunSharded(l, policies, n, ops[..|ops| - 1]), Run(ops[..|ops| - 1]), ops[|ops| - 1],
                    RunSharded(l, policies, n, ops), Run(ops));
    }
  }

  /** Over every history of findable puts, a lookup through the shards is a lookup in one engine. */
  lemma SameLookups(l: Layout, policies: map<string, Policy>, n: nat, ops: seq<Op>, txn: nat, table: string, key: Key)
    requires n > 0 && forall i :: 0 <= i < |ops| ==> Findable(l, n, policies, ops[i])
    ensures LookupSharded(l, RunSharded(l, policies, n, ops), txn, table, key) == Lookup(Run(ops), txn, table, key)
  {
    RunSimulates(l, policies, n, ops);
    var shards := RunSharded(l, policies, n, ops);
    var i := RouteByKey(l, n, key).value;
    assert InPlace(l, n, shards[i], Run(ops), i, table, key);
  }

  /**
   After any history that can be found again, a put is seen by its own transaction exactly when the
   policy sends it to the shard its key routes to; otherwise the lookup returns what it did before.
   */
  lemma MisroutedPutLost(l: Layout, policies: map<string, Policy>, n: nat, ops: seq<Op>, op: Op)
    requires n > 0 && op.PutOp? && op.key != NULL_KEY && forall i :: 0 <= i < |ops| ==> Findable(l, n, policies, ops[i])
    ensures LookupSharded(l, RunSharded(l, policies, n, ops + [op]), op.txn, op.table, op.key)
            == if Findable(l, n, policies, op) then Some(op.row) else Lookup(Run(ops), op.txn, op.table, op.key)
  {
    hide Hash, Run;
    assert (ops + [op])[..|ops|] == ops;
    var shards := RunSharded(l, policies, n, ops);
    var i, j := RouteByKey(l, n, op.key).value, RouteOfPut(l, n, PolicyOf(policies, op.table), op.key, op.row).value;
    assert RunSharded(l, policies, n, ops + [op]) == shards[j := MemoryStore.Apply(shards[j], op)];
    if i == j {
      StepByKey(shards[i], op, op.table, op.key);
    } else {
      SameLookups(l, policies, n, ops, op.txn, op.table, op.key);
    }
  }

  function OddBytes(bytes: seq<Byte>): nat {
    if bytes == [] then 0 else OddBytes(bytes[..|bytes| - 1]) + bytes[|bytes| - 1] % 2
  }

  /** The multiplier is odd and the modulus even, so a step of the hash keeps the parity of the sum. */
  lemma HashStepParity(h: nat, b: Byte)
    ensures HashStep(h, b) % 2 == (h + b) % 2
  {
    var x := Xor(h, b);
    var y := x * FNV_PRIME;
    var q, r := y / WORD, y % WORD;
    assert y == WORD * q + r;
    var k := 549755814105 * x - 0x8000_0000_0000_0000 * q;
    assert r == 2 * k + x;
    EvenPlus(k, x);
  }

  /** The hash is odd exactly when an even number of bytes is odd. */
  lemma {:induction false} HashParity(bytes: seq<Byte>)
    ensures Hash(bytes) % 2 == (1 + OddBytes(bytes)) % 2
  {
    hide HashStep;
    if bytes != [] {
      var front, last := bytes[..|bytes| - 1], bytes[|bytes| - 1];
      HashParity(front);
      HashStepParity(Hash(front), last);
    }
  }

  /** Keys as 64-bit integers, and a column that holds a row's body. */
  const INT64_KEYS: Layout :=
    Layout((k: Key) => if k < TWO63 then Encode(Int64(k)) else [], (row: Row, _: string) => Some(row.body))

  lemma OddAppend(bytes: seq<Byte>, b: Byte)
    ensures OddBytes(bytes + [b]) == OddBytes(bytes) + b % 2
  {
    assert (bytes + [b])[..|bytes|] == bytes;
  }

  lemma {:induction false} OddZeros(bytes: seq<Byte>, k: nat)
    ensures OddBytes(bytes + Le(0, k)) == OddBytes(bytes)
    decreases k
  {
    if k == 0 {
      assert bytes + Le(0, 0) == bytes;
    } else {
      hide OddBytes;
      LeStep(0, k);
      assert bytes + Le(0, k) == bytes + [0] + Le(0, k - 1);
      OddZeros(bytes + [0], k - 1);
      OddAppend(bytes, 0);
    }
  }

  lemma KeyOneIsOdd()
    ensures RouteByKey(INT64_KEYS, 2, 1) == Some(1)
  {
    hide Hash, OddBytes;
    var bytes := INT64_KEYS.keyBytes(1);
    LeStep(1, 8);
    assert bytes == [3] + [1] + Le(0, 7);
    OddZeros([3] + [1], 7);
    OddAppend([3], 1);
    OddAppend([], 3);
    assert [] + [3] == [3];
    NoOddBytes();
    HashParity(bytes);
  }

  lemma NoOddBytes()
    ensures OddBytes([]) == 0
  {
  }

  /** The hashes of the one-byte keys 0 and 1, and the shards they name among two to seven. */
  lemma HashValues()
    ensures Hash([]) == 1469598103934665603
    ensures Hash([0]) == 4953163356653287321 && Hash([1]) == 4953162257141659110
    ensures forall l: Layout, key :: l.keyBytes(key) == [0] ==>
              && RouteByKey(l, 2, key) == Some(1) && RouteByKey(l, 5, key) == Some(1)
              && RouteByKey(l, 7, key) == Some(0)
    ensures forall l: Layout, key :: l.keyBytes(key) == [1] ==>
              && RouteByKey(l, 2, key) == Some(0) && RouteByKey(l, 5, key) == Some(0)
              && RouteByKey(l, 7, key) == Some(4)
  {
    hide Xor;
    XorZero(FNV_OFFSET);
    assert FNV_OFFSET % 2 == 1;
    XorTogglesBit(FNV_OFFSET, 0);
    assert Xor(FNV_OFFSET, 1) == FNV_OFFSET - 1;
    assert [0][..0] == [] && [1][..0] == [];
    assert Hash([]) == FNV_OFFSET;
    assert Hash([0]) == HashStep(FNV_OFFSET, 0) && Hash([1]) == HashStep(FNV_OFFSET, 1);
  }

  /** For instance key 1 with a partition column of 3 among the ranges [0, 5) and [5, 10): the row
      goes to shard 0, and a lookup of the key asks shard 1. */
  lemma RangePutLost()
    ensures var policies, op := map["t" := ByRange("c", [0, 5, 10])], PutOp(1, "t", 1, Row(1, 3));
            LookupSharded(INT64_KEYS, RunSharded(INT64_KEYS, policies, 2, [op]), 1, "t", 1) == None
  {
    hide Hash;
    var policies, op := map["t" := ByRange("c", [0, 5, 10])], PutOp(1, "t", 1, Row(1, 3));
    assert RangeShard([0, 5, 10], 3, 0, 2) == Some(0);
    KeyOneIsOdd();
    assert [] + [op] == [op];
    MisroutedPutLost(INT64_KEYS, policies, 2, [], op);
    assert Run([]) == EMPTY_DB;
  }

  // ----- scans -----

  /** No key keeps an empty version list. */
  predicate NoEmptyRows(db: Db) {
    forall t :: t in db.tables ==> forall k :: k in db.tables[t] ==> db.tables[t][k] != []
  }

  lemma StepKeepsRows(db: Db, op: Op)
    requires NoEmptyRows(db)
    ensures NoEmptyRows(MemoryStore.Apply(db, op))
  {
    var db' := MemoryStore.Apply(db, op);
    forall t, k | t in db'.tables && k in db'.tables[t] ensures db'.tables[t][k] != [] {
      assert t in db.tables && k in db.tables[t] ==> db.tables[t][k] != [];
    }
  }

  lemma {:induction false} RunKeepsRows(l: Layout, policies: map<string, Policy>, n: nat, ops: seq<Op>)
    ensures NoEmptyRows(Run(ops))
    ensures forall i :: 0 <= i < n ==> NoEmptyRows(RunSharded(l, policies, n, ops)[i])
  {
    if ops != [] {
      var front, op := ops[..|ops| - 1], ops[|ops| - 1];
      RunKeepsRows(l, policies, n, front);
      StepKeepsRows(Run(front), op);
      forall i | 0 <= i < n ensures NoEmptyRows(RunSharded(l, policies, n, ops)[i]) {
        StepKeepsRows(RunSharded(l, policies, n, front)[i], op);
      }
    }
  }

  function RowBag(o: Option<Row>): multiset<Row> {
    if o.Some? then multiset{o.value} else multiset{}
  }

  /** The rows a reader sees of a set of keys, as a bag. */
  function Bag(db: Db, txn: nat, table: string, keys: set<Key>): multiset<Row> {
    if keys == {} then multiset{}
    else
      var top := Greatest(keys);
      Bag(db, txn, table, keys - {top}) + RowBag(Lookup(db, txn, table, top))
  }

  lemma {:induction false} GatheredBag(db: Db, txn: nat, table: string, keys: set<Key>)
    ensures multiset(Gathered(db, txn, table, Ascending(keys))) == Bag(db, txn, table, keys)
  {
    if keys != {} {
      var top := Greatest(keys);
      GatheredBag(db, txn, table, keys - {top});
    }
  }

  /** The bag of two disjoint key sets is the sum of their bags. */
  lemma {:induction false} BagSplit(db: Db, txn: nat, table: string, a: set<Key>, b: set<Key>)
    requires a !! b
    ensures Bag(db, txn, table, a + b) == Bag(db, txn, table, a) + Bag(db, txn, table, b)
    decreases |a + b|
  {
    hide RowBag, Lookup;
    if a + b != {} {
      var top := Greatest(a + b);
      if top in a {
        assert (a + b) - {top} == (a - {top}) + b;
        BagSplit(db, txn, table, a - {top}, b);
        assert Greatest(a) == top;
      } else {
        assert (a + b) - {top} == a + (b - {top});
        BagSplit(db, txn, table, a, b - {top});
        assert Greatest(b) == top;
      }
    }
  }

  /** Equal lookups give equal bags. */
  lemma {:induction false} BagSame(db: Db, db': Db, txn: nat, table: string, keys: set<Key>)
    requires forall k :: k in keys ==> Lookup(db, txn, table, k) == Lookup(db', txn, table, k)
    ensures Bag(db, txn, table, keys) == Bag(db', txn, table, keys)
  {
    if keys != {} {
      BagSame(db, db', txn, table, keys - {Greatest(keys)});
    }
  }

  /** The keys of a table that route to one of the first m shards. */
  function KeysUpTo(l: Layout, n: nat, keys: set<Key>, m: nat): set<Key> {
    set k | k in keys && RouteByKey(l, n, k).Some? && RouteByKey(l, n, k).value < m
  }

  lemma {:induction false} ScanUpTo(l: Layout, shards: Shards, db: Db, txn: nat, table: string, m: nat)
    requires Simulates(l, shards, db) && m <= |shards| && NoEmptyRows(db)
    requires forall i :: 0 <= i < |shards| ==> NoEmptyRows(shards[i])
    ensures multiset(ScanSharded(shards[..m], txn, table))
            == Bag(db, txn, table, KeysUpTo(l, |shards|, TableKeys(db, table), m))
  {
    var n := |shards|;
    var all := TableKeys(db, table);
    if m == 0 {
      assert KeysUpTo(l, n, all, 0) == {};
    } else {
      ScanUpTo(l, shards, db, txn, table, m - 1);
      assert shards[..m][..m - 1] == shards[..m - 1];
      var mine := TableKeys(shards[m - 1], table);
      ShardKeys(l, shards, db, txn, table, m - 1);
      GatheredBag(shards[m - 1], txn, table, mine);
      BagSame(shards[m - 1], db, txn, table, mine);
      BagSplit(db, txn, table, KeysUpTo(l, n, all, m - 1), mine);
    }
  }

  lemma ShardKey(l: Layout, shards: Shards, db: Db, table: string, i: nat, k: Key)
    requires Simulates(l, shards, db) && i < |shards| && NoEmptyRows(db) && NoEmptyRows(shards[i])
    ensures k in TableKeys(shards[i], table) <==> k in TableKeys(db, table) && RouteByKey(l, |shards|, k) == Some(i)
    ensures k in TableKeys(shards[i], table) ==> VersionsOf(shards[i], table, k) == VersionsOf(db, table, k)
  {
    assert InPlace(l, |shards|, shards[i], db, i, table, k);
  }

  /** A shard's keys are the table's keys that route to it, and they look the same there. */
  lemma ShardKeys(l: Layout, shards: Shards, db: Db, txn: nat, table: string, i: nat)
    requires Simulates(l, shards, db) && i < |shards| && NoEmptyRows(db) && NoEmptyRows(shards[i])
    ensures var n, all, mine := |shards|, TableKeys(db, table), TableKeys(shards[i], table);
            && KeysUpTo(l, n, all, i) !! mine && KeysUpTo(l, n, all, i + 1) == KeysUpTo(l, n, all, i) + mine
            && forall k :: k in mine ==> Lookup(shards[i], txn, table, k) == Lookup(db, txn, table, k)
  {
    var n, all, mine := |shards|, TableKeys(db, table), TableKeys(shards[i], table);
    forall k: Key
      ensures k in mine <==> k in all && RouteByKey(l, n, k) == Some(i)
      ensures k in mine ==> Lookup(shards[i], txn, table, k) == Lookup(db, txn, table, k)
    {
      ShardKey(l, shards, db, table, i, k);
    }
  }

  /** Over every history of findable puts a scan through the shards emits the same rows as one engine,
      in some order. */
  lemma SameScanRows(l: Layout, policies: map<string, Policy>, n: nat, ops: seq<Op>, txn: nat, table: string)
    requires n > 0 && forall i :: 0 <= i < |ops| ==> Findable(l, n, policies, ops[i])
    ensures multiset(ScanSharded(RunSharded(l, policies, n, ops), txn, table))
            == multiset(ScanRows(Run(ops), txn, table))
  {
    var shards, db := RunSharded(l, policies, n, ops), Run(ops);
    RunSimulates(l, policies, n, ops);
    RunKeepsRows(l, policies, n, ops);
    ScanUpTo(l, shards, db, txn, table, n);
    assert shards[..n] == shards;
    assert KeysUpTo(l, n, TableKeys(db, table), n) == TableKeys(db, table);
    GatheredBag(db, txn, table, TableKeys(db, table));
  }
}
