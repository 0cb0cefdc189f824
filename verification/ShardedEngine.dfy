/** The sharded engine's methods over its child engines. */
module ShardedEngines {
  import opened BitMath
  import opened Versions
  import opened MemoryStore
  import opened MemoryEngines
  import opened Sharding

  /** The routing loop over the bytes of a key. */
  method ComputeHash(bytes: seq<Byte>) returns (h: nat)
    ensures h == Hash(bytes)
  {
    h := FNV_OFFSET;
    var i := 0;
    while i < |bytes|
      invariant i <= |bytes| && h == Hash(bytes[..i])
    {
      assert bytes[..i + 1][..i] == bytes[..i];
      h := Xor(h, bytes[i]);
      h := (h * FNV_PRIME) % WORD;
      i := i + 1;
    }
    assert bytes[..|bytes|] == bytes;
  }

  class ShardedEngine {
    const children: seq<MemoryEngine>
    const layout: Layout
    var policies: map<string, Policy>

    ghost predicate Valid() {
      forall i, j :: 0 <= i < j < |children| ==> children[i] != children[j]
    }

    ghost function Value(): Shards
      reads children
    {
      seq(|children|, i requires 0 <= i < |children| reads children => children[i].Value())
    }

    constructor (children: seq<MemoryEngine>, layout: Layout)
      ensures this.children == children && this.layout == layout && policies == map[]
    {
      this.children, this.layout, policies := children, layout, map[];
    }

    method InstallPolicy(table: string, policy: Policy)
      modifies this
      ensures policies == old(policies)[table := policy]
    {
      policies := policies[table := policy];
    }

    method KeyShard(key: Key) returns (r: Option<nat>)
      ensures r == RouteByKey(layout, |children|, key)
    {
      if |children| == 0 {
        return None;
      }
      if |children| == 1 {
        return Some(0);
      }
      var h := ComputeHash(layout.keyBytes(key));
      r := Some(h % |children|);
    }

    method Get(txn: nat, table: string, key: Key) returns (r: Option<Row>)
      ensures r == LookupSharded(layout, Value(), txn, table, key)
    {
      var i := KeyShard(key);
      if i.None? {
        return None;
      }
      r := children[i.value].Get(txn, table, key);
    }

    method Put(txn: nat, table: string, key: Key, row: Row) returns (ok: bool)
      requires Valid()
      modifies children
      ensures ok <==> |children| > 0
      ensures Value() == ApplySharded(layout, policies, old(Value()), PutOp(txn, table, key, row))
    {
      var i := RouteOfPut(layout, |children|, PolicyOf(policies, table), key, row);
      if i.None? {
        return false;
      }
      children[i.value].Put(txn, table, key, row);
      ok := true;
    }

    method Remove(txn: nat, table: string, key: Key) returns (ok: bool)
      requires Valid()
      modifies children
      ensures ok <==> |children| > 0
      ensures Value() == ApplySharded(layout, policies, old(Value()), RemoveOp(txn, table, key))
    {
      var i := KeyShard(key);
      if i.None? {
        return false;
      }
      children[i.value].Remove(txn, table, key);
      ok := true;
    }

    method Scan(txn: nat, table: string) returns (out: seq<Row>)
      ensures out == ScanSharded(Value(), txn, table)
    {
      hide ScanRows;
      out := [];
      var i := 0;
      ghost var shards := Value();
      while i < |children|
        invariant i <= |children| && out == ScanSharded(shards[..i], txn, table)
      {
        var part := children[i].Scan(txn, table);
        assert part == ScanRows(shards[i], txn, table) && shards[..i + 1][..i] == shards[..i];
        out := out + part;
        i := i + 1;
      }
      assert shards[..|children|] == shards;
    }

    method Commit(txn: nat, stamp: nat)
      requires Valid()
      modifies children
      ensures Value() == OnAll(old(Value()), CommitOp(txn, stamp))
    {
      var i := 0;
      while i < |children|
        invariant i <= |children|
        invariant forall k :: 0 <= k < |children| ==>
                    var db := old(children[k].Value());
                    children[k].Value() == if k < i then AfterCommit(db, txn, stamp) else db
      {
        children[i].Commit(txn, stamp);
        i := i + 1;
      }
    }

    method Abort(txn: nat)
      requires Valid()
      modifies children
      ensures Value() == OnAll(old(Value()), AbortOp(txn))
    {
      var i := 0;
      while i < |children|
        invariant i <= |children|
        invariant forall k :: 0 <= k < |children| ==>
                    var db := old(children[k].Value());
                    children[k].Value() == if k < i then AfterAbort(db, txn) else db
      {
        children[i].Abort(txn);
        i := i + 1;
      }
    }
  }
}
