/** The read side: the store lookups `handlerGetKey` and `handlerGetHash` make for a parsed
    `key_id`, and their agreement with what the writers store. */
module Lookup {
  import opened Wrappers
  import opened GoInt
  import opened Decimal
  import opened Naming
  import opened Store
  import opened Populate
  import opened Effects
  import opened Bulk

  /** `handlerGetKey`: GET of `key_<keyID>`. */
  function GetKey(st: Store, keyID: Int64): Result<string, ReadError> {
    Get(st, KeyName(keyID))
  }

  /** `handlerGetHash`: HGET of field `field_<fieldID>` in shard `getHashShard(fieldID)`. */
  function GetHash(st: Store, fieldID: Int64): Result<string, ReadError> {
    HGet(st, HashShard(fieldID), FieldName(fieldID))
  }

  /** No key of `st` is a shard name, as after a prune. */
  ghost predicate NoShards(st: Store) {
    forall k :: HashName(k) !in st
  }

  /** After a fully successful `PipeSetKeys(n)`, looking up any i below n gives back the decimal
      form of i, which parses to i; any other index reads what it read before. */
  lemma KeyRoundTrip(st: Store, n: nat)
    ensures forall i: Int64 :: 0 <= i < n ==>
      GetKey(Populated(KeyItem, st, n), i) == Ok(Format(i)) && Parse(GetKey(Populated(KeyItem, st, n), i).value) == Some(i)
    ensures forall i: Int64 :: !(0 <= i < n) ==> GetKey(Populated(KeyItem, st, n), i) == GetKey(st, i)
  {
    var r := Range(n);
    WriteKeys(st, r);
    forall i: Int64 | 0 <= i < n
      ensures GetKey(Populated(KeyItem, st, n), i) == Ok(Format(i))
      ensures Parse(Format(i)) == Some(i)
    {
      assert r[i] == i;
      FormatRoundTrip(i);
    }
    forall i: Int64 | !(0 <= i < n)
      ensures KeyName(i) !in KeyNames(r)
    {
      if KeyName(i) in KeyNames(r) {
        var j :| 0 <= j < |r| && KeyName(i) == KeyName(r[j]);
        KeyNameInjective(i, r[j]);
      }
    }
  }

  /** After a fully successful `PipeSetHashes(n)` into shards that held no plain string, looking up
      any i below n gives back the decimal form of i, which parses to i. */
  lemma HashRoundTrip(st: Store, n: nat)
    requires ShardsAcceptBelow(st, n)
    ensures forall i: Int64 :: 0 <= i < n ==>
      GetHash(Populated(HashItem, st, n), i) == Ok(Format(i)) && Parse(GetHash(Populated(HashItem, st, n), i).value) == Some(i)
    ensures forall i: Int64 :: !(0 <= i < n) ==> GetHash(Populated(HashItem, st, n), i) == GetHash(st, i)
  {
    var r := Range(n);
    assert NoStringShards(st, r) by {
      forall j | 0 <= j < |r| && HashShard(r[j]) in st ensures st[HashShard(r[j])].Hash? {
        assert r[j] == j;
      }
    }
    WriteHashes(st, r);
    WriteHashesFrame(st, r);
    forall i: Int64 | 0 <= i < n
      ensures GetHash(Populated(HashItem, st, n), i) == Ok(Format(i))
      ensures Parse(Format(i)) == Some(i)
    {
      assert r[i] == i;
      FormatRoundTrip(i);
    }
    forall i: Int64 | !(0 <= i < n)
      ensures (HashShard(i), FieldName(i)) !in ShardFields(r)
    {
      if (HashShard(i), FieldName(i)) in ShardFields(r) {
        var j :| 0 <= j < |r| && (HashShard(i), FieldName(i)) == (HashShard(r[j]), FieldName(r[j]));
        FieldNameInjective(i, r[j]);
      }
    }
  }

  /** Starting from a store with no shards, a field that `PipeSetHashes(n)` did not write into
      shard `hash_k` cannot be read from it. */
  lemma OtherShardFails(st: Store, n: nat, k: int, i: int)
    requires NoShards(st)
    requires !(0 <= i < n && ShardIndex(i) == k)
    ensures HGet(Populated(HashItem, st, n), HashName(k), FieldName(i)) == Err(Nil)
  {
    var r := Range(n);
    WriteHashesFrame(st, r);
    if (HashName(k), FieldName(i)) in ShardFields(r) {
      var j :| 0 <= j < |r| && (HashName(k), FieldName(i)) == (HashShard(r[j]), FieldName(r[j]));
      FieldNameInjective(i, r[j]);
      HashNameInjective(k, ShardIndex(i));
      assert false;
    }
  }

  /** Starting from a store with no shards, after `PipeSetHashes(n)` field `field_i` can be read
      from shard `hash_k` exactly when i is below n and k is i's shard: every other shard fails. */
  lemma HashOnlyViaOwnShard(st: Store, n: nat)
    requires NoShards(st)
    ensures forall k, i :: HGet(Populated(HashItem, st, n), HashName(k), FieldName(i)).Ok? <==>
      0 <= i < n && ShardIndex(i) == k
  {
    var r := Range(n);
    assert NoStringShards(st, r);
    WriteHashes(st, r);
    forall k, i
      ensures HGet(Populated(HashItem, st, n), HashName(k), FieldName(i)).Ok? <==> 0 <= i < n && ShardIndex(i) == k
    {
      if 0 <= i < n && ShardIndex(i) == k {
        assert r[i] == i;
      } else {
        OtherShardFails(st, n, k, i);
      }
    }
  }
}
