/** The names the populate and lookup code formats (`key_%d`, `hash_%d`, `field_%d`) and the
    hash-sharding function `getHashShard`. */
module Naming {
  import opened GoInt
  import opened Decimal

  const KeyPrefix: string := "key_"
  const HashPrefix: string := "hash_"
  const FieldPrefix: string := "field_"

  /** Number of field indices that share one hash shard. */
  const MaxFieldPerHash: int := 1000

  function KeyName(i: int): string {
    KeyPrefix + Format(i)
  }

  function HashName(k: int): string {
    HashPrefix + Format(k)
  }

  function FieldName(i: int): string {
    FieldPrefix + Format(i)
  }

  /** The shard number of a field index: Go's truncating quotient by the shard capacity. */
  function ShardIndex(fieldID: int): int {
    TruncDiv(fieldID, MaxFieldPerHash)
  }

  /** `getHashShard`: the name of the hash that holds field `fieldID`. */
  function HashShard(fieldID: int): string {
    HashName(ShardIndex(fieldID))
  }

  lemma PrefixCancel(p: string, x: string, y: string)
    ensures p + x == p + y <==> x == y
  {
    if p + x == p + y {
      assert x == (p + x)[|p|..];
      assert y == (p + y)[|p|..];
    }
  }

  lemma KeyNameInjective(a: int, b: int)
    ensures KeyName(a) == KeyName(b) <==> a == b
  {
    PrefixCancel(KeyPrefix, Format(a), Format(b));
    FormatInjective(a, b);
  }

  lemma HashNameInjective(a: int, b: int)
    ensures HashName(a) == HashName(b) <==> a == b
  {
    PrefixCancel(HashPrefix, Format(a), Format(b));
    FormatInjective(a, b);
  }

  lemma FieldNameInjective(a: int, b: int)
    ensures FieldName(a) == FieldName(b) <==> a == b
  {
    PrefixCancel(FieldPrefix, Format(a), Format(b));
    FormatInjective(a, b);
  }

  /** Plain keys and hash shards live in one keyspace but never collide, so populating keys
      cannot clobber a shard and populating hashes cannot clobber a key. */
  lemma KeyAndHashNamesDisjoint(i: int, k: int)
    ensures KeyName(i) != HashName(k)
  {
    assert KeyName(i)[0] == 'k';
    assert HashName(k)[0] == 'h';
  }

  /** For a non-negative index, shard `k` is exactly the block `[1000k, 1000k + 999]`. */
  lemma ShardBlock(i: int, k: int)
    requires i >= 0
    ensures ShardIndex(i) == k <==> MaxFieldPerHash * k <= i < MaxFieldPerHash * k + MaxFieldPerHash
  {
  }

  /** Named form of `ShardBlock`: `getHashShard(i)` is `hash_k` exactly when i is in block k. */
  lemma HashShardBlock(i: int, k: int)
    requires i >= 0
    ensures HashShard(i) == HashName(k) <==> MaxFieldPerHash * k <= i < MaxFieldPerHash * k + MaxFieldPerHash
  {
    HashNameInjective(ShardIndex(i), k);
    ShardBlock(i, k);
  }

  /** The boundary cases: 0 and 999 share `hash_0`, 1000 opens `hash_1`, and `1000k` opens `hash_k`. */
  lemma ShardBoundaries(k: nat)
    ensures HashShard(0) == HashShard(999) == HashPrefix + "0"
    ensures HashShard(1000) == HashPrefix + "1"
    ensures HashShard(MaxFieldPerHash * k) == HashName(k)
  {
    assert Format(0) == "0";
    assert Format(1) == "1";
    ShardBlock(MaxFieldPerHash * k, k);
  }

  /** Because Go truncates, shard 0 straddles zero: every index from -999 to 999 maps to `hash_0`
      (so -999 goes to `hash_0`, where floor division would give `hash_-1`), and `hash_-1` takes
      the next 1000 indices below that, from -1000 down to -1999. */
  lemma NegativeShards(i: int)
    requires -MaxFieldPerHash < i < MaxFieldPerHash
    ensures HashShard(i) == HashShard(0)
    ensures HashShard(i - MaxFieldPerHash) == HashName(-1) <==> i <= 0
  {
    if i <= 0 {
      assert ShardIndex(i - MaxFieldPerHash) == -1;
    } else {
      HashNameInjective(ShardIndex(i - MaxFieldPerHash), -1);
    }
  }

  /** The indices below `n` that a populate of `n` fields writes into shard `k`. */
  function ShardIndices(n: int, k: int): set<int> {
    set i | 0 <= i < n && ShardIndex(i) == k
  }

  lemma {:induction false} ShardIndicesSize(n: int, k: int)
    ensures |ShardIndices(n, k)| <= Min(MaxFieldPerHash, Max(0, n - MaxFieldPerHash * k))
    decreases Max(n, 0)
  {
    if n <= 0 {
      assert ShardIndices(n, k) == {};
    } else {
      ShardIndicesSize(n - 1, k);
      ShardBlock(n - 1, k);
      if ShardIndex(n - 1) == k {
        assert ShardIndices(n, k) == ShardIndices(n - 1, k) + {n - 1};
      } else {
        assert ShardIndices(n, k) == ShardIndices(n - 1, k);
      }
    }
  }

  /** Each shard receives a contiguous block of indices, and never more than `MaxFieldPerHash` of them. */
  lemma ShardCapacity(n: int, k: int)
    ensures forall i :: i in ShardIndices(n, k) <==>
      0 <= i < n && MaxFieldPerHash * k <= i < MaxFieldPerHash * k + MaxFieldPerHash
    ensures |ShardIndices(n, k)| <= MaxFieldPerHash
  {
    forall i | 0 <= i
      ensures ShardIndex(i) == k <==> MaxFieldPerHash * k <= i < MaxFieldPerHash * k + MaxFieldPerHash
    {
      ShardBlock(i, k);
    }
    ShardIndicesSize(n, k);
  }
}
