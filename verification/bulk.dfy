/** `PipeSetKeys` and `PipeSetHashes`: the pipelined populate of `PipeSet`, with what each one
    leaves in the store. */
module Bulk {
  import opened Wrappers
  import opened GoInt
  import opened Decimal
  import opened Naming
  import opened Store
  import opened Client
  import opened Populate
  import opened Effects

  /** No shard of an index below `n` holds a plain string, so none of the populate's HSETs is refused. */
  predicate ShardsAcceptBelow(st: Store, n: nat) {
    forall i :: 0 <= i < n && HashShard(i) in st ==> st[HashShard(i)].Hash?
  }

  /** Every delivered index is below `n`, so its name is among the names of the whole range. */
  lemma DeliveredNames(n: nat, faults: Faults)
    ensures KeyNames(Delivered(n, faults)) <= KeyNames(Range(n))
    ensures ShardNames(Delivered(n, faults)) <= ShardNames(Range(n))
    ensures forall i :: 0 <= i < n && i !in Delivered(n, faults) ==> KeyName(i) !in KeyNames(Delivered(n, faults))
    ensures forall i :: 0 <= i < n && i !in Delivered(n, faults) ==>
      (HashShard(i), FieldName(i)) !in ShardFields(Delivered(n, faults))
  {
    var d := Delivered(n, faults);
    var r := Range(n);
    forall key | key in KeyNames(d) ensures key in KeyNames(r) {
      var j :| 0 <= j < |d| && key == KeyName(d[j]);
      assert r[d[j]] == d[j];
    }
    forall key | key in ShardNames(d) ensures key in ShardNames(r) {
      var j :| 0 <= j < |d| && key == HashShard(d[j]);
      assert r[d[j]] == d[j];
    }
    forall i | 0 <= i < n && i !in d ensures KeyName(i) !in KeyNames(d) {
      if KeyName(i) in KeyNames(d) {
        var j :| 0 <= j < |d| && KeyName(i) == KeyName(d[j]);
        KeyNameInjective(i, d[j]);
      }
    }
    forall i | 0 <= i < n && i !in d ensures (HashShard(i), FieldName(i)) !in ShardFields(d) {
      if (HashShard(i), FieldName(i)) in ShardFields(d) {
        var j :| 0 <= j < |d| && (HashShard(i), FieldName(i)) == (HashShard(d[j]), FieldName(d[j]));
        FieldNameInjective(i, d[j]);
      }
    }
  }

  /** `PipeSetKeys(totalKeys)`: `SET key_i i` for every i from 0 to totalKeys-1. */
  method PipeSetKeys(st: Store, totalKeys: Int64, faults: Faults) returns (st': Store, ops: seq<Op>)
    ensures |ops| == 2 * Count(totalKeys) + 1
    ensures forall i :: 0 <= i < Count(totalKeys) ==>
      ops[i] == SendOp(Set(KeyName(i), Format(i)), i !in faults.sendFails)
    ensures ops[Count(totalKeys)] == FlushOp(!faults.flushFails)
    ensures forall j :: Count(totalKeys) < j < |ops| ==> ops[j].ReceiveOp?
    ensures forall j :: 0 <= j < Count(totalKeys) && j in faults.receiveFails ==> !ops[Count(totalKeys) + 1 + j].ok
    ensures forall i :: i in Delivered(Count(totalKeys), faults) ==> Get(st', KeyName(i)) == Ok(Format(i))
    ensures forall i :: 0 <= i < Count(totalKeys) && i !in Delivered(Count(totalKeys), faults) ==>
      SameEntry(st, st', KeyName(i))
    ensures forall key :: key !in KeyNames(Range(Count(totalKeys))) ==> SameEntry(st, st', key)
    ensures faults == NoFaults ==> st' == Populated(KeyItem, st, Count(totalKeys))
    ensures faults == NoFaults ==> forall i :: 0 <= i < Count(totalKeys) ==> Get(st', KeyName(i)) == Ok(Format(i))
    ensures faults == NoFaults ==> forall j :: 0 <= j < |ops| ==> ops[j].ok
  {
    var n := Count(totalKeys);
    st', ops := PipeSet(KeyItem, st, totalKeys, faults);
    var d := Delivered(n, faults);
    WriteKeys(st, d);
    DeliveredNames(n, faults);
    forall i | i in d ensures Get(st', KeyName(i)) == Ok(Format(i)) {
      var j :| 0 <= j < |d| && d[j] == i;
    }
    if faults == NoFaults {
      DeliveredAll(n);
      assert forall i :: 0 <= i < n ==> i in d by {
        forall i | 0 <= i < n ensures i in d {
          assert d[i] == i;
        }
      }
    }
  }

  /** What the delivered HSETs leave in the store. */
  lemma HashesOutcome(st: Store, n: nat, faults: Faults)
    ensures var st' := Outcome(HashItem, st, n, faults).0;
      ShardsAcceptBelow(st, n) ==> forall i :: i in Delivered(n, faults) ==>
        HGet(st', HashShard(i), FieldName(i)) == Ok(Format(i))
    ensures var st' := Outcome(HashItem, st, n, faults).0;
      forall i :: 0 <= i < n && i !in Delivered(n, faults) ==>
        HGet(st', HashShard(i), FieldName(i)) == HGet(st, HashShard(i), FieldName(i))
    ensures var st' := Outcome(HashItem, st, n, faults).0;
      forall h, f :: (h, f) !in ShardFields(Range(n)) ==> HGet(st', h, f) == HGet(st, h, f)
    ensures var st' := Outcome(HashItem, st, n, faults).0;
      forall key :: key !in ShardNames(Range(n)) ==> SameEntry(st, st', key)
    ensures ShardsAcceptBelow(st, n) ==> NoErrorReplies(Outcome(HashItem, st, n, faults).1)
  {
    var d := Delivered(n, faults);
    WriteHashesFrame(st, d);
    DeliveredNames(n, faults);
    assert ShardFields(d) <= ShardFields(Range(n)) by {
      forall p | p in ShardFields(d) ensures p in ShardFields(Range(n)) {
        var j :| 0 <= j < |d| && p == (HashShard(d[j]), FieldName(d[j]));
        assert Range(n)[d[j]] == d[j];
      }
    }
    if ShardsAcceptBelow(st, n) {
      WriteHashes(st, d);
      var st' := Outcome(HashItem, st, n, faults).0;
      forall i | i in d ensures HGet(st', HashShard(i), FieldName(i)) == Ok(Format(i)) {
        var j :| 0 <= j < |d| && d[j] == i;
      }
    }
  }

  /** `PipeSetHashes(totalKeys)`: `HSET hash_<i/1000> field_i i` for every i from 0 to totalKeys-1. */
  method PipeSetHashes(st: Store, totalKeys: Int64, faults: Faults) returns (st': Store, ops: seq<Op>)
    ensures |ops| == 2 * Count(totalKeys) + 1
    ensures forall i :: 0 <= i < Count(totalKeys) ==>
      ops[i] == SendOp(HSet(HashShard(i), FieldName(i), Format(i)), i !in faults.sendFails)
    ensures ops[Count(totalKeys)] == FlushOp(!faults.flushFails)
    ensures forall j :: Count(totalKeys) < j < |ops| ==> ops[j].ReceiveOp?
    ensures forall j :: 0 <= j < Count(totalKeys) && j in faults.receiveFails ==> !ops[Count(totalKeys) + 1 + j].ok
    ensures ShardsAcceptBelow(st, Count(totalKeys)) ==> forall i :: i in Delivered(Count(totalKeys), faults) ==>
      HGet(st', HashShard(i), FieldName(i)) == Ok(Format(i))
    ensures forall i :: 0 <= i < Count(totalKeys) && i !in Delivered(Count(totalKeys), faults) ==>
      HGet(st', HashShard(i), FieldName(i)) == HGet(st, HashShard(i), FieldName(i))
    ensures forall h, f :: (h, f) !in ShardFields(Range(Count(totalKeys))) ==> HGet(st', h, f) == HGet(st, h, f)
    ensures forall key :: key !in ShardNames(Range(Count(totalKeys))) ==> SameEntry(st, st', key)
    ensures faults == NoFaults ==> st' == Populated(HashItem, st, Count(totalKeys))
    ensures faults == NoFaults && ShardsAcceptBelow(st, Count(totalKeys)) ==>
      forall i :: 0 <= i < Count(totalKeys) ==> HGet(st', HashShard(i), FieldName(i)) == Ok(Format(i))
    ensures faults == NoFaults && ShardsAcceptBelow(st, Count(totalKeys)) ==> forall j :: 0 <= j < |ops| ==> ops[j].ok
  {
    var n := Count(totalKeys);
    st', ops := PipeSet(HashItem, st, totalKeys, faults);
    HashesOutcome(st, n, faults);
    if faults == NoFaults {
      var d := Delivered(n, faults);
      DeliveredAll(n);
      assert forall i :: 0 <= i < n ==> i in d by {
        forall i | 0 <= i < n ensures i in d {
          assert d[i] == i;
        }
      }
    }
  }
}
