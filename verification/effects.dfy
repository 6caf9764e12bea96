/** What running the populate commands for a sequence of indices does to the store: the indices
    of a complete populate, or only those a faulty connection delivered. */
module Effects {
  import opened Wrappers
  import opened Decimal
  import opened Naming
  import opened Store
  import opened Populate

  /** The command `PipeSetKeys` issues for index `i`: `SET key_i i`. */
  function KeyItem(i: int): Command {
    Set(KeyName(i), Format(i))
  }

  /** The command `PipeSetHashes` issues for index `i`: `HSET hash_<i/1000> field_i i`. */
  function HashItem(i: int): Command {
    HSet(HashShard(i), FieldName(i), Format(i))
  }

  /** The key names that SET commands for `idx` write. */
  function KeyNames(idx: seq<int>): set<string> {
    set j | 0 <= j < |idx| :: KeyName(idx[j])
  }

  /** The shard names that HSET commands for `idx` write. */
  function ShardNames(idx: seq<int>): set<string> {
    set j | 0 <= j < |idx| :: HashShard(idx[j])
  }

  /** The (shard, field) pairs that HSET commands for `idx` write. */
  function ShardFields(idx: seq<int>): set<(string, string)> {
    set j | 0 <= j < |idx| :: (HashShard(idx[j]), FieldName(idx[j]))
  }

  /** No shard that `idx` writes to holds a plain string, so none of its HSETs is refused. */
  predicate NoStringShards(st: Store, idx: seq<int>) {
    forall j :: 0 <= j < |idx| && HashShard(idx[j]) in st ==> st[HashShard(idx[j])].Hash?
  }

  /** The names, places and value the commands for `idx` carry. */
  lemma CommandsShape(idx: seq<int>)
    ensures Keys(Commands(KeyItem, idx)) == KeyNames(idx)
    ensures Keys(Commands(HashItem, idx)) == ShardNames(idx)
    ensures AllHSet(Commands(HashItem, idx))
    ensures Fields(Commands(HashItem, idx)) == ShardFields(idx)
  {
    var ck := Commands(KeyItem, idx);
    var ch := Commands(HashItem, idx);
    assert forall j :: 0 <= j < |idx| ==>
      ck[j].key == KeyName(idx[j]) && ch[j].key == HashShard(idx[j]) && ch[j].field == FieldName(idx[j]);
  }

  /** SETs for `idx` leave every key they name holding its index, answer OK each time, and leave
      every other key as it was. */
  lemma WriteKeys(st: Store, idx: seq<int>)
    ensures forall j :: 0 <= j < |idx| ==>
      Get(ApplyAll(st, Commands(KeyItem, idx)).0, KeyName(idx[j])) == Ok(Format(idx[j]))
    ensures forall j :: 0 <= j < |idx| ==> ApplyAll(st, Commands(KeyItem, idx)).1[j] == Status("OK")
    ensures forall key :: key !in KeyNames(idx) ==> SameEntry(st, ApplyAll(st, Commands(KeyItem, idx)).0, key)
  {
    var cmds := Commands(KeyItem, idx);
    CommandsShape(idx);
    forall j, j' | 0 <= j < |cmds| && 0 <= j' < |cmds| && SamePlace(cmds[j], cmds[j'])
      ensures cmds[j].value == cmds[j'].value
    {
      KeyNameInjective(idx[j], idx[j']);
    }
    WriteValues(st, cmds);
  }

  /** HSETs for `idx` leave every shard they do not name, and every (shard, field) pair they do
      not name, as it was, whether or not some of them are refused. */
  lemma WriteHashesFrame(st: Store, idx: seq<int>)
    ensures forall h, f :: (h, f) !in ShardFields(idx) ==>
      HGet(ApplyAll(st, Commands(HashItem, idx)).0, h, f) == HGet(st, h, f)
    ensures forall key :: key !in ShardNames(idx) ==> SameEntry(st, ApplyAll(st, Commands(HashItem, idx)).0, key)
  {
    CommandsShape(idx);
    FieldsFrame(st, Commands(HashItem, idx));
  }

  /** HSETs for `idx` into shards that hold no plain string leave each field they name holding its
      index, and none of them is refused. */
  lemma WriteHashes(st: Store, idx: seq<int>)
    requires NoStringShards(st, idx)
    ensures forall j :: 0 <= j < |idx| ==>
      HGet(ApplyAll(st, Commands(HashItem, idx)).0, HashShard(idx[j]), FieldName(idx[j])) == Ok(Format(idx[j]))
    ensures forall j :: 0 <= j < |idx| ==> !ApplyAll(st, Commands(HashItem, idx)).1[j].ErrorReply?
  {
    var cmds := Commands(HashItem, idx);
    CommandsShape(idx);
    forall j, j' | 0 <= j < |cmds| && 0 <= j' < |cmds| && SamePlace(cmds[j], cmds[j'])
      ensures cmds[j].value == cmds[j'].value
    {
      FieldNameInjective(idx[j], idx[j']);
    }
    assert AcceptsHSets(st, cmds);
    WriteFields(st, cmds);
  }
}
