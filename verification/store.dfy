/** The key-value store the populate and lookup code talks to, reduced to the commands it issues:
    SET, HSET, GET and HGET. Plain values and hashes share one keyspace. */
module Store {
  import opened Wrappers

  /** What a key holds: a plain string, or a hash from field names to strings. */
  datatype Entry = Str(value: string) | Hash(fields: map<string, string>)

  type Store = map<string, Entry>

  datatype Command =
    | Set(key: string, value: string)
    | HSet(key: string, field: string, value: string)

  /** The store's answer to one command: a status line, the number of fields HSET added, or an error. */
  datatype Reply = Status(text: string) | Added(count: nat) | ErrorReply(message: string)

  /** Why a read gave no value: the key or field is absent (the client's nil reply), or the key
      holds the other kind of entry. */
  datatype ReadError = Nil | WrongType

  const WrongTypeMessage: string := "WRONGTYPE Operation against a key holding the wrong kind of value"

  /** GET, as read back through the client's string conversion. */
  function Get(st: Store, key: string): Result<string, ReadError> {
    if key !in st then Err(Nil)
    else match st[key]
      case Str(v) => Ok(v)
      case Hash(_) => Err(WrongType)
  }

  /** HGET, as read back through the client's string conversion. */
  function HGet(st: Store, key: string, field: string): Result<string, ReadError> {
    if key !in st then Err(Nil)
    else match st[key]
      case Str(_) => Err(WrongType)
      case Hash(fs) => if field in fs then Ok(fs[field]) else Err(Nil)
  }

  /** True when `st` and `st'` hold the same entry (or none) under `key`. */
  predicate SameEntry(st: Store, st': Store, key: string) {
    (key in st <==> key in st') && (key in st ==> st[key] == st'[key])
  }

  /** Runs one command. SET replaces whatever the key held; HSET on a key that holds a plain
      string is refused and changes nothing. */
  function Exec(st: Store, cmd: Command): (r: (Store, Reply))
    ensures cmd.Set? ==> Get(r.0, cmd.key) == Ok(cmd.value) && r.1 == Status("OK")
    ensures cmd.HSet? && !(cmd.key in st && st[cmd.key].Str?) ==>
      HGet(r.0, cmd.key, cmd.field) == Ok(cmd.value) && r.1.Added?
    ensures cmd.HSet? && cmd.key in st && st[cmd.key].Str? ==> r.0 == st && r.1.ErrorReply?
    ensures forall key :: key != cmd.key ==> SameEntry(st, r.0, key)
    ensures cmd.HSet? ==> forall f :: f != cmd.field ==> HGet(r.0, cmd.key, f) == HGet(st, cmd.key, f)
  {
    match cmd
    case Set(k, v) => (st[k := Str(v)], Status("OK"))
    case HSet(k, f, v) =>
      if k !in st then (st[k := Hash(map[f := v])], Added(1))
      else match st[k]
        case Str(_) => (st, ErrorReply(WrongTypeMessage))
        case Hash(fs) => (st[k := Hash(fs[f := v])], Added(if f in fs then 0 else 1))
  }

  /** The keys a sequence of commands names. */
  function Keys(cmds: seq<Command>): set<string> {
    set j | 0 <= j < |cmds| :: cmds[j].key
  }

  /** Runs commands in order, collecting one reply per command. */
  function ApplyAll(st: Store, cmds: seq<Command>): (r: (Store, seq<Reply>))
    ensures |r.1| == |cmds|
    ensures forall key :: key !in Keys(cmds) ==> SameEntry(st, r.0, key)
    decreases |cmds|
  {
    if |cmds| == 0 then (st, [])
    else
      var init := ApplyAll(st, cmds[..|cmds| - 1]);
      var last := Exec(init.0, cmds[|cmds| - 1]);
      assert forall key :: key !in Keys(cmds) ==> key !in Keys(cmds[..|cmds| - 1]) && key != cmds[|cmds| - 1].key;
      (last.0, init.1 + [last.1])
  }

  /** Every command in `cmds` is an HSET. */
  predicate AllHSet(cmds: seq<Command>) {
    forall j :: 0 <= j < |cmds| ==> cmds[j].HSet?
  }

  /** Whether two commands write the same place: the same key for two SETs, the same key and
      field for two HSETs. */
  predicate SamePlace(a: Command, b: Command) {
    a.key == b.key &&
    match a
    case Set(_, _) => b.Set?
    case HSet(_, f, _) => b.HSet? && b.field == f
  }

  /** Commands that write the same place write the same value. */
  predicate Consistent(cmds: seq<Command>) {
    forall j, j' :: 0 <= j < |cmds| && 0 <= j' < |cmds| && SamePlace(cmds[j], cmds[j']) ==>
      cmds[j].value == cmds[j'].value
  }

  /** No HSET in `cmds` targets a key that holds a plain string in `st`. */
  predicate AcceptsHSets(st: Store, cmds: seq<Command>) {
    forall j :: 0 <= j < |cmds| && cmds[j].HSet? && cmds[j].key in st ==> st[cmds[j].key].Hash?
  }

  /** The (key, field) pairs the HSETs in `cmds` write. */
  function Fields(cmds: seq<Command>): set<(string, string)>
    requires AllHSet(cmds)
  {
    set j | 0 <= j < |cmds| :: (cmds[j].key, cmds[j].field)
  }

  lemma ApplyAllStep(st: Store, cmds: seq<Command>)
    requires |cmds| > 0
    ensures var before := ApplyAll(st, cmds[..|cmds| - 1]);
      var last := Exec(before.0, cmds[|cmds| - 1]);
      ApplyAll(st, cmds) == (last.0, before.1 + [last.1])
  {
  }

  /** A consistent run of SETs leaves each key it names holding that key's value, and answers OK
      to each. */
  lemma {:induction false} WriteValues(st: Store, cmds: seq<Command>)
    requires forall j :: 0 <= j < |cmds| ==> cmds[j].Set?
    requires Consistent(cmds)
    ensures forall j :: 0 <= j < |cmds| ==> Get(ApplyAll(st, cmds).0, cmds[j].key) == Ok(cmds[j].value)
    ensures forall j :: 0 <= j < |cmds| ==> ApplyAll(st, cmds).1[j] == Status("OK")
    decreases |cmds|
  {
    if |cmds| > 0 {
      var m := |cmds| - 1;
      var init := cmds[..m];
      WriteValues(st, init);
      ApplyAllStep(st, cmds);
      var before := ApplyAll(st, init).0;
      forall j | 0 <= j < m
        ensures Get(ApplyAll(st, cmds).0, cmds[j].key) == Ok(cmds[j].value)
      {
        assert init[j] == cmds[j];
        if cmds[j].key != cmds[m].key {
          assert SameEntry(before, Exec(before, cmds[m]).0, cmds[j].key);
        }
      }
    }
  }

  /** An HSET leaves every other (key, field) pair as it was. */
  lemma HSetKeepsOthers(st: Store, cmd: Command, key: string, field: string)
    requires cmd.HSet?
    requires (key, field) != (cmd.key, cmd.field)
    ensures HGet(Exec(st, cmd).0, key, field) == HGet(st, key, field)
  {
    if key != cmd.key {
      assert SameEntry(st, Exec(st, cmd).0, key);
    }
  }

  /** A run of HSETs leaves every (key, field) pair it does not name as it was, even when some of
      them are refused. */
  lemma {:induction false} FieldsFrame(st: Store, cmds: seq<Command>)
    requires AllHSet(cmds)
    ensures forall key, field :: (key, field) !in Fields(cmds) ==>
      HGet(ApplyAll(st, cmds).0, key, field) == HGet(st, key, field)
    decreases |cmds|
  {
    if |cmds| > 0 {
      var m := |cmds| - 1;
      var init := cmds[..m];
      assert AllHSet(init);
      FieldsFrame(st, init);
      ApplyAllStep(st, cmds);
      forall key, field | (key, field) !in Fields(cmds)
        ensures HGet(ApplyAll(st, cmds).0, key, field) == HGet(st, key, field)
      {
        assert (key, field) !in Fields(init);
        assert (key, field) != (cmds[m].key, cmds[m].field);
        HSetKeepsOthers(ApplyAll(st, init).0, cmds[m], key, field);
      }
    }
  }

  /** A consistent run of HSETs, none of them aimed at a plain string, leaves each field it names
      holding that field's value, and none of them is refused. */
  lemma {:induction false} WriteFields(st: Store, cmds: seq<Command>)
    requires AllHSet(cmds)
    requires Consistent(cmds)
    requires AcceptsHSets(st, cmds)
    ensures forall j :: 0 <= j < |cmds| ==>
      HGet(ApplyAll(st, cmds).0, cmds[j].key, cmds[j].field) == Ok(cmds[j].value)
    ensures forall j :: 0 <= j < |cmds| ==> !ApplyAll(st, cmds).1[j].ErrorReply?
    decreases |cmds|
  {
    if |cmds| > 0 {
      var m := |cmds| - 1;
      var init := cmds[..m];
      assert forall j :: 0 <= j < m ==> init[j] == cmds[j];
      WriteFields(st, init);
      ApplyAllStep(st, cmds);
      var before := ApplyAll(st, init).0;
      var key := cmds[m].key;
      assert !(key in before && before[key].Str?) by {
        if key in Keys(init) {
          var j :| 0 <= j < m && key == init[j].key;
          assert HGet(before, init[j].key, init[j].field).Ok?;
        } else {
          assert SameEntry(st, before, key);
        }
      }
      forall j | 0 <= j < m
        ensures HGet(ApplyAll(st, cmds).0, cmds[j].key, cmds[j].field) == Ok(cmds[j].value)
      {
        if (cmds[j].key, cmds[j].field) != (key, cmds[m].field) {
          HSetKeepsOthers(before, cmds[m], cmds[j].key, cmds[j].field);
        }
      }
      forall j | 0 <= j < m ensures !ApplyAll(st, cmds).1[j].ErrorReply? {
        assert ApplyAll(st, cmds).1[j] == ApplyAll(st, init).1[j];
      }
    }
  }
}
