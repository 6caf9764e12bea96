# Pipelined bulk population and hash sharding, modelled in Dafny

This project models the one piece of original logic in a small HTTP proxy over a Redis store
(`main.go`): the two bulk writers `PipeSetKeys` and `PipeSetHashes`, the sharding function
`getHashShard`, and the store lookups of the read handlers `handlerGetKey` and `handlerGetHash`.

- **Names.** `key_%d`, `hash_%d` and `field_%d` are built with a decimal formatter
  (`Decimal.Format`, Go's `%d`). A parser inverts it, so the formatter is injective, and so are
  the three name builders (`Naming`).
- **Sharding.** `getHashShard(i)` names the hash `hash_<i / 1000>`, where `/` is Go's division,
  truncated toward zero (`GoInt.TruncDiv`). This matters on the read path, which accepts any
  parsed 64-bit integer, negative ones included.
- **Store.** One keyspace maps each key to a plain string or a hash of fields (`Store`). The
  model uses the four commands the code issues: SET, HSET, GET and HGET. SET replaces whatever
  the key held. HSET against a key holding a plain string is refused with an error reply and
  changes nothing. That is the only refusal modelled: the server is assumed to accept every other
  command (see "Left out").
- **Connection.** The pipelined connection is an abstract contract (`Client`):
  - Send buffers a command.
  - Flush hands the buffer to the store, which runs it in order and queues one reply per command.
  - Receive takes the next reply.
  
  Whether a call fails is an input (`Populate.Faults`): the iterations whose Send fails, where
  the connection drops during the Flush (so later commands never reach the store), whether the
  Flush reports an error, and the iterations whose Receive fails. The Flush's report and the
  delivery are independent: a Flush that reports no error may still lose commands, and one that
  reports an error may have delivered them all.
- **Bulk writers.** `Populate.PipeSet` follows the source's shape exactly: one Send per index, one
  Flush, then one Receive per index. The two writers differ only in the command they send for an
  index (`Effects.KeyItem`, `Effects.HashItem`), which `PipeSet` takes as a
  parameter. It returns the store it leaves and a trace of every call with its success flag. The trace is recorded where the source writes a log line, and no
  failure stops the later iterations. `Bulk.PipeSetKeys` and `Bulk.PipeSetHashes` add what each
  writer leaves in the store, with and without faults.
- **Read/write agreement.** `Lookup` proves the round trip. After a fully successful populate of
  N, the lookup of any i below N returns the decimal form of i, which parses back to i. Starting
  from a store with no shards (as after a prune), a field can be read only through its own shard.

For non-negative indices the shard is floor(i / 1000). For negative ones, Go's truncating `/`
makes indices -999 to 999 all share `hash_0` (`Naming.NegativeShards`).

## Model

| member | source | states |
|---|---|---|
| `GoInt.TruncDivRemainder` | main.go:316 | Go's quotient leaves a remainder that takes the dividend's sign and is smaller than the divisor |
| `Decimal.NatDigits` | main.go:23-25 | the `%d` digits of a natural number are non-empty, all decimal digits, and start with 0 only for 0 |
| `Decimal.DigitsRoundTrip` | main.go:23-25 | reading back the digits of n gives n |
| `Decimal.FormatRoundTrip` | main.go:23-25 | parsing the `%d` form of any integer, negative included, gives the integer back |
| `Decimal.FormatInjective` | main.go:23-25 | two integers have the same `%d` form exactly when they are equal |
| `Naming.KeyNameInjective` | main.go:23 | `key_%d` names of two indices coincide exactly when the indices do |
| `Naming.HashNameInjective` | main.go:24 | `hash_%d` names of two shard numbers coincide exactly when the numbers do |
| `Naming.FieldNameInjective` | main.go:25 | `field_%d` names of two indices coincide exactly when the indices do |
| `Naming.KeyAndHashNamesDisjoint` | main.go:23-24 | no `key_` name is ever a `hash_` name, so the two writers never overwrite each other's keys |
| `Naming.ShardBlock` | main.go:313-316 | for i >= 0 the shard number is k exactly when 1000k <= i <= 1000k+999 |
| `Naming.HashShardBlock` | main.go:313-317 | for i >= 0, `getHashShard(i)` is `hash_k` exactly when i lies in block k |
| `Naming.ShardBoundaries` | main.go:313-317 | 0 and 999 go to `hash_0`, 1000 goes to `hash_1`, and 1000k goes to `hash_k` |
| `Naming.NegativeShards` | main.go:313-317 | every index from -999 to 999 goes to `hash_0`; for i in (-1000, 1000), i-1000 goes to `hash_-1` exactly when i <= 0 |
| `Naming.ShardIndicesSize` | main.go:314-316 | at most min(1000, n - 1000k) of the indices below n fall into shard k |
| `Naming.ShardCapacity` | main.go:314-316 | the indices below n in shard k are exactly the contiguous block [1000k, 1000k+999] cut at n, and there are at most 1000 of them |
| `Store.Exec` | main.go:93-120 | SET makes GET return the value and is always accepted (the store is assumed to refuse nothing else); HSET makes HGET of that field return the value unless the key holds a plain string, in which case it is refused and changes nothing; no other key changes, and HSET changes no other field of its hash |
| `Store.ApplyAll` | main.go:158-168 | running commands in order gives one reply per command and leaves every key no command names as it was |
| `Store.WriteValues` | main.go:148-151 | a run of SETs that never gives one key two values leaves each key holding its value, with an OK reply for each |
| `Store.HSetKeepsOthers` | main.go:117 | an HSET leaves every other (key, field) pair reading as before |
| `Store.FieldsFrame` | main.go:180-184 | a run of HSETs leaves every (key, field) pair it does not name reading as before, refused or not |
| `Store.WriteFields` | main.go:180-184 | a consistent run of HSETs, none aimed at a plain string, leaves each field holding its value and none is refused |
| `Populate.EnqueuedMembers` | main.go:148-156 | the commands buffered by the send loop are exactly those of the indices below N whose Send did not fail |
| `Populate.EnqueuedAll` | main.go:148-151 | when no Send fails, the indices 0..N-1 are buffered in order |
| `Populate.Delivered` | main.go:148-161 | the commands that reach the store are of indices below N whose Send succeeded; when the connection does not drop during the Flush, all of them |
| `Populate.DeliveredAll` | main.go:148-161 | with no faults, exactly the indices 0..N-1 reach the store, in order |
| `Populate.SendStep` | main.go:151-155 | one Send appends the index's command to the buffer exactly when it does not fail, and reports whether it failed |
| `Populate.FlushOutcome` | main.go:158-161 | the single Flush empties the buffer, runs the delivered commands in order against the store and queues their replies; it reports success exactly when the Flush reports no error, whatever was delivered |
| `Populate.ReceiveStep` | main.go:163-166 | one Receive takes the next queued reply, if any, and succeeds exactly when that reply exists, reading it did not fail and it is not an error |
| `Populate.SendAll` | main.go:148-156 | the send loop makes exactly max(N,0) Sends, the i-th being the command of index i, and buffers the ones that succeed in order; a failed Send is recorded and the loop continues |
| `Populate.ReceiveAll` | main.go:163-168 | the drain loop makes exactly max(N,0) Receives whatever failed before; the j-th succeeds exactly when a j-th reply exists, reading it did not fail, and it is not an error |
| `Populate.PipeSet` | main.go:143-172 | max(N,0) Sends in index order, then one Flush, then exactly as many Receives as Sends; the store ends as if the delivered commands ran in order; a failed read is recorded as a failure; with no faults and no refused command every call succeeds |
| `Effects.WriteKeys` | main.go:148-151 | SETs for any sequence of indices leave each `key_i` reading i with an OK reply, and every other key unchanged |
| `Effects.WriteHashesFrame` | main.go:180-184 | HSETs for any sequence of indices leave every shard they do not name, and every (shard, field) pair they do not name, unchanged |
| `Effects.WriteHashes` | main.go:180-184 | HSETs for any sequence of indices into shards holding no plain string leave `field_i` of `getHashShard(i)` reading i, none refused |
| `Bulk.HashesOutcome` | main.go:180-201 | under any faults, each delivered field reads its index (given no string shards), each undelivered one reads as before, and every shard or field outside the populate is unchanged |
| `Bulk.PipeSetKeys` | main.go:143-172 | sends `SET key_i i` for i = 0..N-1 in order, flushes once and receives as many times. Each delivered key reads i and each undelivered one is unchanged, as is every key outside the populate. With no faults the store maps every `key_i` to i and every call succeeds |
| `Bulk.PipeSetHashes` | main.go:175-205 | sends `HSET getHashShard(i) field_i i` for i = 0..N-1 in order, flushes once and receives as many times. Delivered fields read i in shards that held no string; other fields and shards are unchanged. With no faults every field reads its index and every call succeeds |
| `Lookup.KeyRoundTrip` | main.go:243 | the read path formats the key as the writer does (main.go:149): after a full populate of N, the lookup of any i below N returns i's decimal form, which parses to i; other indices read as before |
| `Lookup.HashRoundTrip` | main.go:262-264 | the read path computes shard and field as the writer does (main.go:181-182): after a full hash populate of N, the lookup of any i below N returns i, and other indices, negative ones included, read as before |
| `Lookup.OtherShardFails` | main.go:262-264 | from a store with no shards, a field the populate did not put in shard k reads as missing there |
| `Lookup.HashOnlyViaOwnShard` | main.go:262-264 | from a store with no shards, after a hash populate of N, `field_i` can be read from `hash_k` exactly when 0 <= i < N and k is i's shard number |

## Left out

- HTTP routing, JSON decoding and encoding, CORS headers and status codes (`registerRoutes`,
  `writeRespone`, the handlers' request and response handling): plumbing over `net/http`.
  Only the store lookups of `handlerGetKey` and `handlerGetHash` are modelled (`Lookup.GetKey`,
  `Lookup.GetHash`).
- Connection pool configuration and dialing (`NewRedisObject`): timeouts and pool limits inside
  the client library.
- The single-shot wrappers `Set`, `Get`, `HSet`, `HGet`, `Prune` and `testConnection`: one-line
  pass-throughs to the client. SET, HSET, GET and HGET appear only as the store operations the
  model assumes (`Store.Exec`, `Store.Get`, `Store.HGet`). FLUSHALL and PING are not modelled.
- Concurrent requests: the store is assumed not to be written by any other request (a prune's
  FLUSHALL, or another populate on a different pooled connection) from a populate's first Send
  to its last Receive. `http.ListenAndServe` serves requests concurrently, so without that
  assumption the store facts of `Bulk.PipeSetKeys` and `Bulk.PipeSetHashes` need not hold.
- The unsynchronised global `totalKeys` written by the populate handlers: it has no effect on the
  populate logic.
- `strconv.ParseInt`: the lookups take the parsed 64-bit integer as input. `Decimal.Parse` is
  only the inverse of the formatter, used to prove injectivity and the read-back of values. It is
  not a model of `ParseInt`: there is no `+` sign, base prefix or range error.
- `fmt.Sprintf` is modelled only for the `%d` verb on an integer.
- Log output and `main`: where the source logs a failure, the trace returned by
  `Populate.PipeSet` records the failed call. The log text is not modelled.
- The client library's internals:
  - The model assumes any Send may fail on its own. In the library, a write error would mark
    the connection broken, so all later calls fail too. That case is one choice of faults.
  - The model delivers a prefix of the buffer at flush time and treats commands flushed early by
    a full write buffer the same way.
  - A Receive with no queued reply fails at once in the model. In the library, with no read
    timeout configured (the pool sets only a connect timeout), it would wait indefinitely on a
    healthy connection.
- `Bulk.PipeSetHashes`: HSET on a key holding a plain string is refused, so the success clauses
  assume `ShardsAcceptBelow` (no shard name below N holds a plain string).
- Server-side refusals other than WRONGTYPE: the store is assumed to accept every well-typed
  command. A real server may answer any command with an error and change nothing (out of memory
  under `maxmemory`, READONLY on a replica, MISCONF, NOAUTH when a password is required, which the
  pool's dialer never sends). `Bulk.PipeSetKeys`' "each delivered key reads i" and "no faults means
  every call succeeds", and `Bulk.PipeSetHashes`' delivered-field clause, rest on this assumption.
- `Naming.ShardIndicesSize`: gives an upper bound on the size of a shard's block, not its exact
  count. The exact block is stated by `Naming.ShardCapacity`.
- Platforms where Go's `int` is 32 bits: `int(fieldID)` in `handlerGetHash` would truncate there.
  The model takes `int` as 64 bits (`GoInt.Int64`). No loop counter or quotient in the core can
  overflow at that width.
