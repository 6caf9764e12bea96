/** Bulk population (`PipeSetKeys`, `PipeSetHashes`): one pipelined SET or HSET per index
    0 .. N-1, a single flush, then one receive per command sent. Failures of individual calls are
    recorded in the returned trace and never stop the remaining iterations. The two writers differ
    only in the command they issue for an index, which is a parameter here. */
module Populate {
  import opened Wrappers
  import opened GoInt
  import opened Store
  import opened Client

  /** The commands for a sequence of indices, in the same order. */
  function Commands(item: int -> Command, idx: seq<int>): (cs: seq<Command>)
    ensures |cs| == |idx|
    ensures forall j :: 0 <= j < |idx| ==> cs[j] == item(idx[j])
  {
    seq(|idx|, j requires 0 <= j < |idx| => item(idx[j]))
  }

  /** The indices 0 .. n-1 in increasing order. */
  function Range(n: nat): (r: seq<int>)
    ensures |r| == n
    ensures forall i :: 0 <= i < n ==> r[i] == i
  {
    seq(n, i => i)
  }

  /** The number of iterations of `for i := 0; i < totalKeys; i++`. */
  function Count(totalKeys: int): nat {
    Max(totalKeys, 0)
  }

  /** The environment's choices: the iterations whose Send fails, the point at which the
      connection drops during the Flush (None: every buffered command reaches the store), whether
      the Flush reports an error, and the iterations whose Receive fails. */
  datatype Faults = Faults(sendFails: set<int>, flushCut: Option<nat>, flushFails: bool, receiveFails: set<int>)

  const NoFaults: Faults := Faults({}, None, false, {})

  /** The indices among 0 .. n-1 whose Send succeeded, in send order. */
  function Enqueued(n: nat, fails: set<int>): seq<int>
    decreases n
  {
    if n == 0 then []
    else Enqueued(n - 1, fails) + (if n - 1 in fails then [] else [n - 1])
  }

  /** The enqueued indices are exactly those below `n` whose Send did not fail. */
  lemma {:induction false} EnqueuedMembers(n: nat, fails: set<int>)
    ensures forall j :: 0 <= j < |Enqueued(n, fails)| ==>
      0 <= Enqueued(n, fails)[j] < n && Enqueued(n, fails)[j] !in fails
    ensures forall i :: 0 <= i < n && i !in fails ==> i in Enqueued(n, fails)
    decreases n
  {
    if n > 0 {
      EnqueuedMembers(n - 1, fails);
    }
  }

  /** When no Send fails, every index is enqueued, in order. */
  lemma {:induction false} EnqueuedAll(n: nat)
    ensures Enqueued(n, {}) == Range(n)
    decreases n
  {
    if n > 0 {
      EnqueuedAll(n - 1);
      assert Range(n) == Range(n - 1) + [n - 1];
    }
  }

  /** The indices whose command reached the store. */
  function Delivered(n: nat, faults: Faults): (idx: seq<int>)
    ensures forall j :: 0 <= j < |idx| ==> 0 <= idx[j] < n && idx[j] !in faults.sendFails
    ensures faults.flushCut.None? ==> forall i :: (i in idx <==> 0 <= i < n && i !in faults.sendFails)
  {
    var q := Enqueued(n, faults.sendFails);
    var r := Take(q, faults.flushCut);
    EnqueuedMembers(n, faults.sendFails);

    assert forall j :: 0 <= j < |r| ==> r[j] == q[j];
    r
  }

  /** When nothing fails, every index reaches the store, in order. */
  lemma DeliveredAll(n: nat)
    ensures Delivered(n, NoFaults) == Range(n)
  {
    EnqueuedAll(n);
  }

  /** What the store ends up as, and what it replied, when the indices in `Delivered` reach it. */
  function Outcome(item: int -> Command, st: Store, n: nat, faults: Faults): (Store, seq<Reply>) {
    ApplyAll(st, Commands(item, Delivered(n, faults)))
  }

  /** The store after a populate in which every call succeeded. */
  function Populated(item: int -> Command, st: Store, n: nat): Store {
    ApplyAll(st, Commands(item, Range(n))).0
  }

  /** Whether the `j`-th Receive succeeds: a reply is queued for it, reading does not fail, and the
      reply is not an error. */
  predicate ReceiveSucceeds(replies: seq<Reply>, j: int, faults: Faults) {
    0 <= j < |replies| && j !in faults.receiveFails && !replies[j].ErrorReply?
  }

  /** The store refused none of the commands. */
  predicate NoErrorReplies(replies: seq<Reply>) {
    forall j :: 0 <= j < |replies| ==> !replies[j].ErrorReply?
  }

  lemma CommandsAppend(item: int -> Command, a: seq<int>, b: seq<int>)
    ensures Commands(item, a + b) == Commands(item, a) + Commands(item, b)
  {
  }

  lemma CommandsTake(item: int -> Command, idx: seq<int>, cut: Option<nat>)
    ensures Commands(item, Take(idx, cut)) == Take(Commands(item, idx), cut)
  {
  }

  lemma EnqueuedStep(item: int -> Command, i: nat, fails: set<int>)
    ensures Commands(item, Enqueued(i + 1, fails)) ==
      Commands(item, Enqueued(i, fails)) + (if i in fails then [] else [item(i)])
  {
    var tail := if i in fails then [] else [i];
    assert Enqueued(i + 1, fails) == Enqueued(i, fails) + tail;
    CommandsAppend(item, Enqueued(i, fails), tail);
  }

  /** One iteration of the first loop: the Send buffers the index's command unless it fails. */
  lemma SendStep(item: int -> Command, i: nat, fails: set<int>)
    ensures Send(Conn(Commands(item, Enqueued(i, fails)), []), item(i), i in fails) ==
      (Conn(Commands(item, Enqueued(i + 1, fails)), []), i !in fails)
  {
    EnqueuedStep(item, i, fails);
    if i in fails {
      assert Commands(item, Enqueued(i, fails)) + [] == Commands(item, Enqueued(i, fails));
    }
  }

  /** The trace entry of the Send for index `k`. */
  function SendRecord(item: int -> Command, k: int, fails: set<int>): Op {
    SendOp(item(k), k !in fails)
  }

  /** `ops` records one Send per index 0 .. |ops|-1, in order, with its outcome. */
  predicate Sent(item: int -> Command, ops: seq<Op>, fails: set<int>) {
    forall k :: 0 <= k < |ops| ==> ops[k] == SendRecord(item, k, fails)
  }

  lemma SentAppend(item: int -> Command, ops: seq<Op>, fails: set<int>)
    requires Sent(item, ops, fails)
    ensures Sent(item, ops + [SendRecord(item, |ops|, fails)], fails)
  {
  }

  /** The first loop: one Send per index, each failure recorded and skipped. */
  method SendAll(item: int -> Command, totalKeys: Int64, faults: Faults) returns (conn: Conn, ops: seq<Op>)
    ensures conn == Conn(Commands(item, Enqueued(Count(totalKeys), faults.sendFails)), [])
    ensures |ops| == Count(totalKeys)
    ensures Sent(item, ops, faults.sendFails)
  {
    conn := Fresh;
    ops := [];
    var i := 0;
    while i < totalKeys
      invariant 0 <= i <= Count(totalKeys)
      invariant conn.pending == Commands(item, Enqueued(i, faults.sendFails))
      invariant conn.replies == []
      invariant |ops| == i
      invariant Sent(item, ops, faults.sendFails)
    {
      var cmd := item(i);
      SendStep(item, i, faults.sendFails);
      var sent := Send(conn, cmd, i in faults.sendFails);
      conn := sent.0;
      SentAppend(item, ops, faults.sendFails);
      ops := ops + [SendOp(cmd, sent.1)];
      i := i + 1;
    }
  }

  /** The trace entry of the `j`-th Receive. */
  function ReceiveRecord(replies: seq<Reply>, j: int, faults: Faults): Op {
    ReceiveOp(ReceiveSucceeds(replies, j, faults))
  }

  /** `ops` records the first |ops| Receives against the queued `replies`, with their outcomes. */
  predicate Received(replies: seq<Reply>, ops: seq<Op>, faults: Faults) {
    forall j :: 0 <= j < |ops| ==> ops[j] == ReceiveRecord(replies, j, faults)
  }

  lemma ReceivedAppend(replies: seq<Reply>, ops: seq<Op>, faults: Faults)
    requires Received(replies, ops, faults)
    ensures Received(replies, ops + [ReceiveRecord(replies, |ops|, faults)], faults)
  {
  }

  /** One iteration of the second loop: the Receive takes the next queued reply, if any. */
  lemma ReceiveStep(replies: seq<Reply>, i: nat, faults: Faults)
    ensures var c := Conn([], if i <= |replies| then replies[i..] else []);
      Receive(c, i in faults.receiveFails) ==
        (Conn([], if i + 1 <= |replies| then replies[i + 1..] else []), ReceiveSucceeds(replies, i, faults))
  {
    if i < |replies| {
      assert replies[i..][1..] == replies[i + 1..];
    }
  }

  /** The second loop: one Receive per index, whatever happened before, each failure recorded
      and skipped. */
  method ReceiveAll(conn: Conn, totalKeys: Int64, faults: Faults) returns (ops: seq<Op>)
    requires conn.pending == []
    ensures |ops| == Count(totalKeys)
    ensures Received(conn.replies, ops, faults)
  {
    var c := conn;
    ops := [];
    var i := 0;
    while i < totalKeys
      invariant 0 <= i <= Count(totalKeys)
      invariant c == Conn([], if i <= |conn.replies| then conn.replies[i..] else [])
      invariant |ops| == i
      invariant Received(conn.replies, ops, faults)
    {
      ReceiveStep(conn.replies, i, faults);
      var received := Receive(c, i in faults.receiveFails);
      c := received.0;
      ReceivedAppend(conn.replies, ops, faults);
      ops := ops + [ReceiveOp(received.1)];
      i := i + 1;
    }
  }

  /** Flushing the commands `SendAll` buffered runs exactly the delivered ones against the store. */
  lemma FlushOutcome(item: int -> Command, st: Store, n: nat, faults: Faults)
    ensures Flush(Conn(Commands(item, Enqueued(n, faults.sendFails)), []), st, faults.flushCut, faults.flushFails) ==
      (Conn([], Outcome(item, st, n, faults).1), Outcome(item, st, n, faults).0, !faults.flushFails)
  {
    var q := Enqueued(n, faults.sendFails);
    CommandsTake(item, q, faults.flushCut);
    assert Delivered(n, faults) == Take(q, faults.flushCut);
    var run := ApplyAll(st, Take(Commands(item, q), faults.flushCut));
    assert run == Outcome(item, st, n, faults);
    assert [] + run.1 == run.1;
  }

  /** Without faults the store answers every one of the `n` commands. */
  lemma NoFaultsReplies(item: int -> Command, st: Store, n: nat)
    ensures |Outcome(item, st, n, NoFaults).1| == n
  {
    DeliveredAll(n);
    assert |Commands(item, Delivered(n, NoFaults))| == n;
  }

  /** The Sends come first in the trace, then the Flush. */
  lemma TraceSends(item: int -> Command, fails: set<int>, a: seq<Op>, x: Op, b: seq<Op>)
    requires Sent(item, a, fails)
    ensures |a + [x] + b| == |a| + 1 + |b|
    ensures forall i :: 0 <= i < |a| ==> (a + [x] + b)[i] == SendOp(item(i), i !in fails)
    ensures (a + [x] + b)[|a|] == x
  {
    forall i | 0 <= i < |a| ensures (a + [x] + b)[i] == SendOp(item(i), i !in fails) {
      assert (a + [x] + b)[i] == a[i] == SendRecord(item, i, fails);
    }
  }

  /** The Receives come last in the trace; those whose read fails are not ok. */
  lemma TraceReceives(replies: seq<Reply>, faults: Faults, a: seq<Op>, x: Op, b: seq<Op>)
    requires Received(replies, b, faults)
    ensures forall j :: |a| < j < |a| + 1 + |b| ==>
      (a + [x] + b)[j] == ReceiveOp(ReceiveSucceeds(replies, j - |a| - 1, faults))
    ensures forall j :: 0 <= j < |b| && j in faults.receiveFails ==> !(a + [x] + b)[|a| + 1 + j].ok
  {
    forall j | |a| < j < |a| + 1 + |b|
      ensures (a + [x] + b)[j] == ReceiveOp(ReceiveSucceeds(replies, j - |a| - 1, faults))
    {
      assert (a + [x] + b)[j] == b[j - |a| - 1] == ReceiveRecord(replies, j - |a| - 1, faults);
    }
  }

  /** With no fault and no error reply, every call in the trace succeeds. */
  lemma TraceAllOk(item: int -> Command, replies: seq<Reply>, a: seq<Op>, b: seq<Op>)
    requires Sent(item, a, {})
    requires Received(replies, b, NoFaults)
    requires |b| <= |replies| && NoErrorReplies(replies)
    ensures forall j :: 0 <= j < |a + [FlushOp(true)] + b| ==> (a + [FlushOp(true)] + b)[j].ok
  {
    var ops := a + [FlushOp(true)] + b;
    forall j | 0 <= j < |ops| ensures ops[j].ok {
      if j < |a| {
        assert ops[j] == SendRecord(item, j, {});
      } else if j > |a| {
        assert ops[j] == ReceiveRecord(replies, j - |a| - 1, NoFaults);
      }
    }
  }

  /** The trace `PipeSet` assembles from its three phases, entry by entry. */
  lemma TraceFacts(item: int -> Command, st: Store, n: nat, faults: Faults, sendOps: seq<Op>, receiveOps: seq<Op>, ops: seq<Op>)
    requires |sendOps| == n && Sent(item, sendOps, faults.sendFails)
    requires |receiveOps| == n && Received(Outcome(item, st, n, faults).1, receiveOps, faults)
    requires ops == sendOps + [FlushOp(!faults.flushFails)] + receiveOps
    ensures |ops| == 2 * n + 1
    ensures forall i :: 0 <= i < n ==> ops[i] == SendOp(item(i), i !in faults.sendFails)
    ensures ops[n] == FlushOp(!faults.flushFails)
    ensures forall j :: n < j < |ops| ==>
      ops[j] == ReceiveOp(ReceiveSucceeds(Outcome(item, st, n, faults).1, j - n - 1, faults))
    ensures forall j :: 0 <= j < n && j in faults.receiveFails ==> !ops[n + 1 + j].ok
    ensures faults == NoFaults && NoErrorReplies(Outcome(item, st, n, faults).1) ==>
      forall j :: 0 <= j < |ops| ==> ops[j].ok
  {
    var replies := Outcome(item, st, n, faults).1;
    var x := FlushOp(!faults.flushFails);
    TraceSends(item, faults.sendFails, sendOps, x, receiveOps);
    TraceReceives(replies, faults, sendOps, x, receiveOps);
    if faults == NoFaults && NoErrorReplies(replies) {
      NoFaultsReplies(item, st, n);
      TraceAllOk(item, replies, sendOps, receiveOps);
    }
  }

  /** `PipeSetKeys` / `PipeSetHashes`: send every command, flush once, then drain as many
      replies as commands were sent. */
  method PipeSet(item: int -> Command, st: Store, totalKeys: Int64, faults: Faults) returns (st': Store, ops: seq<Op>)
    ensures |ops| == 2 * Count(totalKeys) + 1
    ensures forall i :: 0 <= i < Count(totalKeys) ==>
      ops[i] == SendOp(item(i), i !in faults.sendFails)
    ensures ops[Count(totalKeys)] == FlushOp(!faults.flushFails)
    ensures forall j :: Count(totalKeys) < j < |ops| ==>
      ops[j] == ReceiveOp(ReceiveSucceeds(Outcome(item, st, Count(totalKeys), faults).1, j - Count(totalKeys) - 1, faults))
    ensures forall j :: 0 <= j < Count(totalKeys) && j in faults.receiveFails ==> !ops[Count(totalKeys) + 1 + j].ok
    ensures faults == NoFaults && NoErrorReplies(Outcome(item, st, Count(totalKeys), faults).1) ==>
      forall j :: 0 <= j < |ops| ==> ops[j].ok
    ensures st' == Outcome(item, st, Count(totalKeys), faults).0
  {
    var n := Count(totalKeys);
    var conn, sendOps := SendAll(item, totalKeys, faults);

    FlushOutcome(item, st, n, faults);
    var flushed := Flush(conn, st, faults.flushCut, faults.flushFails);
    st' := flushed.1;

    var receiveOps := ReceiveAll(flushed.0, totalKeys, faults);
    ops := sendOps + [FlushOp(flushed.2)] + receiveOps;
    TraceFacts(item, st, n, faults, sendOps, receiveOps, ops);
  }
}
