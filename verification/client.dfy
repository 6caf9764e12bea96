/** The pipelining part of the store client, as an abstract contract: commands are buffered by
    Send, handed to the store in order by Flush, and their replies are drained one at a time, in
    the same order, by Receive. Which calls fail is not decided here: every call takes a flag (or,
    for Flush, a cut-off) chosen by the environment. */
module Client {
  import opened Wrappers
  import opened Store

  /** One call made on the pipelined connection, with whether it reported success. */
  datatype Op = SendOp(cmd: Command, ok: bool) | FlushOp(ok: bool) | ReceiveOp(ok: bool)

  /** A pipelined connection: commands buffered but not yet flushed, and replies not yet received. */
  datatype Conn = Conn(pending: seq<Command>, replies: seq<Reply>)

  /** A connection just taken from the pool. */
  const Fresh: Conn := Conn([], [])

  /** The prefix of `s` that survives a cut after `cut.value` elements; all of `s` when there is no cut. */
  function Take<T>(s: seq<T>, cut: Option<nat>): seq<T> {
    match cut
    case None => s
    case Some(k) => if k < |s| then s[..k] else s
  }

  /** Buffers `cmd`, unless the send fails, in which case nothing is buffered. */
  function Send(c: Conn, cmd: Command, fails: bool): (Conn, bool) {
    if fails then (c, false) else (c.(pending := c.pending + [cmd]), true)
  }

  /** Hands the buffered commands to the store, which runs them in order and queues their replies.
      When the connection drops, only the commands before `cut` reach the store and the rest are
      lost. Whether the call reports an error (`fails`) is independent of that: a write error may
      come after every command was delivered, and a call that reports none only handed the bytes
      to the socket. */
  function Flush(c: Conn, st: Store, cut: Option<nat>, fails: bool): (Conn, Store, bool) {
    var run := ApplyAll(st, Take(c.pending, cut));
    (Conn([], c.replies + run.1), run.0, !fails)
  }

  /** Takes the next reply off the queue. The call fails when no reply is queued, when reading it
      fails, or when the reply is an error reply from the store. */
  function Receive(c: Conn, fails: bool): (Conn, bool) {
    if |c.replies| == 0 then (c, false)
    else (c.(replies := c.replies[1..]), !fails && !c.replies[0].ErrorReply?)
  }
}
