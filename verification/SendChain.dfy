/** Src/TcpSession.cpp:170-232: the send queue of one session and the chain of writes that drains it. */
module SendChain {
  import opened Bytes
  import opened Frames

  /** `queue` and `tx` are `_sendQue` and `_tx`. `inflight` is the content of the buffer given to the
      outstanding write when that write was started. The rest is history: whether a write failed, the
      counter's first value, and the buffers written completely. */
  datatype SendState = SendState(
    queue: seq<Image>, tx: uint64, inflight: Option<Image>,
    failed: bool, tx0: uint64, done: seq<Image>)

  datatype WriteEvent = WriteDone | WriteFail

  /** A new session; `_tx` has not been initialised. */
  function Opened(tx: uint64): SendState {
    SendState([], tx, None, false, tx, [])
  }

  /** `TcpSession::send`: a write is started only if the queue was empty. */
  function Send(s: SendState, m: Image): SendState {
    var queue := s.queue + [m];
    s.(queue := queue, inflight := if s.queue == [] then Some(queue[0]) else s.inflight)
  }

  predicate Enabled(s: SendState) {
    s.inflight.Some? && s.queue != []
  }

  /** `TcpSession::handleWrite`. */
  function Write(s: SendState, e: WriteEvent): SendState {
    if !Enabled(s) then s else
    match e
    case WriteDone =>
      var rest := s.queue[1..];
      s.(tx := Wrap64(s.tx + Length(s.queue[0])), queue := rest,
         inflight := if rest != [] then Some(rest[0]) else None,
         done := s.done + [s.inflight.value])
    case WriteFail => s.(inflight := None, failed := true)
  }

  /** Everything ever passed to `send`, as far as the queue and the wire account for it. */
  function Sent(s: SendState): seq<Image> {
    s.done + s.queue
  }

  ghost predicate Inv(s: SendState) {
    // A write is pending exactly when there is something to write and the chain has not failed,
    // and its buffer is the front of the queue.
    && (s.inflight.Some? <==> s.queue != [] && !s.failed)
    && (s.inflight.Some? ==> s.inflight.value == s.queue[0])
    && (s.failed ==> s.queue != [])
    && s.tx == Wrap64(s.tx0 + TotalLength(s.done))
  }

  lemma SendInv(s: SendState, m: Image)
    requires Inv(s)
    ensures var s' := Send(s, m);
            && Inv(s')
            && Sent(s') == Sent(s) + [m]
            && s'.done == s.done && s'.failed == s.failed
            && (s.inflight.Some? ==> s'.inflight == s.inflight)
  {
  }

  lemma WriteInv(s: SendState, e: WriteEvent)
    requires Inv(s)
    ensures var s' := Write(s, e);
            && Inv(s')
            && Sent(s') == Sent(s)
            && s.done <= s'.done
            && (s.failed ==> s' == s)
  {
    hide Length;
    if Enabled(s) && e.WriteDone? {
      var done := s.done + [s.queue[0]];
      assert done[..|done| - 1] == s.done;
      Wrap64Add(s.tx0 + TotalLength(s.done), Length(s.queue[0]));
      assert s.queue == [s.queue[0]] + s.queue[1..];
    }
  }

  /** The counter's increase and what is still queued add up to everything sent. */
  lemma ByteConservation(s: SendState)
    requires Inv(s)
    ensures Wrap64(s.tx + TotalLength(s.queue)) == Wrap64(s.tx0 + TotalLength(Sent(s)))
  {
    hide Length;
    Wrap64Add(s.tx0 + TotalLength(s.done), TotalLength(s.queue));
    TotalLengthAppend(s.done, s.queue);
  }
}
