/** One session: its read chain, its write chain and the close reports they make, over whole runs
    (Src/TcpSession.cpp). Handlers are atomic; the environment chooses which pending operation
    completes next, and whether it fails. */
module Session {
  import opened Bytes
  import opened Frames
  import opened Parser
  import R = ReadChain
  import S = SendChain

  /** `reports` counts the calls of `_closedHandler`. */
  datatype SessionState = SessionState(read: R.ReadState, send: S.SendState, reports: nat)

  datatype SessionEvent =
    | Send(m: Image)
    | OnRead(r: R.ReadEvent)
    | OnWrite(w: S.WriteEvent)

  function Opened(msg: Image, tx: uint64, rx: uint64): SessionState {
    SessionState(R.Opened(msg, rx), S.Opened(tx), 0)
  }

  /** Whether the handler of this event calls `_closedHandler`: a failed body read and a failed write
      do, each by itself; a failed header read is only logged. */
  predicate ReportsClosed(s: SessionState, e: SessionEvent) {
    match e
    case Send(_) => false
    case OnRead(r) => r.BodyFail? && R.Enabled(s.read, r)
    case OnWrite(w) => w.WriteFail? && S.Enabled(s.send)
  }

  function Step(s: SessionState, e: SessionEvent): SessionState {
    var reports := s.reports + if ReportsClosed(s, e) then 1 else 0;
    match e
    case Send(m) => s.(send := S.Send(s.send, m))
    case OnRead(r) => s.(read := R.Step(s.read, r), reports := reports)
    case OnWrite(w) => s.(send := S.Write(s.send, w), reports := reports)
  }

  /** The state after a run: the events take effect from left to right. */
  function After(s: SessionState, es: seq<SessionEvent>): SessionState
    decreases |es|
  {
    if es == [] then s else Step(After(s, es[..|es| - 1]), es[|es| - 1])
  }

  function SendOf(e: SessionEvent): seq<Image> {
    if e.Send? then [e.m] else []
  }

  function ArrivalOf(e: SessionEvent): seq<byte> {
    if e.OnRead? && e.r.Arrive? then e.r.bytes else []
  }

  /** What a run sends. */
  function SendsIn(es: seq<SessionEvent>): seq<Image> {
    if es == [] then [] else SendsIn(es[..|es| - 1]) + SendOf(es[|es| - 1])
  }

  /** What a run receives. */
  function ArrivalsIn(es: seq<SessionEvent>): seq<byte> {
    if es == [] then [] else ArrivalsIn(es[..|es| - 1]) + ArrivalOf(es[|es| - 1])
  }

  function LostBody(s: SessionState): nat {
    if s.read.phase.LostBody? then 1 else 0
  }

  function LostWrite(s: SessionState): nat {
    if s.send.failed then 1 else 0
  }

  ghost predicate Inv(s: SessionState) {
    R.Inv(s.read) && S.Inv(s.send) && s.reports == LostBody(s) + LostWrite(s)
  }

  lemma StepInv(s: SessionState, e: SessionEvent)
    requires Inv(s)
    ensures Inv(Step(s, e))
  {
    hide R.Inv, DecodeHeader, Wrap64;
    match e
    case Send(m) => S.SendInv(s.send, m);
    case OnRead(r) => R.StepInv(s.read, r);
    case OnWrite(w) => S.WriteInv(s.send, w);
  }

  lemma {:induction false} RunInv(s: SessionState, es: seq<SessionEvent>)
    requires Inv(s)
    ensures Inv(After(s, es))
  {
    if es != [] {
      RunInv(s, es[..|es| - 1]);
      StepInv(After(s, es[..|es| - 1]), es[|es| - 1]);
    }
  }

  lemma StepHistory(s: SessionState, e: SessionEvent)
    requires Inv(s)
    ensures S.Sent(Step(s, e).send) == S.Sent(s.send) + SendOf(e)
    ensures Step(s, e).read.received == s.read.received + ArrivalOf(e)
    ensures Step(s, e).send.tx0 == s.send.tx0 && Step(s, e).read.rx0 == s.read.rx0
  {
    hide S.Inv, DecodeHeader, Wrap64;
    match e
    case Send(m) => S.SendInv(s.send, m);
    case OnRead(_) =>
    case OnWrite(w) => S.WriteInv(s.send, w);
  }

  lemma {:induction false} RunHistory(s: SessionState, es: seq<SessionEvent>)
    requires Inv(s)
    ensures S.Sent(After(s, es).send) == S.Sent(s.send) + SendsIn(es)
    ensures After(s, es).read.received == s.read.received + ArrivalsIn(es)
    ensures After(s, es).send.tx0 == s.send.tx0 && After(s, es).read.rx0 == s.read.rx0
  {
    if es != [] {
      RunHistory(s, es[..|es| - 1]);
      RunInv(s, es[..|es| - 1]);
      StepHistory(After(s, es[..|es| - 1]), es[|es| - 1]);
      Regroup(S.Sent(s.send), SendsIn(es[..|es| - 1]), SendOf(es[|es| - 1]));
      Regroup(s.read.received, ArrivalsIn(es[..|es| - 1]), ArrivalOf(es[|es| - 1]));
    }
  }

  lemma Reached(msg: Image, tx: uint64, rx: uint64, es: seq<SessionEvent>) returns (s: SessionState)
    ensures s == After(Opened(msg, tx, rx), es) && Inv(s)
    ensures S.Sent(s.send) == SendsIn(es) && s.send.tx0 == tx
    ensures s.read.received == ArrivalsIn(es) && s.read.rx0 == rx
  {
    var s0 := Opened(msg, tx, rx);
    R.OpenedInv(msg, rx);
    RunInv(s0, es);
    RunHistory(s0, es);
    assert [] + SendsIn(es) == SendsIn(es) && [] + ArrivalsIn(es) == ArrivalsIn(es);
    s := After(s0, es);
  }

  /** In every run of a session: a write is pending exactly when the queue is non-empty and no write
      has failed, and the bytes being written are those of the queue's front; what was written plus
      what is queued is what was sent, in order. */
  lemma SingleWriter(msg: Image, tx: uint64, rx: uint64, es: seq<SessionEvent>)
    ensures var s := After(Opened(msg, tx, rx), es).send;
            && (s.inflight.Some? <==> s.queue != [] && !s.failed)
            && (s.inflight.Some? ==> s.inflight.value == s.queue[0])
            && s.done + s.queue == SendsIn(es)
  {
    var s := Reached(msg, tx, rx, es);
  }

  lemma ByteConservationOf(s: S.SendState, tx: uint64, sent: seq<Image>)
    requires S.Inv(s) && s.tx0 == tx && S.Sent(s) == sent
    ensures Wrap64(s.tx + TotalLength(s.queue)) == Wrap64(tx + TotalLength(sent))
  {
    S.ByteConservation(s);
  }

  /** In every run, at every step: the increase of `_tx` plus the length still queued is the length
      of everything sent (modulo the width of the counter). */
  lemma BytesSentAreConserved(msg: Image, tx: uint64, rx: uint64, es: seq<SessionEvent>)
    ensures var s := After(Opened(msg, tx, rx), es).send;
            (s.tx + TotalLength(s.queue) - (tx + TotalLength(SendsIn(es)))) % 0x1_0000_0000_0000_0000 == 0
  {
    var s := Reached(msg, tx, rx, es);
    hide *;
    ByteConservationOf(s.send, tx, SendsIn(es));
    Wrap64Congruent(s.send.tx + TotalLength(s.send.queue), tx + TotalLength(SendsIn(es)));
  }

  /** A `send` during a write does not touch the buffer being written. */
  lemma SendKeepsInflight(s: SessionState, m: Image)
    requires Inv(s) && s.send.inflight.Some?
    ensures Step(s, Send(m)).send.inflight == s.send.inflight
    ensures Step(s, Send(m)).send.queue[0] == s.send.inflight.value
  {
    S.SendInv(s.send, m);
  }

  /** After a failed write, in every continuation: no write is pending, nothing more is written, and
      the queue only grows, by exactly what is sent. */
  lemma {:induction false} WriteFailureIsFinal(s: SessionState, es: seq<SessionEvent>)
    requires Inv(s) && s.send.failed
    ensures var s' := After(s, es).send;
            && s'.failed && s'.inflight.None? && s'.done == s.send.done && s'.tx == s.send.tx
            && s'.queue == s.send.queue + SendsIn(es)
  {
    hide R.Inv, R.Step, Length, Wrap64;
    if es != [] {
      WriteFailureIsFinal(s, es[..|es| - 1]);
      RunInv(s, es[..|es| - 1]);
    }
  }

  lemma LostReadStep(s: SessionState, e: SessionEvent)
    requires s.read.phase.LostHeader? || s.read.phase.LostBody?
    ensures var r := Step(s, e).read;
            && r.phase == s.read.phase && r.msg == s.read.msg && r.rx == s.read.rx
            && r.units == s.read.units && r.delivered == s.read.delivered && r.marks == s.read.marks
            && r.received == s.read.received + ArrivalOf(e)
  {
    hide S.Send, S.Write, DecodeHeader;
  }

  /** After a failed read, of a header or of a body, in every continuation: no read is outstanding, and
      nothing more is read, delivered or counted, whatever arrives. */
  lemma {:induction false} ReadFailureIsFinal(s: SessionState, f: R.ReadEvent, es: seq<SessionEvent>)
    requires R.Enabled(s.read, f) && (f.HeaderFail? || f.BodyFail?)
    ensures var r := After(Step(s, OnRead(f)), es).read;
            && (forall e: R.ReadEvent :: R.Enabled(r, e) ==> e.Arrive?)
            && (if f.HeaderFail? then r.phase.LostHeader? else r.phase.LostBody?)
            && r.msg == s.read.msg && r.rx == s.read.rx
            && r.units == s.read.units && r.delivered == s.read.delivered && r.marks == s.read.marks
            && r.received == s.read.received + ArrivalsIn(es)
  {
    hide DecodeHeader, S.Write, S.Enabled;
    if es != [] {
      var n := |es| - 1;
      ReadFailureIsFinal(s, f, es[..n]);
      LostReadStep(After(Step(s, OnRead(f)), es[..n]), es[n]);
      Regroup(s.read.received, ArrivalsIn(es[..n]), ArrivalOf(es[n]));
    }
  }

  /** In every run, `_closedHandler` has been called once if a body read failed and once if a write
      failed; never for a header read; hence at most twice. */
  lemma CloseReports(msg: Image, tx: uint64, rx: uint64, es: seq<SessionEvent>)
    ensures var s := After(Opened(msg, tx, rx), es);
            && s.reports == LostBody(s) + LostWrite(s)
            && s.reports <= 2
            && (s.reports == 2 <==> s.read.phase.LostBody? && s.send.failed)
  {
    var s := Reached(msg, tx, rx, es);
  }

  /** No read has failed and the pending one cannot complete. */
  predicate AtRest(s: SessionState) {
    R.Awaiting(s.read) && R.Quiet(s.read)
  }

  /** In every run, however the stream is cut into arrivals: the frames handed to `_messageHandler`
      are a prefix of what the one-shot parser takes out of the bytes received, and all of it when
      no read has failed and the pending read cannot complete. `_rx` has grown by their length. */
  lemma ReaderRefinesParser(msg: Image, tx: uint64, rx: uint64, es: seq<SessionEvent>)
    ensures var s := After(Opened(msg, tx, rx), es).read;
            && s.delivered <= Parse(ArrivalsIn(es))
            && (AtRest(After(Opened(msg, tx, rx), es)) ==> s.delivered == Parse(ArrivalsIn(es)))
            && (s.rx - (rx + |Concat(s.delivered)|)) % 0x1_0000_0000_0000_0000 == 0
  {
    hide After, Parse, R.BytesInv, R.OrderInv, S.Inv;
    var s := Reached(msg, tx, rx, es);
    R.RefinesParser(s.read);
    Wrap64Congruent(s.read.rx, rx + R.TotalBytes(s.read.delivered));
  }

  /** Any two sessions that receive the same bytes, however cut, and come to rest have delivered the
      same frames. */
  lemma ArrivalsDoNotMatter(msg1: Image, tx1: uint64, rx1: uint64, es1: seq<SessionEvent>,
                            msg2: Image, tx2: uint64, rx2: uint64, es2: seq<SessionEvent>)
    requires ArrivalsIn(es1) == ArrivalsIn(es2)
    requires AtRest(After(Opened(msg1, tx1, rx1), es1)) && AtRest(After(Opened(msg2, tx2, rx2), es2))
    ensures After(Opened(msg1, tx1, rx1), es1).read.delivered == After(Opened(msg2, tx2, rx2), es2).read.delivered
  {
    hide *;
    ReaderRefinesParser(msg1, tx1, rx1, es1);
    ReaderRefinesParser(msg2, tx2, rx2, es2);
  }

  /** In every run, accepted headers and bodies strictly alternate, a header first. */
  lemma HeadersAndBodiesAlternate(msg: Image, tx: uint64, rx: uint64, es: seq<SessionEvent>)
    ensures var s := After(Opened(msg, tx, rx), es).read;
            && (forall i | 0 <= i < |s.marks| :: s.marks[i] == if i % 2 == 0 then R.HeaderAccepted else R.BodyRead)
            && |s.marks| / 2 == |s.delivered|
  {
    var s := Reached(msg, tx, rx, es);
  }
}
