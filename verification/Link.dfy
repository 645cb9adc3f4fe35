/** One direction of a connection: the write chain of one session, the bytes in between, and the read
    chain of the session at the other end. Bytes are neither lost nor reordered; a write that is
    pending, or has failed, may have put any part of its frame on the wire. */
module Link {
  import opened Bytes
  import opened Frames
  import opened Parser
  import R = ReadChain
  import S = SendChain

  datatype LinkState = LinkState(send: S.SendState, far: R.ReadState)

  datatype LinkEvent =
    | Send(m: Image)
    | OnWrite(w: S.WriteEvent)
    | OnFar(r: R.ReadEvent)

  function Opened(tx: uint64, msg: Image, rx: uint64): LinkState {
    LinkState(S.Opened(tx), R.Opened(msg, rx))
  }

  ghost predicate AllWhole(ms: seq<Image>) {
    forall m <- ms :: Whole(m)
  }

  /** All the bytes that can have left the sender. */
  ghost function OnWire(s: S.SendState): seq<byte>
    requires AllWhole(S.Sent(s))
  {
    assert forall m <- s.done :: m in S.Sent(s);
    assert s.queue != [] ==> s.queue[0] in S.Sent(s);
    Concat(FramesOf(s.done)) + if s.queue == [] then [] else Frame(s.queue[0])
  }

  /** Bytes arrive at the far end only after they have left the sender. */
  ghost predicate CanArrive(s: S.SendState, far: R.ReadState, bytes: seq<byte>) {
    AllWhole(S.Sent(s)) && far.received + bytes <= OnWire(s)
  }

  ghost function FarStep(s: S.SendState, far: R.ReadState, r: R.ReadEvent): R.ReadState {
    if r.Arrive? && !CanArrive(s, far, r.bytes) then far else R.Step(far, r)
  }

  /** Only messages with an accepted header and a length that is not negative are sent. */
  ghost function Step(l: LinkState, e: LinkEvent): LinkState {
    match e
    case Send(m) => if Whole(m) then l.(send := S.Send(l.send, m)) else l
    case OnWrite(w) => l.(send := S.Write(l.send, w))
    case OnFar(r) => l.(far := FarStep(l.send, l.far, r))
  }

  ghost function After(l: LinkState, es: seq<LinkEvent>): LinkState
    decreases |es|
  {
    if es == [] then l else Step(After(l, es[..|es| - 1]), es[|es| - 1])
  }

  ghost predicate Inv(s: S.SendState, far: R.ReadState) {
    && S.Inv(s) && R.Inv(far)
    && AllWhole(S.Sent(s))
    && far.received <= OnWire(s)
  }

  lemma FramesAppend(a: seq<Image>, b: seq<Image>)
    requires AllWhole(a) && AllWhole(b)
    ensures AllWhole(a + b)
    ensures Concat(FramesOf(a + b)) == Concat(FramesOf(a)) + Concat(FramesOf(b))
  {
    hide Frame, Whole;
    assert FramesOf(a + b) == FramesOf(a) + FramesOf(b);
    ConcatAppend(FramesOf(a), FramesOf(b));
  }

  lemma FramesOne(m: Image)
    requires Whole(m)
    ensures Concat(FramesOf([m])) == Frame(m)
  {
    hide Frame, Whole;
    assert FramesOf([m]) == [Frame(m)];
    assert Concat([Frame(m)]) == Frame(m) + Concat([]);
  }

  lemma FrontFrame(queue: seq<Image>)
    requires queue != [] && AllWhole(queue)
    ensures Frame(queue[0]) <= Concat(FramesOf(queue))
  {
    hide Frame, Whole, FramesOf, Concat;
    assert queue == [queue[0]] + queue[1..];
    FramesAppend([queue[0]], queue[1..]);
    FramesOne(queue[0]);
  }

  /** What can have left the sender is the beginning of what it was given to send. */
  lemma WireIsPrefix(s: S.SendState)
    requires AllWhole(S.Sent(s))
    ensures OnWire(s) <= Concat(FramesOf(S.Sent(s)))
    ensures s.queue == [] ==> OnWire(s) == Concat(FramesOf(S.Sent(s)))
  {
    hide Frame, Whole, FramesOf, Concat;
    assert forall m <- s.done :: m in S.Sent(s);
    assert forall m <- s.queue :: m in S.Sent(s);
    if s.queue != [] {
      FramesAppend(s.done, s.queue);
      FrontFrame(s.queue);
    } else {
      assert S.Sent(s) == s.done;
    }
  }

  /** Completing a write puts nothing new on the wire but, possibly, the next frame. */
  lemma WireAfterWrite(s: S.SendState, s': S.SendState)
    requires AllWhole(S.Sent(s)) && AllWhole(S.Sent(s'))
    requires s.queue != [] && s'.done == s.done + [s.queue[0]]
    ensures OnWire(s) <= OnWire(s')
  {
    hide Frame, Whole, FramesOf, Concat;
    assert forall m <- s.done :: m in S.Sent(s);
    assert s.queue[0] in S.Sent(s);
    FramesAppend(s.done, [s.queue[0]]);
    FramesOne(s.queue[0]);
  }

  lemma SendInv(s: S.SendState, far: R.ReadState, m: Image)
    requires Inv(s, far) && Whole(m)
    ensures Inv(S.Send(s, m), far)
  {
    hide R.Inv, Frame, Whole, FramesOf, Concat, Length, Wrap64;
    S.SendInv(s, m);
    assert OnWire(s) <= OnWire(S.Send(s, m));
  }

  lemma WriteInv(s: S.SendState, far: R.ReadState, w: S.WriteEvent)
    requires Inv(s, far)
    ensures Inv(S.Write(s, w), far)
  {
    hide R.Inv, Frame, Whole, FramesOf, Concat, Length, Wrap64;
    var s' := S.Write(s, w);
    S.WriteInv(s, w);
    if S.Enabled(s) && w.WriteDone? {
      WireAfterWrite(s, s');
    }
  }

  lemma FarInv(s: S.SendState, far: R.ReadState, r: R.ReadEvent)
    requires Inv(s, far)
    ensures Inv(s, FarStep(s, far, r))
  {
    hide R.Inv, S.Inv, DecodeHeader, Wrap64;
    R.StepInv(far, r);
  }

  lemma LinkOpened(tx: uint64, msg: Image, rx: uint64)
    ensures Inv(S.Opened(tx), R.Opened(msg, rx))
  {
    hide DecodeHeader, Whole;
    R.OpenedInv(msg, rx);
  }

  lemma {:induction false} RunInv(l: LinkState, es: seq<LinkEvent>)
    requires Inv(l.send, l.far)
    ensures var l' := After(l, es); Inv(l'.send, l'.far)
  {
    hide Inv, FarStep, S.Write, S.Send, Whole;
    if es != [] {
      var l', e := After(l, es[..|es| - 1]), es[|es| - 1];
      RunInv(l, es[..|es| - 1]);
      match e
      case Send(m) => if Whole(m) { SendInv(l'.send, l'.far, m); }
      case OnWrite(w) => WriteInv(l'.send, l'.far, w);
      case OnFar(r) => FarInv(l'.send, l'.far, r);
    }
  }

  /** The far reader has delivered the first frames sent, once each and in order; and all of them
      once the queue is drained, all bytes have arrived and its pending read cannot complete. */
  lemma Delivery(s: S.SendState, far: R.ReadState)
    requires Inv(s, far)
    ensures far.delivered <= FramesOf(S.Sent(s))
    ensures s.queue == [] && far.received == OnWire(s) && R.Quiet(far)
            && R.Awaiting(far)
            ==> far.delivered == FramesOf(S.Sent(s))
  {
    hide R.Inv, S.Inv, R.Quiet, Whole, Parse;
    WireIsPrefix(s);
    ParseRoundTrip(S.Sent(s));
    R.RefinesParser(far);
    var all := Concat(FramesOf(S.Sent(s)));
    assert all == far.received + all[|far.received|..];
    ParsePrefix(far.received, all[|far.received|..]);
  }

  lemma {:induction false} TotalOfFrames(ms: seq<Image>)
    requires AllWhole(ms)
    ensures R.TotalBytes(FramesOf(ms)) == TotalLength(ms)
  {
    hide Length, Whole;
    if ms != [] {
      var n := |ms| - 1;
      TotalOfFrames(ms[..n]);
      assert FramesOf(ms) == FramesOf(ms[..n]) + [Frame(ms[n])];
      ConcatSnoc(FramesOf(ms[..n]), Frame(ms[n]));
    }
  }

  /** The messages a run sends. */
  ghost function SendsIn(es: seq<LinkEvent>): seq<Image> {
    if es == [] then []
    else SendsIn(es[..|es| - 1])
         + if es[|es| - 1].Send? && Whole(es[|es| - 1].m) then [es[|es| - 1].m] else []
  }

  lemma StepHistory(l: LinkState, e: LinkEvent)
    requires Inv(l.send, l.far)
    ensures S.Sent(Step(l, e).send) == S.Sent(l.send) + if e.Send? && Whole(e.m) then [e.m] else []
    ensures Step(l, e).send.tx0 == l.send.tx0 && Step(l, e).far.rx0 == l.far.rx0
  {
    hide R.Inv, DecodeHeader, Whole, Wrap64, AllWhole, OnWire, S.Sent;
    match e
    case Send(m) => S.SendInv(l.send, m);
    case OnWrite(w) => S.WriteInv(l.send, w);
    case OnFar(_) =>
  }

  lemma {:induction false} RunHistory(l: LinkState, es: seq<LinkEvent>)
    requires Inv(l.send, l.far)
    ensures S.Sent(After(l, es).send) == S.Sent(l.send) + SendsIn(es)
    ensures After(l, es).send.tx0 == l.send.tx0 && After(l, es).far.rx0 == l.far.rx0
  {
    hide Inv, Step, S.Sent, Whole;
    if es != [] {
      RunHistory(l, es[..|es| - 1]);
      RunInv(l, es[..|es| - 1]);
      StepHistory(After(l, es[..|es| - 1]), es[|es| - 1]);
    }
  }

  /** Nothing has failed on the way from this sender to this reader. */
  predicate Healthy(s: S.SendState, far: R.ReadState) {
    !s.failed && R.Awaiting(far)
  }

  /** The queue is drained, all bytes have arrived, and the pending read cannot complete. */
  ghost predicate Drained(s: S.SendState, far: R.ReadState)
    requires AllWhole(S.Sent(s))
  {
    s.queue == [] && far.received == OnWire(s) && R.Quiet(far) && Healthy(s, far)
  }

  lemma InvWhole(s: S.SendState, far: R.ReadState)
    requires Inv(s, far)
    ensures AllWhole(S.Sent(s))
  {
  }

  lemma CountersAgree(s: S.SendState, far: R.ReadState, sent: seq<Image>)
    requires Inv(s, far) && AllWhole(sent) && s.done == sent && far.delivered == FramesOf(sent)
    ensures s.tx == Wrap64(s.tx0 + TotalLength(sent))
    ensures far.rx == Wrap64(far.rx0 + TotalLength(sent))
  {
    hide R.BytesInv, R.OrderInv, Whole, Wrap64, TotalLength, OnWire, FramesOf;
    TotalOfFrames(sent);
  }

  lemma CountersGrown(x: uint64, x0: uint64, sent: seq<Image>)
    requires AllWhole(sent) && x == Wrap64(x0 + TotalLength(sent))
    ensures (x - (x0 + |Concat(FramesOf(sent))|)) % 0x1_0000_0000_0000_0000 == 0
  {
    TotalOfFrames(sent);
    Wrap64Congruent(x, x0 + TotalLength(sent));
    hide FramesOf, Concat, TotalLength, Whole;
    assert Wrap64(x) == x;
  }

  /** End to end, for every run: however writes and reads complete, fail and interleave, the peer has
      delivered a prefix of what was sent, equal on the first `length()` bytes of each message. Once
      drained without a failure it has delivered everything sent, once each and in order, and both
      byte counters have grown by its total length. */
  lemma EndToEnd(tx: uint64, msg: Image, rx: uint64, es: seq<LinkEvent>)
    ensures var l := After(Opened(tx, msg, rx), es);
            && AllWhole(SendsIn(es)) && S.Sent(l.send) == SendsIn(es)
            && l.far.delivered <= FramesOf(SendsIn(es))
            && (Drained(l.send, l.far)
                ==> l.far.delivered == FramesOf(SendsIn(es))
                    && (l.send.tx - (tx + |Concat(FramesOf(SendsIn(es)))|)) % 0x1_0000_0000_0000_0000 == 0
                    && (l.far.rx - (rx + |Concat(FramesOf(SendsIn(es)))|)) % 0x1_0000_0000_0000_0000 == 0)
  {
    hide After, Inv, R.Quiet, Whole, Wrap64, TotalLength, OnWire, Concat;
    var l0 := Opened(tx, msg, rx);
    LinkOpened(tx, msg, rx);
    RunInv(l0, es);
    RunHistory(l0, es);
    assert [] + SendsIn(es) == SendsIn(es);
    var l := After(l0, es);
    InvWhole(l.send, l.far);
    Delivery(l.send, l.far);
    if Drained(l.send, l.far) {
      assert S.Sent(l.send) == l.send.done;
      CountersAgree(l.send, l.far, SendsIn(es));
      CountersGrown(l.send.tx, tx, SendsIn(es));
      CountersGrown(l.far.rx, rx, SendsIn(es));
    }
  }

  lemma AfterNone(l: LinkState)
    ensures After(l, []) == l
  {
  }

  lemma {:induction false} AfterCons(l: LinkState, e: LinkEvent, es: seq<LinkEvent>)
    ensures After(l, [e] + es) == After(Step(l, e), es)
  {
    hide Step;
    if es == [] {
      assert [e] + es == [e] && [e][..0] == [];
      assert After(l, []) == l;
    } else {
      assert ([e] + es)[..|[e] + es| - 1] == [e] + es[..|es| - 1];
      AfterCons(l, e, es[..|es| - 1]);
    }
  }

  /** A write or a read completes without error, or bytes arrive. */
  predicate Completes(e: LinkEvent) {
    match e
    case Send(_) => false
    case OnWrite(w) => w.WriteDone?
    case OnFar(r) => r.Arrive? || r.HeaderDone? || r.BodyDone?
  }

  /** Progress of the sender: completing writes without error empties the queue. */
  lemma {:induction false} DrainWrites(l: LinkState) returns (es: seq<LinkEvent>, l': LinkState)
    requires Inv(l.send, l.far) && Healthy(l.send, l.far)
    ensures l' == After(l, es) && Inv(l'.send, l'.far) && Healthy(l'.send, l'.far)
    ensures l'.far == l.far && l'.send.queue == [] && S.Sent(l'.send) == S.Sent(l.send)
    ensures forall e <- es :: Completes(e)
    decreases |l.send.queue|
  {
    hide R.Inv, After, Whole, Wrap64, OnWire;
    if l.send.queue == [] {
      es, l' := [], l;
      AfterNone(l);
    } else {
      var e := OnWrite(S.WriteDone);
      WriteInv(l.send, l.far, S.WriteDone);
      S.WriteInv(l.send, S.WriteDone);
      es, l' := DrainWrites(Step(l, e));
      AfterCons(l, e, es);
      es := [e] + es;
    }
  }

  /** Progress of the reader: completing reads without error leads to a read that cannot complete. */
  lemma {:induction false} DrainReads(l: LinkState) returns (es: seq<LinkEvent>, l': LinkState)
    requires Inv(l.send, l.far) && Healthy(l.send, l.far)
    ensures l' == After(l, es) && Inv(l'.send, l'.far) && Healthy(l'.send, l'.far)
    ensures l'.send == l.send && l'.far.received == l.far.received && R.Quiet(l'.far)
    ensures forall e <- es :: Completes(e)
    decreases R.Unread(l.far)
  {
    hide Inv, After, R.Step, R.Enabled, R.Unread;
    if R.Quiet(l.far) {
      es, l' := [], l;
      AfterNone(l);
    } else {
      var r := if R.Enabled(l.far, R.HeaderDone) then R.HeaderDone else R.BodyDone;
      FarInv(l.send, l.far, r);
      R.ReadProgress(l.far, r);
      es, l' := DrainReads(Step(l, OnFar(r)));
      AfterCons(l, OnFar(r), es);
      es := [OnFar(r)] + es;
    }
  }

  lemma ArriveRest(l: LinkState) returns (e: LinkEvent)
    requires Inv(l.send, l.far)
    ensures var l' := Step(l, e);
            && l'.send == l.send && Inv(l.send, l'.far) && l'.far.received == OnWire(l.send)
            && l'.far.phase == l.far.phase && Completes(e)
  {
    hide R.Inv, S.Inv, OnWire, Whole;
    e := OnFar(R.Arrive(OnWire(l.send)[|l.far.received|..]));
    assert l.far.received + OnWire(l.send)[|l.far.received|..] == OnWire(l.send);
    FarInv(l.send, l.far, e.r);
  }

  lemma {:induction false} AfterAppend(l: LinkState, es: seq<LinkEvent>, fs: seq<LinkEvent>)
    ensures After(l, es + fs) == After(After(l, es), fs)
  {
    hide Step;
    if fs == [] {
      assert es + fs == es;
      AfterNone(After(l, es));
    } else {
      assert (es + fs)[..|es + fs| - 1] == es + fs[..|fs| - 1];
      AfterAppend(l, es, fs[..|fs| - 1]);
    }
  }

  /** From every reachable state in which nothing has failed there is a continuation, without any
      failure, in which everything sent so far has been delivered: no completed step ever makes full
      delivery impossible. */
  lemma DeliveryRemainsPossible(l: LinkState) returns (es: seq<LinkEvent>)
    requires Inv(l.send, l.far) && Healthy(l.send, l.far)
    ensures var l' := After(l, es);
            && S.Sent(l'.send) == S.Sent(l.send) && Healthy(l'.send, l'.far)
            && l'.far.delivered == FramesOf(S.Sent(l.send))
    ensures forall e <- es :: Completes(e)
  {
    hide Inv, After, Step, Completes, OnWire, R.Quiet, S.Sent, Whole;
    assert AllWhole(S.Sent(l.send)) by { InvWhole(l.send, l.far); }
    var writes, l1 := DrainWrites(l);
    var e := ArriveRest(l1);
    var rs, l2 := DrainReads(Step(l1, e));
    AfterCons(l1, e, rs);
    AfterAppend(l, writes, [e] + rs);
    es := writes + ([e] + rs);
    Delivery(l2.send, l2.far);
  }
}
