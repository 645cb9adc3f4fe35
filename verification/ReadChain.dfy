/** Src/TcpSession.cpp:79-158: the alternating header and body reads of one session.

    A read has full-read semantics: it completes without error only once the number of bytes it
    asked for has arrived. */
module ReadChain {
  import opened Bytes
  import opened Frames
  import opened Parser

  /** Which read is outstanding, or which one failed. After a failure no read is outstanding. */
  datatype Phase = AwaitHeader | AwaitBody | LostHeader | LostBody

  datatype Mark = HeaderAccepted | BodyRead

  /** `msg` and `rx` are the session's `_msg` and `_rx`; `inbox` holds the bytes that have arrived
      and have not been read. The remaining fields are history: the counter's first value, all bytes
      that arrived, the units read, the frames handed to `_messageHandler`, and the order of
      accepted headers and bodies. */
  datatype ReadState = ReadState(
    phase: Phase, msg: Image, rx: uint64, inbox: seq<byte>,
    rx0: uint64, received: seq<byte>, units: seq<seq<byte>>, delivered: seq<seq<byte>>, marks: seq<Mark>)

  datatype ReadEvent = Arrive(bytes: seq<byte>) | HeaderDone | HeaderFail | BodyDone | BodyFail

  /** The state when `start` has asked for the first header. Neither `_msg` nor `_rx` has been
      initialised, so both are arbitrary. */
  function Opened(msg: Image, rx: uint64): ReadState {
    ReadState(AwaitHeader, msg, rx, [], rx, [], [], [], [])
  }

  /** The bytes of a frame whose header has been read and whose body has not. */
  function Held(s: ReadState): seq<byte> {
    if s.phase.AwaitBody? || s.phase.LostBody? then s.msg[..HEADER_LENGTH] else []
  }

  predicate Enabled(s: ReadState, e: ReadEvent) {
    match e
    case Arrive(_) => true
    case HeaderDone => s.phase.AwaitHeader? && |s.inbox| >= HEADER_LENGTH
    case HeaderFail => s.phase.AwaitHeader?
    // A negative length asks for about 2^64 bytes, which never arrive.
    case BodyDone => s.phase.AwaitBody? && 0 <= Head(s.msg).bodyLength <= |s.inbox| && Head(s.msg).bodyLength <= MAX_DATA
    case BodyFail => s.phase.AwaitBody?
  }

  /** `handleReadHeader` without error: the eight bytes have overwritten the header of `_msg`; the
      body is asked for if the check passes, and another header if it fails. */
  function AfterHeader(s: ReadState): ReadState
    requires Enabled(s, HeaderDone)
  {
    var h := s.inbox[..HEADER_LENGTH];
    var s' := s.(msg := h + s.msg[HEADER_LENGTH..], inbox := s.inbox[HEADER_LENGTH..]);
    if Accepts(Head(s'.msg)) then s'.(phase := AwaitBody, marks := s.marks + [HeaderAccepted])
    else s'.(units := s.units + [h])
  }

  /** `handleReadBody` without error: the bytes have overwritten the start of the body; the message
      is counted and handed over, and the next header is asked for. */
  function AfterBody(s: ReadState): ReadState
    requires Enabled(s, BodyDone)
  {
    var n := Head(s.msg).bodyLength;
    var frame := s.msg[..HEADER_LENGTH] + s.inbox[..n];
    var m := frame + s.msg[HEADER_LENGTH + n..];
    s.(phase := AwaitHeader, msg := m, rx := Wrap64(s.rx + Length(m)), inbox := s.inbox[n..],
       units := s.units + [frame], delivered := s.delivered + [m[..HEADER_LENGTH + n]],
       marks := s.marks + [BodyRead])
  }

  /** The effect of a completion handler, or of bytes arriving; an event that is not enabled changes
      nothing. */
  function Step(s: ReadState, e: ReadEvent): ReadState {
    if !Enabled(s, e) then s else
    match e
    case Arrive(bytes) => s.(inbox := s.inbox + bytes, received := s.received + bytes)
    case HeaderDone => AfterHeader(s)
    case HeaderFail => s.(phase := LostHeader)
    case BodyDone => AfterBody(s)
    case BodyFail => s.(phase := LostBody)
  }

  /** The number of bytes in a sequence of frames. */
  function TotalBytes(fs: seq<seq<byte>>): nat {
    |Concat(fs)|
  }

  /** Everything that arrived is accounted for, in order. */
  ghost predicate BytesInv(s: ReadState) {
    && Segments(s.units)
    && s.received == Concat(s.units) + (Held(s) + s.inbox)
    && s.delivered == Kept(s.units)
    && (s.phase.AwaitBody? || s.phase.LostBody? ==> Accepts(Head(s.msg)))
  }

  /** The counter has grown by the frames delivered, rejected headers excluded. */
  ghost predicate CounterInv(s: ReadState) {
    s.rx == Wrap64(s.rx0 + TotalBytes(s.delivered))
  }

  /** Accepted headers and bodies strictly alternate, a header first; each body is a delivery. */
  ghost predicate OrderInv(s: ReadState) {
    && (forall i | 0 <= i < |s.marks| :: s.marks[i] == if i % 2 == 0 then HeaderAccepted else BodyRead)
    && |s.marks| == 2 * |s.delivered| + if s.phase.AwaitBody? || s.phase.LostBody? then 1 else 0
  }

  ghost predicate Inv(s: ReadState) {
    BytesInv(s) && CounterInv(s) && OrderInv(s)
  }

  lemma OpenedInv(msg: Image, rx: uint64)
    ensures Inv(Opened(msg, rx))
  {
  }

  /** The header now at the front of `_msg` is the one that was read. */
  lemma HeaderRead(s: ReadState)
    requires Enabled(s, HeaderDone)
    ensures var s' := AfterHeader(s);
            var h := s.inbox[..HEADER_LENGTH];
            && s.inbox == h + s'.inbox
            && s'.msg[..HEADER_LENGTH] == h
            && Head(s'.msg) == DecodeHeader(h)
  {
    hide DecodeHeader;
    HeaderOfPrefix(s.inbox[..HEADER_LENGTH], s.msg[HEADER_LENGTH..]);
  }

  /** The message object right after a body completes: exactly one whole frame that passed
      `checkHeader`, and the frame that is delivered. */
  lemma BodyDoneMessage(s: ReadState)
    requires Enabled(s, BodyDone) && Accepts(Head(s.msg))
    ensures var s' := AfterBody(s);
            && Head(s'.msg) == Head(s.msg) && Whole(s'.msg)
            && Frame(s'.msg) == s.msg[..HEADER_LENGTH] + s.inbox[..Head(s.msg).bodyLength]
            && s'.units == s.units + [Frame(s'.msg)]
            && s'.delivered == s.delivered + [Frame(s'.msg)]
            && Held(s) + s.inbox == Frame(s'.msg) + s'.inbox
  {
    hide DecodeHeader;
    var s' := AfterBody(s);
    var h, n := s.msg[..HEADER_LENGTH], Head(s.msg).bodyLength;
    assert s.msg == h + s.msg[HEADER_LENGTH..];
    HeaderOfPrefix(h, s.msg[HEADER_LENGTH..]);
    assert s'.msg == h + (s.inbox[..n] + s.msg[HEADER_LENGTH + n..]);
    HeaderOfPrefix(h, s.inbox[..n] + s.msg[HEADER_LENGTH + n..]);
    assert Frame(s'.msg) == h + s.inbox[..n];
    assert s.inbox == s.inbox[..n] + s.inbox[n..];
  }

  lemma HeaderDoneInv(s: ReadState)
    requires BytesInv(s) && Enabled(s, HeaderDone)
    ensures BytesInv(AfterHeader(s))
  {
    hide DecodeHeader;
    var s', h := AfterHeader(s), s.inbox[..HEADER_LENGTH];
    HeaderRead(s);
    assert Held(s) + s.inbox == h + s'.inbox;
    if !Accepts(DecodeHeader(h)) {
      assert Segment(h);
      KeptSnoc(s.units, h);
      ConcatSnoc(s.units, h);
      Regroup(Concat(s.units), h, s'.inbox);
      assert Held(s') + s'.inbox == s'.inbox;
    }
  }

  lemma BodyDoneInv(s: ReadState)
    requires BytesInv(s) && Enabled(s, BodyDone)
    ensures BytesInv(AfterBody(s))
  {
    hide DecodeHeader;
    var s' := AfterBody(s);
    BodyDoneMessage(s);
    var frame := Frame(s'.msg);
    FrameIsSegment(s'.msg);
    KeptSnoc(s.units, frame);
    ConcatSnoc(s.units, frame);
    Regroup(Concat(s.units), frame, s'.inbox);
    assert Held(s') + s'.inbox == s'.inbox;
  }

  lemma BodyDoneCounter(s: ReadState)
    requires BytesInv(s) && CounterInv(s) && Enabled(s, BodyDone)
    ensures CounterInv(AfterBody(s))
  {
    hide DecodeHeader;
    var s' := AfterBody(s);
    BodyDoneMessage(s);
    var frame := Frame(s'.msg);
    ConcatSnoc(s.delivered, frame);
    Wrap64Add(s.rx0 + TotalBytes(s.delivered), |frame|);
  }

  lemma ArriveInv(s: ReadState, bytes: seq<byte>)
    requires BytesInv(s)
    ensures BytesInv(Step(s, Arrive(bytes)))
  {
    hide DecodeHeader;
    Regroup(Concat(s.units), Held(s) + s.inbox, bytes);
    Regroup(Held(s), s.inbox, bytes);
  }

  lemma OrderStep(s: ReadState, e: ReadEvent)
    requires OrderInv(s)
    ensures OrderInv(Step(s, e))
  {
    hide DecodeHeader, Wrap64;
  }

  lemma StepInv(s: ReadState, e: ReadEvent)
    requires Inv(s)
    ensures Inv(Step(s, e))
  {
    hide DecodeHeader, Wrap64;
    OrderStep(s, e);
    if Enabled(s, e) {
      match e
      case Arrive(bytes) => ArriveInv(s, bytes);
      case HeaderDone => HeaderDoneInv(s);
      case BodyDone => BodyDoneInv(s); BodyDoneCounter(s);
      case HeaderFail => assert Held(Step(s, e)) == Held(s);
      case BodyFail => assert Held(Step(s, e)) == Held(s);
    }
  }

  /** No read has failed. */
  predicate Awaiting(s: ReadState) {
    s.phase.AwaitHeader? || s.phase.AwaitBody?
  }

  /** No read can complete with what has arrived so far. */
  predicate Quiet(s: ReadState) {
    !Enabled(s, HeaderDone) && !Enabled(s, BodyDone)
  }

  /** The reader refines the one-shot parser: it has delivered a prefix of what the parser takes out
      of the bytes received, and the whole of it once its pending read cannot complete. */
  lemma RefinesParser(s: ReadState)
    requires Inv(s)
    ensures s.delivered <= Parse(s.received)
    ensures Awaiting(s) && Quiet(s) ==> s.delivered == Parse(s.received)
  {
    hide DecodeHeader;
    ParseSegments(s.units, Held(s) + s.inbox);
    if s.phase.AwaitBody? {
      assert s.msg == s.msg[..HEADER_LENGTH] + s.msg[HEADER_LENGTH..];
      HeaderOfPrefix(s.msg[..HEADER_LENGTH], s.msg[HEADER_LENGTH..]);
      HeaderOfPrefix(s.msg[..HEADER_LENGTH], s.inbox);
    }
  }

  /** What completing reads uses up. */
  function Unread(s: ReadState): nat {
    2 * |s.inbox| + if s.phase.AwaitBody? then 1 else 0
  }

  /** A completed read leaves the next one outstanding, whether or not the header was accepted. */
  lemma ReadProgress(s: ReadState, e: ReadEvent)
    requires Enabled(s, e) && (e.HeaderDone? || e.BodyDone?)
    ensures var s' := Step(s, e);
            Awaiting(s') && s'.received == s.received && Unread(s') < Unread(s)
  {
    hide DecodeHeader, Wrap64;
  }

  /** The pending read completes, and the one after it, for as long as the bytes last. */
  function Drain(s: ReadState): ReadState
    decreases Unread(s)
  {
    if Enabled(s, HeaderDone) then ReadProgress(s, HeaderDone); Drain(Step(s, HeaderDone))
    else if Enabled(s, BodyDone) then ReadProgress(s, BodyDone); Drain(Step(s, BodyDone))
    else s
  }

  /** From every reachable state whose reads have not failed, the reads outstanding and those they
      start deliver all that the parser takes out of the bytes received, bad headers or not. */
  lemma {:induction false} DrainDeliversParse(s: ReadState)
    requires Inv(s) && Awaiting(s)
    ensures var s' := Drain(s);
            && Inv(s') && Awaiting(s') && Quiet(s')
            && s'.received == s.received && s'.delivered == Parse(s.received)
    decreases Unread(s)
  {
    hide Inv, Enabled, Step, Unread, Parse;
    if Quiet(s) {
      RefinesParser(s);
    } else {
      var e := if Enabled(s, HeaderDone) then HeaderDone else BodyDone;
      StepInv(s, e);
      ReadProgress(s, e);
      DrainDeliversParse(Step(s, e));
    }
  }
}
