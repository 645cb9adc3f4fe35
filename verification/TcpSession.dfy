/** Src/TcpSession.cpp: the session object, its handlers, and what they have asked Asio to do. */
module TcpSessions {
  import opened Bytes
  import F = Frames
  import Message
  import R = ReadChain
  import S = SendChain
  import Session

  datatype State = Ready | Opening | Opened | Closed

  datatype ErrorCode = Eof | OperationAborted | OtherError

  datatype CloseReason = ActiveClose | Disconnected

  /** The outstanding read, if any: of a header, or of a body of the size asked for. */
  datatype Pending = NoRead | HeaderRead | BodyRead(size: int)

  function ReasonOf(ec: ErrorCode): CloseReason {
    if ec == Eof || ec == OperationAborted then Disconnected else ActiveClose
  }

  lemma BodyEnabled(read: R.ReadState)
    requires R.Inv(read) && read.phase.AwaitBody? && 0 <= F.Head(read.msg).bodyLength <= |read.inbox|
    ensures R.Enabled(read, R.BodyDone) && F.Accepts(F.Head(read.msg)) && F.Head(read.msg).bodyLength <= F.MAX_DATA
  {
    hide F.DecodeHeader, R.CounterInv, R.OrderInv;
  }

  lemma BodyDoneValues(read: R.ReadState, bytes: seq<byte>)
    requires R.Enabled(read, R.BodyDone) && bytes == read.inbox[..F.Head(read.msg).bodyLength]
    ensures var m, read' := read.msg, R.Step(read, R.BodyDone);
            && F.HEADER_LENGTH + |bytes| <= F.IMAGE_LENGTH && read'.phase.AwaitHeader?
            && read'.msg == m[..F.HEADER_LENGTH] + bytes + m[F.HEADER_LENGTH + |bytes|..]
            && read'.rx == Wrap64(read.rx + F.Length(read'.msg))
  {
    hide F.Head, F.Length, Wrap64;
  }

  lemma BodyDoneWhole(read: R.ReadState)
    requires R.Enabled(read, R.BodyDone) && F.Accepts(F.Head(read.msg))
    ensures F.Whole(R.Step(read, R.BodyDone).msg)
  {
    R.BodyDoneMessage(read);
    hide F.Whole, F.Head, F.Length, Wrap64;
  }

  /** What the specification does when a body completes. */
  lemma BodyDoneStep(model: Session.SessionState, bytes: seq<byte>)
    requires Session.Inv(model) && model.read.phase.AwaitBody?
    requires var n := F.Head(model.read.msg).bodyLength;
             0 <= n <= |model.read.inbox| && bytes == model.read.inbox[..n]
    ensures var m := model.read.msg;
            var model' := Session.Step(model, Session.OnRead(R.BodyDone));
            && F.HEADER_LENGTH + |bytes| <= F.IMAGE_LENGTH
            && Session.Inv(model') && model'.read.phase.AwaitHeader? && F.Whole(model'.read.msg)
            && model'.read.msg == m[..F.HEADER_LENGTH] + bytes + m[F.HEADER_LENGTH + |bytes|..]
            && model'.read.rx == Wrap64(model.read.rx + F.Length(model'.read.msg))
            && model'.send == model.send && model'.reports == model.reports
  {
    Session.StepInv(model, Session.OnRead(R.BodyDone));
    BodyEnabled(model.read);
    BodyDoneValues(model.read, bytes);
    BodyDoneWhole(model.read);
    hide Session.Inv, R.Step, R.Enabled, F.Head, F.Length, F.Whole, Wrap64;
  }

  lemma BodyFailStep(model: Session.SessionState)
    requires Session.Inv(model) && model.read.phase.AwaitBody?
    ensures var model' := Session.Step(model, Session.OnRead(R.BodyFail));
            && Session.Inv(model') && model'.read == model.read.(phase := R.LostBody)
            && model'.send == model.send && model'.reports == model.reports + 1
  {
    Session.StepInv(model, Session.OnRead(R.BodyFail));
    hide R.Inv, S.Inv, F.DecodeHeader;
  }

  class TcpSession {
    const id: int
    const msg: Message.Msg
    var state: State
    var sendQue: seq<F.Image>
    var tx: uint64
    var rx: uint64

    // What Asio has been asked for: at most one write and one read.
    var writing: Option<F.Image>
    var reading: Pending

    /** The state of the specification that this object is in. */
    ghost var model: Session.SessionState

    ghost predicate Tied(pending: Pending)
      reads this, msg.raw
    {
      && msg.Valid() && state.Opened?
      && model.send.queue == sendQue && model.send.tx == tx && model.send.inflight == writing
      && model.read.msg == msg.Value() && model.read.rx == rx
      && reading == pending
      && Session.Inv(model)
    }

    /** The read that the read chain is waiting for. */
    ghost function Awaited(): Pending
      reads this
    {
      match model.read.phase
      case AwaitHeader => HeaderRead
      case AwaitBody => BodyRead(F.Head(model.read.msg).bodyLength)
      case _ => NoRead
    }

    ghost predicate Valid()
      reads this, msg.raw
    {
      Tied(Awaited())
    }

    /** Inside the handler of a completed body, before the next header is asked for. */
    ghost predicate Delivering()
      reads this, msg.raw
    {
      Tied(NoRead) && model.read.phase.AwaitHeader?
    }

    ghost predicate Made()
      reads this
    {
      msg.Valid() && state.Ready? && sendQue == [] && writing.None? && reading.NoRead?
    }

    /** Neither counter is initialised. */
    constructor (id: int)
      ensures Made() && this.id == id && fresh(msg) && fresh(msg.raw)
    {
      this.id := id;
      msg := new Message.Msg();
      state := Ready;
      sendQue := [];
      writing := None;
      reading := NoRead;
      tx := *;
      rx := *;
    }

    method Start()
      requires Made()
      modifies this
      ensures Valid() && msg.Valid() && model == Session.Opened(msg.Value(), tx, rx) && tx == old(tx) && rx == old(rx)
      ensures state.Opened? && reading == HeaderRead && writing.None? && sendQue == []
    {
      state := Opening;
      state := Opened;
      R.OpenedInv(msg.Value(), rx);
      Read();
      model := Session.Opened(msg.Value(), tx, rx);
    }

    /** `read`: asks for a header. It may be called only when no read is outstanding. */
    method Read()
      requires reading.NoRead?
      modifies this`reading
      ensures reading == HeaderRead
    {
      reading := HeaderRead;
    }

    /** `async_write` of one buffer. It may be called only when no write is outstanding. */
    method AsyncWrite(buffer: F.Image)
      requires writing.None?
      modifies this`writing
      ensures writing == Some(buffer)
    {
      writing := Some(buffer);
    }

    /** Both overloads of `send`. */
    method Send(m: F.Image)
      requires Valid() || Delivering()
      modifies this
      ensures model == Session.Step(old(model), Session.Send(m))
      ensures old(Valid()) ==> Valid()
      ensures old(Delivering()) ==> Delivering()
    {
      Session.StepInv(model, Session.Send(m));
      hide R.Inv, F.Head;
      var progress := sendQue != [];
      sendQue := sendQue + [m];
      if !progress {
        AsyncWrite(sendQue[0]);
      }
      model := Session.Step(model, Session.Send(m));
    }

    /** `handleWrite`, called when the outstanding write has completed; its result is the call of
        `_closedHandler`, if it makes one. */
    method HandleWrite(ec: Option<ErrorCode>) returns (report: Option<CloseReason>)
      requires Valid() && writing.Some?
      modifies this
      ensures Valid()
      ensures model == Session.Step(old(model), Session.OnWrite(if ec.None? then S.WriteDone else S.WriteFail))
      ensures writing.Some? <==> ec.None? && sendQue != []
      ensures report == Some(Disconnected) <==> ec == Some(Eof) || ec == Some(OperationAborted)
      ensures report == Some(ActiveClose) <==> ec == Some(OtherError)
      ensures model.reports == old(model.reports) + if report.Some? then 1 else 0
    {
      ghost var e := Session.OnWrite(if ec.None? then S.WriteDone else S.WriteFail);
      Session.StepInv(model, e);
      hide R.Inv, F.Length, Wrap64;
      writing := None;
      if ec.Some? {
        report := Some(ReasonOf(ec.value));
      } else {
        tx := Wrap64(tx + F.Length(sendQue[0]));
        sendQue := sendQue[1..];
        if sendQue != [] {
          AsyncWrite(sendQue[0]);
        }
        report := None;
      }
      model := Session.Step(model, e);
    }

    /** Bytes reach the socket. */
    ghost method Arrive(bytes: seq<byte>)
      requires Valid()
      modifies this`model
      ensures Valid() && model == Session.Step(old(model), Session.OnRead(R.Arrive(bytes)))
    {
      Session.StepInv(model, Session.OnRead(R.Arrive(bytes)));
      hide R.Inv, S.Inv, F.Head;
      model := Session.Step(model, Session.OnRead(R.Arrive(bytes)));
    }

    /** The completion of a header read: an error is only logged. A completion without error has
        filled the header with the first eight bytes that had arrived. */
    method HeaderCompleted(ec: Option<ErrorCode>, bytes: seq<byte>)
      requires Valid() && reading.HeaderRead?
      requires ec.None? ==> |model.read.inbox| >= F.HEADER_LENGTH && bytes == model.read.inbox[..F.HEADER_LENGTH]
      modifies this, msg.raw
      ensures Valid()
      ensures model == Session.Step(old(model), Session.OnRead(if ec.None? then R.HeaderDone else R.HeaderFail))
      ensures ec.Some? <==> reading.NoRead?
    {
      ghost var e := Session.OnRead(if ec.None? then R.HeaderDone else R.HeaderFail);
      Session.StepInv(model, e);
      hide R.Inv, S.Inv, F.DecodeHeader, F.Accepts;
      reading := NoRead;
      if ec.None? {
        msg.Overwrite(0, bytes);
        assert msg.Value() == R.AfterHeader(model.read).msg;
        HandleReadHeader();
      }
      model := Session.Step(model, e);
    }

    /** `handleReadHeader` without error: asks for the body, or for another header if the check fails. */
    method HandleReadHeader()
      requires msg.Valid() && reading.NoRead?
      modifies this`reading
      ensures var h := F.Head(msg.Value());
              reading == if F.Accepts(h) then BodyRead(h.bodyLength) else HeaderRead
    {
      var ok := msg.CheckHeader();
      if !ok {
        Read();
      } else {
        var m := msg.Copy();
        reading := BodyRead(F.Head(m).bodyLength);
      }
    }

    /** `handleReadBody` up to the call of `_messageHandler`. A completion without error has filled the
        body with as many of the bytes that had arrived as were asked for. */
    method BodyCompleted(ec: Option<ErrorCode>, bytes: seq<byte>) returns (report: Option<CloseReason>)
      requires Valid() && reading.BodyRead?
      requires ec.None? ==> 0 <= reading.size <= |model.read.inbox| && bytes == model.read.inbox[..reading.size]
      modifies this, msg.raw
      ensures model == Session.Step(old(model), Session.OnRead(if ec.None? then R.BodyDone else R.BodyFail))
      ensures if ec.None? then Delivering() && F.Whole(msg.Value()) else Valid()
      ensures reading.NoRead?
      ensures report == Some(Disconnected) <==> ec == Some(Eof) || ec == Some(OperationAborted)
      ensures report == Some(ActiveClose) <==> ec == Some(OtherError)
      ensures model.reports == old(model.reports) + if report.Some? then 1 else 0
    {
      hide Session.Inv, Session.Step, F.Head, F.Whole, F.Length, Wrap64;
      ghost var e := Session.OnRead(if ec.None? then R.BodyDone else R.BodyFail);
      reading := NoRead;
      if ec.Some? {
        BodyFailStep(model);
        report := Some(ReasonOf(ec.value));
      } else {
        BodyDoneStep(model, bytes);
        Receive(bytes);
        report := None;
      }
      model := Session.Step(model, e);
    }

    /** The body fills the message object, and its length is counted. */
    method Receive(bytes: seq<byte>)
      requires msg.Valid() && F.HEADER_LENGTH + |bytes| <= F.IMAGE_LENGTH
      modifies this`rx, msg.raw
      ensures msg.Value() == old(msg.Value())[..F.HEADER_LENGTH] + bytes + old(msg.Value())[F.HEADER_LENGTH + |bytes|..]
      ensures rx == Wrap64(old(rx) + F.Length(msg.Value()))
    {
      hide F.Length, Wrap64;
      msg.Overwrite(F.HEADER_LENGTH, bytes);
      var m := msg.Copy();
      rx := Wrap64(rx + F.Length(m));
    }

    /** The end of `handleReadBody`, after `_messageHandler` has returned. */
    method BodyHandled()
      requires Delivering()
      modifies this`reading
      ensures Valid() && model == old(model)
    {
      Read();
    }
  }
}
