/** chat_server/ChatServer.cpp: dispatch of a received message and broadcast over the registry. */
module ChatServers {
  import opened Bytes
  import F = Frames
  import R = ReadChain
  import S = SendChain
  import Session
  import G = Registry
  import C = ChatSystem
  import L = Link
  import T = TotalOrder
  import P = Lifetimes
  import opened TcpSessions
  import opened TcpServers

  /** The sessions under the given ids, without the sender's. */
  ghost function Targets(sessions: map<int, TcpSession>, ids: set<int>, session: TcpSession): set<TcpSession> {
    set i | i in ids && i in sessions && sessions[i] != session :: sessions[i]
  }

  lemma OneMoreTarget(sessions: map<int, TcpSession>, ids: set<int>, i: int, session: TcpSession)
    requires Distinct(sessions) && i in sessions && i !in ids
    ensures Targets(sessions, ids + {i}, session)
            == Targets(sessions, ids, session) + if sessions[i] == session then {} else {sessions[i]}
    ensures sessions[i] !in Targets(sessions, ids, session)
    ensures sessions[i] != session ==> sessions[i] in Targets(sessions, sessions.Keys, session)
  {
  }

  /** A broadcast under way: those in `sent` have got their copy. */
  ghost predicate Half(all: set<TcpSession>, sent: set<TcpSession>,
                       before: map<TcpSession, Session.SessionState>, m: F.Image)
    reads all, set s | s in all :: s.msg.raw
  {
    forall s <- all ::
      && s.Valid() && s in before
      && s.model == if s in sent then Session.Step(before[s], Session.Send(m)) else before[s]
  }

  method SendOne(s: TcpSession, m: F.Image, ghost all: set<TcpSession>, ghost sent: set<TcpSession>,
                 ghost before: map<TcpSession, Session.SessionState>)
    requires s in all && s !in sent && Half(all, sent, before, m)
    modifies s
    ensures Half(all, sent + {s}, before, m)
  {
    s.Send(m);
    hide Session.Step;
  }

  /** The body of the loop of `nfMessage`. */
  method Visit(sessions: map<int, TcpSession>, i: int, session: TcpSession, m: F.Image, ghost did: set<int>,
               ghost all: set<TcpSession>, ghost before: map<TcpSession, Session.SessionState>)
    requires Distinct(sessions) && i in sessions && i !in did && all == Targets(sessions, sessions.Keys, session)
    requires Half(all, Targets(sessions, did, session), before, m)
    modifies all
    ensures Half(all, Targets(sessions, did + {i}, session), before, m)
  {
    OneMoreTarget(sessions, did, i, session);
    hide *;
    if sessions[i] != session {
      SendOne(sessions[i], m, all, Targets(sessions, did, session), before);
    }
  }

  lemma {:induction false} LeastExists(s: set<int>)
    requires s != {}
    ensures exists i :: i in s && forall j <- s :: i <= j
  {
    if forall x :: x !in s {
      assert false;
    }
    var x :| x in s;
    var rest := s - {x};
    assert forall j <- s :: j == x || j in rest;
    if rest == {} {
      assert forall j <- s :: x <= j;
    } else {
      LeastExists(rest);
      var y :| y in rest && forall j <- rest :: y <= j;
      var z := if x <= y then x else y;
      assert z in s && forall j <- s :: z <= j;
    }
  }

  lemma MoveOne(keys: set<int>, todo: set<int>, did: set<int>, i: int)
    requires todo + did == keys && todo !! did && i in todo
    ensures i in keys && i !in did
    ensures (todo - {i}) + (did + {i}) == keys && todo - {i} !! did + {i}
  {
  }

  /** The loop of `nfMessage`, in the order of the map's keys. */
  method SendToAll(sessions: map<int, TcpSession>, session: TcpSession, m: F.Image,
                   ghost all: set<TcpSession>, ghost before: map<TcpSession, Session.SessionState>)
    requires Distinct(sessions) && all == Targets(sessions, sessions.Keys, session)
    requires Half(all, {}, before, m)
    modifies all
    ensures Half(all, all, before, m)
  {
    var keys := sessions.Keys;
    var todo := keys;
    ghost var did: set<int> := {};
    assert Targets(sessions, {}, session) == {};
    hide *;
    assert todo + did == keys && todo !! did;
    while todo != {}
      invariant todo + did == keys && todo !! did
      invariant Half(all, Targets(sessions, did, session), before, m)
      decreases todo
    {
      LeastExists(todo);
      var i :| i in todo && forall j <- todo :: i <= j;
      MoveOne(keys, todo, did, i);
      Visit(sessions, i, session, m, did, all, before);
      todo, did := todo - {i}, did + {i};
    }
    assert did == keys;
  }

  /** A completed body changes nothing of the other sessions. */
  method ReceiveBody(session: TcpSession, bytes: seq<byte>, ghost others: set<TcpSession>)
    requires session.Valid() && session.reading.BodyRead? && session !in others
    requires var inbox := session.model.read.inbox;
             0 <= session.reading.size <= |inbox| && bytes == inbox[..session.reading.size]
    requires forall s <- others :: s.Valid() && s.msg.raw != session.msg.raw
    modifies session, session.msg.raw
    ensures session.Delivering() && session.model == Session.Step(old(session.model), Session.OnRead(R.BodyDone))
    ensures forall s <- others :: s.Valid() && s.model == old(s.model)
  {
    hide Session.Step, TcpSession.Tied;
    var _ := session.BodyCompleted(None, bytes);
  }

  // The sessions of a chat server and the connections of the specification.

  /** Different sessions have different message buffers. */
  ghost predicate Apart(roster: seq<TcpSession>) {
    forall q, r | 0 <= q < r < |roster| :: roster[q] != roster[r] && roster[q].msg.raw != roster[r].msg.raw
  }

  /** Every session object is in the state of its connection in the specification. */
  ghost predicate Tracks(roster: seq<TcpSession>, conns: seq<C.Conn>)
    reads roster, set s | s in roster :: s.msg.raw
  {
    |roster| == |conns| && forall r | 0 <= r < |roster| :: roster[r].Valid() && roster[r].model == conns[r].near
  }

  /** All but one do. */
  ghost predicate TracksOthers(roster: seq<TcpSession>, conns: seq<C.Conn>, r: nat)
    reads roster, set s | s in roster :: s.msg.raw
  {
    && |roster| == |conns|
    && forall i | 0 <= i < |roster| && i != r :: roster[i].Valid() && roster[i].model == conns[i].near
  }

  function WithNear(conns: seq<C.Conn>, r: nat, near: Session.SessionState): seq<C.Conn>
    requires r < |conns|
  {
    conns[r := conns[r].(near := near)]
  }

  lemma TracksBut(roster: seq<TcpSession>, conns: seq<C.Conn>, r: nat)
    requires r < |roster| == |conns|
    ensures Tracks(roster, conns)
            <==> TracksOthers(roster, conns, r) && roster[r].Valid() && roster[r].model == conns[r].near
  {
    hide TcpSession.Valid;
  }

  lemma TracksEach(roster: seq<TcpSession>, conns: seq<C.Conn>)
    requires Tracks(roster, conns)
    ensures |roster| == |conns|
    ensures forall r | 0 <= r < |roster| :: roster[r].Valid() && roster[r].model == conns[r].near
  {
    hide TcpSession.Valid;
  }

  lemma TracksAll(roster: seq<TcpSession>, conns: seq<C.Conn>)
    requires |roster| == |conns|
    requires forall r | 0 <= r < |roster| :: roster[r].Valid() && roster[r].model == conns[r].near
    ensures Tracks(roster, conns)
  {
    hide TcpSession.Valid;
  }

  lemma ApartFrom(roster: seq<TcpSession>, r: nat)
    requires Apart(roster) && r < |roster|
    ensures forall i | 0 <= i < |roster| && i != r :: roster[i] != roster[r] && roster[i].msg.raw != roster[r].msg.raw
  {
  }

  lemma ApartWith(roster: seq<TcpSession>, session: TcpSession)
    requires Apart(roster) && forall r | 0 <= r < |roster| :: roster[r] != session && roster[r].msg.raw != session.msg.raw
    ensures Apart(roster + [session])
  {
  }

  lemma TracksWith(roster: seq<TcpSession>, conns: seq<C.Conn>, r: nat, near: Session.SessionState)
    requires r < |roster| && TracksOthers(roster, conns, r) && roster[r].Valid() && roster[r].model == near
    ensures Tracks(roster, WithNear(conns, r, near))
  {
    hide TcpSession.Valid;
  }

  lemma TracksOne(roster: seq<TcpSession>, conns: seq<C.Conn>, c: C.Conn, session: TcpSession)
    requires Tracks(roster, conns) && session.Valid() && session.model == c.near
    ensures Tracks(roster + [session], conns + [c])
  {
    hide TcpSession.Valid;
  }

  /** A header read completes at one of the sessions. */
  method HeaderAt(ghost roster: seq<TcpSession>, ghost conns: seq<C.Conn>, ghost r: nat,
                  session: TcpSession, ec: Option<ErrorCode>, bytes: seq<byte>)
    requires Apart(roster) && Tracks(roster, conns) && r < |roster| && roster[r] == session
    requires session.Valid() && session.reading.HeaderRead?
    requires ec.None? ==> |session.model.read.inbox| >= F.HEADER_LENGTH
                          && bytes == session.model.read.inbox[..F.HEADER_LENGTH]
    modifies session, session.msg.raw
    ensures ec.Some? <==> session.reading.NoRead?
    ensures r < |conns|
    ensures Tracks(roster, WithNear(conns, r, Session.Step(conns[r].near,
              Session.OnRead(if ec.None? then R.HeaderDone else R.HeaderFail))))
  {
    assert r < |conns|;
    TracksBut(roster, conns, r);
    hide TcpSession.Valid, Tracks, Session.Step, WithNear;
    session.HeaderCompleted(ec, bytes);
    TracksWith(roster, conns, r, session.model);
  }

  /** A write completes at one of the sessions. */
  method WriteAt(ghost roster: seq<TcpSession>, ghost conns: seq<C.Conn>, ghost r: nat,
                 session: TcpSession, ec: Option<ErrorCode>) returns (report: Option<CloseReason>)
    requires Apart(roster) && Tracks(roster, conns) && r < |roster| && roster[r] == session
    requires session.Valid() && session.writing.Some?
    modifies session
    ensures report.Some? <==> ec.Some?
    ensures r < |conns|
    ensures Tracks(roster, WithNear(conns, r, Session.Step(conns[r].near,
              Session.OnWrite(if ec.None? then S.WriteDone else S.WriteFail))))
  {
    assert r < |conns|;
    TracksBut(roster, conns, r);
    hide TcpSession.Valid, Tracks, Session.Step, WithNear;
    report := session.HandleWrite(ec);
    TracksWith(roster, conns, r, session.model);
  }

  /** A body read fails at one of the sessions. */
  method BodyFailAt(ghost roster: seq<TcpSession>, ghost conns: seq<C.Conn>, ghost r: nat,
                    session: TcpSession, ec: ErrorCode) returns (report: Option<CloseReason>)
    requires Apart(roster) && Tracks(roster, conns) && r < |roster| && roster[r] == session
    requires session.Valid() && session.reading.BodyRead?
    modifies session, session.msg.raw
    ensures report.Some?
    ensures r < |conns|
    ensures Tracks(roster, WithNear(conns, r, Session.Step(conns[r].near, Session.OnRead(R.BodyFail))))
  {
    assert r < |conns|;
    TracksBut(roster, conns, r);
    hide TcpSession.Valid, Tracks, Session.Step, WithNear;
    report := session.BodyCompleted(Some(ec), []);
    TracksWith(roster, conns, r, session.model);
  }

  /** Bytes reach one of the sessions. */
  ghost method ArriveAt(roster: seq<TcpSession>, conns: seq<C.Conn>, r: nat, session: TcpSession, bytes: seq<byte>)
    requires Apart(roster) && Tracks(roster, conns) && r < |roster| && roster[r] == session
    modifies session`model
    ensures r < |conns|
    ensures Tracks(roster, WithNear(conns, r, Session.Step(conns[r].near, Session.OnRead(R.Arrive(bytes)))))
  {
    assert r < |conns|;
    TracksBut(roster, conns, r);
    hide TcpSession.Valid, Tracks, Session.Step, WithNear;
    session.Arrive(bytes);
    TracksWith(roster, conns, r, session.model);
  }

  // What the events of the objects do in the specification.

  lemma QuietRead(s: C.System, r: nat, e: R.ReadEvent)
    requires r < |s.conns| && (e.Arrive? || e.HeaderDone? || e.HeaderFail?)
    ensures C.Step(s, C.Read(r, e)) == s.(conns := WithNear(s.conns, r, Session.Step(s.conns[r].near, Session.OnRead(e))))
  {
    hide Session.Step, R.Enabled;
  }

  lemma QuietWrite(s: C.System, r: nat)
    requires r < |s.conns|
    ensures C.Step(s, C.Write(r, S.WriteDone))
            == s.(conns := WithNear(s.conns, r, Session.Step(s.conns[r].near, Session.OnWrite(S.WriteDone))))
  {
    hide Session.Step, S.Enabled;
  }

  lemma FailedBody(s: C.System, r: nat)
    requires r < |s.conns| && s.conns[r].near.read.phase.AwaitBody?
    ensures C.Step(s, C.Read(r, R.BodyFail))
            == s.(conns := WithNear(s.conns, r, Session.Step(s.conns[r].near, Session.OnRead(R.BodyFail))),
                  reg := G.Close(s.reg, r))
  {
    hide Session.Step, G.Close;
  }

  lemma FailedWrite(s: C.System, r: nat)
    requires r < |s.conns| && S.Enabled(s.conns[r].near.send)
    ensures C.Step(s, C.Write(r, S.WriteFail))
            == s.(conns := WithNear(s.conns, r, Session.Step(s.conns[r].near, Session.OnWrite(S.WriteFail))),
                  reg := G.Close(s.reg, r))
  {
    hide Session.Step, G.Close, S.Enabled;
  }

  lemma FailedAccepted(s: C.System)
    ensures C.Step(s, C.AcceptFailed) == s.(reg := G.AcceptError(s.reg))
  {
  }

  lemma NothingAccepted(s: C.System, e: C.Event)
    requires e.Accepted? && |G.Accept(s.reg).ids| == |s.reg.ids|
    ensures C.Step(s, e) == s.(reg := G.Accept(s.reg))
  {
    hide G.Accept;
  }

  lemma StartedParts(session: TcpSession)
    requires NewlyOpened(session)
    ensures session.Valid() && session.msg.Valid()
    ensures session.model == Session.Opened(session.msg.Value(), session.tx, session.rx)
  {
    hide Session.Inv;
  }

  lemma OfferNear(c: C.Conn, i: nat, registered: bool, r: nat, m: F.Image, position: nat)
    ensures C.Offer(c, i, registered, r, m, position).near
            == if registered && i != r then Session.Step(c.near, Session.Send(m)) else c.near
  {
    hide Session.Step;
  }

  /** A completed body and its dispatch, session by session. */
  lemma NearAfterBody(s: C.System, r: nat, i: nat)
    requires r < |s.conns| && i < |s.conns| && R.Enabled(s.conns[r].near.read, R.BodyDone)
    ensures var s' := C.Step(s, C.Read(r, R.BodyDone));
            var near := Session.Step(s.conns[r].near, Session.OnRead(R.BodyDone));
            var m := near.read.msg;
            && s'.reg == s.reg && |s'.conns| == |s.conns|
            && s'.conns[i].near == if i == r then near
                                   else if m[4..8] == [3, 0, 0, 0] && G.Registered(s.reg, i)
                                   then Session.Step(s.conns[i].near, Session.Send(m))
                                   else s.conns[i].near
  {
    C.BodyStepParts(s, r);
    var near := Session.Step(s.conns[r].near, Session.OnRead(R.BodyDone));
    var ci := if i == r then s.conns[r].(near := near) else s.conns[i];
    OfferNear(ci, i, G.Registered(s.reg, i), r, near.read.msg, |s.log| + 1);
    F.ChatLayout(near.read.msg);
    hide Session.Step, R.Enabled, C.Offer, C.ReadStep, G.Registered, F.Head;
  }

  lemma FarOnly(s: C.System, r: nat, e: R.ReadEvent)
    ensures var s' := C.Step(s, C.Far(r, e));
            && s'.reg == s.reg && |s'.conns| == |s.conns|
            && forall i | 0 <= i < |s.conns| :: s'.conns[i].near == s.conns[i].near
  {
    hide L.FarStep;
  }

  /** A session with an outstanding write, or body read, is one whose specification has it too. */
  lemma WriteIsEnabled(session: TcpSession)
    requires session.Valid() && session.writing.Some?
    ensures S.Enabled(session.model.send)
  {
    hide R.Inv, Wrap64, F.Head;
  }

  lemma BodyIsEnabled(session: TcpSession)
    requires session.Valid() && session.reading.BodyRead?
    ensures session.model.read.phase.AwaitBody?
    ensures 0 <= session.reading.size <= |session.model.read.inbox| ==> R.Enabled(session.model.read, R.BodyDone)
  {
    hide R.CounterInv, R.OrderInv, S.Inv, F.DecodeHeader;
  }

  class ChatServer {
    const server: TcpServer

    /** The events that have happened, and the state of the specification after them. */
    ghost var history: seq<C.Event>
    ghost var model: C.System

    /** The server and all sessions ever opened are in the state that the specification of the whole
        system reaches by the events that have happened. */
    ghost predicate Valid()
      reads this, server, server.roster, set s | s in server.roster :: s.msg.raw
    {
      && server.Valid() && server.model == model.reg
      && Apart(server.roster) && Tracks(server.roster, model.conns)
      && model == C.After(C.Init(server.maxSession), history)
    }

    constructor (server: TcpServer)
      requires server.Valid() && server.roster == [] && server.model == G.Init(server.maxSession)
      ensures this.server == server && Valid() && history == []
    {
      this.server := server;
      history := [];
      model := C.Init(server.maxSession);
    }

    /** What `Valid` consists of. */
    lemma Parts()
      requires Valid()
      ensures server.Valid() && server.model == model.reg
      ensures Apart(server.roster) && Tracks(server.roster, model.conns) && |server.roster| == |model.conns|
      ensures model == C.After(C.Init(server.maxSession), history)
    {
      TracksEach(server.roster, model.conns);
      hide TcpServer.Valid, Apart, Tracks, C.After;
    }

    lemma Assemble()
      requires server.Valid() && server.model == model.reg
      requires Apart(server.roster) && Tracks(server.roster, model.conns)
      requires model == C.After(C.Init(server.maxSession), history)
      ensures Valid()
    {
      hide TcpServer.Valid, Apart, Tracks, C.After;
    }

    /** The specification does the same event. */
    ghost method Advance(e: C.Event)
      requires model == C.After(C.Init(server.maxSession), history)
      modifies this
      ensures model == C.Step(old(model), e) && history == old(history) + [e]
      ensures model == C.After(C.Init(server.maxSession), history)
    {
      C.OneMore(C.Init(server.maxSession), history, e);
      hide C.Step, C.After;
      model := C.Step(model, e);
      history := history + [e];
    }

    /** The registered sessions other than the given one. */
    ghost function Receivers(session: TcpSession): set<TcpSession>
      reads server
    {
      Targets(server.sessions, server.sessions.Keys, session)
    }

    /** `nfMessage`: every registered session but the sender gets a copy of the sender's message. */
    method NfMessage(session: TcpSession)
      requires session.msg.Valid() && server.Valid()
      requires forall s <- Receivers(session) :: s.Valid()
      modifies Receivers(session)
      ensures forall s <- Receivers(session) ::
                s.Valid() && s.model == Session.Step(old(s.model), Session.Send(old(session.msg.Value())))
    {
      var m := session.msg.Copy();
      ghost var all := Receivers(session);
      ghost var before := map s | s in all :: s.model;
      assert Half(all, {}, before, m);
      server.RegisteredObjects();
      hide Distinct, Session.Step, TcpSession.Valid;
      SendToAll(server.sessions, session, m, all, before);
    }

    /** `messageHandler`: only a chat message sends anything. The ranking commands are not modelled. */
    method MessageHandler(session: TcpSession)
      requires session.msg.Valid() && server.Valid()
      requires forall s <- Receivers(session) :: s.Valid()
      modifies Receivers(session)
      ensures forall s <- Receivers(session) ::
                && s.Valid()
                && s.model == if old(session.msg.Value())[4..8] == [3, 0, 0, 0]
                              then Session.Step(old(s.model), Session.Send(old(session.msg.Value())))
                              else old(s.model)
    {
      var m := session.msg.Copy();
      var id := F.Head(m).msgId;
      F.ChatLayout(m);
      hide F.Head, Session.Step, TcpSession.Valid, TcpServer.Valid;
      if id == F.RQ_CREATE_USER {
      } else if id == F.NF_MESSAGE {
        NfMessage(session);
      }
    }

    /** What `handleReadBody` does after the body is counted: the message is dispatched, and only then
        the next header is asked for. */
    method DispatchBody(session: TcpSession)
      requires session.Delivering() && server.Valid()
      requires forall s <- Receivers(session) :: s.Valid()
      modifies session`reading, Receivers(session)
      ensures session.Valid() && session.model == old(session.model)
      ensures forall s <- Receivers(session) ::
                && s.Valid()
                && s.model == if old(session.model).read.msg[4..8] == [3, 0, 0, 0]
                              then Session.Step(old(s.model), Session.Send(old(session.model).read.msg))
                              else old(s.model)
    {
      assert session !in Receivers(session);
      assert session.msg.Value() == session.model.read.msg && session.msg.Valid();
      hide F.Head, Session.Step, Targets, TcpSession.Tied, TcpServer.Valid;
      MessageHandler(session);
      session.BodyHandled();
    }

    /** The handler of a body read without error, and the callback it is wired to. */
    method HandleBody(session: TcpSession, bytes: seq<byte>)
      requires session.Valid() && session.reading.BodyRead? && server.Valid()
      requires var inbox := session.model.read.inbox;
               0 <= session.reading.size <= |inbox| && bytes == inbox[..session.reading.size]
      requires forall s <- Receivers(session) :: s.Valid() && s.msg.raw != session.msg.raw
      modifies session, session.msg.raw, Receivers(session)
      ensures session.Valid() && session.model == Session.Step(old(session.model), Session.OnRead(R.BodyDone))
      ensures forall s <- Receivers(session) ::
                && s.Valid()
                && s.model == if session.model.read.msg[4..8] == [3, 0, 0, 0]
                              then Session.Step(old(s.model), Session.Send(session.model.read.msg))
                              else old(s.model)
    {
      ghost var all := Receivers(session);
      assert session !in all;
      hide *;
      ReceiveBody(session, bytes, all);
      DispatchBody(session);
    }

    lemma ReceiversAre(r: nat)
      requires server.Valid() && r < |server.roster|
      ensures forall i | 0 <= i < |server.roster| ::
                server.roster[i] in Receivers(server.roster[r]) <==> G.Registered(server.model, i) && i != r
      ensures forall s <- Receivers(server.roster[r]) :: s in server.roster && s != server.roster[r]
    {
      server.RegisteredObjects();
      hide G.Balance, G.Cover;
    }

    lemma ReceiversReady(r: nat)
      requires server.Valid() && Apart(server.roster) && Tracks(server.roster, model.conns) && r < |server.roster|
      ensures forall s <- Receivers(server.roster[r]) :: s.Valid() && s.msg.raw != server.roster[r].msg.raw
    {
      ReceiversAre(r);
      hide TcpServer.Valid, TcpSession.Valid, Targets;
    }

    /** A completed body at one of the sessions, and the dispatch of its message. */
    method BodyAt(session: TcpSession, ghost r: nat, bytes: seq<byte>)
      requires Valid() && r < |server.roster| && server.roster[r] == session
      requires session.Valid() && session.reading.BodyRead?
      requires var inbox := session.model.read.inbox;
               0 <= session.reading.size <= |inbox| && bytes == inbox[..session.reading.size]
      modifies session, session.msg.raw, Receivers(session)
      ensures var s' := C.Step(model, C.Read(r, R.BodyDone));
              s'.reg == model.reg && Tracks(server.roster, s'.conns)
    {
      hide *;
      Parts();
      ReceiversAre(r);
      ReceiversReady(r);
      BodyIsEnabled(session);
      TracksBut(server.roster, model.conns, r);
      ghost var roster, before := server.roster, model.conns;
      TracksEach(roster, before);
      ApartFrom(roster, r);
      HandleBody(session, bytes);
      NearAfterBody(model, r, r);
      forall i: nat | i < |roster|
        ensures roster[i].Valid() && roster[i].model == C.Step(model, C.Read(r, R.BodyDone)).conns[i].near
      {
        NearAfterBody(model, r, i);
      }
      TracksAll(roster, C.Step(model, C.Read(r, R.BodyDone)).conns);
    }

    // The completion handlers of the whole program: each does its event of the specification.

    /** `start`, once the callbacks are registered. */
    method Start()
      requires Valid() && server.state.Ready?
      modifies this, server
      ensures Valid() && history == old(history) + [C.Start] && server.roster == old(server.roster)
    {
      hide TcpServer.Valid, Tracks, Apart, C.After, G.Listen;
      server.Listen();
      Advance(C.Start);
    }

    /** `TcpServer::stop`, whoever calls it; `ChatServer::stop` itself does not. */
    method StopServer()
      requires Valid()
      modifies this, server
      ensures Valid() && history == old(history) + [C.StopServer] && server.roster == old(server.roster)
    {
      hide TcpServer.Valid, Tracks, Apart, C.After, G.Stop;
      server.Stop();
      Advance(C.StopServer);
    }

    /** An accept completes; the peer it connects has a reader of its own. */
    method OnAccept(failed: bool, ghost farMsg: F.Image, ghost farRx: uint64) returns (ghost e: C.Event)
      requires Valid() && server.accepting
      modifies this, server
      ensures Valid() && history == old(history) + [e]
      ensures if failed then e == C.AcceptFailed else e.Accepted? && e.farMsg == farMsg && e.farRx == farRx
      ensures old(server.roster) <= server.roster
    {
      hide *;
      Parts();
      server.RosterSize();
      ghost var roster := server.roster;
      var session := server.AcceptCompleted(failed);
      server.RosterSize();
      if failed {
        e := C.AcceptFailed;
        FailedAccepted(model);
      } else if session == null {
        e := C.Accepted(farMsg, 0, 0, farMsg, farRx);
        NothingAccepted(model, e);
      } else {
        StartedParts(session);
        e := C.Accepted(session.msg.Value(), session.tx, session.rx, farMsg, farRx);
        C.AcceptOne(model, e);
        TracksOne(roster, model.conns, C.NewConn(e, |model.log|), session);
        ApartWith(roster, session);
      }
      Advance(e);
      Assemble();
    }

    /** A header read completes. */
    method OnHeader(session: TcpSession, ghost r: nat, ec: Option<ErrorCode>, bytes: seq<byte>)
      requires Valid() && r < |server.roster| && server.roster[r] == session
      requires session.Valid() && session.reading.HeaderRead?
      requires ec.None? ==> |session.model.read.inbox| >= F.HEADER_LENGTH
                            && bytes == session.model.read.inbox[..F.HEADER_LENGTH]
      modifies this, session, session.msg.raw
      ensures server.roster == old(server.roster) && (ec.Some? <==> session.reading.NoRead?)
      ensures Valid() && history == old(history) + [C.Read(r, if ec.None? then R.HeaderDone else R.HeaderFail)]
    {
      hide *;
      Parts();
      ghost var e := if ec.None? then R.HeaderDone else R.HeaderFail;
      HeaderAt(server.roster, model.conns, r, session, ec, bytes);
      QuietRead(model, r, e);
      Advance(C.Read(r, e));
      Assemble();
    }

    /** A body read completes: the message is dispatched, or the session reports closed. */
    method OnBody(session: TcpSession, ghost r: nat, ec: Option<ErrorCode>, bytes: seq<byte>)
      requires Valid() && r < |server.roster| && server.roster[r] == session
      requires session.Valid() && session.reading.BodyRead?
      requires ec.None? ==> 0 <= session.reading.size <= |session.model.read.inbox|
                            && bytes == session.model.read.inbox[..session.reading.size]
      modifies this, server, session, session.msg.raw, Receivers(session)
      ensures Valid() && history == old(history) + [C.Read(r, if ec.None? then R.BodyDone else R.BodyFail)]
      ensures server.roster == old(server.roster)
    {
      hide *;
      Parts();
      if ec.None? {
        BodyAt(session, r, bytes);
        Advance(C.Read(r, R.BodyDone));
      } else {
        BodyIsEnabled(session);
        TracksBut(server.roster, model.conns, r);
        FailedBody(model, r);
        var report := BodyFailAt(server.roster, model.conns, r, session, ec.value);
        if report.Some? {
          server.HandleClose(session, r);
        }
        Advance(C.Read(r, R.BodyFail));
      }
      Assemble();
    }

    /** A write completes. */
    method OnWrite(session: TcpSession, ghost r: nat, ec: Option<ErrorCode>)
      requires Valid() && r < |server.roster| && server.roster[r] == session
      requires session.Valid() && session.writing.Some?
      modifies this, server, session
      ensures Valid() && history == old(history) + [C.Write(r, if ec.None? then S.WriteDone else S.WriteFail)]
      ensures server.roster == old(server.roster)
    {
      hide *;
      Parts();
      WriteIsEnabled(session);
      TracksBut(server.roster, model.conns, r);
      var report := WriteAt(server.roster, model.conns, r, session, ec);
      if report.Some? {
        FailedWrite(model, r);
        server.HandleClose(session, r);
        Advance(C.Write(r, S.WriteFail));
      } else {
        QuietWrite(model, r);
        Advance(C.Write(r, S.WriteDone));
      }
      Assemble();
    }

    /** Bytes reach a session. */
    ghost method OnArrival(session: TcpSession, r: nat, bytes: seq<byte>)
      requires Valid() && r < |server.roster| && server.roster[r] == session
      modifies this, session`model
      ensures Valid() && history == old(history) + [C.Read(r, R.Arrive(bytes))]
      ensures server.roster == old(server.roster)
    {
      hide *;
      Parts();
      ArriveAt(server.roster, model.conns, r, session, bytes);
      QuietRead(model, r, R.Arrive(bytes));
      Advance(C.Read(r, R.Arrive(bytes)));
      Assemble();
    }

    /** The reader of a session's peer moves. */
    ghost method OnPeer(r: nat, e: R.ReadEvent)
      requires Valid()
      modifies this
      ensures Valid() && history == old(history) + [C.Far(r, e)]
    {
      FarOnly(model, r, e);
      hide TcpServer.Valid, TcpSession.Valid, Apart, C.After, C.Step;
      Advance(C.Far(r, e));
    }

    /** Hence what is proved of every run holds of the objects: what was written at a session and what
        is in its queue are the broadcasts made by the others while it was registered, in order. */
    lemma QueuesFollowLog(r: nat) returns (begun: nat, ended: nat)
      requires Valid() && r < |server.roster|
      ensures P.Lifetime(server.maxSession, history, r, begun, ended)
      ensures var lo, hi := |P.At(server.maxSession, history, begun).log|, |P.At(server.maxSession, history, ended).log|;
              && lo <= hi <= |model.log|
              && server.roster[r].model.send.done + server.roster[r].sendQue == C.Others(model.log[lo..hi], r)
    {
      TracksBut(server.roster, model.conns, r);
      hide TcpServer.Valid, Tracks, Apart, C.After, Session.Inv, F.Head, P.At, P.Lifetime;
      begun, ended := T.QueueFollowsLog(server.maxSession, history, r);
    }
  }
}
