/** The whole live server: the registry, every session with its read and write chains, the peers at
    the other ends, and the broadcasts of the chat server (chat_server/ChatServer.cpp:73-126 on top of
    Src/TcpServer.cpp and Src/TcpSession.cpp). Handlers are atomic. */
module ChatSystem {
  import opened Bytes
  import opened Frames
  import opened Parser
  import R = ReadChain
  import S = SendChain
  import Session
  import L = Link
  import G = Registry
  import H = Handlers

  /** One broadcast: the session whose message it was, and the message object it copied. */
  datatype Entry = Entry(sender: nat, msg: Image)

  /** The server's session and the reader of its peer. The session has been offered exactly the
      broadcasts from position `since` (its registration) up to position `upto`. */
  datatype Conn = Conn(near: Session.SessionState, far: R.ReadState, since: nat, upto: nat)

  /** `log` is the history of all broadcasts; sessions are numbered as in the registry. */
  datatype System = System(reg: G.Registry, conns: seq<Conn>, log: seq<Entry>)

  /** What the environment does next: the server is started or stopped, an accept completes, a read or
      write of a server session completes or bytes reach it, or the reader of a peer moves. The
      members that no constructor initialises are part of the event. */
  datatype Event =
    | Start
    | StopServer
    | AcceptFailed
    | Accepted(msg: Image, tx: uint64, rx: uint64, farMsg: Image, farRx: uint64)
    | Read(r: nat, re: R.ReadEvent)
    | Write(r: nat, we: S.WriteEvent)
    | Far(r: nat, fe: R.ReadEvent)

  function Init(max: nat): System {
    System(G.Init(max), [], [])
  }

  /** What a broadcast does to one connection: a registered session other than the sender's gets a
      copy. */
  function Offer(c: Conn, r: nat, registered: bool, sender: nat, m: Image, position: nat): Conn {
    if !registered then c
    else if r == sender then c.(upto := position)
    else c.(near := Session.Step(c.near, Session.Send(m)), upto := position)
  }

  /** `nfMessage`. */
  function Broadcast(s: System, sender: nat, m: Image): System {
    s.(log := s.log + [Entry(sender, m)],
       conns := seq(|s.conns|, i requires 0 <= i < |s.conns| =>
         Offer(s.conns[i], i, G.Registered(s.reg, i), sender, m, |s.log| + 1)))
  }

  /** `messageHandler`: of the messages it dispatches, only `NF_MESSAGE` sends anything. */
  function Dispatch(s: System, sender: nat, m: Image): System {
    if Head(m).msgId == NF_MESSAGE then Broadcast(s, sender, m) else s
  }

  /** A session event at the server: its handler runs, and a close report reaches the registry. */
  function NearStep(s: System, r: nat, e: Session.SessionEvent): System
    requires r < |s.conns|
  {
    var near := s.conns[r].near;
    s.(conns := s.conns[r := s.conns[r].(near := Session.Step(near, e))],
       reg := if Session.ReportsClosed(near, e) then G.Close(s.reg, r) else s.reg)
  }

  /** A read event; a completed body is dispatched by the same handler. */
  function ReadStep(s: System, r: nat, e: R.ReadEvent): System
    requires r < |s.conns|
  {
    var s' := NearStep(s, r, Session.OnRead(e));
    if e.BodyDone? && R.Enabled(s.conns[r].near.read, e)
    then Dispatch(s', r, s'.conns[r].near.read.msg)
    else s'
  }

  function NewConn(e: Event, position: nat): Conn
    requires e.Accepted?
  {
    Conn(Session.Opened(e.msg, e.tx, e.rx), R.Opened(e.farMsg, e.farRx), position, position)
  }

  function AcceptStep(s: System, e: Event): System
    requires e.Accepted?
  {
    var reg := G.Accept(s.reg);
    if |reg.ids| == |s.reg.ids| then s.(reg := reg)
    else
      s.(reg := reg, conns := s.conns + [NewConn(e, |s.log|)])
  }

  ghost function Step(s: System, e: Event): System {
    match e
    case Start => s.(reg := G.Listen(s.reg))
    case StopServer => s.(reg := G.Stop(s.reg))
    case AcceptFailed => s.(reg := G.AcceptError(s.reg))
    case Accepted(_, _, _, _, _) => AcceptStep(s, e)
    case Read(r, re) => if r < |s.conns| then ReadStep(s, r, re) else s
    case Write(r, we) => if r < |s.conns| then NearStep(s, r, Session.OnWrite(we)) else s
    case Far(r, fe) =>
      if r < |s.conns|
      then s.(conns := s.conns[r := s.conns[r].(far := L.FarStep(s.conns[r].near.send, s.conns[r].far, fe))])
      else s
  }

  ghost function After(s: System, es: seq<Event>): System
    decreases |es|
  {
    if es == [] then s else Step(After(s, es[..|es| - 1]), es[|es| - 1])
  }

  lemma AcceptOne(s: System, e: Event)
    requires e.Accepted? && |G.Accept(s.reg).ids| == |s.reg.ids| + 1
    ensures Step(s, e) == System(G.Accept(s.reg), s.conns + [NewConn(e, |s.log|)], s.log)
    ensures NewConn(e, |s.log|).near == Session.Opened(e.msg, e.tx, e.rx)
  {
    hide G.Accept;
  }

  /** The messages of the broadcasts that were not the given session's own, in order. */
  function Others(log: seq<Entry>, r: nat): seq<Image> {
    if log == [] then []
    else Others(log[..|log| - 1], r) + if log[|log| - 1].sender == r then [] else [log[|log| - 1].msg]
  }

  /** The messages of the broadcasts that were the given session's own, in order. */
  function Own(log: seq<Entry>, r: nat): seq<Image> {
    if log == [] then []
    else Own(log[..|log| - 1], r) + if log[|log| - 1].sender == r then [log[|log| - 1].msg] else []
  }

  predicate AllFrames(fs: seq<seq<byte>>) {
    forall f <- fs :: |f| >= HEADER_LENGTH
  }

  /** The frames a chat server broadcasts: those whose identifier, in bytes 4 to 8, is 3. */
  function Chat(frames: seq<seq<byte>>): seq<seq<byte>>
    requires AllFrames(frames)
  {
    if frames == [] then []
    else
      var f := frames[|frames| - 1];
      Chat(frames[..|frames| - 1]) + if f[4..8] == [3, 0, 0, 0] then [f] else []
  }

  /** What holds of each connection. */
  ghost predicate ConnInv(log: seq<Entry>, r: nat, c: Conn, registered: bool) {
    && Session.Inv(c.near)
    && L.Inv(c.near.send, c.far)
    && c.since <= c.upto <= |log|
    && (registered ==> c.upto == |log|)
    && S.Sent(c.near.send) == Others(log[c.since..c.upto], r)
  }

  /** A session's own broadcasts are the chat messages among those it delivered. */
  ghost predicate OwnInv(log: seq<Entry>, r: nat, delivered: seq<seq<byte>>) {
    && AllFrames(delivered)
    && L.AllWhole(Own(log, r))
    && FramesOf(Own(log, r)) == Chat(delivered)
  }

  ghost predicate ConnOk(log: seq<Entry>, r: nat, c: Conn, registered: bool, reports: nat) {
    && ConnInv(log, r, c, registered)
    && OwnInv(log, r, c.near.read.delivered)
    && c.near.reports == reports
  }

  ghost predicate LogOk(log: seq<Entry>, n: nat) {
    forall e <- log :: Whole(e.msg) && e.sender < n
  }

  ghost predicate Inv(s: System) {
    && H.SoundState(s.reg)
    && |s.conns| == |s.reg.ids| == |s.reg.reports|
    && LogOk(s.log, |s.conns|)
    && (forall r | 0 <= r < |s.conns| :: ConnOk(s.log, r, s.conns[r], G.Registered(s.reg, r), s.reg.reports[r]))
  }

  /** The log after a message has been dispatched. */
  function LogAfter(log: seq<Entry>, r: nat, m: Image): seq<Entry> {
    if Head(m).msgId == NF_MESSAGE then log + [Entry(r, m)] else log
  }

  // Broadcast.

  lemma OthersSnoc(log: seq<Entry>, e: Entry, r: nat)
    ensures Others(log + [e], r) == Others(log, r) + if e.sender == r then [] else [e.msg]
    ensures Own(log + [e], r) == Own(log, r) + if e.sender == r then [e.msg] else []
  {
    assert (log + [e])[..|log|] == log;
  }

  lemma OfferInv(log: seq<Entry>, r: nat, c: Conn, registered: bool, sender: nat, m: Image)
    requires ConnInv(log, r, c, registered) && Whole(m)
    ensures ConnInv(log + [Entry(sender, m)], r, Offer(c, r, registered, sender, m, |log| + 1), registered)
  {
    hide Session.Inv, L.Inv, Whole, R.Step, S.Write;
    var log' := log + [Entry(sender, m)];
    if registered {
      assert log'[c.since..] == log[c.since..] + [Entry(sender, m)];
      assert log'[c.since..] == log'[c.since..|log'|] && log[c.since..] == log[c.since..c.upto];
      OthersSnoc(log[c.since..], Entry(sender, m), r);
      if r != sender {
        Session.StepInv(c.near, Session.Send(m));
        L.SendInv(c.near.send, c.far, m);
        Session.StepHistory(c.near, Session.Send(m));
      }
    } else {
      assert log'[c.since..c.upto] == log[c.since..c.upto];
    }
  }

  lemma ChatSnoc(fs: seq<seq<byte>>, f: seq<byte>)
    requires AllFrames(fs) && |f| >= HEADER_LENGTH
    ensures AllFrames(fs + [f])
    ensures Chat(fs + [f]) == Chat(fs) + if f[4..8] == [3, 0, 0, 0] then [f] else []
  {
    assert (fs + [f])[..|fs|] == fs;
  }

  lemma FramesSnoc(ms: seq<Image>, m: Image)
    requires L.AllWhole(ms) && Whole(m)
    ensures L.AllWhole(ms + [m]) && FramesOf(ms + [m]) == FramesOf(ms) + [Frame(m)]
  {
    hide Whole, Frame;
  }

  lemma FrameLength(m: Image)
    requires Whole(m)
    ensures |Frame(m)| >= HEADER_LENGTH
  {
    hide DecodeHeader;
  }

  /** A delivered message and its dispatch keep the correspondence for its own session. */
  lemma OwnDelivery(log: seq<Entry>, r: nat, delivered: seq<seq<byte>>, m: Image)
    requires OwnInv(log, r, delivered) && Whole(m)
    ensures OwnInv(LogAfter(log, r, m), r, delivered + [Frame(m)])
  {
    FrameIsSegment(m);
    hide Whole, Frame, DecodeHeader, Segment;
    assert |Frame(m)| >= HEADER_LENGTH by { FrameLength(m); }
    ChatLayout(Frame(m));
    ChatSnoc(delivered, Frame(m));
    OthersSnoc(log, Entry(r, m), r);
    FramesSnoc(Own(log, r), m);
  }

  // Steps of one session.

  lemma NearConn(log: seq<Entry>, r: nat, c: Conn, registered: bool, e: Session.SessionEvent)
    requires ConnInv(log, r, c, registered) && !e.Send?
    ensures ConnInv(log, r, c.(near := Session.Step(c.near, e)), registered)
  {
    hide R.Inv, S.Inv, Whole, R.Step, S.Write, Others, L.OnWire, R.Enabled;
    Session.StepInv(c.near, e);
    Session.StepHistory(c.near, e);
    if e.OnWrite? {
      L.WriteInv(c.near.send, c.far, e.w);
    }
  }

  /** What a session event does to the delivered frames and the report count. */
  lemma NearEffect(near: Session.SessionState, e: Session.SessionEvent)
    requires Session.Inv(near)
    ensures var near' := Session.Step(near, e);
            && near'.reports == near.reports + (if Session.ReportsClosed(near, e) then 1 else 0)
            && (if e.OnRead? && e.r.BodyDone? && R.Enabled(near.read, e.r)
                then Whole(near'.read.msg) && near'.read.delivered == near.read.delivered + [Frame(near'.read.msg)]
                else near'.read.delivered == near.read.delivered)
  {
    hide DecodeHeader, Wrap64, R.CounterInv, R.OrderInv, S.Inv, S.Send, S.Write;
    if e.OnRead? && e.r.BodyDone? && R.Enabled(near.read, e.r) {
      R.BodyDoneMessage(near.read);
    }
  }

  lemma CloseKeeps(reg: G.Registry, r: nat)
    requires H.SoundState(reg) && r < |reg.ids|
    ensures var reg' := G.Close(reg, r);
            && H.SoundState(reg')
            && reg'.ids == reg.ids && reg'.reports == reg.reports[r := reg.reports[r] + 1]
            && forall i: nat | G.Registered(reg', i) :: G.Registered(reg, i)
  {
    H.CloseInv(reg, r);
    H.CloseParts(reg, r);
    hide H.SoundState, G.Shape, G.Inv;
  }

  lemma FewerRegistered(log: seq<Entry>, r: nat, c: Conn, registered: bool, registered': bool, reports: nat)
    requires ConnOk(log, r, c, registered, reports) && (registered' ==> registered)
    ensures ConnOk(log, r, c, registered', reports)
  {
    hide OwnInv, Session.Inv, L.Inv, Others, S.Sent;
  }

  /** What a session event leaves to be shown: the session it is about. */
  lemma NearStepOthers(s: System, r: nat, e: Session.SessionEvent)
    requires Inv(s) && r < |s.conns|
    ensures var s' := NearStep(s, r, e);
            && H.SoundState(s'.reg) && s'.reg.ids == s.reg.ids
            && s'.reg.reports
               == s.reg.reports[r := s.reg.reports[r] + if Session.ReportsClosed(s.conns[r].near, e) then 1 else 0]
            && (G.Registered(s'.reg, r) ==> G.Registered(s.reg, r))
            && forall i | 0 <= i < |s.conns| && i != r ::
                 ConnOk(s.log, i, s'.conns[i], G.Registered(s'.reg, i), s'.reg.reports[i])
  {
    hide H.SoundState, G.Registered, G.Close, ConnOk, Session.Step, Session.ReportsClosed, LogOk;
    var s' := NearStep(s, r, e);
    if Session.ReportsClosed(s.conns[r].near, e) {
      CloseKeeps(s.reg, r);
    }
    forall i | 0 <= i < |s.conns| && i != r
      ensures ConnOk(s.log, i, s'.conns[i], G.Registered(s'.reg, i), s'.reg.reports[i])
    {
      FewerRegistered(s.log, i, s.conns[i], G.Registered(s.reg, i), G.Registered(s'.reg, i), s.reg.reports[i]);
    }
  }

  /** A session event other than a completed body, at its own session. */
  lemma NearStepOwn(log: seq<Entry>, r: nat, c: Conn, registered: bool, reports: nat, e: Session.SessionEvent)
    requires ConnOk(log, r, c, registered, reports) && !e.Send?
    requires !(e.OnRead? && e.r.BodyDone? && R.Enabled(c.near.read, e.r))
    ensures ConnOk(log, r, c.(near := Session.Step(c.near, e)), registered,
                   reports + if Session.ReportsClosed(c.near, e) then 1 else 0)
  {
    NearConn(log, r, c, registered, e);
    NearEffect(c.near, e);
    hide Session.Inv, L.Inv, Others, OwnInv, Session.Step, Session.ReportsClosed, R.Enabled, S.Sent, Whole;
  }

  lemma NearStepInv(s: System, r: nat, e: Session.SessionEvent)
    requires Inv(s) && r < |s.conns| && !e.Send?
    requires !(e.OnRead? && e.r.BodyDone? && R.Enabled(s.conns[r].near.read, e.r))
    ensures Inv(NearStep(s, r, e))
  {
    hide H.SoundState, G.Registered, G.Close, ConnOk, Session.Step, Session.ReportsClosed, R.Enabled, LogOk;
    var s' := NearStep(s, r, e);
    NearStepOthers(s, r, e);
    NearStepOwn(s.log, r, s.conns[r], G.Registered(s.reg, r), s.reg.reports[r], e);
    FewerRegistered(s.log, r, s'.conns[r], G.Registered(s.reg, r), G.Registered(s'.reg, r), s'.reg.reports[r]);
  }

  /** A dispatch, at every connection but the sender's. */
  lemma DispatchOther(log: seq<Entry>, i: nat, c: Conn, registered: bool, reports: nat, r: nat, m: Image)
    requires ConnOk(log, i, c, registered, reports) && i != r && Whole(m)
    ensures ConnOk(log + [Entry(r, m)], i, Offer(c, i, registered, r, m, |log| + 1), registered, reports)
  {
    OfferInv(log, i, c, registered, r, m);
    OthersSnoc(log, Entry(r, m), i);
    hide ConnInv, AllFrames, L.AllWhole, Chat, FramesOf, Own, S.Send, Whole;
    assert Own(log, i) + [] == Own(log, i);
  }

  /** A completed body and its dispatch, at the session itself. */
  lemma BodyOwn(log: seq<Entry>, r: nat, c: Conn, registered: bool, reports: nat)
    requires ConnOk(log, r, c, registered, reports) && R.Enabled(c.near.read, R.BodyDone)
    ensures var c' := c.(near := Session.Step(c.near, Session.OnRead(R.BodyDone)));
            var m := c'.near.read.msg;
            && Whole(m)
            && ConnOk(LogAfter(log, r, m), r,
                      if Head(m).msgId == NF_MESSAGE then Offer(c', r, registered, r, m, |log| + 1) else c',
                      registered, reports)
  {
    var e := Session.OnRead(R.BodyDone);
    NearConn(log, r, c, registered, e);
    NearEffect(c.near, e);
    var c' := c.(near := Session.Step(c.near, e));
    var m := c'.near.read.msg;
    hide ConnInv, Whole, Head, Session.Step, OwnInv, R.Enabled;
    OwnDelivery(log, r, c.near.read.delivered, m);
    OfferInv(log, r, c', registered, r, m);
  }

  lemma BodyStepParts(s: System, r: nat)
    requires r < |s.conns| && R.Enabled(s.conns[r].near.read, R.BodyDone)
    ensures var s' := ReadStep(s, r, R.BodyDone);
            var c := s.conns[r].(near := Session.Step(s.conns[r].near, Session.OnRead(R.BodyDone)));
            var m := c.near.read.msg;
            && s'.reg == s.reg && |s'.conns| == |s.conns| && s'.log == LogAfter(s.log, r, m)
            && forall i | 0 <= i < |s.conns| ::
                 s'.conns[i] == var ci := if i == r then c else s.conns[i];
                                if Head(m).msgId == NF_MESSAGE
                                then Offer(ci, i, G.Registered(s.reg, i), r, m, |s.log| + 1) else ci
  {
    var e := Session.OnRead(R.BodyDone);
    assert !Session.ReportsClosed(s.conns[r].near, e);
    hide Session.Step, R.Enabled, Session.ReportsClosed, Offer, Head, G.Registered;
  }

  /** A completed body and its dispatch. */
  lemma BodyStepInv(s: System, r: nat)
    requires Inv(s) && r < |s.conns| && R.Enabled(s.conns[r].near.read, R.BodyDone)
    ensures Inv(ReadStep(s, r, R.BodyDone))
  {
    hide H.SoundState, G.Registered, ConnOk, Session.Step, Whole, R.Enabled, Offer, Head, ReadStep, LogOk;
    BodyStepParts(s, r);
    BodyOwn(s.log, r, s.conns[r], G.Registered(s.reg, r), s.reg.reports[r]);
    var s', m := ReadStep(s, r, R.BodyDone), Session.Step(s.conns[r].near, Session.OnRead(R.BodyDone)).read.msg;
    forall i | 0 <= i < |s.conns|
      ensures ConnOk(s'.log, i, s'.conns[i], G.Registered(s.reg, i), s.reg.reports[i])
    {
      if i != r {
        DispatchOther(s.log, i, s.conns[i], G.Registered(s.reg, i), s.reg.reports[i], r, m);
      }
    }
    LogGrows(s.log, r, m, |s.conns|);
  }

  lemma LogGrows(log: seq<Entry>, r: nat, m: Image, n: nat)
    requires LogOk(log, n) && r < n && Whole(m)
    ensures LogOk(LogAfter(log, r, m), n)
  {
    hide Whole, Head;
  }

  // Steps of the registry and of the peers.

  lemma RegistryStep(s: System, reg: G.Registry)
    requires Inv(s) && H.SoundState(reg) && reg.ids == s.reg.ids && reg.reports == s.reg.reports
    requires forall r: nat | r < |reg.ids| && G.Registered(reg, r) :: G.Registered(s.reg, r)
    ensures Inv(s.(reg := reg))
  {
    hide H.SoundState, ConnOk, G.Registered, LogOk;
    forall r | 0 <= r < |s.conns|
      ensures ConnOk(s.log, r, s.conns[r], G.Registered(reg, r), reg.reports[r])
    {
      FewerRegistered(s.log, r, s.conns[r], G.Registered(s.reg, r), G.Registered(reg, r), reg.reports[r]);
    }
  }

  lemma {:induction false} OwnNone(log: seq<Entry>, r: nat)
    requires forall e <- log :: e.sender < r
    ensures Own(log, r) == []
  {
    if log != [] {
      OwnNone(log[..|log| - 1], r);
    }
  }

  lemma NewConnOk(log: seq<Entry>, r: nat, e: Event, registered: bool)
    requires e.Accepted? && LogOk(log, r)
    ensures ConnOk(log, r, NewConn(e, |log|), registered, 0)
    ensures LogOk(log, r + 1)
  {
    hide Whole, DecodeHeader, R.Inv;
    R.OpenedInv(e.msg, e.rx);
    L.LinkOpened(e.tx, e.farMsg, e.farRx);
    OwnNone(log, r);
  }

  /** An accept opens at most one session, and changes the registration of no other. */
  ghost predicate Extends(reg': G.Registry, reg: G.Registry) {
    && (if |reg'.ids| == |reg.ids| then reg'.ids == reg.ids && reg'.reports == reg.reports
        else |reg'.ids| == |reg.ids| + 1 && reg'.reports == reg.reports + [0] && reg'.ids[..|reg.ids|] == reg.ids)
    && forall i: nat | i < |reg.ids| && G.Registered(reg', i) :: G.Registered(reg, i)
  }

  lemma AcceptExtends(reg: G.Registry)
    requires |reg.ids| == |reg.reports|
    ensures Extends(G.Accept(reg), reg)
  {
    var guarded := G.Pop(G.Guard(reg));
    assert guarded.ids == reg.ids && guarded.reports == reg.reports && guarded.sessions == reg.sessions;
    EmplaceExtends(guarded);
    hide G.Guard, G.Pop, G.Emplace;
    assert forall i: nat :: G.Registered(guarded, i) <==> G.Registered(reg, i);
  }

  lemma EmplaceExtends(reg: G.Registry)
    requires |reg.ids| == |reg.reports|
    ensures Extends(G.Emplace(reg), reg)
  {
  }

  lemma OneMoreConn(s: System, reg: G.Registry, c: Conn)
    requires Inv(s) && H.SoundState(reg) && Extends(reg, s.reg) && |reg.ids| == |s.conns| + 1
    requires ConnOk(s.log, |s.conns|, c, G.Registered(reg, |s.conns|), 0) && LogOk(s.log, |s.conns| + 1)
    ensures Inv(s.(reg := reg, conns := s.conns + [c]))
  {
    hide H.SoundState, ConnOk, G.Registered, LogOk;
    var n, s' := |s.conns|, s.(reg := reg, conns := s.conns + [c]);
    forall i | 0 <= i < |s'.conns|
      ensures ConnOk(s.log, i, s'.conns[i], G.Registered(reg, i), reg.reports[i])
    {
      if i < n {
        assert s'.conns[i] == s.conns[i] && reg.reports[i] == s.reg.reports[i];
        FewerRegistered(s.log, i, s.conns[i], G.Registered(s.reg, i), G.Registered(reg, i), s.reg.reports[i]);
      }
    }
  }

  lemma AcceptStepInv(s: System, e: Event)
    requires Inv(s) && e.Accepted?
    ensures Inv(AcceptStep(s, e))
  {
    var reg, n := G.Accept(s.reg), |s.conns|;
    H.AcceptInv(s.reg);
    AcceptExtends(s.reg);
    hide H.SoundState, ConnOk, G.Registered, G.Accept, LogOk, NewConn;
    if |reg.ids| == |s.reg.ids| {
      RegistryStep(s, reg);
    } else {
      NewConnOk(s.log, n, e, G.Registered(reg, n));
      OneMoreConn(s, reg, NewConn(e, |s.log|));
    }
  }

  lemma FarConn(log: seq<Entry>, r: nat, c: Conn, registered: bool, reports: nat, e: R.ReadEvent)
    requires ConnOk(log, r, c, registered, reports)
    ensures ConnOk(log, r, c.(far := L.FarStep(c.near.send, c.far, e)), registered, reports)
  {
    L.FarInv(c.near.send, c.far, e);
    hide Session.Inv, L.Inv, Others, OwnInv, S.Sent, L.FarStep;
  }

  lemma FarStepInv(s: System, r: nat, e: R.ReadEvent)
    requires Inv(s) && r < |s.conns|
    ensures Inv(Step(s, Far(r, e)))
  {
    hide H.SoundState, ConnOk, G.Registered, LogOk, L.FarStep;
    FarConn(s.log, r, s.conns[r], G.Registered(s.reg, r), s.reg.reports[r], e);
  }

  lemma ServerStepInv(s: System, e: Event)
    requires Inv(s) && (e.Start? || e.StopServer? || e.AcceptFailed?)
    ensures Inv(Step(s, e))
  {
    var he := if e.Start? then H.Start else if e.StopServer? then H.StopServer else H.AcceptFailed;
    H.StepInv(s.reg, he);
    hide H.SoundState, ConnOk, LogOk, G.Accept, G.Close;
    match e
    case Start => RegistryStep(s, G.Listen(s.reg));
    case StopServer => RegistryStep(s, G.Stop(s.reg));
    case AcceptFailed => RegistryStep(s, G.AcceptError(s.reg));
  }

  lemma StepInv(s: System, e: Event)
    requires Inv(s)
    ensures Inv(Step(s, e))
  {
    hide Inv, NearStep, Dispatch, AcceptStep, R.Enabled;
    match e
    case Start => ServerStepInv(s, e);
    case StopServer => ServerStepInv(s, e);
    case AcceptFailed => ServerStepInv(s, e);
    case Accepted(_, _, _, _, _) => AcceptStepInv(s, e);
    case Read(r, re) =>
      if r < |s.conns| {
        if re.BodyDone? && R.Enabled(s.conns[r].near.read, re) {
          BodyStepInv(s, r);
        } else {
          NearStepInv(s, r, Session.OnRead(re));
        }
      }
    case Write(r, we) => if r < |s.conns| { NearStepInv(s, r, Session.OnWrite(we)); }
    case Far(r, fe) => if r < |s.conns| { FarStepInv(s, r, fe); }
  }

  lemma {:induction false} RunInv(s: System, es: seq<Event>)
    requires Inv(s)
    ensures Inv(After(s, es))
  {
    hide Inv, Step;
    if es != [] {
      RunInv(s, es[..|es| - 1]);
      StepInv(After(s, es[..|es| - 1]), es[|es| - 1]);
    }
  }

  lemma Reached(max: nat, es: seq<Event>) returns (s: System)
    ensures s == After(Init(max), es) && Inv(s)
  {
    H.InitialIsExact(max);
    hide H.SoundState;
    RunInv(Init(max), es);
    s := After(Init(max), es);
  }

  lemma ConnAt(s: System, r: nat)
    requires Inv(s) && r < |s.conns|
    ensures ConnInv(s.log, r, s.conns[r], G.Registered(s.reg, r))
    ensures OwnInv(s.log, r, s.conns[r].near.read.delivered)
    ensures s.conns[r].near.reports == s.reg.reports[r]
  {
    hide H.SoundState, ConnInv, OwnInv, LogOk;
    assert ConnOk(s.log, r, s.conns[r], G.Registered(s.reg, r), s.reg.reports[r]);
  }

  lemma OneMore(s: System, es: seq<Event>, e: Event)
    ensures After(s, es + [e]) == Step(After(s, es), e)
  {
    assert (es + [e])[..|es|] == es;
  }

  lemma {:induction false} AfterAppend(s: System, es: seq<Event>, fs: seq<Event>)
    ensures After(s, es + fs) == After(After(s, es), fs)
  {
    hide Step;
    if fs == [] {
      assert es + fs == es;
    } else {
      var n := |fs| - 1;
      assert es + fs == es + fs[..n] + [fs[n]];
      AfterAppend(s, es, fs[..n]);
      OneMore(s, es + fs[..n], fs[n]);
    }
  }
}
