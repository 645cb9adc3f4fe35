/** When a session of the live server can fail on both of its chains, and so give its id back twice:
    exactly when two sessions can be open at once. */
module DoubleFailure {
  import opened Bytes
  import opened Frames
  import opened ChatSystem
  import opened Failures
  import R = ReadChain
  import S = SendChain
  import Session
  import L = Link
  import G = Registry
  import H = Handlers

  // With room for one session only, nothing is ever sent to anybody.

  ghost predicate NothingQueued(s: System) {
    forall r | 0 <= r < |s.conns| :: s.conns[r].near.send.queue == []
  }

  /** A session in the middle of a message is the only one registered, if any is. */
  ghost predicate Alone(s: System) {
    forall i: nat, r: nat | r < |s.conns| && s.conns[r].near.read.phase.AwaitBody? && G.Registered(s.reg, i) :: i == r
  }

  lemma QuietSession(near: Session.SessionState, e: Session.SessionEvent)
    requires near.send.queue == [] && !e.Send?
    ensures Session.Step(near, e).send == near.send
  {
    hide R.Step;
  }

  lemma BodyStepQueuesNothing(s: System, r: nat)
    requires NothingQueued(s) && Alone(s) && r < |s.conns| && R.Enabled(s.conns[r].near.read, R.BodyDone)
    ensures NothingQueued(ReadStep(s, r, R.BodyDone))
  {
    BodyStepParts(s, r);
    var e := Session.OnRead(R.BodyDone);
    QuietSession(s.conns[r].near, e);
    assert s.conns[r].near.read.phase.AwaitBody?;
    var s' := ReadStep(s, r, R.BodyDone);
    hide Session.Step, R.Enabled, ReadStep, Head, G.Registered;
    forall i | 0 <= i < |s'.conns|
      ensures s'.conns[i].near.send.queue == []
    {
      assert i != r ==> !G.Registered(s.reg, i);
    }
  }

  lemma NearStepQueuesNothing(s: System, r: nat, e: Session.SessionEvent)
    requires NothingQueued(s) && r < |s.conns| && !e.Send?
    ensures NothingQueued(NearStep(s, r, e))
  {
    QuietSession(s.conns[r].near, e);
    hide Session.Step, Session.ReportsClosed, G.Close;
  }

  lemma StepQueuesNothing(s: System, e: Event)
    requires NothingQueued(s) && Alone(s)
    ensures NothingQueued(Step(s, e))
  {
    hide Alone, R.Enabled, G.Accept, G.Close, NearStep, Dispatch, L.FarStep;
    match e
    case Accepted(_, _, _, _, _) =>
    case Read(r, re) =>
      if r < |s.conns| {
        if re.BodyDone? && R.Enabled(s.conns[r].near.read, re) {
          BodyStepQueuesNothing(s, r);
        } else {
          NearStepQueuesNothing(s, r, Session.OnRead(re));
        }
      }
    case Write(r, we) => if r < |s.conns| { NearStepQueuesNothing(s, r, Session.OnWrite(we)); }
    case Far(r, fe) =>
    case _ =>
  }

  lemma NotFailed(s: System, r: nat)
    requires Inv(s) && NothingQueued(s) && r < |s.conns|
    ensures !s.conns[r].near.send.failed
  {
    ConnAt(s, r);
    hide Inv, R.Inv, L.Inv, Wrap64, OwnInv, Others, S.Sent;
  }

  lemma OneRegistered(reg: G.Registry, i: nat, r: nat)
    requires |reg.sessions| <= 1 && G.Registered(reg, i) && G.Registered(reg, r)
    ensures i == r
  {
    var a, b := reg.ids[i], reg.ids[r];
    G.SubsetSize({a, b}, reg.sessions.Keys);
    assert a != b ==> |{a, b}| == 2;
  }

  lemma CapacityKept(s: System)
    requires Inv(s)
    ensures |s.reg.sessions| <= s.reg.max
    ensures s.reg.state.Stopped? ==> forall i: nat :: !G.Registered(s.reg, i)
  {
    hide ConnOk, G.Conserved, G.Covered;
  }

  lemma MaxOfRun(max: nat, es: seq<Event>)
    ensures After(Init(max), es).reg.max == max
  {
    var hs := RunOfRegistry(max, es);
    H.MaxIsConstant(G.Init(max), hs);
    hide After, H.After;
  }

  lemma AloneAtCapacityOne(max: nat, es: seq<Event>)
    requires max <= 1 && NothingQueued(After(Init(max), es))
    ensures Alone(After(Init(max), es))
  {
    hide After, Inv, NothingQueued, G.Registered;
    var s := Reached(max, es);
    MaxOfRun(max, es);
    CapacityKept(s);
    forall i: nat, r: nat | r < |s.conns| && s.conns[r].near.read.phase.AwaitBody? && G.Registered(s.reg, i)
      ensures i == r
    {
      forall q: nat | q < |s.conns|
        ensures !s.conns[q].near.send.failed
      {
        NotFailed(s, q);
      }
      RegisteredWhileNothingReported(max, es, r);
      OneRegistered(s.reg, i, r);
    }
  }

  lemma {:induction false} NothingQueuedAtCapacityOne(max: nat, es: seq<Event>)
    requires max <= 1
    ensures NothingQueued(After(Init(max), es))
  {
    hide Step, Alone, NothingQueued;
    if es == [] {
      assert NothingQueued(Init(max)) by { NothingQueuedAtFirst(max); }
    } else {
      NothingQueuedAtCapacityOne(max, es[..|es| - 1]);
      AloneAtCapacityOne(max, es[..|es| - 1]);
      StepQueuesNothing(After(Init(max), es[..|es| - 1]), es[|es| - 1]);
    }
  }

  lemma NothingQueuedAtFirst(max: nat)
    ensures NothingQueued(Init(max))
  {
  }

  lemma NeverTwiceAtCapacityOne(max: nat, es: seq<Event>, r: nat)
    requires max <= 1 && r < |After(Init(max), es).conns|
    ensures !FailedTwice(After(Init(max), es).conns[r])
  {
    hide After, Inv;
    NothingQueuedAtCapacityOne(max, es);
    var s := Reached(max, es);
    NotFailed(s, r);
  }

  // With room for two: a run in which the first session fails twice.

  /** A chat message without a body. */
  const CHAT := Header(VERSION, 0, 0, NF_MESSAGE)

  lemma {:induction false} InitialAt(n: nat, k: nat)
    requires k < n
    ensures |G.InitialIds(n)| == n && G.InitialIds(n)[k] == k + 1
  {
    if n > 1 {
      InitialAt(n - 1, if k < n - 1 then k else 0);
    }
  }

  /** The accept handler on a server with room and a free id that is not taken. */
  lemma AcceptAt(reg: G.Registry)
    requires reg.state.Started? && reg.armed == 1 && reg.stage.Idle? && |reg.sessions| < reg.max
    requires reg.free != [] && reg.free[0] !in reg.sessions
    ensures var id := reg.free[0];
            G.Accept(reg) == reg.(free := reg.free[1..], ids := reg.ids + [id], reports := reg.reports + [0],
                                  sessions := reg.sessions[id := |reg.ids|])
  {
  }

  lemma TwoAccepts(max: nat) returns (reg: G.Registry)
    requires max >= 2
    ensures reg == G.Accept(G.Accept(G.Listen(G.Init(max))))
    ensures reg.state.Started? && reg.ids == [1, 2] && reg.sessions == map[1 := 0, 2 := 1]
    ensures G.Accept(G.Listen(G.Init(max))).ids == [1] && G.Listen(G.Init(max)).ids == []
  {
    InitialAt(max, 0);
    InitialAt(max, 1);
    var r0 := G.Listen(G.Init(max));
    assert r0 == G.Registry(G.Started, max, map[], G.InitialIds(max), 1, G.Idle, multiset{}, [], [], []);
    hide *;
    AcceptAt(r0);
    var r1 := G.Accept(r0);
    AcceptAt(r1);
    reg := G.Accept(r1);
  }

  /** Both sessions are open and nothing has been read or sent. */
  ghost predicate BothOpen(s: System) {
    && s.reg.state.Started? && s.reg.ids == [1, 2] && s.reg.sessions == map[1 := 0, 2 := 1] && |s.conns| == 2
    && forall r | 0 <= r < 2 ::
         var near := s.conns[r].near;
         near.read.phase.AwaitHeader? && near.read.inbox == [] && near.send.queue == []
  }

  lemma ThreeSteps(s: System, a: Event, b: Event, c: Event)
    ensures After(s, [a, b, c]) == Step(Step(Step(s, a), b), c)
  {
    hide Step;
    OneMore(s, [a, b], c);
    OneMore(s, [a], b);
    OneMore(s, [], a);
    assert [a, b] + [c] == [a, b, c] && [a] + [b] == [a, b] && [] + [a] == [a];
  }

  lemma OpenBoth(max: nat, m: Image) returns (es: seq<Event>)
    requires max >= 2
    ensures BothOpen(After(Init(max), es))
  {
    var a := Accepted(m, 0, 0, m, 0);
    var reg := TwoAccepts(max);
    es := [Start, a, a];
    hide *;
    ThreeSteps(Init(max), Start, a, a);
    StartAtFirst(max);
    var s1 := Step(Init(max), Start);
    AcceptOne(s1, a);
    AcceptOne(Step(s1, a), a);
    OpenedBoth(reg, a);
    assert Step(Step(s1, a), a) == System(reg, [] + [NewConn(a, 0)] + [NewConn(a, 0)], []);
  }

  lemma StartAtFirst(max: nat)
    ensures Step(Init(max), Start) == System(G.Listen(G.Init(max)), [], [])
  {
  }

  lemma OpenedBoth(reg: G.Registry, e: Event)
    requires e.Accepted? && reg.state.Started? && reg.ids == [1, 2] && reg.sessions == map[1 := 0, 2 := 1]
    ensures BothOpen(System(reg, [] + [NewConn(e, 0)] + [NewConn(e, 0)], []))
  {
  }

  lemma HeaderReadChain(read: R.ReadState)
    requires read.phase.AwaitHeader? && read.inbox == []
    ensures var read' := R.Step(R.Step(read, R.Arrive(EncodeHeader(CHAT))), R.HeaderDone);
            read'.phase.AwaitBody? && Head(read'.msg) == CHAT
  {
    var h := EncodeHeader(CHAT);
    HeaderRoundTrip(CHAT);
    hide EncodeHeader, DecodeHeader;
    var read1 := R.Step(read, R.Arrive(h));
    assert read1.inbox == h && read1.inbox[..HEADER_LENGTH] == h;
    R.HeaderRead(read1);
  }

  lemma HeaderRead(near: Session.SessionState)
    requires near.read.phase.AwaitHeader? && near.read.inbox == []
    ensures var e := Session.OnRead(R.Arrive(EncodeHeader(CHAT)));
            var near' := Session.Step(Session.Step(near, e), Session.OnRead(R.HeaderDone));
            && !Session.ReportsClosed(near, e) && !Session.ReportsClosed(Session.Step(near, e), Session.OnRead(R.HeaderDone))
            && near'.read.phase.AwaitBody? && Head(near'.read.msg) == CHAT && near'.send == near.send
  {
    HeaderReadChain(near.read);
    hide R.Step, R.Enabled, EncodeHeader, Head;
  }

  lemma QuietRead(s: System, r: nat, re: R.ReadEvent)
    requires r < |s.conns| && !re.BodyDone? && !Session.ReportsClosed(s.conns[r].near, Session.OnRead(re))
    ensures var s' := Step(s, Read(r, re));
            && s'.reg == s.reg && |s'.conns| == |s.conns|
            && (forall i | 0 <= i < |s.conns| && i != r :: s'.conns[i] == s.conns[i])
            && s'.conns[r].near == Session.Step(s.conns[r].near, Session.OnRead(re))
  {
    hide Session.Step, Session.ReportsClosed;
  }

  /** The eight bytes of a chat message reach a session, and it reads them. */
  lemma ReadHeader(s: System, r: nat)
    requires r < |s.conns| && s.conns[r].near.read.phase.AwaitHeader? && s.conns[r].near.read.inbox == []
    ensures var s' := Step(Step(s, Read(r, R.Arrive(EncodeHeader(CHAT)))), Read(r, R.HeaderDone));
            && s'.reg == s.reg && |s'.conns| == |s.conns|
            && (forall i | 0 <= i < |s.conns| && i != r :: s'.conns[i] == s.conns[i])
            && var near := s'.conns[r].near;
               near.read.phase.AwaitBody? && Head(near.read.msg) == CHAT && near.send == s.conns[r].near.send
  {
    HeaderRead(s.conns[r].near);
    hide *;
    var h := R.Arrive(EncodeHeader(CHAT));
    QuietRead(s, r, h);
    QuietRead(Step(s, Read(r, h)), r, R.HeaderDone);
  }

  /** The second session delivers an empty chat message, and the first is offered a copy. */
  lemma ReadBody(s: System)
    requires |s.conns| == 2 && G.Registered(s.reg, 0) && s.conns[0].near.send.queue == []
    requires s.conns[1].near.read.phase.AwaitBody? && Head(s.conns[1].near.read.msg) == CHAT
    ensures var s' := Step(s, Read(1, R.BodyDone));
            && s'.reg == s.reg && |s'.conns| == 2
            && s'.conns[0].near.read == s.conns[0].near.read && S.Enabled(s'.conns[0].near.send)
  {
    hide DecodeHeader;
    R.BodyDoneMessage(s.conns[1].near.read);
    BodyStepParts(s, 1);
    hide R.Step, ReadStep, G.Registered;
  }

  lemma FailBoth(s: System)
    requires |s.conns| == 2 && s.conns[0].near.read.phase.AwaitBody? && S.Enabled(s.conns[0].near.send)
    requires s.reg.ids == [1, 2] && |s.reg.reports| == 2 && s.reg.closing == multiset{}
    ensures var s' := Step(Step(s, Read(0, R.BodyFail)), Write(0, S.WriteFail));
            && FailedTwice(s'.conns[0]) && s'.reg.state == s.reg.state && s'.reg.ids == [1, 2] && |s'.conns| == 2
            && s'.conns[1] == s.conns[1]
  {
    CloseKeepsIds(s.reg, 0);
    CloseKeepsIds(G.Close(s.reg, 0), 0);
    hide G.Close, Head, Length;
  }

  lemma CloseKeepsIds(reg: G.Registry, r: nat)
    ensures G.Close(reg, r).ids == reg.ids && G.Close(reg, r).state == reg.state
  {
  }

  lemma SurplusOfTwo(conns: seq<Conn>)
    requires |conns| == 2 && FailedTwice(conns[0])
    ensures Surplus(conns, [1, 2], 2, 1) == 1
  {
    assert Surplus(conns, [1, 2], 1, 1) == 1 + Surplus(conns, [1, 2], 0, 1);
  }

  lemma TwoMore(s: System, es: seq<Event>, a: Event, b: Event)
    ensures After(s, es + [a] + [b]) == Step(Step(After(s, es), a), b)
  {
    OneMore(s, es, a);
    OneMore(s, es + [a], b);
  }

  lemma BothRegistered(s: System)
    requires BothOpen(s)
    ensures s.reg.ids == [1, 2] && s.reg.state.Started? && |s.conns| == 2 && G.Registered(s.reg, 0)
    ensures forall r | 0 <= r < 2 ::
              var near := s.conns[r].near;
              near.read.phase.AwaitHeader? && near.read.inbox == [] && near.send.queue == []
  {
  }

  /** A run in which the first session is reading a message and writing another. */
  lemma BusySession(max: nat) returns (es: seq<Event>)
    requires max >= 2
    ensures var s := After(Init(max), es);
            && |s.conns| == 2 && s.conns[0].near.read.phase.AwaitBody? && S.Enabled(s.conns[0].near.send)
            && s.reg.ids == [1, 2] && s.reg.state.Started?
  {
    var s0, h := Init(max), R.Arrive(EncodeHeader(CHAT));
    var es0 := OpenBoth(max, seq(IMAGE_LENGTH, i => 0));
    hide *;
    var s1 := After(s0, es0);
    BothRegistered(s1);
    var es1 := es0 + [Read(1, h)] + [Read(1, R.HeaderDone)];
    TwoMore(s0, es0, Read(1, h), Read(1, R.HeaderDone));
    ReadHeader(s1, 1);
    OneMore(s0, es1, Read(1, R.BodyDone));
    ReadBody(After(s0, es1));
    var es2 := es1 + [Read(1, R.BodyDone)];
    TwoMore(s0, es2, Read(0, h), Read(0, R.HeaderDone));
    ReadHeader(After(s0, es2), 0);
    es := es2 + [Read(0, h)] + [Read(0, R.HeaderDone)];
  }

  lemma ClosingNothing(s: System)
    requires Inv(s)
    ensures |s.reg.reports| == |s.reg.ids| && s.reg.closing == multiset{}
  {
    hide ConnOk, G.Inv;
  }

  /** A run in which the first session fails twice while the second is still open: the id of the first
      is in the free list twice. */
  lemma FirstOfTwoFailsTwice(max: nat) returns (es: seq<Event>)
    requires max >= 2
    ensures var s := After(Init(max), es);
            && |s.conns| == 2 && FailedTwice(s.conns[0]) && s.reg.ids == [1, 2]
            && multiset(s.reg.free)[s.reg.ids[0]] == 2
  {
    var es0 := BusySession(max);
    hide *;
    var s := Reached(max, es0);
    ClosingNothing(s);
    es := es0 + [Read(0, R.BodyFail)] + [Write(0, S.WriteFail)];
    TwoMore(Init(max), es0, Read(0, R.BodyFail), Write(0, S.WriteFail));
    FailBoth(s);
    assert !After(Init(max), es).reg.state.Stopped?;
    CopiesOfAnId(max, es, 1);
    SurplusOfTwo(After(Init(max), es).conns);
  }

  /** A session of the live server can fail on both chains, and so give its id back twice, if and only if
      the server has room for two sessions: with one there is nobody to write to. */
  lemma DoubleFailureNeedsTwoSessions(max: nat)
    ensures (exists es, r :: 0 <= r < |After(Init(max), es).conns| && FailedTwice(After(Init(max), es).conns[r]))
            <==> max >= 2
  {
    hide After, FailedTwice, Init;
    if max >= 2 {
      var es := FirstOfTwoFailsTwice(max);
      assert FailedTwice(After(Init(max), es).conns[0]);
    } else {
      forall es, r: nat | r < |After(Init(max), es).conns|
        ensures !FailedTwice(After(Init(max), es).conns[r])
      {
        NeverTwiceAtCapacityOne(max, es, r);
      }
    }
  }
}
