/** Failed reads and writes of the live server, and what they do to the registry and the ids, in every
    run (Src/TcpSession.cpp:85-91, 138-148, 207-215 with Src/TcpServer.cpp:46-56). */
module Failures {
  import opened Frames
  import opened ChatSystem
  import R = ReadChain
  import S = SendChain
  import Session
  import L = Link
  import G = Registry
  import H = Handlers

  function HandlerEvents(s: System, e: Event): seq<H.Event> {
    match e
    case Start => [H.Start]
    case StopServer => [H.StopServer]
    case AcceptFailed => [H.AcceptFailed]
    case Accepted(_, _, _, _, _) => [H.Accepted]
    case Read(r, re) =>
      if r < |s.conns| && Session.ReportsClosed(s.conns[r].near, Session.OnRead(re)) then [H.ClosedBy(r)] else []
    case Write(r, we) =>
      if r < |s.conns| && Session.ReportsClosed(s.conns[r].near, Session.OnWrite(we)) then [H.ClosedBy(r)] else []
    case Far(_, _) => []
  }

  lemma StepOfRegistry(s: System, e: Event, hs: seq<H.Event>, reg0: G.Registry)
    requires s.reg == H.After(reg0, hs)
    ensures Step(s, e).reg == H.After(reg0, hs + HandlerEvents(s, e))
  {
    hide Session.ReportsClosed, Session.Step, G.Accept, G.Close, R.Enabled, L.FarStep, Offer;
    var he := HandlerEvents(s, e);
    if he == [] {
      assert hs + he == hs;
    } else {
      H.OneMore(reg0, hs, he[0]);
      hide H.After;
    }
  }

  /** The registry of every run of the server goes through a run of its handlers. */
  lemma {:induction false} RunOfRegistry(max: nat, es: seq<Event>) returns (hs: seq<H.Event>)
    ensures After(Init(max), es).reg == H.After(G.Init(max), hs)
    ensures (forall e <- es :: !e.StopServer?) ==> H.NoStop(hs)
  {
    hide Step;
    if es == [] {
      hs := [];
    } else {
      var before := es[..|es| - 1];
      var s, e := After(Init(max), before), es[|es| - 1];
      var gs := RunOfRegistry(max, before);
      hide H.After;
      StepOfRegistry(s, e, gs, G.Init(max));
      hs := gs + HandlerEvents(s, e);
      assert e in es;
    }
  }

  ghost predicate FailedTwice(c: Conn) {
    c.near.read.phase.LostBody? && c.near.send.failed
  }

  lemma OnceIffNoneFailedTwice(s: System)
    requires Inv(s)
    ensures G.Once(s.reg) <==> forall r | 0 <= r < |s.conns| :: !FailedTwice(s.conns[r])
  {
    hide H.SoundState, ConnInv, OwnInv, LogOk;
    forall r | 0 <= r < |s.conns|
      ensures s.reg.reports[r] <= 2 && (s.reg.reports[r] == 2 <==> FailedTwice(s.conns[r]))
    {
      ConnAt(s, r);
      ReportsOfConn(s.log, r, s.conns[r], G.Registered(s.reg, r));
    }
    if G.Once(s.reg) {
      assert forall r | 0 <= r < |s.conns| :: s.reg.reports[r] in s.reg.reports;
    }
  }

  lemma ReportsOfConn(log: seq<Entry>, r: nat, c: Conn, registered: bool)
    requires ConnInv(log, r, c, registered)
    ensures c.near.reports == Session.LostBody(c.near) + Session.LostWrite(c.near)
  {
    hide L.Inv, R.Inv, S.Inv, Others, S.Sent;
  }

  lemma InvSizes(s: System)
    requires Inv(s)
    ensures |s.conns| == |s.reg.ids| == |s.reg.reports| && H.SoundState(s.reg)
  {
    hide H.SoundState, ConnOk;
  }

  lemma ReportsAt(s: System, r: nat)
    requires Inv(s) && r < |s.conns|
    ensures |s.conns| == |s.reg.ids| == |s.reg.reports|
    ensures var c := s.conns[r];
            && s.reg.reports[r] == Session.LostBody(c.near) + Session.LostWrite(c.near)
            && (s.reg.reports[r] == 0 <==> !c.near.read.phase.LostBody? && !c.near.send.failed)
            && (s.reg.reports[r] > 1 <==> FailedTwice(c))
  {
    hide H.SoundState, ConnInv, OwnInv, LogOk;
    ConnAt(s, r);
    ReportsOfConn(s.log, r, s.conns[r], G.Registered(s.reg, r));
  }

  /** In every run that has not been stopped: the registry and the free list are exact throughout if and
      only if no session has failed both reading a body and writing. */
  lemma ExactUnlessFailedTwice(max: nat, es: seq<Event>) returns (hs: seq<H.Event>)
    requires !After(Init(max), es).reg.state.Stopped?
    ensures var s := After(Init(max), es);
            && s.reg == H.After(G.Init(max), hs) && ((forall e <- es :: !e.StopServer?) ==> H.NoStop(hs))
            && (H.AlwaysExact(max, hs) <==> forall r | 0 <= r < |s.conns| :: !FailedTwice(s.conns[r]))
  {
    hide After, Inv, H.After, G.Once, FailedTwice, H.AlwaysExact;
    hs := RunOfRegistry(max, es);
    H.ExactIffReportsOnce(max, hs);
    var s := Reached(max, es);
    OnceIffNoneFailedTwice(s);
  }

  /** In every run: a session whose id no session has given back twice is registered, and found by
      `getSession`, exactly as long as the server is not stopped and neither a body read nor a write of
      it has failed; one whose header read failed stays registered. */
  lemma RegisteredWhileNothingReported(max: nat, es: seq<Event>, r: nat)
    requires r < |After(Init(max), es).conns|
    ensures var s := After(Init(max), es);
            var near := s.conns[r].near;
            && |s.reg.ids| == |s.conns|
            && ((forall q | 0 <= q < |s.conns| && s.reg.ids[q] == s.reg.ids[r] :: !FailedTwice(s.conns[q]))
                || s.reg.state.Stopped?
                ==> && (G.Registered(s.reg, r)
                        <==> !s.reg.state.Stopped? && !near.read.phase.LostBody? && !near.send.failed)
                    && (G.Registered(s.reg, r) <==> G.GetSession(s.reg, s.reg.ids[r]) == r))
  {
    hide After, Inv, H.After, FailedTwice, G.GetSession;
    var hs := RunOfRegistry(max, es);
    var s := Reached(max, es);
    InvSizes(s);
    var id := s.reg.ids[r];
    forall q: nat | q < |s.conns|
      ensures s.reg.reports[q] == 0 <==> !s.conns[q].near.read.phase.LostBody? && !s.conns[q].near.send.failed
      ensures s.reg.reports[q] > 1 <==> FailedTwice(s.conns[q])
    {
      ReportsAt(s, q);
    }
    H.GetSessionAgrees(max, hs, id, r);
    RegisteredIsFound(s.reg, r);
  }

  lemma RegisteredIsFound(reg: G.Registry, r: nat)
    requires r < |reg.ids|
    ensures G.Registered(reg, r) <==> G.GetSession(reg, reg.ids[r]) == r
  {
  }

  /** Failures of the first `n` sessions that have the given id, less one for each such session. */
  ghost function Surplus(conns: seq<Conn>, ids: seq<int>, n: nat, id: int): int
    requires n <= |conns| == |ids|
  {
    if n == 0 then 0
    else
      Surplus(conns, ids, n - 1, id)
      + if ids[n - 1] == id
        then Session.LostBody(conns[n - 1].near) + Session.LostWrite(conns[n - 1].near) - 1 else 0
  }

  lemma {:induction false} SurplusOfReports(conns: seq<Conn>, ids: seq<int>, reports: seq<nat>, n: nat, id: int)
    requires n <= |conns| == |ids| == |reports|
    requires forall r: nat | r < n ::
               reports[r] == Session.LostBody(conns[r].near) + Session.LostWrite(conns[r].near)
    ensures Surplus(conns, ids, n, id) + multiset(ids[..n])[id] == G.Reported(ids[..n], reports[..n])[id]
  {
    if n > 0 {
      SurplusOfReports(conns, ids, reports, n - 1, id);
      G.ReportedLast(ids[..n], reports[..n], id);
      hide G.Reported, Session.LostBody, Session.LostWrite;
      assert ids[..n][..n - 1] == ids[..n - 1] && reports[..n][..n - 1] == reports[..n - 1];
    }
  }

  /** In every run before `stop`, for every id: the free list holds it once, plus once for every session
      with that id that has failed twice, less once for every session with that id that has not failed. */
  lemma CopiesOfAnId(max: nat, es: seq<Event>, id: int)
    requires !After(Init(max), es).reg.state.Stopped?
    ensures var s := After(Init(max), es);
            && |s.reg.ids| == |s.conns|
            && multiset(s.reg.free)[id] == (if 1 <= id <= max then 1 else 0) + Surplus(s.conns, s.reg.ids, |s.conns|, id)
  {
    hide After, Inv, H.After, Surplus, G.Reported, Session.LostBody, Session.LostWrite;
    var s := Reached(max, es);
    InvSizes(s);
    forall r: nat | r < |s.conns|
      ensures s.reg.reports[r] == Session.LostBody(s.conns[r].near) + Session.LostWrite(s.conns[r].near)
    {
      ReportsAt(s, r);
    }
    var n := |s.conns|;
    SurplusOfReports(s.conns, s.reg.ids, s.reg.reports, n, id);
    assert s.reg.ids[..n] == s.reg.ids && s.reg.reports[..n] == s.reg.reports;
    var hs := RunOfRegistry(max, es);
    H.FreeCopies(max, hs, id);
  }

  // A failed read, at the whole server.

  predicate Lost(read: R.ReadState) {
    read.phase.LostHeader? || read.phase.LostBody?
  }

  /** What one event leaves of a session whose read has failed. */
  ghost predicate StaysSilent(s: System, s': System, r: nat) {
    && r < |s.conns| <= |s'.conns|
    && s'.conns[r].near.read.phase == s.conns[r].near.read.phase
    && s'.conns[r].near.read.delivered == s.conns[r].near.read.delivered
    && Own(s'.log, r) == Own(s.log, r)
  }

  lemma SilentNear(s: System, q: nat, e: Session.SessionEvent, r: nat)
    requires q < |s.conns| && r < |s.conns| && Lost(s.conns[r].near.read)
    ensures StaysSilent(s, NearStep(s, q, e), r)
  {
    Session.LostReadStep(s.conns[r].near, e);
    hide Session.Step, Session.ReportsClosed, G.Close, Own;
  }

  lemma SilentOffer(c: Conn, i: nat, registered: bool, sender: nat, m: Image, position: nat)
    ensures Offer(c, i, registered, sender, m, position).near.read == c.near.read
  {
  }

  lemma SilentBody(s: System, q: nat, r: nat)
    requires q < |s.conns| && r < |s.conns| && Lost(s.conns[r].near.read)
    requires R.Enabled(s.conns[q].near.read, R.BodyDone)
    ensures StaysSilent(s, ReadStep(s, q, R.BodyDone), r)
  {
    assert q != r;
    BodyStepParts(s, q);
    var m := Session.Step(s.conns[q].near, Session.OnRead(R.BodyDone)).read.msg;
    SilentOffer(s.conns[r], r, G.Registered(s.reg, r), q, m, |s.log| + 1);
    OthersSnoc(s.log, Entry(q, m), r);
    hide Session.Step, R.Enabled, ReadStep, Offer, Own, Head, G.Registered;
    assert Own(s.log, r) + [] == Own(s.log, r);
  }

  lemma SilentStep(s: System, e: Event, r: nat)
    requires r < |s.conns| && Lost(s.conns[r].near.read)
    ensures StaysSilent(s, Step(s, e), r)
  {
    hide R.Enabled, G.Accept, G.Close, NearStep, Dispatch, L.FarStep, Own, Lost;
    match e
    case Read(q, re) =>
      if q < |s.conns| {
        if re.BodyDone? && R.Enabled(s.conns[q].near.read, re) {
          SilentBody(s, q, r);
        } else {
          SilentNear(s, q, Session.OnRead(re), r);
        }
      }
    case Write(q, we) => if q < |s.conns| { SilentNear(s, q, Session.OnWrite(we), r); }
    case _ =>
  }

  lemma {:induction false} SilentRun(s: System, es: seq<Event>, r: nat)
    requires r < |s.conns| && Lost(s.conns[r].near.read)
    ensures StaysSilent(s, After(s, es), r)
  {
    hide Step, Own;
    if es != [] {
      SilentRun(s, es[..|es| - 1], r);
      SilentStep(After(s, es[..|es| - 1]), es[|es| - 1], r);
    }
  }

  lemma FailedRead(s: System, r: nat, f: R.ReadEvent)
    requires r < |s.conns| && (f.HeaderFail? || f.BodyFail?) && R.Enabled(s.conns[r].near.read, f)
    ensures var s' := Step(s, Read(r, f));
            && |s'.conns| == |s.conns| && s'.log == s.log
            && s'.conns[r].near.read == s.conns[r].near.read.(phase := if f.HeaderFail? then R.LostHeader else R.LostBody)
  {
    hide G.Close, Head;
  }

  /** After a failed read of a header or of a body, in every continuation of every run: the session
      delivers nothing more, and so causes no broadcast. */
  lemma ReadFailureSilences(max: nat, es: seq<Event>, r: nat, f: R.ReadEvent, fs: seq<Event>)
    requires r < |After(Init(max), es).conns| && (f.HeaderFail? || f.BodyFail?)
    requires R.Enabled(After(Init(max), es).conns[r].near.read, f)
    ensures var s, s' := After(Init(max), es), After(Init(max), es + [Read(r, f)] + fs);
            && |s.conns| <= |s'.conns|
            && (if f.HeaderFail? then s'.conns[r].near.read.phase.LostHeader? else s'.conns[r].near.read.phase.LostBody?)
            && s'.conns[r].near.read.delivered == s.conns[r].near.read.delivered
            && Own(s'.log, r) == Own(s.log, r)
  {
    var s := After(Init(max), es);
    OneMore(Init(max), es, Read(r, f));
    AfterAppend(Init(max), es + [Read(r, f)], fs);
    FailedRead(s, r, f);
    hide After, Step, R.Enabled, Own;
    SilentRun(Step(s, Read(r, f)), fs, r);
  }
}
