/** Runs of the server whose handlers are atomic, `stop` included (Src/TcpServer.cpp:29-117,
    Src/TcpServer.h:37-42). */
module Handlers {
  import opened Registry
  import I = Interleaving

  datatype Event = Start | AcceptFailed | Accepted | ClosedBy(r: nat) | StopServer

  function Handle(s: Registry, e: Event): Registry {
    match e
    case Start => Listen(s)
    case AcceptFailed => AcceptError(s)
    case Accepted => Accept(s)
    case ClosedBy(r) => Close(s, r)
    case StopServer => Stop(s)
  }

  function After(s: Registry, es: seq<Event>): Registry
    decreases |es|
  {
    if es == [] then s else Handle(After(s, es[..|es| - 1]), es[|es| - 1])
  }

  ghost predicate Quiet(s: Registry) {
    s.stage.Idle? && s.closing == multiset{}
  }

  /** `Inv` is the invariant of the steps; `stop` ends what it says about the free list. */
  ghost predicate SoundState(s: Registry) {
    && Shape(s) && Quiet(s)
    && (if s.state.Stopped? then s.sessions == map[] else Inv(s))
  }

  ghost predicate Running(s: Registry) {
    SoundState(s) && !s.state.Stopped?
  }

  /** Before `stop`, an accept that finds the server below capacity always finds a free id, however
      often sessions have reported closed. */
  lemma NeverPopsEmptyList(s: Registry)
    requires Running(s) && Guard(s).stage.Guarded?
    ensures Guard(s).free != []
  {
    hide Balance, Shape, Cover;
    assert Covered(s);
    I.FreeUnlessFull(s);
  }

  /** An accept that completes without error opens a session, and arms the next accept, exactly when
      the server runs below capacity; otherwise nothing is opened and no accept is outstanding. */
  lemma AcceptOutcome(s: Registry)
    requires SoundState(s) && s.armed > 0
    ensures var s' := Accept(s);
            if s.state.Started? && |s.sessions| < s.max
            then |s'.ids| == |s.ids| + 1 && s'.ids == s.ids + [s.free[0]] && s'.armed == 1
            else s' == s.(armed := 0)
  {
    hide Balance, Cover;
    if s.state.Started? && |s.sessions| < s.max {
      NeverPopsEmptyList(s);
    }
  }

  lemma AcceptQuiet(s: Registry)
    requires Running(s)
    ensures Quiet(Accept(s)) && Accept(s).state == s.state
  {
    hide Inv, Shape;
    if Guard(s).stage.Guarded? {
      NeverPopsEmptyList(s);
    }
  }

  lemma AcceptSteps(s: Registry)
    requires Inv(s)
    ensures Inv(Accept(s)) && (Exact(s) ==> Exact(Accept(s)))
  {
    hide Shape, Conserved, Covered, Exact, Guard, Pop, Emplace;
    AcceptStep(s, Guard(s));
    PopInv(Guard(s));
    EmplaceInv(Pop(Guard(s)));
    if Exact(s) {
      EmplaceExact(Pop(Guard(s)));
    }
  }

  /** The atomic accept is the three steps in a row, and keeps what they keep. */
  lemma AcceptInv(s: Registry)
    requires SoundState(s)
    ensures SoundState(Accept(s)) && Accept(s).state == s.state
    ensures Running(s) && Exact(s) ==> Exact(Accept(s))
  {
    if s.state.Stopped? {
      assert Accept(s) == Guard(s);
    } else {
      hide Shape, Conserved, Covered, Exact, Accept, Quiet;
      AcceptQuiet(s);
      AcceptSteps(s);
    }
  }

  lemma CloseParts(s: Registry, r: nat)
    requires Shape(s) && r < |s.ids| && s.closing == multiset{}
    ensures var id := s.ids[r];
            Close(s, r) == s.(sessions := s.sessions - {id}, reports := s.reports[r := s.reports[r] + 1],
                              free := s.free + [id], calls := s.calls + [id])
  {
    assert multiset{} + multiset{s.ids[r]} - multiset{s.ids[r]} == multiset{};
  }

  lemma CloseInv(s: Registry, r: nat)
    requires SoundState(s)
    ensures SoundState(Close(s, r)) && Close(s, r).state == s.state
    ensures Running(s) && Exact(s) && r < |s.ids| && s.reports[r] == 0 ==> Exact(Close(s, r))
  {
    if r < |s.ids| {
      CloseParts(s, r);
      EraseShape(s, r);
      PushShape(Erase(s, r), s.ids[r]);
      hide Balance, Cover, Partition, Agrees, Shape;
      if Running(s) {
        EraseInv(s, r);
        if Exact(s) && s.reports[r] == 0 {
          EraseExact(s, r);
        }
        PushInv(Erase(s, r), s.ids[r]);
      } else {
        assert s.sessions - {s.ids[r]} == map[];
      }
    }
  }

  lemma StepInv(s: Registry, e: Event)
    requires SoundState(s)
    ensures SoundState(Handle(s, e))
  {
    hide Balance, Cover;
    match e
    case Start => if Running(s) { AcceptStep(s, Listen(s)); }
    case AcceptFailed => if Running(s) { AcceptStep(s, AcceptError(s)); }
    case Accepted => AcceptInv(s);
    case ClosedBy(r) => CloseInv(s, r);
    case StopServer =>
  }

  lemma OneMore(s: Registry, es: seq<Event>, e: Event)
    ensures After(s, es + [e]) == Handle(After(s, es), e)
  {
    assert (es + [e])[..|es|] == es;
  }

  lemma {:induction false} RunInv(s: Registry, es: seq<Event>)
    requires SoundState(s)
    ensures SoundState(After(s, es))
  {
    hide SoundState, Handle;
    if es != [] {
      RunInv(s, es[..|es| - 1]);
      StepInv(After(s, es[..|es| - 1]), es[|es| - 1]);
    }
  }

  lemma {:induction false} MaxIsConstant(s: Registry, es: seq<Event>)
    ensures After(s, es).max == s.max
  {
    if es != [] {
      MaxIsConstant(s, es[..|es| - 1]);
    }
  }

  lemma Reached(max: nat, es: seq<Event>) returns (s: Registry)
    ensures s == After(Init(max), es) && SoundState(s) && s.max == max
  {
    InitInv(max);
    assert SoundState(Init(max)) by { hide Balance, Cover; }
    RunInv(Init(max), es);
    MaxIsConstant(Init(max), es);
    s := After(Init(max), es);
  }

  /** In every run before `stop`, with no assumption on close reports, the free list is a queue: the ids
      of the sessions opened followed by the list are 1..max followed by the ids given back by
      `handleClose`, each in order. */
  lemma FreeListIsAQueue(max: nat, es: seq<Event>)
    requires !After(Init(max), es).state.Stopped?
    ensures var s := After(Init(max), es);
            s.ids + s.free == InitialIds(max) + s.calls
  {
    var s := Reached(max, es);
    hide InitialIds, After, Shape, Covered;
    assert s.ids + [] == s.ids;
  }

  /** Hence, for every id: the copies in the free list are 1 (for the ids the server owns) plus the calls
      of `handleClose` for it minus the accepts that took it. */
  lemma FreeListIsConserved(max: nat, es: seq<Event>, id: int)
    requires !After(Init(max), es).state.Stopped?
    ensures var s := After(Init(max), es);
            multiset(s.free)[id] + multiset(s.ids)[id]
            == (if 1 <= id <= max then 1 else 0) + multiset(s.calls)[id]
  {
    FreeListIsAQueue(max, es);
    InitialCount(max, id);
    hide InitialIds, After;
    var s := After(Init(max), es);
    assert multiset(s.ids + s.free)[id] == multiset(InitialIds(max) + s.calls)[id];
  }

  // One report per session is exactly what the registry needs.

  lemma SecondReportBreaks(s: Registry, r: nat)
    requires Running(s) && Exact(s) && r < |s.ids| && s.reports[r] > 0
    ensures !Exact(Close(s, r))
  {
    CloseInv(s, r);
    CloseParts(s, r);
    var id, s' := s.ids[r], Close(s, r);
    hide Balance, Cover;
    if id in s.sessions {
      var other := s.sessions[id];
      assert other != r && s'.reports[other] == 0 && s'.ids[other] == id && id !in s'.sessions;
    } else {
      InitialCount(s.max, id);
      hide InitialIds;
      assert id in s.ids;
      assert (multiset(s.free) + (s.closing + Taking(s)) + multiset(s.sessions.Keys))[id] == 1;
      assert (multiset(s'.free) + (s'.closing + Taking(s')) + multiset(s'.sessions.Keys))[id] == 2;
    }
  }

  lemma CloseStepExact(s: Registry, r: nat)
    requires Running(s) && Exact(s) && Once(s) && r < |s.ids|
    ensures Running(Close(s, r))
    ensures Exact(Close(s, r)) <==> Once(Close(s, r))
  {
    CloseInv(s, r);
    CloseParts(s, r);
    var s' := Close(s, r);
    hide Balance, Cover, Partition, Agrees;
    if s.reports[r] == 0 {
      forall n | n in s'.reports
        ensures n <= 1
      {
        var q :| 0 <= q < |s'.reports| && s'.reports[q] == n;
        assert s.reports[q] in s.reports;
      }
    } else {
      SecondReportBreaks(s, r);
      assert s'.reports[r] in s'.reports;
    }
  }

  /** Only a close handler adds a report. */
  lemma OtherStepOnce(s: Registry, e: Event)
    requires Once(s) && !e.ClosedBy?
    ensures Once(Handle(s, e))
  {
  }

  lemma OtherStepExact(s: Registry, e: Event)
    requires Running(s) && Exact(s) && !e.ClosedBy? && !Handle(s, e).state.Stopped?
    ensures Running(Handle(s, e)) && Exact(Handle(s, e))
  {
    StepInv(s, e);
    hide Conserved, Covered, Shape, Exact, Accept, Quiet;
    match e
    case Start => AcceptStep(s, Listen(s));
    case AcceptFailed => AcceptStep(s, AcceptError(s));
    case Accepted => AcceptInv(s);
    case StopServer => assert Handle(s, e) == s;
  }

  lemma StepExact(s: Registry, e: Event)
    requires Running(s) && Exact(s) && Once(s) && !Handle(s, e).state.Stopped?
    ensures Running(Handle(s, e))
    ensures Exact(Handle(s, e)) <==> Once(Handle(s, e))
  {
    hide Running, Exact, Once;
    if e.ClosedBy? {
      if e.r < |s.ids| {
        CloseStepExact(s, e.r);
      }
    } else {
      OtherStepExact(s, e);
      OtherStepOnce(s, e);
    }
  }

  predicate NoStop(es: seq<Event>) {
    forall e <- es :: !e.StopServer?
  }

  /** Exact after every part of the run. */
  ghost predicate AlwaysExact(max: nat, es: seq<Event>) {
    forall k | 0 <= k <= |es| :: Shape(After(Init(max), es[..k])) && Exact(After(Init(max), es[..k]))
  }

  lemma InitialIsExact(max: nat)
    ensures Running(Init(max)) && Exact(Init(max)) && Once(Init(max))
  {
    InitInv(max);
    hide Balance, Cover, Partition, Agrees;
  }

  lemma ReportsGrow(s: Registry, e: Event, r: nat)
    requires |s.reports| == |s.ids| && r < |s.reports|
    ensures r < |Handle(s, e).reports| && s.reports[r] <= Handle(s, e).reports[r]
  {
    match e
    case Accepted => AcceptReports(s);
    case ClosedBy(q) =>
      if q < |s.ids| {
        assert Push(Erase(s, q), s.ids[q]).reports == Erase(s, q).reports;
      }
    case _ =>
  }

  lemma AcceptReports(s: Registry)
    ensures Accept(s).reports == s.reports || Accept(s).reports == s.reports + [0]
  {
  }

  lemma NotOnceAgain(s: Registry, e: Event)
    requires Running(s) && !Once(s)
    ensures !Once(Handle(s, e))
  {
    hide Conserved, Covered;
    var n :| n in s.reports && n > 1;
    var r :| 0 <= r < |s.reports| && s.reports[r] == n;
    ReportsGrow(s, e, r);
    hide Handle;
    assert Handle(s, e).reports[r] in Handle(s, e).reports;
  }

  lemma AlwaysExactSnoc(max: nat, es: seq<Event>, e: Event)
    ensures var s' := Handle(After(Init(max), es), e);
            AlwaysExact(max, es + [e]) <==> AlwaysExact(max, es) && Shape(s') && Exact(s')
  {
    OneMore(Init(max), es, e);
    hide After, Handle, Exact, Shape;
    var fs := es + [e];
    assert fs[..|fs|] == fs;
    assert forall k | 0 <= k <= |es| :: fs[..k] == es[..k];
  }

  lemma AlwaysExactLast(max: nat, es: seq<Event>)
    requires AlwaysExact(max, es)
    ensures Shape(After(Init(max), es)) && Exact(After(Init(max), es))
  {
    assert es[..|es|] == es;
  }

  lemma ExactAtFirst(max: nat)
    ensures AlwaysExact(max, []) && Once(After(Init(max), []))
  {
    InitialIsExact(max);
    hide Balance, Cover, Partition, Agrees;
  }

  lemma RunningParts(s: Registry)
    requires SoundState(s)
    ensures Shape(s) && (Running(s) <==> !s.state.Stopped?)
  {
  }

  /** Once stopped, stopped for ever. */
  lemma StoppedStays(s: Registry, e: Event)
    requires s.state.Stopped?
    ensures Handle(s, e).state.Stopped?
  {
  }

  /** In every run that has not been stopped: the id lists and the registry stay exact throughout (no id
      free twice, none both free and live, none lost, and registered under each id the one session open
      with it) if and only if no session reports closed twice. */
  lemma {:induction false} ExactIffReportsOnce(max: nat, es: seq<Event>)
    requires !After(Init(max), es).state.Stopped?
    ensures AlwaysExact(max, es) <==> Once(After(Init(max), es))
  {
    hide *;
    if es == [] {
      ExactAtFirst(max);
    } else {
      var before, e := es[..|es| - 1], es[|es| - 1];
      assert es == before + [e];
      OneMore(Init(max), before, e);
      var s := Reached(max, before);
      StepInv(s, e);
      RunningParts(s);
      RunningParts(Handle(s, e));
      if s.state.Stopped? {
        StoppedStays(s, e);
      }
      ExactIffReportsOnce(max, before);
      AlwaysExactSnoc(max, before, e);
      if Once(s) {
        AlwaysExactLast(max, before);
        StepExact(s, e);
      } else {
        NotOnceAgain(s, e);
      }
    }
  }

  /** What exactness means for the free list, id by id. */
  lemma ExactFreeList(s: Registry, id: int)
    requires Running(s) && Exact(s)
    ensures multiset(s.free)[id] + (if id in s.sessions then 1 else 0) == if 1 <= id <= s.max then 1 else 0
  {
    InitialCount(s.max, id);
    hide InitialIds, Balance, Cover, Shape;
    assert (multiset(s.free) + (s.closing + Taking(s)) + multiset(s.sessions.Keys))[id] == multiset(InitialIds(s.max))[id];
  }

  lemma CloseAccounted(s: Registry, r: nat)
    requires Accounted(s)
    ensures Accounted(Close(s, r))
  {
    hide Accounted, Erase, Push;
    if r < |s.ids| {
      EraseAccounted(s, r);
      PushAccounted(Erase(s, r), s.ids[r]);
    }
  }

  lemma HandleAccounted(s: Registry, e: Event)
    requires Accounted(s)
    ensures Accounted(Handle(s, e))
  {
    match e
    case Accepted =>
      hide Reported;
      assert Accounted(Pop(Guard(s)));
      hide Pop, Guard, Emplace, Accounted;
      EmplaceAccounted(Pop(Guard(s)));
    case ClosedBy(r) =>
      hide *;
      CloseAccounted(s, r);
      ClosedIsClose(s, r);
    case _ => hide Reported;
  }

  lemma ClosedIsClose(s: Registry, r: nat)
    ensures Handle(s, ClosedBy(r)) == Close(s, r)
  {
  }

  lemma {:induction false} RunAccounted(max: nat, es: seq<Event>)
    ensures Accounted(After(Init(max), es))
  {
    hide Accounted, Handle;
    if es == [] {
      InitAccounted(max);
    } else {
      RunAccounted(max, es[..|es| - 1]);
      HandleAccounted(After(Init(max), es[..|es| - 1]), es[|es| - 1]);
    }
  }

  /** In every run before `stop`, for every id: each report of a session with that id beyond the one it
      owes is one more copy of the id in the free list. */
  lemma FreeCopies(max: nat, es: seq<Event>, id: int)
    requires !After(Init(max), es).state.Stopped?
    ensures var s := After(Init(max), es);
            && |s.reports| == |s.ids|
            && multiset(s.free)[id] + multiset(s.ids)[id]
               == (if 1 <= id <= max then 1 else 0) + Reported(s.ids, s.reports)[id]
  {
    FreeListIsConserved(max, es, id);
    RunAccounted(max, es);
    var s := Reached(max, es);
    hide After, Reported, Inv, Shape;
    assert multiset(s.calls) + multiset{} == multiset(s.calls);
  }

  /** No session with this id has reported twice. */
  predicate OnceFor(s: Registry, id: int)
    requires |s.reports| == |s.ids|
  {
    forall q | 0 <= q < |s.ids| && s.ids[q] == id :: s.reports[q] <= 1
  }

  /** Of an id that no session has given back twice at most one session has not reported, and then the id
      is not free. */
  lemma OneUnreported(s: Registry, q: nat, r: nat)
    requires |s.reports| == |s.ids| && q < |s.ids| && r < |s.ids| && s.ids[q] == s.ids[r] && OnceFor(s, s.ids[r])
    requires s.reports[q] == 0 && s.reports[r] == 0
    requires multiset(s.free)[s.ids[r]] + multiset(s.ids)[s.ids[r]] <= 1 + Reported(s.ids, s.reports)[s.ids[r]]
    ensures q == r && s.ids[r] !in s.free
  {
    Unreported(s.ids, s.reports, s.ids[r], {q, r});
    hide Reported;
    assert q != r ==> |{q, r}| == 2;
    assert q == r ==> {q, r} == {r};
  }

  /** It is then the one registered. */
  lemma UnreportedIsRegistered(max: nat, es: seq<Event>, r: nat)
    requires var s := After(Init(max), es);
             && !s.state.Stopped? && |s.reports| == |s.ids|
             && r < |s.ids| && s.reports[r] == 0 && OnceFor(s, s.ids[r])
    ensures Registered(After(Init(max), es), r)
  {
    var s := Reached(max, es);
    var id := s.ids[r];
    FreeCopies(max, es, id);
    RunAccounted(max, es);
    hide After, Reported, Balance;
    OneUnreported(s, r, r);
    assert id in s.ids && id in s.sessions;
    OneUnreported(s, s.sessions[id], r);
  }

  /** `getSession` agrees with history, in every run: before `stop` it finds, under an id that no session
      has given back twice, the session opened with that id that has not reported closed, of which there
      is at most one, and nothing if there is none; after `stop` it finds nothing. */
  lemma GetSessionAgrees(max: nat, es: seq<Event>, id: int, r: nat)
    ensures var s := After(Init(max), es);
            && |s.reports| == |s.ids|
            && (s.state.Stopped? ==> GetSession(s, id) == -1)
            && (!s.state.Stopped? && OnceFor(s, id)
                ==> && (GetSession(s, id) == r <==> r < |s.ids| && s.ids[r] == id && s.reports[r] == 0)
                    && (GetSession(s, id) == -1 <==> forall q | 0 <= q < |s.ids| && s.ids[q] == id :: s.reports[q] > 0))
  {
    var s := Reached(max, es);
    RunAccounted(max, es);
    hide After, Reported, Inv, Shape;
    if !s.state.Stopped? && OnceFor(s, id) {
      forall q: nat | q < |s.ids| && s.ids[q] == id && s.reports[q] == 0
        ensures Registered(s, q)
      {
        UnreportedIsRegistered(max, es, q);
      }
    }
  }

  /** The event takes what is registered under the id out of the registry. */
  predicate Ends(s: Registry, e: Event, id: int) {
    e.StopServer? || (e.ClosedBy? && e.r < |s.ids| && s.ids[e.r] == id)
  }

  /** In every run, whatever sessions report, what each next event does to registrations: a registered
      session stays registered until `stop` or a close report for its id, an accept never displaces
      one, and a new session is registered exactly if its id is not taken. */
  lemma RegistrationLifetime(max: nat, es: seq<Event>, e: Event, r: nat)
    ensures var s, s' := After(Init(max), es), After(Init(max), es + [e]);
            Registered(s', r) <==>
            if r < |s.ids|
            then Registered(s, r) && !Ends(s, e, s.ids[r])
            else r < |s'.ids| && s'.ids[r] !in s.sessions
  {
    var s := Reached(max, es);
    OneMore(Init(max), es, e);
    hide After, SoundState, Handle, Registered;
    RegistrationStep(s, e, r);
  }

  lemma RegistrationStep(s: Registry, e: Event, r: nat)
    requires SoundState(s)
    ensures var s' := Handle(s, e);
            Registered(s', r) <==>
            if r < |s.ids|
            then Registered(s, r) && !Ends(s, e, s.ids[r])
            else r < |s'.ids| && s'.ids[r] !in s.sessions
  {
    hide Balance, Cover;
    match e
    case Accepted =>
      if s.armed > 0 {
        AcceptOutcome(s);
      }
    case ClosedBy(q) =>
      if q < |s.ids| {
        CloseParts(s, q);
      }
    case _ =>
  }

  lemma IdsGrowStep(s: Registry, e: Event)
    requires |s.ids| == |s.reports|
    ensures var s' := Handle(s, e);
            s.ids <= s'.ids && |s'.ids| == |s'.reports| && |s'.ids| <= |s.ids| + 1
  {
    match e
    case Accepted => IdsGrowAccept(s);
    case ClosedBy(r) =>
      if r < |s.ids| {
        IdsKeptByPush(Erase(s, r), s.ids[r]);
      }
    case _ =>
  }

  lemma IdsKeptByPush(s: Registry, id: int)
    ensures Push(s, id).ids == s.ids && Push(s, id).reports == s.reports
  {
  }

  lemma IdsGrowAccept(s: Registry)
    requires |s.ids| == |s.reports|
    ensures var s' := Accept(s);
            s.ids <= s'.ids && |s'.ids| == |s'.reports| && |s'.ids| <= |s.ids| + 1
  {
    assert Pop(Guard(s)).ids == s.ids && Pop(Guard(s)).reports == s.reports;
    hide Pop, Guard;
  }

  lemma {:induction false} IdsGrow(s: Registry, es: seq<Event>, k: nat)
    requires k <= |es| && |s.ids| == |s.reports|
    ensures After(s, es[..k]).ids <= After(s, es).ids && |After(s, es).ids| == |After(s, es).reports|
    decreases |es|
  {
    hide Handle;
    if k == |es| {
      assert es[..k] == es;
      if k > 0 {
        IdsGrow(s, es[..k - 1], k - 1);
        assert es[..k - 1][..k - 1] == es[..k - 1];
        IdsGrowStep(After(s, es[..k - 1]), es[k - 1]);
      }
    } else {
      var n := |es| - 1;
      IdsGrow(s, es[..n], k);
      assert es[..n][..k] == es[..k];
      IdsGrowStep(After(s, es[..n]), es[n]);
    }
  }

  lemma NoneAtFirst(max: nat)
    ensures After(Init(max), []).ids == [] && Init(max).ids == [] && Init(max).reports == []
  {
  }

  /** From the k-th event of the run on, nothing takes the id out of the registry. */
  ghost predicate Undisturbed(max: nat, es: seq<Event>, k: nat, id: int) {
    forall i | k <= i < |es| :: !Ends(After(Init(max), es[..i]), es[i], id)
  }

  lemma UndisturbedSnoc(max: nat, es: seq<Event>, e: Event, k: nat, id: int)
    requires k <= |es|
    ensures Undisturbed(max, es + [e], k, id) <==> Undisturbed(max, es, k, id) && !Ends(After(Init(max), es), e, id)
  {
    hide After, Ends;
    var fs := es + [e];
    assert fs[..|es|] == es && fs[|es|] == e;
    assert forall i | 0 <= i < |es| :: fs[..i] == es[..i] && fs[i] == es[i];
  }

  /** The k-th event of the run opens session `r`. */
  ghost predicate Opens(max: nat, es: seq<Event>, k: nat, r: nat) {
    k < |es| && |After(Init(max), es[..k]).ids| == r < |After(Init(max), es[..k + 1]).ids|
  }

  lemma OpensMore(max: nat, es: seq<Event>, e: Event, k: nat, r: nat)
    requires Opens(max, es, k, r)
    ensures Opens(max, es + [e], k, r) && k < |es|
  {
    hide After;
    assert (es + [e])[..k] == es[..k] && (es + [e])[..k + 1] == es[..k + 1];
  }

  lemma OpensLast(max: nat, es: seq<Event>, e: Event, r: nat)
    requires |After(Init(max), es).ids| == r < |After(Init(max), es + [e]).ids|
    ensures Opens(max, es + [e], |es|, r)
  {
    hide After;
    assert (es + [e])[..|es|] == es && (es + [e])[..|es| + 1] == es + [e];
  }

  lemma NoEventsLeft(max: nat, es: seq<Event>, id: int)
    ensures Undisturbed(max, es, |es|, id)
  {
  }

  /** In every run, whatever sessions report: a session opened is registered if and only if its id was
      not taken when it was opened, and since then neither the server was stopped nor a session with its
      id has reported closed. */
  lemma {:induction false} RegisteredIffUndisturbed(max: nat, es: seq<Event>, r: nat) returns (k: nat)
    requires r < |After(Init(max), es).ids|
    ensures Opens(max, es, k, r)
    ensures var s := After(Init(max), es);
            Registered(s, r) <==> s.ids[r] !in After(Init(max), es[..k]).sessions && Undisturbed(max, es, k + 1, s.ids[r])
  {
    NoneAtFirst(max);
    hide *;
    if es == [] {
      assert false;
    }
    var n := |es| - 1;
    var before, e := es[..n], es[n];
    var s := After(Init(max), before);
    assert es == before + [e] && es[..|es|] == es;
    RegistrationLifetime(max, before, e, r);
    IdsGrow(Init(max), before, 0);
    OneMore(Init(max), before, e);
    IdsGrowStep(s, e);
    if r < |s.ids| {
      k := RegisteredIffUndisturbed(max, before, r);
      OpensMore(max, before, e, k, r);
      UndisturbedSnoc(max, before, e, k + 1, s.ids[r]);
      assert before[..k] == es[..k];
    } else {
      k := n;
      OpensLast(max, before, e, r);
      NoEventsLeft(max, es, Handle(s, e).ids[r]);
    }
  }

  /** It does fail: with capacity 1, a session that reports closed twice leaves its id in the free list
      twice. */
  lemma SecondReportDuplicates() returns (es: seq<Event>)
    ensures NoStop(es) && After(Init(1), es).free == [1, 1]
  {
    es := [Start, Accepted, ClosedBy(0), ClosedBy(0)];
    FourSteps(Init(1), Start, Accepted, ClosedBy(0), ClosedBy(0));
    InitialOne();
    hide InitialIds, After, Accept, Close, Listen, AcceptError, Stop;
    OpenAndCloseTwice(Init(1));
  }

  lemma InitialOne()
    ensures Init(1).free == [1]
  {
    assert InitialIds(0) == [];
  }

  lemma FourSteps(s: Registry, a: Event, b: Event, c: Event, d: Event)
    ensures After(s, [a, b, c, d]) == Handle(Handle(Handle(Handle(s, a), b), c), d)
  {
    hide Handle;
    OneMore(s, [a, b, c], d);
    OneMore(s, [a, b], c);
    OneMore(s, [a], b);
    OneMore(s, [], a);
    assert [a, b, c] + [d] == [a, b, c, d] && [a, b] + [c] == [a, b, c];
    assert [a] + [b] == [a, b] && [] + [a] == [a];
  }

  lemma OpenAndCloseTwice(s: Registry)
    requires s.state.Ready? && s.max == 1 && s.free == [1] && s.sessions == map[] && s.ids == [] && s.reports == []
    requires s.armed == 0 && Quiet(s)
    ensures Close(Close(Accept(Listen(s)), 0), 0).free == [1, 1]
  {
    var s2 := Accept(Listen(s));
    assert s2.free == [] && s2.ids == [1] && s2.reports == [0] && s2.closing == multiset{};
    var s3 := Close(s2, 0);
    CloseOne(s2);
    CloseOne(s3);
  }

  lemma CloseOne(s: Registry)
    requires s.ids == [1] && |s.reports| == 1 && s.closing == multiset{}
    ensures var s' := Close(s, 0);
            s'.free == s.free + [1] && s'.ids == [1] && |s'.reports| == 1 && s'.closing == multiset{}
  {
    assert multiset{} + multiset{1} - multiset{1} == multiset{};
  }

  // The accept chain and `stop`.

  /** In every run: at most one accept is outstanding, and the live sessions never exceed the
      capacity. */
  lemma AcceptChain(max: nat, es: seq<Event>)
    ensures var s := After(Init(max), es); s.armed <= 1 && |s.sessions| <= max
  {
    var s := Reached(max, es);
  }

  /** Once no accept is outstanding (after an error, at capacity, or after `stop`), no session is ever
      opened again in that run. */
  lemma {:induction false} NoAcceptForever(s: Registry, es: seq<Event>)
    requires s.armed == 0 && !s.state.Ready? && Quiet(s)
    ensures var s' := After(s, es);
            s'.armed == 0 && !s'.state.Ready? && Quiet(s') && s'.ids == s.ids
  {
    if es != [] {
      NoAcceptForever(s, es[..|es| - 1]);
      QuietStep(After(s, es[..|es| - 1]), es[|es| - 1]);
    }
  }

  lemma QuietStep(s: Registry, e: Event)
    requires s.armed == 0 && !s.state.Ready? && Quiet(s)
    ensures var s' := Handle(s, e);
            s'.armed == 0 && !s'.state.Ready? && Quiet(s') && s'.ids == s.ids
  {
    match e
    case Accepted => assert Guard(s) == s && Accept(s) == s;
    case ClosedBy(r) =>
      if r < |s.ids| == |s.reports| {
        assert multiset{} + multiset{s.ids[r]} - multiset{s.ids[r]} == multiset{};
      }
    case _ =>
  }

  /** In every run: once an accept completes with an error, or at capacity, or after `stop`, no session
      is ever opened again. */
  lemma AcceptChainEnds(max: nat, es: seq<Event>, e: Event, fs: seq<Event>)
    requires var s := After(Init(max), es);
             && s.armed > 0
             && (e.AcceptFailed? || (e.Accepted? && (s.state.Stopped? || |s.sessions| >= max)))
    ensures var s := After(Init(max), es);
            After(Handle(s, e), fs).ids == s.ids
  {
    var s := Reached(max, es);
    hide After, Conserved, Covered;
    if e.Accepted? {
      AcceptOutcome(s);
    }
    NoAcceptForever(Handle(s, e), fs);
  }

  /** Until it is started, nothing happens to the server, whatever is called: in particular a `stop`
      before the start is ignored. The start then arms the first accept. */
  lemma {:induction false} NothingBeforeStart(max: nat, es: seq<Event>)
    requires forall e <- es :: !e.Start?
    ensures After(Init(max), es) == Init(max)
    ensures var s := After(Init(max), es + [Start]); s == Init(max).(state := Started, armed := 1)
  {
    OneMore(Init(max), es, Start);
    if es != [] {
      NothingBeforeStart(max, es[..|es| - 1]);
      assert es[|es| - 1] in es;
    }
    hide InitialIds;
  }

  /** `stop` is final: in every continuation the server stays stopped, no session is registered or
      opened, and the free list is what it was plus the ids given back since, in order. */
  lemma {:induction false} StopIsFinal(s: Registry, es: seq<Event>)
    requires SoundState(s) && s.state.Stopped?
    ensures var s' := After(s, es);
            && s'.state.Stopped? && s'.sessions == map[] && s'.ids == s.ids
            && s.calls <= s'.calls && s'.free == s.free + s'.calls[|s.calls|..]
  {
    hide Shape, Conserved, Covered;
    if es != [] {
      var s', e := After(s, es[..|es| - 1]), es[|es| - 1];
      StopIsFinal(s, es[..|es| - 1]);
      RunInv(s, es[..|es| - 1]);
      StoppedStep(s', e);
    }
  }

  lemma StoppedStep(s: Registry, e: Event)
    requires SoundState(s) && s.state.Stopped?
    ensures var s' := Handle(s, e);
            && s'.state.Stopped? && s'.sessions == map[] && s'.ids == s.ids
            && s.calls <= s'.calls && s'.free == s.free + s'.calls[|s.calls|..]
  {
    if e.ClosedBy? && e.r < |s.ids| {
      CloseParts(s, e.r);
      assert s.sessions - {s.ids[e.r]} == map[];
    }
  }

  /** In particular, right after `stop` the free list is empty, so whatever it holds later came from
      reports made after `stop`. */
  lemma FreeAfterStop(s: Registry, es: seq<Event>)
    requires SoundState(s) && s.state.Started?
    ensures var s' := After(Stop(s), es);
            s.calls <= s'.calls && s'.free == s'.calls[|s.calls|..]
  {
    StepInv(s, StopServer);
    StopIsFinal(Stop(s), es);
  }
}
