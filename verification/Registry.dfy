/** Src/TcpServer.cpp and Src/TcpServer.h: the session registry, the allocator of session ids and the
    accept chain.

    The handlers are cut where the mutex cuts them: `handleClose` erases under the lock and gives the
    id back outside it; the accept handler checks the capacity, takes an id and registers the session
    in three steps. The atomic handlers are compositions of these steps. */
module Registry {
  datatype ServerState = Ready | Started | Stopped

  /** How far the accept handler has come: it has passed its guard, or it has taken an id. */
  datatype Stage = Idle | Guarded | Popped(id: int)

  /** Sessions are told apart by the order in which they were opened: `ids[r]` is the id of the r-th
      session, and `sessions` maps an id to the session registered under it. `armed` counts the
      outstanding accepts. `closing` holds the ids erased and not yet given back. `reports[r]`
      counts the close reports of the r-th session, and `calls` lists the ids given back, in order. */
  datatype Registry = Registry(
    state: ServerState, max: nat, sessions: map<int, nat>, free: seq<int>,
    armed: nat, stage: Stage, closing: multiset<int>,
    ids: seq<int>, reports: seq<nat>, calls: seq<int>)

  /** The ids 1..n, in the order in which the constructor pushes them. */
  function InitialIds(n: nat): seq<int> {
    if n == 0 then [] else InitialIds(n - 1) + [n]
  }

  lemma {:induction false} InitialCount(n: nat, id: int)
    ensures multiset(InitialIds(n))[id] == if 1 <= id <= n then 1 else 0
    ensures id in InitialIds(n) <==> 1 <= id <= n
  {
    if n > 0 {
      InitialCount(n - 1, id);
    }
  }

  function Init(max: nat): Registry {
    Registry(Ready, max, map[], InitialIds(max), 0, Idle, multiset{}, [], [], [])
  }

  // The steps.

  /** `listen`. Only the first start is modelled: a later one would not refill the free list. */
  function Listen(s: Registry): Registry {
    if s.state.Ready? then s.(state := Started, armed := s.armed + 1) else s
  }

  /** An accept completes with an error: it is not re-armed. */
  function AcceptError(s: Registry): Registry {
    if s.armed > 0 && s.stage.Idle? then s.(armed := s.armed - 1) else s
  }

  /** An accept completes without error, up to the guard: when stopped or full it is not re-armed. */
  function Guard(s: Registry): Registry {
    if s.armed == 0 || !s.stage.Idle? then s
    else if s.state.Stopped? || |s.sessions| >= s.max then s.(armed := s.armed - 1)
    else s.(armed := s.armed - 1, stage := Guarded)
  }

  /** `front` and `pop_front`. On an empty list they are undefined, and nothing is modelled. */
  function Pop(s: Registry): Registry {
    if s.stage.Guarded? && s.free != [] then s.(stage := Popped(s.free[0]), free := s.free[1..]) else s
  }

  /** The session is made; `emplace` registers it unless its id is taken; the accept is re-armed. */
  function Emplace(s: Registry): Registry {
    match s.stage
    case Popped(id) =>
      s.(sessions := if id in s.sessions then s.sessions else s.sessions[id := |s.ids|],
         ids := s.ids + [id], reports := s.reports + [0], stage := Idle, armed := s.armed + 1)
    case _ => s
  }

  /** `handleClose` of the r-th session, up to the end of the critical section: whatever is
      registered under its id is erased. */
  function Erase(s: Registry, r: nat): Registry {
    if r < |s.ids| == |s.reports|
    then s.(sessions := s.sessions - {s.ids[r]}, closing := s.closing + multiset{s.ids[r]},
            reports := s.reports[r := s.reports[r] + 1])
    else s
  }

  /** The rest of `handleClose`. */
  function Push(s: Registry, id: int): Registry {
    if id in s.closing
    then s.(closing := s.closing - multiset{id}, free := s.free + [id], calls := s.calls + [id])
    else s
  }

  /** `stop`. */
  function Stop(s: Registry): Registry {
    if s.state.Started? then s.(state := Stopped, sessions := map[], free := []) else s
  }

  // The atomic handlers.

  function Accept(s: Registry): Registry {
    Emplace(Pop(Guard(s)))
  }

  function Close(s: Registry, r: nat): Registry {
    if r < |s.ids| then Push(Erase(s, r), s.ids[r]) else s
  }

  /** `getSession`. */
  function GetSession(s: Registry, id: int): (r: int) {
    if id in s.sessions then s.sessions[id] else -1
  }

  predicate Registered(s: Registry, r: nat) {
    r < |s.ids| && s.ids[r] in s.sessions && s.sessions[s.ids[r]] == r
  }

  // Invariants of the steps before `stop`, whatever the close reports.

  function Taking(s: Registry): multiset<int> {
    if s.stage.Popped? then multiset{s.stage.id} else multiset{}
  }

  /** All ids lie between 1 and the capacity; registered sessions exist; there is at
      most one accept, outstanding or being handled; and the capacity is respected. */
  ghost predicate Shape(s: Registry) {
    && |s.reports| == |s.ids|
    && (forall id | id in s.ids || id in s.free || id in s.closing || id in Taking(s) :: 1 <= id <= s.max)
    && (forall id <- s.sessions :: s.sessions[id] < |s.ids| && s.ids[s.sessions[id]] == id)
    && s.armed + (if s.stage.Idle? then 0 else 1) <= 1
    && |s.sessions| + (if s.stage.Idle? then 0 else 1) <= s.max
    && (s.state.Ready? ==> s.armed == 0 && s.stage.Idle? && s.ids == [])
  }

  /** The id being taken, if any. */
  function InHand(s: Registry): seq<int> {
    if s.stage.Popped? then [s.stage.id] else []
  }

  /** Conservation: the free list is a queue. The ids taken from it, in order, followed by those in it
      are the ids put there at first followed by those given back, in order. */
  ghost predicate Balance(free: seq<int>, inHand: seq<int>, ids: seq<int>, max: nat, calls: seq<int>) {
    ids + inHand + free == InitialIds(max) + calls
  }

  ghost predicate Conserved(s: Registry) {
    Balance(s.free, InHand(s), s.ids, s.max, s.calls)
  }

  /** Every id is free, on its way, or registered. */
  ghost predicate Cover(free: seq<int>, moving: multiset<int>, live: set<int>, max: nat) {
    forall id | 1 <= id <= max :: id in free || id in moving || id in live
  }

  ghost predicate Covered(s: Registry) {
    Cover(s.free, s.closing + Taking(s), s.sessions.Keys, s.max)
  }

  ghost predicate Inv(s: Registry) {
    Shape(s) && Conserved(s) && Covered(s)
  }

  /** Every session has reported closed at most once. */
  predicate Once(s: Registry) {
    forall n <- s.reports :: n <= 1
  }

  /** The ids are partitioned into free, moving (being closed or opened) and live. */
  ghost predicate Partition(free: seq<int>, moving: multiset<int>, live: set<int>, max: nat) {
    multiset(free) + moving + multiset(live) == multiset(InitialIds(max))
  }

  /** The registry agrees with history: it holds exactly the sessions that have not reported closed. */
  ghost predicate Agrees(sessions: map<int, nat>, ids: seq<int>, reports: seq<nat>)
    requires |ids| == |reports|
    requires forall id <- sessions :: sessions[id] < |ids|
  {
    && (forall r | 0 <= r < |ids| :: reports[r] == 0 ==> ids[r] in sessions && sessions[ids[r]] == r)
    && (forall id <- sessions :: reports[sessions[id]] == 0)
  }

  ghost predicate Exact(s: Registry)
    requires Shape(s)
  {
    && Partition(s.free, s.closing + Taking(s), s.sessions.Keys, s.max)
    && Agrees(s.sessions, s.ids, s.reports)
  }

  datatype Step = DoListen | DoAcceptError | DoGuard | DoPop | DoEmplace | DoErase(r: nat) | DoPush(id: int)

  function Do(s: Registry, e: Step): Registry {
    match e
    case DoListen => Listen(s)
    case DoAcceptError => AcceptError(s)
    case DoGuard => Guard(s)
    case DoPop => Pop(s)
    case DoEmplace => Emplace(s)
    case DoErase(r) => Erase(s, r)
    case DoPush(id) => Push(s, id)
  }

  function AfterSteps(s: Registry, es: seq<Step>): Registry
    decreases |es|
  {
    if es == [] then s else Do(AfterSteps(s, es[..|es| - 1]), es[|es| - 1])
  }

  lemma SubsetSize(a: set<int>, b: set<int>)
    requires a <= b
    ensures |a| <= |b|
  {
    assert b == a + (b - a);
    assert |b| == |a| + |b - a|;
  }

  /** What the steps of the accept chain up to the guard leave alone. */
  lemma AcceptStep(s: Registry, s': Registry)
    requires Inv(s) && s' in [Listen(s), AcceptError(s), Guard(s)]
    ensures Inv(s') && (Exact(s) ==> Exact(s'))
  {
    hide Balance, Cover, Partition, Agrees;
    assert Shape(s') && Taking(s') == Taking(s) && InHand(s') == InHand(s);
  }

  lemma PopInv(s: Registry)
    requires Inv(s)
    ensures Inv(Pop(s)) && (Exact(s) ==> Exact(Pop(s)))
  {
    hide InitialIds, Agrees;
    if s.stage.Guarded? && s.free != [] {
      assert s.free == [s.free[0]] + s.free[1..];
    }
  }

  lemma EmplaceInv(s: Registry)
    requires Inv(s)
    ensures Inv(Emplace(s))
  {
    hide InitialIds;
    if s.stage.Popped? {
      assert s.stage.id in Taking(s);
    }
  }

  lemma EraseShape(s: Registry, r: nat)
    requires Shape(s)
    ensures Shape(Erase(s, r))
  {
    SubsetSize(Erase(s, r).sessions.Keys, s.sessions.Keys);
  }

  lemma EraseCover(s: Registry, r: nat)
    requires Covered(s)
    ensures Covered(Erase(s, r))
  {
    if r < |s.ids| == |s.reports| {
      assert s.ids[r] in Erase(s, r).closing;
    }
  }

  lemma EraseInv(s: Registry, r: nat)
    requires Inv(s)
    ensures Inv(Erase(s, r))
  {
    hide Balance, Shape, Covered;
    EraseShape(s, r);
    EraseCover(s, r);
  }

  lemma PushBalance(s: Registry, id: int)
    requires Conserved(s)
    ensures Conserved(Push(s, id))
  {
    hide InitialIds;
    if id in s.closing {
      assert s.ids + InHand(s) + (s.free + [id]) == (s.ids + InHand(s) + s.free) + [id];
    }
  }

  lemma PushShape(s: Registry, id: int)
    requires Shape(s)
    ensures Shape(Push(s, id))
  {
    if id in s.closing {
      assert s.closing == Push(s, id).closing + multiset{id};
    }
  }

  lemma PushCover(s: Registry, id: int)
    requires Covered(s)
    ensures Covered(Push(s, id))
  {
    var s' := Push(s, id);
    if id in s.closing {
      assert s.closing == s'.closing + multiset{id};
      assert s'.free[|s.free|] == id && forall i <- s.free :: i in s'.free;
    }
  }

  lemma PushPartition(s: Registry, id: int)
    requires Partition(s.free, s.closing + Taking(s), s.sessions.Keys, s.max)
    ensures var s' := Push(s, id); Partition(s'.free, s'.closing + Taking(s'), s'.sessions.Keys, s'.max)
  {
    hide InitialIds;
    var s' := Push(s, id);
    if id in s.closing {
      assert multiset(s'.free) == multiset(s.free) + multiset{id};
      assert s.closing + Taking(s) == multiset{id} + (s'.closing + Taking(s'));
    }
  }

  lemma PushInv(s: Registry, id: int)
    requires Inv(s)
    ensures Inv(Push(s, id)) && (Exact(s) ==> Exact(Push(s, id)))
  {
    hide Shape, Covered, Conserved, Agrees, Partition;
    PushShape(s, id);
    PushBalance(s, id);
    PushCover(s, id);
    if Exact(s) {
      PushPartition(s, id);
    }
  }

  lemma StepInv(s: Registry, e: Step)
    requires Inv(s)
    ensures Inv(Do(s, e))
  {
    hide Inv, Exact;
    match e
    case DoListen => AcceptStep(s, Listen(s));
    case DoAcceptError => AcceptStep(s, AcceptError(s));
    case DoGuard => AcceptStep(s, Guard(s));
    case DoPop => PopInv(s);
    case DoEmplace => EmplaceInv(s);
    case DoErase(r) => EraseInv(s, r);
    case DoPush(id) => PushInv(s, id);
  }

  lemma InitInv(max: nat)
    ensures Inv(Init(max)) && Exact(Init(max))
  {
    forall id
      ensures id in InitialIds(max) <==> 1 <= id <= max
    {
      InitialCount(max, id);
    }
  }

  /** In an exact registry `emplace` always inserts. */
  lemma EmplaceExact(s: Registry)
    requires Inv(s) && Exact(s)
    ensures Inv(Emplace(s)) && Exact(Emplace(s))
    ensures s.stage.Popped? ==> s.stage.id !in s.sessions && Registered(Emplace(s), |s.ids|)
  {
    EmplaceInv(s);
    if s.stage.Popped? {
      var id, s' := s.stage.id, Emplace(s);
      InitialCount(s.max, id);
      hide InitialIds, Balance, Cover;
      assert (multiset(s.free) + (s.closing + Taking(s)) + multiset(s.sessions.Keys))[id] <= 1;
      assert multiset(s.sessions.Keys)[id] == 0;
      EmplaceParts(s);
    }
  }

  lemma EmplaceParts(s: Registry)
    requires Inv(s) && Exact(s) && s.stage.Popped? && s.stage.id !in s.sessions
    ensures Exact(Emplace(s)) && Registered(Emplace(s), |s.ids|)
  {
    EmplaceInv(s);
    hide Balance, Cover, Partition;
    assert Partition(Emplace(s).free, Emplace(s).closing + Taking(Emplace(s)), Emplace(s).sessions.Keys, s.max) by {
      EmplacePartition(s);
    }
  }

  lemma EmplacePartition(s: Registry)
    requires s.stage.Popped? && s.stage.id !in s.sessions
    requires Partition(s.free, s.closing + Taking(s), s.sessions.Keys, s.max)
    ensures var s' := Emplace(s); Partition(s'.free, s'.closing + Taking(s'), s'.sessions.Keys, s.max)
  {
    hide InitialIds;
    var id, s' := s.stage.id, Emplace(s);
    assert multiset(s'.sessions.Keys) == multiset(s.sessions.Keys) + multiset{id};
    assert s'.closing + Taking(s') + multiset{id} == s.closing + Taking(s);
  }

  lemma ErasePartition(s: Registry, r: nat)
    requires r < |s.ids| == |s.reports| && s.ids[r] in s.sessions
    requires Partition(s.free, s.closing + Taking(s), s.sessions.Keys, s.max)
    ensures var s' := Erase(s, r); Partition(s'.free, s'.closing + Taking(s'), s'.sessions.Keys, s.max)
  {
    hide InitialIds;
    var s', id := Erase(s, r), s.ids[r];
    assert s'.sessions.Keys == s.sessions.Keys - {id};
    assert multiset(s.sessions.Keys) == multiset(s'.sessions.Keys) + multiset{id};
    assert s'.closing + Taking(s') == s.closing + Taking(s) + multiset{id};
  }

  lemma EraseExact(s: Registry, r: nat)
    requires Inv(s) && Exact(s) && r < |s.ids| && s.reports[r] == 0
    ensures Inv(Erase(s, r)) && Exact(Erase(s, r))
  {
    EraseInv(s, r);
    hide Conserved, Covered, Partition;
    ErasePartition(s, r);
  }

  lemma StepExact(s: Registry, e: Step)
    requires Inv(s) && Exact(s) && Once(Do(s, e))
    ensures Inv(Do(s, e)) && Exact(Do(s, e))
  {
    hide Inv, Exact;
    match e
    case DoListen => AcceptStep(s, Listen(s));
    case DoAcceptError => AcceptStep(s, AcceptError(s));
    case DoGuard => AcceptStep(s, Guard(s));
    case DoPop => PopInv(s);
    case DoEmplace => EmplaceExact(s);
    case DoErase(r) =>
      if r < |s.ids| == |s.reports| {
        assert Do(s, e).reports[r] == s.reports[r] + 1;
        assert Do(s, e).reports[r] in Do(s, e).reports;
        EraseExact(s, r);
      }
    case DoPush(id) => PushInv(s, id);
  }

  // Whose reports the ids given back come from, and what the reports say of registered sessions.

  /** The ids of the sessions opened, each as often as its session has reported closed. */
  ghost function Reported(ids: seq<int>, reports: seq<nat>): multiset<int>
    requires |ids| == |reports|
  {
    if ids == [] then multiset{}
    else
      var n := |ids| - 1;
      Reported(ids[..n], reports[..n]) + multiset{}[ids[n] := reports[n]]
  }

  /** Every id given back, or about to be, comes from one report; and a registered session is one that
      has not reported. */
  ghost predicate Accounted(s: Registry) {
    && |s.ids| == |s.reports|
    && multiset(s.calls) + s.closing == Reported(s.ids, s.reports)
    && (forall id <- s.sessions :: s.sessions[id] < |s.ids| && s.reports[s.sessions[id]] == 0
                                   && s.ids[s.sessions[id]] == id)
  }

  lemma InitAccounted(max: nat)
    ensures Accounted(Init(max))
  {
    assert Reported([], []) == multiset{};
  }

  lemma OneMoreCopy(id: int, k: nat)
    ensures multiset{}[id := k + 1] == multiset{}[id := k] + multiset{id}
  {
  }

  lemma {:induction false} OneMoreReport(ids: seq<int>, reports: seq<nat>, r: nat)
    requires r < |ids| == |reports|
    ensures Reported(ids, reports[r := reports[r] + 1]) == Reported(ids, reports) + multiset{ids[r]}
    decreases |ids|
  {
    var n, reports' := |ids| - 1, reports[r := reports[r] + 1];
    var earlier, last := Reported(ids[..n], reports[..n]), multiset{}[ids[n] := reports[n]];
    assert Reported(ids, reports) == earlier + last;
    if r < n {
      OneMoreReport(ids[..n], reports[..n], r);
      assert reports'[..n] == reports[..n][r := reports[r] + 1];
      assert Reported(ids, reports') == Reported(ids[..n], reports'[..n]) + last;
    } else {
      assert reports'[..n] == reports[..n];
      assert Reported(ids, reports') == earlier + multiset{}[ids[n] := reports[n] + 1];
      hide Reported;
      OneMoreCopy(ids[n], reports[n]);
    }
  }

  lemma ReportedSnoc(ids: seq<int>, reports: seq<nat>, id: int)
    requires |ids| == |reports|
    ensures Reported(ids + [id], reports + [0]) == Reported(ids, reports)
  {
    assert (ids + [id])[..|ids|] == ids && (reports + [0])[..|ids|] == reports;
  }

  lemma EmplaceAccounted(s: Registry)
    requires Accounted(s)
    ensures Accounted(Emplace(s))
  {
    if s.stage.Popped? {
      ReportedSnoc(s.ids, s.reports, s.stage.id);
      hide Reported;
    }
  }

  lemma EraseAccounted(s: Registry, r: nat)
    requires Accounted(s)
    ensures Accounted(Erase(s, r))
  {
    hide Reported;
    var s' := Erase(s, r);
    if r < |s.ids| {
      assert multiset(s'.calls) + s'.closing == Reported(s'.ids, s'.reports) by {
        OneMoreReport(s.ids, s.reports, r);
      }
      forall id <- s'.sessions
        ensures s'.reports[s'.sessions[id]] == 0
      {
        assert s.sessions[id] != r;
      }
    }
  }

  lemma PushAccounted(s: Registry, id: int)
    requires Accounted(s)
    ensures Accounted(Push(s, id))
  {
    hide Reported;
    var s' := Push(s, id);
    if id in s.closing {
      assert multiset(s'.calls) == multiset(s.calls) + multiset{id};
      assert s.closing == s'.closing + multiset{id};
    }
  }

  lemma StepAccounted(s: Registry, e: Step)
    requires Accounted(s)
    ensures Accounted(Do(s, e))
  {
    match e
    case DoEmplace => EmplaceAccounted(s);
    case DoErase(r) => EraseAccounted(s, r);
    case DoPush(id) => PushAccounted(s, id);
    case _ => hide Reported;
  }

  lemma ReportedLast(ids: seq<int>, reports: seq<nat>, id: int)
    requires |ids| == |reports| > 0
    ensures var n := |ids| - 1;
            && Reported(ids, reports)[id] == Reported(ids[..n], reports[..n])[id] + (if ids[n] == id then reports[n] else 0)
            && multiset(ids)[id] == multiset(ids[..n])[id] + if ids[n] == id then 1 else 0
  {
    var n := |ids| - 1;
    assert ids == ids[..n] + [ids[n]];
  }

  /** Some sessions with the same id that have not reported, where none has reported twice. */
  lemma {:induction false} Unreported(ids: seq<int>, reports: seq<nat>, id: int, rs: set<nat>)
    requires |ids| == |reports|
    requires forall r | 0 <= r < |ids| && ids[r] == id :: reports[r] <= 1
    requires forall r <- rs :: r < |ids| && ids[r] == id && reports[r] == 0
    ensures |rs| + Reported(ids, reports)[id] <= multiset(ids)[id]
    decreases |ids|
  {
    if ids == [] {
      assert rs == {};
    } else {
      var n := |ids| - 1;
      Unreported(ids[..n], reports[..n], id, rs - {n});
      ReportedLast(ids, reports, id);
      hide Reported;
      if n in rs {
        assert rs == (rs - {n}) + {n};
      } else {
        assert rs == rs - {n};
      }
    }
  }

  /** A second report spoils an exact registry: it erases another session, or its id is then held
      twice. */
  lemma SecondEraseBreaks(s: Registry, r: nat)
    requires Inv(s) && Exact(s) && r < |s.ids| && s.reports[r] > 0
    ensures Shape(Erase(s, r)) && !Exact(Erase(s, r))
  {
    EraseShape(s, r);
    if s.ids[r] in s.sessions {
      hide Partition, Balance, Cover;
      ErasesAnother(s, r);
    } else {
      hide Agrees, Balance, Cover;
      HeldTwice(s, r);
    }
  }

  lemma ErasesAnother(s: Registry, r: nat)
    requires Shape(s) && Agrees(s.sessions, s.ids, s.reports)
    requires r < |s.ids| && s.reports[r] > 0 && s.ids[r] in s.sessions && Shape(Erase(s, r))
    ensures var s' := Erase(s, r); !Agrees(s'.sessions, s'.ids, s'.reports)
  {
    var id, s' := s.ids[r], Erase(s, r);
    var other := s.sessions[id];
    assert other != r && s'.reports[other] == 0 && s'.ids[other] == id && id !in s'.sessions;
  }

  lemma HeldTwice(s: Registry, r: nat)
    requires Shape(s) && Partition(s.free, s.closing + Taking(s), s.sessions.Keys, s.max)
    requires r < |s.ids| && s.ids[r] !in s.sessions
    ensures var s' := Erase(s, r); !Partition(s'.free, s'.closing + Taking(s'), s'.sessions.Keys, s'.max)
  {
    var id, s' := s.ids[r], Erase(s, r);
    InitialCount(s.max, id);
    hide InitialIds;
    assert id in s.ids;
    assert s'.sessions == s.sessions;
    var moving, live := s.closing + Taking(s), multiset(s.sessions.Keys);
    assert s'.closing + Taking(s') == moving + multiset{id};
    assert (multiset(s.free) + moving + live)[id] == 1;
    assert (multiset(s.free) + (moving + multiset{id}) + live)[id] == 2;
  }
}
