/** Runs in which the steps of the accept handler and of any number of close handlers interleave,
    before `stop` (Src/TcpServer.cpp:46-56, 86-112). Each step is atomic, deque operations included. */
module Interleaving {
  import opened Registry

  lemma OneMore(s: Registry, es: seq<Step>, e: Step)
    ensures AfterSteps(s, es + [e]) == Do(AfterSteps(s, es), e)
  {
    assert (es + [e])[..|es|] == es;
  }

  lemma {:induction false} RunInv(s: Registry, es: seq<Step>)
    requires Inv(s)
    ensures Inv(AfterSteps(s, es))
  {
    hide Inv, Do;
    if es != [] {
      RunInv(s, es[..|es| - 1]);
      StepInv(AfterSteps(s, es[..|es| - 1]), es[|es| - 1]);
    }
  }

  lemma OnceBefore(s: Registry, e: Step)
    requires Shape(s) && Once(Do(s, e))
    ensures Once(s)
  {
    var s' := Do(s, e);
    forall n | n in s.reports
      ensures n <= 1
    {
      var r :| 0 <= r < |s.reports| && s.reports[r] == n;
      assert s'.reports[r] in s'.reports;
    }
  }

  lemma {:induction false} RunExact(s: Registry, es: seq<Step>)
    requires Inv(s) && Exact(s) && Once(AfterSteps(s, es))
    ensures Inv(AfterSteps(s, es)) && Exact(AfterSteps(s, es))
  {
    hide Conserved, Covered, Shape, Exact, Do, Once;
    RunInv(s, es);
    if es != [] {
      var s', e := AfterSteps(s, es[..|es| - 1]), es[|es| - 1];
      RunInv(s, es[..|es| - 1]);
      OnceBefore(s', e);
      RunExact(s, es[..|es| - 1]);
      StepExact(s', e);
    }
  }

  lemma {:induction false} MaxIsConstant(s: Registry, es: seq<Step>)
    ensures AfterSteps(s, es).max == s.max
  {
    if es != [] {
      MaxIsConstant(s, es[..|es| - 1]);
    }
  }

  /** In every run, however often sessions report closed, the free list is a queue: the ids of the
      sessions opened, then one just taken, then the list itself, are 1..max followed by the ids given
      back, each in order. */
  lemma FreeListIsAQueue(max: nat, es: seq<Step>)
    ensures var s := AfterSteps(Init(max), es);
            s.ids + InHand(s) + s.free == InitialIds(max) + s.calls
  {
    InitInv(max);
    RunInv(Init(max), es);
    MaxIsConstant(Init(max), es);
    hide InitialIds, AfterSteps, Shape, Covered;
  }

  /** In every run in which each session reports closed at most once: each of the ids 1..max is in
      exactly one place (free, being closed, being opened, or live) and the registry holds exactly the
      sessions that have not reported closed. */
  lemma IdsStayPartitioned(max: nat, es: seq<Step>)
    requires Once(AfterSteps(Init(max), es))
    ensures var s := AfterSteps(Init(max), es);
            && Shape(s) && Agrees(s.sessions, s.ids, s.reports)
            && forall id ::
                 multiset(s.free)[id] + s.closing[id] + Taking(s)[id] + (if id in s.sessions then 1 else 0)
                 == if 1 <= id <= max then 1 else 0
  {
    InitInv(max);
    RunExact(Init(max), es);
    MaxIsConstant(Init(max), es);
    var s := AfterSteps(Init(max), es);
    hide AfterSteps, Conserved, Covered;
    forall id
      ensures multiset(s.free)[id] + s.closing[id] + Taking(s)[id] + (if id in s.sessions then 1 else 0)
              == if 1 <= id <= max then 1 else 0
    {
      InitialCount(max, id);
      assert (multiset(s.free) + (s.closing + Taking(s)) + multiset(s.sessions.Keys))[id]
             == multiset(InitialIds(max))[id];
    }
  }

  /** Exact after every part of the run. */
  ghost predicate AlwaysExact(max: nat, es: seq<Step>) {
    forall k | 0 <= k <= |es| :: Shape(AfterSteps(Init(max), es[..k])) && Exact(AfterSteps(Init(max), es[..k]))
  }

  /** Only a second report makes a session report twice. */
  lemma OnceStays(s: Registry, e: Step)
    requires Once(s) && !(e.DoErase? && e.r < |s.ids| == |s.reports| && s.reports[e.r] > 0)
    ensures Once(Do(s, e))
  {
    var s' := Do(s, e);
    forall n | n in s'.reports
      ensures n <= 1
    {
      var r :| 0 <= r < |s'.reports| && s'.reports[r] == n;
      if r < |s.reports| {
        assert s.reports[r] in s.reports;
      }
    }
  }

  lemma InvShape(s: Registry)
    requires Inv(s)
    ensures Shape(s)
  {
  }

  lemma NotOnce(s: Registry, r: nat)
    requires r < |s.ids| == |s.reports| && s.reports[r] > 0
    ensures !Once(Erase(s, r))
  {
    assert Erase(s, r).reports[r] in Erase(s, r).reports;
  }

  lemma StepOnce(s: Registry, e: Step)
    requires Inv(s) && Exact(s) && Once(s)
    ensures Shape(Do(s, e)) && (Exact(Do(s, e)) <==> Once(Do(s, e)))
  {
    InvShape(s);
    hide Inv, Exact, Once, Shape, Do;
    if e.DoErase? && e.r < |s.ids| == |s.reports| && s.reports[e.r] > 0 {
      SecondEraseBreaks(s, e.r);
      NotOnce(s, e.r);
      assert e == DoErase(e.r);
      DoErases(s, e.r);
    } else {
      OnceStays(s, e);
      StepExact(s, e);
      InvShape(Do(s, e));
    }
  }

  lemma DoErases(s: Registry, r: nat)
    ensures Do(s, DoErase(r)) == Erase(s, r)
  {
  }

  lemma AlwaysExactSnoc(max: nat, es: seq<Step>, e: Step)
    ensures var s' := Do(AfterSteps(Init(max), es), e);
            AlwaysExact(max, es + [e]) <==> AlwaysExact(max, es) && Shape(s') && Exact(s')
  {
    OneMore(Init(max), es, e);
    hide AfterSteps, Do, Exact, Shape;
    var fs := es + [e];
    assert fs[..|fs|] == fs;
    assert forall k | 0 <= k <= |es| :: fs[..k] == es[..k];
  }

  lemma AlwaysExactLast(max: nat, es: seq<Step>)
    requires AlwaysExact(max, es)
    ensures Shape(AfterSteps(Init(max), es)) && Exact(AfterSteps(Init(max), es))
  {
    assert es[..|es|] == es;
  }

  lemma ExactAtFirst(max: nat)
    ensures AlwaysExact(max, []) && Once(AfterSteps(Init(max), []))
  {
    InitInv(max);
    hide Balance, Cover, Partition, Agrees;
  }

  /** In every run: the ids stay partitioned, and the registry agrees with history, throughout if and
      only if no session reports closed twice. */
  lemma {:induction false} PartitionedIffReportsOnce(max: nat, es: seq<Step>)
    ensures AlwaysExact(max, es) <==> Once(AfterSteps(Init(max), es))
  {
    hide *;
    if es == [] {
      ExactAtFirst(max);
    } else {
      var before, e := es[..|es| - 1], es[|es| - 1];
      var s := AfterSteps(Init(max), before);
      assert es == before + [e];
      OneMore(Init(max), before, e);
      InitInv(max);
      RunInv(Init(max), before);
      PartitionedIffReportsOnce(max, before);
      AlwaysExactSnoc(max, before, e);
      if Once(s) {
        AlwaysExactLast(max, before);
        StepOnce(s, e);
      } else if Once(Do(s, e)) {
        InvShape(s);
        OnceBefore(s, e);
      }
    }
  }

  lemma {:induction false} InitialSize(n: nat)
    ensures |InitialIds(n)| == n
  {
    if n > 0 {
      InitialSize(n - 1);
    }
  }

  lemma PartitionSize(s: Registry)
    requires Shape(s) && Partition(s.free, s.closing + Taking(s), s.sessions.Keys, s.max)
    ensures |s.free| + |s.closing| + |Taking(s)| + |s.sessions| == s.max
  {
    InitialSize(s.max);
    hide InitialIds;
    var all := multiset(s.free) + (s.closing + Taking(s)) + multiset(s.sessions.Keys);
    assert |all| == |s.free| + |s.closing| + |Taking(s)| + |multiset(s.sessions.Keys)|;
    assert |multiset(s.sessions.Keys)| == |s.sessions.Keys| == |s.sessions|;
    assert |multiset(InitialIds(s.max))| == |InitialIds(s.max)|;
  }

  lemma {:induction false} RunAccounted(max: nat, es: seq<Step>)
    ensures Accounted(AfterSteps(Init(max), es))
  {
    hide Accounted, Do;
    if es == [] {
      InitAccounted(max);
    } else {
      RunAccounted(max, es[..|es| - 1]);
      StepAccounted(AfterSteps(Init(max), es[..|es| - 1]), es[|es| - 1]);
    }
  }

  /** In every run, however often sessions report closed: when an accept has passed its guard, the free
      list it is about to pop is empty exactly when the sessions opened outnumber the ids given back by
      the capacity; that is, when the ids being closed are as many as the reports made and the capacity
      together exceed the sessions opened. */
  lemma WhenPopMeetsEmptyList(max: nat, es: seq<Step>)
    requires AfterSteps(Init(max), es).stage.Guarded?
    ensures var s := AfterSteps(Init(max), es);
            && (s.free == [] <==> |s.ids| == max + |s.calls|)
            && |s.ids| == |s.reports|
            && (s.free == [] <==> |s.closing| == max + |Reported(s.ids, s.reports)| - |s.ids|)
  {
    FreeListIsAQueue(max, es);
    InitialSize(max);
    RunAccounted(max, es);
    hide AfterSteps, InitialIds, Reported;
    var s := AfterSteps(Init(max), es);
    assert |s.ids + InHand(s) + s.free| == |InitialIds(max) + s.calls|;
    assert |multiset(s.calls) + s.closing| == |s.calls| + |s.closing|;
  }

  /** If each session has reported closed at most once, that is when the ids being closed account for
      all the capacity that the live sessions leave. */
  lemma WhenClosingTakesAll(max: nat, es: seq<Step>)
    requires Once(AfterSteps(Init(max), es)) && AfterSteps(Init(max), es).stage.Guarded?
    ensures var s := AfterSteps(Init(max), es);
            s.free == [] <==> |s.closing| == max - |s.sessions|
  {
    InitInv(max);
    RunExact(Init(max), es);
    MaxIsConstant(Init(max), es);
    hide AfterSteps, Conserved, Covered, Agrees, Partition;
    PartitionSize(AfterSteps(Init(max), es));
  }

  lemma FourSteps(s: Registry, a: Step, b: Step, c: Step, d: Step)
    ensures AfterSteps(s, [a, b, c, d]) == Do(Do(Do(Do(s, a), b), c), d)
  {
    hide Do;
    OneMore(s, [a, b, c], d);
    OneMore(s, [a, b], c);
    OneMore(s, [a], b);
    OneMore(s, [], a);
    assert [a, b, c] + [d] == [a, b, c, d] && [a, b] + [c] == [a, b, c];
    assert [a] + [b] == [a, b] && [] + [a] == [a];
  }

  lemma FirstSession() returns (es: seq<Step>)
    ensures es == [DoListen, DoGuard, DoPop, DoEmplace]
    ensures AfterSteps(Init(1), es) == Registry(Started, 1, map[1 := 0], [], 1, Idle, multiset{}, [1], [0], [])
  {
    var s := Init(1);
    es := [DoListen, DoGuard, DoPop, DoEmplace];
    FourSteps(s, DoListen, DoGuard, DoPop, DoEmplace);
    assert InitialIds(1) == [1] by { assert InitialIds(0) == []; }
    hide InitialIds, AfterSteps;
    var s2 := Guard(Listen(s));
    assert s2 == Registry(Started, 1, map[], [1], 0, Guarded, multiset{}, [], [], []);
    assert Pop(s2) == Registry(Started, 1, map[], [], 0, Popped(1), multiset{}, [], [], []);
  }

  /** It does happen: with capacity 1, a close that has erased its id and not yet given it back lets
      an accept through the guard with nothing to pop. */
  lemma PopCanMeetEmptyList()
    ensures exists es :: var s := AfterSteps(Init(1), es); Once(s) && s.stage.Guarded? && s.free == []
  {
    var es := FirstSession();
    var s := AfterSteps(Init(1), es);
    OneMore(Init(1), es, DoErase(0));
    OneMore(Init(1), es + [DoErase(0)], DoGuard);
    hide AfterSteps;
    assert Erase(s, 0) == Registry(Started, 1, map[], [], 1, Idle, multiset{1}, [1], [1], []);
  }

  /** The proviso on reports is needed: with capacity 1 and two reports of one session under way, the
      list is empty although the ids being closed are more than the capacity. */
  lemma ClosingCanExceedCapacity()
    ensures exists es :: var s := AfterSteps(Init(1), es);
              s.stage.Guarded? && s.free == [] && |s.closing| == 2 && |s.sessions| == 0
  {
    var es := FirstSession();
    var s := AfterSteps(Init(1), es);
    OneMore(Init(1), es, DoErase(0));
    OneMore(Init(1), es + [DoErase(0)], DoErase(0));
    OneMore(Init(1), es + [DoErase(0)] + [DoErase(0)], DoGuard);
    hide AfterSteps, Guard, Erase;
    TwoErases(s);
  }

  lemma TwoErases(s: Registry)
    requires s == Registry(Started, 1, map[1 := 0], [], 1, Idle, multiset{}, [1], [0], [])
    ensures Guard(Erase(Erase(s, 0), 0)) == Registry(Started, 1, map[], [], 0, Guarded, multiset{1, 1}, [1], [2], [])
  {
    assert Erase(s, 0) == Registry(Started, 1, map[], [], 1, Idle, multiset{1}, [1], [1], []);
    assert multiset{1} + multiset{1} == multiset{1, 1};
  }

  /** Whatever the sessions report, an id missing from the free list is live, being opened or being
      closed; so before a pop the list can be empty only while closes are under way. */
  lemma EmptyOnlyWhileClosing(max: nat, es: seq<Step>)
    requires AfterSteps(Init(max), es).stage.Guarded? && AfterSteps(Init(max), es).free == []
    ensures AfterSteps(Init(max), es).closing != multiset{}
  {
    InitInv(max);
    RunInv(Init(max), es);
    hide AfterSteps, Conserved, Covered;
    if AfterSteps(Init(max), es).closing == multiset{} {
      FreeUnlessFull(AfterSteps(Init(max), es));
    }
  }

  lemma {:induction false} IdsBelow(n: nat, keys: set<int>)
    requires forall id | 1 <= id <= n :: id in keys
    ensures n <= |keys|
  {
    if n > 0 {
      IdsBelow(n - 1, keys - {n});
    }
  }

  /** With no close and no accept under way, a registry below capacity has a free id. */
  lemma FreeUnlessFull(s: Registry)
    requires Covered(s) && s.closing == multiset{} && Taking(s) == multiset{} && |s.sessions| < s.max
    ensures s.free != []
  {
    assert |s.sessions.Keys| == |s.sessions|;
    assert s.closing + Taking(s) == multiset{};
    if s.free == [] {
      IdsBelow(s.max, s.sessions.Keys);
    }
  }
}
