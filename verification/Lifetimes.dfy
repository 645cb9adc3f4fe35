/** From when to when a session of the live server is registered, in terms of the run
    (Src/TcpServer.cpp:46-56, 86-112), and what its connection records of it. */
module Lifetimes {
  import opened Frames
  import opened ChatSystem
  import R = ReadChain
  import Session
  import L = Link
  import G = Registry
  import H = Handlers

  /** What one event does to the record of session `r`. */
  ghost predicate Follows(s: System, s': System, r: nat) {
    && |s.conns| <= |s'.conns| <= |s.conns| + 1
    && (r < |s.conns| ==>
          && s'.conns[r].since == s.conns[r].since
          && s'.conns[r].upto == (if G.Registered(s.reg, r) then |s'.log| else s.conns[r].upto)
          && (G.Registered(s'.reg, r) ==> G.Registered(s.reg, r))
          && (G.Registered(s.reg, r) && !G.Registered(s'.reg, r) ==> s'.log == s.log))
    && (r == |s.conns| < |s'.conns| ==> s'.conns[r].since == s'.conns[r].upto == |s.log| == |s'.log|)
  }

  lemma UptoNow(s: System, r: nat)
    requires Inv(s) && r < |s.conns| && G.Registered(s.reg, r)
    ensures s.conns[r].upto == |s.log|
  {
    ConnAt(s, r);
    hide Session.Inv, L.Inv, Others, OwnInv, H.SoundState;
  }

  lemma SoundParts(s: System)
    requires Inv(s)
    ensures H.SoundState(s.reg) && |s.conns| == |s.reg.ids| == |s.reg.reports|
  {
    hide H.SoundState, ConnOk, LogOk;
  }

  /** An event that leaves the log and the records alone. */
  lemma SameRecords(s: System, s': System, r: nat)
    requires Inv(s) && s'.log == s.log && |s'.conns| == |s.conns|
    requires r < |s.conns| ==> s'.conns[r].since == s.conns[r].since && s'.conns[r].upto == s.conns[r].upto
    requires r < |s.conns| && G.Registered(s'.reg, r) ==> G.Registered(s.reg, r)
    ensures Follows(s, s', r)
  {
    hide Inv, G.Registered;
    if r < |s.conns| && G.Registered(s.reg, r) {
      UptoNow(s, r);
    }
  }

  lemma NearRegistered(s: System, r: nat, e: Session.SessionEvent, i: nat)
    requires Inv(s) && r < |s.conns|
    ensures G.Registered(NearStep(s, r, e).reg, i) ==> G.Registered(s.reg, i)
  {
    SoundParts(s);
    hide Inv, H.SoundState, G.Registered, G.Close, Session.Step, Session.ReportsClosed;
    if Session.ReportsClosed(s.conns[r].near, e) {
      CloseKeeps(s.reg, r);
    }
  }

  lemma NearRecords(s: System, r: nat, e: Session.SessionEvent)
    requires r < |s.conns|
    ensures var s' := NearStep(s, r, e);
            && s'.log == s.log && |s'.conns| == |s.conns|
            && forall i | 0 <= i < |s.conns| :: s'.conns[i].since == s.conns[i].since && s'.conns[i].upto == s.conns[i].upto
  {
    hide Session.Step, Session.ReportsClosed, G.Close;
  }

  lemma NearFollows(s: System, r: nat, e: Session.SessionEvent, i: nat)
    requires Inv(s) && r < |s.conns|
    ensures Follows(s, NearStep(s, r, e), i)
  {
    hide Inv, G.Registered, NearStep, Follows;
    NearRegistered(s, r, e, i);
    NearRecords(s, r, e);
    SameRecords(s, NearStep(s, r, e), i);
  }

  lemma OfferRecords(c: Conn, near: Session.SessionState, i: nat, registered: bool, sender: nat, m: Image, position: nat)
    ensures var c' := Offer(c.(near := near), i, registered, sender, m, position);
            c'.since == c.since && c'.upto == if registered then position else c.upto
  {
    hide Session.Step;
  }

  /** A completed body either extends the log by one, and the records of those registered with it, or
      changes no record. */
  lemma BodyRecords(s: System, r: nat, i: nat)
    requires r < |s.conns| && i < |s.conns| && R.Enabled(s.conns[r].near.read, R.BodyDone)
    ensures var s' := ReadStep(s, r, R.BodyDone);
            && |s'.conns| == |s.conns| && s'.conns[i].since == s.conns[i].since
            && (|s'.log| == |s.log| + 1 || s'.log == s.log)
            && (s'.log == s.log ==> s'.conns[i].upto == s.conns[i].upto)
            && (s'.log != s.log ==> s'.conns[i].upto == if G.Registered(s.reg, i) then |s'.log| else s.conns[i].upto)
  {
    BodyStepParts(s, r);
    var near := Session.Step(s.conns[r].near, Session.OnRead(R.BodyDone));
    var m := near.read.msg;
    var mine := if i == r then near else s.conns[i].near;
    OfferRecords(s.conns[i], mine, i, G.Registered(s.reg, i), r, m, |s.log| + 1);
    hide Session.Step, R.Enabled, ReadStep, Offer, G.Registered, Head;
    assert s.conns[i] == s.conns[i].(near := s.conns[i].near);
  }

  lemma BodyFollows(s: System, r: nat, i: nat)
    requires Inv(s) && r < |s.conns| && R.Enabled(s.conns[r].near.read, R.BodyDone)
    ensures Follows(s, ReadStep(s, r, R.BodyDone), i)
  {
    BodyStepParts(s, r);
    hide Inv, Session.Step, R.Enabled, ReadStep, Offer, G.Registered, Head, LogAfter;
    if i < |s.conns| {
      BodyRecords(s, r, i);
      if G.Registered(s.reg, i) {
        UptoNow(s, i);
      }
    }
  }

  lemma AcceptFollows(s: System, e: Event, r: nat)
    requires Inv(s) && e.Accepted?
    ensures Follows(s, AcceptStep(s, e), r)
  {
    SoundParts(s);
    AcceptExtends(s.reg);
    hide Inv, H.SoundState, G.Registered, G.Accept;
    if r < |s.conns| && G.Registered(s.reg, r) {
      UptoNow(s, r);
    }
  }

  lemma ServerFollows(s: System, e: Event, r: nat)
    requires Inv(s) && (e.Start? || e.StopServer? || e.AcceptFailed?)
    ensures Follows(s, Step(s, e), r)
  {
    hide Inv, Follows;
    SameRecords(s, Step(s, e), r);
  }

  lemma FarFollows(s: System, q: nat, fe: R.ReadEvent, r: nat)
    requires Inv(s) && q < |s.conns|
    ensures Follows(s, Step(s, Far(q, fe)), r)
  {
    hide Inv, Follows, L.FarStep, G.Registered;
    SameRecords(s, Step(s, Far(q, fe)), r);
  }

  lemma StepFollows(s: System, e: Event, r: nat)
    requires Inv(s)
    ensures Follows(s, Step(s, e), r)
  {
    hide Inv, NearStep, Dispatch, AcceptStep, R.Enabled, Follows, G.Registered;
    match e
    case Accepted(_, _, _, _, _) => AcceptFollows(s, e, r);
    case Read(q, re) =>
      if q < |s.conns| {
        if re.BodyDone? && R.Enabled(s.conns[q].near.read, re) {
          BodyFollows(s, q, r);
        } else {
          NearFollows(s, q, Session.OnRead(re), r);
        }
      } else {
        SameRecords(s, s, r);
      }
    case Write(q, we) =>
      if q < |s.conns| {
        NearFollows(s, q, Session.OnWrite(we), r);
      } else {
        SameRecords(s, s, r);
      }
    case Far(q, fe) =>
      if q < |s.conns| {
        FarFollows(s, q, fe, r);
      } else {
        SameRecords(s, s, r);
      }
    case _ => ServerFollows(s, e, r);
  }

  /** The state after the first `i` events of a run. */
  ghost function At(max: nat, es: seq<Event>, i: nat): System
    requires i <= |es|
  {
    After(Init(max), es[..i])
  }

  /** The event at position `begun` opens session `r`, and the session is registered from then on up to
      the state after the first `ended` events, and in no other state of the run; if `ended == begun`
      it never was, since its id was taken. */
  ghost predicate Lifetime(max: nat, es: seq<Event>, r: nat, begun: nat, ended: nat) {
    && begun < |es| && begun <= ended <= |es|
    && |At(max, es, begun).conns| == r < |At(max, es, begun + 1).conns|
    && forall i | 0 <= i <= |es| :: G.Registered(At(max, es, i).reg, r) <==> begun < i <= ended
  }

  lemma AtBefore(max: nat, es: seq<Event>, e: Event, i: nat)
    requires i <= |es|
    ensures At(max, es + [e], i) == At(max, es, i)
  {
    assert (es + [e])[..i] == es[..i];
  }

  lemma AtEnds(max: nat, es: seq<Event>)
    ensures At(max, es, |es|) == After(Init(max), es) && At(max, es, 0) == Init(max)
  {
    assert es[..|es|] == es;
  }

  /** Before a session is opened it is not registered. */
  lemma {:induction false} NotYet(max: nat, es: seq<Event>, r: nat, i: nat)
    requires |After(Init(max), es).conns| <= r && i <= |es|
    ensures !G.Registered(At(max, es, i).reg, r)
    decreases |es|
  {
    hide Inv, Step, Follows, G.Registered, After;
    var s := Reached(max, es);
    if i == |es| {
      AtEnds(max, es);
      NoSession(s, r);
    } else {
      var n := |es| - 1;
      assert es == es[..n] + [es[n]];
      OneMore(Init(max), es[..n], es[n]);
      var s0 := Reached(max, es[..n]);
      StepFollows(s0, es[n], r);
      assert |s0.conns| <= |s.conns| by { Grows(s0, s, r); }
      NotYet(max, es[..n], r, i);
      AtBefore(max, es[..n], es[n], i);
    }
  }

  lemma NoSession(s: System, r: nat)
    requires Inv(s) && |s.conns| <= r
    ensures !G.Registered(s.reg, r)
  {
    hide H.SoundState, ConnOk;
  }

  lemma Grows(s: System, s': System, r: nat)
    requires Follows(s, s', r)
    ensures |s.conns| <= |s'.conns| <= |s.conns| + 1
  {
  }

  /** One more event in the life of a session already opened. */
  lemma LifeGoesOn(max: nat, es: seq<Event>, e: Event, r: nat, begun: nat, ended: nat) returns (ended': nat)
    requires Lifetime(max, es, r, begun, ended)
    requires var s := After(Init(max), es);
             && Follows(s, Step(s, e), r) && r < |s.conns|
             && s.conns[r].upto == |At(max, es, ended).log|
    ensures Lifetime(max, es + [e], r, begun, ended')
    ensures Step(After(Init(max), es), e).conns[r].upto == |At(max, es + [e], ended').log|
  {
    hide Step, After, At, G.Registered;
    var fs, s := es + [e], After(Init(max), es);
    OneMore(Init(max), es, e);
    AtEnds(max, es);
    AtEnds(max, fs);
    forall i: nat | i <= |es|
      ensures At(max, fs, i) == At(max, es, i)
    {
      AtBefore(max, es, e, i);
    }
    ended' := if G.Registered(Step(s, e).reg, r) then |fs| else ended;
  }

  lemma LifeBegins(max: nat, es: seq<Event>, e: Event, r: nat) returns (ended: nat)
    requires var s := After(Init(max), es);
             Follows(s, Step(s, e), r) && |s.conns| == r < |Step(s, e).conns|
    ensures Lifetime(max, es + [e], r, |es|, ended)
    ensures var s' := Step(After(Init(max), es), e);
            && s'.conns[r].since == |At(max, es + [e], |es|).log|
            && s'.conns[r].upto == |At(max, es + [e], ended).log|
  {
    hide Step, After, At, G.Registered;
    var fs, s := es + [e], After(Init(max), es);
    OneMore(Init(max), es, e);
    AtEnds(max, es);
    AtEnds(max, fs);
    forall i: nat | i <= |es|
      ensures At(max, fs, i) == At(max, es, i) && !G.Registered(At(max, es, i).reg, r)
    {
      AtBefore(max, es, e, i);
      NotYet(max, es, r, i);
    }
    ended := if G.Registered(Step(s, e).reg, r) then |fs| else |es|;
  }

  /** In every run, every session opened has one lifetime, and its connection records the length of the
      log at its beginning and at its end. */
  lemma {:induction false} SessionLifetime(max: nat, es: seq<Event>, r: nat) returns (begun: nat, ended: nat)
    requires r < |After(Init(max), es).conns|
    ensures Lifetime(max, es, r, begun, ended)
    ensures var c := After(Init(max), es).conns[r];
            c.since == |At(max, es, begun).log| && c.upto == |At(max, es, ended).log|
  {
    hide Inv, Step, G.Registered;
    if es == [] {
      assert false;
    }
    hide After;
    var before, e := es[..|es| - 1], es[|es| - 1];
    assert es == before + [e];
    OneMore(Init(max), before, e);
    var s := Reached(max, before);
    StepFollows(s, e, r);
    if r < |s.conns| {
      begun, ended := SessionLifetime(max, before, r);
      AtBefore(max, before, e, begun);
      ended := LifeGoesOn(max, before, e, r, begun, ended);
    } else {
      begun := |before|;
      ended := LifeBegins(max, before, e, r);
    }
  }
}
