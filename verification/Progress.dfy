/** What the live server can still do: from every state a run reaches, the peer of a session on which
    nothing has failed can still receive every broadcast made for it. */
module Progress {
  import opened Frames
  import opened ChatSystem
  import opened Lifetimes
  import S = SendChain
  import Session
  import L = Link
  import G = Registry
  import T = TotalOrder

  /** One direction of the connection of a session, on its own. */
  function LinkOf(c: Conn): L.LinkState {
    L.LinkState(c.near.send, c.far)
  }

  /** A completion on that direction is an event of the whole server. */
  function Lifted(r: nat, e: L.LinkEvent): Event
    requires L.Completes(e)
  {
    match e
    case OnWrite(w) => Write(r, w)
    case OnFar(f) => Far(r, f)
  }

  function LiftedRun(r: nat, es: seq<L.LinkEvent>): (fs: seq<Event>)
    requires forall e <- es :: L.Completes(e)
    ensures |fs| == |es| && forall i | 0 <= i < |es| :: fs[i] == Lifted(r, es[i])
  {
    seq(|es|, i requires 0 <= i < |es| => Lifted(r, es[i]))
  }

  /** A write of session `r`, or a read of its peer, completes without error, or bytes reach its peer. */
  predicate Harmless(r: nat, f: Event) {
    f == Write(r, S.WriteDone) || (f.Far? && f.r == r && !f.fe.HeaderFail? && !f.fe.BodyFail?)
  }

  lemma LiftedHarmless(r: nat, es: seq<L.LinkEvent>)
    requires forall e <- es :: L.Completes(e)
    ensures forall f <- LiftedRun(r, es) :: Harmless(r, f)
  {
    var fs := LiftedRun(r, es);
    forall i | 0 <= i < |fs|
      ensures Harmless(r, fs[i])
    {
      assert es[i] in es;
    }
  }

  /** Nothing but the direction to the peer of session `r` differs. */
  ghost predicate OnlyLink(s: System, s': System, r: nat) {
    && s'.reg == s.reg && s'.log == s.log && |s'.conns| == |s.conns| && r < |s.conns|
    && (forall i | 0 <= i < |s.conns| && i != r :: s'.conns[i] == s.conns[i])
    && s'.conns[r].near.read == s.conns[r].near.read && s'.conns[r].near.reports == s.conns[r].near.reports
    && s'.conns[r].since == s.conns[r].since && s'.conns[r].upto == s.conns[r].upto
  }

  lemma LiftStep(s: System, r: nat, e: L.LinkEvent)
    requires r < |s.conns| && L.Completes(e)
    ensures var s' := Step(s, Lifted(r, e));
            OnlyLink(s, s', r) && LinkOf(s'.conns[r]) == L.Step(LinkOf(s.conns[r]), e)
  {
    hide Whole, S.Write, L.FarStep, S.Enabled, G.Close;
    match e
    case OnWrite(w) => assert !Session.ReportsClosed(s.conns[r].near, Session.OnWrite(w));
    case OnFar(_) =>
  }

  lemma {:induction false} LiftRun(s: System, r: nat, es: seq<L.LinkEvent>)
    requires r < |s.conns| && forall e <- es :: L.Completes(e)
    ensures var s' := After(s, LiftedRun(r, es));
            OnlyLink(s, s', r) && LinkOf(s'.conns[r]) == L.After(LinkOf(s.conns[r]), es)
  {
    hide Step, L.Step, Lifted, L.Completes;
    if es != [] {
      var n := |es| - 1;
      LiftRun(s, r, es[..n]);
      var before, fs := LiftedRun(r, es[..n]), LiftedRun(r, es);
      assert fs == before + [Lifted(r, es[n])];
      OneMore(s, before, Lifted(r, es[n]));
      LiftStep(After(s, before), r, es[n]);
    }
  }

  lemma LinkReady(s: System, r: nat)
    requires Inv(s) && r < |s.conns|
    ensures L.Inv(s.conns[r].near.send, s.conns[r].far)
    ensures L.AllWhole(S.Sent(s.conns[r].near.send))
  {
    ConnAt(s, r);
    hide Inv, Session.Inv, OwnInv, Others, L.Inv;
    L.InvWhole(s.conns[r].near.send, s.conns[r].far);
  }

  /** In every run, for every session with no failed write whose peer has no failed read, there is a
      continuation in which nothing fails and nothing else happens at the server, after which the peer
      has delivered every broadcast made by the others while the session was registered: up to the
      present if it still is. */
  lemma LogDeliveryRemainsPossible(max: nat, es: seq<Event>, r: nat)
    returns (fs: seq<Event>, begun: nat, ended: nat)
    requires var s := After(Init(max), es);
             r < |s.conns| && L.Healthy(s.conns[r].near.send, s.conns[r].far)
    ensures Lifetime(max, es, r, begun, ended)
    ensures forall f <- fs :: Harmless(r, f)
    ensures var s, s' := After(Init(max), es), After(Init(max), es + fs);
            var lo, hi := |At(max, es, begun).log|, |At(max, es, ended).log|;
            && OnlyLink(s, s', r) && L.Healthy(s'.conns[r].near.send, s'.conns[r].far)
            && lo <= hi <= |s.log| && (G.Registered(s.reg, r) ==> hi == |s.log|)
            && var others := Others(s.log[lo..hi], r);
               L.AllWhole(others) && s'.conns[r].far.delivered == FramesOf(others)
  {
    hide After, At, Lifetime, Inv, L.After, L.Inv, Others, Whole, Frame, FramesOf, L.Healthy, Session.Inv, G.Registered;
    var s := Reached(max, es);
    LinkReady(s, r);
    begun, ended := T.QueueFollowsLog(max, es, r);
    var ls := L.DeliveryRemainsPossible(LinkOf(s.conns[r]));
    fs := LiftedRun(r, ls);
    LiftedHarmless(r, ls);
    LiftRun(s, r, ls);
    AfterAppend(Init(max), es, fs);
  }
}
