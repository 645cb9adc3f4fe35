/** Who has been sent and has received which broadcasts, in every run of the live server
    (chat_server/ChatServer.cpp:73-126). */
module TotalOrder {
  import opened Bytes
  import opened Frames
  import opened Parser
  import opened ChatSystem
  import opened Lifetimes
  import R = ReadChain
  import S = SendChain
  import Session
  import L = Link
  import G = Registry

  /** The positions from `lo` up to `hi` of broadcasts that were not the given session's own. */
  function Positions(log: seq<Entry>, lo: nat, hi: nat, r: nat): (ps: seq<nat>)
    requires lo <= hi <= |log|
    ensures forall i | 0 <= i < |ps| :: lo <= ps[i] < hi
    decreases hi
  {
    if lo == hi then []
    else Positions(log, lo, hi - 1, r) + if log[hi - 1].sender == r then [] else [hi - 1]
  }

  /** Positions come in increasing order and leave out nothing. */
  lemma {:induction false} PositionsSorted(log: seq<Entry>, lo: nat, hi: nat, r: nat)
    requires lo <= hi <= |log|
    ensures var ps := Positions(log, lo, hi, r);
            && (forall i, j | 0 <= i < j < |ps| :: ps[i] < ps[j])
            && (forall p | lo <= p < hi :: p in ps <==> log[p].sender != r)
    decreases hi
  {
    if lo < hi {
      PositionsSorted(log, lo, hi - 1, r);
    }
  }

  function MessagesAt(log: seq<Entry>, ps: seq<nat>): (ms: seq<Image>)
    requires forall i | 0 <= i < |ps| :: ps[i] < |log|
    ensures |ms| == |ps|
    ensures forall i | 0 <= i < |ps| :: ms[i] == log[ps[i]].msg
  {
    if ps == [] then [] else MessagesAt(log, ps[..|ps| - 1]) + [log[ps[|ps| - 1]].msg]
  }

  lemma MessagesAtSnoc(log: seq<Entry>, ps: seq<nat>, p: nat)
    requires p < |log| && forall i | 0 <= i < |ps| :: ps[i] < |log|
    ensures MessagesAt(log, ps + [p]) == MessagesAt(log, ps) + [log[p].msg]
  {
    assert (ps + [p])[..|ps|] == ps;
  }

  lemma OthersLast(log: seq<Entry>, lo: nat, hi: nat, r: nat)
    requires lo < hi <= |log|
    ensures Others(log[lo..hi], r)
            == Others(log[lo..hi - 1], r) + if log[hi - 1].sender == r then [] else [log[hi - 1].msg]
  {
    hide Others;
    assert log[lo..hi] == log[lo..hi - 1] + [log[hi - 1]];
    OthersSnoc(log[lo..hi - 1], log[hi - 1], r);
  }

  lemma PositionsLast(log: seq<Entry>, lo: nat, hi: nat, r: nat)
    requires lo < hi <= |log|
    ensures Positions(log, lo, hi, r)
            == Positions(log, lo, hi - 1, r) + if log[hi - 1].sender == r then [] else [hi - 1]
  {
  }

  lemma OthersNone(log: seq<Entry>, lo: nat, r: nat)
    requires lo <= |log|
    ensures Others(log[lo..lo], r) == [] && Positions(log, lo, lo, r) == [] && MessagesAt(log, []) == []
  {
    assert log[lo..lo] == [];
  }

  lemma {:induction false} OthersAtPositions(log: seq<Entry>, lo: nat, hi: nat, r: nat)
    requires lo <= hi <= |log|
    ensures Others(log[lo..hi], r) == MessagesAt(log, Positions(log, lo, hi, r))
    decreases hi
  {
    hide *;
    if lo == hi {
      OthersNone(log, lo, r);
    } else {
      OthersAtPositions(log, lo, hi - 1, r);
      OthersLast(log, lo, hi, r);
      PositionsLast(log, lo, hi, r);
      if log[hi - 1].sender != r {
        MessagesAtSnoc(log, Positions(log, lo, hi - 1, r), hi - 1);
      }
    }
  }

  /** A prefix of the other sessions' broadcasts is those up to some position. */
  lemma {:induction false} Cut(log: seq<Entry>, lo: nat, hi: nat, r: nat, n: nat) returns (cut: nat)
    requires lo <= hi <= |log| && n <= |Positions(log, lo, hi, r)|
    ensures lo <= cut <= hi && Positions(log, lo, cut, r) == Positions(log, lo, hi, r)[..n]
    decreases hi
  {
    if n == |Positions(log, lo, hi, r)| {
      cut := hi;
    } else {
      cut := Cut(log, lo, hi - 1, r, n);
    }
  }

  /** The peer of session `r` has delivered exactly the frames of the other sessions' broadcasts from
      the session's registration up to position `cut`, in the order of the log. */
  ghost predicate DeliveredUpTo(s: System, r: nat, cut: nat) {
    && r < |s.conns|
    && var c := s.conns[r];
       && c.since <= cut <= c.upto <= |s.log|
       && var ms := MessagesAt(s.log, Positions(s.log, c.since, cut, r));
          L.AllWhole(ms) && c.far.delivered == FramesOf(ms)
  }

  /** In every run, for every session ever opened: the frames written to it followed by its queue are
      the broadcasts made by the other sessions while it was registered, in the order of the log. */
  lemma QueueFollowsLog(max: nat, es: seq<Event>, r: nat) returns (begun: nat, ended: nat)
    requires r < |After(Init(max), es).conns|
    ensures Lifetime(max, es, r, begun, ended)
    ensures var s := After(Init(max), es);
            var lo, hi := |At(max, es, begun).log|, |At(max, es, ended).log|;
            && s.conns[r].since == lo <= hi == s.conns[r].upto && hi <= |s.log|
            && (G.Registered(s.reg, r) ==> hi == |s.log|)
            && s.conns[r].near.send.done + s.conns[r].near.send.queue == Others(s.log[lo..hi], r)
  {
    hide After, Inv, Lifetime, At;
    var s := Reached(max, es);
    begun, ended := SessionLifetime(max, es, r);
    ConnAt(s, r);
    hide Session.Inv, L.Inv, OwnInv, Others;
  }

  lemma PrefixAtCut(log: seq<Entry>, lo: nat, hi: nat, r: nat, delivered: seq<seq<byte>>) returns (cut: nat)
    requires lo <= hi <= |log|
    requires L.AllWhole(Others(log[lo..hi], r)) && delivered <= FramesOf(Others(log[lo..hi], r))
    ensures lo <= cut <= hi
    ensures var ms := MessagesAt(log, Positions(log, lo, cut, r)); L.AllWhole(ms) && delivered == FramesOf(ms)
    ensures delivered == FramesOf(Others(log[lo..hi], r)) ==> cut == hi
  {
    hide Whole, Frame, FramesOf, Others, Positions, MessagesAt;
    OthersAtPositions(log, lo, hi, r);
    var all := Positions(log, lo, hi, r);
    var sent, n := MessagesAt(log, all), |delivered|;
    if delivered == FramesOf(sent) {
      cut := hi;
    } else {
      cut := Cut(log, lo, hi, r, n);
      assert MessagesAt(log, all[..n]) == sent[..n];
      FramesPrefix(sent, n);
    }
  }

  lemma FramesPrefix(ms: seq<Image>, n: nat)
    requires L.AllWhole(ms) && n <= |ms|
    ensures L.AllWhole(ms[..n]) && FramesOf(ms)[..n] == FramesOf(ms[..n])
  {
    hide Whole, Frame;
    assert forall m <- ms[..n] :: m in ms;
  }

  lemma PeerOfConn(s: System, r: nat) returns (cut: nat)
    requires Inv(s) && r < |s.conns|
    ensures DeliveredUpTo(s, r, cut)
    ensures L.AllWhole(S.Sent(s.conns[r].near.send))
    ensures L.Drained(s.conns[r].near.send, s.conns[r].far) ==> cut == s.conns[r].upto
  {
    ConnAt(s, r);
    var c := s.conns[r];
    hide Inv, OwnInv, Session.Inv, L.AllWhole, L.OnWire, L.Inv, R.Quiet, Others, Positions, FramesOf, S.Sent;
    L.InvWhole(c.near.send, c.far);
    L.Delivery(c.near.send, c.far);
    cut := PrefixAtCut(s.log, c.since, c.upto, r, c.far.delivered);
  }

  /** The frames delivered are those of the broadcasts at the given positions of the log, in order, and
      these are all the positions from `lo` up to `hi` of broadcasts that were not session `r`'s own. */
  ghost predicate DeliversAt(log: seq<Entry>, r: nat, lo: nat, hi: nat, delivered: seq<seq<byte>>, ps: seq<nat>) {
    && lo <= hi <= |log| && |ps| == |delivered|
    && (forall i, j | 0 <= i < j < |ps| :: ps[i] < ps[j])
    && (forall p: nat :: p in ps <==> lo <= p < hi && log[p].sender != r)
    && (forall i | 0 <= i < |ps| ::
          ps[i] < |log| && Whole(log[ps[i]].msg) && delivered[i] == Frame(log[ps[i]].msg))
  }

  /** The peer of session `r` has delivered the others' broadcasts from the beginning of the session's
      lifetime up to position `cut`, which is not beyond its end. */
  ghost predicate PeerDelivers(max: nat, es: seq<Event>, r: nat, begun: nat, ended: nat, cut: nat, ps: seq<nat>) {
    && Lifetime(max, es, r, begun, ended)
    && cut <= |At(max, es, ended).log|
    && var s := After(Init(max), es);
       r < |s.conns| && DeliversAt(s.log, r, |At(max, es, begun).log|, cut, s.conns[r].far.delivered, ps)
  }

  lemma DeliveredAtPositions(s: System, r: nat, cut: nat)
    requires DeliveredUpTo(s, r, cut)
    ensures var c := s.conns[r];
            DeliversAt(s.log, r, c.since, cut, c.far.delivered, Positions(s.log, c.since, cut, r))
  {
    hide Positions, Whole, Frame;
    var since := s.conns[r].since;
    PositionsSorted(s.log, since, cut, r);
    var ps := Positions(s.log, since, cut, r);
    var ms := MessagesAt(s.log, ps);
    assert forall i | 0 <= i < |ps| :: ms[i] == s.log[ps[i]].msg && ms[i] in ms;
  }

  /** In every run, for every session: its peer has delivered exactly the other sessions' broadcasts
      from its registration up to some position; all those made while it was registered once its
      direction of the connection is drained. */
  lemma PeerDeliversLog(max: nat, es: seq<Event>, r: nat) returns (begun: nat, ended: nat, cut: nat, ps: seq<nat>)
    requires r < |After(Init(max), es).conns|
    ensures PeerDelivers(max, es, r, begun, ended, cut, ps)
    ensures var s := After(Init(max), es);
            var c := s.conns[r];
            && L.AllWhole(S.Sent(c.near.send))
            && (L.Drained(c.near.send, c.far) ==> cut == |At(max, es, ended).log|)
            && (L.Drained(c.near.send, c.far) && G.Registered(s.reg, r) ==> cut == |s.log|)
  {
    hide After, Inv, L.Drained, Lifetime, At, Others, G.Registered, DeliversAt;
    var s := Reached(max, es);
    begun, ended := QueueFollowsLog(max, es, r);
    cut := PeerOfConn(s, r);
    DeliveredAtPositions(s, r, cut);
    ps := Positions(s.log, s.conns[r].since, cut, r);
  }

  // Total order.

  /** Of the frames delivered from positions `ps`, those from positions that are also in `qs`. */
  function Shared(delivered: seq<seq<byte>>, ps: seq<nat>, qs: seq<nat>): seq<seq<byte>>
    requires |delivered| == |ps|
  {
    if ps == [] then []
    else
      var n := |ps| - 1;
      Shared(delivered[..n], ps[..n], qs) + if ps[n] in qs then [delivered[n]] else []
  }

  predicate Increasing(ps: seq<nat>) {
    forall i, j | 0 <= i < j < |ps| :: ps[i] < ps[j]
  }

  /** The positions in both lists, in the order of the first. */
  function Common(ps: seq<nat>, qs: seq<nat>): seq<nat> {
    if ps == [] then []
    else Common(ps[..|ps| - 1], qs) + if ps[|ps| - 1] in qs then [ps[|ps| - 1]] else []
  }

  lemma HasElement(ps: seq<nat>)
    requires ps != []
    ensures exists p: nat :: p in ps
  {
    assert ps[0] in ps;
  }

  /** All but the last are the elements below the last. */
  lemma BelowLast(ps: seq<nat>)
    requires Increasing(ps) && ps != []
    ensures var n := |ps| - 1;
            && Increasing(ps[..n]) && ps[n] in ps
            && (forall p: nat :: p in ps[..n] <==> p in ps && p < ps[n])
            && (forall p: nat | p in ps :: p <= ps[n])
  {
    var n := |ps| - 1;
    assert ps == ps[..n] + [ps[n]];
    assert forall p: nat | p in ps[..n] :: p < ps[n];
  }

  lemma IncreasingSnoc(ps: seq<nat>, p: nat)
    requires Increasing(ps) && forall q <- ps :: q < p
    ensures Increasing(ps + [p])
  {
    var qs := ps + [p];
    forall i, j | 0 <= i < j < |qs|
      ensures qs[i] < qs[j]
    {
      assert qs[i] == ps[i] && ps[i] in ps;
    }
  }

  lemma {:induction false} CommonIncreasing(ps: seq<nat>, qs: seq<nat>)
    requires Increasing(ps)
    ensures Increasing(Common(ps, qs))
    ensures forall p: nat :: p in Common(ps, qs) <==> p in ps && p in qs
  {
    if ps != [] {
      var n := |ps| - 1;
      BelowLast(ps);
      CommonIncreasing(ps[..n], qs);
      var earlier := Common(ps[..n], qs);
      assert Common(ps, qs) == earlier + if ps[n] in qs then [ps[n]] else [];
      hide Common, Increasing;
      if ps[n] in qs {
        IncreasingSnoc(earlier, ps[n]);
      }
    }
  }

  /** An increasing list is determined by its elements. */
  lemma {:induction false} IncreasingUnique(ps: seq<nat>, qs: seq<nat>)
    requires Increasing(ps) && Increasing(qs) && forall p: nat :: p in ps <==> p in qs
    ensures ps == qs
  {
    hide Increasing;
    if ps == [] {
      if qs != [] {
        HasElement(qs);
      }
    } else {
      assert ps[0] in ps && ps[0] in qs;
      var n, k := |ps| - 1, |qs| - 1;
      BelowLast(ps);
      BelowLast(qs);
      assert ps[n] == qs[k];
      IncreasingUnique(ps[..n], qs[..k]);
      assert ps == ps[..n] + [ps[n]] && qs == qs[..k] + [qs[k]];
    }
  }

  ghost function FrameOr(m: Image): seq<byte> {
    if Whole(m) then Frame(m) else []
  }

  ghost function FrameAt(log: seq<Entry>, p: nat): seq<byte> {
    if p < |log| then FrameOr(log[p].msg) else []
  }

  /** The frames of the broadcasts at some positions of the log. */
  ghost function FramesAt(log: seq<Entry>, ps: seq<nat>): seq<seq<byte>> {
    seq(|ps|, i requires 0 <= i < |ps| => FrameAt(log, ps[i]))
  }

  lemma {:induction false} SharedAreFrames(log: seq<Entry>, delivered: seq<seq<byte>>, ps: seq<nat>, qs: seq<nat>)
    requires |delivered| == |ps| && forall i | 0 <= i < |ps| :: delivered[i] == FrameAt(log, ps[i])
    ensures Shared(delivered, ps, qs) == FramesAt(log, Common(ps, qs))
  {
    hide FrameAt;
    if ps != [] {
      var n := |ps| - 1;
      SharedAreFrames(log, delivered[..n], ps[..n], qs);
      var earlier := Common(ps[..n], qs);
      assert FramesAt(log, earlier + [ps[n]]) == FramesAt(log, earlier) + [FrameAt(log, ps[n])];
    }
  }

  lemma SharedAgree(log: seq<Entry>, d1: seq<seq<byte>>, p1: seq<nat>, d2: seq<seq<byte>>, p2: seq<nat>,
                    r1: nat, lo1: nat, hi1: nat, r2: nat, lo2: nat, hi2: nat)
    requires DeliversAt(log, r1, lo1, hi1, d1, p1) && DeliversAt(log, r2, lo2, hi2, d2, p2)
    ensures Shared(d1, p1, p2) == Shared(d2, p2, p1)
  {
    assert forall i | 0 <= i < |p1| :: d1[i] == FrameAt(log, p1[i]);
    assert forall i | 0 <= i < |p2| :: d2[i] == FrameAt(log, p2[i]);
    hide Whole, Frame, FrameAt, Common, Shared, FramesAt;
    SharedAreFrames(log, d1, p1, p2);
    SharedAreFrames(log, d2, p2, p1);
    CommonIncreasing(p1, p2);
    CommonIncreasing(p2, p1);
    IncreasingUnique(Common(p1, p2), Common(p2, p1));
  }

  /** Total order, in every run, for any two sessions: there are broadcasts of the one log that their
      peers have delivered; of these, the frames that both have delivered are the same sequence of
      frames at both; and a broadcast that one of them delivered is missing at the other exactly if it
      was its own, or came before its registration, or lies beyond what it has delivered. */
  lemma SameOrder(max: nat, es: seq<Event>, r1: nat, r2: nat)
    returns (b1: nat, e1: nat, cut1: nat, p1: seq<nat>, b2: nat, e2: nat, cut2: nat, p2: seq<nat>)
    requires r1 < |After(Init(max), es).conns| && r2 < |After(Init(max), es).conns|
    ensures PeerDelivers(max, es, r1, b1, e1, cut1, p1) && PeerDelivers(max, es, r2, b2, e2, cut2, p2)
    ensures var s := After(Init(max), es);
            && Shared(s.conns[r1].far.delivered, p1, p2) == Shared(s.conns[r2].far.delivered, p2, p1)
            && (forall p <- p1 ::
                  p !in p2 <==> s.log[p].sender == r2 || p < |At(max, es, b2).log| || cut2 <= p)
            && (forall p <- p2 ::
                  p !in p1 <==> s.log[p].sender == r1 || p < |At(max, es, b1).log| || cut1 <= p)
  {
    hide After, At, L.Drained, Whole, Frame;
    b1, e1, cut1, p1 := PeerDeliversLog(max, es, r1);
    b2, e2, cut2, p2 := PeerDeliversLog(max, es, r2);
    var s := After(Init(max), es);
    SharedAgree(s.log, s.conns[r1].far.delivered, p1, s.conns[r2].far.delivered, p2,
                r1, |At(max, es, b1).log|, cut1, r2, |At(max, es, b2).log|, cut2);
    hide Shared;
  }

  // What the clients caused.

  /** The frame is broadcast if it is a chat message, and otherwise nothing is. */
  ghost predicate Broadcasts(log: seq<Entry>, log': seq<Entry>, r: nat, f: seq<byte>)
    requires |f| >= 8
  {
    if f[4..8] == [3, 0, 0, 0]
    then
      && |log'| == |log| + 1 && log'[..|log|] == log
      && var x := log'[|log|]; x.sender == r && Whole(x.msg) && Frame(x.msg) == f
    else log' == log
  }

  lemma DispatchLogs(log: seq<Entry>, r: nat, m: Image)
    requires Whole(m)
    ensures |Frame(m)| >= 8 && Broadcasts(log, LogAfter(log, r, m), r, Frame(m))
  {
    FrameIsSegment(m);
    FrameLength(m);
    ChatLayout(Frame(m));
    hide Whole, Frame, DecodeHeader, Segment;
  }

  lemma BodyEffect(s: System, r: nat)
    requires r < |s.conns| && R.Enabled(s.conns[r].near.read, R.BodyDone)
    ensures var s' := Step(s, Read(r, R.BodyDone));
            var near := Session.Step(s.conns[r].near, Session.OnRead(R.BodyDone));
            && |s'.conns| == |s.conns| && s'.conns[r].near == near && s'.log == LogAfter(s.log, r, near.read.msg)
  {
    BodyStepParts(s, r);
    hide Session.Step, R.Enabled, ReadStep, DecodeHeader, G.Registered, LogAfter;
  }

  lemma BodyExtendsLog(s: System, r: nat)
    requires Inv(s) && r < |s.conns| && R.Enabled(s.conns[r].near.read, R.BodyDone)
    ensures var s' := Step(s, Read(r, R.BodyDone));
            && |s'.conns| == |s.conns|
            && var d := s'.conns[r].near.read.delivered;
               && |d| == |s.conns[r].near.read.delivered| + 1
               && var f := d[|d| - 1];
                  |f| >= 8 && Broadcasts(s.log, s'.log, r, f)
  {
    SessionSound(s, r);
    BodyEffect(s, r);
    NearEffect(s.conns[r].near, Session.OnRead(R.BodyDone));
    hide *;
    DispatchLogs(s.log, r, Session.Step(s.conns[r].near, Session.OnRead(R.BodyDone)).read.msg);
  }

  lemma SessionSound(s: System, r: nat)
    requires Inv(s) && r < |s.conns|
    ensures Session.Inv(s.conns[r].near)
  {
    ConnAt(s, r);
    hide Inv, Session.Inv, L.Inv, OwnInv, Others;
  }

  lemma LogKept(s: System, e: Event)
    requires !(e.Read? && e.re.BodyDone? && e.r < |s.conns| && R.Enabled(s.conns[e.r].near.read, e.re))
    ensures Step(s, e).log == s.log
  {
    hide R.Enabled, Session.Step, Session.ReportsClosed, G.Close, G.Accept, L.FarStep;
  }

  /** In every run, whatever happens next: if a body completes at session `r`, one more frame has been
      delivered, and if its bytes 4 to 8 are 3, 0, 0, 0 then the log is extended by one broadcast of that
      frame by `r`; nothing else ever extends the log. */
  lemma OnlyChatIsBroadcast(max: nat, es: seq<Event>, e: Event)
    ensures var s, s' := After(Init(max), es), After(Init(max), es + [e]);
            if e.Read? && e.re.BodyDone? && e.r < |s.conns| && R.Enabled(s.conns[e.r].near.read, e.re)
            then
              && |s'.conns| == |s.conns|
              && var d := s'.conns[e.r].near.read.delivered;
                 && |d| == |s.conns[e.r].near.read.delivered| + 1
                 && var f := d[|d| - 1];
                    |f| >= 8 && Broadcasts(s.log, s'.log, e.r, f)
            else s'.log == s.log
  {
    hide After, Inv, Step, R.Enabled, Broadcasts;
    var s := Reached(max, es);
    OneMore(Init(max), es, e);
    if e.Read? && e.re.BodyDone? && e.r < |s.conns| && R.Enabled(s.conns[e.r].near.read, e.re) {
      BodyExtendsLog(s, e.r);
      assert e == Read(e.r, R.BodyDone);
    } else {
      LogKept(s, e);
    }
  }

  /** In every run, for every session: the broadcasts it caused are exactly the chat messages among
      the frames its reader delivered, which are the first frames of the bytes it received. */
  lemma SenderOrder(max: nat, es: seq<Event>, r: nat)
    requires r < |After(Init(max), es).conns|
    ensures var s := After(Init(max), es);
            var read := s.conns[r].near.read;
            && AllFrames(read.delivered) && L.AllWhole(Own(s.log, r))
            && FramesOf(Own(s.log, r)) == Chat(read.delivered)
            && read.delivered <= Parse(read.received)
  {
    hide After, Inv;
    var s := Reached(max, es);
    ConnAt(s, r);
    hide L.Inv, Others, S.Inv, AllFrames, L.AllWhole, Chat, FramesOf, Own, R.Inv, Parse;
    R.RefinesParser(s.conns[r].near.read);
  }

  /** A client that uses the library's write chain: what it caused to be broadcast is the chat
      messages among the first messages it sent. */
  lemma LibraryClient(max: nat, es: seq<Event>, r: nat, client: S.SendState)
    requires r < |After(Init(max), es).conns|
    requires L.AllWhole(S.Sent(client))
    requires After(Init(max), es).conns[r].near.read.received <= L.OnWire(client)
    ensures var s := After(Init(max), es);
            var read := s.conns[r].near.read;
            && read.delivered <= FramesOf(S.Sent(client))
            && AllFrames(read.delivered) && L.AllWhole(Own(s.log, r))
            && FramesOf(Own(s.log, r)) == Chat(read.delivered)
  {
    hide After, AllFrames, Chat, Own, Whole, L.OnWire, Parse, FramesOf;
    SenderOrder(max, es, r);
    L.WireIsPrefix(client);
    ParseRoundTrip(S.Sent(client));
    var received := After(Init(max), es).conns[r].near.read.received;
    var all := Concat(FramesOf(S.Sent(client)));
    assert all == received + all[|received|..];
    ParsePrefix(received, all[|received|..]);
  }

  lemma FramesParts(fs: seq<seq<byte>>, n: nat)
    requires AllFrames(fs) && n <= |fs|
    ensures AllFrames(fs[..n]) && AllFrames(fs[n..])
  {
  }

  lemma ChatAppendStep(a: seq<seq<byte>>, b: seq<seq<byte>>, f: seq<byte>)
    requires AllFrames(a + b) && AllFrames(a) && AllFrames(b) && |f| >= HEADER_LENGTH && Chat(a + b) == Chat(a) + Chat(b)
    ensures AllFrames(a + (b + [f])) && AllFrames(b + [f]) && Chat(a + (b + [f])) == Chat(a) + Chat(b + [f])
  {
    var chat := if f[4..8] == [3, 0, 0, 0] then [f] else [];
    hide *;
    Regroup(a, b, [f]);
    ChatSnoc(a + b, f);
    ChatSnoc(b, f);
    Regroup(Chat(a), Chat(b), chat);
  }

  lemma {:induction false} ChatAppend(a: seq<seq<byte>>, b: seq<seq<byte>>)
    requires AllFrames(a) && AllFrames(b)
    ensures AllFrames(a + b) && Chat(a + b) == Chat(a) + Chat(b)
  {
    hide DecodeHeader;
    if b == [] {
      assert a + b == a;
    } else {
      var n := |b| - 1;
      FramesParts(b, n);
      ChatAppend(a, b[..n]);
      ChatAppendStep(a, b[..n], b[n]);
      hide Chat, AllFrames;
      assert b == b[..n] + [b[n]];
    }
  }

  /** Of the frames delivered from positions `ps`, those that session `a` caused to be broadcast. */
  function From(log: seq<Entry>, a: nat, delivered: seq<seq<byte>>, ps: seq<nat>): seq<seq<byte>>
    requires |delivered| == |ps|
  {
    if ps == [] then []
    else
      var n := |ps| - 1;
      From(log, a, delivered[..n], ps[..n]) + if ps[n] < |log| && log[ps[n]].sender == a then [delivered[n]] else []
  }

  lemma LastPosition(log: seq<Entry>, b: nat, lo: nat, hi: nat, delivered: seq<seq<byte>>, ps: seq<nat>)
    requires DeliversAt(log, b, lo, hi, delivered, ps) && lo < hi
    ensures hi <= |log|
    ensures if log[hi - 1].sender == b then DeliversAt(log, b, lo, hi - 1, delivered, ps)
            else && ps != [] && ps[|ps| - 1] == hi - 1 && |delivered| == |ps|
                 && delivered[|ps| - 1] == FrameOr(log[hi - 1].msg)
                 && DeliversAt(log, b, lo, hi - 1, delivered[..|ps| - 1], ps[..|ps| - 1])
  {
    hide Whole, Frame;
    if log[hi - 1].sender == b {
      assert forall p: nat :: p in ps ==> p < hi - 1;
    } else {
      assert hi - 1 in ps;
      BelowLast(ps);
      assert ps[|ps| - 1] == hi - 1;
    }
  }

  lemma NoPosition(log: seq<Entry>, b: nat, lo: nat, delivered: seq<seq<byte>>, ps: seq<nat>)
    requires DeliversAt(log, b, lo, lo, delivered, ps)
    ensures ps == [] && delivered == []
  {
    hide Whole, Frame;
    if ps != [] {
      HasElement(ps);
    }
  }

  /** The frames of a session's own broadcasts. */
  ghost function OwnFrames(log: seq<Entry>, a: nat): seq<seq<byte>> {
    if log == [] then []
    else
      var n := |log| - 1;
      OwnFrames(log[..n], a) + if log[n].sender == a then [FrameOr(log[n].msg)] else []
  }

  lemma OwnFramesSnoc(log: seq<Entry>, e: Entry, a: nat)
    ensures OwnFrames(log + [e], a) == OwnFrames(log, a) + if e.sender == a then [FrameOr(e.msg)] else []
  {
    hide FrameOr;
    assert (log + [e])[..|log|] == log;
  }

  lemma {:induction false} OwnFramesAppend(x: seq<Entry>, y: seq<Entry>, a: nat)
    ensures OwnFrames(x + y, a) == OwnFrames(x, a) + OwnFrames(y, a)
  {
    hide FrameOr;
    if y == [] {
      assert x + y == x;
    } else {
      var n := |y| - 1;
      OwnFramesAppend(x, y[..n], a);
      hide *;
      var f := if y[n].sender == a then [FrameOr(y[n].msg)] else [];
      SliceSnoc(y, 0, |y|);
      assert y[0..|y|] == y && y[0..n] == y[..n];
      Regroup(x, y[..n], [y[n]]);
      OwnFramesSnoc(x + y[..n], y[n], a);
      OwnFramesSnoc(y[..n], y[n], a);
      Regroup(OwnFrames(x, a), OwnFrames(y[..n], a), f);
    }
  }

  lemma {:induction false} OwnFramesAre(log: seq<Entry>, a: nat)
    ensures |OwnFrames(log, a)| == |Own(log, a)|
    ensures L.AllWhole(Own(log, a)) ==> OwnFrames(log, a) == FramesOf(Own(log, a))
  {
    hide Whole, Frame;
    if log != [] {
      var n := |log| - 1;
      OwnFramesAre(log[..n], a);
      if L.AllWhole(Own(log, a)) && log[n].sender == a {
        var earlier, m := Own(log[..n], a), log[n].msg;
        assert Own(log, a) == earlier + [m] && m in Own(log, a);
        assert forall k <- earlier :: k in Own(log, a);
        FramesSnoc(earlier, m);
      }
    }
  }

  lemma FromNothing(log: seq<Entry>, a: nat, lo: nat)
    requires lo <= |log|
    ensures OwnFrames(log[lo..lo], a) == [] && From(log, a, [], []) == []
  {
    assert log[lo..lo] == [];
  }

  /** One more position of the log, which is not among the delivered. */
  lemma FromSkip(log: seq<Entry>, a: nat, lo: nat, hi: nat, fs: seq<seq<byte>>)
    requires lo < hi <= |log| && log[hi - 1].sender != a && fs == OwnFrames(log[lo..hi - 1], a)
    ensures fs == OwnFrames(log[lo..hi], a)
  {
    hide *;
    SliceSnoc(log, lo, hi);
    OwnFramesSnoc(log[lo..hi - 1], log[hi - 1], a);
  }

  lemma FromLast(log: seq<Entry>, a: nat, delivered: seq<seq<byte>>, ps: seq<nat>)
    requires |delivered| == |ps| > 0
    ensures var n := |ps| - 1;
            From(log, a, delivered, ps)
            == From(log, a, delivered[..n], ps[..n])
               + if ps[n] < |log| && log[ps[n]].sender == a then [delivered[n]] else []
  {
  }

  /** One more position of the log, the last of the delivered. */
  lemma FromStep(log: seq<Entry>, a: nat, lo: nat, hi: nat, delivered: seq<seq<byte>>, ps: seq<nat>)
    requires lo < hi <= |log| && |delivered| == |ps| > 0
    requires ps[|ps| - 1] == hi - 1 && delivered[|ps| - 1] == FrameOr(log[hi - 1].msg)
    requires From(log, a, delivered[..|ps| - 1], ps[..|ps| - 1]) == OwnFrames(log[lo..hi - 1], a)
    ensures From(log, a, delivered, ps) == OwnFrames(log[lo..hi], a)
  {
    FromLast(log, a, delivered, ps);
    hide *;
    SliceSnoc(log, lo, hi);
    OwnFramesSnoc(log[lo..hi - 1], log[hi - 1], a);
  }

  /** What one session's peer delivered of another session's broadcasts is that session's own broadcasts
      in the same part of the log. */
  lemma {:induction false} FromIsOwn(log: seq<Entry>, a: nat, b: nat, lo: nat, hi: nat,
                                     delivered: seq<seq<byte>>, ps: seq<nat>)
    requires DeliversAt(log, b, lo, hi, delivered, ps) && a != b && |delivered| == |ps| && lo <= hi <= |log|
    ensures From(log, a, delivered, ps) == OwnFrames(log[lo..hi], a)
    decreases hi
  {
    hide *;
    if lo == hi {
      NoPosition(log, b, lo, delivered, ps);
      FromNothing(log, a, lo);
    } else {
      LastPosition(log, b, lo, hi, delivered, ps);
      if log[hi - 1].sender == b {
        FromIsOwn(log, a, b, lo, hi - 1, delivered, ps);
        FromSkip(log, a, lo, hi, From(log, a, delivered, ps));
      } else {
        var n := |ps| - 1;
        FromIsOwn(log, a, b, lo, hi - 1, delivered[..n], ps[..n]);
        FromStep(log, a, lo, hi, delivered, ps);
      }
    }
  }

  lemma OwnSlice(log: seq<Entry>, a: nat, lo: nat, hi: nat) returns (i: nat, j: nat)
    requires lo <= hi <= |log|
    ensures i == |Own(log[..lo], a)| && j == |Own(log[..hi], a)| && i <= j <= |OwnFrames(log, a)|
    ensures OwnFrames(log[lo..hi], a) == OwnFrames(log, a)[i..j]
  {
    hide *;
    OwnFramesAre(log[..lo], a);
    OwnFramesAre(log[..hi], a);
    i, j := |Own(log[..lo], a)|, |Own(log[..hi], a)|;
    OwnFramesAppend(log[..lo], log[lo..hi], a);
    assert log[..lo] + log[lo..hi] == log[..hi];
    OwnFramesAppend(log[..hi], log[hi..], a);
    TakeDrop(log, hi);
    MiddlePart(OwnFrames(log[..lo], a), OwnFrames(log[lo..hi], a), OwnFrames(log[hi..], a));
  }

  lemma FramesAreLong(ms: seq<Image>)
    requires L.AllWhole(ms)
    ensures AllFrames(FramesOf(ms))
  {
    hide Whole, Frame;
    forall m | m in ms
      ensures |Frame(m)| >= HEADER_LENGTH
    {
      FrameLength(m);
    }
  }

  lemma LogAtBegin(max: nat, es: seq<Event>, r: nat, begun: nat, ended: nat, cut: nat, ps: seq<nat>) returns (lo: nat)
    requires PeerDelivers(max, es, r, begun, ended, cut, ps)
    ensures begun <= |es| && lo == |At(max, es, begun).log|
    ensures var s := After(Init(max), es);
            && r < |s.conns| && lo <= cut <= |s.log| && |ps| == |s.conns[r].far.delivered|
            && DeliversAt(s.log, r, lo, cut, s.conns[r].far.delivered, ps)
  {
    hide After, Whole, Frame, At;
    lo := |At(max, es, begun).log|;
  }

  lemma ChatPrefix(read: seq<seq<byte>>, sent: seq<seq<byte>>, i: nat, j: nat)
    requires AllFrames(read) && AllFrames(sent) && read <= sent && i <= j <= |Chat(read)|
    ensures j <= |Chat(sent)| && Chat(sent)[i..j] == Chat(read)[i..j]
  {
    hide *;
    var rest := sent[|read|..];
    FramesParts(sent, |read|);
    ChatAppend(read, rest);
    TakeDrop(sent, |read|);
    assert sent[..|read|] == read;
    FirstPart(Chat(read), Chat(rest), i, j);
  }

  /** First in, first out, from client to client: if the client of session `a` uses the library's write
      chain, then the frames of `a` that the peer of another session `b` has delivered are, in order and
      without a gap, chat messages that the client was given to send: from the first one broadcast after
      the registration of `b` to the last one it has delivered. */
  lemma ClientToClient(max: nat, es: seq<Event>, a: nat, b: nat, client: S.SendState)
    returns (begun: nat, ended: nat, cut: nat, ps: seq<nat>, i: nat, j: nat)
    requires a != b && a < |After(Init(max), es).conns| && b < |After(Init(max), es).conns|
    requires L.AllWhole(S.Sent(client))
    requires After(Init(max), es).conns[a].near.read.received <= L.OnWire(client)
    ensures PeerDelivers(max, es, b, begun, ended, cut, ps) && AllFrames(FramesOf(S.Sent(client)))
    ensures var s := After(Init(max), es);
            var chat := Chat(FramesOf(S.Sent(client)));
            && cut <= |s.log| && |At(max, es, begun).log| <= |s.log|
            && i == |Own(s.log[..|At(max, es, begun).log|], a)| && j == |Own(s.log[..cut], a)| && i <= j <= |chat|
            && |ps| == |s.conns[b].far.delivered|
            && From(s.log, a, s.conns[b].far.delivered, ps) == chat[i..j]
  {
    hide After, At, L.Drained, Whole, Frame, FramesOf, Own, Chat, From, S.Sent, AllFrames, L.OnWire, DeliversAt, OwnFrames,
         Lifetime;
    begun, ended, cut, ps := PeerDeliversLog(max, es, b);
    var s := After(Init(max), es);
    var lo := LogAtBegin(max, es, b, begun, ended, cut, ps);
    FromIsOwn(s.log, a, b, lo, cut, s.conns[b].far.delivered, ps);
    LibraryClient(max, es, a, client);
    i, j := OwnSlice(s.log, a, lo, cut);
    OwnFramesAre(s.log, a);
    FramesAreLong(S.Sent(client));
    ChatPrefix(s.conns[a].near.read.delivered, FramesOf(S.Sent(client)), i, j);
  }
}
