/** Src/TcpServer.cpp and Src/TcpServer.h: the server object and its handlers. */
module TcpServers {
  import G = Registry
  import H = Handlers
  import opened TcpSessions
  import Session

  /** The sessions opened are distinct objects with the ids the specification gave them. */
  ghost predicate Listed(roster: seq<TcpSession>, ids: seq<int>) {
    && |roster| == |ids|
    && (forall r | 0 <= r < |roster| :: roster[r].id == ids[r])
    && (forall q, r | 0 <= q < r < |roster| :: roster[q] != roster[r])
  }

  /** The map of session objects is the map of session numbers. */
  ghost predicate Linked(sessions: map<int, TcpSession>, numbers: map<int, nat>, roster: seq<TcpSession>) {
    && sessions.Keys == numbers.Keys
    && (forall id <- sessions :: numbers[id] < |roster| && sessions[id] == roster[numbers[id]])
  }

  /** `emplace` does not replace an entry. */
  function Emplaced(m: map<int, nat>, id: int, r: nat): map<int, nat> {
    if id in m then m else m[id := r]
  }

  ghost predicate Distinct(sessions: map<int, TcpSession>) {
    forall i, j | i in sessions && j in sessions && i != j :: sessions[i] != sessions[j]
  }

  /** A session on which nothing has happened since it was started. */
  ghost predicate NewlyOpened(session: TcpSession)
    reads session, session.msg.raw
  {
    session.Valid() && session.model == Session.Opened(session.msg.Value(), session.tx, session.rx)
  }

  lemma JustStarted(session: TcpSession)
    requires session.Valid() && session.msg.Valid()
    requires session.model == Session.Opened(session.msg.Value(), session.tx, session.rx)
    ensures NewlyOpened(session)
  {
  }

  class TcpServer {
    const maxSession: nat
    var state: G.ServerState
    var sessions: map<int, TcpSession>
    var freeIds: seq<int>

    /** Whether Asio has been asked for an accept. */
    var accepting: bool

    /** All sessions ever opened, in order, and the state of the specification. */
    ghost var roster: seq<TcpSession>
    ghost var model: G.Registry

    ghost predicate Valid()
      reads this
    {
      && H.SoundState(model) && model.max == maxSession
      && model.state == state && model.free == freeIds && model.armed == (if accepting then 1 else 0)
      && Listed(roster, model.ids)
      && Linked(sessions, model.sessions, roster)
    }

    constructor (maxSession: nat)
      ensures Valid() && model == G.Init(maxSession) && roster == []
      ensures state.Ready? && sessions == map[] && !accepting
      ensures |freeIds| == maxSession && forall k | 0 <= k < maxSession :: freeIds[k] == k + 1
    {
      this.maxSession := maxSession;
      state := G.Ready;
      sessions := map[];
      freeIds := [];
      accepting := false;
      roster := [];
      model := G.Init(maxSession);
      new;
      for i := 0 to maxSession
        invariant freeIds == G.InitialIds(i)
        invariant |freeIds| == i && forall k | 0 <= k < i :: freeIds[k] == k + 1
        invariant state == G.Ready && sessions == map[] && !accepting && roster == []
        invariant model == G.Init(maxSession)
      {
        freeIds := freeIds + [i + 1];
      }
      H.InitialIsExact(maxSession);
      hide H.SoundState;
    }

    method StartAccept()
      requires !accepting
      modifies this`accepting
      ensures accepting
    {
      accepting := true;
    }

    /** `listen`, called once. */
    method Listen()
      requires Valid() && state.Ready?
      modifies this
      ensures Valid() && model == G.Listen(old(model)) && roster == old(roster)
    {
      H.StepInv(model, H.Start);
      assert model.armed == 0;
      hide H.SoundState;
      state := G.Started;
      StartAccept();
      model := G.Listen(model);
    }

    /** The completion handler of `async_accept`. */
    method AcceptCompleted(failed: bool) returns (session: TcpSession?)
      requires Valid() && accepting
      modifies this
      ensures Valid() && model == if failed then G.AcceptError(old(model)) else G.Accept(old(model))
      ensures session == null ==> roster == old(roster) && !accepting && sessions == old(sessions)
      ensures session != null ==> NewlyOpened(session) && roster == old(roster) + [session] && accepting
      ensures session != null ==> fresh(session) && fresh(session.msg) && fresh(session.msg.raw)
      ensures session != null <==> !failed && old(state).Started? && |old(sessions)| < maxSession
    {
      session := null;
      accepting := false;
      if failed {
        H.StepInv(model, H.AcceptFailed);
        FailedAccept(model);
        hide *;
        model := G.AcceptError(model);
        Assemble();
        return;
      }
      assert |sessions| == |model.sessions| by {
        assert |sessions| == |sessions.Keys| && |model.sessions| == |model.sessions.Keys|;
      }
      H.StepInv(model, H.Accepted);
      if state == G.Stopped || |sessions| >= maxSession {
        RefusedAccept(model);
        hide *;
        model := G.Accept(model);
        Assemble();
        return;
      }
      TakenAccept(model);
      hide *;
      session := OpenSession(G.Accept(model));
    }

    /** The accept handler below capacity; `after` is what the specification makes of it. */
    method OpenSession(ghost after: G.Registry) returns (session: TcpSession)
      requires !accepting && after.max == maxSession && after.state == state && after.armed == 1
      requires freeIds != [] && after.free == freeIds[1..]
      requires Listed(roster, model.ids) && Linked(sessions, model.sessions, roster)
      requires after.ids == model.ids + [freeIds[0]]
      requires after.sessions == Emplaced(model.sessions, freeIds[0], |model.ids|)
      requires H.SoundState(after)
      modifies this
      ensures Valid() && model == after
      ensures NewlyOpened(session) && roster == old(roster) + [session]
      ensures fresh(session) && fresh(session.msg) && fresh(session.msg.raw)
    {
      hide *;
      var id := freeIds[0];
      freeIds := freeIds[1..];
      session := new TcpSession(id);
      Register(session);
      model := after;
      session.Start();
      JustStarted(session);
      StartAccept();
      Assemble();
    }

    /** `emplace`, under the lock. */
    method Register(session: TcpSession)
      requires Listed(roster, model.ids) && Linked(sessions, model.sessions, roster) && session !in roster
      modifies this`sessions, this`roster
      ensures roster == old(roster) + [session] && Listed(roster, model.ids + [session.id])
      ensures Linked(sessions, Emplaced(model.sessions, session.id, |model.ids|), roster)
    {
      LinkedAdd(sessions, model.sessions, roster, model.ids, session);
      assert sessions.Keys == model.sessions.Keys && |roster| == |model.ids|;
      hide Listed, Linked;
      if session.id !in sessions {
        sessions := sessions[session.id := session];
      }
      roster := roster + [session];
    }

    lemma Assemble()
      requires H.SoundState(model) && model.max == maxSession
      requires model.state == state && model.free == freeIds && model.armed == (if accepting then 1 else 0)
      requires Listed(roster, model.ids) && Linked(sessions, model.sessions, roster)
      ensures Valid()
    {
      hide H.SoundState, Listed, Linked;
    }

    /** `handleClose`, called by the r-th session opened. */
    method HandleClose(session: TcpSession, ghost r: nat)
      requires Valid() && r < |roster| && roster[r] == session
      modifies this
      ensures Valid() && model == G.Close(old(model), r) && roster == old(roster)
    {
      H.CloseInv(model, r);
      H.CloseParts(model, r);
      LinkedErase(sessions, model.sessions, roster, session.id);
      assert session.id == model.ids[r];
      hide *;
      var id := session.id;
      sessions := sessions - {id};
      freeIds := freeIds + [id];
      model := G.Close(model, r);
      Assemble();
    }

    method Stop()
      requires Valid()
      modifies this
      ensures Valid() && model == G.Stop(old(model)) && roster == old(roster)
      ensures if old(state).Started? then state.Stopped? && sessions == map[] && freeIds == []
              else state == old(state) && sessions == old(sessions) && freeIds == old(freeIds)
    {
      H.StepInv(model, H.StopServer);
      assert Linked(map[], map[], roster);
      if state != G.Started {
        return;
      }
      assert G.Stop(model) == model.(state := G.Stopped, sessions := map[], free := []);
      hide *;
      sessions := map[];
      freeIds := [];
      state := G.Stopped;
      model := G.Stop(model);
      Assemble();
    }

    lemma RosterSize()
      requires Valid()
      ensures |roster| == |model.ids|
    {
      hide H.SoundState;
    }

    /** The objects in the map are distinct, and they are those of the sessions that the specification
        has registered. */
    lemma RegisteredObjects()
      requires Valid()
      ensures Distinct(sessions)
      ensures forall r: nat | r < |roster| ::
                G.Registered(model, r) <==> model.ids[r] in sessions && sessions[model.ids[r]] == roster[r]
    {
      hide G.Balance, G.Cover;
    }

    /** `getSession`: the session that the specification finds. */
    method GetSession(id: int) returns (session: TcpSession?)
      requires Valid()
      ensures var r := G.GetSession(model, id);
              if r == -1 then session == null else 0 <= r < |roster| && session == roster[r]
    {
      hide H.SoundState;
      if id in sessions {
        session := sessions[id];
      } else {
        session := null;
      }
    }
  }

  lemma LinkedAdd(sessions: map<int, TcpSession>, numbers: map<int, nat>, roster: seq<TcpSession>, ids: seq<int>,
                  session: TcpSession)
    requires Listed(roster, ids) && Linked(sessions, numbers, roster) && session !in roster
    ensures Listed(roster + [session], ids + [session.id])
    ensures Linked(sessions, numbers, roster + [session])
    ensures Linked(sessions[session.id := session], numbers[session.id := |ids|], roster + [session])
  {
  }

  lemma LinkedErase(sessions: map<int, TcpSession>, numbers: map<int, nat>, roster: seq<TcpSession>, id: int)
    requires Linked(sessions, numbers, roster)
    ensures Linked(sessions - {id}, numbers - {id}, roster)
  {
  }

  lemma FailedAccept(s: G.Registry)
    requires H.SoundState(s) && s.armed == 1
    ensures G.AcceptError(s) == s.(armed := 0)
  {
    hide G.Inv;
  }

  lemma RefusedAccept(s: G.Registry)
    requires H.SoundState(s) && s.armed == 1 && (s.state.Stopped? || |s.sessions| >= s.max)
    ensures G.Accept(s) == s.(armed := 0)
  {
    H.AcceptOutcome(s);
    hide G.GetSession, H.SoundState, G.Accept;
  }

  lemma TakenAccept(s: G.Registry)
    requires H.SoundState(s) && s.armed == 1 && !s.state.Stopped? && |s.sessions| < s.max
    ensures s.state.Started? && s.free != []
    ensures var id := s.free[0];
            G.Accept(s) == s.(free := s.free[1..], ids := s.ids + [id], reports := s.reports + [0],
                              sessions := Emplaced(s.sessions, id, |s.ids|))
  {
    H.NeverPopsEmptyList(s);
    hide G.Conserved, G.Covered;
  }
}
