/** The exchanges of Inbox, message by message: each of them is steps of a Session. */
module Replay {
  import opened Bytes
  import opened Store
  import opened Protocol
  import opened Inbox
  import Session

  ghost predicate Mirrors(s: Session.Session, a: Hub) {
    s.agent == a.state && s.now == a.now && s.toClient == a.Unread(s.own)
  }

  /** A session between operations: what is under way is what the agent's inbox and the client's queue hold. */
  ghost predicate Rests(s: Session.Session, a: Hub) {
    Mirrors(s, a) && !s.waiting && s.toAgent == a.Held(s.own)
  }

  /** All that time may change in a session. */
  ghost predicate Aside(s: Session.Session, s': Session.Session) {
    s' == s.(agent := s'.agent, now := s'.now, toClient := s'.toClient, strays := s'.strays)
  }

  lemma {:induction false} FireIsSession(a: Hub, i: nat, s: Session.Session) returns (s': Session.Session)
    requires StoreFits(a.state.store) && Due(a, i) && Mirrors(s, a)
    ensures Session.Leads(s, s') && Mirrors(s', Fired(a, i)) && Aside(s, s')
    ensures s'.strays != s.strays ==> s.own in Fired(a, i).missed
  {
    hide NoSuchSafe, Fits, ContentsFit;
    if a.state.timers[i].conn == s.own {
      var e := OnFire(s.agent, i);
      s' := s.(agent := e.state, toClient := s.toClient + e.replies,
               strays := if e.replies == [] then s.strays else s.strays + [|s.log|]);
      Session.OneStep(s, Session.FireOwn(i), s');
    } else {
      s' := s.(agent := OnFire(s.agent, i).state);
      Session.OneStep(s, Session.FireOther(i), s');
    }
  }

  lemma {:induction false} MoveIsSession(a: Hub, b: Hub, s: Session.Session) returns (s': Session.Session)
    requires StoreFits(a.state.store) && Moves(a, b) && Mirrors(s, a)
    ensures Session.Leads(s, s') && Mirrors(s', b) && Aside(s, s')
    ensures s'.strays != s.strays ==> s.own in b.missed
  {
    hide Fired, StoreFits, Session.Leads;
    if a.now <= b.now && b == a.(now := b.now) {
      s' := s.(now := b.now);
      Session.OneStep(s, Session.Tick(b.now - a.now), s');
    } else {
      var i: nat :| Due(a, i) && b == Fired(a, i);
      s' := FireIsSession(a, i, s);
    }
  }

  lemma {:induction false} StaysPut(s: Session.Session)
    ensures Session.Leads(s, s)
  {
    assert Session.Path([s], s, s);
  }

  /** Whatever time does on the agent, a session can do message by message; it notes a stray only when a
      timer of its own has missed. */
  lemma {:induction false} TimeIsSession(a: Hub, n: nat, b: Hub, s: Session.Session) returns (s': Session.Session)
    requires StoreFits(a.state.store) && ElapsedIn(a, n, b) && Mirrors(s, a)
    ensures Session.Leads(s, s') && Mirrors(s', b) && Aside(s, s')
    ensures s.own !in b.missed ==> s'.strays == s.strays
    decreases n
  {
    hide NoSuchSafe, Fits, ContentsFit, Session.Leads;
    if n == 0 {
      s' := s;
      StaysPut(s);
    } else {
      var m :| Moves(a, m) && ElapsedIn(m, n - 1, b);
      MoveAges(a, m);
      AgedIn(m, n - 1, b);
      assert StoreFits(m.state.store);
      hide Moves, ElapsedIn, Grown, Shrunk, StoreFits, Mirrors;
      var first := MoveIsSession(a, m, s);
      s' := TimeIsSession(m, n - 1, b, first);
      Session.LeadsOn(s, first, s');
    }
  }

  /** The agent handles the next request of a session. */
  lemma {:induction false} HandleIsSession(a: Hub, r: Request, s: Session.Session) returns (s': Session.Session)
    requires StoreFits(a.state.store) && Mirrors(s, a) && s.toAgent != [] && s.toAgent[0] == r
    ensures Session.Leads(s, s') && Mirrors(s', Handled(a, s.own, r))
    ensures s' == s.(agent := s'.agent, toAgent := s.toAgent[1..], toClient := s'.toClient, log := s'.log)
  {
    hide Found, NoSuchSafe, Discarded, Fits, ContentsFit;
    var e := OnRequest(s.agent, s.now, s.own, r);
    s' := s.(agent := e.state, toAgent := s.toAgent[1..], toClient := s.toClient + e.replies,
             log := if Session.ExpectsReply(r) then s.log + [Session.Exchange(r, s.agent.store, e.replies[0])] else s.log);
    Session.OneStep(s, Session.HandleNext, s');
  }

  /** What arrives and is handled changes nothing on the client's side. */
  ghost predicate AgentOnly(s: Session.Session, s': Session.Session) {
    s' == s.(agent := s'.agent, now := s'.now, toAgent := s'.toAgent, toClient := s'.toClient, log := s'.log, strays := s'.strays)
  }

  /** Time passes, and one request arrives and is handled. */
  lemma {:induction false} ArrivalIsSession(a: Hub, m: Hub, r: Request, s: Session.Session) returns (s': Session.Session)
    requires Posted(a) && Elapsed(a, m) && Mirrors(s, a) && s.toAgent != [] && s.toAgent[0] == r
    ensures StoreFits(m.state.store)
    ensures Session.Leads(s, s') && Mirrors(s', Handled(m, s.own, r))
    ensures AgentOnly(s, s') && s'.toAgent == s.toAgent[1..]
  {
    var n: nat :| ElapsedIn(a, n, m);
    ElapsedPosted(a, m);
    assert StoreFits(a.state.store) && StoreFits(m.state.store);
    hide Posted, ElapsedIn, Elapsed, Handled, StoreFits, Mirrors, Session.Leads;
    var first := TimeIsSession(a, n, m, s);
    s' := HandleIsSession(m, r, first);
    Session.LeadsOn(s, first, s');
  }

  lemma {:induction false} DeliveredIsSession(a: Hub, q: seq<Request>, b: Hub, s: Session.Session, rest: seq<Request>)
    returns (s': Session.Session)
    requires Posted(a) && ProperList(q) && Delivered(a, s.own, q, b) && Mirrors(s, a) && s.toAgent == q + rest
    ensures Session.Leads(s, s') && Mirrors(s', b) && AgentOnly(s, s') && s'.toAgent == rest
    decreases |q|
  {
    hide Mirrors, Genuine, Proper, Session.Leads, AllProper, StoreFits, Posted, Handled;
    if q == [] {
      s' := NothingIsSession(a, b, s, rest);
    } else {
      var m :| Elapsed(a, m) && StoreFits(m.state.store) && Delivered(Handled(m, s.own, q[0]), s.own, q[1..], b);
      hide Elapsed, Delivered;
      ElapsedPosted(a, m);
      HandledPosted(m, s.own, q[0]);
      var first := ArrivalIsSession(a, m, q[0], s);
      CutBehind([q[0]], q[1..] + rest, 0);
      assert s.toAgent == [q[0]] + (q[1..] + rest);
      s' := DeliveredIsSession(Handled(m, s.own, q[0]), q[1..], b, first, rest);
      Session.LeadsOn(s, first, s');
    }
  }

  lemma {:induction false} NothingIsSession(a: Hub, b: Hub, s: Session.Session, rest: seq<Request>) returns (s': Session.Session)
    requires Posted(a) && Delivered(a, s.own, [], b) && Mirrors(s, a) && s.toAgent == [] + rest
    ensures Session.Leads(s, s') && Mirrors(s', b) && AgentOnly(s, s') && s'.toAgent == rest
  {
    hide Session.Leads;
    PostedFits(a);
    var n: nat :| ElapsedIn(a, n, b);
    assert [] + rest == rest;
    s' := TimeIsSession(a, n, b, s);
  }

  /** The client's step when it sends a request behind what it holds, and when that fails. */
  function Sending(s: Session.Session, r: Request): Session.Session {
    s.(toAgent := s.toAgent + [r], waiting := Session.ExpectsReply(r),
       asked := if Session.ExpectsReply(r) then s.asked + [r] else s.asked)
  }

  function Failing(s: Session.Session, r: Request): Session.Session {
    s.(toAgent := s.toAgent + [r],
       asked := if Session.ExpectsReply(r) then s.asked + [r] else s.asked,
       gaveUp := if Session.ExpectsReply(r) then s.gaveUp + [|s.asked|] else s.gaveUp)
  }

  lemma {:induction false} ClientSends(s: Session.Session, r: Request)
    requires StoreFits(s.agent.store) && !s.waiting && r.Valid() && !r.Malformed?
    ensures Session.Leads(s, Sending(s, r)) && Session.Leads(s, Failing(s, r))
  {
    Session.OneStep(s, Session.Send(r), Sending(s, r));
    Session.OneStep(s, Session.SendFails(r), Failing(s, r));
  }

  /** The flush of a send, message by message: what was held arrives, and the request is next. */
  lemma {:induction false} FlushIsSession(a: Hub, met: Hub, r: Request, s: Session.Session) returns (s': Session.Session)
    requires Posted(a) && Flushed(a, s.own, met) && Rests(s, a) && r.Valid() && !r.Malformed?
    ensures Session.Leads(s, s') && Mirrors(s', met) && s'.toAgent == [r]
    ensures AgentOnly(Sending(s, r), s')
  {
    HeldProper(a, s.own);
    PostedFits(a);
    hide Posted, Delivered, Session.Leads, StoreFits, ProperList;
    var m :| Delivered(a, s.own, a.Held(s.own), m) && met == Emptied(m, s.own);
    ClientSends(s, r);
    s' := DeliveredIsSession(a, a.Held(s.own), m, Sending(s, r), [r]);
    Session.LeadsOn(s, Sending(s, r), s');
  }

  /** A question of the safe layer is steps of a session: the client sends the request, what was held
      arrives before it, the agent handles them, and the client receives the first reply under way. */
  lemma {:induction false} AskIsSession(a: Hub, met: Hub, r: Request, s: Session.Session) returns (s': Session.Session)
    requires Posted(a) && Flushed(a, s.own, met) && Rests(s, a) && Session.ExpectsReply(r) && r.Valid()
    ensures StoreFits(met.state.store)
    ensures var x := Asked(met, s.own, r);
            && Session.Leads(s, s') && Rests(s', x.1)
            && s'.received == s.received + [x.0] && s'.takenFor == s.takenFor + [|s.asked|]
            && s'.asked == s.asked + [r] && s'.gaveUp == s.gaveUp
  {
    FlushedPosted(a, s.own, met);
    var sent := FlushIsSession(a, met, r, s);
    hide Posted, Flushed, Rests;
    var handled := HandleIsSession(met, r, sent);
    Session.LeadsOn(s, sent, handled);
    hide Session.Leads;
    s' := ReceiveIsSession(met, r, handled);
    Session.LeadsOn(s, handled, s');
    assert Rests(s', Asked(met, s.own, r).1) by { AskedRests(met, r, s'); }
  }

  lemma {:induction false} ReceiveIsSession(met: Hub, r: Request, s: Session.Session) returns (s': Session.Session)
    requires StoreFits(met.state.store) && Session.ExpectsReply(r)
    requires Mirrors(s, Handled(met, s.own, r)) && s.waiting && s.asked != [] && s.toAgent == []
    ensures var x := Asked(met, s.own, r);
            && Session.Leads(s, s') && Mirrors(s', x.1) && !s'.waiting && s'.toAgent == []
            && s' == s.(toClient := s'.toClient, waiting := false, received := s.received + [x.0], takenFor := s.takenFor + [|s.asked| - 1])
  {
    hide Found, NoSuchSafe, Discarded, Fits, ContentsFit;
    RequestFits(met, s.own, r);
    s' := s.(toClient := s.toClient[1..], waiting := false, received := s.received + [s.toClient[0]],
             takenFor := s.takenFor + [|s.asked| - 1]);
    Session.OneStep(s, Session.Receive, s');
  }

  lemma {:induction false} RequestFits(a: Hub, conn: nat, r: Request)
    requires StoreFits(a.state.store) && Session.ExpectsReply(r)
    ensures StoreFits(Handled(a, conn, r).state.store)
  {
  }

  lemma {:induction false} AskedRests(met: Hub, r: Request, s: Session.Session)
    requires StoreFits(met.state.store) && Session.ExpectsReply(r) && met.Held(s.own) == []
    requires Mirrors(s, Asked(met, s.own, r).1) && !s.waiting && s.toAgent == []
    ensures Rests(s, Asked(met, s.own, r).1)
  {
  }

  /** And so is a question that fails: the client gives it up, before or after it has been sent. */
  lemma {:induction false} FailIsSession(a: Hub, r: Request, b: Hub, s: Session.Session) returns (s': Session.Session)
    requires Posted(a) && Fails(a, s.own, r, b) && Rests(s, a) && Session.ExpectsReply(r) && r.Valid()
    ensures Session.Leads(s, s') && Rests(s', b) && s'.received == s.received
    ensures s'.asked == s.asked + [r] && s'.gaveUp == s.gaveUp + [|s.asked|]
  {
    hide Posted, Flushed, Stuck, Rests, Session.Leads;
    if Stuck(a, s.own, r, b) {
      s' := StuckIsSession(a, r, b, s);
    } else {
      var met :| Flushed(a, s.own, met) && StoreFits(met.state.store) && b == Abandoned(met, s.own, r);
      s' := AbandonIsSession(a, met, r, s);
    }
  }

  lemma {:induction false} SplitBehind<T>(q: seq<T>, k: nat, r: T)
    requires k <= |q|
    ensures q + [r] == q[..k] + (q[k..] + [r])
  {
    assert q == q[..k] + q[k..];
  }

  lemma {:induction false} StuckRests(m: Hub, left: seq<Request>, s: Session.Session)
    requires Mirrors(s, m) && !s.waiting && s.toAgent == left
    ensures Rests(s, Stalled(m, s.own, left))
  {
  }

  lemma {:induction false} StuckAt(a: Hub, k: nat, m: Hub, r: Request, s: Session.Session) returns (s': Session.Session)
    requires Posted(a) && k <= |a.Held(s.own)| && Delivered(a, s.own, a.Held(s.own)[..k], m) && Rests(s, a)
    requires r.Valid() && !r.Malformed?
    ensures Session.Leads(s, s') && Rests(s', Stalled(m, s.own, a.Held(s.own)[k..] + [r]))
    ensures s'.received == s.received && s'.asked == Failing(s, r).asked && s'.gaveUp == Failing(s, r).gaveUp
  {
    HeldProper(a, s.own);
    PostedFits(a);
    var q, done, left := a.Held(s.own), a.Held(s.own)[..k], a.Held(s.own)[k..] + [r];
    assert ProperList(done);
    SplitBehind(q, k, r);
    assert Mirrors(Failing(s, r), a) && Failing(s, r).toAgent == done + left;
    hide Posted, Delivered, Session.Leads, StoreFits, Proper, ProperList, Mirrors, Rests;
    assert !s.waiting;
    ClientSends(s, r);
    s' := DeliveredIsSession(a, done, m, Failing(s, r), left);
    Session.LeadsOn(s, Failing(s, r), s');
    StuckRests(m, left, s');
  }

  lemma {:induction false} StuckIsSession(a: Hub, r: Request, b: Hub, s: Session.Session) returns (s': Session.Session)
    requires Posted(a) && Stuck(a, s.own, r, b) && Rests(s, a) && r.Valid() && !r.Malformed?
    ensures Session.Leads(s, s') && Rests(s', b) && s'.received == s.received
    ensures s'.asked == Failing(s, r).asked && s'.gaveUp == Failing(s, r).gaveUp
  {
    hide Posted, Delivered, Session.Leads, Rests, Stalled;
    var q := a.Held(s.own);
    var k: nat, m :| k <= |q| && Delivered(a, s.own, q[..k], m) && b == Stalled(m, s.own, q[k..] + [r]);
    s' := StuckAt(a, k, m, r, s);
  }

  lemma {:induction false} GiveUpIsSession(met: Hub, r: Request, s: Session.Session) returns (s': Session.Session)
    requires StoreFits(met.state.store) && Session.ExpectsReply(r) && met.Held(s.own) == []
    requires Mirrors(s, Handled(met, s.own, r)) && s.waiting && s.asked != [] && s.toAgent == []
    ensures Session.Leads(s, s') && Rests(s', Abandoned(met, s.own, r))
    ensures s' == s.(waiting := false, gaveUp := s.gaveUp + [|s.asked| - 1])
  {
    RequestFits(met, s.own, r);
    hide StoreFits, OnRequest;
    s' := s.(waiting := false, gaveUp := s.gaveUp + [|s.asked| - 1]);
    Session.OneStep(s, Session.GiveUp, s');
  }

  lemma {:induction false} AbandonIsSession(a: Hub, met: Hub, r: Request, s: Session.Session) returns (s': Session.Session)
    requires Posted(a) && Flushed(a, s.own, met) && Rests(s, a) && Session.ExpectsReply(r) && r.Valid()
    ensures StoreFits(met.state.store)
    ensures Session.Leads(s, s') && Rests(s', Abandoned(met, s.own, r)) && s'.received == s.received
    ensures s'.asked == s.asked + [r] && s'.gaveUp == s.gaveUp + [|s.asked|]
  {
    FlushedPosted(a, s.own, met);
    PostedFits(met);
    hide Posted, Flushed, StoreFits, Session.Leads, Handled, Abandoned;
    var sent := FlushIsSession(a, met, r, s);
    var handled := HandleIsSession(met, r, sent);
    s' := GiveUpIsSession(met, r, handled);
    Session.LeadsOn(s, sent, handled);
    Session.LeadsOn(s, handled, s');
  }

  /** A store, sent and handled. (One that fails is StuckIsSession.) */
  lemma {:induction false} StoreIsSession(a: Hub, met: Hub, u: Unsafe, s: Session.Session) returns (s': Session.Session)
    requires Posted(a) && Flushed(a, s.own, met) && Rests(s, a) && u.Sized() && u.AllTerminated()
    ensures Session.Leads(s, s') && Rests(s', Stored(met, s.own, CStr(u.name), u.Value(), u.timeout))
    ensures s'.received == s.received && s'.asked == s.asked && s'.gaveUp == s.gaveUp
  {
    FlushedPosted(a, s.own, met);
    PostedFits(met);
    hide Posted, Flushed, Session.Leads, StoreFits;
    var arrived := FlushIsSession(a, met, StoreReq(u), s);
    hide Rests;
    s' := HandleIsSession(met, StoreReq(u), arrived);
    Session.LeadsOn(s, arrived, s');
    StoreRests(met, u, s');
  }

  lemma {:induction false} StoreRests(met: Hub, u: Unsafe, s: Session.Session)
    requires StoreFits(met.state.store) && u.AllTerminated() && met.Held(s.own) == []
    requires Mirrors(s, Handled(met, s.own, StoreReq(u))) && !s.waiting && s.toAgent == []
    ensures Rests(s, Stored(met, s.own, CStr(u.name), u.Value(), u.timeout))
  {
    StoredIsOnStore(met, s.own, u);
    assert met.Unread(s.own) + [] == met.Unread(s.own);
  }
}
