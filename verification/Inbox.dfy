/** The agent as its clients reach it: its state and clock, and for every connection the replies that its
    client has not read yet. Session has the same exchange message by message. */
module Inbox {
  import opened Bytes
  import opened Store
  import opened Protocol
  import Session

  /** For every connection the replies that its client has not read, and the requests whose frames a
      failed send has left queued at the client. Two histories: the connections of timers that fired for
      an absent name, and those on which a send or a receive has failed. */
  datatype Hub = Hub(state: State, now: int, inbox: map<nat, seq<Reply>>, missed: set<nat>,
                     outbox: map<nat, seq<Request>>, failed: set<nat>)
  {
    function Unread(conn: nat): seq<Reply> {
      if conn in inbox then inbox[conn] else []
    }

    function Held(conn: nat): seq<Request> {
      if conn in outbox then outbox[conn] else []
    }
  }

  /** An agent nobody has talked to. */
  function Fresh(state: State, now: int): Hub {
    Hub(state, now, map[], {}, map[], {})
  }

  // ---- The agent left to itself: time passes, and timers fire ----

  ghost predicate Due(a: Hub, i: nat) {
    i < |a.state.timers| && a.state.timers[i].deadline <= a.now
  }

  /** A timer fires; when its name is absent, an error goes out on its connection. */
  function Fired(a: Hub, i: nat): Hub
    requires i < |a.state.timers|
  {
    var conn, e := a.state.timers[i].conn, OnFire(a.state, i);
    a.(state := e.state, inbox := a.inbox[conn := a.Unread(conn) + e.replies],
       missed := if e.replies == [] then a.missed else a.missed + {conn})
  }

  ghost predicate Moves(a: Hub, b: Hub) {
    (a.now <= b.now && b == a.(now := b.now)) || exists i: nat :: Due(a, i) && b == Fired(a, i)
  }

  ghost predicate ElapsedIn(a: Hub, n: nat, b: Hub)
    decreases n
  {
    if n == 0 then a == b else exists m :: Moves(a, m) && ElapsedIn(m, n - 1, b)
  }

  ghost predicate Elapsed(a: Hub, b: Hub) {
    exists n: nat :: ElapsedIn(a, n, b)
  }

  lemma {:induction false} ElapsedRefl(a: Hub)
    ensures Elapsed(a, a)
  {
    assert ElapsedIn(a, 0, a);
  }

  lemma {:induction false} ElapsedSum(a: Hub, n: nat, b: Hub, k: nat, c: Hub)
    requires ElapsedIn(a, n, b) && ElapsedIn(b, k, c)
    ensures ElapsedIn(a, n + k, c)
    decreases n
  {
    if n > 0 {
      var m :| Moves(a, m) && ElapsedIn(m, n - 1, b);
      ElapsedSum(m, n - 1, b, k, c);
    }
  }

  lemma {:induction false} ElapsedTrans(a: Hub, b: Hub, c: Hub)
    requires Elapsed(a, b) && Elapsed(b, c)
    ensures Elapsed(a, c)
  {
    var n: nat :| ElapsedIn(a, n, b);
    var k: nat :| ElapsedIn(b, k, c);
    ElapsedSum(a, n, b, k, c);
  }

  lemma {:induction false} ElapsedMore(a: Hub, b: Hub, c: Hub)
    requires Elapsed(a, b) && Moves(b, c)
    ensures Elapsed(a, c)
  {
    assert ElapsedIn(c, 0, c);
    assert ElapsedIn(b, 1, c);
    ElapsedTrans(a, b, c);
  }

  // ---- What time can do to the store and the timers ----

  /** Entries only go, and only with a timer of their name. */
  ghost predicate Shrunk(a: State, a': State) {
    && a'.store.Keys <= a.store.Keys
    && (forall n :: n in a'.store ==> a'.store[n] == a.store[n])
    && multiset(a'.timers) <= multiset(a.timers)
    && (forall n :: n in a.store && n !in a'.store ==>
          exists t: Timer :: t.name == n && multiset(a'.timers)[t] < multiset(a.timers)[t])
  }

  lemma {:induction false} ShrunkTrans(a: State, b: State, c: State)
    requires Shrunk(a, b) && Shrunk(b, c)
    ensures Shrunk(a, c)
  {
    forall n | n in a.store && n !in c.store
      ensures exists t: Timer :: t.name == n && multiset(c.timers)[t] < multiset(a.timers)[t]
    {
      if n in b.store {
        var t: Timer :| t.name == n && multiset(c.timers)[t] < multiset(b.timers)[t];
        assert multiset(c.timers)[t] < multiset(a.timers)[t];
      } else {
        var t: Timer :| t.name == n && multiset(b.timers)[t] < multiset(a.timers)[t];
        assert multiset(c.timers)[t] < multiset(a.timers)[t];
      }
    }
  }

  lemma {:induction false} FiringShrinks(a: State, i: nat)
    requires i < |a.timers|
    ensures Shrunk(a, OnFire(a, i).state)
    ensures multiset(OnFire(a, i).state.timers) != multiset(a.timers)
  {
    var t, a' := a.timers[i], OnFire(a, i).state;
    Without(a.timers, i);
    assert t.name == a.timers[i].name && multiset(a'.timers)[t] < multiset(a.timers)[t];
  }

  // ---- What time can do to the inboxes ----

  /** On one connection: only errors arrive, and some did exactly when a timer of the connection missed. */
  ghost predicate Grown(a: Hub, b: Hub, conn: nat) {
    && a.Unread(conn) <= b.Unread(conn)
    && (forall k :: |a.Unread(conn)| <= k < |b.Unread(conn)| ==> b.Unread(conn)[k] == NoSuchSafe())
    && (conn !in b.missed ==> b.Unread(conn) == a.Unread(conn))
    && (conn in b.missed && conn !in a.missed ==> b.Unread(conn) != a.Unread(conn))
  }

  ghost predicate Aged(a: Hub, b: Hub) {
    && Shrunk(a.state, b.state) && a.now <= b.now && a.missed <= b.missed
    && b.outbox == a.outbox && b.failed == a.failed
    && (forall conn :: Grown(a, b, conn))
    && (multiset(b.state.timers) == multiset(a.state.timers) ==> b == a.(now := b.now))
  }

  lemma {:induction false} FiredGrows(a: Hub, i: nat, conn: nat)
    requires i < |a.state.timers|
    ensures Grown(a, Fired(a, i), conn)
  {
    var t, e := a.state.timers[i], OnFire(a.state, i);
    hide NoSuchSafe;
    assert Fired(a, i).Unread(conn) == if conn == t.conn then a.Unread(conn) + e.replies else a.Unread(conn);
  }

  lemma {:induction false} TickAges(a: Hub, now: int)
    requires a.now <= now
    ensures Aged(a, a.(now := now))
  {
    hide NoSuchSafe;
    assert forall conn :: a.(now := now).Unread(conn) == a.Unread(conn);
  }

  lemma {:induction false} FireAges(a: Hub, i: nat)
    requires i < |a.state.timers|
    ensures Aged(a, Fired(a, i))
  {
    FiringShrinks(a.state, i);
    hide Grown, Shrunk, NoSuchSafe;
    forall conn ensures Grown(a, Fired(a, i), conn) {
      FiredGrows(a, i, conn);
    }
  }

  lemma {:induction false} MoveAges(a: Hub, b: Hub)
    requires Moves(a, b)
    ensures Aged(a, b)
  {
    hide Aged, Fired;
    if a.now <= b.now && b == a.(now := b.now) {
      TickAges(a, b.now);
    } else {
      var i: nat :| Due(a, i) && b == Fired(a, i);
      FireAges(a, i);
    }
  }

  lemma {:induction false} AgedTrans(a: Hub, b: Hub, c: Hub)
    requires Aged(a, b) && Aged(b, c)
    ensures Aged(a, c)
  {
    ShrunkTrans(a.state, b.state, c.state);
    forall conn ensures Grown(a, c, conn) {
      assert Grown(a, b, conn) && Grown(b, c, conn);
      var u, v := b.Unread(conn), c.Unread(conn);
      assert forall k :: |a.Unread(conn)| <= k < |u| ==> v[k] == u[k];
    }
    if multiset(c.state.timers) == multiset(a.state.timers) {
      assert multiset(b.state.timers) == multiset(a.state.timers);
    }
  }

  lemma {:induction false} AgedIn(a: Hub, n: nat, b: Hub)
    requires ElapsedIn(a, n, b)
    ensures Aged(a, b)
    decreases n
  {
    if n == 0 {
      MoveAges(a, a);
    } else {
      var m :| Moves(a, m) && ElapsedIn(m, n - 1, b);
      hide Aged, Moves;
      MoveAges(a, m);
      AgedIn(m, n - 1, b);
      AgedTrans(a, m, b);
    }
  }

  /** Whatever time does: entries only go, and only with a timer of their name; only errors arrive, and
      on a connection some arrive exactly when a timer of it missed; and when no timer fired, nothing but
      the clock has changed. */
  lemma {:induction false} Ages(a: Hub, b: Hub)
    requires Elapsed(a, b)
    ensures Aged(a, b)
  {
    var n: nat :| ElapsedIn(a, n, b);
    AgedIn(a, n, b);
  }

  // ---- Questions and stores ----

  /** A search or a discard: the agent handles it and its reply joins the unread ones; the client reads
      the first of them. */
  function Asked(a: Hub, conn: nat, r: Request): (x: (Reply, Hub))
    requires StoreFits(a.state.store) && Session.ExpectsReply(r)
  {
    var e := OnRequest(a.state, a.now, conn, r);
    var stream := a.Unread(conn) + e.replies;
    (stream[0], a.(state := e.state, inbox := a.inbox[conn := stream[1..]]))
  }

  /** A request handled by the agent; if it has a reply, the client has not read that yet. */
  function Handled(a: Hub, conn: nat, r: Request): Hub
    requires StoreFits(a.state.store)
  {
    var e := OnRequest(a.state, a.now, conn, r);
    a.(state := e.state, inbox := a.inbox[conn := a.Unread(conn) + e.replies])
  }

  /** A store of contents that fit. */
  function Stored(a: Hub, conn: nat, name: Name, c: Contents, timeout: int): Hub {
    a.(state := State(a.state.store[name := c],
                      if timeout > 0 then a.state.timers + [Timer(name, a.now + timeout, conn)] else a.state.timers))
  }

  // ---- Sending ----

  /** Frames arrive in order and are handled one by one, with time passing in between. */
  ghost predicate Delivered(a: Hub, conn: nat, q: seq<Request>, b: Hub)
    decreases |q|
  {
    if q == [] then Elapsed(a, b)
    else exists m :: Elapsed(a, m) && StoreFits(m.state.store) && Delivered(Handled(m, conn, q[0]), conn, q[1..], b)
  }

  function Emptied(a: Hub, conn: nat): Hub {
    if a.Held(conn) == [] then a else a.(outbox := a.outbox[conn := []])
  }

  /** A send that succeeds: its flush empties the queue, so that everything held arrives first. What
      follows it is the request itself, on the agent as it then is. */
  ghost predicate Flushed(a: Hub, conn: nat, b: Hub) {
    exists m :: Delivered(a, conn, a.Held(conn), m) && b == Emptied(m, conn)
  }

  /** Frames of q left queued on a connection. */
  function Stalled(a: Hub, conn: nat, q: seq<Request>): Hub {
    a.(outbox := a.outbox[conn := q], failed := a.failed + {conn})
  }

  /** A send that fails: some of what was held has arrived, the rest and the request stay queued. */
  ghost predicate Stuck(a: Hub, conn: nat, r: Request, b: Hub) {
    exists k: nat, m :: k <= |a.Held(conn)| && Delivered(a, conn, a.Held(conn)[..k], m)
                        && b == Stalled(m, conn, a.Held(conn)[k..] + [r])
  }

  /** A question sent whose answer is given up on: it stays to be read. */
  function Abandoned(a: Hub, conn: nat, r: Request): Hub
    requires StoreFits(a.state.store)
  {
    var b := Handled(a, conn, r);
    b.(failed := b.failed + {conn})
  }

  /** A question that fails, in its send or in its receive. */
  ghost predicate Fails(a: Hub, conn: nat, r: Request, b: Hub) {
    Stuck(a, conn, r, b) || exists m :: Flushed(a, conn, m) && StoreFits(m.state.store) && b == Abandoned(m, conn, r)
  }

  lemma {:induction false} NothingHeld(a: Hub, conn: nat, b: Hub)
    requires a.Held(conn) == [] && Flushed(a, conn, b)
    ensures Elapsed(a, b)
  {
    var m :| Delivered(a, conn, a.Held(conn), m) && b == Emptied(m, conn);
    Ages(a, m);
  }

  lemma {:induction false} FlushedAtOnce(a: Hub, conn: nat)
    requires a.Held(conn) == []
    ensures Flushed(a, conn, a)
  {
    ElapsedRefl(a);
    assert Delivered(a, conn, [], a);
    assert a == Emptied(a, conn);
  }

  /** Delivery changes neither what is queued nor the record of failures. */
  lemma {:induction false} DeliveredKeeps(a: Hub, conn: nat, q: seq<Request>, b: Hub)
    requires Delivered(a, conn, q, b)
    ensures b.outbox == a.outbox && b.failed == a.failed && a.missed <= b.missed
    decreases |q|
  {
    hide Elapsed, Shrunk, Grown, StoreFits;
    if q == [] {
      Ages(a, b);
    } else {
      var m :| Elapsed(a, m) && StoreFits(m.state.store) && Delivered(Handled(m, conn, q[0]), conn, q[1..], b);
      Ages(a, m);
      DeliveredKeeps(Handled(m, conn, q[0]), conn, q[1..], b);
    }
  }

  lemma {:induction false} FlushedKeeps(a: Hub, conn: nat, b: Hub)
    requires Flushed(a, conn, b)
    ensures b.failed == a.failed && a.missed <= b.missed && b.Held(conn) == []
  {
    hide Delivered;
    var m :| Delivered(a, conn, a.Held(conn), m) && b == Emptied(m, conn);
    DeliveredKeeps(a, conn, a.Held(conn), m);
  }

  lemma {:induction false} StuckKeeps(a: Hub, conn: nat, r: Request, b: Hub)
    requires Stuck(a, conn, r, b)
    ensures b.failed == a.failed + {conn} && a.missed <= b.missed
  {
    hide Delivered;
    var q := a.Held(conn);
    var k: nat, m :| k <= |q| && Delivered(a, conn, q[..k], m) && b == Stalled(m, conn, q[k..] + [r]);
    DeliveredKeeps(a, conn, q[..k], m);
  }

  lemma {:induction false} FailsKeeps(a: Hub, conn: nat, r: Request, b: Hub)
    requires Fails(a, conn, r, b)
    ensures b.failed == a.failed + {conn} && a.missed <= b.missed
  {
    hide Stuck, Flushed, StoreFits;
    if Stuck(a, conn, r, b) {
      StuckKeeps(a, conn, r, b);
    } else {
      var m :| Flushed(a, conn, m) && StoreFits(m.state.store) && b == Abandoned(m, conn, r);
      FlushedKeeps(a, conn, m);
    }
  }

  lemma {:induction false} DeliveredLater(a: Hub, conn: nat, q: seq<Request>, m: Hub, b: Hub)
    requires Delivered(a, conn, q, m) && Elapsed(m, b)
    ensures Delivered(a, conn, q, b)
    decreases |q|
  {
    if q == [] {
      ElapsedTrans(a, m, b);
    } else {
      var first :| Elapsed(a, first) && StoreFits(first.state.store)
                   && Delivered(Handled(first, conn, q[0]), conn, q[1..], m);
      hide Elapsed, Handled, StoreFits;
      DeliveredLater(Handled(first, conn, q[0]), conn, q[1..], m, b);
    }
  }

  lemma {:induction false} DeliveredNone(a: Hub, conn: nat, b: Hub)
    requires Elapsed(a, b)
    ensures Delivered(a, conn, [], b) && b.outbox == a.outbox
  {
    Ages(a, b);
  }

  lemma {:induction false} DeliveredOne(a: Hub, conn: nat, m: Hub, r: Request)
    requires Elapsed(a, m) && StoreFits(m.state.store)
    ensures Delivered(a, conn, [r], Handled(m, conn, r))
  {
    var b := Handled(m, conn, r);
    ElapsedRefl(b);
    hide Elapsed, Handled, StoreFits;
    assert Delivered(b, conn, [], b);
    assert [r][1..] == [];
  }

  lemma {:induction false} DeliveredOneMore(a: Hub, conn: nat, q: seq<Request>, m: Hub, r: Request)
    requires Delivered(a, conn, q, m) && StoreFits(m.state.store)
    ensures Delivered(a, conn, q + [r], Handled(m, conn, r))
    decreases |q|
  {
    hide Elapsed, Handled, StoreFits;
    if q == [] {
      DeliveredOne(a, conn, m, r);
      assert q + [r] == [r];
    } else {
      var first :| Elapsed(a, first) && StoreFits(first.state.store)
                   && Delivered(Handled(first, conn, q[0]), conn, q[1..], m);
      DeliveredOneMore(Handled(first, conn, q[0]), conn, q[1..], m, r);
      assert (q + [r])[0] == q[0] && (q + [r])[1..] == q[1..] + [r];
    }
  }

  lemma {:induction false} DeliveredNext(a: Hub, conn: nat, q: seq<Request>, m: Hub, r: Request, b: Hub)
    requires Delivered(a, conn, q, m) && StoreFits(m.state.store) && Elapsed(Handled(m, conn, r), b)
    ensures Delivered(a, conn, q + [r], b)
  {
    hide Delivered, Elapsed, Handled, StoreFits;
    DeliveredOneMore(a, conn, q, m, r);
    DeliveredLater(a, conn, q + [r], Handled(m, conn, r), b);
  }

  /** Exactly when an answer is the question's own: with nothing unread before the question. Otherwise
      the client reads the oldest reply it had left unread, its own answer becomes the newest one, and
      as many as before stay unread, so that the next question fares no better. */
  lemma {:induction false} OwnAnswer(a: Hub, conn: nat, r: Request)
    requires StoreFits(a.state.store) && Session.ExpectsReply(r)
    ensures var x := Asked(a, conn, r);
            var own := Session.Deserved(a.state.store, r);
            && [x.0] + x.1.Unread(conn) == a.Unread(conn) + [own]
            && (a.Unread(conn) == [] ==> x.0 == own)
            && (a.Unread(conn) == [] <==> x.1.Unread(conn) == [])
            && (a.Unread(conn) != [] ==> x.0 == a.Unread(conn)[0] && x.1.Unread(conn)[|x.1.Unread(conn)| - 1] == own)
            && forall other :: other != conn ==> x.1.Unread(other) == a.Unread(other)
  {
  }

  // ---- What may be waiting in an inbox ----

  /** The replies that an agent sends. */
  ghost predicate Genuine(r: Reply) {
    r == Discarded() || r == NoSuchSafe()
    || exists n, c :: Fits(n, PATH_MAX) && ContentsFit(c) && r == Found(n, c)
  }

  /** The requests that a client of the safe layer sends. */
  predicate Proper(r: Request) {
    r.Valid() && !r.Malformed? && (r.StoreReq? ==> r.u.AllTerminated())
  }

  ghost predicate ProperList(q: seq<Request>) {
    forall k :: 0 <= k < |q| ==> Proper(q[k])
  }

  ghost predicate AllProper(outbox: map<nat, seq<Request>>) {
    forall conn :: conn in outbox ==> ProperList(outbox[conn])
  }

  ghost predicate Posted(a: Hub) {
    && StoreFits(a.state.store)
    && (forall conn, k :: 0 <= k < |a.Unread(conn)| ==> Genuine(a.Unread(conn)[k]))
    && AllProper(a.outbox)
  }

  lemma {:induction false} PostedFits(a: Hub)
    requires Posted(a)
    ensures StoreFits(a.state.store)
  {
  }

  /** A reply that a search takes for a found safe, and the structure that is read out of it. */
  predicate Serves(r: Reply) {
    r.typ == MSG_SEARCH && |r.data| == UNSAFE_SIZE
  }

  function Served(r: Reply): (u: Unsafe)
    requires Serves(r)
    ensures u.Sized()
  {
    DecodeUnsafe(r.data)
  }

  /** A reply that a discard takes for its success. */
  predicate Confirms(r: Reply) {
    r.typ == MSG_DISCARD && |r.data| == 1
  }

  /** What a client reads out of the answer to a search that found a safe. */
  lemma {:induction false} FoundServes(name: Name, c: Contents)
    requires Fits(name, PATH_MAX) && ContentsFit(c)
    ensures Serves(Found(name, c)) && !Confirms(Found(name, c))
    ensures var u := Served(Found(name, c));
            u.timeout == -1 && u.AllTerminated() && CStr(u.name) == name && u.Value() == c
  {
    FillReads(-1, name, c);
    UnsafeDecodes(Fill(-1, name, c));
  }

  lemma {:induction false} GenuineServes(r: Reply)
    requires Genuine(r) && Serves(r)
    ensures var u := Served(r);
            && u.timeout == -1 && u.AllTerminated() && Fits(CStr(u.name), PATH_MAX) && ContentsFit(u.Value())
            && r == Found(CStr(u.name), u.Value())
  {
    hide Found;
    var n, c :| Fits(n, PATH_MAX) && ContentsFit(c) && r == Found(n, c);
    FoundServes(n, c);
  }

  lemma {:induction false} DeservedGenuine(store: map<Name, Contents>, r: Request)
    requires StoreFits(store) && Session.ExpectsReply(r)
    ensures Genuine(Session.Deserved(store, r))
    ensures r.SearchReq? ==> (Serves(Session.Deserved(store, r)) <==> r.name in store)
    ensures r.DiscardReq? ==> (Confirms(Session.Deserved(store, r)) <==> r.name in store)
  {
    if r.SearchReq? && r.name in store {
      FoundServes(r.name, store[r.name]);
      hide Found;
    }
  }

  lemma {:induction false} ElapsedPosted(a: Hub, b: Hub)
    requires Posted(a) && Elapsed(a, b)
    ensures Posted(b)
  {
    Ages(a, b);
    hide Found, NoSuchSafe, Discarded, Elapsed, AllProper;
    forall conn, k | 0 <= k < |b.Unread(conn)| ensures Genuine(b.Unread(conn)[k]) {
      assert Grown(a, b, conn);
      if k < |a.Unread(conn)| {
        assert b.Unread(conn)[k] == a.Unread(conn)[k];
      }
    }
  }

  lemma {:induction false} AskedPosted(a: Hub, conn: nat, r: Request)
    requires Posted(a) && Session.ExpectsReply(r)
    ensures Posted(Asked(a, conn, r).1) && Genuine(Asked(a, conn, r).0)
  {
    DeservedGenuine(a.state.store, r);
    OwnAnswer(a, conn, r);
    var x, own := Asked(a, conn, r), Session.Deserved(a.state.store, r);
    hide Genuine, AllProper, Session.Deserved, OnRequest, Asked, StoreFits;
    var stream := a.Unread(conn) + [own];
    assert forall k :: 0 <= k < |stream| ==> Genuine(stream[k]);
    assert x.0 == stream[0];
    forall c, k | 0 <= k < |x.1.Unread(c)| ensures Genuine(x.1.Unread(c)[k]) {
      if c == conn {
        assert x.1.Unread(c)[k] == stream[k + 1];
      }
    }
  }

  lemma {:induction false} RepliesGenuine(state: State, now: int, conn: nat, r: Request)
    requires StoreFits(state.store) && Proper(r)
    ensures var e := OnRequest(state, now, conn, r);
            StoreFits(e.state.store) && forall k :: 0 <= k < |e.replies| ==> Genuine(e.replies[k])
  {
    RequestKeepsFits(state, now, conn, r);
    if !r.StoreReq? {
      DeservedGenuine(state.store, r);
    }
    hide Genuine;
  }

  lemma {:induction false} HandledPosted(a: Hub, conn: nat, r: Request)
    requires Posted(a) && Proper(r)
    ensures Posted(Handled(a, conn, r))
    ensures forall c :: a.Unread(c) <= Handled(a, conn, r).Unread(c)
  {
    RepliesGenuine(a.state, a.now, conn, r);
    var replies := OnRequest(a.state, a.now, conn, r).replies;
    hide Genuine, Proper, OnRequest, StoreFits, AllProper;
    var b := Handled(a, conn, r);
    assert forall c :: b.Unread(c) == if c == conn then a.Unread(c) + replies else a.Unread(c);
  }

  lemma {:induction false} StoredPosted(a: Hub, conn: nat, name: Name, c: Contents, timeout: int)
    requires Posted(a) && Fits(name, PATH_MAX) && ContentsFit(c)
    ensures Posted(Stored(a, conn, name, c, timeout))
  {
    var b := Stored(a, conn, name, c, timeout);
    hide Genuine, AllProper;
    assert forall conn :: b.Unread(conn) == a.Unread(conn);
  }

  /** What arrives late is handled like anything else: replies are only added behind the unread ones. */
  lemma {:induction false} DeliveredPosted(a: Hub, conn: nat, q: seq<Request>, b: Hub)
    requires Posted(a) && ProperList(q) && Delivered(a, conn, q, b)
    ensures Posted(b) && b.outbox == a.outbox && b.failed == a.failed && a.missed <= b.missed
    ensures forall c :: a.Unread(c) <= b.Unread(c)
    decreases |q|
  {
    hide Proper, Genuine, Shrunk;
    if q == [] {
      ElapsedPosted(a, b);
      Ages(a, b);
      hide Posted, Elapsed;
      forall c ensures a.Unread(c) <= b.Unread(c) {
        assert Grown(a, b, c);
      }
    } else {
      var m :| Elapsed(a, m) && StoreFits(m.state.store) && Delivered(Handled(m, conn, q[0]), conn, q[1..], b);
      ElapsedPosted(a, m);
      Ages(a, m);
      HandledPosted(m, conn, q[0]);
      hide Posted, Elapsed, StoreFits;
      DeliveredPosted(Handled(m, conn, q[0]), conn, q[1..], b);
      var h := Handled(m, conn, q[0]);
      assert h.outbox == m.outbox && h.failed == m.failed && h.missed == m.missed;
      forall c ensures a.Unread(c) <= b.Unread(c) {
        assert Grown(a, m, c);
        assert a.Unread(c) <= m.Unread(c) <= h.Unread(c) <= b.Unread(c);
      }
    }
  }

  lemma {:induction false} HeldProper(a: Hub, conn: nat)
    requires Posted(a)
    ensures ProperList(a.Held(conn))
  {
    hide Genuine, Proper, StoreFits;
  }

  lemma {:induction false} QueuePosted(a: Hub, conn: nat, q: seq<Request>, failed: set<nat>)
    requires Posted(a) && ProperList(q)
    ensures var b := a.(outbox := a.outbox[conn := q], failed := failed);
            Posted(b) && forall c :: b.Unread(c) == a.Unread(c)
  {
    hide Genuine, Proper, StoreFits, ProperList;
    var b := a.(outbox := a.outbox[conn := q], failed := failed);
    assert forall c :: b.Unread(c) == a.Unread(c);
  }

  lemma {:induction false} FlushedPosted(a: Hub, conn: nat, b: Hub)
    requires Posted(a) && Flushed(a, conn, b)
    ensures Posted(b) && b.failed == a.failed && a.missed <= b.missed && b.Held(conn) == []
    ensures forall c :: a.Unread(c) <= b.Unread(c)
  {
    HeldProper(a, conn);
    hide Posted, Delivered, Proper;
    var m :| Delivered(a, conn, a.Held(conn), m) && b == Emptied(m, conn);
    DeliveredPosted(a, conn, a.Held(conn), m);
    QueuePosted(m, conn, [], m.failed);
  }

  lemma {:induction false} ProperInit(q: seq<Request>)
    requires ProperList(q) && q != []
    ensures ProperList(q[..|q| - 1]) && Proper(q[|q| - 1])
    ensures q[..|q| - 1] + [q[|q| - 1]] == q
  {
  }

  lemma {:induction false} ProperParts(q: seq<Request>, k: nat, r: Request)
    requires ProperList(q) && k <= |q| && Proper(r)
    ensures ProperList(q[..k]) && ProperList(q[k..] + [r])
  {
    hide Proper;
  }

  lemma {:induction false} StuckPosted(a: Hub, conn: nat, r: Request, b: Hub)
    requires Posted(a) && Stuck(a, conn, r, b) && Proper(r)
    ensures Posted(b) && b.failed == a.failed + {conn} && a.missed <= b.missed
    ensures forall c :: a.Unread(c) <= b.Unread(c)
  {
    HeldProper(a, conn);
    hide Posted, Delivered, Proper;
    var q := a.Held(conn);
    var k: nat, m :| k <= |q| && Delivered(a, conn, q[..k], m) && b == Stalled(m, conn, q[k..] + [r]);
    ProperParts(q, k, r);
    hide ProperList;
    DeliveredPosted(a, conn, q[..k], m);
    QueuePosted(m, conn, q[k..] + [r], m.failed + {conn});
  }

  lemma {:induction false} FailsPosted(a: Hub, conn: nat, r: Request, b: Hub)
    requires Posted(a) && Fails(a, conn, r, b) && Proper(r) && Session.ExpectsReply(r)
    ensures Posted(b) && b.failed == a.failed + {conn} && a.missed <= b.missed
  {
    hide Genuine, Flushed, Stuck, Proper, AllProper, Session.ExpectsReply;
    if Stuck(a, conn, r, b) {
      StuckPosted(a, conn, r, b);
    } else {
      var m :| Flushed(a, conn, m) && StoreFits(m.state.store) && b == Abandoned(m, conn, r);
      FlushedPosted(a, conn, m);
      HandledPosted(m, conn, r);
      hide StoreFits, Handled;
      assert forall c :: b.Unread(c) == Handled(m, conn, r).Unread(c);
    }
  }

  /** A structure that is complete is stored as it says. */
  lemma {:induction false} StoredIsOnStore(a: Hub, conn: nat, u: Unsafe)
    requires u.AllTerminated()
    ensures a.(state := OnStore(a.state, a.now, conn, u)) == Stored(a, conn, CStr(u.name), u.Value(), u.timeout)
  {
  }
}
