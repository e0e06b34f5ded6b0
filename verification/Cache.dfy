/** The agent as a cache of the files: what each operation of the safe layer does to the two copies, and
    when they stay in agreement. */
module Cache {
  import opened Bytes
  import opened Store
  import opened Protocol
  import opened Inbox
  import opened SafeFile
  import Session

  /** What stays fixed during a run: the primitives and the master password. */
  datatype Conf = Conf(k: Crypto, master: seq<Byte>)

  /** The encrypted files by safe name, and the agent. */
  datatype World = World(disk: map<Name, seq<Byte>>, hub: Hub)

  /** What reading a file returns, for some contents of the plaintext buffer. */
  ghost predicate FileOpens(conf: Conf, bytes: seq<Byte>, c: Contents)
    requires conf.k.Laws()
  {
    ContentsFit(c) && exists g :: |g| == PLAIN_MAX && Opened(conf.k, conf.master, bytes, g) == Ok(c)
  }

  /** A file opens to these contents, whatever the plaintext buffer held before. */
  ghost predicate Holds(conf: Conf, bytes: seq<Byte>, c: Contents)
    requires conf.k.Laws()
  {
    forall g :: |g| == PLAIN_MAX ==> Opened(conf.k, conf.master, bytes, g) == Ok(c)
  }

  /** What a file opens to does not depend on the buffer. */
  ghost predicate Stable(conf: Conf, bytes: seq<Byte>)
    requires conf.k.Laws()
  {
    forall g, g' :: |g| == |g'| == PLAIN_MAX ==>
      Opened(conf.k, conf.master, bytes, g) == Opened(conf.k, conf.master, bytes, g')
  }

  lemma {:induction false} StableHolds(conf: Conf, bytes: seq<Byte>, c: Contents)
    requires conf.k.Laws() && Stable(conf, bytes) && FileOpens(conf, bytes, c)
    ensures Holds(conf, bytes, c)
  {
    hide Opened;
  }

  lemma {:induction false} HoldsIsStable(conf: Conf, bytes: seq<Byte>, c: Contents)
    requires conf.k.Laws() && Holds(conf, bytes, c)
    ensures Stable(conf, bytes)
  {
  }

  lemma {:induction false} HoldsOne(conf: Conf, bytes: seq<Byte>, c: Contents, c': Contents)
    requires conf.k.Laws() && Holds(conf, bytes, c) && Holds(conf, bytes, c')
    ensures c == c'
  {
    var g := Zeros(PLAIN_MAX);
    assert Opened(conf.k, conf.master, bytes, g) == Ok(c);
  }

  lemma {:induction false} HoldsOpens(conf: Conf, bytes: seq<Byte>, c: Contents)
    requires conf.k.Laws() && Holds(conf, bytes, c) && ContentsFit(c)
    ensures FileOpens(conf, bytes, c)
  {
    var g := Zeros(PLAIN_MAX);
    assert Opened(conf.k, conf.master, bytes, g) == Ok(c);
  }

  /** Every safe in the agent is also on disk, with the same password and metadata. */
  ghost predicate Agreement(conf: Conf, w: World)
    requires conf.k.Laws()
  {
    forall n :: n in w.hub.state.store ==> n in w.disk && Holds(conf, w.disk[n], w.hub.state.store[n])
  }

  // ---- What each operation asks of the agent ----

  /** The structure that stands for these contents under this name. */
  predicate Says(u: Unsafe, name: Name, c: Contents, timeout: int) {
    u.Sized() && u.AllTerminated() && CStr(u.name) == name && u.Value() == c && u.timeout == timeout
  }

  /** A store, from the moment of its send: it arrives on the agent as it is then, m, or it stays queued at
      the client. */
  ghost predicate StoresAfter(a: Hub, conn: nat, name: Name, c: Contents, timeout: int, arrives: bool, m: Hub, b: Hub) {
    if arrives then Flushed(a, conn, m) && b == Stored(m, conn, name, c, timeout)
    else m == b && exists u :: Says(u, name, c, timeout) && Stuck(a, conn, StoreReq(u), b)
  }

  /** The search of kp_safe_open: when it gets through, on the agent as it is then, met, the first unread
      reply decides whether the safe is served; when it fails, none is. */
  ghost predicate OpensVia(a: Hub, conn: nat, name: Name, met: Hub, served: Option<Contents>, b: Hub) {
    || (Flushed(a, conn, met) && StoreFits(met.state.store) && OpenedFrom(met, conn, name, served, b))
    || (served == None && met == b && Fails(a, conn, SearchReq(name), b))
  }

  ghost predicate OpenedFrom(met: Hub, conn: nat, name: Name, served: Option<Contents>, b: Hub)
    requires StoreFits(met.state.store)
  {
    var x := Asked(met, conn, SearchReq(name));
    b == x.1 && served == if Serves(x.0) then Some(Served(x.0).Value()) else None
  }

  ghost predicate AgentOpens(a: Hub, conn: nat, name: Name, served: Option<Contents>, b: Hub) {
    exists met :: OpensVia(a, conn, name, met, served, b)
  }

  /** The search and the store of kp_safe_save. The structure sent back is the one read, with the two
      strings replaced: its name is not looked at, nor written. `told` is the name under which a store
      arrives, if one does, and m2 the agent on which it arrives, or else the agent at the end. */
  ghost predicate SavesVia(a: Hub, conn: nat, name: Name, c: Contents, met: Hub, told: Option<Name>, m2: Hub, b: Hub) {
    || (Flushed(a, conn, met) && StoreFits(met.state.store) && SavedFrom(met, conn, name, c, told, m2, b))
    || (told == None && met == m2 == b && Fails(a, conn, SearchReq(name), b))
  }

  ghost predicate SavedFrom(met: Hub, conn: nat, name: Name, c: Contents, told: Option<Name>, m2: Hub, b: Hub)
    requires StoreFits(met.state.store)
  {
    var x := Asked(met, conn, SearchReq(name));
    if Serves(x.0) then
      var u := Served(x.0);
      && (told.Some? ==> told.value == CStr(u.name))
      && StoresAfter(x.1, conn, CStr(u.name), c, u.timeout, told.Some?, m2, b)
    else told == None && m2 == b == x.1
  }

  ghost predicate AgentSaves(a: Hub, conn: nat, name: Name, c: Contents, b: Hub) {
    exists met, told, m2 :: SavesVia(a, conn, name, c, met, told, m2, b)
  }

  /** The discard of kp_safe_delete, which must read a confirmation. */
  ghost predicate AgentDeletes(a: Hub, conn: nat, name: Name, b: Hub) {
    exists met :: Flushed(a, conn, met) && StoreFits(met.state.store) && DeletedFrom(met, conn, name, b)
  }

  ghost predicate DeletedFrom(met: Hub, conn: nat, name: Name, b: Hub)
    requires StoreFits(met.state.store)
  {
    var x := Asked(met, conn, DiscardReq(name));
    Confirms(x.0) && b == x.1
  }

  /** The discard of kp_safe_rename, and after a confirmation the store under the new name; `arrives` says
      whether a store arrives, on m2. */
  ghost predicate RenamesVia(a: Hub, conn: nat, from: Name, to: Name, c: Contents, met: Hub, arrives: bool, m2: Hub, b: Hub) {
    || (Flushed(a, conn, met) && StoreFits(met.state.store) && RenamedFrom(met, conn, from, to, c, arrives, m2, b))
    || (!arrives && met == m2 == b && Fails(a, conn, DiscardReq(from), b))
  }

  ghost predicate RenamedFrom(met: Hub, conn: nat, from: Name, to: Name, c: Contents, arrives: bool, m2: Hub, b: Hub)
    requires StoreFits(met.state.store)
  {
    var x := Asked(met, conn, DiscardReq(from));
    if Confirms(x.0) then StoresAfter(x.1, conn, to, c, -1, arrives, m2, b) else !arrives && m2 == b == x.1
  }

  ghost predicate AgentRenames(a: Hub, conn: nat, from: Name, to: Name, c: Contents, b: Hub) {
    exists met, arrives, m2 :: RenamesVia(a, conn, from, to, c, met, arrives, m2, b)
  }

  /** The store of kp_safe_store, whose send is not checked. */
  ghost predicate AgentPuts(a: Hub, conn: nat, name: Name, c: Contents, timeout: int, b: Hub) {
    exists arrives, m :: StoresAfter(a, conn, name, c, timeout, arrives, m, b)
  }

  // ---- The operations ----

  /** A safe that some client has open. `clean` is a history: its contents have not been edited since
      they were read or written, and no other handle has written, deleted or renamed the file since. */
  datatype Handle = Closed | Handle(name: Name, c: Contents, clean: bool)

  datatype Op = Open(name: Name, force: bool) | Create(created: Name) | Edit(c: Contents) | Save
              | Put(timeout: int) | Delete | Rename(to: Name) | Close

  /** A successful operation on one handle, over one connection. Open, Save, Put and Rename succeed even
      when what they send to the agent, or the answer they wait for, does not get through. */
  ghost predicate Does(conf: Conf, w: World, conn: nat, h: Handle, op: Op, w': World, h': Handle)
    requires conf.k.Laws()
  {
    match op
    case Open(name, force) =>
      && h.Closed? && Fits(name, PATH_MAX) && name in w.disk && w'.disk == w.disk
      && h'.Handle? && h'.name == name && h'.clean
      && if force then Elapsed(w.hub, w'.hub) && FileOpens(conf, w.disk[name], h'.c)
         else exists served :: AgentOpens(w.hub, conn, name, served, w'.hub)
                               && if served.Some? then h'.c == served.value else FileOpens(conf, w.disk[name], h'.c)
    case Create(name) =>
      && h.Closed? && Fits(name, PATH_MAX) && name !in w.disk
      && w' == w && h' == Handle(name, Contents([], []), false)
    case Edit(c) =>
      && h.Handle? && ContentsFit(c) && w' == w && h' == h.(c := c, clean := false)
    case Save =>
      && h.Handle? && h' == h.(clean := true)
      && AgentSaves(w.hub, conn, h.name, h.c, w'.hub)
      && exists f :: Holds(conf, f, h.c) && w'.disk == w.disk[h.name := f]
    case Put(timeout) =>
      && h.Handle? && h' == h && w'.disk == w.disk && AgentPuts(w.hub, conn, h.name, h.c, timeout, w'.hub)
    case Delete =>
      && h.Handle? && h.name in w.disk && h' == h.(clean := false)
      && AgentDeletes(w.hub, conn, h.name, w'.hub) && w'.disk == w.disk - {h.name}
    case Rename(to) =>
      && h.Handle? && Fits(to, PATH_MAX) && h.name in w.disk && h' == h.(name := to)
      && AgentRenames(w.hub, conn, h.name, to, h.c, w'.hub)
      && w'.disk == (w.disk - {h.name})[to := w.disk[h.name]]
    case Close => h.Handle? && w' == w && h' == Closed
  }

  /** The names whose files an operation writes, removes or moves. */
  function Touched(h: Handle, op: Op): set<Name> {
    if h.Closed? then {}
    else match op
         case Save => {h.name}
         case Delete => {h.name}
         case Rename(to) => {h.name, to}
         case _ => {}
  }

  function Seen(h: Handle, touched: set<Name>): Handle {
    if h.Handle? && h.name in touched then h.(clean := false) else h
  }

  // ---- Runs of any number of clients with any number of handles ----

  datatype System = System(w: World, hs: map<nat, Handle>) {
    function At(id: nat): Handle {
      if id in hs then hs[id] else Closed
    }
  }

  datatype Command = Do(conn: nat, id: nat, op: Op) | Pause

  /** Operations are sequential: each one has been handled by the agent before the next one starts. */
  ghost predicate Step(conf: Conf, s: System, cmd: Command, s': System)
    requires conf.k.Laws()
  {
    match cmd
    case Do(conn, id, op) =>
      && Does(conf, s.w, conn, s.At(id), op, s'.w, s'.At(id))
      && forall i :: i != id ==> s'.At(i) == Seen(s.At(i), Touched(s.At(id), op))
    case Pause =>
      s'.hs == s.hs && s'.w.disk == s.w.disk && Elapsed(s.w.hub, s'.w.hub)
  }

  /** What agreement needs of the clients, of the timers and of the connections: a safe is stored or
      renamed from a clean handle, and renamed to an unused name; no timer of a connection that opens or
      saves a safe has fired for an absent name; and a connection on which a send or a receive has failed
      is not used again, where for a save and a rename that includes the failure of their own. */
  ghost predicate CarefulOp(w: World, conn: nat, h: Handle, op: Op, w': World) {
    match op
    case Open(_, force) => force || (conn !in w.hub.failed && conn !in w'.hub.missed)
    case Save => conn !in w'.hub.failed && conn !in w'.hub.missed
    case Put(_) => h.Handle? && h.clean && conn !in w.hub.failed
    case Delete => conn !in w.hub.failed
    case Rename(to) => h.Handle? && h.clean && to !in w.disk && conn !in w'.hub.failed
    case _ => true
  }

  ghost predicate Careful(s: System, cmd: Command, s': System) {
    cmd.Do? ==> CarefulOp(s.w, cmd.conn, s.At(cmd.id), cmd.op, s'.w)
  }

  /** A handle that holds what the file holds. */
  ghost predicate Current(conf: Conf, w: World, h: Handle)
    requires conf.k.Laws()
  {
    h.Handle? && h.name in w.disk && Holds(conf, w.disk[h.name], h.c)
  }

  ghost predicate Sound(conf: Conf, w: World, h: Handle)
    requires conf.k.Laws()
  {
    h.Handle? ==> Fits(h.name, PATH_MAX) && ContentsFit(h.c) && (h.clean ==> Current(conf, w, h))
  }

  /** Only well-formed messages wait; and on a connection on which nothing has failed, no request does, and
      between operations replies do exactly when a timer of it has missed. */
  ghost predicate Quiet(a: Hub) {
    Posted(a) && forall conn :: conn !in a.failed ==> QuietOn(a, conn)
  }

  ghost predicate QuietOn(a: Hub, conn: nat) {
    a.Held(conn) == [] && (conn in a.missed <==> a.Unread(conn) != [])
  }

  ghost predicate Tended(conf: Conf, w: World)
    requires conf.k.Laws()
  {
    Agreement(conf, w) && Quiet(w.hub) && forall n :: n in w.disk ==> Stable(conf, w.disk[n])
  }

  ghost predicate Inv(conf: Conf, s: System)
    requires conf.k.Laws()
  {
    Tended(conf, s.w) && forall id :: Sound(conf, s.w, s.At(id))
  }

  // ---- Each question on a quiet connection reads its own answer ----

  lemma {:induction false} ElapsedQuiet(a: Hub, b: Hub)
    requires Quiet(a) && Elapsed(a, b)
    ensures Quiet(b)
  {
    ElapsedPosted(a, b);
    Ages(a, b);
    hide Posted, Elapsed, Shrunk, NoSuchSafe;
    forall conn | conn !in b.failed ensures QuietOn(b, conn) {
      assert Grown(a, b, conn) && QuietOn(a, conn);
      assert b.Held(conn) == a.Held(conn);
    }
  }

  lemma {:induction false} QuietPosted(a: Hub)
    requires Quiet(a)
    ensures Posted(a) && StoreFits(a.state.store)
  {
  }

  /** On a connection on which nothing has failed, what arrives first is the request itself. */
  lemma {:induction false} FlushedQuiet(a: Hub, conn: nat, b: Hub)
    requires Quiet(a) && conn !in a.failed && Flushed(a, conn, b)
    ensures Elapsed(a, b) && Quiet(b) && Aged(a, b) && StoreFits(b.state.store)
  {
    assert QuietOn(a, conn);
    NothingHeld(a, conn, b);
    hide Flushed, Posted;
    ElapsedQuiet(a, b);
    Ages(a, b);
    QuietPosted(b);
  }

  /** And what fails there leaves just that request queued. */
  lemma {:induction false} StuckAlone(a: Hub, conn: nat, r: Request, b: Hub) returns (m: Hub)
    requires a.Held(conn) == [] && Stuck(a, conn, r, b)
    ensures Elapsed(a, m) && b == Stalled(m, conn, [r])
  {
    var k: nat, m' :| k <= |a.Held(conn)| && Delivered(a, conn, a.Held(conn)[..k], m')
                      && b == Stalled(m', conn, a.Held(conn)[k..] + [r]);
    assert a.Held(conn)[..k] == [] && a.Held(conn)[k..] + [r] == [r];
    m := m';
  }

  lemma {:induction false} StuckQuiet(a: Hub, conn: nat, r: Request, b: Hub)
    requires Quiet(a) && conn !in a.failed && Stuck(a, conn, r, b) && Proper(r)
    ensures Quiet(b) && Shrunk(a.state, b.state) && b.failed == a.failed + {conn}
  {
    StuckPosted(a, conn, r, b);
    assert QuietOn(a, conn);
    var m := StuckAlone(a, conn, r, b);
    hide Stuck, Posted, Proper;
    ElapsedQuiet(a, m);
    Ages(a, m);
    hide Elapsed, Grown, Shrunk;
    forall other | other !in b.failed ensures QuietOn(b, other) {
      assert QuietOn(m, other) && b.Held(other) == m.Held(other) && b.Unread(other) == m.Unread(other);
    }
  }

  lemma {:induction false} AskedQuiet(a: Hub, conn: nat, r: Request)
    requires Quiet(a) && Session.ExpectsReply(r) && conn !in a.failed
    ensures StoreFits(a.state.store)
    ensures Quiet(Asked(a, conn, r).1)
    ensures conn !in a.missed ==> Asked(a, conn, r).0 == Session.Deserved(a.state.store, r)
  {
    AskedPosted(a, conn, r);
    OwnAnswer(a, conn, r);
    hide Posted, Genuine;
    var b := Asked(a, conn, r).1;
    assert QuietOn(a, conn);
    forall other | other !in b.failed ensures QuietOn(b, other) {
      assert QuietOn(a, other) && b.Held(other) == a.Held(other);
      assert other != conn ==> b.Unread(other) == a.Unread(other);
    }
  }

  lemma {:induction false} AbandonedQuiet(m: Hub, conn: nat, name: Name)
    requires Quiet(m) && StoreFits(m.state.store) && Fits(name, PATH_MAX)
    ensures var b := Abandoned(m, conn, SearchReq(name));
            Quiet(b) && b.state == m.state
  {
    QuietPosted(m);
    HandledPosted(m, conn, SearchReq(name));
    var h := Handled(m, conn, SearchReq(name));
    var b := Abandoned(m, conn, SearchReq(name));
    assert h.state == m.state && h.outbox == m.outbox;
    assert forall other :: b.Unread(other) == h.Unread(other) && b.Held(other) == m.Held(other);
    assert forall other :: other != conn ==> h.Unread(other) == m.Unread(other);
    hide Handled, StoreFits, Fits, Genuine, AllProper;
    forall other | other !in b.failed ensures QuietOn(b, other) {
      assert QuietOn(m, other);
    }
  }

  /** A search that fails there leaves the copies as time leaves them. */
  lemma {:induction false} FailsQuiet(a: Hub, conn: nat, name: Name, b: Hub)
    requires Quiet(a) && conn !in a.failed && Fails(a, conn, SearchReq(name), b) && Fits(name, PATH_MAX)
    ensures Quiet(b) && Shrunk(a.state, b.state)
  {
    hide Quiet, Flushed, Stuck, Shrunk, StoreFits, Abandoned;
    var r := SearchReq(name);
    if Stuck(a, conn, r, b) {
      StuckQuiet(a, conn, r, b);
    } else {
      var m :| Flushed(a, conn, m) && StoreFits(m.state.store) && b == Abandoned(m, conn, r);
      FlushedQuiet(a, conn, m);
      AbandonedQuiet(m, conn, name);
    }
  }

  lemma {:induction false} StoredQuiet(a: Hub, conn: nat, name: Name, c: Contents, timeout: int)
    requires Quiet(a) && Fits(name, PATH_MAX) && ContentsFit(c)
    ensures Quiet(Stored(a, conn, name, c, timeout))
  {
    StoredPosted(a, conn, name, c, timeout);
    var b := Stored(a, conn, name, c, timeout);
    hide Posted;
    forall other | other !in b.failed ensures QuietOn(b, other) {
      assert QuietOn(a, other) && b.Held(other) == a.Held(other) && b.Unread(other) == a.Unread(other);
    }
  }

  lemma {:induction false} SaysProper(u: Unsafe, name: Name, c: Contents, timeout: int)
    requires Says(u, name, c, timeout)
    ensures Proper(StoreReq(u))
  {
  }

  lemma {:induction false} StoresAfterQuiet(a: Hub, conn: nat, name: Name, c: Contents, timeout: int, arrives: bool, m: Hub, b: Hub)
    requires Quiet(a) && StoresAfter(a, conn, name, c, timeout, arrives, m, b)
    requires conn !in a.failed && Fits(name, PATH_MAX) && ContentsFit(c)
    ensures Quiet(b) && Shrunk(a.state, m.state) && (conn !in b.failed ==> arrives)
  {
    hide Quiet, Flushed, Stuck, Shrunk, Fits, ContentsFit;
    if arrives {
      FlushedQuiet(a, conn, m);
      StoredQuiet(m, conn, name, c, timeout);
    } else {
      var u :| Says(u, name, c, timeout) && Stuck(a, conn, StoreReq(u), b);
      SaysProper(u, name, c, timeout);
      StuckQuiet(a, conn, StoreReq(u), b);
    }
  }

  // ---- What each operation changes in the agent ----

  /** What a search learns on a connection with nothing unread: what the agent has. */
  lemma {:induction false} FirstAnswer(m: Hub, conn: nat, name: Name)
    requires Posted(m) && m.Unread(conn) == []
    ensures var x := Asked(m, conn, SearchReq(name));
            && x.1 == m.(inbox := m.inbox[conn := []]) && Posted(x.1)
            && (Serves(x.0) <==> name in m.state.store)
            && (Serves(x.0) ==> var u := Served(x.0);
                u.timeout == -1 && CStr(u.name) == name && u.Value() == m.state.store[name])
  {
    OwnAnswer(m, conn, SearchReq(name));
    DeservedGenuine(m.state.store, SearchReq(name));
    AskedPosted(m, conn, SearchReq(name));
    if name in m.state.store {
      FoundServes(name, m.state.store[name]);
    }
    hide Genuine;
  }

  /** Until the search arrives nothing comes in, unless a timer of the connection misses. */
  lemma {:induction false} StaysEmpty(a: Hub, m: Hub, conn: nat)
    requires Posted(a) && Flushed(a, conn, m) && a.Held(conn) == [] && a.Unread(conn) == [] && conn !in m.missed
    ensures Posted(m) && Aged(a, m) && m.Unread(conn) == [] && m.Held(conn) == []
  {
    NothingHeld(a, conn, m);
    hide Flushed;
    ElapsedPosted(a, m);
    Ages(a, m);
    hide Posted, Elapsed;
    assert Grown(a, m, conn);
    assert m.Held(conn) == a.Held(conn);
  }

  lemma {:induction false} StoresOver(a: Hub, conn: nat, name: Name, c: Contents, m: Hub, b: Hub)
    requires StoresAfter(a, conn, name, c, -1, true, m, b) && a.Held(conn) == []
    ensures multiset(b.state.timers) <= multiset(a.state.timers) && a.missed <= b.missed
    ensures b.state.store.Keys <= a.state.store.Keys + {name}
    ensures forall n :: n in b.state.store && n != name ==> b.state.store[n] == a.state.store[n]
    ensures name in b.state.store && b.state.store[name] == c
    ensures multiset(b.state.timers) == multiset(a.state.timers) ==> b.state.store == a.state.store[name := c]
  {
    NothingHeld(a, conn, m);
    Ages(a, m);
    hide Elapsed, Grown, Flushed;
  }

  /** From the moment of the search on. */
  lemma {:induction false} SaveOver(m: Hub, conn: nat, name: Name, c: Contents, told: Option<Name>, m2: Hub, b: Hub)
    requires Posted(m) && m.Unread(conn) == [] && m.Held(conn) == [] && SavedFrom(m, conn, name, c, told, m2, b)
    requires conn !in b.failed
    ensures multiset(b.state.timers) <= multiset(m.state.timers)
    ensures b.state.store.Keys <= m.state.store.Keys
    ensures forall n :: n in b.state.store ==> b.state.store[n] == if n == name then c else m.state.store[n]
    ensures multiset(b.state.timers) == multiset(m.state.timers) ==> b.state.store.Keys == m.state.store.Keys
  {
    var x := Asked(m, conn, SearchReq(name));
    assert x.1.state == m.state && x.1.Held(conn) == [];
    FirstAnswer(m, conn, name);
    hide Posted, Asked, Serves, Served, Fits, ContentsFit, StoreFits;
    if Serves(x.0) {
      StoresKeeps(x.1, conn, name, c, -1, told.Some?, m2, b);
      StoresOver(x.1, conn, name, c, m2, b);
    }
    hide StoresAfter;
  }

  /** A store that does not arrive is a failure on its connection. */
  lemma {:induction false} StoresKeeps(a: Hub, conn: nat, name: Name, c: Contents, timeout: int, arrives: bool, m: Hub, b: Hub)
    requires StoresAfter(a, conn, name, c, timeout, arrives, m, b)
    ensures a.missed <= b.missed && b.failed == (if arrives then a.failed else a.failed + {conn})
  {
    hide Flushed, Stuck;
    if arrives {
      FlushedKeeps(a, conn, m);
    } else {
      var u :| Says(u, name, c, timeout) && Stuck(a, conn, StoreReq(u), b);
      StuckKeeps(a, conn, StoreReq(u), b);
    }
  }

  lemma {:induction false} SavedKeeps(met: Hub, conn: nat, name: Name, c: Contents, told: Option<Name>, m2: Hub, b: Hub)
    requires StoreFits(met.state.store) && SavedFrom(met, conn, name, c, told, m2, b)
    ensures met.missed <= b.missed && met.failed <= b.failed
  {
    var x := Asked(met, conn, SearchReq(name));
    assert x.1.missed == met.missed && x.1.failed == met.failed;
    hide Asked, Serves, Served, StoresAfter;
    if Serves(x.0) {
      var u := Served(x.0);
      StoresKeeps(x.1, conn, CStr(u.name), c, u.timeout, told.Some?, m2, b);
    }
  }

  /** A save that gets through, on a connection with nothing unread and nothing queued, arms and disarms no
      timer of its own, adds no key, and changes no entry but the saved one: whatever else differs
      afterwards is due to timers that fired. If none did, the timers are the same, and so are the keys. */
  lemma {:induction false} SaveChanges(a: Hub, conn: nat, name: Name, c: Contents, b: Hub)
    requires Posted(a) && AgentSaves(a, conn, name, c, b) && a.Unread(conn) == [] && a.Held(conn) == []
    requires conn !in b.missed && conn !in b.failed
    ensures multiset(b.state.timers) <= multiset(a.state.timers)
    ensures b.state.store.Keys <= a.state.store.Keys
    ensures forall n :: n in b.state.store ==> b.state.store[n] == if n == name then c else a.state.store[n]
    ensures multiset(b.state.timers) == multiset(a.state.timers) ==> b.state.store.Keys == a.state.store.Keys
  {
    hide Posted, Asked, Serves, Served, Fits, ContentsFit, StoresAfter, SavedFrom, Flushed, Fails, StoreFits;
    var met, told, m2 :| SavesVia(a, conn, name, c, met, told, m2, b);
    if Fails(a, conn, SearchReq(name), b) {
      FailsKeeps(a, conn, SearchReq(name), b);
    }
    SavedKeeps(met, conn, name, c, told, m2, b);
    StaysEmpty(a, met, conn);
    hide Grown;
    SaveOver(met, conn, name, c, told, m2, b);
  }

  // ---- Each operation keeps the two copies in agreement ----

  lemma {:induction false} ShrunkKeeps(conf: Conf, w: World, w': World)
    requires conf.k.Laws() && Tended(conf, w) && w'.disk == w.disk && Shrunk(w.hub.state, w'.hub.state) && Quiet(w'.hub)
    ensures Tended(conf, w')
  {
    hide Holds, Stable, Quiet;
  }

  lemma {:induction false} PauseKeeps(conf: Conf, w: World, w': World)
    requires conf.k.Laws() && Tended(conf, w) && w'.disk == w.disk && Elapsed(w.hub, w'.hub)
    ensures Tended(conf, w')
  {
    hide Holds, Stable, Elapsed, Grown, Quiet, Agreement;
    ElapsedQuiet(w.hub, w'.hub);
    Ages(w.hub, w'.hub);
    ShrunkKeeps(conf, w, w');
  }

  /** An open on a connection on which nothing has failed and whose timers did not miss is served exactly
      what the agent has, or nothing if it fails. */
  lemma {:induction false} OpenServes(a: Hub, conn: nat, name: Name, served: Option<Contents>, b: Hub)
    requires Quiet(a) && AgentOpens(a, conn, name, served, b) && conn !in a.failed && conn !in b.missed
    requires Fits(name, PATH_MAX)
    ensures Quiet(b) && Shrunk(a.state, b.state)
    ensures served == None || served == Lookup(b.state.store, name)
    ensures conn !in b.failed ==> served == Lookup(b.state.store, name)
  {
    hide Fits, ContentsFit, Fails, Flushed, StoreFits;
    var met :| OpensVia(a, conn, name, met, served, b);
    if Fails(a, conn, SearchReq(name), b) && served == None {
      FailsQuiet(a, conn, name, b);
      FailsKeeps(a, conn, SearchReq(name), b);
    } else {
      FlushedQuiet(a, conn, met);
      ServedFrom(met, conn, name, served, b);
      hide Quiet, Shrunk, OpenedFrom;
    }
  }

  lemma {:induction false} ServedFrom(met: Hub, conn: nat, name: Name, served: Option<Contents>, b: Hub)
    requires Quiet(met) && StoreFits(met.state.store) && OpenedFrom(met, conn, name, served, b)
    requires conn !in met.failed && conn !in b.missed
    ensures Quiet(b) && b.state == met.state && served == Lookup(b.state.store, name)
  {
    AskedQuiet(met, conn, SearchReq(name));
    QuietPosted(met);
    assert QuietOn(met, conn);
    FirstAnswer(met, conn, name);
    hide Serves, Served, Posted, Quiet, Fits, ContentsFit, StoreFits;
  }

  lemma {:induction false} OpenKeeps(conf: Conf, w: World, conn: nat, h: Handle, name: Name, force: bool, w': World, h': Handle)
    requires conf.k.Laws() && Tended(conf, w) && Does(conf, w, conn, h, Open(name, force), w', h')
    requires force || (conn !in w.hub.failed && conn !in w'.hub.missed)
    ensures Tended(conf, w') && Sound(conf, w', h')
  {
    hide Holds, Stable, AgentOpens, Elapsed, Quiet, Posted;
    if force {
      PauseKeeps(conf, w, w');
      StableHolds(conf, w.disk[name], h'.c);
    } else {
      var served :| AgentOpens(w.hub, conn, name, served, w'.hub)
                    && if served.Some? then h'.c == served.value else FileOpens(conf, w.disk[name], h'.c);
      OpenServes(w.hub, conn, name, served, w'.hub);
      if served.None? {
        StableHolds(conf, w.disk[name], h'.c);
      } else {
        QuietPosted(w'.hub);
      }
      hide FileOpens;
    }
  }

  lemma {:induction false} SaveKeeps(conf: Conf, w: World, conn: nat, h: Handle, w': World, h': Handle)
    requires conf.k.Laws() && Tended(conf, w) && Sound(conf, w, h) && Does(conf, w, conn, h, Save, w', h')
    requires conn !in w'.hub.failed && conn !in w'.hub.missed
    ensures Tended(conf, w') && Sound(conf, w', h')
  {
    hide Holds, Stable, AgentSaves, Posted, Fits, ContentsFit;
    var f :| Holds(conf, f, h.c) && w'.disk == w.disk[h.name := f];
    HoldsIsStable(conf, f, h.c);
    SaveQuiet(w.hub, conn, h.name, h.c, w'.hub);
    SaveChanges(w.hub, conn, h.name, h.c, w'.hub);
    hide Does, Quiet;
    var a, b := w.hub.state.store, w'.hub.state.store;
    forall n | n in b ensures n in w'.disk && Holds(conf, w'.disk[n], b[n]) {
      assert n in a;
    }
  }

  lemma {:induction false} SaveQuiet(a: Hub, conn: nat, name: Name, c: Contents, b: Hub)
    requires Quiet(a) && AgentSaves(a, conn, name, c, b) && Fits(name, PATH_MAX) && ContentsFit(c)
    requires conn !in b.missed && conn !in b.failed
    ensures Quiet(b) && Posted(a) && a.Unread(conn) == [] && a.Held(conn) == []
  {
    hide Fits, ContentsFit, Flushed, Fails, Stuck, StoresAfter, SavedFrom, StoreFits, Posted;
    QuietPosted(a);
    var met, told, m2 :| SavesVia(a, conn, name, c, met, told, m2, b);
    if Fails(a, conn, SearchReq(name), b) {
      FailsKeeps(a, conn, SearchReq(name), b);
    }
    SavedKeeps(met, conn, name, c, told, m2, b);
    FlushedKeeps(a, conn, met);
    FlushedQuiet(a, conn, met);
    assert QuietOn(a, conn);
    SavedQuiet(met, conn, name, c, told, m2, b);
  }

  lemma {:induction false} SavedQuiet(met: Hub, conn: nat, name: Name, c: Contents, told: Option<Name>, m2: Hub, b: Hub)
    requires Quiet(met) && StoreFits(met.state.store) && SavedFrom(met, conn, name, c, told, m2, b)
    requires conn !in met.failed && conn !in met.missed && Fits(name, PATH_MAX) && ContentsFit(c)
    ensures Quiet(b)
  {
    QuietPosted(met);
    assert QuietOn(met, conn);
    AskedQuiet(met, conn, SearchReq(name));
    FirstAnswer(met, conn, name);
    var x := Asked(met, conn, SearchReq(name));
    assert x.1.failed == met.failed;
    hide Asked, Serves, Served, Posted, Quiet, StoresAfter, Fits, ContentsFit, StoreFits;
    if Serves(x.0) {
      StoresAfterQuiet(x.1, conn, name, c, -1, told.Some?, m2, b);
    }
  }

  lemma {:induction false} PutKeeps(conf: Conf, w: World, conn: nat, h: Handle, timeout: int, w': World, h': Handle)
    requires conf.k.Laws() && Tended(conf, w) && Sound(conf, w, h) && Does(conf, w, conn, h, Put(timeout), w', h')
    requires h.clean && conn !in w.hub.failed
    ensures Tended(conf, w') && Sound(conf, w', h')
  {
    hide Holds, Stable, Flushed, Stuck, Quiet, Fits, ContentsFit, StoresAfter;
    var arrives, m :| StoresAfter(w.hub, conn, h.name, h.c, timeout, arrives, m, w'.hub);
    StoresAfterQuiet(w.hub, conn, h.name, h.c, timeout, arrives, m, w'.hub);
    StoresChange(w.hub, conn, h.name, h.c, timeout, arrives, m, w'.hub);
    hide Does;
    var a, b := w.hub.state.store, w'.hub.state.store;
    forall n | n in b ensures n in w'.disk && Holds(conf, w'.disk[n], b[n]) {
      assert n == h.name || n in a;
    }
  }

  lemma {:induction false} StoresChange(a: Hub, conn: nat, name: Name, c: Contents, timeout: int, arrives: bool, m: Hub, b: Hub)
    requires StoresAfter(a, conn, name, c, timeout, arrives, m, b) && Shrunk(a.state, m.state)
    ensures b.state.store.Keys <= a.state.store.Keys + {name}
    ensures forall n :: n in b.state.store ==> (n == name && b.state.store[n] == c) || (n in a.state.store && b.state.store[n] == a.state.store[n])
  {
    hide Flushed, Stuck;
  }

  lemma {:induction false} DeleteChanges(a: Hub, conn: nat, name: Name, b: Hub)
    requires Quiet(a) && AgentDeletes(a, conn, name, b) && conn !in a.failed
    ensures Quiet(b) && b.state.store.Keys <= a.state.store.Keys - {name}
    ensures forall n :: n in b.state.store ==> b.state.store[n] == a.state.store[n]
  {
    var met :| Flushed(a, conn, met) && StoreFits(met.state.store) && DeletedFrom(met, conn, name, b);
    hide Flushed, Confirms, Quiet, Grown, Fits, ContentsFit;
    FlushedQuiet(a, conn, met);
    AskedQuiet(met, conn, DiscardReq(name));
    assert b.state.store == met.state.store - {name};
  }

  lemma {:induction false} DeleteKeeps(conf: Conf, w: World, conn: nat, h: Handle, w': World, h': Handle)
    requires conf.k.Laws() && Tended(conf, w) && Sound(conf, w, h) && Does(conf, w, conn, h, Delete, w', h')
    requires conn !in w.hub.failed
    ensures Tended(conf, w') && Sound(conf, w', h')
  {
    hide Holds, Stable, AgentDeletes, Quiet;
    DeleteChanges(w.hub, conn, h.name, w'.hub);
  }

  /** After a rename that gets through no entry is left under the old name, and the entries that are left
      are the old ones, or the renamed one. */
  lemma {:induction false} RenameChanges(a: Hub, conn: nat, from: Name, to: Name, c: Contents, b: Hub)
    requires Quiet(a) && AgentRenames(a, conn, from, to, c, b) && Fits(to, PATH_MAX) && ContentsFit(c)
    requires conn !in b.failed
    ensures Quiet(b) && b.state.store.Keys <= (a.state.store.Keys - {from}) + {to}
    ensures forall n :: n in b.state.store && n != to ==> b.state.store[n] == a.state.store[n]
    ensures to in b.state.store ==> b.state.store[to] == c || (to in a.state.store && b.state.store[to] == a.state.store[to])
  {
    hide Flushed, Fails, Quiet, Fits, ContentsFit, StoreFits, RenamedFrom;
    var met, arrives, m2 :| RenamesVia(a, conn, from, to, c, met, arrives, m2, b);
    if Fails(a, conn, DiscardReq(from), b) {
      FailsKeeps(a, conn, DiscardReq(from), b);
    }
    RenamedKeeps(met, conn, from, to, c, arrives, m2, b);
    FlushedKeeps(a, conn, met);
    FlushedQuiet(a, conn, met);
    RenamedChanges(met, conn, from, to, c, arrives, m2, b);
    assert met.state.store.Keys <= a.state.store.Keys;
    hide Grown;
  }

  lemma {:induction false} RenamedKeeps(met: Hub, conn: nat, from: Name, to: Name, c: Contents, arrives: bool, m2: Hub, b: Hub)
    requires StoreFits(met.state.store) && RenamedFrom(met, conn, from, to, c, arrives, m2, b)
    ensures met.missed <= b.missed && met.failed <= b.failed
  {
    var x := Asked(met, conn, DiscardReq(from));
    assert x.1.missed == met.missed && x.1.failed == met.failed;
    hide Asked, Confirms, StoresAfter;
    if Confirms(x.0) {
      StoresKeeps(x.1, conn, to, c, -1, arrives, m2, b);
    }
  }

  lemma {:induction false} RenamedChanges(met: Hub, conn: nat, from: Name, to: Name, c: Contents, arrives: bool, m2: Hub, b: Hub)
    requires Quiet(met) && StoreFits(met.state.store) && RenamedFrom(met, conn, from, to, c, arrives, m2, b)
    requires conn !in met.failed && Fits(to, PATH_MAX) && ContentsFit(c)
    ensures Quiet(b) && b.state.store.Keys <= (met.state.store.Keys - {from}) + {to}
    ensures forall n :: n in b.state.store && n != to ==> b.state.store[n] == met.state.store[n]
    ensures to in b.state.store ==> b.state.store[to] == c || (to in met.state.store && b.state.store[to] == met.state.store[to])
  {
    AskedQuiet(met, conn, DiscardReq(from));
    var x := Asked(met, conn, DiscardReq(from));
    assert x.1.state.store == met.state.store - {from} && x.1.failed == met.failed;
    hide Confirms, Quiet, StoresAfter, Asked, Fits, ContentsFit, StoreFits;
    if Confirms(x.0) {
      StoresAfterQuiet(x.1, conn, to, c, -1, arrives, m2, b);
      StoresChange(x.1, conn, to, c, -1, arrives, m2, b);
    }
  }

  lemma {:induction false} RenameKeeps(conf: Conf, w: World, conn: nat, h: Handle, to: Name, w': World, h': Handle)
    requires conf.k.Laws() && Tended(conf, w) && Sound(conf, w, h) && Does(conf, w, conn, h, Rename(to), w', h')
    requires h.clean && to !in w.disk && conn !in w'.hub.failed
    ensures Tended(conf, w') && Sound(conf, w', h')
  {
    hide Holds, Stable, AgentRenames, Quiet, Fits, ContentsFit;
    RenameChanges(w.hub, conn, h.name, to, h.c, w'.hub);
    hide Does;
    var a, b := w.hub.state.store, w'.hub.state.store;
    assert to !in a;
    forall n | n in b ensures n in w'.disk && Holds(conf, w'.disk[n], b[n]) {
      if n != to {
        assert n in a && n != h.name && w'.disk[n] == w.disk[n];
      }
    }
  }

  lemma {:induction false} DoesKeeps(conf: Conf, w: World, conn: nat, h: Handle, op: Op, w': World, h': Handle)
    requires conf.k.Laws() && Tended(conf, w) && Sound(conf, w, h)
    requires Does(conf, w, conn, h, op, w', h') && CarefulOp(w, conn, h, op, w')
    ensures Tended(conf, w') && Sound(conf, w', h')
    ensures w'.disk - Touched(h, op) == w.disk - Touched(h, op)
  {
    match op
    case Open(name, force) => OpenKeeps(conf, w, conn, h, name, force, w', h');
    case Create(name) =>
    case Edit(c) =>
    case Save => SaveKeeps(conf, w, conn, h, w', h');
    case Put(timeout) => PutKeeps(conf, w, conn, h, timeout, w', h');
    case Delete => DeleteKeeps(conf, w, conn, h, w', h');
    case Rename(to) => RenameKeeps(conf, w, conn, h, to, w', h');
    case Close =>
  }

  lemma {:induction false} OthersSound(conf: Conf, w: World, h: Handle, touched: set<Name>, w': World)
    requires conf.k.Laws() && Sound(conf, w, h) && w'.disk - touched == w.disk - touched
    ensures Sound(conf, w', Seen(h, touched))
  {
    hide Holds;
    if h.Handle? && h.clean && h.name !in touched {
      assert h.name in w.disk - touched;
      assert w'.disk[h.name] == (w'.disk - touched)[h.name] == (w.disk - touched)[h.name];
    }
  }

  lemma {:induction false} StepKeeps(conf: Conf, s: System, cmd: Command, s': System)
    requires conf.k.Laws() && Inv(conf, s) && Step(conf, s, cmd, s') && Careful(s, cmd, s')
    ensures Inv(conf, s')
  {
    hide Does, CarefulOp, Tended, Sound;
    match cmd
    case Do(conn, id, op) =>
      var touched := Touched(s.At(id), op);
      DoesKeeps(conf, s.w, conn, s.At(id), op, s'.w, s'.At(id));
      forall i ensures Sound(conf, s'.w, s'.At(i)) {
        if i != id {
          OthersSound(conf, s.w, s.At(i), touched, s'.w);
        }
      }
    case Pause =>
      PauseKeeps(conf, s.w, s'.w);
      forall i ensures Sound(conf, s'.w, s'.At(i)) {
        assert Seen(s.At(i), {}) == s'.At(i);
        OthersSound(conf, s.w, s.At(i), {}, s'.w);
      }
  }

  // ---- The results about whole runs ----

  ghost predicate Run(conf: Conf, trace: seq<System>, cmds: seq<Command>)
    requires conf.k.Laws()
  {
    && |trace| == |cmds| + 1 && Inv(conf, trace[0])
    && forall i :: 0 <= i < |cmds| ==> Step(conf, trace[i], cmds[i], trace[i + 1])
  }

  ghost predicate CarefulRun(trace: seq<System>, cmds: seq<Command>)
    requires |trace| == |cmds| + 1
  {
    forall i :: 0 <= i < |cmds| ==> Careful(trace[i], cmds[i], trace[i + 1])
  }

  /** Over every run of successful operations of any number of connected clients, with timers firing in
      between and none of them in vain, and no connection used again once a send or a receive on it has
      failed, every safe in the agent is on disk with the same password and metadata, and every clean
      handle holds what its file holds. */
  lemma {:induction false} AgreementOverRuns(conf: Conf, trace: seq<System>, cmds: seq<Command>)
    requires conf.k.Laws() && Run(conf, trace, cmds) && CarefulRun(trace, cmds)
    ensures Inv(conf, trace[|cmds|]) && Agreement(conf, trace[|cmds|].w)
  {
    if cmds != [] {
      var n := |cmds| - 1;
      assert Run(conf, trace[..n + 1], cmds[..n]) && CarefulRun(trace[..n + 1], cmds[..n]);
      AgreementOverRuns(conf, trace[..n + 1], cmds[..n]);
      StepKeeps(conf, trace[n], cmds[n], trace[n + 1]);
    }
  }

  /** So after such a run an open that the agent may serve returns what an open forced to read the file
      returns, unless its connection has failed before or a timer of it has fired in vain. */
  lemma {:induction false} ServedIsForced(
      conf: Conf, trace: seq<System>, cmds: seq<Command>, name: Name,
      conn: nat, id: nat, s': System, conn2: nat, id2: nat, s2: System)
    requires conf.k.Laws() && Run(conf, trace, cmds) && CarefulRun(trace, cmds)
    requires Step(conf, trace[|cmds|], Do(conn, id, Open(name, false)), s')
    requires conn !in trace[|cmds|].w.hub.failed && conn !in s'.w.hub.missed
    requires Step(conf, trace[|cmds|], Do(conn2, id2, Open(name, true)), s2)
    ensures s'.At(id).c == s2.At(id2).c
  {
    AgreementOverRuns(conf, trace, cmds);
    var s := trace[|cmds|];
    hide Run, CarefulRun, Tended, Holds;
    StepKeeps(conf, s, Do(conn, id, Open(name, false)), s');
    StepKeeps(conf, s, Do(conn2, id2, Open(name, true)), s2);
    assert Sound(conf, s'.w, s'.At(id)) && Sound(conf, s2.w, s2.At(id2));
    HoldsOne(conf, s.w.disk[name], s'.At(id).c, s2.At(id2).c);
  }
}
