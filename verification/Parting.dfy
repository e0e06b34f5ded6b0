/** Exactly when single operations keep the agent's copies and the files in agreement: whatever is unread,
    whatever a failed send has left queued, and whatever timers fire meanwhile. */
module Parting {
  import opened Bytes
  import opened Store
  import opened Protocol
  import opened Inbox
  import opened Cache

  /** Agreement about one name. */
  ghost predicate AgreesAt(conf: Conf, w: World, n: Name)
    requires conf.k.Laws()
  {
    n in w.hub.state.store ==> n in w.disk && Holds(conf, w.disk[n], w.hub.state.store[n])
  }

  // ---- Opening ----

  /** An open: the handle holds what the file holds if and only if no safe is served, or one with the same
      contents. If something was unread and the exchange does not fail, the oldest unread reply decides. */
  lemma {:induction false} OpenAgrees(conf: Conf, disk: map<Name, seq<Byte>>, a: Hub, conn: nat, name: Name, met: Hub, served: Option<Contents>, b: Hub, h: Handle)
    requires conf.k.Laws() && name in disk && Stable(conf, disk[name])
    requires Posted(a) && OpensVia(a, conn, name, met, served, b)
    requires h.Handle? && h.name == name
    requires if served.Some? then h.c == served.value else FileOpens(conf, disk[name], h.c)
    ensures Current(conf, World(disk, b), h) <==> (served.Some? ==> Holds(conf, disk[name], served.value))
    ensures a.Unread(conn) != [] && conn !in b.failed ==>
              var r := a.Unread(conn)[0]; served == if Serves(r) then Some(Served(r).Value()) else None
  {
    hide Holds, Stable, FileOpens, OpensVia, Posted;
    if served.None? {
      StableHolds(conf, disk[name], h.c);
    }
    if a.Unread(conn) != [] && conn !in b.failed {
      OldestServes(a, conn, name, met, served, b);
    }
  }

  lemma {:induction false} OldestServes(a: Hub, conn: nat, name: Name, met: Hub, served: Option<Contents>, b: Hub)
    requires Posted(a) && OpensVia(a, conn, name, met, served, b) && a.Unread(conn) != [] && conn !in b.failed
    ensures var r := a.Unread(conn)[0]; served == if Serves(r) then Some(Served(r).Value()) else None
  {
    hide Serves, Served, Posted, Flushed, Fails, StoreFits;
    if Fails(a, conn, SearchReq(name), b) {
      FailsKeeps(a, conn, SearchReq(name), b);
    }
    FlushedPosted(a, conn, met);
    OwnAnswer(met, conn, SearchReq(name));
    assert a.Unread(conn) <= met.Unread(conn);
    assert met.Unread(conn)[0] == a.Unread(conn)[0];
  }

  // ---- Saving ----

  /** The name under which a save sends its store, as the first unread reply has it. */
  function Told(met: Hub, conn: nat, name: Name): Option<Name>
    requires StoreFits(met.state.store)
  {
    var r := Asked(met, conn, SearchReq(name)).0;
    if Serves(r) then Some(CStr(Served(r).name)) else None
  }

  /** With nothing unread that is the safe's own name, if the agent has it; otherwise it is whatever safe
      the oldest unread reply is about, if it is about one. */
  lemma {:induction false} ToldWhat(a: Hub, conn: nat, name: Name)
    requires Posted(a)
    ensures a.Unread(conn) == [] ==> Told(a, conn, name) == if name in a.state.store then Some(name) else None
    ensures forall n, c :: a.Unread(conn) != [] && Fits(n, PATH_MAX) && ContentsFit(c) && a.Unread(conn)[0] == Found(n, c)
              ==> Told(a, conn, name) == Some(n)
    ensures a.Unread(conn) != [] && a.Unread(conn)[0] in {NoSuchSafe(), Discarded()} ==> Told(a, conn, name) == None
  {
    if a.Unread(conn) == [] {
      FirstAnswer(a, conn, name);
    } else {
      OwnAnswer(a, conn, SearchReq(name));
      forall n, c | Fits(n, PATH_MAX) && ContentsFit(c) && a.Unread(conn)[0] == Found(n, c)
        ensures Told(a, conn, name) == Some(n)
      {
        FoundServes(n, c);
      }
    }
  }

  /** What a save does in the agent: one store without a timeout, under the name that the first unread reply
      has when the search is handled, on the agent as it is when that store arrives; or nothing. */
  lemma {:induction false} SaveTells(a: Hub, conn: nat, name: Name, c: Contents, met: Hub, told: Option<Name>, m2: Hub, b: Hub)
    requires Posted(a) && SavesVia(a, conn, name, c, met, told, m2, b)
    ensures b.state == match told
                       case Some(n) => m2.state.(store := m2.state.store[n := c])
                       case None => m2.state
    ensures conn !in b.failed ==> StoreFits(met.state.store) && told == Told(met, conn, name)
    ensures told.Some? ==> StoreFits(met.state.store) && told == Told(met, conn, name)
  {
    hide Posted, Flushed, Stuck, StoresAfter, StoreFits, Serves, Served, Genuine, Fails;
    if Fails(a, conn, SearchReq(name), b) && told == None && m2 == b {
      FailsKeeps(a, conn, SearchReq(name), b);
    } else {
      FlushedPosted(a, conn, met);
      AskedPosted(met, conn, SearchReq(name));
      var x := Asked(met, conn, SearchReq(name));
      hide Asked;
      if Serves(x.0) {
        GenuineServes(x.0);
        ToldStores(x.1, conn, CStr(Served(x.0).name), c, told.Some?, m2, b);
      }
    }
  }

  lemma {:induction false} ToldStores(a: Hub, conn: nat, name: Name, c: Contents, arrives: bool, m: Hub, b: Hub)
    requires StoresAfter(a, conn, name, c, -1, arrives, m, b)
    ensures b.state == if arrives then m.state.(store := m.state.store[name := c]) else m.state
    ensures conn !in b.failed ==> arrives
  {
    StoresKeeps(a, conn, name, c, -1, arrives, m, b);
    hide Flushed, Stuck;
  }

  /** So it leaves every other entry and the set of keys alone if and only if the name told is its own and
      still there, or that of an entry with the very same contents, or none. */
  lemma {:induction false} SaveSparesOthers(a: Hub, conn: nat, name: Name, c: Contents, met: Hub, told: Option<Name>, m2: Hub, b: Hub)
    requires Posted(a) && SavesVia(a, conn, name, c, met, told, m2, b)
    ensures b.state.store.Keys == m2.state.store.Keys
              && (forall n :: n in m2.state.store && n != name ==> b.state.store[n] == m2.state.store[n])
            <==> match told
                 case Some(n) => n in m2.state.store && (n == name || m2.state.store[n] == c)
                 case None => true
  {
    SaveTells(a, conn, name, c, met, told, m2, b);
    hide SavesVia, Posted;
    if told.Some? {
      assert told.value in b.state.store && b.state.store[told.value] == c;
    }
  }

  /** A file written without the agent hearing of it (no agent connected, or the exchange failed): the two
      agree afterwards if and only if the agent does not hold the name, or holds the same contents. */
  lemma {:induction false} UnheardSave(conf: Conf, w: World, name: Name, f: seq<Byte>, c: Contents)
    requires conf.k.Laws() && Agreement(conf, w) && Holds(conf, f, c)
    ensures Agreement(conf, w.(disk := w.disk[name := f]))
            <==> (name in w.hub.state.store ==> w.hub.state.store[name] == c)
  {
    var w' := w.(disk := w.disk[name := f]);
    if name in w.hub.state.store && Agreement(conf, w') {
      HoldsOne(conf, f, w.hub.state.store[name], c);
    }
  }

  /** The file of one safe written, and the same contents stored under the name of another. */
  lemma {:induction false} MisdirectedSave(conf: Conf, w: World, name: Name, n: Name, f: seq<Byte>, c: Contents, w': World)
    requires conf.k.Laws() && Agreement(conf, w) && Holds(conf, f, c) && n != name
    requires w'.disk == w.disk[name := f] && w'.hub.state.store == w.hub.state.store[n := c]
    ensures var store := w.hub.state.store;
            Agreement(conf, w') <==> n in w.disk && Holds(conf, w.disk[n], c) && (name in store ==> store[name] == c)
  {
    var store, b := w.hub.state.store, w'.hub.state.store;
    if name in store && Agreement(conf, w') {
      assert name in b;
      HoldsOne(conf, f, store[name], c);
    }
    hide Holds;
    assert n in b && b[n] == c;
  }

  /** A save, with anything unread or queued and timers firing as they may: if the copies agree when its
      store arrives, or at its end when none does, they agree after it if and only if the safe told is
      this one, or both another one whose file holds the same contents and this one is not cached with
      other contents. */
  lemma {:induction false} SaveAgrees(conf: Conf, disk: map<Name, seq<Byte>>, a: Hub, conn: nat, name: Name, c: Contents, f: seq<Byte>, met: Hub, told: Option<Name>, m2: Hub, b: Hub)
    requires conf.k.Laws() && Posted(a) && SavesVia(a, conn, name, c, met, told, m2, b)
    requires Agreement(conf, World(disk, m2)) && Holds(conf, f, c)
    ensures var store := m2.state.store;
            Agreement(conf, World(disk[name := f], b))
            <==> told == Some(name)
                 || ((told.Some? ==> told.value in disk && Holds(conf, disk[told.value], c))
                     && (name in store ==> store[name] == c))
  {
    SaveTells(a, conn, name, c, met, told, m2, b);
    hide Holds, SavesVia, Posted, Fits, ContentsFit, StoreFits;
    var w, w' := World(disk, m2), World(disk[name := f], b);
    if told == None {
      UnheardSave(conf, w, name, f, c);
    } else if told != Some(name) {
      hide Agreement;
      MisdirectedSave(conf, w, name, told.value, f, c, w');
    }
  }

  /** The same name by name, whether or not the copies agree elsewhere. */
  lemma {:induction false} SaveAgreesAt(conf: Conf, disk: map<Name, seq<Byte>>, a: Hub, conn: nat, name: Name, c: Contents, f: seq<Byte>, met: Hub, told: Option<Name>, m2: Hub, b: Hub, n: Name)
    requires conf.k.Laws() && Posted(a) && SavesVia(a, conn, name, c, met, told, m2, b) && Holds(conf, f, c)
    ensures var store := m2.state.store;
            AgreesAt(conf, World(disk[name := f], b), n)
            <==> if told == Some(n) then n == name || (n in disk && Holds(conf, disk[n], c))
                 else if n == name then name in store ==> store[name] == c
                 else AgreesAt(conf, World(disk, m2), n)
  {
    SaveTells(a, conn, name, c, met, told, m2, b);
    hide SavesVia, Posted, StoreFits;
    if n == name && n in m2.state.store && Holds(conf, f, m2.state.store[n]) {
      HoldsOne(conf, f, m2.state.store[n], c);
    }
    hide Holds;
  }

  /** Time takes nothing from agreement, so that on a connection on which nothing is queued the copies agree
      when the store of a save arrives if they agreed before. */
  lemma {:induction false} AgreesOnArrival(conf: Conf, disk: map<Name, seq<Byte>>, a: Hub, conn: nat, name: Name, c: Contents, met: Hub, told: Option<Name>, m2: Hub, b: Hub)
    requires conf.k.Laws() && Agreement(conf, World(disk, a)) && a.Held(conn) == []
    requires SavesVia(a, conn, name, c, met, told, m2, b) && conn !in b.failed
    ensures Agreement(conf, World(disk, met)) && Agreement(conf, World(disk, m2))
  {
    hide Holds, Flushed, StoresAfter, StoreFits, Serves, Served, Fails, Stuck;
    if Fails(a, conn, SearchReq(name), b) {
      FailsKeeps(a, conn, SearchReq(name), b);
    }
    ArrivesShrunk(a, conn, met);
    var x := Asked(met, conn, SearchReq(name));
    assert x.1.state == met.state && x.1.Held(conn) == met.Held(conn) == [];
    hide Asked;
    if Serves(x.0) {
      var n, timeout := CStr(Served(x.0).name), Served(x.0).timeout;
      StoresKeeps(x.1, conn, n, c, timeout, told.Some?, m2, b);
      assert Flushed(x.1, conn, m2) by { StoredArrives(x.1, conn, n, c, timeout, told.Some?, m2, b); }
      ArrivesShrunk(x.1, conn, m2);
    }
  }

  lemma {:induction false} StoredArrives(a: Hub, conn: nat, name: Name, c: Contents, timeout: int, arrives: bool, m: Hub, b: Hub)
    requires StoresAfter(a, conn, name, c, timeout, arrives, m, b) && conn !in b.failed
    ensures arrives && Flushed(a, conn, m)
  {
    StoresKeeps(a, conn, name, c, timeout, arrives, m, b);
  }

  lemma {:induction false} ArrivesShrunk(a: Hub, conn: nat, m: Hub)
    requires a.Held(conn) == [] && Flushed(a, conn, m)
    ensures Shrunk(a.state, m.state) && m.Held(conn) == []
  {
    NothingHeld(a, conn, m);
    FlushedKeeps(a, conn, m);
    Ages(a, m);
  }

  // ---- Storing and renaming ----

  /** A store that arrives keeps the copies in agreement if and only if the handle holds what the file
      holds. */
  lemma {:induction false} PutAgrees(conf: Conf, disk: map<Name, seq<Byte>>, conn: nat, h: Handle, timeout: int, m: Hub)
    requires conf.k.Laws() && Agreement(conf, World(disk, m)) && h.Handle?
    ensures Agreement(conf, World(disk, Stored(m, conn, h.name, h.c, timeout))) <==> Current(conf, World(disk, m), h)
  {
    hide Holds;
    var b := Stored(m, conn, h.name, h.c, timeout).state.store;
    assert h.name in b && b[h.name] == h.c;
  }

  lemma {:induction false} OwnConfirms(a: Hub, conn: nat, name: Name)
    requires Posted(a) && a.Unread(conn) == []
    ensures Confirms(Asked(a, conn, DiscardReq(name)).0) <==> name in a.state.store
  {
    OwnAnswer(a, conn, DiscardReq(name));
    DeservedGenuine(a.state.store, DiscardReq(name));
  }

  lemma {:induction false} FileMoved(conf: Conf, w: World, from: Name, to: Name, w': World)
    requires conf.k.Laws() && Agreement(conf, w) && from in w.disk
    requires w'.disk == (w.disk - {from})[to := w.disk[from]]
    requires w'.hub.state.store - {to} == w.hub.state.store - {to}
    ensures Agreement(conf, w')
            <==> (to in w'.hub.state.store ==> Holds(conf, w.disk[from], w'.hub.state.store[to]))
                 && (from != to ==> from !in w.hub.state.store)
  {
    hide Holds;
    var a, b := w.hub.state.store, w'.hub.state.store;
    forall n | n != to ensures (n in b <==> n in a) && (n in b ==> b[n] == a[n]) {
      assert n in b <==> n in b - {to};
      assert n in a <==> n in a - {to};
      assert n in b ==> (b - {to})[n] == b[n];
    }
    assert from != to ==> from !in w'.disk;
    forall n | n in b && n != to && n != from ensures n in a && a[n] == b[n] && n in w'.disk && w'.disk[n] == w.disk[n] {
    }
  }

  /** What a rename does in the agent: one store under the new name, or nothing; and a discard that gets
      through leaves nothing under the old name. */
  lemma {:induction false} RenameTells(a: Hub, conn: nat, from: Name, to: Name, c: Contents, met: Hub, arrives: bool, m2: Hub, b: Hub)
    requires Posted(a) && RenamesVia(a, conn, from, to, c, met, arrives, m2, b)
    ensures b.state == if arrives then m2.state.(store := m2.state.store[to := c]) else m2.state
    ensures conn !in b.failed ==>
              && from !in m2.state.store && StoreFits(met.state.store)
              && (arrives <==> Confirms(Asked(met, conn, DiscardReq(from)).0))
  {
    hide Posted, Flushed, Stuck, StoresAfter, StoreFits, Confirms, Fails;
    if Fails(a, conn, DiscardReq(from), b) && !arrives && m2 == b {
      FailsKeeps(a, conn, DiscardReq(from), b);
    } else {
      FlushedPosted(a, conn, met);
      FlushedKeeps(a, conn, met);
      var x := Asked(met, conn, DiscardReq(from));
      assert x.1.state.store == met.state.store - {from} && x.1.Held(conn) == met.Held(conn) == [];
      hide Asked;
      if Confirms(x.0) {
        ToldStores(x.1, conn, to, c, arrives, m2, b);
        if conn !in b.failed {
          StoredArrives(x.1, conn, to, c, -1, arrives, m2, b);
          ArrivesShrunk(x.1, conn, m2);
        }
      }
    }
  }

  /** A rename, to any name, from any handle, with anything unread or queued and timers firing as they may:
      if the copies agree when its store arrives, or at its end when none does, they agree after it if and
      only if a store that arrives carries what the file holds; without one, the agent has nothing else
      under the new name; and it has nothing left under the old one, which a discard that gets through
      sees to. */
  lemma {:induction false} RenameAgrees(conf: Conf, disk: map<Name, seq<Byte>>, a: Hub, conn: nat, from: Name, to: Name, c: Contents, met: Hub, arrives: bool, m2: Hub, b: Hub)
    requires conf.k.Laws() && Posted(a) && from in disk && RenamesVia(a, conn, from, to, c, met, arrives, m2, b)
    requires Agreement(conf, World(disk, m2))
    ensures var store := m2.state.store;
            Agreement(conf, World((disk - {from})[to := disk[from]], b))
            <==> (if arrives then Holds(conf, disk[from], c) else to in store ==> Holds(conf, disk[from], store[to]))
                 && (from != to ==> from !in store)
    ensures conn !in b.failed ==> from !in m2.state.store
    ensures conn !in b.failed && met.Unread(conn) == [] ==> (arrives <==> from in met.state.store)
  {
    RenameTells(a, conn, from, to, c, met, arrives, m2, b);
    RenameMet(a, conn, from, to, c, met, arrives, m2, b);
    hide Holds, RenamesVia, Posted, Confirms, Asked, Agreement, Fits, ContentsFit, StoreFits;
    if conn !in b.failed && met.Unread(conn) == [] {
      OwnConfirms(met, conn, from);
    }
    var store := m2.state.store;
    assert store[to := c] - {to} == store - {to};
    FileMoved(conf, World(disk, m2), from, to, World((disk - {from})[to := disk[from]], b));
  }

  /** The same name by name, whether or not the copies agree elsewhere. */
  lemma {:induction false} RenameAgreesAt(conf: Conf, disk: map<Name, seq<Byte>>, a: Hub, conn: nat, from: Name, to: Name, c: Contents, met: Hub, arrives: bool, m2: Hub, b: Hub, n: Name)
    requires conf.k.Laws() && Posted(a) && from in disk && RenamesVia(a, conn, from, to, c, met, arrives, m2, b)
    ensures var store := m2.state.store;
            AgreesAt(conf, World((disk - {from})[to := disk[from]], b), n)
            <==> if n == to then (if arrives then Holds(conf, disk[from], c) else to in store ==> Holds(conf, disk[from], store[to]))
                 else if n == from then from !in store
                 else AgreesAt(conf, World(disk, m2), n)
  {
    RenameTells(a, conn, from, to, c, met, arrives, m2, b);
    hide Holds, RenamesVia, Posted;
    var disk' := (disk - {from})[to := disk[from]];
    assert n != to && n != from ==> (n in disk' <==> n in disk) && (n in disk ==> disk'[n] == disk[n]);
  }

  lemma {:induction false} RenameMet(a: Hub, conn: nat, from: Name, to: Name, c: Contents, met: Hub, arrives: bool, m2: Hub, b: Hub)
    requires Posted(a) && RenamesVia(a, conn, from, to, c, met, arrives, m2, b)
    ensures conn !in b.failed ==> Posted(met)
  {
    hide Posted, Flushed, StoresAfter, StoreFits, Fails;
    if Fails(a, conn, DiscardReq(from), b) && met == b {
      FailsKeeps(a, conn, DiscardReq(from), b);
    } else {
      FlushedPosted(a, conn, met);
    }
  }

  // ---- What a failed send has left queued ----

  /** The agent after it has handled a list of requests at once. */
  function AllHandled(a: Hub, conn: nat, q: seq<Request>): (b: Hub)
    requires StoreFits(a.state.store) && forall k :: 0 <= k < |q| ==> Proper(q[k])
    decreases |q|
  {
    if q == [] then a
    else
      HandledFits(a, conn, q[0]);
      AllHandled(Handled(a, conn, q[0]), conn, q[1..])
  }

  lemma {:induction false} HandledAtOnce(a: Hub, conn: nat, q: seq<Request>)
    requires StoreFits(a.state.store) && forall k :: 0 <= k < |q| ==> Proper(q[k])
    ensures Delivered(a, conn, q, AllHandled(a, conn, q))
    decreases |q|
  {
    hide Elapsed, Handled, Proper;
    ElapsedRefl(a);
    if q != [] {
      assert StoreFits(Handled(a, conn, q[0]).state.store) by { HandledFits(a, conn, q[0]); }
      HandledAtOnce(Handled(a, conn, q[0]), conn, q[1..]);
    }
  }

  lemma {:induction false} HandledFits(a: Hub, conn: nat, r: Request)
    requires StoreFits(a.state.store) && Proper(r)
    ensures StoreFits(Handled(a, conn, r).state.store)
  {
    RequestKeepsFits(a.state, a.now, conn, r);
  }

  /** What one request leaves under a name, and what a list of them does. */
  function Leaves(r: Request, name: Name, before: Option<Contents>): Option<Contents> {
    match r
    case StoreReq(u) => if u.AllTerminated() && CStr(u.name) == name then Some(u.Value()) else before
    case DiscardReq(n) => if n == name then None else before
    case _ => before
  }

  function LastSaid(q: seq<Request>, name: Name, before: Option<Contents>): Option<Contents>
    decreases |q|
  {
    if q == [] then before else LastSaid(q[1..], name, Leaves(q[0], name, before))
  }

  lemma {:induction false} HandledLeaves(a: Hub, conn: nat, r: Request, name: Name)
    requires StoreFits(a.state.store) && Proper(r)
    ensures Lookup(Handled(a, conn, r).state.store, name) == Leaves(r, name, Lookup(a.state.store, name))
  {
  }

  lemma {:induction false} AllHandledLeaves(a: Hub, conn: nat, q: seq<Request>, name: Name)
    requires StoreFits(a.state.store) && forall k :: 0 <= k < |q| ==> Proper(q[k])
    ensures Lookup(AllHandled(a, conn, q).state.store, name) == LastSaid(q, name, Lookup(a.state.store, name))
    decreases |q|
  {
    hide Handled, Proper, Leaves, Lookup;
    if q != [] {
      HandledFits(a, conn, q[0]);
      HandledLeaves(a, conn, q[0], name);
      AllHandledLeaves(Handled(a, conn, q[0]), conn, q[1..], name);
    }
  }

  /** Either the list says nothing of the name, or what was there before does not matter. */
  lemma {:induction false} SaidOrNot(q: seq<Request>, name: Name, x: Option<Contents>, y: Option<Contents>)
    ensures (LastSaid(q, name, x) == x && LastSaid(q, name, y) == y) || LastSaid(q, name, x) == LastSaid(q, name, y)
    decreases |q|
  {
    if q != [] {
      SaidOrNot(q[1..], name, Leaves(q[0], name, x), Leaves(q[0], name, y));
    }
  }

  /** Requests that arrive late, all at once, keep the copies in agreement if and only if the contents that
      the last store among them leaves under a name are those of its file, for every name that they
      leave stored. */
  lemma {:induction false} LateRequestsAgree(conf: Conf, disk: map<Name, seq<Byte>>, a: Hub, conn: nat, q: seq<Request>)
    requires conf.k.Laws() && Posted(a) && ProperList(q) && Agreement(conf, World(disk, a))
    ensures Delivered(a, conn, q, AllHandled(a, conn, q))
    ensures Agreement(conf, World(disk, AllHandled(a, conn, q)))
            <==> forall n :: LastSaid(q, n, None).Some? ==> n in disk && Holds(conf, disk[n], LastSaid(q, n, None).value)
  {
    HandledAtOnce(a, conn, q);
    var b := AllHandled(a, conn, q);
    forall n ensures Lookup(b.state.store, n) == LastSaid(q, n, Lookup(a.state.store, n)) {
      AllHandledLeaves(a, conn, q, n);
    }
    forall n ensures (LastSaid(q, n, None).Some? ==> Lookup(b.state.store, n) == LastSaid(q, n, None))
                     && (LastSaid(q, n, None).None? ==> Lookup(b.state.store, n) == None || Lookup(b.state.store, n) == Lookup(a.state.store, n))
    {
      SaidOrNot(q, n, None, Lookup(a.state.store, n));
      assert Lookup(b.state.store, n) == LastSaid(q, n, Lookup(a.state.store, n));
    }
    hide Holds, AllHandled, LastSaid, Posted, Delivered, ProperList;
    LateAgree(conf, disk, a, b, q);
  }

  lemma {:induction false} LateAgree(conf: Conf, disk: map<Name, seq<Byte>>, a: Hub, b: Hub, q: seq<Request>)
    requires conf.k.Laws() && Agreement(conf, World(disk, a))
    requires forall n :: LastSaid(q, n, None).Some? ==> Lookup(b.state.store, n) == LastSaid(q, n, None)
    requires forall n :: LastSaid(q, n, None).None? ==>
               Lookup(b.state.store, n) == None || Lookup(b.state.store, n) == Lookup(a.state.store, n)
    ensures Agreement(conf, World(disk, b))
            <==> forall n :: LastSaid(q, n, None).Some? ==> n in disk && Holds(conf, disk[n], LastSaid(q, n, None).value)
  {
    hide Holds, LastSaid;
    if Agreement(conf, World(disk, b)) {
      forall n | LastSaid(q, n, None).Some? ensures n in disk && Holds(conf, disk[n], LastSaid(q, n, None).value) {
        assert n in b.state.store;
      }
    }
    if forall n :: LastSaid(q, n, None).Some? ==> n in disk && Holds(conf, disk[n], LastSaid(q, n, None).value) {
      forall n | n in b.state.store ensures n in disk && Holds(conf, disk[n], b.state.store[n]) {
        if LastSaid(q, n, None).None? {
          assert n in a.state.store && a.state.store[n] == b.state.store[n];
        }
      }
    }
  }

  // ---- An entry that expires while it is being saved ----

  /** A save adds a key if and only if the agent does not have the name told when the store arrives, and it
      arms no timer. With nothing unread the name told is the one just found, so that the entry has
      expired between the search and the store, and the save puts it back. */
  lemma {:induction false} SaveRevives(a: Hub, conn: nat, name: Name, c: Contents, met: Hub, told: Option<Name>, m2: Hub, b: Hub)
    requires Posted(a) && SavesVia(a, conn, name, c, met, told, m2, b)
    ensures b.state.store.Keys != m2.state.store.Keys <==> told.Some? && told.value !in m2.state.store
    ensures b.state.timers == m2.state.timers
    ensures told.Some? && met.Unread(conn) == [] ==> told == Some(name) && name in met.state.store
    ensures told.Some? && met.Unread(conn) == [] && name !in m2.state.store ==>
              exists t: Timer :: t.name == name && multiset(b.state.timers)[t] < multiset(met.state.timers)[t]
  {
    SaveTells(a, conn, name, c, met, told, m2, b);
    if told.Some? {
      assert told.value in b.state.store;
      SaveWindow(a, conn, name, c, met, told, m2, b);
      if met.Unread(conn) == [] {
        ToldWhat(met, conn, name);
      }
    }
  }

  /** Between the search and the store only time passes. */
  lemma {:induction false} SaveWindow(a: Hub, conn: nat, name: Name, c: Contents, met: Hub, told: Option<Name>, m2: Hub, b: Hub)
    requires Posted(a) && SavesVia(a, conn, name, c, met, told, m2, b) && told.Some?
    ensures Posted(met) && Shrunk(met.state, m2.state)
  {
    hide Posted, Flushed, Stuck, StoreFits, Serves, Served, Shrunk;
    FlushedPosted(a, conn, met);
    var x := Asked(met, conn, SearchReq(name));
    assert x.1.state == met.state && x.1.Held(conn) == met.Held(conn) == [];
    hide Asked;
    ArrivesShrunk(x.1, conn, m2);
  }

  /** Exactly when time can still remove an entry: when a timer for it is pending. */
  lemma {:induction false} ExpiresIff(b: Hub, name: Name)
    requires name in b.state.store
    ensures (exists later :: Elapsed(b, later) && name !in later.state.store)
            <==> exists t :: t in b.state.timers && t.name == name
  {
    if t: Timer :| t in b.state.timers && t.name == name {
      var later := Expired(b, t);
    } else {
      forall later | Elapsed(b, later) ensures name in later.state.store {
        Ages(b, later);
        hide Elapsed, Grown;
        assert forall t: Timer :: multiset(later.state.timers)[t] < multiset(b.state.timers)[t] ==> t in multiset(b.state.timers);
      }
    }
  }

  lemma {:induction false} Expired(b: Hub, t: Timer) returns (later: Hub)
    requires t in b.state.timers
    ensures Elapsed(b, later) && t.name !in later.state.store
  {
    var i :| 0 <= i < |b.state.timers| && b.state.timers[i] == t;
    var due := b.(now := if b.now < t.deadline then t.deadline else b.now);
    later := Fired(due, i);
    assert Moves(b, due);
    assert Due(due, i);
    assert Moves(due, later);
    hide Moves, Elapsed;
    ElapsedRefl(b);
    ElapsedMore(b, b, due);
    ElapsedMore(b, due, later);
  }

  /** So an entry that a save puts back has lost its bounded lifetime if the timer that fired was the only
      one for its name. */
  lemma {:induction false} RevivedForEver(a: Hub, conn: nat, name: Name, c: Contents, met: Hub, m2: Hub, b: Hub)
    requires Posted(a) && SavesVia(a, conn, name, c, met, Some(name), m2, b)
    requires met.Unread(conn) == [] && name !in m2.state.store
    requires forall t, t' :: t in met.state.timers && t' in met.state.timers && t.name == t'.name == name ==> t == t'
    requires forall t :: t in met.state.timers && t.name == name ==> multiset(met.state.timers)[t] == 1
    ensures name in b.state.store && b.state.store[name] == c
    ensures !exists later :: Elapsed(b, later) && name !in later.state.store
  {
    SaveTells(a, conn, name, c, met, Some(name), m2, b);
    SaveRevives(a, conn, name, c, met, Some(name), m2, b);
    SaveWindow(a, conn, name, c, met, Some(name), m2, b);
    hide Posted, SavesVia;
    ExpiresIff(b, name);
    hide Elapsed;
    hide Shrunk, StoreFits;
    var fired: Timer :| fired.name == name && multiset(b.state.timers)[fired] < multiset(met.state.timers)[fired];
    assert fired in multiset(met.state.timers) && fired in met.state.timers;
    forall t | t in b.state.timers ensures t.name != name {
      assert t in multiset(m2.state.timers) && t in multiset(met.state.timers);
    }
  }
}
