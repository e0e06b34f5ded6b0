/** Runs of the agent with time: requests from any connection, timers that fire, and time that passes. */
module Timers {
  import opened Bytes
  import opened Store
  import opened Protocol

  datatype World = World(now: int, state: State)

  datatype Event = Handle(conn: nat, r: Request) | Fire(i: nat) | Tick(d: nat)

  ghost predicate Step(w: World, e: Event, w': World) {
    match e
    case Handle(conn, r) =>
      && r.Valid() && StoreFits(w.state.store)
      && w' == World(w.now, OnRequest(w.state, w.now, conn, r).state)
    case Fire(i) =>
      && i < |w.state.timers| && w.state.timers[i].deadline <= w.now
      && w' == World(w.now, OnFire(w.state, i).state)
    case Tick(d) =>
      w' == World(w.now + d, w.state)
  }

  ghost predicate Exec(ws: seq<World>, es: seq<Event>) {
    && |ws| == |es| + 1
    && forall k :: 0 <= k < |es| ==> Step(ws[k], es[k], ws[k + 1])
  }

  ghost predicate PresentFrom(ws: seq<World>, name: Name, i: nat, j: nat)
    requires i <= j < |ws|
  {
    forall k :: i <= k <= j ==> name in ws[k].state.store
  }

  /** A pending timer survives every step, unless it is the one that fires. */
  lemma {:induction false} OnlyFiringDisarms(w: World, e: Event, w': World, t: Timer)
    requires Step(w, e, w') && t in w.state.timers
    ensures t in w'.state.timers || (e.Fire? && w.state.timers[e.i] == t)
  {
    if e.Fire? && w.state.timers[e.i] != t {
      var k :| 0 <= k < |w.state.timers| && w.state.timers[k] == t;
      assert w'.state.timers[if k < e.i then k else k - 1] == t;
    }
  }

  /** Right after a timer fires, its name is absent; no other name is touched. */
  lemma {:induction false} FiringRemoves(w: World, i: nat, w': World)
    requires Step(w, Fire(i), w')
    ensures w'.state.store.Keys == w.state.store.Keys - {w.state.timers[i].name}
    ensures forall n :: n in w'.state.store ==> w'.state.store[n] == w.state.store[n]
    ensures multiset(w.state.timers) == multiset(w'.state.timers) + multiset{w.state.timers[i]}
  {
    Without(w.state.timers, i);
  }

  lemma {:induction false} TimerStaysArmed(ws: seq<World>, es: seq<Event>, i: nat, j: nat, t: Timer)
    requires Exec(ws, es) && i <= j < |ws|
    requires t in ws[i].state.timers && PresentFrom(ws, t.name, i, j)
    ensures t in ws[j].state.timers
    decreases j - i
  {
    if i < j {
      assert Step(ws[i], es[i], ws[i + 1]);
      OnlyFiringDisarms(ws[i], es[i], ws[i + 1], t);
      assert t.name in ws[i + 1].state.store;
      TimerStaysArmed(ws, es, i + 1, j, t);
    }
  }

  /** A store request that succeeds and carries a positive timeout. */
  ghost predicate TimedStore(e: Event, name: Name, timeout: int) {
    && e.Handle? && e.r.StoreReq? && e.r.u.AllTerminated()
    && CStr(e.r.u.name) == name && e.r.u.timeout == timeout && timeout > 0
  }

  /** Bounded lifetime: once a STORE with timeout T > 0 has been handled at time t, then for as long as
      the entry stays present, whatever else is stored, discarded or fires in between, a timer for that
      name with deadline t+T is pending. */
  lemma {:induction false} BoundedLifetime(ws: seq<World>, es: seq<Event>, i: nat, j: nat, name: Name, timeout: int)
    requires Exec(ws, es) && i < j < |ws|
    requires TimedStore(es[i], name, timeout) && PresentFrom(ws, name, i + 1, j)
    ensures Timer(name, ws[i].now + timeout, es[i].conn) in ws[j].state.timers
  {
    assert Step(ws[i], es[i], ws[i + 1]);
    var t := Timer(name, ws[i].now + timeout, es[i].conn);
    assert ws[i + 1].state.timers == ws[i].state.timers + [t];
    TimerStaysArmed(ws, es, i + 1, j, t);
  }

  /** An entry disappears only when it is discarded or when a timer for its name fires. */
  lemma {:induction false} LeavesOnlyBy(w: World, e: Event, w': World, name: Name)
    requires Step(w, e, w') && name in w.state.store && name !in w'.state.store
    ensures (e.Handle? && e.r == DiscardReq(name)) || (e.Fire? && w.state.timers[e.i].name == name)
  {
  }

  // ---- When timers fire on time ----

  /** Time never passes a pending deadline: what the event loop provides when it is not late. */
  ghost predicate Punctual(ws: seq<World>, es: seq<Event>)
    requires |ws| == |es| + 1
  {
    && (forall t :: t in ws[0].state.timers ==> ws[0].now <= t.deadline)
    && forall k, t :: 0 <= k < |es| && es[k].Tick? && t in ws[k].state.timers ==> ws[k].now + es[k].d <= t.deadline
  }

  lemma {:induction false} NoDeadlinePassed(ws: seq<World>, es: seq<Event>, j: nat)
    requires Exec(ws, es) && Punctual(ws, es) && j < |ws|
    ensures forall t :: t in ws[j].state.timers ==> ws[j].now <= t.deadline
  {
    if j > 0 {
      NoDeadlinePassed(ws, es, j - 1);
      assert Step(ws[j - 1], es[j - 1], ws[j - 1 + 1]);
    }
  }

  /** An entry stored with timeout T at time t is gone once t+T has passed. */
  lemma {:induction false} ExpiresInTime(ws: seq<World>, es: seq<Event>, i: nat, j: nat, name: Name, timeout: int)
    requires Exec(ws, es) && Punctual(ws, es) && i < j < |ws|
    requires TimedStore(es[i], name, timeout) && PresentFrom(ws, name, i + 1, j)
    ensures ws[j].now <= ws[i].now + timeout
  {
    BoundedLifetime(ws, es, i, j, name, timeout);
    NoDeadlinePassed(ws, es, j);
  }

  // ---- How long an entry lives ----

  /** A request that stores or discards the name, or arms a timer for it. */
  predicate Concerns(r: Request, name: Name) {
    match r
    case StoreReq(u) => CStr(u.name) == name
    case DiscardReq(n) => n == name
    case _ => false
  }

  /** From step i to step j the name is neither stored nor discarded. */
  ghost predicate LeftAlone(es: seq<Event>, name: Name, i: nat, j: nat)
    requires i <= j <= |es|
  {
    forall k :: i <= k < j && es[k].Handle? ==> !Concerns(es[k].r, name)
  }

  ghost predicate FiresFor(w: World, e: Event, name: Name) {
    e.Fire? && e.i < |w.state.timers| && w.state.timers[e.i].name == name
  }

  /** Left alone, an entry goes exactly in the steps in which a timer for it fires, and no timer for it is
      added. */
  lemma {:induction false} StepAlone(w: World, e: Event, w': World, name: Name)
    requires Step(w, e, w') && (e.Handle? ==> !Concerns(e.r, name))
    ensures name in w'.state.store <==> name in w.state.store && !FiresFor(w, e, name)
    ensures forall t :: t in w'.state.timers && t.name == name ==> t in w.state.timers
    ensures w.now <= w'.now
  {
    if e.Fire? {
      var ts, i := w.state.timers, e.i;
      assert forall t :: t in w'.state.timers ==> t in ts[..i] || t in ts[i + 1..];
    }
  }

  /** An entry that is left alone is still there after any number of steps if and only if no timer for it
      has fired. */
  lemma {:induction false} StaysUntilFired(ws: seq<World>, es: seq<Event>, i: nat, j: nat, name: Name)
    requires Exec(ws, es) && i <= j < |ws| && name in ws[i].state.store && LeftAlone(es, name, i, j)
    ensures name in ws[j].state.store <==> forall k :: i <= k < j ==> !FiresFor(ws[k], es[k], name)
    ensures forall t :: t in ws[j].state.timers && t.name == name ==> t in ws[i].state.timers
    ensures ws[i].now <= ws[j].now
  {
    hide Step;
    if i < j {
      StaysUntilFired(ws, es, i, j - 1, name);
      assert Step(ws[j - 1], es[j - 1], ws[j - 1 + 1]);
      StepAlone(ws[j - 1], es[j - 1], ws[j], name);
    }
  }

  /** Before the earliest of the deadlines that are pending for it an entry cannot go, late or punctual as
      the event loop may be. */
  lemma {:induction false} LivesUntil(ws: seq<World>, es: seq<Event>, i: nat, j: nat, name: Name)
    requires Exec(ws, es) && i <= j < |ws| && name in ws[i].state.store && LeftAlone(es, name, i, j)
    requires forall t :: t in ws[i].state.timers && t.name == name ==> ws[j].now < t.deadline
    ensures name in ws[j].state.store
  {
    StaysUntilFired(ws, es, i, j, name);
    forall k | i <= k < j ensures !FiresFor(ws[k], es[k], name) {
      StaysUntilFired(ws, es, i, k, name);
      NowGrows(ws, es, k, j);
      assert Step(ws[k], es[k], ws[k + 1]);
    }
  }

  lemma {:induction false} NowGrows(ws: seq<World>, es: seq<Event>, i: nat, j: nat)
    requires Exec(ws, es) && i <= j < |ws|
    ensures ws[i].now <= ws[j].now
  {
    if i < j {
      NowGrows(ws, es, i, j - 1);
      assert Step(ws[j - 1], es[j - 1], ws[j - 1 + 1]);
    }
  }

  /** Once the earliest of them has passed it is gone, when the event loop is punctual. */
  lemma {:induction false} GoneAfter(ws: seq<World>, es: seq<Event>, i: nat, j: nat, t: Timer)
    requires Exec(ws, es) && Punctual(ws, es) && i <= j < |ws| && LeftAlone(es, t.name, i, j)
    requires t.name in ws[i].state.store && t in ws[i].state.timers && t.deadline < ws[j].now
    ensures t.name !in ws[j].state.store
  {
    if t.name in ws[j].state.store {
      StaysUntilFired(ws, es, i, j, t.name);
      forall k | i <= k <= j ensures t.name in ws[k].state.store {
        StaysUntilFired(ws, es, i, k, t.name);
      }
      TimerStaysArmed(ws, es, i, j, t);
      NoDeadlinePassed(ws, es, j);
    }
  }

  // ---- Exactly when an entry lives to its own deadline ----

  /** A punctual run from w on in which nobody sends anything. */
  ghost predicate Waits(ws: seq<World>, es: seq<Event>, w: World) {
    Exec(ws, es) && ws[0] == w && Punctual(ws, es) && forall k :: 0 <= k < |es| ==> !es[k].Handle?
  }

  /** Step j of a punctual run from w on, up to which the name is left alone. */
  ghost predicate Reaches(w: World, name: Name, ws: seq<World>, es: seq<Event>, j: nat) {
    Exec(ws, es) && ws[0] == w && Punctual(ws, es) && j <= |es| && LeftAlone(es, name, 0, j)
  }

  /** In every such run the entry is there as long as the deadline has not come. */
  ghost predicate LivesTo(w: World, name: Name, deadline: int) {
    forall ws: seq<World>, es: seq<Event>, j: nat :: Reaches(w, name, ws, es, j) && ws[j].now < deadline ==>
      name in ws[j].state.store
  }

  lemma {:induction false} Earliest(ts: seq<Timer>) returns (i: nat)
    requires ts != []
    ensures i < |ts| && forall t :: t in ts ==> ts[i].deadline <= t.deadline
  {
    if |ts| == 1 {
      i := 0;
    } else {
      var k := Earliest(ts[1..]);
      i := if ts[0].deadline <= ts[1 + k].deadline then 0 else 1 + k;
      assert forall t :: t in ts ==> t == ts[0] || t in ts[1..];
    }
  }

  /** Time goes on to the earliest deadline of all, and that timer fires. */
  lemma {:induction false} NextFires(w: World, i: nat) returns (ws: seq<World>, es: seq<Event>)
    requires i < |w.state.timers| && forall t :: t in w.state.timers ==> w.now <= w.state.timers[i].deadline <= t.deadline
    ensures Waits(ws, es, w) && |es| == 2
    ensures ws[2] == World(w.state.timers[i].deadline, OnFire(w.state, i).state)
  {
    var d := w.state.timers[i].deadline;
    assert w.state.timers[i] in w.state.timers;
    ws, es := [w, World(d, w.state), World(d, OnFire(w.state, i).state)], [Tick(d - w.now), Fire(i)];
  }

  lemma {:induction false} WaitsOn(ws: seq<World>, es: seq<Event>, w: World, ws': seq<World>, es': seq<Event>)
    requires Waits(ws, es, w) && Waits(ws', es', ws[|es|])
    ensures Waits(ws + ws'[1..], es + es', w)
  {
    hide Step;
    var us, fs := ws + ws'[1..], es + es';
    assert forall k :: |es| <= k < |us| ==> us[k] == ws'[k - |es|];
    forall k | 0 <= k < |fs| ensures Step(us[k], fs[k], us[k + 1]) {
      if k < |es| {
        assert Step(ws[k], es[k], ws[k + 1]);
      } else {
        assert Step(ws'[k - |es|], es'[k - |es|], ws'[k - |es| + 1]);
      }
    }
    forall k, t | 0 <= k < |fs| && fs[k].Tick? && t in us[k].state.timers
      ensures us[k].now + fs[k].d <= t.deadline
    {
      if k < |es| {
        assert es[k] == fs[k] && us[k] == ws[k];
      } else {
        assert es'[k - |es|] == fs[k] && us[k] == ws'[k - |es|];
      }
    }
  }

  /** Every pending timer can be waited for: a punctual run leads to a moment, not later than its deadline,
      at which its name is absent. */
  lemma {:induction false} WaitedFor(w: World, t: Timer) returns (ws: seq<World>, es: seq<Event>)
    requires t in w.state.timers && forall p :: p in w.state.timers ==> w.now <= p.deadline
    ensures Waits(ws, es, w) && ws[|es|].now <= t.deadline && t.name !in ws[|es|].state.store
    decreases |w.state.timers|
  {
    var i := Earliest(w.state.timers);
    ws, es := NextFires(w, i);
    var ts, w' := w.state.timers, ws[2];
    if ts[i].name != t.name {
      assert forall p :: p in w'.state.timers ==> p in ts[..i] || p in ts[i + 1..];
      var k :| 0 <= k < |ts| && ts[k] == t;
      assert w'.state.timers[if k < i then k else k - 1] == t;
      var ws', es' := WaitedFor(w', t);
      hide Waits;
      WaitsOn(ws, es, w, ws', es');
      ws, es := ws + ws'[1..], es + es';
    }
  }

  /** An entry lives to a deadline, in every punctual run in which it is left alone, if and only if no timer
      that is pending for it has an earlier one. */
  lemma {:induction false} LivesToDeadline(w: World, name: Name, deadline: int)
    requires name in w.state.store && forall t :: t in w.state.timers ==> w.now <= t.deadline
    ensures LivesTo(w, name, deadline)
            <==> forall t :: t in w.state.timers && t.name == name ==> deadline <= t.deadline
  {
    if t: Timer :| t in w.state.timers && t.name == name && t.deadline < deadline {
      var ws, es := WaitedFor(w, t);
      assert Reaches(w, name, ws, es, |es|);
    } else {
      forall ws: seq<World>, es: seq<Event>, j: nat | Reaches(w, name, ws, es, j) && ws[j].now < deadline
        ensures name in ws[j].state.store
      {
        LivesUntil(ws, es, 0, j, name);
      }
    }
  }

  /** So an entry stored with timeout T at time t lives until t+T, when it is left alone, if and only if no
      older timer for its name has an earlier deadline. */
  lemma {:induction false} LivesItsTime(w: World, e: Event, w': World, name: Name, timeout: int)
    requires Step(w, e, w') && TimedStore(e, name, timeout)
    requires forall t :: t in w.state.timers ==> w.now <= t.deadline
    ensures LivesTo(w', name, w.now + timeout)
            <==> forall t :: t in w.state.timers && t.name == name ==> w.now + timeout <= t.deadline
  {
    assert w'.state.timers == w.state.timers + [Timer(name, w.now + timeout, e.conn)];
    LivesToDeadline(w', name, w.now + timeout);
  }

  // ---- A run in which it does not ----

  function CutShortWorlds(u: Unsafe, v: Unsafe, d: nat): seq<World> {
    var t, t' := Timer(CStr(u.name), u.timeout, 0), Timer(CStr(u.name), d + v.timeout, 0);
    var once, twice := map[CStr(u.name) := u.Value()], map[CStr(u.name) := v.Value()];
    [World(0, State(map[], [])), World(0, State(once, [t])), World(d, State(once, [t])),
     World(d, State(twice, [t, t'])), World(u.timeout, State(twice, [t, t'])), World(u.timeout, State(map[], [t']))]
  }

  function CutShortEvents(u: Unsafe, v: Unsafe, d: nat): seq<Event>
    requires d < u.timeout
  {
    [Handle(0, StoreReq(u)), Tick(d), Handle(0, StoreReq(v)), Tick(u.timeout - d), Fire(0)]
  }

  lemma {:induction false} CutShortStores(u: Unsafe, v: Unsafe, d: nat)
    requires u.Sized() && v.Sized() && u.AllTerminated() && v.AllTerminated() && CStr(u.name) == CStr(v.name)
    requires 0 < d < u.timeout && 0 < v.timeout
    ensures var ws, es := CutShortWorlds(u, v, d), CutShortEvents(u, v, d);
            Step(ws[0], es[0], ws[1]) && Step(ws[2], es[2], ws[3])
  {
    ValueFits(u);
    ValueFits(v);
    hide CStr, StrLen, Fits, ContentsFit, Terminated;
    var ws := CutShortWorlds(u, v, d);
    assert ws[3].state.timers == ws[2].state.timers + [ws[3].state.timers[1]];
  }

  lemma {:induction false} CutShortFires(u: Unsafe, v: Unsafe, d: nat)
    requires CStr(u.name) == CStr(v.name) && 0 < d < u.timeout
    ensures var ws, es := CutShortWorlds(u, v, d), CutShortEvents(u, v, d);
            Step(ws[4], es[4], ws[5])
  {
    hide CStr;
    var ws := CutShortWorlds(u, v, d);
    assert ws[4].state.store - {CStr(u.name)} == map[];
    assert ws[4].state.timers[..0] + ws[4].state.timers[1..] == ws[5].state.timers;
  }

  lemma {:induction false} CutShortExec(u: Unsafe, v: Unsafe, d: nat)
    requires u.Sized() && v.Sized() && u.AllTerminated() && v.AllTerminated() && CStr(u.name) == CStr(v.name)
    requires 0 < d < u.timeout && 0 < v.timeout
    ensures Exec(CutShortWorlds(u, v, d), CutShortEvents(u, v, d))
  {
    CutShortStores(u, v, d);
    CutShortFires(u, v, d);
    hide CStr;
  }

  /** But timers are never cancelled: a second store of the same name can be cut short by the first
      one's timer, so an entry need not live until its own deadline. */
  lemma {:induction false} OlderTimerCutsShort(u: Unsafe, v: Unsafe, d: nat) returns (ws: seq<World>, es: seq<Event>)
    requires u.Sized() && v.Sized() && u.AllTerminated() && v.AllTerminated() && CStr(u.name) == CStr(v.name)
    requires 0 < d < u.timeout && u.timeout - d < v.timeout
    ensures Exec(ws, es) && Punctual(ws, es) && |es| == 5 && ws[0].now == 0
    ensures TimedStore(es[2], CStr(v.name), v.timeout) && ws[2].now == d
    ensures ws[5].now < ws[2].now + v.timeout && CStr(v.name) !in ws[5].state.store
  {
    CutShortExec(u, v, d);
    ws, es := CutShortWorlds(u, v, d), CutShortEvents(u, v, d);
    hide Exec, CStr, StrLen;
  }
}
