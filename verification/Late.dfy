/** Runs in which one send fails once, and what it has left queued arrives later: every operation succeeds,
    no timer is ever armed, and yet the agent and the files part, or an open returns another safe. */
module Late {
  import opened Store
  import opened Protocol
  import opened Inbox
  import opened Cache
  import opened Mishaps

  // ---- A store that arrives late ----

  /** The structure that kp_safe_store sends for the first safe. */
  function Structure(sc: Scene): Unsafe
    requires sc.Valid()
  {
    Fill(0, sc.a, sc.ca)
  }

  /** The agent, which has heard nothing: with the store queued at client 1; after client 0 has searched
      it; after client 1's next question, which the store precedes. */
  function Waiting(sc: Scene): Hub
    requires sc.Valid()
  {
    Stalled(sc.empty, 1, [StoreReq(Structure(sc))])
  }

  function Searched0(sc: Scene): Hub
    requires sc.Valid()
  {
    Waiting(sc).(inbox := map[0 := []])
  }

  function Arrived(sc: Scene): Hub
    requires sc.Valid()
  {
    Searched0(sc).(state := State(map[sc.a := sc.ca], []), inbox := map[0 := [], 1 := []], outbox := map[1 := []])
  }

  function Start(sc: Scene): System
    requires sc.Valid()
  {
    System(World(sc.disk, sc.empty), map[])
  }

  function Opened1(sc: Scene): System
    requires sc.Valid()
  {
    System(Start(sc).w, map[][1 := Handle(sc.a, sc.ca, true)])
  }

  function Put1(sc: Scene): System
    requires sc.Valid()
  {
    System(World(sc.disk, Waiting(sc)), Opened1(sc).hs[1 := Handle(sc.a, sc.ca, true)])
  }

  function Opened0(sc: Scene): System
    requires sc.Valid()
  {
    System(Put1(sc).w, Put1(sc).hs[0 := Handle(sc.a, sc.ca, true)])
  }

  function Edited0(sc: Scene): System
    requires sc.Valid()
  {
    System(Put1(sc).w, Opened0(sc).hs[0 := Handle(sc.a, sc.edited, false)])
  }

  function Saved0(sc: Scene): System
    requires sc.Valid()
  {
    System(World(sc.disk[sc.a := sc.fe], Searched0(sc)), map[1 := Handle(sc.a, sc.ca, false), 0 := Handle(sc.a, sc.edited, true)])
  }

  function Asked1(sc: Scene): System
    requires sc.Valid()
  {
    System(World(sc.disk[sc.a := sc.fe], Arrived(sc)), Saved0(sc).hs[2 := Handle(sc.a, sc.ca, true)])
  }

  function LateCommands(sc: Scene): seq<Command> {
    [Do(1, 1, Open(sc.a, true)), Do(1, 1, Put(0)), Do(0, 0, Open(sc.a, true)), Do(0, 0, Edit(sc.edited)), Do(0, 0, Save),
     Do(1, 2, Open(sc.a, false))]
  }

  lemma {:induction false} PutSticks(sc: Scene)
    requires sc.Valid()
    ensures StoresAfter(sc.empty, 1, sc.a, sc.ca, 0, false, Waiting(sc), Waiting(sc))
  {
    FillReads(0, sc.a, sc.ca);
    ElapsedRefl(sc.empty);
    hide Elapsed, Fill, Fits, ContentsFit, Holds;
    var r := StoreReq(Structure(sc));
    assert Says(Structure(sc), sc.a, sc.ca, 0);
    assert sc.empty.Held(1)[..0] == [] && sc.empty.Held(1)[0..] + [r] == [r];
    assert Delivered(sc.empty, 1, sc.empty.Held(1)[..0], sc.empty);
    assert Stuck(sc.empty, 1, r, Waiting(sc));
  }

  lemma {:induction false} SaveFindsNothing(sc: Scene)
    requires sc.Valid()
    ensures AgentSaves(Waiting(sc), 0, sc.a, sc.edited, Searched0(sc))
  {
    hide Holds, Fits, ContentsFit, Fill, NoSuchSafe, Discarded, Found, Serves, Flushed;
    var met := Waiting(sc);
    FlushedAtOnce(met, 0);
    assert StoreFits(met.state.store) && met.Unread(0) == [];
    assert Posted(met) by { WaitingPosted(sc); }
    FirstAnswer(met, 0, sc.a);
    assert Asked(met, 0, SearchReq(sc.a)).1 == Searched0(sc);
    assert SavesVia(met, 0, sc.a, sc.edited, met, None, Searched0(sc), Searched0(sc));
  }

  lemma {:induction false} WaitingPosted(sc: Scene)
    requires sc.Valid()
    ensures Posted(Waiting(sc)) && Posted(Searched0(sc))
  {
    FillReads(0, sc.a, sc.ca);
    assert Proper(StoreReq(Structure(sc)));
    hide Proper, Fill, Genuine, Holds;
  }

  /** The flush of the next question delivers the store, and the question then finds it. */
  lemma {:induction false} StoreArrives(sc: Scene)
    requires sc.Valid()
    ensures OpensVia(Searched0(sc), 1, sc.a, Stocked(sc), Some(sc.ca), Arrived(sc))
  {
    ArrivesFirst(sc);
    StockedPosted(sc);
    FirstAnswer(Stocked(sc), 1, sc.a);
    hide Holds, Fits, ContentsFit, Fill, NoSuchSafe, Discarded, Found, Serves, Served, Flushed, Posted;
    assert Stocked(sc).state.store[sc.a] == sc.ca;
    assert Stocked(sc).inbox[1 := []] == map[0 := [], 1 := []];
  }

  /** The agent as that question meets it. */
  function Stocked(sc: Scene): Hub
    requires sc.Valid()
  {
    Arrived(sc).(inbox := map[0 := [], 1 := []])
  }

  lemma {:induction false} StockedPosted(sc: Scene)
    requires sc.Valid()
    ensures Posted(Stocked(sc)) && Stocked(sc).Unread(1) == []
  {
    hide Holds, Genuine, Proper;
  }

  lemma {:induction false} StoreHandled(sc: Scene)
    requires sc.Valid()
    ensures StoreFits(Searched0(sc).state.store)
    ensures Handled(Searched0(sc), 1, StoreReq(Structure(sc))) == Stocked(sc).(outbox := Searched0(sc).outbox)
  {
    var a := Searched0(sc);
    FillReads(0, sc.a, sc.ca);
    StoredIsOnStore(a, 1, Structure(sc));
    hide Fill, Holds;
    assert a.Unread(1) + [] == [] && a.inbox[1 := []] == map[0 := [], 1 := []];
  }

  lemma {:induction false} ArrivesFirst(sc: Scene)
    requires sc.Valid()
    ensures Flushed(Searched0(sc), 1, Stocked(sc))
  {
    hide Fill, Holds, Handled, Delivered, Fits, ContentsFit;
    var a, r := Searched0(sc), StoreReq(Structure(sc));
    StoreHandled(sc);
    ElapsedRefl(a);
    DeliveredOne(a, 1, a, r);
    assert a.Held(1) == [r];
    assert a.outbox[1 := []] == map[1 := []];
    assert Stocked(sc) == Emptied(Handled(a, 1, r), 1);
  }

  lemma {:induction false} PutStep1(sc: Scene)
    requires sc.Valid()
    ensures Step(sc.conf, Opened1(sc), Do(1, 1, Put(0)), Put1(sc))
  {
    hide Holds, StoresAfter, Waiting, Fits, ContentsFit;
    PutSticks(sc);
    assert AgentPuts(sc.empty, 1, sc.a, sc.ca, 0, Waiting(sc));
    hide AgentPuts;
    DoStep(sc.conf, Opened1(sc), 1, 1, Put(0), Put1(sc).w, Handle(sc.a, sc.ca, true));
  }

  lemma {:induction false} EditStep0(sc: Scene)
    requires sc.Valid()
    ensures Step(sc.conf, Opened0(sc), Do(0, 0, Edit(sc.edited)), Edited0(sc))
  {
    hide Holds, Waiting;
    DoStep(sc.conf, Opened0(sc), 0, 0, Edit(sc.edited), Put1(sc).w, Handle(sc.a, sc.edited, false));
  }

  lemma {:induction false} SaveStep0(sc: Scene)
    requires sc.Valid()
    ensures Step(sc.conf, Edited0(sc), Do(0, 0, Save), Saved0(sc))
  {
    hide Holds, AgentSaves, Waiting, Searched0;
    SaveFindsNothing(sc);
    var s, s', touched := Edited0(sc), Saved0(sc), {sc.a};
    assert Touched(s.At(0), Save) == touched;
    assert Does(sc.conf, s.w, 0, s.At(0), Save, s'.w, s'.At(0));
    hide Does, Touched;
    forall i | i != 0 ensures s'.At(i) == Seen(s.At(i), touched) {
      assert i != 1 ==> s.At(i) == Closed && s'.At(i) == Closed;
    }
  }

  lemma {:induction false} OpenStep1(sc: Scene)
    requires sc.Valid()
    ensures Step(sc.conf, Saved0(sc), Do(1, 2, Open(sc.a, false)), Asked1(sc))
  {
    hide Holds, OpensVia, Searched0, Arrived, ContentsFit, FileOpens;
    StoreArrives(sc);
    assert AgentOpens(Searched0(sc), 1, sc.a, Some(sc.ca), Arrived(sc));
    hide AgentOpens;
    DoStep(sc.conf, Saved0(sc), 1, 2, Open(sc.a, false), Asked1(sc).w, Handle(sc.a, sc.ca, true));
  }

  lemma {:induction false} LateCareful(sc: Scene)
    requires sc.Valid()
    ensures Careful(Start(sc), Do(1, 1, Open(sc.a, true)), Opened1(sc)) && Careful(Opened1(sc), Do(1, 1, Put(0)), Put1(sc))
    ensures Careful(Put1(sc), Do(0, 0, Open(sc.a, true)), Opened0(sc)) && Careful(Opened0(sc), Do(0, 0, Edit(sc.edited)), Edited0(sc))
    ensures Careful(Edited0(sc), Do(0, 0, Save), Saved0(sc))
  {
    hide Holds, Fill;
  }

  lemma {:induction false} LateEnds(sc: Scene)
    requires sc.Valid()
    ensures !Agreement(sc.conf, Asked1(sc).w)
  {
    if Holds(sc.conf, sc.fe, sc.ca) {
      HoldsOne(sc.conf, sc.fe, sc.ca, sc.edited);
    }
    hide Holds;
    assert sc.a in Arrived(sc).state.store && Arrived(sc).state.store[sc.a] == sc.ca;
  }

  /** No timer is ever armed. */
  ghost predicate Untimed(s: System) {
    s.w.hub.state.timers == [] && s.w.hub.missed == {}
  }

  lemma {:induction false} LateUntimed(sc: Scene)
    requires sc.Valid()
    ensures Untimed(Start(sc)) && Untimed(Opened1(sc)) && Untimed(Put1(sc)) && Untimed(Opened0(sc))
    ensures Untimed(Edited0(sc)) && Untimed(Saved0(sc)) && Untimed(Asked1(sc))
  {
    hide Holds, Fill;
  }

  /** The whole run. Client 1 opens a safe and stores it, and the send fails; client 0 opens the same safe,
      edits and saves it; then client 1 asks for it. Every operation succeeds, and all steps but the last
      keep to the conditions of AgreementOverRuns; yet now the store arrives, the agent holds the old
      contents and the file the new ones, and the old ones are served. */
  lemma {:induction false} LateStoreParts(sc: Scene) returns (trace: seq<System>, cmds: seq<Command>)
    requires sc.Valid()
    ensures Run(sc.conf, trace, cmds) && |cmds| == 6 && CarefulRun(trace[..6], cmds[..5])
    ensures forall i :: 0 <= i <= 6 ==> Untimed(trace[i])
    ensures !Agreement(sc.conf, trace[6].w)
    ensures trace[6].At(2) == Handle(sc.a, sc.ca, true)
    ensures sc.a in trace[6].w.disk && Holds(sc.conf, trace[6].w.disk[sc.a], sc.edited)
  {
    hide Holds, Fits, ContentsFit, Waiting, Searched0, Arrived, Does;
    trace := [Start(sc), Opened1(sc), Put1(sc), Opened0(sc), Edited0(sc), Saved0(sc), Asked1(sc)];
    cmds := LateCommands(sc);
    StartsInStep(sc);
    ForcedStep(sc.conf, Start(sc), 1, 1, sc.a, sc.ca);
    ForcedStep(sc.conf, Put1(sc), 0, 0, sc.a, sc.ca);
    hide Step, Inv, Careful, Untimed, Agreement;
    PutStep1(sc);
    EditStep0(sc);
    SaveStep0(sc);
    OpenStep1(sc);
    LateCareful(sc);
    LateUntimed(sc);
    LateEnds(sc);
    hide Start, Opened1, Put1, Opened0, Edited0, Saved0;
  }

  // ---- A question that is answered late ----

  /** Both safes cached, in agreement; with a search for the first one queued at the client; after the next
      question. */
  function Cached(sc: Scene): Hub
    requires sc.Valid()
  {
    Fresh(State(map[sc.a := sc.ca, sc.b := sc.cb], []), 0)
  }

  function Asking(sc: Scene): Hub
    requires sc.Valid()
  {
    Stalled(Cached(sc), 0, [SearchReq(sc.a)])
  }

  function Overtaken(sc: Scene): Hub
    requires sc.Valid()
  {
    Asking(sc).(inbox := map[0 := [Found(sc.b, sc.cb)]], outbox := map[0 := []])
  }

  lemma {:induction false} SearchSticks(sc: Scene)
    requires sc.Valid()
    ensures AgentOpens(Cached(sc), 0, sc.a, None, Asking(sc))
  {
    hide Holds, Fits, ContentsFit, Elapsed, Flushed;
    var a, r := Cached(sc), SearchReq(sc.a);
    ElapsedRefl(a);
    assert a.Held(0)[..0] == [] && a.Held(0)[0..] + [r] == [r];
    assert Delivered(a, 0, a.Held(0)[..0], a);
    assert Stuck(a, 0, r, Asking(sc));
    assert OpensVia(a, 0, sc.a, Asking(sc), None, Asking(sc));
  }

  lemma {:induction false} AnswerOvertakes(sc: Scene)
    requires sc.Valid()
    ensures AgentOpens(Asking(sc), 0, sc.b, Some(sc.ca), Overtaken(sc))
  {
    hide Holds, Found, Flushed, Serves, Served, Fits, ContentsFit, Asked, FirstAnswered, Asking, Overtaken;
    FirstSearchFirst(sc);
    FoundServes(sc.a, sc.ca);
    SecondAsked(sc);
    assert OpensVia(Asking(sc), 0, sc.b, FirstAnswered(sc), Some(sc.ca), Overtaken(sc));
  }

  lemma {:induction false} SecondAsked(sc: Scene)
    requires sc.Valid()
    ensures StoreFits(FirstAnswered(sc).state.store)
    ensures Asked(FirstAnswered(sc), 0, SearchReq(sc.b)) == (Found(sc.a, sc.ca), Overtaken(sc))
  {
    hide Holds, Found;
    var met, own := FirstAnswered(sc), Found(sc.b, sc.cb);
    var stream := [Found(sc.a, sc.ca)] + [own];
    assert stream[1..] == [own] && met.Unread(0) + [own] == stream;
    assert met.inbox[0 := [own]] == map[0 := [own]];
  }

  function FirstAnswered(sc: Scene): Hub
    requires sc.Valid()
  {
    Overtaken(sc).(inbox := map[0 := [Found(sc.a, sc.ca)]])
  }

  lemma {:induction false} FirstSearchFirst(sc: Scene)
    requires sc.Valid()
    ensures Flushed(Asking(sc), 0, FirstAnswered(sc))
  {
    hide Holds, Found;
    var a, r := Asking(sc), SearchReq(sc.a);
    assert StoreFits(a.state.store);
    var m := Handled(a, 0, r);
    assert a.Unread(0) + [Found(sc.a, sc.ca)] == [Found(sc.a, sc.ca)];
    assert m == FirstAnswered(sc).(outbox := a.outbox);
    ElapsedRefl(a);
    DeliveredOne(a, 0, a, r);
    assert a.Held(0) == [r];
    assert a.outbox[0 := []] == map[0 := []];
    hide Delivered, Handled;
    assert FirstAnswered(sc) == Emptied(m, 0);
  }

  /** An open whose search fails falls back to the file and succeeds; but the search arrives before the next
      one, whose open is served the first safe's contents instead of its own. */
  lemma {:induction false} LateAnswerMisleads(sc: Scene) returns (s: System, s1: System, s2: System)
    requires sc.Valid()
    ensures Inv(sc.conf, s) && s.w.hub.missed == {} && s.w.hub.failed == {}
    ensures Step(sc.conf, s, Do(0, 0, Open(sc.a, false)), s1) && Careful(s, Do(0, 0, Open(sc.a, false)), s1)
    ensures s1.At(0) == Handle(sc.a, sc.ca, true)
    ensures Step(sc.conf, s1, Do(0, 1, Open(sc.b, false)), s2) && s2.w.hub.missed == {}
    ensures s2.At(1) == Handle(sc.b, sc.ca, true) && sc.ca != sc.cb && sc.b in s2.w.disk && Holds(sc.conf, s2.w.disk[sc.b], sc.cb)
  {
    hide Holds, Inv, AgentOpens, FileOpens, ContentsFit, Found;
    CachedInStep(sc);
    SearchSticks(sc);
    AnswerOvertakes(sc);
    HoldsOpens(sc.conf, sc.fa, sc.ca);
    var h, h' := Handle(sc.a, sc.ca, true), Handle(sc.b, sc.ca, true);
    s := System(World(sc.disk, Cached(sc)), map[]);
    s1 := System(World(sc.disk, Asking(sc)), s.hs[0 := h]);
    s2 := System(World(sc.disk, Overtaken(sc)), s1.hs[1 := h']);
    DoStep(sc.conf, s, 0, 0, Open(sc.a, false), s1.w, h);
    DoStep(sc.conf, s1, 0, 1, Open(sc.b, false), s2.w, h');
  }

  lemma {:induction false} CachedInStep(sc: Scene)
    requires sc.Valid()
    ensures Inv(sc.conf, System(World(sc.disk, Cached(sc)), map[]))
  {
    HoldsIsStable(sc.conf, sc.fa, sc.ca);
    HoldsIsStable(sc.conf, sc.fb, sc.cb);
    hide Holds, Stable, Genuine, Proper;
  }
}
