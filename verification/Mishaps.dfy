/** Runs in which every operation succeeds and nothing is lost, and yet the agent and the files part. */
module Mishaps {
  import opened Bytes
  import opened Store
  import opened Protocol
  import opened Inbox
  import opened Cache
  import SafeFile

  /** Files with any contents exist, for some primitives that keep the laws. */
  lemma {:induction false} FilesExist() returns (conf: Conf)
    ensures conf.k.Laws()
    ensures forall c :: ContentsFit(c) ==> exists f :: Holds(conf, f, c)
  {
    var k := SafeFile.LawsHaveAModel();
    conf := Conf(k, []);
    forall c | ContentsFit(c) ensures exists f :: Holds(conf, f, c) {
      var h := SafeFile.FileHeader(0, 0, 0, Zeros(SafeFile.SALT_SIZE), Zeros(SafeFile.NONCE_SIZE));
      var f := SafeFile.Sealed(k, [], h, c).value;
      forall g | |g| == SafeFile.PLAIN_MAX ensures SafeFile.Opened(k, [], f, g) == SafeFile.Ok(c) {
        SafeFile.SavedOpens(k, [], h, c, g);
      }
      assert Holds(conf, f, c);
    }
  }

  lemma {:induction false} DoStep(conf: Conf, s: System, conn: nat, id: nat, op: Op, w': World, h': Handle)
    requires conf.k.Laws() && Does(conf, s.w, conn, s.At(id), op, w', h')
    requires forall i :: i != id ==> Seen(s.At(i), Touched(s.At(id), op)) == s.At(i)
    ensures Step(conf, s, Do(conn, id, op), System(w', s.hs[id := h']))
  {
    hide Does;
    var s' := System(w', s.hs[id := h']);
    assert s'.At(id) == h';
    forall i | i != id ensures s'.At(i) == Seen(s.At(i), Touched(s.At(id), op)) {
    }
  }

  // ---- Renaming onto a name in use ----

  /** An uncached safe is renamed, from a clean handle and with nothing unread, to the name of a cached one
      with other contents: the agent keeps serving the contents that are no longer on disk. */
  lemma {:induction false} RenameParts(conf: Conf, from: Name, to: Name, f: seq<Byte>, g: seq<Byte>, c: Contents, d: Contents)
    returns (s: System, s': System)
    requires conf.k.Laws() && Fits(from, PATH_MAX) && Fits(to, PATH_MAX) && from != to
    requires ContentsFit(c) && ContentsFit(d) && c != d && Holds(conf, f, c) && Holds(conf, g, d)
    ensures Inv(conf, s) && s.At(0) == Handle(from, c, true) && from !in s.w.hub.state.store && s.w.hub.Unread(0) == []
    ensures Step(conf, s, Do(0, 0, Rename(to)), s') && s'.w.hub.missed == {}
    ensures !Agreement(conf, s'.w)
  {
    hide Holds, Stable, Fits, ContentsFit, NoSuchSafe, Discarded, Found;
    var a := Fresh(State(map[to := d], []), 0);
    s := System(World(map[from := f, to := g], a), map[0 := Handle(from, c, true)]);
    HoldsIsStable(conf, f, c);
    HoldsIsStable(conf, g, d);
    assert StoreFits(a.state.store) && a.Unread(0) == [];
    DeservedGenuine(a.state.store, DiscardReq(from));
    OwnAnswer(a, 0, DiscardReq(from));
    var x := Asked(a, 0, DiscardReq(from));
    FlushedAtOnce(a, 0);
    hide Confirms, Flushed;
    assert RenamesVia(a, 0, from, to, c, a, false, x.1, x.1);
    var w' := World((s.w.disk - {from})[to := f], x.1);
    DoStep(conf, s, 0, 0, Rename(to), w', Handle(to, c, true));
    s' := System(w', s.hs[0 := Handle(to, c, true)]);
    assert to in w'.hub.state.store && w'.hub.state.store[to] == d;
    if Holds(conf, f, d) {
      HoldsOne(conf, f, c, d);
    }
  }

  // ---- A timer that fires in vain ----

  /** Two safes with their files, and what the first one is edited to. */
  datatype Scene = Scene(conf: Conf, a: Name, ca: Contents, fa: seq<Byte>, edited: Contents, fe: seq<Byte>,
                         b: Name, cb: Contents, fb: seq<Byte>)
  {
    ghost predicate Valid() {
      && conf.k.Laws() && a != b && ca != edited && ca != cb && Fits(a, PATH_MAX) && Fits(b, PATH_MAX)
      && ContentsFit(ca) && ContentsFit(edited) && ContentsFit(cb)
      && Holds(conf, fa, ca) && Holds(conf, fe, edited) && Holds(conf, fb, cb)
    }

    // The agent: empty; with the safe stored for one second, and for two; after both timers have fired,
    // the second one in vain; with the safe stored to stay; after the save has searched for it.
    const empty: Hub := Fresh(State(map[], []), 0)
    const once: Hub := empty.(state := State(map[a := ca], [Timer(a, 1, 0)]))
    const twice: Hub := empty.(state := State(map[a := ca], [Timer(a, 1, 0), Timer(a, 2, 0)]))
    const first: Hub := Hub(State(map[], [Timer(a, 2, 0)]), 2, map[0 := []], {}, map[], {})
    const missed: Hub := Hub(State(map[], []), 2, map[0 := [NoSuchSafe()]], {0}, map[], {})
    const kept: Hub := missed.(state := State(map[a := ca], []))

    const disk: map<Name, seq<Byte>> := map[a := fa, b := fb]

    function At(hub: Hub, h: Handle): System {
      System(World(disk, hub), map[0 := h])
    }
  }

  /** A store that arrives at once. */
  lemma {:induction false} PutStep(sc: Scene, hub: Hub, timeout: int, hub': Hub)
    requires sc.Valid() && hub' == Stored(hub, 0, sc.a, sc.ca, timeout) && hub.Held(0) == []
    ensures var h := Handle(sc.a, sc.ca, true);
            Step(sc.conf, sc.At(hub, h), Do(0, 0, Put(timeout)), sc.At(hub', h))
  {
    hide Holds, Fits, ContentsFit, Flushed, Stored;
    FlushedAtOnce(hub, 0);
    assert StoresAfter(hub, 0, sc.a, sc.ca, timeout, true, hub, hub');
    var h := Handle(sc.a, sc.ca, true);
    DoStep(sc.conf, sc.At(hub, h), 0, 0, Put(timeout), World(sc.disk, hub'), h);
    hide Step;
    assert map[0 := h][0 := h] == map[0 := h];
  }

  /** An open that reads the file. */
  lemma {:induction false} ForcedStep(conf: Conf, s: System, conn: nat, id: nat, name: Name, c: Contents)
    requires conf.k.Laws() && s.At(id).Closed? && Fits(name, PATH_MAX) && ContentsFit(c)
    requires name in s.w.disk && Holds(conf, s.w.disk[name], c)
    ensures Step(conf, s, Do(conn, id, Open(name, true)), System(s.w, s.hs[id := Handle(name, c, true)]))
  {
    HoldsOpens(conf, s.w.disk[name], c);
    hide Holds, FileOpens, Fits, ContentsFit, Elapsed;
    ElapsedRefl(s.w.hub);
    DoStep(conf, s, conn, id, Open(name, true), s.w, Handle(name, c, true));
  }

  /** Both timers fire when they are due: the first removes the entry, */
  lemma {:induction false} FirstFires(sc: Scene)
    ensures var late := sc.twice.(now := 2); Due(late, 0) && Fired(late, 0) == sc.first
  {
    var late := sc.twice.(now := 2);
    hide NoSuchSafe;
    assert map[sc.a := sc.ca] - {sc.a} == map[];
    assert late.state.timers[..0] + late.state.timers[1..] == sc.first.state.timers;
  }

  /** the second finds none. */
  lemma {:induction false} SecondMisses(sc: Scene)
    ensures Due(sc.first, 0) && Fired(sc.first, 0) == sc.missed
  {
    hide NoSuchSafe;
    assert sc.first.state.store - {sc.a} == sc.first.state.store;
    assert sc.first.state.timers[..0] + sc.first.state.timers[1..] == sc.missed.state.timers;
    assert [] + [NoSuchSafe()] == [NoSuchSafe()];
  }

  lemma {:induction false} FiresTwice(sc: Scene)
    ensures Elapsed(sc.twice, sc.missed)
  {
    var late := sc.twice.(now := 2);
    FirstFires(sc);
    SecondMisses(sc);
    hide Due, Fired, Elapsed;
    ElapsedRefl(sc.twice);
    ElapsedMore(sc.twice, sc.twice, late);
    ElapsedMore(sc.twice, late, sc.first);
    ElapsedMore(sc.twice, sc.first, sc.missed);
  }

  /** The agent once the save has searched it: the answer waits behind the stray error. */
  function Searched(sc: Scene): Hub
    requires sc.Valid()
  {
    sc.kept.(inbox := map[0 := [Found(sc.a, sc.ca)]])
  }

  function AfterSave(sc: Scene): System
    requires sc.Valid()
  {
    System(World(sc.disk[sc.a := sc.fe], Searched(sc)), map[0 := Handle(sc.a, sc.edited, true)])
  }

  lemma {:induction false} SearchMisled(sc: Scene)
    requires sc.Valid()
    ensures StoreFits(sc.kept.state.store) && Asked(sc.kept, 0, SearchReq(sc.a)) == (NoSuchSafe(), Searched(sc))
  {
    hide Holds, Found, NoSuchSafe;
    var stream := [NoSuchSafe()] + [Found(sc.a, sc.ca)];
    assert stream[1..] == [Found(sc.a, sc.ca)];
    assert sc.kept.inbox[0 := [Found(sc.a, sc.ca)]] == map[0 := [Found(sc.a, sc.ca)]];
    assert sc.kept.Unread(0) + [Found(sc.a, sc.ca)] == stream;
  }

  lemma {:induction false} SavesNothing(sc: Scene)
    requires sc.Valid()
    ensures AgentSaves(sc.kept, 0, sc.a, sc.edited, Searched(sc))
  {
    SearchMisled(sc);
    FlushedAtOnce(sc.kept, 0);
    assert !Serves(NoSuchSafe());
    hide Flushed, Asked, Found, NoSuchSafe, Serves, Fits, ContentsFit, Holds, Searched;
    assert SavesVia(sc.kept, 0, sc.a, sc.edited, sc.kept, None, Searched(sc), Searched(sc));
  }

  /** The save reads the stray error, takes the safe for uncached, and writes only the file. */
  lemma {:induction false} SaveMisled(sc: Scene)
    requires sc.Valid()
    ensures Step(sc.conf, sc.At(sc.kept, Handle(sc.a, sc.edited, false)), Do(0, 0, Save), AfterSave(sc))
    ensures !Agreement(sc.conf, AfterSave(sc).w)
  {
    hide AgentSaves, ContentsFit, Fits, NoSuchSafe, Found, Holds;
    SavesNothing(sc);
    var h, h' := Handle(sc.a, sc.edited, false), Handle(sc.a, sc.edited, true);
    DoStep(sc.conf, sc.At(sc.kept, h), 0, 0, Save, AfterSave(sc).w, h');
    assert map[0 := h][0 := h'] == map[0 := h'];
    hide Step;
    if Holds(sc.conf, sc.fe, sc.ca) {
      HoldsOne(sc.conf, sc.fe, sc.ca, sc.edited);
    }
    assert sc.a in Searched(sc).state.store && Searched(sc).state.store[sc.a] == sc.ca;
  }

  function Story(sc: Scene): seq<System>
    requires sc.Valid()
  {
    var h := Handle(sc.a, sc.ca, true);
    [System(World(sc.disk, sc.empty), map[]), sc.At(sc.empty, h), sc.At(sc.once, h), sc.At(sc.twice, h),
     sc.At(sc.missed, h), sc.At(sc.kept, h), sc.At(sc.kept, Handle(sc.a, sc.edited, false)), AfterSave(sc)]
  }

  function Commands(sc: Scene): seq<Command> {
    [Do(0, 0, Open(sc.a, true)), Do(0, 0, Put(1)), Do(0, 0, Put(2)), Pause, Do(0, 0, Put(0)), Do(0, 0, Edit(sc.edited)),
     Do(0, 0, Save)]
  }

  lemma {:induction false} StoryPuts(sc: Scene)
    requires sc.Valid()
    ensures var t, cmds := Story(sc), Commands(sc);
            forall i :: i == 1 || i == 2 || i == 4 ==> Step(sc.conf, t[i], cmds[i], t[i + 1])
  {
    hide Step, AfterSave, Holds, Fits, ContentsFit, NoSuchSafe, Scene.Valid;
    PutStep(sc, sc.empty, 1, sc.once);
    PutStep(sc, sc.once, 2, sc.twice);
    PutStep(sc, sc.missed, 0, sc.kept);
  }

  lemma {:induction false} StoryStarts(sc: Scene)
    requires sc.Valid()
    ensures var t, cmds := Story(sc), Commands(sc);
            && Inv(sc.conf, t[0]) && Step(sc.conf, t[0], cmds[0], t[1])
            && Step(sc.conf, t[3], cmds[3], t[4]) && Step(sc.conf, t[5], cmds[5], t[6])
  {
    var h := Handle(sc.a, sc.ca, true);
    hide Holds, Elapsed, Inv, AfterSave, Does, ContentsFit, NoSuchSafe;
    StartsInStep(sc);
    ForcedStep(sc.conf, Story(sc)[0], 0, 0, sc.a, sc.ca);
    assert map[][0 := h] == map[0 := h];
    FiresTwice(sc);
    EditStep(sc);
  }

  lemma {:induction false} StoryCareful(sc: Scene, i: nat)
    requires sc.Valid() && i < 6
    ensures Careful(Story(sc)[i], Commands(sc)[i], Story(sc)[i + 1])
  {
    hide Holds, AfterSave;
  }

  /** The whole run: the safe is stored for one second and for two, both timers fire, it is stored again to
      stay, edited and saved. Every step but the last keeps to the conditions of AgreementOverRuns, every
      operation succeeds, and afterwards the agent holds the old contents and the file the new ones. The
      answer to the save's question waits for the next one. */
  lemma {:induction false} MissPartsTheCopies(sc: Scene) returns (trace: seq<System>, cmds: seq<Command>)
    requires sc.Valid()
    ensures Run(sc.conf, trace, cmds) && |cmds| == 7 && cmds[6] == Do(0, 0, Save)
    ensures CarefulRun(trace[..7], cmds[..6])
    ensures trace[7] == AfterSave(sc) && !Agreement(sc.conf, trace[7].w)
  {
    hide Holds, ContentsFit, Fits, NoSuchSafe, Found;
    trace, cmds := Story(sc), Commands(sc);
    StoryStarts(sc);
    StoryPuts(sc);
    SaveMisled(sc);
    forall i | 0 <= i < 6 ensures Careful(trace[i], cmds[i], trace[i + 1]) {
      StoryCareful(sc, i);
    }
    hide Step, Inv, AfterSave, Agreement, Careful;
  }

  lemma {:induction false} StartsInStep(sc: Scene)
    requires sc.Valid()
    ensures Inv(sc.conf, System(World(sc.disk, sc.empty), map[]))
  {
    HoldsIsStable(sc.conf, sc.fa, sc.ca);
    HoldsIsStable(sc.conf, sc.fb, sc.cb);
    hide Holds, Stable;
  }

  lemma {:induction false} EditStep(sc: Scene)
    requires sc.Valid()
    ensures var h := Handle(sc.a, sc.ca, true);
            Step(sc.conf, sc.At(sc.kept, h), Do(0, 0, Edit(sc.edited)), sc.At(sc.kept, h.(c := sc.edited, clean := false)))
  {
    hide Holds, Fits, ContentsFit;
    var h := Handle(sc.a, sc.ca, true);
    var h' := h.(c := sc.edited, clean := false);
    DoStep(sc.conf, sc.At(sc.kept, h), 0, 0, Edit(sc.edited), sc.At(sc.kept, h).w, h');
    assert map[0 := h][0 := h'] == map[0 := h'];
  }

  // ---- What the answer left waiting does next ----

  /** The agent once the next search has been answered: the first reply was about the other safe. */
  lemma {:induction false} NextSearchMisled(sc: Scene)
    requires sc.Valid()
    ensures StoreFits(Searched(sc).state.store)
    ensures Asked(Searched(sc), 0, SearchReq(sc.b)) == (Found(sc.a, sc.ca), sc.kept)
  {
    hide Holds, Found, NoSuchSafe;
    var stream := [Found(sc.a, sc.ca)] + [NoSuchSafe()];
    assert stream[1..] == [NoSuchSafe()];
    assert Searched(sc).inbox[0 := [NoSuchSafe()]] == map[0 := [NoSuchSafe()]];
    assert Searched(sc).Unread(0) + [NoSuchSafe()] == stream;
  }

  lemma {:induction false} ServesAnother(sc: Scene)
    requires sc.Valid()
    ensures AgentOpens(Searched(sc), 0, sc.b, Some(sc.ca), sc.kept)
  {
    NextSearchMisled(sc);
    FoundServes(sc.a, sc.ca);
    FlushedAtOnce(Searched(sc), 0);
    hide Flushed, Asked, Found, NoSuchSafe, Serves, Served, Fits, ContentsFit, Holds, Searched;
    assert OpensVia(Searched(sc), 0, sc.b, Searched(sc), Some(sc.ca), sc.kept);
  }

  /** If the next operation opens another safe, it gets the contents of the first one: what a forced open
      would have returned is something else. */
  lemma {:induction false} OpenGetsAnother(sc: Scene) returns (s': System, forced: System)
    requires sc.Valid()
    ensures Step(sc.conf, AfterSave(sc), Do(0, 1, Open(sc.b, false)), s')
    ensures Step(sc.conf, AfterSave(sc), Do(0, 1, Open(sc.b, true)), forced)
    ensures s'.At(1).c == sc.ca && forced.At(1).c == sc.cb && sc.ca != sc.cb
  {
    hide AgentOpens, FileOpens, ContentsFit, Holds, NoSuchSafe, Found, Searched;
    ServesAnother(sc);
    var s := AfterSave(sc);
    var h', w' := Handle(sc.b, sc.ca, true), World(s.w.disk, sc.kept);
    DoStep(sc.conf, s, 0, 1, Open(sc.b, false), w', h');
    ForcedStep(sc.conf, s, 0, 1, sc.b, sc.cb);
    s', forced := System(w', s.hs[1 := h']), System(s.w, s.hs[1 := Handle(sc.b, sc.cb, true)]);
  }

  lemma {:induction false} SavesUnderAnother(sc: Scene)
    requires sc.Valid()
    ensures AgentSaves(Searched(sc), 0, sc.b, sc.cb, Stored(sc.kept, 0, sc.a, sc.cb, -1))
  {
    NextSearchMisled(sc);
    FoundServes(sc.a, sc.ca);
    FlushedAtOnce(Searched(sc), 0);
    FlushedAtOnce(sc.kept, 0);
    hide Flushed, Asked, Found, NoSuchSafe, Serves, Served, Fits, ContentsFit, Holds, Searched;
    assert SavesVia(Searched(sc), 0, sc.b, sc.cb, Searched(sc), Some(sc.a), sc.kept, Stored(sc.kept, 0, sc.a, sc.cb, -1));
  }

  /** If instead the other safe is opened from its file and saved, its contents are stored under the first
      one's name. */
  lemma {:induction false} SaveOverwritesAnother(sc: Scene) returns (s': System, s2: System)
    requires sc.Valid()
    ensures Step(sc.conf, AfterSave(sc), Do(0, 1, Open(sc.b, true)), s')
    ensures Step(sc.conf, s', Do(0, 1, Save), s2)
    ensures s2.w.hub.state.store == map[sc.a := sc.cb]
  {
    hide AgentSaves, ContentsFit, Holds, Searched, NoSuchSafe;
    var s, h := AfterSave(sc), Handle(sc.b, sc.cb, true);
    var hub := Stored(sc.kept, 0, sc.a, sc.cb, -1);
    ForcedStep(sc.conf, s, 0, 1, sc.b, sc.cb);
    s' := System(s.w, s.hs[1 := h]);
    SavesUnderAnother(sc);
    DoStep(sc.conf, s', 0, 1, Save, World(s.w.disk[sc.b := sc.fb], hub), h);
    s2 := System(World(s.w.disk[sc.b := sc.fb], hub), s'.hs[1 := h]);
  }
}
