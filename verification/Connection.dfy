/** One client's connection from bytes to replies: both directions of the transport, with any choice of
    transfer sizes, the agent that dispatches what arrives, and the client that asks and reads. Every run
    of it is a run of Session. */
module Connection {
  import opened Bytes
  import opened Frames
  import opened Wire
  import opened Store
  import opened Protocol
  import SendQueue
  import Transport
  import Session
  import Replay

  /** The client waits only after a send whose flush has emptied its queue, so that the queue it clears when
      it gives up is empty. */
  datatype Connection = Connection(
    own: nat, pid: U32, up: Transport.Link, down: Transport.Link, agent: State, now: int, waiting: bool)

  datatype Event = Ask(m: Message) | AskFails(m: Message) | Up(u: Transport.Step) | Take | Down(d: Transport.Step)
                 | Read | GiveUp | FireOwn(i: nat) | FireOther(j: nat) | Other(conn: nat, r: Request) | Tick(t: nat)

  /** Bytes on their way: a write or a read of any size. */
  ghost predicate Moves(l: Transport.Link, s: Transport.Step, l': Transport.Link) {
    (s.Write? || s.Read?) && Transport.NextStep(l, s, l')
  }

  /** A message without a descriptor enters a queue. */
  ghost predicate Composes(l: Transport.Link, m: Message, l': Transport.Link) {
    Transport.NextStep(l, Transport.Compose(Transport.Item(m, NO_FD)), l')
  }

  ghost predicate Replies(l: Transport.Link, replies: seq<Reply>, pid: U32, l': Transport.Link) {
    if replies == [] then l' == l
    else |replies| == 1 && replies[0].Sendable() && Composes(l, replies[0].ToMessage(pid), l')
  }

  ghost predicate Init(c: Connection) {
    && Transport.Init(c.up) && Transport.Init(c.down)
    && c == Connection(c.own, c.pid, c.up, c.down, State(map[], []), c.now, false)
  }

  /** A message that asks for something. */
  predicate Requests(m: Message) {
    !Decode(m).Malformed?
  }

  ghost predicate Step(c: Connection, e: Event, c': Connection)
    requires StoreFits(c.agent.store)
  {
    match e
    case Ask(m) =>
      && !c.waiting && Requests(m) && Composes(c.up, m, c'.up)
      && c' == c.(up := c'.up, waiting := Session.ExpectsReply(Decode(m)))
    case AskFails(m) =>
      !c.waiting && Requests(m) && Composes(c.up, m, c'.up) && c' == c.(up := c'.up)
    case Up(s) =>
      Moves(c.up, s, c'.up) && c' == c.(up := c'.up)
    case Take =>
      && Transport.NextStep(c.up, Transport.Get, c'.up)
      && var effect := OnRequest(c.agent, c.now, c.own, Decode(c'.up.got[|c.up.got|].msg));
         && Replies(c.down, effect.replies, c.pid, c'.down)
         && c' == c.(up := c'.up, down := c'.down, agent := effect.state)
    case Down(s) =>
      Moves(c.down, s, c'.down) && c' == c.(down := c'.down)
    case Read =>
      c.waiting && Transport.NextStep(c.down, Transport.Get, c'.down) && c' == c.(down := c'.down, waiting := false)
    case GiveUp =>
      c.waiting && c' == c.(waiting := false)
    case FireOwn(i) =>
      && i < |c.agent.timers| && c.agent.timers[i].conn == c.own && c.agent.timers[i].deadline <= c.now
      && Replies(c.down, OnFire(c.agent, i).replies, c.pid, c'.down)
      && c' == c.(down := c'.down, agent := OnFire(c.agent, i).state)
    case FireOther(i) =>
      && i < |c.agent.timers| && c.agent.timers[i].conn != c.own && c.agent.timers[i].deadline <= c.now
      && c' == c.(agent := OnFire(c.agent, i).state)
    case Other(conn, r) =>
      && conn != c.own && r.Valid() && c' == c.(agent := OnRequest(c.agent, c.now, conn, r).state)
    case Tick(t) =>
      c' == c.(now := c.now + t)
  }

  ghost predicate Related(c: Connection, c': Connection) {
    StoreFits(c.agent.store) && exists e :: Step(c, e, c')
  }

  ghost predicate Run(trace: seq<Connection>) {
    && trace != [] && Init(trace[0])
    && forall i :: 0 <= i < |trace| - 1 ==> Related(trace[i], trace[i + 1])
  }

  // ---- What the frames say ----

  function Asked(items: seq<Transport.Item>): (rs: seq<Request>)
    ensures |rs| == |items|
  {
    seq(|items|, i requires 0 <= i < |items| => Decode(items[i].msg))
  }

  function Said(items: seq<Transport.Item>): (rs: seq<Reply>)
    ensures |rs| == |items|
  {
    seq(|items|, i requires 0 <= i < |items| => Reply(items[i].msg.hdr.typ, items[i].msg.data))
  }

  function Undelivered(l: Transport.Link): seq<Transport.Item> {
    if |l.got| <= |l.composed| then l.composed[|l.got|..] else []
  }

  /** The session that a connection is a picture of: composed and unhandled requests are under way to the
      agent, composed and unread replies to the client. */
  ghost predicate Pictures(c: Connection, s: Session.Session) {
    && s.own == c.own && s.agent == c.agent && s.now == c.now && s.waiting == c.waiting
    && s.toAgent == Asked(Undelivered(c.up)) && s.toClient == Said(Undelivered(c.down))
    && s.received == Said(c.down.got) && s.asked == Session.Asks(Asked(c.up.composed))
  }

  ghost predicate Sound(c: Connection) {
    && StoreFits(c.agent.store) && Transport.Inv(c.up) && Transport.Inv(c.down)
    && forall i :: 0 <= i < |c.up.composed| ==> Requests(c.up.composed[i].msg)
  }

  // ---- One direction, message by message ----

  lemma {:induction false} ComposedLast(l: Transport.Link, m: Message, l': Transport.Link)
    requires Transport.Inv(l) && Composes(l, m, l')
    ensures Transport.Inv(l') && l'.got == l.got && l'.composed == l.composed + [Transport.Item(m, NO_FD)]
    ensures Undelivered(l') == Undelivered(l) + [Transport.Item(m, NO_FD)]
  {
    hide Transport.Outstanding;
    Transport.ComposeKeeps(l, Transport.Item(m, NO_FD), l');
    CutInside(l.composed, [Transport.Item(m, NO_FD)], |l.got|);
  }

  lemma {:induction false} GotPrefix(l: Transport.Link)
    requires Transport.Inv(l)
    ensures l.got <= l.composed
  {
  }

  lemma {:induction false} GetShape(l: Transport.Link, l': Transport.Link)
    requires Transport.NextStep(l, Transport.Get, l')
    ensures |l'.got| == |l.got| + 1 && l'.got == l.got + [l'.got[|l.got|]] && l'.composed == l.composed
  {
    hide Transport.Took;
  }

  lemma {:induction false} OneFurther<T>(got: seq<T>, x: T, all: seq<T>)
    requires got + [x] <= all
    ensures all[|got|..] == [x] + all[|got| + 1..]
  {
    assert all[|got|] == (got + [x])[|got|];
  }

  lemma {:induction false} GotFirst(l: Transport.Link, l': Transport.Link)
    requires Transport.Inv(l) && Transport.NextStep(l, Transport.Get, l')
    ensures Transport.Inv(l') && l'.composed == l.composed
    ensures |l'.got| == |l.got| + 1 && l'.got == l.got + [l'.got[|l.got|]]
    ensures Undelivered(l) == [l'.got[|l.got|]] + Undelivered(l')
  {
    Transport.GetKeeps(l, l');
    GetShape(l, l');
    GotPrefix(l');
    hide Transport.Inv, Transport.NextStep;
    OneFurther(l.got, l'.got[|l.got|], l.composed);
  }

  lemma {:induction false} MovedOnly(l: Transport.Link, s: Transport.Step, l': Transport.Link)
    requires Transport.Inv(l) && Moves(l, s, l')
    ensures Transport.Inv(l') && l'.composed == l.composed && l'.got == l.got
  {
    if s.Write? {
      Transport.WriteKeeps(l, s.w, l');
    } else {
      Transport.ReadKeeps(l, s.r, l');
    }
  }

  lemma {:induction false} AskedAppend(a: seq<Transport.Item>, b: seq<Transport.Item>)
    ensures Asked(a + b) == Asked(a) + Asked(b) && Said(a + b) == Said(a) + Said(b)
  {
  }

  lemma {:induction false} RepliesLast(l: Transport.Link, replies: seq<Reply>, pid: U32, l': Transport.Link)
    requires Transport.Inv(l) && Replies(l, replies, pid, l')
    ensures Transport.Inv(l') && l'.got == l.got && Said(Undelivered(l')) == Said(Undelivered(l)) + replies
  {
    hide Transport.Inv, Composes, Undelivered;
    if replies != [] {
      var m := replies[0].ToMessage(pid);
      ComposedLast(l, m, l');
      AskedAppend(Undelivered(l), [Transport.Item(m, NO_FD)]);
      assert Said([Transport.Item(m, NO_FD)]) == [replies[0]] == replies;
    } else {
      assert Said(Undelivered(l)) + [] == Said(Undelivered(l));
    }
  }

  // ---- Step by step ----

  lemma {:induction false} AskPictured(c: Connection, m: Message, fails: bool, c': Connection, s: Session.Session)
    returns (s': Session.Session)
    requires Sound(c) && Pictures(c, s) && Step(c, if fails then AskFails(m) else Ask(m), c')
    ensures Sound(c') && Pictures(c', s') && Session.Leads(s, s')
  {
    hide Transport.Inv, Composes, Decode, StoreFits, Undelivered, Session.Asks, Session.Leads;
    var item, r := Transport.Item(m, NO_FD), Decode(m);
    ComposedLast(c.up, m, c'.up);
    AskedAppend(Undelivered(c.up), [item]);
    AskedAppend(c.up.composed, [item]);
    assert Asked([item]) == [r];
    Session.AsksAppend(Asked(c.up.composed), r);
    Replay.ClientSends(s, r);
    hide Asked, Said;
    s' := if fails then Replay.Failing(s, r) else Replay.Sending(s, r);
    assert s.asked + [] == s.asked;
  }

  /** The agent handles the next request of a session. */
  function HandledNext(s: Session.Session): Session.Session
    requires StoreFits(s.agent.store) && s.toAgent != []
  {
    var r := s.toAgent[0];
    var e := OnRequest(s.agent, s.now, s.own, r);
    s.(agent := e.state, toAgent := s.toAgent[1..], toClient := s.toClient + e.replies,
       log := if Session.ExpectsReply(r) then s.log + [Session.Exchange(r, s.agent.store, e.replies[0])] else s.log)
  }

  lemma {:induction false} HandlesNext(s: Session.Session)
    requires StoreFits(s.agent.store) && s.toAgent != []
    ensures Session.Leads(s, HandledNext(s))
  {
    hide Found, NoSuchSafe, Discarded, Fits, ContentsFit;
    Session.OneStep(s, Session.HandleNext, HandledNext(s));
  }

  lemma {:induction false} TakePictured(c: Connection, c': Connection, s: Session.Session) returns (s': Session.Session)
    requires Sound(c) && Pictures(c, s) && Step(c, Take, c')
    ensures Sound(c') && Pictures(c', s') && Session.Leads(s, s')
  {
    hide Transport.Inv, Transport.NextStep, Replies, Decode, Undelivered, OnRequest, Session.Leads;
    GotFirst(c.up, c'.up);
    var item := c'.up.got[|c.up.got|];
    var r := Decode(item.msg);
    var e := OnRequest(c.agent, c.now, c.own, r);
    RequestKeepsFits(c.agent, c.now, c.own, r);
    RepliesLast(c.down, e.replies, c.pid, c'.down);
    RepliesGot(c.down, e.replies, c.pid, c'.down);
    AskedAppend([item], Undelivered(c'.up));
    assert Asked([item]) == [r];
    hide Asked, Said, StoreFits;
    CutBehind([r], Asked(Undelivered(c'.up)), 0);
    assert s.toAgent == [r] + Asked(Undelivered(c'.up));
    HandlesNext(s);
    s' := HandledNext(s);
    assert s'.toAgent == Asked(Undelivered(c'.up));
  }

  lemma {:induction false} RepliesGot(l: Transport.Link, replies: seq<Reply>, pid: U32, l': Transport.Link)
    requires Replies(l, replies, pid, l')
    ensures l'.got == l.got
  {
  }

  lemma {:induction false} ReadPictured(c: Connection, c': Connection, s: Session.Session) returns (s': Session.Session)
    requires Sound(c) && Pictures(c, s) && Step(c, Read, c') && s.asked != []
    ensures Sound(c') && Pictures(c', s') && Session.Leads(s, s')
  {
    hide Transport.Inv, Transport.NextStep, Decode, Undelivered, StoreFits, Session.Leads;
    GotFirst(c.down, c'.down);
    var item := c'.down.got[|c.down.got|];
    AskedAppend([item], Undelivered(c'.down));
    AskedAppend(c.down.got, [item]);
    var said := Said([item])[0];
    assert Said([item]) == [said];
    hide Asked, Said;
    CutBehind([said], Said(Undelivered(c'.down)), 0);
    assert s.toClient == [said] + Said(Undelivered(c'.down));
    s' := s.(toClient := s.toClient[1..], received := s.received + [s.toClient[0]],
             takenFor := s.takenFor + [|s.asked| - 1], waiting := false);
    Session.OneStep(s, Session.Receive, s');
  }

  lemma {:induction false} FirePictured(c: Connection, i: nat, c': Connection, s: Session.Session) returns (s': Session.Session)
    requires Sound(c) && Pictures(c, s) && Step(c, FireOwn(i), c')
    ensures Sound(c') && Pictures(c', s') && Session.Leads(s, s')
  {
    hide Transport.Inv, Replies, Undelivered, NoSuchSafe, Fits, ContentsFit, Decode, Session.Leads, Asked, Said;
    var e := OnFire(c.agent, i);
    RepliesLast(c.down, e.replies, c.pid, c'.down);
    RepliesGot(c.down, e.replies, c.pid, c'.down);
    s' := s.(agent := e.state, toClient := s.toClient + e.replies,
             strays := if e.replies == [] then s.strays else s.strays + [|s.log|]);
    Session.OneStep(s, Session.FireOwn(i), s');
  }

  lemma {:induction false} MovePictured(c: Connection, e: Event, c': Connection, s: Session.Session)
    requires Sound(c) && Pictures(c, s) && Step(c, e, c') && (e.Up? || e.Down?)
    ensures Sound(c') && Pictures(c', s) && Session.Leads(s, s)
  {
    hide Transport.Inv, Moves, Decode, StoreFits, Asked, Said;
    match e {
      case Up(u) => MovedOnly(c.up, u, c'.up);
      case Down(d) => MovedOnly(c.down, d, c'.down);
    }
    Replay.StaysPut(s);
  }

  lemma {:induction false} QuietPictured(c: Connection, e: Event, c': Connection, s: Session.Session) returns (s': Session.Session)
    requires Sound(c) && Pictures(c, s) && Step(c, e, c') && (e.GiveUp? ==> s.asked != [])
    requires e.GiveUp? || e.FireOther? || e.Other? || e.Tick?
    ensures Sound(c') && Pictures(c', s') && Session.Leads(s, s')
  {
    hide Transport.Inv, Decode, Found, NoSuchSafe, Discarded, Fits, ContentsFit, Asked, Said, Undelivered, Session.Leads;
    match e
    case GiveUp =>
      s' := s.(gaveUp := s.gaveUp + [|s.asked| - 1], waiting := false);
      Session.OneStep(s, Session.GiveUp, s');
    case FireOther(j) =>
      s' := s.(agent := OnFire(s.agent, j).state);
      Session.OneStep(s, Session.FireOther(j), s');
    case Other(conn, r) =>
      RequestKeepsFits(c.agent, c.now, conn, r);
      s' := s.(agent := OnRequest(s.agent, s.now, conn, r).state);
      Session.OneStep(s, Session.Other(conn, r), s');
    case Tick(t) =>
      s' := s.(now := s.now + t);
      Session.OneStep(s, Session.Tick(t), s');
  }

  lemma {:induction false} WaitsToRead(c: Connection, e: Event, c': Connection)
    requires StoreFits(c.agent.store) && Step(c, e, c')
    ensures e.Read? || e.GiveUp? ==> c.waiting
  {
    hide Transport.NextStep, Moves, Composes, Replies, Requests, Decode, OnRequest, OnFire, StoreFits;
  }

  /** Whatever happens on the connection, the session it pictures can do. */
  lemma {:induction false} StepPictured(c: Connection, c': Connection, s: Session.Session) returns (s': Session.Session)
    requires Sound(c) && Pictures(c, s) && Related(c, c') && (c.waiting ==> s.asked != [])
    ensures Sound(c') && Pictures(c', s') && Session.Leads(s, s')
  {
    hide Step, Sound, Pictures, Session.Leads, StoreFits;
    var e :| Step(c, e, c');
    WaitsToRead(c, e, c');
    match e
    case Ask(m) => s' := AskPictured(c, m, false, c', s);
    case AskFails(m) => s' := AskPictured(c, m, true, c', s);
    case Up(u) => s' := s; MovePictured(c, e, c', s);
    case Take => s' := TakePictured(c, c', s);
    case Down(d) => s' := s; MovePictured(c, e, c', s);
    case Read => s' := ReadPictured(c, c', s);
    case FireOwn(i) => s' := FirePictured(c, i, c', s);
    case GiveUp => s' := QuietPictured(c, e, c', s);
    case FireOther(j) => s' := QuietPictured(c, e, c', s);
    case Other(conn, r) => s' := QuietPictured(c, e, c', s);
    case Tick(t) => s' := QuietPictured(c, e, c', s);
  }

  // ---- The results about whole runs ----

  function Started(c: Connection): Session.Session {
    Session.Start(c.own).(now := c.now)
  }

  lemma {:induction false} InitPictured(c: Connection)
    requires Init(c)
    ensures Sound(c) && Pictures(c, Started(c)) && Session.Init(Started(c)) && Session.Leads(Started(c), Started(c))
  {
    Replay.StaysPut(Started(c));
  }

  lemma {:induction false} ReachedInv(s: Session.Session, s': Session.Session)
    requires Session.Init(s) && Session.Leads(s, s')
    ensures Session.Inv(s')
  {
    var trace := Session.ARun(s, s');
    Session.RunKeeps(trace);
  }

  lemma {:induction false} WaitingAsked(c: Connection, s: Session.Session)
    requires Pictures(c, s) && Session.Inv(s)
    ensures c.waiting ==> s.asked != []
  {
    hide Session.Asks, Session.Stream, Session.Taken, Session.Dated, Session.Truthful, StoreFits, Asked, Said, Undelivered;
  }

  /** One more step of a run. */
  lemma {:induction false} OneMorePictured(start: Session.Session, c: Connection, c': Connection, m: Session.Session)
    returns (s: Session.Session)
    requires Session.Init(start) && Session.Leads(start, m) && Sound(c) && Pictures(c, m) && Related(c, c')
    ensures Sound(c') && Pictures(c', s) && Session.Leads(start, s)
  {
    ReachedInv(start, m);
    WaitingAsked(c, m);
    hide Related, Sound, Pictures, Session.Leads, Session.Init, Session.Inv;
    s := StepPictured(c, c', m);
    Session.LeadsOn(start, m, s);
  }

  lemma {:induction false} RunPictured(trace: seq<Connection>) returns (s: Session.Session)
    requires Run(trace)
    ensures Sound(trace[|trace| - 1]) && Pictures(trace[|trace| - 1], s) && Session.Leads(Started(trace[0]), s)
  {
    InitPictured(trace[0]);
    hide Related, Sound, Pictures, Session.Leads, Session.Init, Init, Started;
    if |trace| == 1 {
      s := Started(trace[0]);
    } else {
      var n := |trace| - 1;
      var before := trace[..n];
      forall i | 0 <= i < |before| - 1 ensures Related(before[i], before[i + 1]) {
        assert Related(trace[i], trace[i + 1]);
      }
      var m := RunPictured(before);
      assert Related(trace[n - 1], trace[n - 1 + 1]);
      s := OneMorePictured(Started(trace[0]), trace[n - 1], trace[n], m);
    }
  }

  /** Every run of the connection, byte by byte, is a run of Session: however writes and reads cut the two
      streams, the session's client has asked what was composed and received what was taken out of the
      last frames. */
  lemma {:induction false} IsASession(trace: seq<Connection>) returns (sessions: seq<Session.Session>)
    requires Run(trace)
    ensures Session.Run(sessions) && Pictures(trace[|trace| - 1], sessions[|sessions| - 1])
  {
    var s := RunPictured(trace);
    InitPictured(trace[0]);
    hide Pictures, Session.Run, Session.Leads, Session.Init;
    sessions := Session.ARun(Started(trace[0]), s);
  }

  /** So, from bytes to replies: as long as no timer of the connection fires for an absent name and the
      client gives no question up, the k-th message that it takes out of its stream is the reply that its
      k-th question deserved on a store that it met; and in every run at all, a message is taken for its own
      question if and only if neither had happened before. */
  lemma {:induction false} PairedOverTheWire(trace: seq<Connection>, k: nat) returns (s: Session.Session)
    requires Run(trace) && k < |trace[|trace| - 1].down.got|
    ensures var c := trace[|trace| - 1];
            var os := Session.Origins(|s.log|, s.strays);
            && Pictures(c, s) && k < |s.received| && s.received[k] == Said(c.down.got)[k]
            && k < |os| && k < |s.takenFor| && s.received[k] == Session.Said(s.log, os[k])
            && (os[k] == Session.Own(s.takenFor[k])
                <==> (s.strays == [] || k < s.strays[0]) && (s.gaveUp == [] || k < s.gaveUp[0]))
            && (os[k] == Session.Own(s.takenFor[k]) ==>
                  && s.takenFor[k] == k && |s.log| <= |s.asked| && s.asked == Session.Asks(Asked(c.up.composed))
                  && Session.Truthful(s.log[k]) && s.log[k].request == s.asked[k])
  {
    var sessions := IsASession(trace);
    s := sessions[|sessions| - 1];
    assert s.received == Said(trace[|trace| - 1].down.got);
    hide Pictures, Run, Session.Run, Session.Origins, Session.Said, Session.Truthful;
    Session.Pairing(sessions, k);
  }

  // ---- Answers come ----

  /** The steps that bring something closer to where it is going. */
  predicate Transfers(e: Event) {
    e.Up? || e.Take? || e.Down? || e.Read?
  }

  /** Of these only finitely many can follow one another: each reduces the work left towards the agent, or
      leaves it and reduces the work left towards the client. */
  lemma {:induction false} TransfersEnd(c: Connection, e: Event, c': Connection)
    requires StoreFits(c.agent.store) && Step(c, e, c') && Transfers(e)
    ensures Transport.Remaining(c'.up) < Transport.Remaining(c.up)
            || (c'.up == c.up && Transport.Remaining(c'.down) < Transport.Remaining(c.down))
    ensures c'.waiting <==> c.waiting && !e.Read?
    ensures if e.Read? then c.waiting && |c'.down.got| == |c.down.got| + 1 else c'.down.got == c.down.got
  {
    hide Transport.Remaining, OnRequest, Decode, StoreFits;
    match e
    case Up(s) => Transport.StepsMakeProgress(c.up, s, c'.up);
    case Take => Transport.StepsMakeProgress(c.up, Transport.Get, c'.up);
    case Down(s) => Transport.StepsMakeProgress(c.down, s, c'.down);
    case Read => Transport.StepsMakeProgress(c.down, Transport.Get, c'.down);
  }

  /** While a client waits, its question or an answer is under way. */
  lemma {:induction false} SomethingUnderWay(c: Connection, s: Session.Session)
    requires Pictures(c, s) && Session.Inv(s) && c.waiting
    ensures Undelivered(c.up) != [] || Undelivered(c.down) != []
  {
    hide Session.Taken, Session.Dated, Session.Truthful, StoreFits, Undelivered, Session.Stream;
  }

  lemma {:induction false} ComposePossible(l: Transport.Link, m: Message) returns (l': Transport.Link)
    requires m.WellFormed() && !m.HasFd()
    ensures Composes(l, m, l')
  {
    l' := l.(queue := l.queue + [SendQueue.Pending(Frame(m), NO_FD)], composed := l.composed + [Transport.Item(m, NO_FD)]);
  }

  /** A client that does not wait can send any request. */
  lemma {:induction false} AskPossible(c: Connection, m: Message) returns (c': Connection)
    requires StoreFits(c.agent.store) && !c.waiting && Requests(m) && m.WellFormed() && !m.HasFd()
    ensures Step(c, Ask(m), c')
  {
    hide Composes, Decode, StoreFits;
    var up := ComposePossible(c.up, m);
    c' := c.(up := up, waiting := Session.ExpectsReply(Decode(m)));
  }

  lemma {:induction false} RepliesPossible(l: Transport.Link, replies: seq<Reply>, pid: U32) returns (l': Transport.Link)
    requires |replies| <= 1 && AllSendable(replies)
    ensures Replies(l, replies, pid, l')
  {
    hide Composes;
    l' := l;
    if replies != [] {
      assert !replies[0].ToMessage(pid).HasFd();
      l' := ComposePossible(l, replies[0].ToMessage(pid));
    }
  }

  lemma {:induction false} OneReplyAtMost(s: State, now: int, conn: nat, r: Request)
    requires StoreFits(s.store)
    ensures |OnRequest(s, now, conn, r).replies| <= 1
  {
  }

  lemma {:induction false} UpPossible(c: Connection) returns (e: Event, c': Connection)
    requires Sound(c) && Undelivered(c.up) != []
    ensures Step(c, e, c') && Transfers(e)
  {
    hide Transport.Inv, Transport.NextStep, Replies, OnRequest, Decode, StoreFits;
    var u, up := Transport.NextPossible(c.up);
    if u.Get? {
      GetShape(c.up, up);
      var r := Decode(up.got[|c.up.got|].msg);
      RequestKeepsFits(c.agent, c.now, c.own, r);
      OneReplyAtMost(c.agent, c.now, c.own, r);
      var effect := OnRequest(c.agent, c.now, c.own, r);
      var down := RepliesPossible(c.down, effect.replies, c.pid);
      e, c' := Take, c.(up := up, down := down, agent := effect.state);
    } else {
      e, c' := Up(u), c.(up := up);
    }
  }

  lemma {:induction false} DownPossible(c: Connection) returns (e: Event, c': Connection)
    requires Sound(c) && c.waiting && Undelivered(c.down) != []
    ensures Step(c, e, c') && Transfers(e)
  {
    hide Transport.Inv, Transport.NextStep, Replies, OnRequest, Decode, StoreFits;
    var d, down := Transport.NextPossible(c.down);
    if d.Get? {
      e, c' := Read, c.(down := down, waiting := false);
    } else {
      e, c' := Down(d), c.(down := down);
    }
  }

  /** In every run, while the client waits, such a step is possible. */
  lemma {:induction false} NeverStuck(trace: seq<Connection>) returns (e: Event, c': Connection)
    requires Run(trace) && trace[|trace| - 1].waiting
    ensures StoreFits(trace[|trace| - 1].agent.store) && Step(trace[|trace| - 1], e, c') && Transfers(e)
  {
    var c := trace[|trace| - 1];
    var s := RunPictured(trace);
    InitPictured(trace[0]);
    ReachedInv(Started(trace[0]), s);
    SomethingUnderWay(c, s);
    hide Pictures, Session.Inv, Session.Leads, Session.Init, Run, StoreFits, Step, Transport.Inv, Undelivered;
    if Undelivered(c.down) != [] {
      e, c' := DownPossible(c);
    } else {
      e, c' := UpPossible(c);
    }
  }

  ghost predicate Transfer(c: Connection, c': Connection) {
    StoreFits(c.agent.store) && exists e :: Transfers(e) && Step(c, e, c')
  }

  /** One transfer after another. */
  ghost predicate Transferred(c: Connection, rest: seq<Connection>)
    decreases |rest|
  {
    rest != [] ==> Transfer(c, rest[0]) && Transferred(rest[0], rest[1..])
  }

  lemma {:induction false} Continued(trace: seq<Connection>, c': Connection)
    requires Run(trace) && Related(trace[|trace| - 1], c')
    ensures Run(trace + [c'])
  {
    hide Init, Related;
    var longer := trace + [c'];
    forall i | 0 <= i < |longer| - 1 ensures Related(longer[i], longer[i + 1]) {
      if i < |trace| - 1 {
        assert Related(trace[i], trace[i + 1]);
      }
    }
  }

  lemma {:induction false} OneTransfer(trace: seq<Connection>) returns (c': Connection)
    requires Run(trace) && trace[|trace| - 1].waiting
    ensures Run(trace + [c']) && Transfer(trace[|trace| - 1], c')
    ensures var c := trace[|trace| - 1];
            && (Transport.Remaining(c'.up) < Transport.Remaining(c.up)
                || (c'.up == c.up && Transport.Remaining(c'.down) < Transport.Remaining(c.down)))
            && |c'.down.got| == |c.down.got| + if c'.waiting then 0 else 1
  {
    var c := trace[|trace| - 1];
    var e;
    e, c' := NeverStuck(trace);
    TransfersEnd(c, e, c');
    assert Related(c, c');
    hide Step, StoreFits, Run, Related, Transport.Remaining;
    Continued(trace, c');
  }

  /** So every question gets an answer: any run in which the client waits can be continued, by such steps
      alone, until it has read one more message. */
  lemma {:induction false} AnswerComes(trace: seq<Connection>) returns (rest: seq<Connection>)
    requires Run(trace) && trace[|trace| - 1].waiting
    ensures Run(trace + rest) && rest != [] && Transferred(trace[|trace| - 1], rest)
    ensures var c, c' := trace[|trace| - 1], rest[|rest| - 1];
            !c'.waiting && |c'.down.got| == |c.down.got| + 1
    decreases Transport.Remaining(trace[|trace| - 1].up), Transport.Remaining(trace[|trace| - 1].down)
  {
    hide Run, Transport.Remaining, Transfer;
    var c' := OneTransfer(trace);
    if c'.waiting {
      var more := AnswerComes(trace + [c']);
      rest := [c'] + more;
      assert trace + rest == trace + [c'] + more && rest[1..] == more;
    } else {
      rest := [c'];
      assert rest[1..] == [] && Transferred(c', []);
    }
  }
}
