/** Request/reply pairing: one client's connection to the agent, with both directions in flight, while
    other clients are served and timers fire. */
module Session {
  import opened Bytes
  import opened Store
  import opened Protocol

  predicate ExpectsReply(r: Request) {
    r.SearchReq? || r.DiscardReq?
  }

  /** The reply that a search or a discard deserves, given the store it meets. */
  function Deserved(store: map<Name, Contents>, r: Request): Reply
    requires StoreFits(store) && ExpectsReply(r)
  {
    match r
    case SearchReq(name) => if name in store then Found(name, store[name]) else NoSuchSafe()
    case DiscardReq(name) => if name in store then Discarded() else NoSuchSafe()
  }

  /** A request as the agent handled it: the store it met, and what was answered. */
  datatype Exchange = Exchange(request: Request, store: map<Name, Contents>, reply: Reply)

  /** The client on connection `own` sends one request at a time and waits for the answer to a search or
      a discard. When a send fails, its frame stays queued and arrives later; the client does not wait for
      an answer then, and it may also give up while it waits. The histories: the questions it asked in
      order, what the agent answered, what the client received and for which of its questions it took
      each reply, the questions it gave up on, and the strays: for each timer of this connection that
      fired for an absent name, how many answers had been given before it did. */
  datatype Session = Session(
    own: nat, agent: State, now: int, toAgent: seq<Request>, toClient: seq<Reply>, waiting: bool,
    asked: seq<Request>, log: seq<Exchange>, received: seq<Reply>, takenFor: seq<nat>, gaveUp: seq<nat>,
    strays: seq<nat>)

  datatype Event = Send(r: Request) | SendFails(r: Request) | HandleNext | Receive | GiveUp
                 | FireOwn(i: nat) | FireOther(j: nat) | Other(conn: nat, or: Request) | Tick(d: nat)

  ghost predicate Init(s: Session) {
    s.agent == State(map[], []) && s == Session(s.own, s.agent, s.now, [], [], false, [], [], [], [], [], [])
  }

  ghost predicate Step(s: Session, e: Event, s': Session)
    requires StoreFits(s.agent.store)
  {
    match e
    case Send(r) =>
      && !s.waiting && r.Valid() && !r.Malformed?
      && s' == s.(toAgent := s.toAgent + [r], waiting := ExpectsReply(r),
                  asked := if ExpectsReply(r) then s.asked + [r] else s.asked)
    case SendFails(r) =>
      && !s.waiting && r.Valid() && !r.Malformed?
      && s' == s.(toAgent := s.toAgent + [r],
                  asked := if ExpectsReply(r) then s.asked + [r] else s.asked,
                  gaveUp := if ExpectsReply(r) then s.gaveUp + [|s.asked|] else s.gaveUp)
    case HandleNext =>
      && s.toAgent != []
      && var r := s.toAgent[0];
         var effect := OnRequest(s.agent, s.now, s.own, r);
         s' == s.(agent := effect.state, toAgent := s.toAgent[1..], toClient := s.toClient + effect.replies,
                  log := if ExpectsReply(r) then s.log + [Exchange(r, s.agent.store, effect.replies[0])] else s.log)
    case Receive =>
      && s.waiting && s.toClient != [] && s.asked != []
      && s' == s.(toClient := s.toClient[1..], received := s.received + [s.toClient[0]],
                  takenFor := s.takenFor + [|s.asked| - 1], waiting := false)
    case GiveUp =>
      && s.waiting && s.asked != []
      && s' == s.(gaveUp := s.gaveUp + [|s.asked| - 1], waiting := false)
    case FireOwn(i) =>
      && i < |s.agent.timers| && s.agent.timers[i].conn == s.own && s.agent.timers[i].deadline <= s.now
      && var effect := OnFire(s.agent, i);
         s' == s.(agent := effect.state, toClient := s.toClient + effect.replies,
                  strays := if effect.replies == [] then s.strays else s.strays + [|s.log|])
    case FireOther(i) =>
      && i < |s.agent.timers| && s.agent.timers[i].conn != s.own && s.agent.timers[i].deadline <= s.now
      && s' == s.(agent := OnFire(s.agent, i).state)
    case Other(conn, r) =>
      && conn != s.own && r.Valid()
      && s' == s.(agent := OnRequest(s.agent, s.now, conn, r).state)
    case Tick(d) =>
      s' == s.(now := s.now + d)
  }

  ghost predicate Related(s: Session, s': Session) {
    StoreFits(s.agent.store) && exists e :: Step(s, e, s')
  }

  ghost predicate Run(trace: seq<Session>) {
    && trace != [] && Init(trace[0])
    && forall i :: 0 <= i < |trace| - 1 ==> Related(trace[i], trace[i + 1])
  }

  // ---- Requests and their answers ----

  function Asks(rs: seq<Request>): seq<Request> {
    if rs == [] then []
    else (if ExpectsReply(rs[0]) then [rs[0]] else []) + Asks(rs[1..])
  }

  lemma {:induction false} AsksAppend(a: seq<Request>, r: Request)
    ensures Asks(a + [r]) == Asks(a) + (if ExpectsReply(r) then [r] else [])
  {
    if a == [] {
      assert a + [r] == [r] && [r][1..] == [];
    } else {
      HeadTail(a, [r]);
      AsksAppend(a[1..], r);
      Assoc(if ExpectsReply(a[0]) then [a[0]] else [], Asks(a[1..]), if ExpectsReply(r) then [r] else []);
    }
  }

  function Requests(log: seq<Exchange>): (rs: seq<Request>)
    ensures |rs| == |log|
  {
    seq(|log|, i requires 0 <= i < |log| => log[i].request)
  }

  ghost predicate Truthful(x: Exchange) {
    StoreFits(x.store) && ExpectsReply(x.request) && x.reply == Deserved(x.store, x.request)
  }

  // ---- Where the replies on the wire come from ----

  datatype Origin = Own(i: nat) | Stray

  /** No stray is dated later than n answers, and they are in order. */
  ghost predicate Dated(strays: seq<nat>, n: nat) {
    && (forall j :: 0 <= j < |strays| ==> strays[j] <= n)
    && forall j, k :: 0 <= j < k < |strays| ==> strays[j] <= strays[k]
  }

  /** The answers to n requests in order, with the strays between them: each one after as many answers
      as it is dated. */
  function Origins(n: nat, strays: seq<nat>): (os: seq<Origin>)
    ensures |os| == n + |strays|
    ensures forall p :: 0 <= p < |os| && os[p].Own? ==> os[p].i < n
    decreases n + |strays|
  {
    if strays != [] && strays[|strays| - 1] >= n then Origins(n, strays[..|strays| - 1]) + [Stray]
    else if n > 0 then Origins(n - 1, strays) + [Own(n - 1)]
    else []
  }

  /** How many strays come before the answer to request i. */
  function Before(strays: seq<nat>, i: nat): (d: nat)
    ensures d <= |strays|
  {
    if strays == [] then 0
    else Before(strays[..|strays| - 1], i) + if strays[|strays| - 1] <= i then 1 else 0
  }

  lemma {:induction false} AllBefore(strays: seq<nat>, i: nat)
    requires Dated(strays, i)
    ensures Before(strays, i) == |strays|
  {
    if strays != [] {
      AllBefore(strays[..|strays| - 1], i);
    }
  }

  lemma {:induction false} NoneBefore(strays: seq<nat>, n: nat, i: nat)
    requires Dated(strays, n)
    ensures Before(strays, i) == 0 <==> strays == [] || i < strays[0]
  {
    if strays != [] {
      var init := strays[..|strays| - 1];
      NoneBefore(init, n, i);
      assert init != [] ==> init[0] == strays[0];
    }
  }

  /** The answer to request i stands behind i answers and the strays before it. */
  lemma {:induction false} OwnStandsAt(n: nat, strays: seq<nat>, i: nat)
    requires Dated(strays, n) && i < n
    ensures i + Before(strays, i) < n + |strays|
    ensures Origins(n, strays)[i + Before(strays, i)] == Own(i)
    decreases n + |strays|
  {
    if strays != [] && strays[|strays| - 1] >= n {
      OwnStandsAt(n, strays[..|strays| - 1], i);
    } else if i == n - 1 {
      assert strays != [] ==> strays[|strays| - 1] <= i;
      AllBefore(strays, i);
    } else {
      OwnStandsAt(n - 1, strays, i);
    }
  }

  /** And nowhere else. */
  lemma {:induction false} OwnStandsOnlyAt(n: nat, strays: seq<nat>, p: nat)
    requires Dated(strays, n) && p < n + |strays| && Origins(n, strays)[p].Own?
    ensures p == Origins(n, strays)[p].i + Before(strays, Origins(n, strays)[p].i)
    decreases n + |strays|
  {
    if strays != [] && strays[|strays| - 1] >= n {
      OwnStandsOnlyAt(n, strays[..|strays| - 1], p);
    } else if p == n + |strays| - 1 {
      assert strays != [] ==> strays[|strays| - 1] <= n - 1;
      AllBefore(strays, n - 1);
    } else {
      OwnStandsOnlyAt(n - 1, strays, p);
    }
  }

  /** What a reply of that origin says. */
  function Said(log: seq<Exchange>, o: Origin): Reply
    requires o.Own? ==> o.i < |log|
  {
    match o
    case Own(i) => log[i].reply
    case Stray => NoSuchSafe()
  }

  /** Everything that was ever sent to the client: the answers in order, and an error inserted for each
      miss at the point where it happened. */
  function Stream(log: seq<Exchange>, strays: seq<nat>): (rs: seq<Reply>)
    ensures |rs| == |log| + |strays|
  {
    var os := Origins(|log|, strays);
    seq(|os|, p requires 0 <= p < |os| => Said(log, os[p]))
  }

  lemma {:induction false} StreamAnswered(log: seq<Exchange>, strays: seq<nat>, x: Exchange)
    requires Dated(strays, |log|)
    ensures Stream(log + [x], strays) == Stream(log, strays) + [x.reply]
    ensures Dated(strays, |log| + 1)
  {
    assert Origins(|log| + 1, strays) == Origins(|log|, strays) + [Own(|log|)];
  }

  lemma {:induction false} StreamMissed(log: seq<Exchange>, strays: seq<nat>)
    requires Dated(strays, |log|)
    ensures Stream(log, strays + [|log|]) == Stream(log, strays) + [NoSuchSafe()]
    ensures Dated(strays + [|log|], |log|)
  {
    assert (strays + [|log|])[..|strays|] == strays;
    assert Origins(|log|, strays + [|log|]) == Origins(|log|, strays) + [Stray];
  }

  // ---- The invariant ----

  /** Replies are taken for the questions in order, until a question is given up on; from then on each one
      is taken for a later question than its own place in the line. */
  ghost predicate Taken(takenFor: seq<nat>, gaveUp: seq<nat>) {
    && (gaveUp != [] ==> gaveUp[0] <= |takenFor|)
    && forall k :: 0 <= k < |takenFor| ==>
         if gaveUp == [] || k < gaveUp[0] then takenFor[k] == k else takenFor[k] > k
  }

  ghost predicate Inv(s: Session) {
    && StoreFits(s.agent.store)
    && (forall i :: 0 <= i < |s.toAgent| ==> s.toAgent[i].Valid() && !s.toAgent[i].Malformed?)
    && (forall i :: 0 <= i < |s.log| ==> Truthful(s.log[i]))
    && |s.takenFor| == |s.received| && Taken(s.takenFor, s.gaveUp)
    && |s.received| + |s.gaveUp| + (if s.waiting then 1 else 0) == |s.asked|
    && s.asked == Requests(s.log) + Asks(s.toAgent)
    && Dated(s.strays, |s.log|)
    && s.received + s.toClient == Stream(s.log, s.strays)
  }

  lemma {:induction false} SendKeeps(s: Session, r: Request, s': Session)
    requires Inv(s) && Step(s, Send(r), s')
    ensures Inv(s')
  {
    AsksAppend(s.toAgent, r);
    Assoc(Requests(s.log), Asks(s.toAgent), [r]);
  }

  lemma {:induction false} SendFailsKeeps(s: Session, r: Request, s': Session)
    requires Inv(s) && Step(s, SendFails(r), s')
    ensures Inv(s')
  {
    AsksAppend(s.toAgent, r);
    Assoc(Requests(s.log), Asks(s.toAgent), [r]);
    hide Asks, Stream, Dated, Truthful, StoreFits;
    assert s.gaveUp != [] ==> s'.gaveUp[0] == s.gaveUp[0];
  }

  lemma {:induction false} GiveUpKeeps(s: Session, s': Session)
    requires Inv(s) && Step(s, GiveUp, s')
    ensures Inv(s')
  {
    hide Asks, Stream, Dated, Truthful, StoreFits;
    assert s.gaveUp != [] ==> s'.gaveUp[0] == s.gaveUp[0];
  }

  /** A question handled: its answer is the next one to be sent. */
  lemma {:induction false} AnswerKeeps(s: Session, s': Session)
    requires Inv(s) && Step(s, HandleNext, s') && ExpectsReply(s.toAgent[0])
    ensures Inv(s')
  {
    var r := s.toAgent[0];
    var x := Exchange(r, s.agent.store, Deserved(s.agent.store, r));
    RequestKeepsFits(s.agent, s.now, s.own, r);
    Snoc(s.log, x);
    StreamAnswered(s.log, s.strays, x);
    hide Found, Discarded, NoSuchSafe, Fits, ContentsFit, StoreFits, Stream, Dated, Taken;
    Assoc(Requests(s.log), [r], Asks(s'.toAgent));
    Assoc(s.received, s.toClient, [x.reply]);
  }

  lemma {:induction false} HandleKeeps(s: Session, s': Session)
    requires Inv(s) && Step(s, HandleNext, s')
    ensures Inv(s')
  {
    var r := s.toAgent[0];
    assert r.Valid() && !r.Malformed?;
    if ExpectsReply(r) {
      AnswerKeeps(s, s');
    } else {
      RequestKeepsFits(s.agent, s.now, s.own, r);
      hide Fits, ContentsFit, StoreFits, Stream, Dated, Taken;
      assert s'.toClient == s.toClient;
    }
  }

  lemma {:induction false} Snoc(log: seq<Exchange>, x: Exchange)
    ensures Requests(log + [x]) == Requests(log) + [x.request]
  {
  }

  lemma {:induction false} ReceiveKeeps(s: Session, s': Session)
    requires Inv(s) && Step(s, Receive, s')
    ensures Inv(s')
  {
    Assoc(s.received, [s.toClient[0]], s.toClient[1..]);
    assert s.toClient == [s.toClient[0]] + s.toClient[1..];
  }

  lemma {:induction false} FireOwnKeeps(s: Session, i: nat, s': Session)
    requires Inv(s) && Step(s, FireOwn(i), s')
    ensures Inv(s')
  {
    if OnFire(s.agent, i).replies == [] {
      assert s'.toClient == s.toClient;
    } else {
      StreamMissed(s.log, s.strays);
      Assoc(s.received, s.toClient, [NoSuchSafe()]);
    }
  }

  lemma {:induction false} StepKeeps(s: Session, s': Session)
    requires Inv(s) && Related(s, s')
    ensures Inv(s')
  {
    var e :| Step(s, e, s');
    match e
    case Send(r) => SendKeeps(s, r, s');
    case SendFails(r) => SendFailsKeeps(s, r, s');
    case HandleNext => HandleKeeps(s, s');
    case GiveUp => GiveUpKeeps(s, s');
    case Receive => ReceiveKeeps(s, s');
    case FireOwn(i) => FireOwnKeeps(s, i, s');
    case FireOther(i) =>
    case Other(conn, r) => RequestKeepsFits(s.agent, s.now, conn, r);
    case Tick(d) =>
  }

  lemma {:induction false} RunKeeps(trace: seq<Session>)
    requires Run(trace)
    ensures Inv(trace[|trace| - 1])
  {
    if |trace| > 1 {
      var before := trace[..|trace| - 1];
      forall i | 0 <= i < |before| - 1 ensures Related(before[i], before[i + 1]) {
        assert Related(trace[i], trace[i + 1]);
      }
      RunKeeps(before);
      assert Related(trace[|trace| - 2], trace[|trace| - 2 + 1]);
      StepKeeps(trace[|trace| - 2], trace[|trace| - 1]);
    }
  }

  // ---- The results about whole runs ----

  lemma {:induction false} StreamAt(log: seq<Exchange>, strays: seq<nat>, i: nat)
    requires Dated(strays, |log|) && i < |log|
    ensures i + Before(strays, i) < |Stream(log, strays)|
    ensures Stream(log, strays)[i + Before(strays, i)] == log[i].reply
  {
    OwnStandsAt(|log|, strays, i);
  }

  lemma {:induction false} OwnReceived(s: Session, i: nat)
    requires Inv(s) && i < |s.log| && i + Before(s.strays, i) < |s.received|
    ensures |s.log| <= |s.asked| && s.log[i].request == s.asked[i] && Truthful(s.log[i])
    ensures s.received[i + Before(s.strays, i)] == s.log[i].reply
  {
    hide Before, Origins, Dated, StoreFits, Stream, Asks, Truthful, Taken;
    StreamAt(s.log, s.strays, i);
    assert s.asked[i] == Requests(s.log)[i];
    var p := i + Before(s.strays, i);
    assert s.received[p] == (s.received + s.toClient)[p];
  }

  /** Everything sent to the client, in every run: the answers to its requests in order, with one error
      inserted at the point of each miss. So the answer to request i is the one received after i others
      and after as many errors nobody asked for as had been sent by then. */
  lemma {:induction false} Shifted(trace: seq<Session>, i: nat)
    requires Run(trace)
    requires var s := trace[|trace| - 1]; i < |s.log| && i + Before(s.strays, i) < |s.received|
    ensures var s := trace[|trace| - 1];
            && s.received + s.toClient == Stream(s.log, s.strays)
            && |s.log| <= |s.asked| && s.log[i].request == s.asked[i] && Truthful(s.log[i])
            && s.received[i + Before(s.strays, i)] == s.log[i].reply
  {
    RunKeeps(trace);
    hide Run, Before, Stream, Truthful, Requests;
    OwnReceived(trace[|trace| - 1], i);
  }

  /** Pairing: the k-th reply the client receives is the answer to the question it takes it for if and only
      if, before, no timer of this connection had fired for an absent name and no question had been given
      up on; and then it is what that question, the k-th, deserved on the store that it met. */
  lemma {:induction false} Pairing(trace: seq<Session>, k: nat)
    requires Run(trace) && k < |trace[|trace| - 1].received|
    ensures var s := trace[|trace| - 1];
            var os := Origins(|s.log|, s.strays);
            && k < |os| && k < |s.takenFor| && s.received[k] == Said(s.log, os[k])
            && (os[k] == Own(s.takenFor[k])
                <==> (s.strays == [] || k < s.strays[0]) && (s.gaveUp == [] || k < s.gaveUp[0]))
            && (os[k] == Own(s.takenFor[k]) ==>
                  s.takenFor[k] == k && |s.log| <= |s.asked| && Truthful(s.log[k]) && s.log[k].request == s.asked[k])
  {
    RunKeeps(trace);
    hide Run;
    PairingAt(trace[|trace| - 1], k);
  }

  lemma {:induction false} PairingAt(s: Session, k: nat)
    requires Inv(s) && k < |s.received|
    ensures var os := Origins(|s.log|, s.strays);
            && k < |os| && k < |s.takenFor| && s.received[k] == Said(s.log, os[k])
            && (os[k] == Own(s.takenFor[k])
                <==> (s.strays == [] || k < s.strays[0]) && (s.gaveUp == [] || k < s.gaveUp[0]))
            && (os[k] == Own(s.takenFor[k]) ==>
                  s.takenFor[k] == k && |s.log| <= |s.asked| && Truthful(s.log[k]) && s.log[k].request == s.asked[k])
  {
    var os := Origins(|s.log|, s.strays);
    assert s.received[k] == (s.received + s.toClient)[k] == Stream(s.log, s.strays)[k];
    NoneBefore(s.strays, |s.log|, k);
    if os[k] == Own(s.takenFor[k]) {
      OwnStandsOnlyAt(|s.log|, s.strays, k);
      hide Before, Origins, Stream, Asks, Truthful;
      assert s.takenFor[k] == k;
      assert s.asked[k] == Requests(s.log)[k];
    } else if k < |s.log| {
      OwnStandsAt(|s.log|, s.strays, k);
    }
  }

  /** The first reply that is not the request's own is an error: what the request deserved after all if
      and only if it met a store without its name. */
  lemma {:induction false} FirstWrong(trace: seq<Session>)
    requires Run(trace)
    requires var s := trace[|trace| - 1]; s.strays != [] && s.strays[0] < |s.received| && s.strays[0] < |s.log|
    ensures var s := trace[|trace| - 1];
            var k := s.strays[0];
            && s.received[k] == NoSuchSafe() && ExpectsReply(s.log[k].request)
            && (s.received[k] == s.log[k].reply <==> s.log[k].request.name !in s.log[k].store)
  {
    RunKeeps(trace);
    var s := trace[|trace| - 1];
    FirstStray(|s.log|, s.strays);
    assert s.received[s.strays[0]] == (s.received + s.toClient)[s.strays[0]] == Stream(s.log, s.strays)[s.strays[0]];
    assert Truthful(s.log[s.strays[0]]);
  }

  lemma {:induction false} FirstStray(n: nat, strays: seq<nat>)
    requires Dated(strays, n) && strays != []
    ensures Origins(n, strays)[strays[0]] == Stray
    decreases n + |strays|
  {
    if strays[|strays| - 1] < n {
      FirstStray(n - 1, strays);
    } else if |strays| > 1 {
      FirstStray(n, strays[..|strays| - 1]);
    }
  }

  /** Between operations nothing is in flight, neither a stale reply nor an unhandled question, if and
      only if no timer of this connection has fired for an absent name and no question was given up on;
      in general, what is in flight counts exactly those. */
  lemma {:induction false} QuietBetweenOperations(trace: seq<Session>)
    requires Run(trace) && !trace[|trace| - 1].waiting
    ensures var s := trace[|trace| - 1];
            && |s.toClient| + |Asks(s.toAgent)| == |s.strays| + |s.gaveUp|
            && (s.toClient == [] && Asks(s.toAgent) == [] <==> s.strays == [] && s.gaveUp == [])
  {
    RunKeeps(trace);
  }

  // ---- Paths ----

  ghost predicate Leads(s: Session, s': Session) {
    exists trace :: Path(trace, s, s')
  }

  ghost predicate Path(trace: seq<Session>, s: Session, s': Session) {
    && trace != [] && trace[0] == s && trace[|trace| - 1] == s'
    && forall i :: 0 <= i < |trace| - 1 ==> Related(trace[i], trace[i + 1])
  }

  lemma {:induction false} OneStep(s: Session, e: Event, s': Session)
    requires StoreFits(s.agent.store) && Step(s, e, s')
    ensures Leads(s, s')
  {
    assert Related(s, s');
    assert Path([s, s'], s, s');
  }

  lemma {:induction false} LeadsOn(s: Session, m: Session, s': Session)
    requires Leads(s, m) && Leads(m, s')
    ensures Leads(s, s')
  {
    var a :| Path(a, s, m);
    var b :| Path(b, m, s');
    var trace := a + b[1..];
    forall i | 0 <= i < |trace| - 1 ensures Related(trace[i], trace[i + 1]) {
      if i < |a| - 1 {
        assert Related(a[i], a[i + 1]);
      } else {
        var j := i - (|a| - 1);
        assert trace[i] == b[j];
        assert Related(b[j], b[j + 1]);
      }
    }
    assert Path(trace, s, s');
  }

  lemma {:induction false} ARun(s: Session, s': Session) returns (trace: seq<Session>)
    requires Init(s) && Leads(s, s')
    ensures Run(trace) && trace[|trace| - 1] == s'
  {
    trace :| Path(trace, s, s');
  }

  // ---- One exchange ----

  /** A question and the reading of an answer: the first reply on the wire, whichever request it is for. */
  function Exchanged(s: Session, r: Request): Session
    requires StoreFits(s.agent.store) && ExpectsReply(r)
  {
    var reply := Deserved(s.agent.store, r);
    var stream := s.toClient + [reply];
    s.(agent := OnRequest(s.agent, s.now, s.own, r).state, toClient := stream[1..], asked := s.asked + [r],
       log := s.log + [Exchange(r, s.agent.store, reply)], received := s.received + [stream[0]],
       takenFor := s.takenFor + [|s.asked|])
  }

  lemma {:induction false} ExchangeLeads(s: Session, r: Request)
    requires StoreFits(s.agent.store) && ExpectsReply(r) && r.Valid() && s.toAgent == [] && !s.waiting
    ensures Leads(s, Exchanged(s, r))
  {
    hide Found, Discarded, NoSuchSafe, Fits, ContentsFit;
    var asking := s.(toAgent := [r], waiting := true, asked := s.asked + [r]);
    var answered := Exchanged(s, r).(toClient := s.toClient + [Deserved(s.agent.store, r)], received := s.received,
                                    takenFor := s.takenFor, waiting := true);
    RequestKeepsFits(s.agent, s.now, s.own, r);
    OneStep(s, Send(r), asking);
    OneStep(asking, HandleNext, answered);
    OneStep(answered, Receive, Exchanged(s, r));
    LeadsOn(s, asking, answered);
    LeadsOn(s, answered, Exchanged(s, r));
  }

  /** A store without a timeout, sent and handled. */
  function Kept(s: Session, u: Unsafe): Session {
    s.(agent := s.agent.(store := s.agent.store[CStr(u.name) := u.Value()]))
  }

  lemma {:induction false} StoreLeads(s: Session, u: Unsafe)
    requires StoreFits(s.agent.store) && u.Sized() && u.AllTerminated() && u.timeout <= 0
    requires s.toAgent == [] && !s.waiting
    ensures Leads(s, Kept(s, u))
  {
    var m := s.(toAgent := [StoreReq(u)]);
    assert s.toClient + [] == s.toClient;
    OneStep(s, Send(StoreReq(u)), m);
    OneStep(m, HandleNext, Kept(s, u));
    LeadsOn(s, m, Kept(s, u));
  }

  // ---- What a miss does ----

  /** The timer that a timed store at time 0 arms on this connection. */
  function TimerOf(own: nat, u: Unsafe): Timer {
    Timer(CStr(u.name), u.timeout, own)
  }

  function Start(own: nat): Session {
    Session(own, State(map[], []), 0, [], [], false, [], [], [], [], [], [])
  }

  function AfterStore(own: nat, u: Unsafe): Session {
    Start(own).(agent := State(map[CStr(u.name) := u.Value()], [TimerOf(own, u)]))
  }

  function AfterDiscard(own: nat, u: Unsafe): Session {
    var q := DiscardReq(CStr(u.name));
    AfterStore(own, u).(agent := State(map[], [TimerOf(own, u)]), asked := [q],
                        log := [Exchange(q, map[CStr(u.name) := u.Value()], Discarded())], received := [Discarded()], takenFor := [0])
  }

  function AfterMiss(own: nat, u: Unsafe): Session {
    AfterDiscard(own, u).(agent := State(map[], []), now := u.timeout, toClient := [NoSuchSafe()], strays := [1])
  }

  /** A timed store on a quiet connection, up to its handling. */
  lemma {:induction false} StoreQuietly(own: nat, u: Unsafe)
    requires u.Sized() && u.AllTerminated() && u.timeout > 0
    ensures Leads(Start(own), AfterStore(own, u))
  {
    var m := Start(own).(toAgent := [StoreReq(u)]);
    OneStep(Start(own), Send(StoreReq(u)), m);
    OneStep(m, HandleNext, AfterStore(own, u));
    LeadsOn(Start(own), m, AfterStore(own, u));
  }

  /** A discard of the only entry, up to its answer. */
  lemma {:induction false} DiscardQuietly(own: nat, u: Unsafe)
    requires u.Sized() && u.AllTerminated()
    ensures Leads(AfterStore(own, u), AfterDiscard(own, u))
  {
    ValueFits(u);
    var q, s := DiscardReq(CStr(u.name)), AfterStore(own, u);
    assert s.agent.store - {q.name} == map[];
    hide CStr, StrLen, Fits, ContentsFit;
    ExchangeLeads(s, q);
    assert Exchanged(s, q) == AfterDiscard(own, u);
  }

  /** The timer of an absent entry fires on a quiet connection. */
  lemma {:induction false} FireQuietly(own: nat, u: Unsafe)
    requires u.timeout > 0
    ensures Leads(AfterDiscard(own, u), AfterMiss(own, u))
  {
    var s := AfterDiscard(own, u);
    var m := s.(now := u.timeout);
    assert s.agent.store - {TimerOf(own, u).name} == s.agent.store;
    assert [TimerOf(own, u)][..0] + [TimerOf(own, u)][1..] == [];
    OneStep(s, Tick(u.timeout), m);
    OneStep(m, FireOwn(0), AfterMiss(own, u));
    LeadsOn(s, m, AfterMiss(own, u));
  }

  /** A miss is reachable: a timed store, a discard, and then the timer. */
  lemma {:induction false} MissQuietly(own: nat, u: Unsafe)
    requires u.Sized() && u.AllTerminated() && u.timeout > 0
    ensures Leads(Start(own), AfterMiss(own, u))
  {
    StoreQuietly(own, u);
    DiscardQuietly(own, u);
    FireQuietly(own, u);
    LeadsOn(Start(own), AfterStore(own, u), AfterDiscard(own, u));
    LeadsOn(Start(own), AfterDiscard(own, u), AfterMiss(own, u));
  }

  /** And it misleads the client: after the miss a safe is stored, to stay, and then searched for. The
      agent holds it and answers with it, yet the client is told that there is no such safe, and the
      true answer waits for the next question. */
  lemma {:induction false} MissMisleads(own: nat, u: Unsafe, v: Unsafe) returns (trace: seq<Session>)
    requires u.Sized() && u.AllTerminated() && u.timeout > 0
    requires v.Sized() && v.AllTerminated() && v.timeout <= 0
    ensures Run(trace)
    ensures Fits(CStr(v.name), PATH_MAX) && ContentsFit(v.Value())
    ensures var s := trace[|trace| - 1];
            var name := CStr(v.name);
            && s.agent == State(map[name := v.Value()], []) && !s.waiting && s.toAgent == []
            && s.asked == [DiscardReq(CStr(u.name)), SearchReq(name)]
            && s.received == [Discarded(), NoSuchSafe()]
            && s.toClient == [Found(name, v.Value())]
  {
    ValueFits(v);
    MissQuietly(own, u);
    var s := AfterMiss(own, u);
    hide CStr, StrLen, Fits, ContentsFit, Terminated;
    StoreLeads(s, v);
    var q := SearchReq(CStr(v.name));
    ExchangeLeads(Kept(s, v), q);
    LeadsOn(Start(own), s, Kept(s, v));
    LeadsOn(Start(own), Kept(s, v), Exchanged(Kept(s, v), q));
    trace := ARun(Start(own), Exchanged(Kept(s, v), q));
  }
}
