/** The agent as a function of the messages it is given: what each one does to the store and the
    timers, and what is sent back (src/command/agent.c, lib/kpagent.c). */
module Protocol {
  import opened Bytes
  import opened Errors
  import opened Frames
  import opened Store

  // enum kp_agent_msg_type
  const MSG_STORE: nat := 0
  const MSG_SEARCH: nat := 1
  const MSG_DISCARD: nat := 2
  const MSG_ERROR: nat := 3

  /** sizeof(struct kp_unsafe). */
  const UNSAFE_SIZE: nat := 12296

  // ---- Layout of struct kp_unsafe ----

  function ToU64(t: int): U64
    requires -0x8000_0000_0000_0000 <= t < 0x8000_0000_0000_0000
  {
    if t < 0 then t + 0x1_0000_0000_0000_0000 else t
  }

  function FromU64(v: U64): int {
    if v >= 0x8000_0000_0000_0000 then v - 0x1_0000_0000_0000_0000 else v
  }

  function EncodeUnsafe(u: Unsafe): (s: seq<Byte>)
    requires u.Sized() && -0x8000_0000_0000_0000 <= u.timeout < 0x8000_0000_0000_0000
    ensures |s| == UNSAFE_SIZE
  {
    Le(ToU64(u.timeout), 8) + u.name + u.password + u.metadata
  }

  function DecodeUnsafe(s: seq<Byte>): (u: Unsafe)
    requires |s| == UNSAFE_SIZE
    ensures u.Sized() && -0x8000_0000_0000_0000 <= u.timeout < 0x8000_0000_0000_0000
  {
    LeEncodes(s[..8]);
    Widths();
    Unsafe(FromU64(FromLe(s[..8])), s[8..4104], s[4104..8200], s[8200..])
  }

  lemma {:induction false} UnsafeDecodes(u: Unsafe)
    requires u.Sized() && -0x8000_0000_0000_0000 <= u.timeout < 0x8000_0000_0000_0000
    ensures DecodeUnsafe(EncodeUnsafe(u)) == u
  {
    var s := EncodeUnsafe(u);
    Widths();
    LeDecodes(ToU64(u.timeout), 8);
    assert s[..8] == Le(ToU64(u.timeout), 8);
    assert s[8..4104] == u.name;
    assert s[4104..8200] == u.password;
    assert s[8200..] == u.metadata;
  }

  /** Where each field lies: the timeout as a signed little-endian number, then the three strings. */
  lemma {:induction false} UnsafePlaces(u: Unsafe)
    requires u.Sized() && -0x8000_0000_0000_0000 <= u.timeout < 0x8000_0000_0000_0000
    ensures var s := EncodeUnsafe(u);
            && |s| == 12296 && s[8..4104] == u.name && s[4104..8200] == u.password && s[8200..] == u.metadata
            && u.timeout == Le64At(s, 0) - (if u.timeout < 0 then 0x1_0000_0000_0000_0000 else 0)
  {
    Widths();
    LittleEndian(ToU64(u.timeout), 8);
    hide Le, Pow256;
  }

  /** A structure filled by strlcpy from three strings that fit, on top of KP_UNSAFE_INIT's zeros. */
  function Fill(timeout: int, name: Name, c: Contents): (u: Unsafe)
    requires Fits(name, PATH_MAX) && ContentsFit(c)
    ensures u.Sized()
  {
    Unsafe(timeout, Padded(name, PATH_MAX), Padded(c.password, PASSWORD_MAX), Padded(c.metadata, METADATA_MAX))
  }

  lemma {:induction false} FillReads(timeout: int, name: Name, c: Contents)
    requires Fits(name, PATH_MAX) && ContentsFit(c)
    ensures var u := Fill(timeout, name, c);
            u.AllTerminated() && CStr(u.name) == name && u.Value() == c
  {
    CStrOfPadded(name, PATH_MAX);
    CStrOfPadded(c.password, PASSWORD_MAX);
    CStrOfPadded(c.metadata, METADATA_MAX);
  }

  lemma {:induction false} ValueFits(u: Unsafe)
    requires u.Sized() && u.AllTerminated()
    ensures Fits(CStr(u.name), PATH_MAX) && ContentsFit(u.Value())
  {
  }

  // ---- Requests and replies ----

  datatype Request = StoreReq(u: Unsafe) | SearchReq(name: Name) | DiscardReq(name: Name) | Malformed {
    predicate Valid() {
      match this
      case StoreReq(u) => u.Sized()
      case SearchReq(name) => Fits(name, PATH_MAX)
      case DiscardReq(name) => Fits(name, PATH_MAX)
      case Malformed => true
    }
  }

  /** The switch of dispatch: a known type with the right size, or nothing. The last byte of a name
      is forced to NUL. */
  function Decode(m: Message): (r: Request)
    ensures r.Valid()
  {
    if m.hdr.typ == MSG_STORE && |m.data| == UNSAFE_SIZE then StoreReq(DecodeUnsafe(m.data))
    else if m.hdr.typ == MSG_SEARCH && |m.data| == PATH_MAX then SearchReq(CStr(m.data[..PATH_MAX - 1]))
    else if m.hdr.typ == MSG_DISCARD && |m.data| == PATH_MAX then DiscardReq(CStr(m.data[..PATH_MAX - 1]))
    else Malformed
  }

  datatype Reply = Reply(typ: U32, data: seq<Byte>) {
    predicate Sendable() {
      |data| <= MAX_IMSGSIZE - HEADER_SIZE
    }

    /** The message that kp_agent_send makes of it. */
    function ToMessage(pid: U32): (m: Message)
      requires Sendable()
      ensures m.WellFormed()
    {
      Message(Header(typ, HEADER_SIZE + |data|, 0, 1, pid), data)
    }
  }

  predicate AllSendable(replies: seq<Reply>) {
    forall i :: 0 <= i < |replies| ==> replies[i].Sendable()
  }

  function Found(name: Name, c: Contents): (r: Reply)
    requires Fits(name, PATH_MAX) && ContentsFit(c)
    ensures r.Sendable()
  {
    Reply(MSG_SEARCH, EncodeUnsafe(Fill(-1, name, c)))
  }

  function Discarded(): (r: Reply)
    ensures r.Sendable()
  {
    Reply(MSG_DISCARD, [1])
  }

  /** kp_agent_error(KP_ERRNO) while errno is ENOENT: struct kp_msg_error. */
  function NoSuchSafe(): (r: Reply)
    ensures r.Sendable()
  {
    Reply(MSG_ERROR, Le(KP_ERRNO, 4) + Le(ENOENT, 4))
  }

  /** The three replies, byte by byte: a structure with timeout -1, a single true, and the numbers of
      KP_ERRNO and ENOENT. */
  lemma {:induction false} ReplyBytes(name: Name, c: Contents)
    requires Fits(name, PATH_MAX) && ContentsFit(c)
    ensures Discarded() == Reply(2, [1]) && NoSuchSafe() == Reply(3, [5, 0, 0, 0, 2, 0, 0, 0])
    ensures var r := Found(name, c);
            && r.typ == 1 && |r.data| == 12296 && Le64At(r.data, 0) == 0xFFFF_FFFF_FFFF_FFFF
            && CStr(r.data[8..4104]) == name && CStr(r.data[4104..8200]) == c.password && CStr(r.data[8200..]) == c.metadata
  {
    FillReads(-1, name, c);
    UnsafePlaces(Fill(-1, name, c));
    ErrorBytes();
  }

  lemma {:induction false} ErrorBytes()
    ensures Le(KP_ERRNO, 4) == [5, 0, 0, 0] && Le(ENOENT, 4) == [2, 0, 0, 0]
  {
    assert Le(0, 2) == [0, 0];
    assert Le(0, 3) == [0] + Le(0, 2);
  }

  // ---- The agent's state ----

  datatype Timer = Timer(name: Name, deadline: int, conn: nat)

  /** The store as a map, and the pending timers in the order they were armed. */
  datatype State = State(store: map<Name, Contents>, timers: seq<Timer>)

  /** What one step does: the new state, and what is sent on the connection concerned. */
  datatype Effect = Effect(state: State, replies: seq<Reply>)

  /** `store`: arm a timer when a positive timeout is given, then store. The name is copied first, so
      an unterminated name stops a timed store before anything happens; an unterminated password or
      metadata stops it after the timer is armed. */
  function OnStore(s: State, now: int, conn: nat, u: Unsafe): State {
    if u.timeout > 0 && !Terminated(u.name) then s
    else
      var timers := if u.timeout > 0 then s.timers + [Timer(CStr(u.name), now + u.timeout, conn)] else s.timers;
      State(if u.AllTerminated() then s.store[CStr(u.name) := u.Value()] else s.store, timers)
  }

  /** `kp_agent_search` and `kp_agent_discard` (not silent). */
  function OnRequest(s: State, now: int, conn: nat, r: Request): Effect
    requires StoreFits(s.store)
  {
    match r
    case StoreReq(u) => Effect(OnStore(s, now, conn, u), [])
    case SearchReq(name) =>
      Effect(s, [if name in s.store then Found(name, s.store[name]) else NoSuchSafe()])
    case DiscardReq(name) =>
      Effect(s.(store := s.store - {name}), [if name in s.store then Discarded() else NoSuchSafe()])
    case Malformed => Effect(s, [])
  }

  lemma {:induction false} RequestKeepsFits(s: State, now: int, conn: nat, r: Request)
    requires StoreFits(s.store) && r.Valid()
    ensures StoreFits(OnRequest(s, now, conn, r).state.store)
    ensures AllSendable(OnRequest(s, now, conn, r).replies)
  {
  }

  /** `timeout_discard`: the timer is gone, and so is the entry; when there was none, the silent discard
      still sends an error. */
  function OnFire(s: State, i: nat): Effect
    requires i < |s.timers|
  {
    var name := s.timers[i].name;
    Effect(State(s.store - {name}, s.timers[..i] + s.timers[i + 1..]),
           if name in s.store then [] else [NoSuchSafe()])
  }

  /** A run of the handler over a list of messages. */
  function OnMessages(s: State, now: int, conn: nat, ms: seq<Message>): (e: Effect)
    requires StoreFits(s.store)
    ensures StoreFits(e.state.store) && AllSendable(e.replies)
    decreases |ms|
  {
    if ms == [] then Effect(s, [])
    else
      RequestKeepsFits(s, now, conn, Decode(ms[0]));
      var first := OnRequest(s, now, conn, Decode(ms[0]));
      var rest := OnMessages(first.state, now, conn, ms[1..]);
      Effect(rest.state, first.replies + rest.replies)
  }

  lemma {:induction false} OnMessagesAppend(s: State, now: int, conn: nat, a: seq<Message>, b: seq<Message>)
    requires StoreFits(s.store)
    ensures var first := OnMessages(s, now, conn, a);
            var second := OnMessages(first.state, now, conn, b);
            OnMessages(s, now, conn, a + b) == Effect(second.state, first.replies + second.replies)
    decreases |a|
  {
    if a == [] {
      assert a + b == b;
    } else {
      HeadTail(a, b);
      RequestKeepsFits(s, now, conn, Decode(a[0]));
      var e := OnRequest(s, now, conn, Decode(a[0]));
      OnMessagesAppend(e.state, now, conn, a[1..], b);
      var first := OnMessages(e.state, now, conn, a[1..]);
      Assoc(e.replies, first.replies, OnMessages(first.state, now, conn, b).replies);
    }
  }

  // ---- The store over any sequence of requests ----

  function Lookup(store: map<Name, Contents>, name: Name): Option<Contents> {
    if name in store then Some(store[name]) else None
  }

  /** What the requests about one name leave there: the contents of the last successful store, or nothing
      after a discard. Requests about other names do not matter. */
  function LastWord(ms: seq<Message>, name: Name, before: Option<Contents>): Option<Contents>
    decreases |ms|
  {
    if ms == [] then before
    else
      LastWord(ms[1..], name,
               match Decode(ms[0])
               case StoreReq(u) => if u.AllTerminated() && CStr(u.name) == name then Some(u.Value()) else before
               case DiscardReq(n) => if n == name then None else before
               case _ => before)
  }

  lemma {:induction false} StoreIsLastWord(s: State, now: int, conn: nat, ms: seq<Message>, name: Name)
    requires StoreFits(s.store)
    ensures Lookup(OnMessages(s, now, conn, ms).state.store, name) == LastWord(ms, name, Lookup(s.store, name))
    decreases |ms|
  {
    if ms != [] {
      RequestKeepsFits(s, now, conn, Decode(ms[0]));
      StoreIsLastWord(OnRequest(s, now, conn, Decode(ms[0])).state, now, conn, ms[1..], name);
    }
  }

  /** After any sequence of requests, a search is answered with the last stored contents of that name, or
      with an error if they were discarded or never stored. */
  lemma {:induction false} SearchFindsLastWord(s: State, now: int, conn: nat, ms: seq<Message>, search: Message)
    requires StoreFits(s.store) && Decode(search).SearchReq?
    ensures var name := Decode(search).name;
            var before := OnMessages(s, now, conn, ms);
            var after := OnMessages(s, now, conn, ms + [search]);
            && after.state == before.state
            && match LastWord(ms, name, Lookup(s.store, name))
               case Some(c) => ContentsFit(c) && after.replies == before.replies + [Found(name, c)]
               case None => after.replies == before.replies + [NoSuchSafe()]
  {
    StoreIsLastWord(s, now, conn, ms, Decode(search).name);
    OnMessagesAppend(s, now, conn, ms, [search]);
    var before := OnMessages(s, now, conn, ms);
    assert [search][1..] == [];
    assert OnRequest(before.state, now, conn, Decode(search)).replies + [] == OnRequest(before.state, now, conn, Decode(search)).replies;
  }

  // ---- Independence of how the stream is cut into reads ----

  /** What dispatch does with one read: the framer takes every complete message, each is handled, and
      the rest waits. */
  datatype Dispatched = Dispatched(effect: Effect, rest: seq<Byte>)

  function OnChunk(s: State, now: int, conn: nat, rest: seq<Byte>, chunk: seq<Byte>): Dispatched
    requires StoreFits(s.store)
  {
    var p := Parse(rest + chunk);
    Dispatched(OnMessages(s, now, conn, p.msgs), p.rest)
  }

  lemma {:induction false} ChunkJoined(s: State, now: int, conn: nat, rest: seq<Byte>, chunk: seq<Byte>)
    requires StoreFits(s.store)
    ensures OnChunk(s, now, conn, rest + chunk, []) == OnChunk(s, now, conn, rest, chunk)
    ensures AllSendable(OnChunk(s, now, conn, rest, chunk).effect.replies)
  {
    assert (rest + chunk) + [] == rest + chunk;
  }

  /** Handling the first message of a buffer and going on with what is left. */
  lemma {:induction false} OnChunkStep(s: State, now: int, conn: nat, buf: seq<Byte>)
    requires StoreFits(s.store) && Next(buf).Got?
    ensures var e := OnRequest(s, now, conn, Decode(Next(buf).msg));
            && StoreFits(e.state.store)
            && var d := OnChunk(e.state, now, conn, Next(buf).rest, []);
               OnChunk(s, now, conn, buf, []) == Dispatched(Effect(d.effect.state, e.replies + d.effect.replies), d.rest)
  {
    var m, rest := Next(buf).msg, Next(buf).rest;
    RequestKeepsFits(s, now, conn, Decode(m));
    assert buf + [] == buf && rest + [] == rest;
    assert ([m] + Parse(rest).msgs)[1..] == Parse(rest).msgs;
  }

  lemma {:induction false} OnChunkStop(s: State, now: int, conn: nat, buf: seq<Byte>)
    requires StoreFits(s.store) && !Next(buf).Got?
    ensures OnChunk(s, now, conn, buf, []) == Dispatched(Effect(s, []), buf)
  {
    assert buf + [] == buf;
  }

  function OnChunks(s: State, now: int, conn: nat, rest: seq<Byte>, chunks: seq<seq<Byte>>): Dispatched
    requires StoreFits(s.store)
    decreases |chunks|
  {
    if chunks == [] then Dispatched(Effect(s, []), rest)
    else
      var first := OnChunk(s, now, conn, rest, chunks[0]);
      var more := OnChunks(first.effect.state, now, conn, first.rest, chunks[1..]);
      Dispatched(Effect(more.effect.state, first.effect.replies + more.effect.replies), more.rest)
  }

  function Joined(chunks: seq<seq<Byte>>): seq<Byte> {
    if chunks == [] then [] else chunks[0] + Joined(chunks[1..])
  }

  /** However a client's stream is cut into reads, the agent ends in the same state, with the same
      timers, replies and unread bytes, as if it had handled the whole stream at once. */
  lemma {:induction false} ChunkIndependence(s: State, now: int, conn: nat, rest: seq<Byte>, chunks: seq<seq<Byte>>)
    requires StoreFits(s.store) && !Next(rest).Got?
    ensures OnChunks(s, now, conn, rest, chunks) == OnChunk(s, now, conn, rest, Joined(chunks))
    decreases |chunks|
  {
    if chunks == [] {
      assert rest + [] == rest;
    } else {
      var first := OnChunk(s, now, conn, rest, chunks[0]);
      ChunkIndependence(first.effect.state, now, conn, first.rest, chunks[1..]);
      ParseSplit(rest + chunks[0], Joined(chunks[1..]));
      Assoc(rest, chunks[0], Joined(chunks[1..]));
      OnMessagesAppend(s, now, conn, Parse(rest + chunks[0]).msgs,
                       Parse(first.rest + Joined(chunks[1..])).msgs);
    }
  }

  // ---- Each request, from the bytes that a client sends ----

  /** A structure sent as a store is the request to store it. */
  lemma {:induction false} StoreDecodes(u: Unsafe, pid: U32)
    requires u.Sized() && -0x8000_0000_0000_0000 <= u.timeout < 0x8000_0000_0000_0000
    ensures var m := Message(Header(0, 16 + 12296, 0, 1, pid), EncodeUnsafe(u));
            m.WellFormed() && Decode(m) == StoreReq(u)
  {
    UnsafeDecodes(u);
  }

  lemma {:induction false} OneMessage(s: State, now: int, conn: nat, m: Message, chunks: seq<seq<Byte>>)
    requires StoreFits(s.store) && m.WellFormed() && Joined(chunks) == Frame(m)
    ensures OnChunks(s, now, conn, [], chunks) == Dispatched(OnRequest(s, now, conn, Decode(m)), [])
  {
    ChunkIndependence(s, now, conn, [], chunks);
    OnFrames(s, now, conn, [m], []);
    assert [m][1..] == [] && FramesOf([m]) + [] == Frame(m) && [m] + Parse([]).msgs == [m];
    RequestKeepsFits(s, now, conn, Decode(m));
    var e := OnRequest(s, now, conn, Decode(m));
    assert e.replies + [] == e.replies;
  }

  lemma {:induction false} StoreEffect(s: State, now: int, conn: nat, u: Unsafe)
    ensures var s' := OnStore(s, now, conn, u);
            && s'.store == (if u.AllTerminated() then s.store[CStr(u.name) := u.Value()] else s.store)
            && s'.timers
               == s.timers + (if u.timeout > 0 && Terminated(u.name) then [Timer(CStr(u.name), now + u.timeout, conn)] else [])
  {
    assert s.timers + [] == s.timers;
  }

  /** The frame of a store, however it is cut into reads: its contents are in the store under its name if
      its three strings are terminated, one timer is armed if its timeout is positive and its name is
      terminated, and nothing is answered. */
  lemma {:induction false} StoreOverTheWire(s: State, now: int, conn: nat, u: Unsafe, pid: U32, chunks: seq<seq<Byte>>)
    requires StoreFits(s.store) && u.Sized() && -0x8000_0000_0000_0000 <= u.timeout < 0x8000_0000_0000_0000
    requires Joined(chunks) == Frame(Message(Header(0, 16 + 12296, 0, 1, pid), EncodeUnsafe(u)))
    ensures var d := OnChunks(s, now, conn, [], chunks);
            && d.effect.state.store == (if u.AllTerminated() then s.store[CStr(u.name) := u.Value()] else s.store)
            && d.effect.state.timers
               == s.timers + (if u.timeout > 0 && Terminated(u.name) then [Timer(CStr(u.name), now + u.timeout, conn)] else [])
            && d.effect.replies == [] && d.rest == []
  {
    var m := Message(Header(0, 16 + 12296, 0, 1, pid), EncodeUnsafe(u));
    StoreDecodes(u, pid);
    hide EncodeUnsafe, OnChunks, Frame, Decode, OnStore, StrLen, Terminated, StoreFits, Unsafe.AllTerminated;
    OneMessage(s, now, conn, m, chunks);
    StoreEffect(s, now, conn, u);
  }

  /** The frame of a search: nothing changes, and the entry is answered, or the error. The name is what
      stands before the first NUL, the last byte counting as one whatever it is. */
  lemma {:induction false} SearchOverTheWire(s: State, now: int, conn: nat, field: seq<Byte>, pid: U32, chunks: seq<seq<Byte>>)
    requires StoreFits(s.store) && |field| == 4096
    requires Joined(chunks) == Frame(Message(Header(1, 16 + 4096, 0, 1, pid), field))
    ensures var d, name := OnChunks(s, now, conn, [], chunks), CStr(field[..4095]);
            && d.effect.state == s && d.rest == []
            && d.effect.replies == [if name in s.store then Found(name, s.store[name]) else NoSuchSafe()]
  {
    OneMessage(s, now, conn, Message(Header(1, 16 + 4096, 0, 1, pid), field), chunks);
    hide OnChunks, Frame, StrLen, EncodeHeader, Found, NoSuchSafe, Discarded;
  }

  /** The frame of a discard: the entry goes, no timer does, and the discard is confirmed if and only if
      there was an entry. */
  lemma {:induction false} DiscardOverTheWire(s: State, now: int, conn: nat, field: seq<Byte>, pid: U32, chunks: seq<seq<Byte>>)
    requires StoreFits(s.store) && |field| == 4096
    requires Joined(chunks) == Frame(Message(Header(2, 16 + 4096, 0, 1, pid), field))
    ensures var d, name := OnChunks(s, now, conn, [], chunks), CStr(field[..4095]);
            && d.effect.state.store == s.store - {name} && d.effect.state.timers == s.timers && d.rest == []
            && d.effect.replies == [if name in s.store then Discarded() else NoSuchSafe()]
  {
    OneMessage(s, now, conn, Message(Header(2, 16 + 4096, 0, 1, pid), field), chunks);
    hide OnChunks, Frame, StrLen, EncodeHeader, Found, NoSuchSafe, Discarded;
  }

  // ---- Messages that are no request ----

  lemma {:induction false} SkipOne(s: State, now: int, conn: nat, bad: Message, ms: seq<Message>)
    requires StoreFits(s.store) && Decode(bad).Malformed?
    ensures OnMessages(s, now, conn, [bad] + ms) == OnMessages(s, now, conn, ms)
  {
    assert ([bad] + ms)[1..] == ms;
    assert [] + OnMessages(s, now, conn, ms).replies == OnMessages(s, now, conn, ms).replies;
  }

  lemma {:induction false} SkipInside(s: State, now: int, conn: nat, a: seq<Message>, bad: Message, c: seq<Message>)
    requires StoreFits(s.store) && Decode(bad).Malformed?
    ensures OnMessages(s, now, conn, a + [bad] + c) == OnMessages(s, now, conn, a + c)
  {
    Assoc(a, [bad], c);
    OnMessagesAppend(s, now, conn, a, [bad] + c);
    OnMessagesAppend(s, now, conn, a, c);
    SkipOne(OnMessages(s, now, conn, a).state, now, conn, bad, c);
  }

  lemma {:induction false} OnFrames(s: State, now: int, conn: nat, ms: seq<Message>, tail: seq<Byte>)
    requires StoreFits(s.store) && AllWellFormed(ms)
    ensures OnChunk(s, now, conn, [], FramesOf(ms) + tail)
            == Dispatched(OnMessages(s, now, conn, ms + Parse(tail).msgs), Parse(tail).rest)
  {
    assert [] + (FramesOf(ms) + tail) == FramesOf(ms) + tail;
    ParseOfFrames(ms, tail);
  }

  /** A message of an unknown type or a wrong size is skipped whole: what is sent before and after it
      has the same effect as if it had not been there. */
  lemma {:induction false} MalformedIsSkipped(s: State, now: int, conn: nat, a: seq<Message>, bad: Message, b: seq<Message>, tail: seq<Byte>)
    requires StoreFits(s.store) && AllWellFormed(a) && AllWellFormed(b) && bad.WellFormed()
    requires bad.hdr.typ == 0 ==> |bad.data| != 12296
    requires bad.hdr.typ == 1 || bad.hdr.typ == 2 ==> |bad.data| != 4096
    ensures OnChunk(s, now, conn, [], FramesOf(a + [bad] + b) + tail)
            == OnChunk(s, now, conn, [], FramesOf(a + b) + tail)
  {
    OnFrames(s, now, conn, a + [bad] + b, tail);
    OnFrames(s, now, conn, a + b, tail);
    hide OnChunk, OnMessages, Parse, FramesOf, StoreFits;
    Assoc(a + [bad], b, Parse(tail).msgs);
    Assoc(a, b, Parse(tail).msgs);
    SkipInside(s, now, conn, a, bad, b + Parse(tail).msgs);
  }
}
