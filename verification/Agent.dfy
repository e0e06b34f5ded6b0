/** The agent process: connections, the dispatch loop, and the replies (src/command/agent.c, lib/kpagent.c). */
module Agent {
  import opened Bytes
  import opened Errors
  import opened Frames
  import opened Wire
  import opened SendQueue
  import opened Imsg
  import opened Store
  import opened Protocol

  /** Everything an endpoint has handed to the socket or still has queued, in order. */
  ghost function Outgoing(ibuf: ImsgBuf, tx: Pipe): seq<Byte>
    requires ibuf.Valid()
    reads ibuf, ibuf.w, ibuf.w.Repr, tx
  {
    BytesOf(tx.cells) + Flat(ibuf.w.queue)
  }

  /** kp_agent_send: compose with peer id 1 and no descriptor, then flush. When the flush fails, because a
      sendmsg did, the message keeps its place in the outgoing stream, and its end is still queued. */
  method KpSend(ibuf: ImsgBuf, tx: Pipe, reply: Reply) returns (ret: nat)
    requires ibuf.Valid() && tx !in ibuf.Repr() && reply.Sendable()
    modifies ibuf.w.Repr, tx
    ensures ibuf.Valid() && tx !in ibuf.Repr() && fresh(ibuf.w.Repr - old(ibuf.w.Repr))
    ensures ibuf.Buffered() == old(ibuf.Buffered())
    ensures Outgoing(ibuf, tx)
            == old(Outgoing(ibuf, tx)) + Frame(Message(Header(reply.typ, 16 + |reply.data|, 0, 1, ibuf.pid), reply.data))
    ensures ret == KP_SUCCESS || ret == KP_ERRNO
    ensures ret == KP_SUCCESS <==> ibuf.w.queue == []
    ensures ret == KP_SUCCESS <==> tx.unsent == old(tx.unsent)
    ensures tx.unread == old(tx.unread)
  {
    ghost var q, sent := ibuf.w.queue, BytesOf(tx.cells);
    var composed := ibuf.Compose(reply.typ, 1, 0, NO_FD, reply.data);
    assert ibuf.w.queue == q + [Pending(Frame(reply.ToMessage(ibuf.pid)), NO_FD)];
    QueueCellsAppend(q, [Pending(Frame(reply.ToMessage(ibuf.pid)), NO_FD)]);
    Assoc(sent, Flat(q), Frame(reply.ToMessage(ibuf.pid)));
    var flushed := ibuf.Flush(tx);
    ret := if flushed < 0 then KP_ERRNO else KP_SUCCESS;
  }

  // ---- kp_agent_receive ----

  /** What a client learns from one reply. Remote carries the agent's error code and errno; Broken
      means that the connection failed. An error message too short to hold its structure has no
      defined reading. */
  datatype Answer = Data(data: seq<Byte>) | Remote(err: nat, errno: nat) | Invalid | WrongSize | Broken | Undefined

  function Classify(m: Message, typ: nat, size: nat): Answer {
    if m.hdr.typ > MSG_ERROR then Invalid
    else if m.hdr.typ != typ then
      if m.hdr.typ != MSG_ERROR then Invalid
      else if |m.data| < 8 then Undefined
      else Remote(FromLe(m.data[..4]), FromLe(m.data[4..8]))
    else if |m.data| != size then WrongSize
    else Data(m.data)
  }

  /** The answer is read from the first message of the stream, however the stream arrives; the rest
      stays for the next call. The call gives up only when recvmsg fails, when the peer's stream ends
      inside a message, or when it is not a stream of frames; then no byte of the stream is lost. `failed`
      says that recvmsg failed during the call, which it cannot when a message is there already. */
  method KpReceive(ibuf: ImsgBuf, rx: Pipe, typ: nat, size: nat) returns (a: Answer, ghost failed: bool)
    requires ibuf.Valid() && rx !in ibuf.Repr()
    modifies ibuf, ibuf.rbuf, ibuf.w, rx
    ensures ibuf.Valid() && ibuf.w.Repr == old(ibuf.w.Repr)
    ensures var stream := old(ibuf.Buffered() + BytesOf(rx.cells));
            match Next(stream)
            case Got(m, rest) =>
              if failed then a == Broken
              else a == Classify(m, typ, size)
                   && ibuf.Buffered() + BytesOf(rx.cells) == rest && ibuf.w.queue == old(ibuf.w.queue)
            case _ => a == Broken
    ensures failed <==> rx.unread != old(rx.unread)
    ensures Next(old(ibuf.Buffered())).Got? ==> unchanged(rx)
    ensures a == Broken ==> ibuf.Buffered() + BytesOf(rx.cells) == old(ibuf.Buffered() + BytesOf(rx.cells))
    ensures failed ==> ibuf.w.queue == [] && ibuf.fds == []
  {
    hide ImsgBuf.Valid, Next;
    ghost var stream := ibuf.Buffered() + BytesOf(rx.cells);
    failed := false;
    while true
      invariant ibuf.Valid() && ibuf.w.Repr == old(ibuf.w.Repr) && ibuf.w.queue == old(ibuf.w.queue)
      invariant ibuf.Buffered() + BytesOf(rx.cells) == stream && !failed
      invariant rx.unread == old(rx.unread) && (Next(old(ibuf.Buffered())).Got? ==> unchanged(rx))
      invariant Next(ibuf.Buffered()).Got? || !Next(old(ibuf.Buffered())).Got?
      decreases |rx.cells|
    {
      var r, m := GetNext(ibuf, rx);
      if r > 0 {
        return Classify(m, typ, size), false;
      }
      var n := ReadMore(ibuf, rx);
      if n <= 0 {
        return Broken, n < 0;
      }
      r, m := GetNext(ibuf, rx);
      if r < 0 {
        return Broken, false;
      }
      if r > 0 {
        return Classify(m, typ, size), false;
      }
    }
  }

  /** imsg_get, in terms of the whole stream: what it yields is the stream's first message, and a bad
      header means that there is none. */
  method GetNext(ibuf: ImsgBuf, ghost rx: Pipe) returns (r: int, m: Message)
    requires ibuf.Valid() && rx !in ibuf.Repr()
    modifies ibuf, ibuf.rbuf
    ensures ibuf.Valid() && ibuf.w.queue == old(ibuf.w.queue)
    ensures r > 0 <==> Next(old(ibuf.Buffered())).Got?
    ensures r > 0 ==> Next(old(ibuf.Buffered() + BytesOf(rx.cells))) == Got(m, ibuf.Buffered() + BytesOf(rx.cells))
    ensures r <= 0 ==> ibuf.Buffered() == old(ibuf.Buffered())
    ensures r < 0 ==> !Next(old(ibuf.Buffered() + BytesOf(rx.cells))).Got?
  {
    NextExtends(ibuf.Buffered(), BytesOf(rx.cells));
    var fd;
    r, m, fd := ibuf.Get();
  }

  /** imsg_read, and imsg_clear when it yields nothing: then no message can be made of what is there,
      unless the read failed or one was there already. */
  method ReadMore(ibuf: ImsgBuf, rx: Pipe) returns (n: int)
    requires ibuf.Valid() && rx !in ibuf.Repr()
    modifies ibuf, ibuf.rbuf, ibuf.w, rx
    ensures ibuf.Valid() && ibuf.w.Repr == old(ibuf.w.Repr)
    ensures ibuf.Buffered() + BytesOf(rx.cells) == old(ibuf.Buffered() + BytesOf(rx.cells))
    ensures n > 0 ==>
              && n <= |old(rx.cells)| && |old(ibuf.Buffered())| < IBUF_READ_SIZE
              && ibuf.Buffered() == old(ibuf.Buffered()) + BytesOf(old(rx.cells)[..n]) && rx.cells == old(rx.cells)[n..]
              && ibuf.w.queue == old(ibuf.w.queue)
    ensures n <= 0 ==> ibuf.w.queue == [] && ibuf.fds == [] && rx.cells == old(rx.cells) && ibuf.Buffered() == old(ibuf.Buffered())
    ensures n == 0 ==> old(rx.cells) == [] || |old(ibuf.Buffered())| == IBUF_READ_SIZE
    ensures n == 0 && !Next(old(ibuf.Buffered())).Got? ==> !Next(ibuf.Buffered() + BytesOf(rx.cells)).Got?
    ensures rx.unread == old(rx.unread) + if n < 0 then 1 else 0
  {
    hide Next;
    ghost var buffered, cells := ibuf.Buffered(), rx.cells;
    n := ibuf.Read(rx);
    if n <= 0 {
      ibuf.w.Clear();
      ibuf.fds := [];
      if !Next(buffered).Got? {
        NothingMore(buffered, cells);
      }
    } else {
      ReadMoves(buffered, cells, n);
    }
  }

  lemma {:induction false} ReadMoves(buffered: seq<Byte>, cells: seq<Cell>, n: nat)
    requires n <= |cells|
    ensures (buffered + BytesOf(cells[..n])) + BytesOf(cells[n..]) == buffered + BytesOf(cells)
  {
    assert cells == cells[..n] + cells[n..];
    BytesOfAppend(cells[..n], cells[n..]);
    Assoc(buffered, BytesOf(cells[..n]), BytesOf(cells[n..]));
  }

  /** When no bytes are left to read, or a bad header blocks the buffer, no message is coming. */
  lemma {:induction false} NothingMore(buffered: seq<Byte>, cells: seq<Cell>)
    requires !Next(buffered).Got?
    ensures cells == [] || Next(buffered).BadLength? ==> !Next(buffered + BytesOf(cells)).Got?
    ensures Next(buffered).NeedMore? ==> |buffered| < IBUF_READ_SIZE
  {
    NextExtends(buffered, BytesOf(cells));
    assert cells == [] ==> buffered + BytesOf(cells) == buffered;
    if Next(buffered).NeedMore? {
      NeedMoreIsShort(buffered);
    }
  }

  // ---- The server ----

  function MessagesFor(replies: seq<Reply>, pid: U32): (ms: seq<Message>)
    requires AllSendable(replies)
  {
    seq(|replies|, i requires 0 <= i < |replies| => replies[i].ToMessage(pid))
  }

  lemma {:induction false} ReplyFrames(a: seq<Reply>, b: seq<Reply>, pid: U32)
    requires AllSendable(a)
    requires AllSendable(b)
    ensures FramesOf(MessagesFor(a + b, pid)) == FramesOf(MessagesFor(a, pid)) + FramesOf(MessagesFor(b, pid))
  {
    assert MessagesFor(a + b, pid) == MessagesFor(a, pid) + MessagesFor(b, pid);
    FramesOfAppend(MessagesFor(a, pid), MessagesFor(b, pid));
  }

  lemma {:induction false} OneReply(r: Reply, pid: U32)
    requires r.Sendable()
    ensures FramesOf(MessagesFor([r], pid)) == Frame(r.ToMessage(pid))
  {
    assert MessagesFor([r], pid) == [r.ToMessage(pid)];
    assert [r.ToMessage(pid)][1..] == [];
  }

  /** What all connections share: the store, the timers pending in the event base, and its clock. */
  class Server {
    const storage: Storage
    var timers: seq<Timer>
    var now: int

    ghost predicate Valid()
      reads this, storage, storage.Repr
    {
      storage.Valid() && forall t :: t in timers ==> Fits(t.name, PATH_MAX)
    }

    constructor ()
      ensures Valid() && fresh(storage) && State() == Protocol.State(map[], []) && storage.Repr == {}
    {
      storage := new Storage();
      timers, now := [], 0;
    }

    ghost function State(): Protocol.State
      reads this, storage
    {
      Protocol.State(storage.model, timers)
    }

    /** `store`: arm the timer first, then store. */
    method OnStore(conn: nat, u: Unsafe)
      requires Valid() && u.Sized()
      modifies this`timers, storage, storage.Repr
      ensures Valid() && State() == Protocol.OnStore(old(State()), now, conn, u)
      ensures fresh(storage.Repr - old(storage.Repr))
    {
      if u.timeout > 0 {
        if !Terminated(u.name) {
          return;
        }
        timers := timers + [Timer(CStr(u.name), now + u.timeout, conn)];
      }
      var ok := storage.Put(u);
    }

    /** kp_agent_search, up to the reply it sends. */
    method Search(name: Name) returns (reply: Reply)
      requires Valid() && Fits(name, PATH_MAX)
      ensures StoreFits(storage.model)
      ensures reply == if name in storage.model then Found(name, storage.model[name]) else NoSuchSafe()
    {
      storage.ModelFits();
      var found := storage.Find(name);
      match found {
        case None => reply := NoSuchSafe();
        case Some(safe) => reply := Found(safe.name, safe.value);
      }
    }

    /** kp_agent_discard, up to the reply it sends: none when it is silent and succeeds. */
    method Discard(name: Name, silent: bool) returns (replies: seq<Reply>)
      requires Valid() && Fits(name, PATH_MAX)
      modifies storage
      ensures Valid() && State() == old(State()).(store := old(State().store) - {name})
      ensures storage.Repr == old(storage.Repr)
      ensures replies == if name !in old(storage.model) then [NoSuchSafe()]
                         else if silent then [] else [Discarded()]
    {
      var found := storage.Remove(name);
      replies := if !found then [NoSuchSafe()] else if silent then [] else [Discarded()];
    }

    /** The switch of dispatch. */
    method Handle(conn: nat, m: Message) returns (replies: seq<Reply>)
      requires Valid()
      modifies this`timers, storage, storage.Repr
      ensures Valid() && StoreFits(old(storage.model))
      ensures Effect(State(), replies) == OnRequest(old(State()), now, conn, Decode(m))
      ensures |replies| <= 1 && AllSendable(replies)
      ensures fresh(storage.Repr - old(storage.Repr))
    {
      storage.ModelFits();
      replies := [];
      if m.hdr.typ == MSG_STORE {
        if |m.data| == UNSAFE_SIZE {
          OnStore(conn, DecodeUnsafe(m.data));
        }
      } else if m.hdr.typ == MSG_SEARCH {
        if |m.data| == PATH_MAX {
          var reply := Search(CStr(m.data[..PATH_MAX - 1]));
          replies := [reply];
        }
      } else if m.hdr.typ == MSG_DISCARD {
        if |m.data| == PATH_MAX {
          replies := Discard(CStr(m.data[..PATH_MAX - 1]), false);
        }
      }
    }

    /** timeout_discard, up to the reply it sends; the event is one-shot. */
    method Expire(i: nat) returns (replies: seq<Reply>)
      requires Valid() && i < |timers|
      modifies this`timers, storage
      ensures Valid() && Effect(State(), replies) == OnFire(old(State()), i)
      ensures |replies| <= 1 && AllSendable(replies)
      ensures storage.Repr == old(storage.Repr)
    {
      var t := timers[i];
      timers := timers[..i] + timers[i + 1..];
      replies := Discard(t.name, true);
    }
  }

  /** struct conn: a client connection with its two directions. Requests are read through `ibuf`, and
      replies are sent through another endpoint on the same socket, `out` (conn->agent.kp_agent.ibuf). */
  class Conn {
    const id: nat
    const server: Server
    const ibuf: ImsgBuf
    const out: ImsgBuf
    const rx: Pipe
    const tx: Pipe
    var open: bool

    /** What belongs to this connection alone. */
    ghost function Own(): set<object>
      reads this, ibuf.w, out.w
    {
      {this, rx, tx} + ibuf.Repr() + out.Repr()
    }

    ghost predicate Valid()
      reads this, server, server.storage, server.storage.Repr, ibuf, ibuf.w, ibuf.w.Repr, out, out.w, out.w.Repr
    {
      && server.Valid() && ibuf.Valid() && out.Valid() && rx != tx
      && ibuf.Repr() !! out.Repr()
      && {this, server, server.storage, rx, tx} !! ibuf.Repr() + out.Repr()
      && (forall n :: n in server.storage.Repr ==> n !in ibuf.Repr() && n !in out.Repr())
    }

    /** agent_accept. */
    constructor (id: nat, server: Server, pid: U32)
      requires server.Valid()
      ensures Valid() && this.server == server && this.id == id && open
      ensures fresh(Own()) && Sent() == [] && ibuf.Buffered() == [] && rx.cells == []
    {
      hide Storage.Valid, ImsgBuf.Valid, Fits;
      this.id, this.server := id, server;
      ibuf := new ImsgBuf(pid);
      out := new ImsgBuf(pid);
      rx := new Pipe();
      tx := new Pipe();
      open := true;
    }

    /** The bytes this side has sent or queued. */
    ghost function Sent(): seq<Byte>
      requires out.Valid()
      reads this, out, out.w, out.w.Repr, tx
    {
      Outgoing(out, tx)
    }

    /** Send what a handler produced, if anything. */
    method SendReplies(replies: seq<Reply>)
      requires Valid() && |replies| <= 1 && AllSendable(replies)
      modifies out.w.Repr, tx
      ensures Valid() && fresh(out.w.Repr - old(out.w.Repr)) && ibuf.Buffered() == old(ibuf.Buffered())
      ensures Sent() == old(Sent()) + FramesOf(MessagesFor(replies, out.pid))
    {
      if replies != [] {
        OneReply(replies[0], out.pid);
        var ret := KpSend(out, tx, replies[0]);
      }
    }

    /** timeout_discard, answering on the connection that armed the timer. */
    method TimeoutDiscard(i: nat)
      requires Valid() && i < |server.timers| && server.timers[i].conn == id
      modifies out.w.Repr, tx, server`timers, server.storage
      ensures Valid() && fresh(out.w.Repr - old(out.w.Repr)) && ibuf.Buffered() == old(ibuf.Buffered())
      ensures server.storage.Repr == old(server.storage.Repr)
      ensures var e := OnFire(old(server.State()), i);
              && server.State() == e.state
              && Sent() == old(Sent()) + FramesOf(MessagesFor(e.replies, out.pid))
    {
      hide Storage.Valid, ImsgBuf.Valid, OnRequest, OnFire, Decode, Next, FramesOf, MessagesFor, AllSendable, Outgoing, Fits, StoreFits;
      var replies := ExpireTimer(i);
      SendReplies(replies);
    }

    /** imsg_get on this connection. */
    method Take() returns (r: int, m: Message)
      requires Valid()
      modifies ibuf, ibuf.rbuf
      ensures Valid() && Sent() == old(Sent())
      ensures match Next(old(ibuf.Buffered()))
              case Got(msg, rest) => r > 0 && m == msg && ibuf.Buffered() == rest
              case _ => r <= 0 && ibuf.Buffered() == old(ibuf.Buffered())
    {
      var fd;
      r, m, fd := ibuf.Get();
    }

    /** The body of the loop in dispatch, up to its reply. Nothing on the transport side moves. */
    method HandleMessage(m: Message) returns (replies: seq<Reply>)
      requires Valid()
      modifies server`timers, server.storage, server.storage.Repr
      ensures Valid() && ibuf.Buffered() == old(ibuf.Buffered()) && Sent() == old(Sent())
      ensures |replies| <= 1 && AllSendable(replies)
      ensures StoreFits(old(server.storage.model))
      ensures Effect(server.State(), replies) == OnRequest(old(server.State()), server.now, id, Decode(m))
      ensures fresh(server.storage.Repr - old(server.storage.Repr))
    {
      replies := server.Handle(id, m);
    }

    method ExpireTimer(i: nat) returns (replies: seq<Reply>)
      requires Valid() && i < |server.timers|
      modifies server`timers, server.storage
      ensures Valid() && ibuf.Buffered() == old(ibuf.Buffered()) && Sent() == old(Sent())
      ensures |replies| <= 1 && AllSendable(replies)
      ensures Effect(server.State(), replies) == OnFire(old(server.State()), i)
      ensures server.storage.Repr == old(server.storage.Repr)
    {
      hide Storage.Valid, ImsgBuf.Valid, Outgoing, OnFire, Fits, StoreFits;
      replies := server.Expire(i);
    }

    /** The body of the loop in dispatch: handle a message and answer it. */
    method Process(m: Message) returns (ghost replies: seq<Reply>)
      requires Valid()
      modifies out.w.Repr, tx, server`timers, server.storage, server.storage.Repr
      ensures Valid() && fresh(out.w.Repr - old(out.w.Repr)) && ibuf.Buffered() == old(ibuf.Buffered())
      ensures fresh(server.storage.Repr - old(server.storage.Repr))
      ensures AllSendable(replies) && Sent() == old(Sent()) + FramesOf(MessagesFor(replies, out.pid))
      ensures StoreFits(old(server.storage.model))
      ensures Effect(server.State(), replies) == OnRequest(old(server.State()), server.now, id, Decode(m))
    {
      var rs := HandleMessage(m);
      SendReplies(rs);
      replies := rs;
    }

    /** One round of the loop in dispatch: imsg_get, and when it yields a message, its handling. */
    method Round() returns (more: bool, ghost replies: seq<Reply>)
      requires Valid()
      modifies ibuf, ibuf.rbuf, out.w.Repr, tx, server`timers, server.storage, server.storage.Repr
      ensures Valid() && fresh(out.w.Repr - old(out.w.Repr))
      ensures fresh(server.storage.Repr - old(server.storage.Repr))
      ensures more == Next(old(ibuf.Buffered())).Got?
      ensures !more ==> ibuf.Buffered() == old(ibuf.Buffered()) && server.State() == old(server.State()) && Sent() == old(Sent())
      ensures StoreFits(old(server.storage.model)) && AllSendable(replies)
      ensures more ==>
                var next := Next(old(ibuf.Buffered()));
                && ibuf.Buffered() == next.rest
                && Effect(server.State(), replies) == OnRequest(old(server.State()), server.now, id, Decode(next.msg))
                && Sent() == old(Sent()) + FramesOf(MessagesFor(replies, out.pid))
    {
      hide Storage.Valid, ImsgBuf.Valid, OnRequest, OnFire, Decode, Next, FramesOf, MessagesFor, Outgoing, Fits;
      server.storage.ModelFits();
      replies := [];
      var r, m := Take();
      more := r > 0;
      if more {
        replies := Process(m);
      }
    }

    /** The loop of dispatch: every complete message in the buffer, in order. */
    method Drain()
      requires Valid()
      modifies ibuf, ibuf.rbuf, out.w.Repr, tx, server`timers, server.storage, server.storage.Repr
      ensures Valid() && fresh(out.w.Repr - old(out.w.Repr))
      ensures StoreFits(old(server.storage.model))
      ensures fresh(server.storage.Repr - old(server.storage.Repr))
      ensures Handled(OnChunk(old(server.State()), server.now, id, old(ibuf.Buffered()), []), old(Sent()))
    {
      server.storage.ModelFits();
      ghost var before := Sent();
      ghost var done := RunLoop();
      AllDone(OnChunk(old(server.State()), server.now, id, old(ibuf.Buffered()), []), done,
              server.State(), server.now, id, ibuf.Buffered());
    }

    method RunLoop() returns (ghost done: seq<Reply>)
      requires Valid() && StoreFits(server.storage.model)
      modifies ibuf, ibuf.rbuf, out.w.Repr, tx, server`timers, server.storage, server.storage.Repr
      ensures Valid() && fresh(out.w.Repr - old(out.w.Repr))
      ensures fresh(server.storage.Repr - old(server.storage.Repr))
      ensures StoreFits(server.storage.model) && AllSendable(done)
      ensures Sent() == old(Sent()) + FramesOf(MessagesFor(done, out.pid))
      ensures Remains(OnChunk(old(server.State()), server.now, id, old(ibuf.Buffered()), []), done,
                      OnChunk(server.State(), server.now, id, ibuf.Buffered(), []))
      ensures !Next(ibuf.Buffered()).Got?
    {
      hide OnChunk, OnRequest, Decode, Next, FramesOf, MessagesFor, Remains, AllSendable;
      hide Storage.Valid, ImsgBuf.Valid, Outgoing;
      ghost var all := OnChunk(server.State(), server.now, id, ibuf.Buffered(), []);
      ghost var before := Sent();
      done := [];
      Starts(all, before, out.pid);
      var more := true;
      while more
        invariant Valid() && fresh(out.w.Repr - old(out.w.Repr))
        invariant fresh(server.storage.Repr - old(server.storage.Repr))
        invariant StoreFits(server.storage.model) && AllSendable(done)
        invariant Sent() == before + FramesOf(MessagesFor(done, out.pid))
        invariant Remains(all, done, OnChunk(server.State(), server.now, id, ibuf.Buffered(), []))
        invariant !more ==> !Next(ibuf.Buffered()).Got?
        decreases |ibuf.Buffered()|, more
      {
        ghost var s, buf := server.State(), ibuf.Buffered();
        ghost var replies;
        more, replies := Round();
        if more {
          OneMore(all, done, s, server.now, id, buf);
          AnsweredMore(before, done, replies, out.pid);
          done := done + replies;
        }
      }
    }

    static lemma {:induction false} Starts(all: Dispatched, before: seq<Byte>, pid: U32)
      ensures AllSendable([]) && Remains(all, [], all)
      ensures before == before + FramesOf(MessagesFor([], pid))
    {
      assert [] + all.effect.replies == all.effect.replies;
      assert MessagesFor([], pid) == [];
    }

    static lemma {:induction false} AllDone(all: Dispatched, done: seq<Reply>, s: Protocol.State, now: int, conn: nat, buf: seq<Byte>)
      requires StoreFits(s.store) && !Next(buf).Got?
      requires Remains(all, done, OnChunk(s, now, conn, buf, []))
      ensures all == Dispatched(Effect(s, done), buf)
    {
      OnChunkStop(s, now, conn, buf);
      assert done + [] == done;
    }

    static lemma {:induction false} OneMore(all: Dispatched, done: seq<Reply>, s: Protocol.State, now: int, conn: nat, buf: seq<Byte>)
      requires StoreFits(s.store) && Next(buf).Got?
      requires Remains(all, done, OnChunk(s, now, conn, buf, []))
      ensures var e := OnRequest(s, now, conn, Decode(Next(buf).msg));
              StoreFits(e.state.store) && Remains(all, done + e.replies, OnChunk(e.state, now, conn, Next(buf).rest, []))
    {
      OnChunkStep(s, now, conn, buf);
      var e := OnRequest(s, now, conn, Decode(Next(buf).msg));
      Assoc(done, e.replies, OnChunk(e.state, now, conn, Next(buf).rest, []).effect.replies);
    }

    static lemma {:induction false} AnsweredMore(before: seq<Byte>, done: seq<Reply>, replies: seq<Reply>, pid: U32)
      requires AllSendable(done) && AllSendable(replies)
      ensures AllSendable(done + replies)
      ensures (before + FramesOf(MessagesFor(done, pid))) + FramesOf(MessagesFor(replies, pid))
              == before + FramesOf(MessagesFor(done + replies, pid))
    {
      ReplyFrames(done, replies, pid);
      Assoc(before, FramesOf(MessagesFor(done, pid)), FramesOf(MessagesFor(replies, pid)));
    }

    /** What is left to do, together with what has been done, is all there was. */
    static ghost predicate Remains(all: Dispatched, done: seq<Reply>, left: Dispatched) {
      all == Dispatched(Effect(left.effect.state, done + left.effect.replies), left.rest)
    }

    /** The connection and the shared state are as a run of the handler leaves them. */
    ghost predicate Handled(d: Dispatched, sentBefore: seq<Byte>)
      requires ibuf.Valid() && out.Valid() && AllSendable(d.effect.replies)
      reads this, server, server.storage, ibuf, ibuf.rbuf, ibuf.w, ibuf.w.Repr, out, out.w, out.w.Repr, tx
    {
      && server.State() == d.effect.state
      && ibuf.Buffered() == d.rest
      && Sent() == sentBefore + FramesOf(MessagesFor(d.effect.replies, out.pid))
    }

    /** A read, on a buffer and a pipe as they were before it, has failed, or there was nothing to read or
        no room to read it. */
    ghost predicate Ended(buffered: seq<Byte>, cells: seq<Cell>, unread: nat)
      reads rx
    {
      rx.unread == unread + 1 || cells == [] || |buffered| == IBUF_READ_SIZE
    }

    /** imsg_read on this connection. */
    method ReadSome() returns (ghost chunk: seq<Byte>)
      requires Valid() && open
      modifies this`open, ibuf, ibuf.rbuf, ibuf.w, rx
      ensures Valid() && ibuf.w.Repr == old(ibuf.w.Repr) && Sent() == old(Sent())
      ensures open ==>
                && 0 < |chunk| <= |old(rx.cells)|
                && chunk == BytesOf(old(rx.cells)[..|chunk|]) && rx.cells == old(rx.cells)[|chunk|..]
                && ibuf.Buffered() == old(ibuf.Buffered()) + chunk
      ensures Ended(old(ibuf.Buffered()), old(rx.cells), old(rx.unread)) <==> !open
      ensures !open ==> ibuf.w.queue == [] && ibuf.fds == [] && rx.cells == old(rx.cells)
    {
      hide Storage.Valid, ImsgBuf.Valid, Outgoing, Fits;
      ghost var cells := rx.cells;
      var n := ReadMore(ibuf, rx);
      chunk := if n > 0 then BytesOf(cells[..n]) else [];
      if n <= 0 {
        open := false;
      }
    }

    /** What dispatch does for this connection, having read `chunk`. */
    twostate predicate Served(chunk: seq<Byte>)
      requires old(ibuf.Valid() && out.Valid()) && ibuf.Valid() && out.Valid()
      reads this, server, server.storage, ibuf, ibuf.rbuf, ibuf.w, ibuf.w.Repr, out, out.w, out.w.Repr, rx, tx
    {
      && (Ended(old(ibuf.Buffered()), old(rx.cells), old(rx.unread)) <==> !open)
      && (!open ==> server.State() == old(server.State()) && Sent() == old(Sent()) && rx.cells == old(rx.cells))
      && (open ==>
            && 0 < |chunk| <= |old(rx.cells)|
            && chunk == BytesOf(old(rx.cells)[..|chunk|]) && rx.cells == old(rx.cells)[|chunk|..]
            && StoreFits(old(server.storage.model))
            && var d := OnChunk(old(server.State()), server.now, id, old(ibuf.Buffered()), chunk);
               AllSendable(d.effect.replies) && Handled(d, old(Sent())))
    }

    /** dispatch: one read, then every complete message in the buffer. The outcome is the handler's
        run over the messages in what was buffered followed by what was read. The connection is closed
        if and only if the read fails or the client is gone, and then the shared state and what was sent
        are left alone. */
    method Dispatch() returns (ghost chunk: seq<Byte>)
      requires Valid() && open
      modifies this`open, ibuf, ibuf.rbuf, ibuf.w, out.w.Repr, rx, tx, server`timers, server.storage, server.storage.Repr
      ensures Valid() && fresh(Own() - old(Own()))
      ensures fresh(server.storage.Repr - old(server.storage.Repr))
      ensures Served(chunk)
    {
      hide Storage.Valid, ImsgBuf.Valid, OnChunk, FramesOf, MessagesFor, AllSendable, Outgoing, Fits;
      server.storage.ModelFits();
      ghost var s, buf := server.State(), ibuf.Buffered();
      chunk := ReadSome();
      if open {
        ChunkJoined(s, server.now, id, buf, chunk);
        Drain();
      }
    }

    /** Nothing that belongs to this connection has changed, and the shared tree is sound: then this
        connection is as it was. */
    twostate lemma Undisturbed()
      requires old(Valid()) && server.Valid()
      requires unchanged(old(Own()))
      requires fresh(server.storage.Repr - old(server.storage.Repr))
      ensures Valid() && Own() == old(Own())
      ensures Sent() == old(Sent()) && ibuf.Buffered() == old(ibuf.Buffered())
      ensures open == old(open) && rx.cells == old(rx.cells)
    {
      hide Storage.Valid, ImsgBuf.Valid, Outgoing, Fits;
      assert this in old(Own()) && rx in old(Own());
      assert ibuf in old(Own()) && ibuf.w in old(Own()) && out in old(Own()) && out.w in old(Own());
      assert tx in old(Own()) && ibuf.rbuf in old(Own());
      assert Own() == old(Own());
    }

    lemma {:induction false} SharedApart()
      requires Valid()
      ensures server.Valid() && Own() !! {server, server.storage} + server.storage.Repr
      ensures {this, ibuf, ibuf.rbuf, ibuf.w, rx, tx} + out.w.Repr <= Own()
    {
      hide Storage.Valid, ImsgBuf.Valid;
    }

    /** A turn of the event loop for this connection, seen from the others: it touches nothing but what is
        this connection's own and what all share, and what it adds to either is new. */
    method Turn() returns (ghost chunk: seq<Byte>)
      requires Valid() && open
      modifies Own(), server`timers, server.storage, server.storage.Repr
      ensures Valid() && fresh(Own() - old(Own())) && fresh(server.storage.Repr - old(server.storage.Repr))
      ensures Served(chunk)
    {
      hide Storage.Valid, ImsgBuf.Valid, Handled, Sent, Server.State, Server.Valid, OnChunk, Served;
      chunk := Dispatch();
    }

    /** Objects apart from those are as they were. */
    method TurnApart(ghost keep: set<object>) returns (ghost chunk: seq<Byte>)
      requires Valid() && open
      requires keep !! Own() + {server, server.storage} + server.storage.Repr
      modifies Own(), server`timers, server.storage, server.storage.Repr
      ensures Valid() && fresh(Own() - old(Own())) && fresh(server.storage.Repr - old(server.storage.Repr))
      ensures unchanged(keep) && Served(chunk)
    {
      hide *;
      chunk := Turn();
    }

    /** So another open connection to the same server is as it was, and can be served next. */
    method TurnBeside(other: Conn) returns (ghost chunk: seq<Byte>)
      requires Valid() && open && other.Valid() && other.server == server && Own() !! other.Own()
      modifies Own(), server`timers, server.storage, server.storage.Repr
      ensures Valid() && other.Valid() && Own() !! other.Own()
      ensures Served(chunk)
      ensures other.Sent() == old(other.Sent()) && other.ibuf.Buffered() == old(other.ibuf.Buffered())
      ensures other.open == old(other.open) && other.rx.cells == old(other.rx.cells)
    {
      SharedApart();
      other.SharedApart();
      hide *;
      chunk := TurnApart(other.Own());
      other.Undisturbed();
    }
  }
}
