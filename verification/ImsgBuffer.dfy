/** Growable write buffers and the FIFO queue that sendmsg drains (imsg-buffer.c). */
module ImsgBuffer {
  import opened Bytes
  import opened Wire
  import opened SendQueue

  /** struct ibuf. */
  class IBuf {
    var buf: array<Byte>
    var size: nat
    var max: nat
    var wpos: nat
    var rpos: nat
    var fd: int

    ghost predicate Valid()
      reads this
    {
      rpos <= wpos <= size <= max && size == buf.Length
    }

    /** Everything added so far. */
    ghost function Written(): seq<Byte>
      requires Valid()
      reads this, buf
    {
      buf[..wpos]
    }

    /** What is still to be sent. */
    ghost function Unsent(): Pending
      requires Valid()
      reads this, buf
    {
      Pending(buf[rpos..wpos], fd)
    }

    /** ibuf_open. */
    constructor Open(len: nat)
      ensures Valid() && fresh(buf)
      ensures Written() == [] && rpos == 0 && fd == NO_FD && size == max == len
    {
      buf := new Byte[len];
      size, max := len, len;
      wpos, rpos, fd := 0, 0, NO_FD;
    }

    /** ibuf_dynamic: a buffer that may grow up to a bound; refused when it is too large at birth. */
    static method Dynamic(len: nat, bound: nat) returns (b: IBuf?)
      ensures b == null <==> bound < len
      ensures b != null ==>
                && b.Valid() && fresh(b) && fresh(b.buf)
                && b.Written() == [] && b.rpos == 0 && b.fd == NO_FD && b.max == bound
    {
      if bound < len {
        return null;
      }
      b := new IBuf.Open(len);
      if bound > 0 {
        b.max := bound;
      }
    }

    /** ibuf_realloc: make room for len more bytes, unless the bound forbids it. */
    method Realloc(len: nat) returns (r: int)
      requires Valid() && size <= wpos + len
      modifies this`buf, this`size
      ensures Valid() && wpos == old(wpos) && Written() == old(Written())
      ensures r == 0 <==> wpos + len <= max
      ensures r == 0 ==> size == wpos + len && fresh(buf)
      ensures r != 0 ==> r == -1 && buf == old(buf) && size == old(size)
    {
      if wpos + len > max {
        return -1;
      }
      var b := new Byte[wpos + len];
      forall i | 0 <= i < size {
        b[i] := buf[i];
      }
      buf, size := b, wpos + len;
      return 0;
    }

    /** ibuf_add: append, growing if need be; nothing changes when the bound would be exceeded. */
    method Add(data: seq<Byte>) returns (r: int)
      requires Valid()
      modifies this, buf
      ensures Valid() && rpos == old(rpos) && fd == old(fd) && max == old(max)
      ensures buf == old(buf) || fresh(buf)
      ensures r == if old(wpos) + |data| <= max then 0 else -1
      ensures Written() == if r == 0 then old(Written()) + data else old(Written())
    {
      if wpos + |data| > size {
        r := Realloc(|data|);
        if r == -1 {
          return;
        }
      }
      wpos := Append(buf, wpos, data, Written());
      r := 0;
    }
  }

  /** struct msgbuf: the queue of buffers waiting to be sent. `queue` is its value, and `closed`
      records the descriptors that were closed because their buffer left the queue. */
  class MsgBuf {
    var bufs: seq<IBuf>
    var queued: nat
    ghost var queue: seq<Pending>
    ghost var closed: seq<int>
    ghost var Repr: set<object>

    ghost predicate Holds(b: IBuf, p: Pending)
      reads b, b.buf
    {
      b.Valid() && b.rpos < b.wpos && p == b.Unsent()
    }

    ghost predicate Valid()
      reads this, Repr
      ensures Valid() ==> this in Repr && queued == |queue| && NonEmpty(queue)
    {
      && this in Repr
      && queued == |bufs| == |queue|
      && (forall i :: 0 <= i < |bufs| ==> bufs[i] in Repr && bufs[i].buf in Repr && Holds(bufs[i], queue[i]))
      && (forall i, j :: 0 <= i < j < |bufs| ==> bufs[i] != bufs[j])
    }

    /** msgbuf_init. */
    constructor ()
      ensures Valid() && fresh(Repr) && queue == [] && closed == []
    {
      bufs, queued, queue, closed := [], 0, [], [];
      Repr := {this};
    }

    /** ibuf_enqueue. */
    method Enqueue(b: IBuf)
      requires Valid() && b.Valid() && b.rpos < b.wpos
      requires b !in Repr && b.buf !in Repr
      modifies this
      ensures Valid() && Repr == old(Repr) + {b, b.buf}
      ensures queue == old(queue) + [b.Unsent()] && closed == old(closed)
    {
      bufs := bufs + [b];
      queued := queued + 1;
      queue := queue + [b.Unsent()];
      Repr := Repr + {b, b.buf};
    }

    /** ibuf_dequeue, always called on the head of the queue: a descriptor that is still attached is
        closed, not passed. */
    method Dequeue()
      requires Valid() && bufs != []
      modifies this
      ensures Valid() && Repr == old(Repr) && bufs == old(bufs)[1..]
      ensures queue == old(queue)[1..]
      ensures closed == old(closed) + (if old(queue)[0].fd == NO_FD then [] else [old(queue)[0].fd])
    {
      if bufs[0].fd != NO_FD {
        closed := closed + [bufs[0].fd];
      }
      bufs := bufs[1..];
      queued := queued - 1;
      queue := queue[1..];
    }

    /** The partial case of msgbuf_drain: advance into the head buffer. */
    method Advance(buf: IBuf, n: nat)
      requires Valid() && bufs != [] && buf == bufs[0] && n < |queue[0].bytes|
      modifies this`queue, buf`rpos
      ensures Valid() && queue == [Pending(old(queue)[0].bytes[n..], old(queue)[0].fd)] + old(queue)[1..]
    {
      buf.rpos := buf.rpos + n;
      queue := [Pending(queue[0].bytes[n..], queue[0].fd)] + queue[1..];
    }

    /** msgbuf_drain. */
    method DrainBytes(n0: nat)
      requires Valid()
      modifies Repr
      ensures Valid() && Repr == old(Repr)
      ensures queue == Drain(old(queue), n0)
      ensures closed == old(closed) + Dropped(old(queue), n0)
    {
      var n: nat := n0;
      while bufs != [] && n > 0
        invariant Valid() && Repr == old(Repr)
        invariant Drain(queue, n) == Drain(old(queue), n0)
        invariant closed + Dropped(queue, n) == old(closed) + Dropped(old(queue), n0)
        decreases |bufs|, n
      {
        var buf := bufs[0];
        if buf.rpos + n >= buf.wpos {
          n := n - (buf.wpos - buf.rpos);
          Assoc(closed, if queue[0].fd == NO_FD then [] else [queue[0].fd], Dropped(queue[1..], n));
          Dequeue();
        } else {
          Advance(buf, n);
          n := 0;
        }
      }
    }

    /** The scan of msgbuf_write: gather the unsent data of the first IOV_MAX buffers, stopping after
        the first one that has a descriptor. `last` is the buffer the scan stopped on. */
    method Gather() returns (data: seq<Byte>, last: IBuf?, ghost k: nat)
      requires Valid()
      ensures data == Offered(queue, IOV_MAX)
      ensures k <= |queue| && (last == null <==> k == |queue|)
      ensures last != null ==> last == bufs[k]
      ensures OfferedFd(queue, IOV_MAX) == if last == null then NO_FD else queue[k].fd
      ensures ClearFd(queue, IOV_MAX) == if last == null then queue else queue[k := queue[k].(fd := NO_FD)]
    {
      data, last := [], null;
      var i := 0;
      while i < |bufs|
        invariant 0 <= i <= |bufs| && i <= IOV_MAX && last == null
        invariant forall j :: 0 <= j < i ==> queue[j].fd == NO_FD
        invariant data == Flat(queue[..i])
      {
        if i >= IOV_MAX {
          last := bufs[i];
          break;
        }
        FlatSnoc(queue, i);
        data := data + bufs[i].buf[bufs[i].rpos..bufs[i].wpos];
        if bufs[i].fd != NO_FD {
          last := bufs[i];
          break;
        }
        i := i + 1;
      }
      k := i;
      ScanData(queue, IOV_MAX, i);
      ScanFd(queue, IOV_MAX, i);
      assert queue[..|queue|] == queue;
    }

    /** Record that a queued buffer's descriptor has been passed. */
    method Passed(b: IBuf, ghost k: nat)
      requires Valid() && k < |bufs| && b == bufs[k]
      modifies this`queue, b`fd
      ensures Valid() && queue == old(queue)[k := old(queue)[k].(fd := NO_FD)]
    {
      b.fd := NO_FD;
      queue := queue[k := queue[k].(fd := NO_FD)];
    }

    /** msgbuf_write: offer the gathered data to the socket once, with at most one descriptor, and
        drain what it took. 1 means n bytes went out, 0 and -1 that none did. */
    method Write(pipe: Pipe) returns (r: int, ghost n: nat)
      requires Valid() && pipe !in Repr
      modifies Repr, pipe
      ensures Valid() && Repr == old(Repr)
      ensures r == 1 || r == 0 || r == -1
      ensures r != 1 ==> queue == old(queue) && pipe.cells == old(pipe.cells) && closed == old(closed)
      ensures r == 1 ==> Wrote(old(queue), old(pipe.cells), n, queue, pipe.cells) && closed == old(closed)
      ensures pipe.unsent == old(pipe.unsent) + (if r == 1 then 0 else 1) && pipe.unread == old(pipe.unread)
    {
      hide Drain, Dropped, Offered, OfferedFd, ClearFd, Marked;
      n := 0;
      var data, last, k := Gather();
      var sent := pipe.SendMsg(data, if last == null then NO_FD else last.fd);
      if sent <= 0 {
        return sent, 0;
      }
      n := sent;
      WriteDrains(queue, n);
      if last != null && last.fd != NO_FD {
        Passed(last, k);
      }
      assert queue == ClearFd(old(queue), IOV_MAX);
      DrainBytes(sent);
      r := 1;
    }

    /** msgbuf_clear. */
    method Clear()
      requires Valid()
      modifies this
      ensures Valid() && Repr == old(Repr) && queue == []
    {
      while bufs != []
        invariant Valid() && Repr == old(Repr)
        decreases |bufs|
      {
        Dequeue();
      }
    }
  }
}
