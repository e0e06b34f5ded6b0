/** The imsg endpoint: composing into the write queue, and reading and framing from a fixed buffer (imsg.c). */
module Imsg {
  import opened Bytes
  import opened Frames
  import opened Wire
  import opened SendQueue
  import opened ImsgBuffer
  import opened Transport

  /** The header that imsg_close leaves on a message. */
  function ComposedHeader(typ: U32, peerid: U32, pid: U32, fd: int, datalen: nat): Header
    requires HEADER_SIZE + datalen <= MAX_IMSGSIZE
  {
    Header(typ, HEADER_SIZE + datalen, if fd == NO_FD then 0 else HASFD, peerid, pid)
  }

  // ---- imsg_composev's treatment of lengths ----

  function Concat(iov: seq<seq<Byte>>): seq<Byte> {
    if iov == [] then [] else iov[0] + Concat(iov[1..])
  }

  /** What imsg_add keeps of each piece: its length argument is 16 bits wide. */
  function Truncated(iov: seq<seq<Byte>>): (r: seq<seq<Byte>>)
    ensures |r| == |iov|
  {
    seq(|iov|, i requires 0 <= i < |iov| => iov[i][..|iov[i]| % 0x1_0000])
  }

  /** The length check of imsg_create, on a 16-bit sum, and the bound of the buffer. */
  predicate AcceptsV(iov: seq<seq<Byte>>) {
    (HEADER_SIZE + |Concat(iov)|) % 0x1_0000 <= MAX_IMSGSIZE && HEADER_SIZE + |Concat(Truncated(iov))| <= MAX_IMSGSIZE
  }

  ghost predicate AllShort(iov: seq<seq<Byte>>) {
    forall i :: 0 <= i < |iov| ==> |iov[i]| < 0x1_0000
  }

  lemma {:induction false} TruncatedTail(iov: seq<seq<Byte>>)
    requires iov != []
    ensures Concat(Truncated(iov)) == iov[0][..|iov[0]| % 0x1_0000] + Concat(Truncated(iov[1..]))
  {
    assert Truncated(iov)[1..] == Truncated(iov[1..]);
  }

  lemma {:induction false} TruncationLoses(iov: seq<seq<Byte>>)
    ensures |Concat(Truncated(iov))| <= |Concat(iov)|
    ensures AllShort(iov) <==> Concat(Truncated(iov)) == Concat(iov)
    ensures AllShort(iov) <==> |Concat(Truncated(iov))| == |Concat(iov)|
  {
    if iov != [] {
      TruncatedTail(iov);
      TruncationLoses(iov[1..]);
      assert AllShort(iov) <==> |iov[0]| < 0x1_0000 && AllShort(iov[1..]) by {
        assert forall i :: 0 <= i < |iov| - 1 ==> iov[1..][i] == iov[i + 1];
        assert forall i :: 1 <= i < |iov| ==> iov[i] == iov[1..][i - 1];
      }
      assert |iov[0]| % 0x1_0000 == |iov[0]| <==> |iov[0]| < 0x1_0000;
    }
  }

  /** Exactly when imsg_composev sends what it was given: a message that is accepted carries all the
      pieces if and only if no single piece is 65536 bytes or longer; and with such pieces only, it is
      accepted if and only if the total fits one message. */
  lemma {:induction false} ComposevFaithful(iov: seq<seq<Byte>>)
    ensures Concat(Truncated(iov)) == Concat(iov) <==> AllShort(iov)
    ensures AllShort(iov) ==> (AcceptsV(iov) <==> |Concat(iov)| <= MAX_IMSGSIZE - HEADER_SIZE)
  {
    TruncationLoses(iov);
  }

  /** A piece that is too long by a multiple of 65536 is accepted and silently cut. */
  lemma {:induction false} ComposevCutsLongPiece(piece: seq<Byte>)
    requires |piece| == 0x1_0000
    ensures AcceptsV([piece]) && Concat(Truncated([piece])) == [] && Concat([piece]) == piece
  {
    assert [piece][1..] == [];
    TruncatedTail([piece]);
    assert Truncated([piece][1..]) == [];
  }

  /** The flag field of a header just created reads back as zero. */
  lemma {:induction false} FlagsOf(hdr: Header, data: seq<Byte>)
    requires hdr.flags == 0
    ensures FromLe((EncodeHeader(hdr) + data)[6..8]) == 0
  {
    Widths();
    LeDecodes(0, 2);
    assert (EncodeHeader(hdr) + data)[6..8] == Le(0, 2);
  }

  /** Overwriting the two fields yields the frame with the completed header. */
  lemma {:induction false} Patched(hdr: Header, data: seq<Byte>, after: seq<Byte>, len: U16, flags: U16)
    requires len == HEADER_SIZE + |data| == |after|
    requires after[4..6] == Le(len, 2) && after[6..8] == Le(flags, 2)
    requires forall i :: 0 <= i < len && !(4 <= i < 8) ==> after[i] == (EncodeHeader(hdr) + data)[i]
    ensures after == Frame(Message(hdr.(len := len, flags := flags), data))
  {
    var before, frame := EncodeHeader(hdr) + data, Frame(Message(hdr.(len := len, flags := flags), data));
    forall i | 0 <= i < len ensures after[i] == frame[i] {
      if 4 <= i < 6 {
        assert after[i] == after[4..6][i - 4];
      } else if 6 <= i < 8 {
        assert after[i] == after[6..8][i - 6];
      }
    }
  }

  /** struct imsgbuf: one endpoint, with its write queue, its read buffer and the descriptors received. */
  class ImsgBuf {
    const w: MsgBuf
    const rbuf: array<Byte>
    const pid: U32
    var wpos: nat
    var fds: seq<int>

    ghost predicate Valid()
      reads this, w, w.Repr
    {
      && w.Valid() && this !in w.Repr && rbuf !in w.Repr
      && rbuf.Length == IBUF_READ_SIZE && wpos <= IBUF_READ_SIZE
    }

    ghost function Repr(): set<object>
      reads w
    {
      {this, rbuf, w} + w.Repr
    }

    /** The bytes received and not yet taken by the framer. */
    ghost function Buffered(): seq<Byte>
      requires Valid()
      reads this, rbuf, w, w.Repr
    {
      rbuf[..wpos]
    }

    /** imsg_init. */
    constructor (pid: U32)
      ensures Valid() && fresh(Repr())
      ensures Buffered() == [] && fds == [] && w.queue == [] && this.pid == pid
    {
      this.pid := pid;
      w := new MsgBuf();
      rbuf := new Byte[IBUF_READ_SIZE];
      wpos, fds := 0, [];
    }

    // ---- Receiving ----

    /** imsg_read: one recvmsg into the free part of the buffer. */
    method Read(pipe: Pipe) returns (n: int)
      requires Valid() && pipe !in Repr()
      modifies this`wpos, this`fds, rbuf, pipe
      ensures Valid() && w.queue == old(w.queue)
      ensures -1 <= n <= IBUF_READ_SIZE - old(wpos) && n <= |old(pipe.cells)|
      ensures n == 0 ==> old(wpos) == IBUF_READ_SIZE || old(pipe.cells) == []
      ensures n <= 0 ==> pipe.cells == old(pipe.cells) && Buffered() == old(Buffered()) && fds == old(fds)
      ensures n > 0 ==> Received(old(pipe.cells), old(Buffered()), old(fds), n, pipe.cells, Buffered(), fds)
      ensures pipe.unread == old(pipe.unread) + (if n < 0 then 1 else 0) && pipe.unsent == old(pipe.unsent)
    {
      var data, passed;
      n, data, passed := pipe.RecvMsg(rbuf.Length - wpos);
      if n > 0 {
        wpos := Append(rbuf, wpos, data, Buffered());
        if passed != [] {
          fds := fds + [passed[0]];
        }
      }
    }

    /** imsg_get_fd. */
    method GetFd() returns (fd: int)
      modifies this`fds
      ensures fd == if old(fds) == [] then NO_FD else old(fds)[0]
      ensures fds == if old(fds) == [] then [] else old(fds)[1..]
    {
      if fds == [] {
        return NO_FD;
      }
      fd := fds[0];
      fds := fds[1..];
    }

    /** The end of imsg_get: drop the message just taken and move what follows it to the front. */
    method Compact(len: nat)
      requires Valid() && len <= wpos
      modifies this`wpos, rbuf
      ensures Valid() && Buffered() == old(Buffered())[len..]
    {
      if len < wpos {
        var left := wpos - len;
        forall i | 0 <= i < left {
          rbuf[i] := rbuf[len + i];
        }
        wpos := left;
      } else {
        wpos := 0;
      }
    }

    /** imsg_get: take the first complete message, and move the rest of the buffer to its front. */
    method Get() returns (r: int, msg: Message, fd: int)
      requires Valid()
      modifies this`wpos, this`fds, rbuf
      ensures Valid() && w.queue == old(w.queue)
      ensures r <= 0 ==> Buffered() == old(Buffered()) && fds == old(fds)
      ensures match Next(old(Buffered()))
              case NeedMore => r == 0
              case BadLength => r == -1
              case Got(m, rest) =>
                r == m.hdr.len && Took(old(Buffered()), old(fds), Item(msg, fd), Buffered(), fds)
    {
      msg, fd := Message(Header(0, 0, 0, 0, 0), []), NO_FD;
      var av := wpos;
      if HEADER_SIZE > av {
        return 0, msg, fd;
      }
      ghost var before := Buffered();
      var hdr := DecodeHeader(rbuf[..HEADER_SIZE]);
      assert rbuf[..HEADER_SIZE] == before[..HEADER_SIZE];
      if hdr.len < HEADER_SIZE || hdr.len > MAX_IMSGSIZE {
        return -1, msg, fd;
      }
      if hdr.len > av {
        return 0, msg, fd;
      }
      var datalen := hdr.len - HEADER_SIZE;
      if hdr.flags % 2 == HASFD {
        fd := GetFd();
      }
      msg := Message(hdr, rbuf[HEADER_SIZE..HEADER_SIZE + datalen]);
      assert msg.data == before[HEADER_SIZE..hdr.len];
      Compact(hdr.len);
      r := datalen + HEADER_SIZE;
    }

    // ---- Sending ----

    /** imsg_create: a buffer that holds the header. Its length field is not set yet. */
    method Create(typ: U32, peerid: U32, pid0: U32, datalen0: U16) returns (wbuf: IBuf?, ghost hdr: Header)
      requires Valid()
      ensures wbuf == null <==> (16 + datalen0) % 0x1_0000 > 16384
      ensures wbuf != null ==>
                && wbuf.Valid() && fresh(wbuf) && fresh(wbuf.buf)
                && wbuf.rpos == 0 && wbuf.fd == NO_FD && wbuf.max == MAX_IMSGSIZE
                && wbuf.Written() == EncodeHeader(hdr)
                && hdr.typ == typ && hdr.flags == 0 && hdr.peerid == peerid
                && hdr.pid == (if pid0 == 0 then pid else pid0)
    {
      var datalen: U16 := (datalen0 + HEADER_SIZE) % 0x1_0000;
      var uninitialised: U16 :| true;
      var h := Header(typ, uninitialised, 0, peerid, if pid0 == 0 then pid else pid0);
      hdr := h;
      if datalen > MAX_IMSGSIZE {
        return null, hdr;
      }
      wbuf := IBuf.Dynamic(datalen, MAX_IMSGSIZE);
      var r := wbuf.Add(EncodeHeader(h));
    }

    /** Overwrite the two fields of the header that imsg_close sets. */
    static method Patch(buf: array<Byte>, len: seq<Byte>, flags: seq<Byte>)
      requires buf.Length >= 8 && |len| == |flags| == 2
      modifies buf
      ensures buf[4..6] == len && buf[6..8] == flags
      ensures forall i :: 0 <= i < buf.Length && !(4 <= i < 8) ==> buf[i] == old(buf[i])
    {
      buf[4], buf[5], buf[6], buf[7] := len[0], len[1], flags[0], flags[1];
    }

    /** The in-place edit of imsg_close: the length, and the descriptor flag. */
    static method Seal(b: IBuf, ghost hdr: Header, ghost data: seq<Byte>)
      requires b.Valid() && b.wpos <= MAX_IMSGSIZE && hdr.flags == 0
      requires b.Written() == EncodeHeader(hdr) + data
      modifies b.buf
      ensures b.Valid()
      ensures b.Written() == Frame(Message(ComposedHeader(hdr.typ, hdr.peerid, hdr.pid, b.fd, |data|), data))
    {
      ghost var before := b.Written();
      FlagsOf(hdr, data);
      assert |before| >= HEADER_SIZE;
      hide EncodeHeader, Le, FromLe, Frame;
      SliceOfTake(b.buf[..], b.wpos, 6, 8);
      assert b.buf[6..8] == b.buf[..][6..8] == before[6..8];
      var flags: U16 := FromLe(b.buf[6..8]);
      flags := flags - flags % 2;
      if b.fd != NO_FD {
        flags := flags + HASFD;
      }
      var len: U16 := b.wpos;
      Patch(b.buf, Le(len, 2), Le(flags, 2));
      ghost var after := b.Written();
      SliceOfTake(b.buf[..], b.wpos, 4, 6);
      SliceOfTake(b.buf[..], b.wpos, 6, 8);
      assert after[4..6] == b.buf[..][4..6] == b.buf[4..6] && after[6..8] == b.buf[..][6..8] == b.buf[6..8];
      assert forall i :: 0 <= i < len && !(4 <= i < 8) ==> after[i] == before[i];
      Patched(hdr, data, after, len, flags);
    }

    /** imsg_close: complete the header and queue the buffer. */
    method Close(b: IBuf, ghost hdr: Header, ghost data: seq<Byte>)
      requires Valid() && b.Valid() && {b, b.buf} !! Repr()
      requires b.rpos == 0 && b.wpos <= MAX_IMSGSIZE && hdr.flags == 0
      requires b.Written() == EncodeHeader(hdr) + data
      modifies w, b.buf
      ensures Valid() && w.Repr == old(w.Repr) + {b, b.buf} && w.closed == old(w.closed)
      ensures Buffered() == old(Buffered())
      ensures w.queue == old(w.queue)
                         + [Pending(Frame(Message(ComposedHeader(hdr.typ, hdr.peerid, hdr.pid, b.fd, |data|), data)), b.fd)]
    {
      Seal(b, hdr, data);
      assert b.buf[0..b.wpos] == b.Written();
      w.Enqueue(b);
    }

    /** imsg_compose: succeeds exactly when header and data fit the largest message, although the
        length check in imsg_create is made on a sum that wraps at 16 bits; a refused message leaves
        the queue as it was. */
    method Compose(typ: U32, peerid: U32, pid0: U32, fd: int, data: seq<Byte>) returns (r: int)
      requires Valid() && |data| < 0x1_0000
      modifies w
      ensures Valid() && fresh(w.Repr - old(w.Repr)) && w.closed == old(w.closed)
      ensures Buffered() == old(Buffered())
      ensures r == 1 || r == -1
      ensures r == 1 <==> |data| <= 16384 - 16
      ensures r == 1 ==>
                var pid' := if pid0 == 0 then pid else pid0;
                var msg := Message(ComposedHeader(typ, peerid, pid', fd, |data|), data);
                Queued(old(w.queue), Item(msg, fd), w.queue)
      ensures r == -1 ==> w.queue == old(w.queue)
    {
      var wbuf, hdr := Create(typ, peerid, pid0, |data|);
      if wbuf == null {
        return -1;
      }
      if |data| != 0 {
        var a := wbuf.Add(data);
        if a == -1 {
          return -1;
        }
      }
      wbuf.fd := fd;
      assert wbuf.Written() == EncodeHeader(hdr) + data;
      Close(wbuf, hdr, data);
      r := 1;
    }

    /** The loop of imsg_composev that adds the pieces one by one. */
    static method AddAll(wbuf: IBuf, iov: seq<seq<Byte>>) returns (r: int)
      requires wbuf.Valid()
      modifies wbuf, wbuf.buf
      ensures wbuf.Valid() && wbuf.rpos == old(wbuf.rpos) && wbuf.max == old(wbuf.max)
      ensures wbuf.buf == old(wbuf.buf) || fresh(wbuf.buf)
      ensures r == if old(wbuf.wpos) + |Concat(Truncated(iov))| <= old(wbuf.max) then 0 else -1
      ensures r == 0 ==> wbuf.Written() == old(wbuf.Written()) + Concat(Truncated(iov))
    {
      ghost var all, done := Concat(Truncated(iov)), [];
      assert iov[0..] == iov;
      for i := 0 to |iov|
        invariant wbuf.Valid() && wbuf.rpos == old(wbuf.rpos) && wbuf.max == old(wbuf.max)
        invariant wbuf.buf == old(wbuf.buf) || fresh(wbuf.buf)
        invariant wbuf.Written() == old(wbuf.Written()) + done
        invariant done + Concat(Truncated(iov[i..])) == all
      {
        TruncatedTail(iov[i..]);
        assert iov[i..][1..] == iov[i + 1..] && iov[i..][0] == iov[i];
        var len := |iov[i]| % 0x1_0000;
        var piece := iov[i][..len];
        Assoc(done, piece, Concat(Truncated(iov[i + 1..])));
        Assoc(old(wbuf.Written()), done, piece);
        done := done + piece;
        if len != 0 {
          r := wbuf.Add(piece);
          if r == -1 {
            return;
          }
        }
      }
      r := 0;
    }

    /** imsg_composev. */
    method Composev(typ: U32, peerid: U32, pid0: U32, fd: int, iov: seq<seq<Byte>>) returns (r: int)
      requires Valid()
      modifies w
      ensures Valid() && fresh(w.Repr - old(w.Repr)) && w.closed == old(w.closed)
      ensures r == 1 || r == -1
      ensures r == 1 <==> (16 + |Concat(iov)|) % 0x1_0000 <= 16384 && 16 + |Concat(Truncated(iov))| <= 16384
      ensures r == 1 ==>
                var pid' := if pid0 == 0 then pid else pid0;
                var data := Concat(Truncated(iov));
                var msg := Message(ComposedHeader(typ, peerid, pid', fd, |data|), data);
                Queued(old(w.queue), Item(msg, fd), w.queue)
      ensures r == -1 ==> w.queue == old(w.queue)
    {
      hide Le, EncodeHeader, Truncated, Frame, MsgBuf.Valid;
      var datalen := 0;
      assert iov[0..] == iov;
      for i := 0 to |iov|
        invariant datalen + |Concat(iov[i..])| == |Concat(iov)|
      {
        assert iov[i..][1..] == iov[i + 1..];
        datalen := datalen + |iov[i]|;
      }
      var wbuf, hdr := Create(typ, peerid, pid0, datalen % 0x1_0000);
      if wbuf == null {
        return -1;
      }
      var a := AddAll(wbuf, iov);
      if a == -1 {
        return -1;
      }
      wbuf.fd := fd;
      Close(wbuf, hdr, Concat(Truncated(iov)));
      r := 1;
    }

    /** imsg_flush: write until the queue is empty or a write fails, and only a write that sends nothing
        makes it give up. Every round sends at least one byte, so it ends; and whatever happens, sent and
        pending bytes and descriptors together stay what they were, and no descriptor is closed unsent. */
    method Flush(pipe: Pipe) returns (r: int)
      requires Valid() && pipe !in Repr()
      modifies w.Repr, pipe
      ensures Valid() && w.Repr == old(w.Repr) && w.closed == old(w.closed)
      ensures Buffered() == old(Buffered())
      ensures r == 0 || r == -1
      ensures r == 0 <==> w.queue == []
      ensures r == 0 <==> pipe.unsent == old(pipe.unsent)
      ensures pipe.unread == old(pipe.unread)
      ensures BytesOf(pipe.cells) + Flat(w.queue) == old(BytesOf(pipe.cells) + Flat(w.queue))
      ensures Marks(pipe.cells) + Marks(QueueCells(w.queue)) == old(Marks(pipe.cells) + Marks(QueueCells(w.queue)))
    {
      while w.queued != 0
        invariant Valid() && w.Repr == old(w.Repr) && w.closed == old(w.closed)
        invariant Buffered() == old(Buffered())
        invariant pipe.unsent == old(pipe.unsent) && pipe.unread == old(pipe.unread)
        invariant BytesOf(pipe.cells) + Flat(w.queue) == old(BytesOf(pipe.cells) + Flat(w.queue))
        invariant Marks(pipe.cells) + Marks(QueueCells(w.queue)) == old(Marks(pipe.cells) + Marks(QueueCells(w.queue)))
        decreases |Flat(w.queue)|
      {
        ghost var q, cells := w.queue, pipe.cells;
        var sent, n := w.Write(pipe);
        if sent <= 0 {
          return -1;
        }
        WriteKeepsStream(cells, q, n);
      }
      r := 0;
    }
  }

  lemma {:induction false} WriteKeepsStream(cells: seq<Cell>, q: seq<Pending>, n: nat)
    requires NonEmpty(q) && 0 < n <= |Offered(q, IOV_MAX)|
    ensures var cells', q' := cells + Sent(q, n), AfterWrite(q, n);
            && BytesOf(cells') + Flat(q') == BytesOf(cells) + Flat(q)
            && Marks(cells') + Marks(QueueCells(q')) == Marks(cells) + Marks(QueueCells(q))
            && |Flat(q')| < |Flat(q)|
  {
    var cells', q' := cells + Sent(q, n), AfterWrite(q, n);
    WriteFlight(cells, q, n);
    BytesOfAppend(cells', QueueCells(q'));
    BytesOfAppend(cells, QueueCells(q));
    MarksAppend(cells', QueueCells(q'));
    MarksAppend(cells, QueueCells(q));
  }
}
