/** The write queue as a value: what each queued buffer still has to send. */
module SendQueue {
  import opened Bytes
  import opened Wire

  const IOV_MAX: nat := 1024

  /** A queued buffer: the bytes between rpos and wpos, and the descriptor not yet passed. */
  datatype Pending = Pending(bytes: seq<Byte>, fd: int)

  ghost predicate NonEmpty(q: seq<Pending>) {
    forall i :: 0 <= i < |q| ==> q[i].bytes != []
  }

  function Flat(q: seq<Pending>): seq<Byte> {
    if q == [] then [] else q[0].bytes + Flat(q[1..])
  }

  /** The queue seen as cells that are still to come: a descriptor waits at the first unsent byte
      of its buffer. */
  function QueueCells(q: seq<Pending>): (cells: seq<Cell>)
    ensures BytesOf(cells) == Flat(q)
  {
    if q == [] then []
    else
      BytesOfAppend(Marked(q[0].bytes, q[0].fd), QueueCells(q[1..]));
      Marked(q[0].bytes, q[0].fd) + QueueCells(q[1..])
  }

  lemma {:induction false} QueueCellsAppend(a: seq<Pending>, b: seq<Pending>)
    ensures QueueCells(a + b) == QueueCells(a) + QueueCells(b)
    ensures Flat(a + b) == Flat(a) + Flat(b)
  {
    if a == [] {
      assert a + b == b;
    } else {
      HeadTail(a, b);
      QueueCellsAppend(a[1..], b);
      Assoc(Marked(a[0].bytes, a[0].fd), QueueCells(a[1..]), QueueCells(b));
      Assoc(a[0].bytes, Flat(a[1..]), Flat(b));
    }
  }

  /** msgbuf_drain: drop n bytes from the front of the queue. */
  function Drain(q: seq<Pending>, n: nat): seq<Pending> {
    if n == 0 || q == [] then q
    else if n >= |q[0].bytes| then Drain(q[1..], n - |q[0].bytes|)
    else [Pending(q[0].bytes[n..], q[0].fd)] + q[1..]
  }

  /** The descriptors that draining n bytes closes without having passed them. */
  function Dropped(q: seq<Pending>, n: nat): seq<int> {
    if n == 0 || q == [] || n < |q[0].bytes| then []
    else (if q[0].fd == NO_FD then [] else [q[0].fd]) + Dropped(q[1..], n - |q[0].bytes|)
  }

  /** What one sendmsg offers: the data of the first `slots` buffers, but not beyond the first one
      that carries a descriptor. */
  function Offered(q: seq<Pending>, slots: nat): seq<Byte> {
    if q == [] || slots == 0 then []
    else if q[0].fd != NO_FD then q[0].bytes
    else q[0].bytes + Offered(q[1..], slots - 1)
  }

  /** The descriptor that goes with it. When all slots are taken by plain buffers, the scan stops
      on the next buffer, so that one's descriptor is passed although its data is not offered. */
  function OfferedFd(q: seq<Pending>, slots: nat): int {
    if q == [] then NO_FD
    else if q[0].fd != NO_FD || slots == 0 then q[0].fd
    else OfferedFd(q[1..], slots - 1)
  }

  /** The queue once that descriptor has been passed. */
  function ClearFd(q: seq<Pending>, slots: nat): (r: seq<Pending>)
    ensures |r| == |q|
    ensures forall i :: 0 <= i < |q| ==> r[i].bytes == q[i].bytes
  {
    if q == [] then q
    else if q[0].fd != NO_FD || slots == 0 then [q[0].(fd := NO_FD)] + q[1..]
    else [q[0]] + ClearFd(q[1..], slots - 1)
  }

  /** The queue after a sendmsg that took n bytes. */
  function AfterWrite(q: seq<Pending>, n: nat): seq<Pending> {
    Drain(ClearFd(q, IOV_MAX), n)
  }

  lemma {:induction false} FlatDrain(q: seq<Pending>, n: nat)
    requires n <= |Flat(q)|
    ensures Flat(Drain(q, n)) == Flat(q)[n..]
  {
    if n > 0 && q != [] {
      var head, tail := q[0].bytes, Flat(q[1..]);
      if n >= |head| {
        FlatDrain(q[1..], n - |head|);
        CutBehind(head, tail, n - |head|);
      } else {
        CutInside(head, tail, n);
        assert ([Pending(head[n..], q[0].fd)] + q[1..])[1..] == q[1..];
      }
    }
  }

  lemma {:induction false} DrainKeepsNonEmpty(q: seq<Pending>, n: nat)
    requires NonEmpty(q)
    ensures NonEmpty(Drain(q, n))
  {
    if n > 0 && q != [] && n >= |q[0].bytes| {
      DrainKeepsNonEmpty(q[1..], n - |q[0].bytes|);
    }
  }

  /** Draining part of the first buffer only. */
  lemma {:induction false} DrainHead(q: seq<Pending>, n: nat)
    requires q != [] && 0 < n < |q[0].bytes| && Plain(QueueCells(q)[..n])
    ensures QueueCells(Drain(q, n)) == QueueCells(q)[n..] && Dropped(q, n) == []
  {
    var head, tail := Marked(q[0].bytes, q[0].fd), QueueCells(q[1..]);
    CutInside(head, tail, n);
    MarkedParts(q[0].bytes, q[0].fd, n);
    assert head[..n][0].fd == NO_FD;
    assert ([Pending(q[0].bytes[n..], q[0].fd)] + q[1..])[1..] == q[1..];
  }

  lemma {:induction false} HeadPlain(p: Pending)
    requires p.bytes != [] && Plain(Marked(p.bytes, p.fd))
    ensures p.fd == NO_FD
  {
    MarkedParts(p.bytes, p.fd, 0);
    assert Marked(p.bytes, p.fd)[0].fd == NO_FD;
  }

  /** Draining the first buffer and k bytes more. */
  lemma {:induction false} DrainPast(q: seq<Pending>, k: nat)
    requires q != [] && q[0].bytes != [] && k <= |QueueCells(q[1..])|
    requires Plain(QueueCells(q)[..|q[0].bytes| + k])
    ensures Plain(QueueCells(q[1..])[..k]) && q[0].fd == NO_FD
    ensures QueueCells(q)[|q[0].bytes| + k..] == QueueCells(q[1..])[k..]
  {
    var head, tail := Marked(q[0].bytes, q[0].fd), QueueCells(q[1..]);
    assert QueueCells(q) == head + tail;
    hide QueueCells, Marked, Plain;
    CutBehind(head, tail, k);
    PlainParts(head, tail[..k]);
    HeadPlain(q[0]);
  }

  /** Draining bytes that carry no descriptor leaves the remaining cells as they were, and closes
      nothing. */
  lemma {:induction false} DrainCells(q: seq<Pending>, n: nat)
    requires NonEmpty(q) && n <= |QueueCells(q)| && Plain(QueueCells(q)[..n])
    ensures QueueCells(Drain(q, n)) == QueueCells(q)[n..]
    ensures Dropped(q, n) == []
  {
    if n > 0 && q != [] {
      assert |QueueCells(q)| == |q[0].bytes| + |QueueCells(q[1..])|;
      hide Plain, QueueCells, Marked;
      if n < |q[0].bytes| {
        DrainHead(q, n);
      } else {
        DrainPast(q, n - |q[0].bytes|);
        DrainCells(q[1..], n - |q[0].bytes|);
      }
    }
  }

  /** What is offered is the front of the queue, and passing a descriptor touches no data. */
  lemma {:induction false} OfferedIsFront(q: seq<Pending>, slots: nat)
    ensures Offered(q, slots) <= Flat(q)
    ensures Flat(ClearFd(q, slots)) == Flat(q)
  {
    if q != [] {
      assert ClearFd(q, slots)[1..] == if q[0].fd != NO_FD || slots == 0 then q[1..] else ClearFd(q[1..], slots - 1);
      if q[0].fd == NO_FD && slots > 0 {
        OfferedIsFront(q[1..], slots - 1);
      }
    }
  }

  /** Once the offered descriptor is passed, nothing in the offered data carries one. */
  lemma {:induction false} OfferedIsPlain(q: seq<Pending>, slots: nat)
    ensures |Offered(q, slots)| <= |QueueCells(ClearFd(q, slots))|
    ensures Plain(QueueCells(ClearFd(q, slots))[..|Offered(q, slots)|])
  {
    if q != [] && slots > 0 {
      var head, rest := Marked(q[0].bytes, NO_FD), QueueCells(ClearFd(q, slots)[1..]);
      MarkedParts(q[0].bytes, NO_FD, 0);
      if q[0].fd != NO_FD {
        CutBehind(head, rest, 0);
        assert head + rest[..0] == head;
      } else {
        OfferedIsPlain(q[1..], slots - 1);
        var k := |Offered(q[1..], slots - 1)|;
        assert ClearFd(q, slots)[1..] == ClearFd(q[1..], slots - 1);
        CutBehind(head, rest, k);
        PlainParts(head, rest[..k]);
      }
    }
  }

  /** The offered descriptor is the first one waiting; passing it leaves the others in order. */
  lemma {:induction false} OfferedFdIsFirst(q: seq<Pending>, slots: nat)
    requires NonEmpty(q)
    ensures OfferedFd(q, slots) == NO_FD ==> ClearFd(q, slots) == q
    ensures OfferedFd(q, slots) != NO_FD ==>
              Marks(QueueCells(q)) == [OfferedFd(q, slots)] + Marks(QueueCells(ClearFd(q, slots)))
  {
    hide QueueCells, Marks;
    if q != [] {
      var r := ClearFd(q, slots);
      MarksOfHead(q);
      MarksOfHead(r);
      if q[0].fd != NO_FD || slots == 0 {
        assert r[1..] == q[1..];
      } else {
        OfferedFdIsFirst(q[1..], slots - 1);
        assert r[1..] == ClearFd(q[1..], slots - 1);
      }
    }
  }

  lemma {:induction false} MarksOfHead(q: seq<Pending>)
    requires q != [] && q[0].bytes != []
    ensures Marks(QueueCells(q)) == (if q[0].fd == NO_FD then [] else [q[0].fd]) + Marks(QueueCells(q[1..]))
  {
    MarksAppend(Marked(q[0].bytes, q[0].fd), QueueCells(q[1..]));
    MarksOfMarked(q[0].bytes, q[0].fd);
  }

  /** What a write of n bytes turns the queue into: the bytes sent, and the queue that remains. */
  function Sent(q: seq<Pending>, n: nat): seq<Cell>
    requires n <= |Offered(q, IOV_MAX)|
  {
    Marked(Offered(q, IOV_MAX)[..n], OfferedFd(q, IOV_MAX))
  }

  /** One successful sendmsg of n bytes: how the queue and the socket change. */
  ghost predicate Wrote(q: seq<Pending>, cells: seq<Cell>, n: nat, q': seq<Pending>, cells': seq<Cell>) {
    && 0 < n <= |Offered(q, IOV_MAX)|
    && q' == AfterWrite(q, n)
    && cells' == cells + Sent(q, n)
  }

  /** After a write, the remaining queue is the old one without its first n bytes, and nothing was
      closed before it was passed. */
  lemma {:induction false} WriteDrains(q: seq<Pending>, n: nat)
    requires NonEmpty(q) && 0 < n <= |Offered(q, IOV_MAX)|
    ensures n <= |QueueCells(ClearFd(q, IOV_MAX))|
    ensures Plain(QueueCells(ClearFd(q, IOV_MAX))[..n])
    ensures QueueCells(AfterWrite(q, n)) == QueueCells(ClearFd(q, IOV_MAX))[n..]
    ensures NonEmpty(AfterWrite(q, n))
    ensures Dropped(ClearFd(q, IOV_MAX), n) == []
  {
    var r := ClearFd(q, IOV_MAX);
    OfferedIsPlain(q, IOV_MAX);
    var c0 := QueueCells(r);
    assert forall i :: 0 <= i < n ==> c0[..n][i] == c0[..|Offered(q, IOV_MAX)|][i];
    DrainCells(r, n);
    DrainKeepsNonEmpty(r, n);
  }

  lemma {:induction false} FlatSnoc(q: seq<Pending>, i: nat)
    requires i < |q|
    ensures Flat(q[..i + 1]) == Flat(q[..i]) + q[i].bytes
  {
    assert q[..i + 1] == q[..i] + [q[i]];
    QueueCellsAppend(q[..i], [q[i]]);
    assert Flat([q[i]]) == q[i].bytes + Flat([q[i]][1..]);
  }

  /** Where the scan for one sendmsg stops: at the end of the queue, at the slot limit, or on the
      first buffer with a descriptor. */
  ghost predicate Stops(q: seq<Pending>, slots: nat, k: nat) {
    && k <= |q| && k <= slots
    && (forall j :: 0 <= j < k ==> q[j].fd == NO_FD)
    && (k == |q| || k == slots || q[k].fd != NO_FD)
  }

  lemma {:induction false} StopsTail(q: seq<Pending>, slots: nat, k: nat)
    requires Stops(q, slots, k) && k > 0
    ensures slots > 0 && Stops(q[1..], slots - 1, k - 1)
  {
  }

  /** The data offered is that of the buffers scanned. */
  lemma {:induction false} ScanData(q: seq<Pending>, slots: nat, k: nat)
    requires Stops(q, slots, k)
    ensures Offered(q, slots) == if k == |q| || k == slots then Flat(q[..k]) else Flat(q[..k + 1])
  {
    if k == 0 {
      if q != [] && slots > 0 {
        FlatSnoc(q, 0);
      }
    } else {
      StopsTail(q, slots, k);
      ScanData(q[1..], slots - 1, k - 1);
      assert q[..k][1..] == q[1..][..k - 1];
      if k < |q| {
        assert q[..k + 1][1..] == q[1..][..k];
      }
    }
  }

  /** The descriptor offered is that of the buffer the scan stopped on, and only that one is cleared. */
  lemma {:induction false} ScanFd(q: seq<Pending>, slots: nat, k: nat)
    requires Stops(q, slots, k)
    ensures OfferedFd(q, slots) == if k == |q| then NO_FD else q[k].fd
    ensures ClearFd(q, slots) == if k == |q| then q else q[k := q[k].(fd := NO_FD)]
  {
    if k > 0 {
      StopsTail(q, slots, k);
      ScanFd(q[1..], slots - 1, k - 1);
      if k < |q| {
        UpdateTail(q, k, q[k].(fd := NO_FD));
      }
    }
  }
}
