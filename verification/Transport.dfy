/** Whole runs of one direction of an imsg connection: a composing sender, the socket, and a
    framing receiver, with arbitrary transfer sizes. */
module Transport {
  import opened Bytes
  import opened Frames
  import opened Wire
  import opened SendQueue

  /** A composed message with the descriptor passed to imsg_compose (NO_FD for none). */
  datatype Item = Item(msg: Message, fd: int) {
    predicate Valid() {
      msg.WellFormed() && (msg.HasFd() <==> fd != NO_FD)
    }
  }

  /** The state of one direction, with the history of what was composed and what was delivered. */
  datatype Link = Link(
    queue: seq<Pending>, wire: seq<Cell>, rbuf: seq<Byte>, rfds: seq<int>,
    composed: seq<Item>, got: seq<Item>)

  datatype Step = Compose(item: Item) | Write(w: nat) | Read(r: nat) | Get

  function Messages(items: seq<Item>): seq<Message> {
    if items == [] then [] else [items[0].msg] + Messages(items[1..])
  }

  function Fds(items: seq<Item>): seq<int> {
    if items == [] then []
    else (if items[0].fd == NO_FD then [] else [items[0].fd]) + Fds(items[1..])
  }

  // ---- The steps ----

  ghost predicate Init(l: Link) {
    l == Link([], [], [], [], [], [])
  }

  /** A message enters the queue. */
  ghost predicate Queued(queue: seq<Pending>, item: Item, queue': seq<Pending>) {
    item.Valid() && queue' == queue + [Pending(Frame(item.msg), item.fd)]
  }

  /** One successful recvmsg of n bytes. */
  ghost predicate Received(wire: seq<Cell>, rbuf: seq<Byte>, rfds: seq<int>, n: nat,
                           wire': seq<Cell>, rbuf': seq<Byte>, rfds': seq<int>) {
    && 0 < n <= |wire| && n <= IBUF_READ_SIZE - |rbuf|
    && |Marks(wire[..n])| <= 1
    && wire' == wire[n..] && rbuf' == rbuf + BytesOf(wire[..n]) && rfds' == rfds + Marks(wire[..n])
  }

  /** One message taken out of the receiver's buffer, with the descriptor it is given. */
  ghost predicate Took(rbuf: seq<Byte>, rfds: seq<int>, item: Item, rbuf': seq<Byte>, rfds': seq<int>) {
    && Next(rbuf) == Got(item.msg, rbuf')
    && var has := item.msg.HasFd() && rfds != [];
       && item.fd == (if has then rfds[0] else NO_FD)
       && rfds' == (if has then rfds[1..] else rfds)
  }

  ghost predicate NextStep(l: Link, s: Step, l': Link) {
    match s
    case Compose(item) =>
      && Queued(l.queue, item, l'.queue)
      && l' == l.(queue := l'.queue, composed := l.composed + [item])
    case Write(n) =>
      && Wrote(l.queue, l.wire, n, l'.queue, l'.wire)
      && l' == l.(queue := l'.queue, wire := l'.wire)
    case Read(n) =>
      && Received(l.wire, l.rbuf, l.rfds, n, l'.wire, l'.rbuf, l'.rfds)
      && l' == l.(wire := l'.wire, rbuf := l'.rbuf, rfds := l'.rfds)
    case Get =>
      && |l'.got| == |l.got| + 1
      && Took(l.rbuf, l.rfds, l'.got[|l.got|], l'.rbuf, l'.rfds)
      && l' == l.(rbuf := l'.rbuf, rfds := l'.rfds, got := l.got + [l'.got[|l.got|]])
  }

  ghost predicate Related(l: Link, l': Link) {
    exists s :: NextStep(l, s, l')
  }

  ghost predicate Run(trace: seq<Link>) {
    && trace != [] && Init(trace[0])
    && forall i :: 0 <= i < |trace| - 1 ==> Related(trace[i], trace[i + 1])
  }

  // ---- The invariant ----

  /** The cells from position x on; positions below zero lie in the receiver's buffer. */
  function From(cells: seq<Cell>, x: int): seq<Cell> {
    if x <= 0 then cells else if x <= |cells| then cells[x..] else []
  }

  /** Descriptors arrive in time: with the first outstanding frame starting at position x, the
      descriptors found beyond the end of a frame are at most those of the later messages. */
  ghost predicate InTime(x: int, cells: seq<Cell>, out: seq<Item>)
    decreases |out|
  {
    out == [] ||
    (var end := x + |Frame(out[0].msg)|;
     |Marks(From(cells, end))| <= |Fds(out[1..])| && InTime(end, cells, out[1..]))
  }

  function InFlight(l: Link): seq<Cell> {
    l.wire + QueueCells(l.queue)
  }

  ghost predicate AllValid(items: seq<Item>) {
    forall i :: 0 <= i < |items| ==> items[i].Valid()
  }

  /** What is in the receiver's hands and in flight is exactly what is still to be delivered. */
  ghost predicate Outstanding(rbuf: seq<Byte>, rfds: seq<int>, cells: seq<Cell>, out: seq<Item>) {
    && rbuf + BytesOf(cells) == FramesOf(Messages(out))
    && rfds + Marks(cells) == Fds(out)
    && InTime(-|rbuf|, cells, out)
  }

  ghost predicate Inv(l: Link) {
    && NonEmpty(l.queue)
    && AllValid(l.composed)
    && l.got <= l.composed
    && Outstanding(l.rbuf, l.rfds, InFlight(l), l.composed[|l.got|..])
  }

  lemma {:induction false} ItemsAppend(a: seq<Item>, b: seq<Item>)
    ensures Messages(a + b) == Messages(a) + Messages(b)
    ensures Fds(a + b) == Fds(a) + Fds(b)
  {
    if a == [] {
      assert a + b == b;
    } else {
      HeadTail(a, b);
      ItemsAppend(a[1..], b);
      Assoc([a[0].msg], Messages(a[1..]), Messages(b));
      Assoc(if a[0].fd == NO_FD then [] else [a[0].fd], Fds(a[1..]), Fds(b));
    }
  }

  lemma {:induction false} FromAppend(a: seq<Cell>, b: seq<Cell>, y: int)
    ensures Marks(From(a + b, y)) == (if y <= |a| then Marks(From(a, y)) else []) + Marks(From(b, y - |a|))
  {
    if y <= 0 {
      MarksAppend(a, b);
    } else if y <= |a| {
      MarksAppend(a[y..], b);
      assert (a + b)[y..] == a[y..] + b;
    } else if y <= |a + b| {
      assert (a + b)[y..] == b[y - |a|..];
    }
  }

  lemma {:induction false} FromRest(cells: seq<Cell>, n: nat, y: int)
    requires n <= |cells|
    ensures |Marks(From(cells[n..], y - n))| <= |Marks(From(cells, y))|
  {
    FromAppend(cells[..n], cells[n..], y);
    assert cells == cells[..n] + cells[n..];
  }

  /** Cells can be taken from the wire early: the later frames are not affected. */
  lemma {:induction false} InTimeRead(x: int, cells: seq<Cell>, out: seq<Item>, n: nat)
    requires InTime(x, cells, out) && n <= |cells|
    ensures InTime(x - n, cells[n..], out)
    decreases |out|
  {
    if out != [] {
      var end := x + |Frame(out[0].msg)|;
      InTimeRead(end, cells, out[1..], n);
      FromRest(cells, n, end);
    }
  }

  /** Descriptors can only move towards the front. */
  lemma {:induction false} InTimeWrite(x: int, cells: seq<Cell>, cells': seq<Cell>, out: seq<Item>)
    requires InTime(x, cells, out)
    requires forall y :: |Marks(From(cells', y))| <= |Marks(From(cells, y))|
    ensures InTime(x, cells', out)
    decreases |out|
  {
    if out != [] {
      InTimeWrite(x + |Frame(out[0].msg)|, cells, cells', out[1..]);
    }
  }

  /** Beyond the end of a frame in flight, a new message adds at most its own descriptor. */
  lemma {:induction false} ComposeBeyond(cells: seq<Cell>, end: int, later: seq<Item>, item: Item)
    requires end <= |cells| && |Marks(From(cells, end))| <= |Fds(later)|
    ensures |Marks(From(cells + Marked(Frame(item.msg), item.fd), end))| <= |Fds(later + [item])|
  {
    var added := Marked(Frame(item.msg), item.fd);
    FromAppend(cells, added, end);
    MarksOfMarked(Frame(item.msg), item.fd);
    ItemsAppend(later, [item]);
    assert Fds([item]) == Marks(added);
  }

  lemma {:induction false} FirstFrame(out: seq<Item>)
    requires out != []
    ensures FramesOf(Messages(out)) == Frame(out[0].msg) + FramesOf(Messages(out[1..]))
  {
    assert Messages(out)[1..] == Messages(out[1..]);
  }

  lemma {:induction false} NothingBeyond(cells: seq<Cell>, item: Item, end: int)
    requires end == |cells| + |Frame(item.msg)|
    ensures Marks(From(cells + Marked(Frame(item.msg), item.fd), end)) == []
  {
    assert From(cells + Marked(Frame(item.msg), item.fd), end) == [];
  }

  /** A new frame at the end brings at most its own descriptor. */
  lemma {:induction false} InTimeCompose(x: int, cells: seq<Cell>, out: seq<Item>, item: Item)
    requires InTime(x, cells, out)
    requires |cells| == x + |FramesOf(Messages(out))|
    ensures InTime(x, cells + Marked(Frame(item.msg), item.fd), out + [item])
    decreases |out|
  {
    hide Marked, Marks, From, Fds, Frame;
    if out == [] {
      assert FramesOf(Messages(out)) == [];
      NothingBeyond(cells, item, x + |Frame(item.msg)|);
      assert (out + [item])[1..] == [] && (out + [item])[0] == item;
    } else {
      FirstFrame(out);
      hide FramesOf, Messages;
      var end := x + |Frame(out[0].msg)|;
      HeadTail(out, [item]);
      InTimeCompose(end, cells, out[1..], item);
      ComposeBeyond(cells, end, out[1..], item);
      assert (out + [item])[0] == out[0];
    }
  }

  /** Fewer marks cell by cell means fewer marks in all. */
  lemma {:induction false} FewerMarks(a: seq<Cell>, b: seq<Cell>)
    requires |a| == |b| && forall i :: 0 <= i < |a| ==> a[i].fd == NO_FD || a[i].fd == b[i].fd
    ensures |Marks(a)| <= |Marks(b)|
  {
    if a != [] {
      FewerMarks(a[1..], b[1..]);
    }
  }

  /** Passing a descriptor never puts one where there was none. */
  lemma {:induction false} ClearFdOnlyClears(q: seq<Pending>, slots: nat)
    ensures var a, b := QueueCells(ClearFd(q, slots)), QueueCells(q);
            |a| == |b| && forall i :: 0 <= i < |a| ==> a[i].fd == NO_FD || a[i].fd == b[i].fd
  {
    if q != [] {
      var rest := if q[0].fd != NO_FD || slots == 0 then q[1..] else ClearFd(q[1..], slots - 1);
      assert ClearFd(q, slots)[1..] == rest && ClearFd(q, slots)[0].bytes == q[0].bytes;
      if q[0].fd == NO_FD && slots > 0 {
        ClearFdOnlyClears(q[1..], slots - 1);
      }
      MarkedOnlyClears(q[0].bytes, ClearFd(q, slots)[0].fd, q[0].fd, QueueCells(rest), QueueCells(q[1..]));
      hide Marked;
    }
  }

  lemma {:induction false} MarkedOnlyClears(s: seq<Byte>, fd: int, fd': int, a: seq<Cell>, b: seq<Cell>)
    requires fd == NO_FD || fd == fd'
    requires |a| == |b| && forall i :: 0 <= i < |a| ==> a[i].fd == NO_FD || a[i].fd == b[i].fd
    ensures var x, y := Marked(s, fd) + a, Marked(s, fd') + b;
            |x| == |y| && forall i :: 0 <= i < |x| ==> x[i].fd == NO_FD || x[i].fd == y[i].fd
  {
  }

  /** Write-queue conservation: bytes sent followed by bytes pending do not change. */
  lemma {:induction false} WriteConservesBytes(q: seq<Pending>, n: nat)
    requires NonEmpty(q) && 0 < n <= |Offered(q, IOV_MAX)|
    ensures BytesOf(Sent(q, n) + QueueCells(AfterWrite(q, n))) == Flat(q)
  {
    OfferedIsFront(q, IOV_MAX);
    FlatDrain(ClearFd(q, IOV_MAX), n);
    BytesOfAppend(Sent(q, n), QueueCells(AfterWrite(q, n)));
    hide Offered, OfferedFd, ClearFd, Drain, Flat, QueueCells, NonEmpty, Marked;
    Rejoin(Flat(q), n);
    TakeOfPrefix(Offered(q, IOV_MAX), Flat(q), n);
  }

  lemma {:induction false} TakeOfPrefix<T>(a: seq<T>, b: seq<T>, n: nat)
    requires a <= b && n <= |a|
    ensures a[..n] == b[..n]
  {
  }

  /** And neither does the sequence of descriptors sent and pending. */
  lemma {:induction false} WriteConservesFds(q: seq<Pending>, n: nat)
    requires NonEmpty(q) && 0 < n <= |Offered(q, IOV_MAX)|
    ensures Marks(Sent(q, n) + QueueCells(AfterWrite(q, n))) == Marks(QueueCells(q))
  {
    WriteDrains(q, n);
    OfferedFdIsFirst(q, IOV_MAX);
    MarksBehindPlain(QueueCells(ClearFd(q, IOV_MAX)), n);
    MarksAppend(Sent(q, n), QueueCells(AfterWrite(q, n)));
    MarksOfMarked(Offered(q, IOV_MAX)[..n], OfferedFd(q, IOV_MAX));
  }

  lemma {:induction false} MarksBehindPlain(cells: seq<Cell>, n: nat)
    requires n <= |cells| && Plain(cells[..n])
    ensures Marks(cells) == Marks(cells[n..])
  {
    MarksAppend(cells[..n], cells[n..]);
    PlainHasNoMarks(cells[..n]);
    assert cells == cells[..n] + cells[n..];
  }

  /** Descriptors only move towards the front: beyond any position there are never more. */
  lemma {:induction false} WriteMovesFdsForward(q: seq<Pending>, n: nat, y: int)
    requires NonEmpty(q) && 0 < n <= |Offered(q, IOV_MAX)|
    ensures |Marks(From(Sent(q, n) + QueueCells(AfterWrite(q, n)), y))| <= |Marks(From(QueueCells(q), y))|
  {
    WriteDrains(q, n);
    WriteConservesFds(q, n);
    ClearFdOnlyClears(q, IOV_MAX);
    var sent, c := Sent(q, n) + QueueCells(AfterWrite(q, n)), QueueCells(q);
    assert |sent| == |c| && forall i :: 1 <= i < |sent| ==> sent[i].fd == NO_FD || sent[i].fd == c[i].fd;
    if 0 < y <= |sent| {
      FewerMarks(sent[y..], c[y..]);
    }
  }

  // ---- Preservation, step by step ----

  lemma {:induction false} ComposeCells(wire: seq<Cell>, q: seq<Pending>, item: Item)
    ensures var added := Marked(Frame(item.msg), item.fd);
            && wire + QueueCells(q + [Pending(Frame(item.msg), item.fd)]) == (wire + QueueCells(q)) + added
            && Marks(added) == Fds([item])
            && BytesOf(added) == FramesOf(Messages([item]))
  {
    var p := Pending(Frame(item.msg), item.fd);
    QueueCellsAppend(q, [p]);
    assert QueueCells([p]) == Marked(p.bytes, p.fd);
    MarksOfMarked(p.bytes, p.fd);
    Assoc(wire, QueueCells(q), Marked(p.bytes, p.fd));
  }

  lemma {:induction false} ComposeFlight(rbuf: seq<Byte>, rfds: seq<int>, cells: seq<Cell>, out: seq<Item>, item: Item)
    requires Outstanding(rbuf, rfds, cells, out)
    ensures Outstanding(rbuf, rfds, cells + Marked(Frame(item.msg), item.fd), out + [item])
  {
    var added := Marked(Frame(item.msg), item.fd);
    ComposeCells([], [], item);
    ItemsAppend(out, [item]);
    assert rbuf + BytesOf(cells + added) == FramesOf(Messages(out + [item])) by {
      BytesOfAppend(cells, added);
      Assoc(rbuf, BytesOf(cells), BytesOf(added));
      FramesOfAppend(Messages(out), Messages([item]));
    }
    assert rfds + Marks(cells + added) == Fds(out + [item]) by {
      MarksAppend(cells, added);
      Assoc(rfds, Marks(cells), Marks(added));
    }
    InTimeCompose(-|rbuf|, cells, out, item);
  }

  lemma {:induction false} ComposeKeeps(l: Link, item: Item, l': Link)
    requires Inv(l) && NextStep(l, Compose(item), l')
    ensures Inv(l')
  {
    hide Outstanding, QueueCells, Marked, Frame;
    var out := l.composed[|l.got|..];
    assert l'.composed[|l.got|..] == out + [item];
    ComposeCells(l.wire, l.queue, item);
    ComposeFlight(l.rbuf, l.rfds, InFlight(l), out, item);
  }

  /** The same three facts with bytes already on the wire in front. */
  lemma {:induction false} WriteFlight(wire: seq<Cell>, q: seq<Pending>, n: nat)
    requires NonEmpty(q) && 0 < n <= |Offered(q, IOV_MAX)|
    ensures var before, after := wire + QueueCells(q), (wire + Sent(q, n)) + QueueCells(AfterWrite(q, n));
            && BytesOf(after) == BytesOf(before)
            && Marks(after) == Marks(before)
  {
    var sent := Sent(q, n) + QueueCells(AfterWrite(q, n));
    Assoc(wire, Sent(q, n), QueueCells(AfterWrite(q, n)));
    WriteConservesBytes(q, n);
    WriteConservesFds(q, n);
    BytesOfAppend(wire, sent);
    BytesOfAppend(wire, QueueCells(q));
    MarksAppend(wire, sent);
    MarksAppend(wire, QueueCells(q));
  }

  lemma {:induction false} WriteFlightForward(wire: seq<Cell>, q: seq<Pending>, n: nat, y: int)
    requires NonEmpty(q) && 0 < n <= |Offered(q, IOV_MAX)|
    ensures |Marks(From((wire + Sent(q, n)) + QueueCells(AfterWrite(q, n)), y))|
              <= |Marks(From(wire + QueueCells(q), y))|
  {
    var sent := Sent(q, n) + QueueCells(AfterWrite(q, n));
    Assoc(wire, Sent(q, n), QueueCells(AfterWrite(q, n)));
    WriteMovesFdsForward(q, n, y - |wire|);
    FromAppend(wire, sent, y);
    FromAppend(wire, QueueCells(q), y);
    WriteConservesFds(q, n);
  }

  lemma {:induction false} WriteOutstanding(rbuf: seq<Byte>, rfds: seq<int>, wire: seq<Cell>, q: seq<Pending>, n: nat, out: seq<Item>)
    requires NonEmpty(q) && 0 < n <= |Offered(q, IOV_MAX)|
    requires Outstanding(rbuf, rfds, wire + QueueCells(q), out)
    ensures Outstanding(rbuf, rfds, (wire + Sent(q, n)) + QueueCells(AfterWrite(q, n)), out)
  {
    var before, after := wire + QueueCells(q), (wire + Sent(q, n)) + QueueCells(AfterWrite(q, n));
    WriteFlight(wire, q, n);
    assert InTime(-|rbuf|, after, out) by {
      forall y ensures |Marks(From(after, y))| <= |Marks(From(before, y))| {
        WriteFlightForward(wire, q, n, y);
      }
      InTimeWrite(-|rbuf|, before, after, out);
    }
  }

  lemma {:induction false} WriteKeeps(l: Link, n: nat, l': Link)
    requires Inv(l) && NextStep(l, Write(n), l')
    ensures Inv(l')
  {
    WriteDrains(l.queue, n);
    WriteOutstanding(l.rbuf, l.rfds, l.wire, l.queue, n, l.composed[|l.got|..]);
  }

  lemma {:induction false} ReadStreams(rbuf: seq<Byte>, rfds: seq<int>, taken: seq<Cell>, left: seq<Cell>)
    ensures (rbuf + BytesOf(taken)) + BytesOf(left) == rbuf + BytesOf(taken + left)
    ensures (rfds + Marks(taken)) + Marks(left) == rfds + Marks(taken + left)
  {
    BytesOfAppend(taken, left);
    MarksAppend(taken, left);
    hide BytesOf, Marks;
    Assoc(rbuf, BytesOf(taken), BytesOf(left));
    Assoc(rfds, Marks(taken), Marks(left));
  }

  lemma {:induction false} ReadFlight(rbuf: seq<Byte>, rfds: seq<int>, taken: seq<Cell>, left: seq<Cell>, out: seq<Item>)
    requires Outstanding(rbuf, rfds, taken + left, out)
    ensures Outstanding(rbuf + BytesOf(taken), rfds + Marks(taken), left, out)
  {
    hide BytesOf, Marks, InTime, FramesOf, Messages, Fds;
    ReadStreams(rbuf, rfds, taken, left);
    InTimeRead(-|rbuf|, taken + left, out, |taken|);
    CutBehind(taken, left, 0);
    assert left[0..] == left;
  }

  lemma {:induction false} ReadKeeps(l: Link, n: nat, l': Link)
    requires Inv(l) && NextStep(l, Read(n), l')
    ensures Inv(l')
  {
    assert l.wire == l.wire[..n] + l.wire[n..];
    Assoc(l.wire[..n], l.wire[n..], QueueCells(l.queue));
    ReadFlight(l.rbuf, l.rfds, l.wire[..n], InFlight(l'), l.composed[|l.got|..]);
  }

  /** While a complete message waits, it is the oldest undelivered one. */
  lemma {:induction false} OldestFirst(rbuf: seq<Byte>, later: seq<Byte>, out: seq<Item>)
    requires Next(rbuf).Got? && rbuf + later == FramesOf(Messages(out))
    requires AllValid(out)
    ensures out != [] && Next(rbuf).msg == out[0].msg
    ensures Next(rbuf).rest + later == FramesOf(Messages(out[1..]))
  {
    NextExtends(rbuf, later);
    if out != [] {
      FirstFrame(out);
      NextOfFrame(out[0].msg, FramesOf(Messages(out[1..])));
    }
  }

  /** When the oldest message has fully arrived, so has its descriptor, and it is first in line. */
  lemma {:induction false} FdHasArrived(rlen: nat, rfds: seq<int>, cells: seq<Cell>, out: seq<Item>)
    requires out != [] && rlen >= |Frame(out[0].msg)|
    requires InTime(0 - rlen, cells, out) && rfds + Marks(cells) == Fds(out)
    ensures out[0].fd != NO_FD ==> rfds != [] && rfds[0] == out[0].fd && rfds[1..] + Marks(cells) == Fds(out[1..])
    ensures InTime(|Frame(out[0].msg)| - rlen, cells, out[1..])
  {
    if out[0].fd != NO_FD {
      assert |Marks(cells)| < |Fds(out)|;
      HeadTail(rfds, Marks(cells));
      assert Fds(out)[1..] == Fds(out[1..]);
    }
  }

  lemma {:induction false} GetFlight(rbuf: seq<Byte>, rfds: seq<int>, cells: seq<Cell>, out: seq<Item>)
    requires Outstanding(rbuf, rfds, cells, out) && AllValid(out) && Next(rbuf).Got?
    ensures out != [] && Next(rbuf).msg == out[0].msg
    ensures out[0].fd != NO_FD ==> rfds != [] && rfds[0] == out[0].fd
    ensures Outstanding(Next(rbuf).rest, if out[0].fd != NO_FD then rfds[1..] else rfds, cells, out[1..])
  {
    hide InTime, Marks, FramesOf, Messages, Next, BytesOf, AllValid, Frame;
    OldestFirst(rbuf, BytesOf(cells), out);
    NextIsFrame(rbuf);
    FdHasArrived(|rbuf|, rfds, cells, out);
  }

  lemma {:induction false} GetKeeps(l: Link, l': Link)
    requires Inv(l) && NextStep(l, Get, l')
    ensures Inv(l')
  {
    var out := l.composed[|l.got|..];
    GetFlight(l.rbuf, l.rfds, InFlight(l), out);
    hide Outstanding, Next, QueueCells;
    assert out[0] == l.composed[|l.got|] && out[0].Valid();
    OneMoreGot(l.composed, l.got);
  }

  lemma {:induction false} OneMoreGot(composed: seq<Item>, got: seq<Item>)
    requires got < composed
    ensures got + [composed[|got|]] <= composed
    ensures composed[|got| + 1..] == composed[|got|..][1..]
  {
  }

  lemma {:induction false} StepKeeps(l: Link, l': Link)
    requires Inv(l) && Related(l, l')
    ensures Inv(l')
  {
    var s :| NextStep(l, s, l');
    match s
    case Compose(item) => ComposeKeeps(l, item, l');
    case Write(n) => WriteKeeps(l, n, l');
    case Read(n) => ReadKeeps(l, n, l');
    case Get => GetKeeps(l, l');
  }

  lemma {:induction false} RunKeeps(trace: seq<Link>)
    requires Run(trace)
    ensures Inv(trace[|trace| - 1])
  {
    if |trace| > 1 {
      var before := trace[..|trace| - 1];
      forall i | 0 <= i < |before| - 1 ensures Related(before[i], before[i + 1]) {
        assert Related(trace[i], trace[i + 1]);
      }
      RunKeeps(before);
      assert Related(trace[|trace| - 2], trace[|trace| - 2 + 1]);
      StepKeeps(trace[|trace| - 2], trace[|trace| - 1]);
    }
  }

  // ---- The results about whole runs ----

  /** Between extractions the receiver holds less than one largest frame: never a bad length, and
      always room for the next read. With nothing in flight, everything has been delivered. */
  lemma {:induction false} ReceiverWaits(l: Link)
    requires Inv(l) && !Next(l.rbuf).Got?
    ensures Next(l.rbuf).NeedMore? && |l.rbuf| < MAX_IMSGSIZE < IBUF_READ_SIZE
    ensures InFlight(l) == [] ==> l.got == l.composed
  {
    var out := l.composed[|l.got|..];
    var later := BytesOf(InFlight(l));
    NextExtends(l.rbuf, later);
    if out != [] {
      FirstFrame(out);
      NextOfFrame(out[0].msg, FramesOf(Messages(out[1..])));
      assert InFlight(l) == [] ==> l.rbuf + later == l.rbuf;
    }
    NeedMoreIsShort(l.rbuf);
  }

  /** FIFO delivery: in every run, what the receiver was given, message by message and descriptor by
      descriptor, is a prefix of what was composed; and it is everything once nothing is left to
      send, to read or to extract. */
  lemma {:induction false} Delivery(trace: seq<Link>)
    requires Run(trace)
    ensures var l := trace[|trace| - 1];
            && l.got <= l.composed
            && (l.queue == [] && l.wire == [] && !Next(l.rbuf).Got? ==> l.got == l.composed)
  {
    RunKeeps(trace);
    var l := trace[|trace| - 1];
    if l.queue == [] && l.wire == [] && !Next(l.rbuf).Got? {
      ReceiverWaits(l);
    }
  }

  /** Work left before everything composed so far is delivered. */
  function Remaining(l: Link): nat {
    3 * |Flat(l.queue)| + 2 * |l.wire| + |l.rbuf|
  }

  /** Every write, read or extraction reduces the work left. */
  lemma {:induction false} StepsMakeProgress(l: Link, s: Step, l': Link)
    requires NextStep(l, s, l') && !s.Compose?
    ensures Remaining(l') < Remaining(l)
  {
    match s
    case Write(n) =>
      OfferedIsFront(l.queue, IOV_MAX);
      FlatDrain(ClearFd(l.queue, IOV_MAX), n);
    case Read(n) =>
    case Get =>
  }

  /** And in every run, as long as something composed is undelivered, such a step is possible: no
      choice of transfer sizes stalls the connection. */
  lemma {:induction false} NeverStalls(trace: seq<Link>) returns (s: Step, l': Link)
    requires Run(trace)
    requires var l := trace[|trace| - 1]; l.got != l.composed
    ensures NextStep(trace[|trace| - 1], s, l') && !s.Compose?
  {
    RunKeeps(trace);
    s, l' := NextPossible(trace[|trace| - 1]);
  }

  lemma {:induction false} NextPossible(l: Link) returns (s: Step, l': Link)
    requires Inv(l) && l.got != l.composed
    ensures NextStep(l, s, l') && !s.Compose?
  {
    if Next(l.rbuf).Got? {
      s := Get;
      var m := Next(l.rbuf).msg;
      var has := m.HasFd() && l.rfds != [];
      l' := l.(rbuf := Next(l.rbuf).rest, rfds := if has then l.rfds[1..] else l.rfds,
               got := l.got + [Item(m, if has then l.rfds[0] else NO_FD)]);
    } else if l.wire != [] {
      ReceiverWaits(l);
      s := Read(1);
      l' := l.(wire := l.wire[1..], rbuf := l.rbuf + BytesOf(l.wire[..1]), rfds := l.rfds + Marks(l.wire[..1]));
    } else {
      ReceiverWaits(l);
      assert l.queue != [];
      s := Write(1);
      l' := l.(queue := AfterWrite(l.queue, 1),
               wire := l.wire + Sent(l.queue, 1));
    }
  }
}
