/** The imsg wire format: a 16-byte header followed by the payload, and the framer that reads it back. */
module Frames {
  import opened Bytes

  const HEADER_SIZE: nat := 16
  const MAX_IMSGSIZE: nat := 16384
  const IBUF_READ_SIZE: nat := 65535
  const HASFD: nat := 1

  /** struct imsg_hdr. */
  datatype Header = Header(typ: U32, len: U16, flags: U16, peerid: U32, pid: U32)

  /** A message as the framer hands it out. */
  datatype Message = Message(hdr: Header, data: seq<Byte>) {
    /** What every composed message satisfies. */
    predicate WellFormed() {
      hdr.len == HEADER_SIZE + |data| && hdr.len <= MAX_IMSGSIZE
    }

    predicate HasFd() {
      hdr.flags % 2 == HASFD
    }
  }

  function EncodeHeader(h: Header): (s: seq<Byte>)
    ensures |s| == HEADER_SIZE
  {
    Le(h.typ, 4) + Le(h.len, 2) + Le(h.flags, 2) + Le(h.peerid, 4) + Le(h.pid, 4)
  }

  function DecodeHeader(s: seq<Byte>): Header
    requires |s| == HEADER_SIZE
  {
    LeEncodes(s[0..4]); LeEncodes(s[4..6]); LeEncodes(s[6..8]); LeEncodes(s[8..12]); LeEncodes(s[12..16]);
    Widths();
    Header(FromLe(s[0..4]), FromLe(s[4..6]), FromLe(s[6..8]), FromLe(s[8..12]), FromLe(s[12..16]))
  }

  lemma {:induction false} HeaderDecodes(h: Header)
    ensures DecodeHeader(EncodeHeader(h)) == h
  {
    var s := EncodeHeader(h);
    Widths();
    assert s[0..4] == Le(h.typ, 4);
    assert s[4..6] == Le(h.len, 2);
    assert s[6..8] == Le(h.flags, 2);
    assert s[8..12] == Le(h.peerid, 4);
    assert s[12..16] == Le(h.pid, 4);
    LeDecodes(h.typ, 4); LeDecodes(h.len, 2); LeDecodes(h.flags, 2); LeDecodes(h.peerid, 4); LeDecodes(h.pid, 4);
  }

  /** Where each field lies, and that the numbers are little-endian. */
  lemma {:induction false} HeaderPlaces(h: Header)
    ensures var s := EncodeHeader(h);
            && |s| == 16 && h.typ == Le32At(s, 0) && h.len == Le16At(s, 4) && h.flags == Le16At(s, 6)
            && h.peerid == Le32At(s, 8) && h.pid == Le32At(s, 12)
  {
    Widths();
    LittleEndian(h.typ, 4);
    LittleEndian(h.len, 2);
    LittleEndian(h.flags, 2);
    LittleEndian(h.peerid, 4);
    LittleEndian(h.pid, 4);
    hide Le, Pow256;
  }

  lemma {:induction false} HeaderEncodes(s: seq<Byte>)
    requires |s| == HEADER_SIZE
    ensures EncodeHeader(DecodeHeader(s)) == s
  {
    LeEncodes(s[0..4]); LeEncodes(s[4..6]); LeEncodes(s[6..8]); LeEncodes(s[8..12]); LeEncodes(s[12..16]);
  }

  function Frame(m: Message): (s: seq<Byte>)
    ensures |s| == HEADER_SIZE + |m.data|
  {
    EncodeHeader(m.hdr) + m.data
  }

  /** A message comes with a descriptor if the lowest bit of the first flag byte is set. */
  lemma {:induction false} FdBit(m: Message)
    ensures m.HasFd() <==> Frame(m)[6] % 2 == 1
  {
    HeaderPlaces(m.hdr);
  }

  function FramesOf(ms: seq<Message>): seq<Byte> {
    if ms == [] then [] else Frame(ms[0]) + FramesOf(ms[1..])
  }

  predicate AllWellFormed(ms: seq<Message>) {
    forall i :: 0 <= i < |ms| ==> ms[i].WellFormed()
  }

  lemma {:induction false} FramesOfAppend(a: seq<Message>, b: seq<Message>)
    ensures FramesOf(a + b) == FramesOf(a) + FramesOf(b)
  {
    if a == [] {
      assert a + b == b;
    } else {
      assert (a + b)[1..] == a[1..] + b;
      FramesOfAppend(a[1..], b);
    }
  }

  /** The three outcomes of imsg_get: 0, -1 with ERANGE, or one message and the bytes left over. */
  datatype Outcome = NeedMore | BadLength | Got(msg: Message, rest: seq<Byte>)

  function Next(buf: seq<Byte>): (o: Outcome)
    ensures o.Got? ==> o.msg.WellFormed()
    ensures o.Got? ==> |buf| == |o.rest| + o.msg.hdr.len
  {
    if |buf| < HEADER_SIZE then NeedMore
    else
      var h := DecodeHeader(buf[..HEADER_SIZE]);
      if h.len < HEADER_SIZE || h.len > MAX_IMSGSIZE then BadLength
      else if h.len > |buf| then NeedMore
      else Got(Message(h, buf[HEADER_SIZE..h.len]), buf[h.len..])
  }

  /** A frame in front of anything is read back exactly. */
  lemma {:induction false} NextOfFrame(m: Message, tail: seq<Byte>)
    requires m.WellFormed()
    ensures Next(Frame(m) + tail) == Got(m, tail)
  {
    var s := Frame(m) + tail;
    assert s[..HEADER_SIZE] == EncodeHeader(m.hdr);
    HeaderDecodes(m.hdr);
    assert s[HEADER_SIZE..m.hdr.len] == m.data;
    assert s[m.hdr.len..] == tail;
  }

  /** Whatever is read was there: the framer neither invents nor loses a byte. */
  lemma {:induction false} NextIsFrame(buf: seq<Byte>)
    requires Next(buf).Got?
    ensures buf == Frame(Next(buf).msg) + Next(buf).rest
  {
    HeaderEncodes(buf[..HEADER_SIZE]);
  }

  /** Once the framer has decided, later bytes do not change its decision. */
  lemma {:induction false} NextExtends(a: seq<Byte>, b: seq<Byte>)
    ensures Next(a).Got? ==> Next(a + b) == Got(Next(a).msg, Next(a).rest + b)
    ensures Next(a).BadLength? ==> Next(a + b).BadLength?
  {
    if Next(a).Got? {
      NextIsFrame(a);
      var m, rest := Next(a).msg, Next(a).rest;
      assert a + b == Frame(m) + (rest + b);
      NextOfFrame(m, rest + b);
    } else if Next(a).BadLength? {
      assert (a + b)[..HEADER_SIZE] == a[..HEADER_SIZE];
    }
  }

  /** All complete messages at the front of a buffer, and the bytes after them. */
  datatype Parsed = Parsed(msgs: seq<Message>, rest: seq<Byte>)

  function Parse(buf: seq<Byte>): (p: Parsed)
    ensures !Next(p.rest).Got?
    ensures AllWellFormed(p.msgs)
    ensures |p.rest| <= |buf|
    decreases |buf|
  {
    match Next(buf)
    case Got(m, rest) => var p := Parse(rest); Parsed([m] + p.msgs, p.rest)
    case _ => Parsed([], buf)
  }

  /** Parsing partitions the buffer into frames and a remainder. */
  lemma {:induction false} ParseIsFrames(buf: seq<Byte>)
    ensures buf == FramesOf(Parse(buf).msgs) + Parse(buf).rest
    decreases |buf|
  {
    if Next(buf).Got? {
      var m, rest := Next(buf).msg, Next(buf).rest;
      NextIsFrame(buf);
      ParseIsFrames(rest);
      var p := Parse(rest);
      assert ([m] + p.msgs)[1..] == p.msgs;
      assert buf == Frame(m) + (FramesOf(p.msgs) + p.rest);
    }
  }

  /** Chunk independence of the framer: parsing what a first read left over, followed by a second
      read, continues exactly where parsing both reads at once would be. */
  lemma {:induction false} ParseSplit(a: seq<Byte>, b: seq<Byte>)
    ensures var p, q := Parse(a), Parse(Parse(a).rest + b);
            Parse(a + b) == Parsed(p.msgs + q.msgs, q.rest)
    decreases |a|
  {
    if Next(a).Got? {
      var m, rest := Next(a).msg, Next(a).rest;
      NextExtends(a, b);
      ParseSplit(rest, b);
      var p, q := Parse(rest), Parse(Parse(rest).rest + b);
      hide Next;
      Assoc([m], p.msgs, q.msgs);
    }
  }

  lemma {:induction false} ParseFrame(m: Message, rest: seq<Byte>)
    requires m.WellFormed()
    ensures Parse(Frame(m) + rest) == Parsed([m] + Parse(rest).msgs, Parse(rest).rest)
  {
    NextOfFrame(m, rest);
  }

  /** The framer inverts the encoder on every list of well-formed messages, whatever follows. */
  lemma {:induction false} ParseOfFrames(ms: seq<Message>, tail: seq<Byte>)
    requires AllWellFormed(ms)
    ensures Parse(FramesOf(ms) + tail) == Parsed(ms + Parse(tail).msgs, Parse(tail).rest)
  {
    if ms == [] {
      assert FramesOf(ms) + tail == tail;
    } else {
      ParseOfFrames(ms[1..], tail);
      ParseFrame(ms[0], FramesOf(ms[1..]) + tail);
      Assoc(Frame(ms[0]), FramesOf(ms[1..]), tail);
      HeadTail(ms, Parse(tail).msgs);
    }
  }

  /** An incomplete frame is shorter than the largest one. */
  lemma {:induction false} NeedMoreIsShort(buf: seq<Byte>)
    requires Next(buf).NeedMore?
    ensures |buf| < MAX_IMSGSIZE
  {
  }

  /** A stream a peer may send: some frames, and perhaps the beginning of one more. */
  ghost predicate WellFramed(stream: seq<Byte>) {
    exists ms: seq<Message>, tail: seq<Byte> ::
      && AllWellFormed(ms)
      && stream + tail == FramesOf(ms)
  }

  /** Read-side progress: at any point of a well-framed stream, whatever the framer has not yet
      taken is an incomplete frame, so it is short enough to leave room for another read. */
  lemma {:induction false} WellFramedLeavesRoom(stream: seq<Byte>)
    requires WellFramed(stream)
    ensures Next(Parse(stream).rest).NeedMore?
    ensures |Parse(stream).rest| < MAX_IMSGSIZE
  {
    var ms: seq<Message>, tail: seq<Byte> :|
      && AllWellFormed(ms)
      && stream + tail == FramesOf(ms);
    ParseSplit(stream, tail);
    ParseOfFrames(ms, []);
    assert FramesOf(ms) + [] == FramesOf(ms);
    var rest := Parse(stream).rest;
    NextExtends(rest, tail);
    assert Parse(rest + tail).rest == [];
    NeedMoreIsShort(rest);
  }
}
