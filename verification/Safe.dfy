/** The safe layer: each operation on the agent's copy and on the encrypted file (lib/safe.c). */
module Safe {
  import opened Bytes
  import opened Errors
  import opened Frames
  import opened Store
  import opened Protocol
  import opened Agent
  import opened Directories
  import opened Inbox
  import opened Cache
  import SafeFile
  import Session

  /** struct kp_safe, with its two buffers as the strings they hold. */
  class KpSafe {
    var open: bool
    var name: Name
    var password: seq<Byte>
    var metadata: seq<Byte>

    ghost predicate Valid()
      reads this
    {
      Fits(name, PATH_MAX) && ContentsFit(Contents())
    }

    function Contents(): Store.Contents
      reads this
    {
      Store.Contents(password, metadata)
    }

    /** kp_safe_init: refused when the name does not fit. */
    constructor (name0: Name)
      requires NulFree(name0)
      ensures Valid() && !open && name == (if |name0| < PATH_MAX then name0 else name0[..PATH_MAX - 1])
    {
      open, password, metadata := false, [], [];
      name := if |name0| < PATH_MAX then name0 else name0[..PATH_MAX - 1];
    }
  }

  /** strlcpy into a field that already holds something: what lies behind the new terminator stays. */
  function Overwrite(field: seq<Byte>, s: seq<Byte>): (r: seq<Byte>)
    requires |s| < |field|
    ensures |r| == |field|
  {
    s + [0] + field[|s| + 1..]
  }

  lemma {:induction false} OverwriteReads(field: seq<Byte>, s: seq<Byte>)
    requires NulFree(s) && |s| < |field|
    ensures CStr(Overwrite(field, s)) == s && Terminated(Overwrite(field, s))
  {
    CStrOf(s, field[|s| + 1..]);
  }

  /** The answer to a search, as the client reads it. */
  lemma {:induction false} SearchAnswer(store: map<Name, Store.Contents>, name: Name, pid: U32)
    requires StoreFits(store) && Fits(name, PATH_MAX)
    ensures var r := if name in store then Found(name, store[name]) else NoSuchSafe();
            var a := Classify(r.ToMessage(pid), MSG_SEARCH, UNSAFE_SIZE);
            if name in store then a == Data(EncodeUnsafe(Fill(-1, name, store[name])))
            else a == Remote(KP_ERRNO, ENOENT)
  {
    ErrorAnswer();
  }

  /** What a client makes of the first unread reply, whichever question it answers: data exactly when the
      type and the size are those asked for, the error ENOENT for a safe that was not there, and otherwise
      an invalid message. */
  lemma {:induction false} AnyAnswer(r: Reply, pid: U32)
    requires Genuine(r)
    ensures r.Sendable()
    ensures var a := Classify(r.ToMessage(pid), MSG_SEARCH, UNSAFE_SIZE);
            a == if Serves(r) then Data(r.data) else if r == NoSuchSafe() then Remote(KP_ERRNO, ENOENT) else Invalid
    ensures var a := Classify(r.ToMessage(pid), MSG_DISCARD, 1);
            a == if Confirms(r) then Data(r.data) else if r == NoSuchSafe() then Remote(KP_ERRNO, ENOENT) else Invalid
  {
    ErrorAnswer();
  }

  /** What a client learns from a message, to a question of one of the known types: its data exactly when
      type and size are those asked for; two numbers exactly when it is an error that was not asked for and
      begins with them; and otherwise whether it has another type or another size. */
  lemma {:induction false} AnswerReads(m: Message, typ: nat, size: nat, a: Answer)
    requires typ <= 3
    ensures Classify(m, typ, size) == a <==>
            match a
            case Data(d) => m.hdr.typ == typ && d == m.data && |d| == size
            case WrongSize => m.hdr.typ == typ && |m.data| != size
            case Remote(err, errno) =>
              && m.hdr.typ == 3 != typ && |m.data| >= 8
              && err < 0x1_0000_0000 && errno < 0x1_0000_0000 && m.data[..8] == Le(err, 4) + Le(errno, 4)
            case Undefined => m.hdr.typ == 3 != typ && |m.data| < 8
            case Invalid => m.hdr.typ != typ && m.hdr.typ != 3
            case Broken => false
  {
    if m.hdr.typ == 3 != typ && |m.data| >= 8 {
      Widths();
      LeEncodes(m.data[..4]);
      LeEncodes(m.data[4..8]);
      assert m.data[..8] == m.data[..4] + m.data[4..8];
      if a.Remote? && a.err < 0x1_0000_0000 && a.errno < 0x1_0000_0000 && m.data[..8] == Le(a.err, 4) + Le(a.errno, 4) {
        LeDecodes(a.err, 4);
        LeDecodes(a.errno, 4);
        assert m.data[..4] == m.data[..8][..4] && m.data[4..8] == m.data[..8][4..];
      }
    }
  }

  lemma {:induction false} ErrorAnswer()
    ensures NoSuchSafe().typ == MSG_ERROR && |NoSuchSafe().data| == 8
    ensures FromLe(NoSuchSafe().data[..4]) == KP_ERRNO && FromLe(NoSuchSafe().data[4..8]) == ENOENT
  {
    Widths();
    LeDecodes(KP_ERRNO, 4);
    LeDecodes(ENOENT, 4);
    assert NoSuchSafe().data[..4] == Le(KP_ERRNO, 4) && NoSuchSafe().data[4..8] == Le(ENOENT, 4);
  }

  // ---- The exchange over the wire ----

  /** The message that kp_agent_send makes of a name field, whatever lies behind the name's terminator. */
  lemma {:induction false} NameDecodes(typ: U32, field: seq<Byte>, pid: U32)
    requires |field| == 4096 && Terminated(field) && (typ == 1 || typ == 2)
    ensures var m := Message(Header(typ, 16 + 4096, 0, 1, pid), field);
            m.WellFormed() && Decode(m) == if typ == 1 then SearchReq(CStr(field)) else DiscardReq(CStr(field))
  {
    var n, cut := StrLen(field), field[..PATH_MAX - 1];
    assert cut[..if n < PATH_MAX - 1 then n else PATH_MAX - 1] == field[..n];
    if n < PATH_MAX - 1 {
      StrLenUnique(cut, n);
    } else {
      SafeFile.StrLenOfNulFree(cut);
    }
  }

  lemma {:induction false} UnreadSendable(hub: Hub, conn: nat)
    requires Posted(hub)
    ensures AllSendable(hub.Unread(conn))
  {
    forall k | 0 <= k < |hub.Unread(conn)| ensures hub.Unread(conn)[k].Sendable() {
      AnyAnswer(hub.Unread(conn)[k], 0);
    }
  }

  /** The first of the frames on the way to a client is its first unread reply. */
  lemma {:induction false} FirstFrame(replies: seq<Reply>, pid: U32)
    requires replies != [] && AllSendable(replies)
    ensures Next(FramesOf(MessagesFor(replies, pid)))
            == Got(replies[0].ToMessage(pid), FramesOf(MessagesFor(replies[1..], pid)))
  {
    var ms := MessagesFor(replies, pid);
    assert ms[1..] == MessagesFor(replies[1..], pid);
    NextOfFrame(replies[0].ToMessage(pid), FramesOf(ms[1..]));
  }

  /** A question to the agent, from bytes to bytes, with anything unread: however the request's frame is
      cut into reads, the agent handles exactly that request and keeps nothing of it; and the first frame
      then on its way to the client is the reply that Asked has the client read, with the frames of those
      that stay unread behind it. */
  lemma {:induction false} QuestionOverTheWire(hub: Hub, conn: nat, typ: U32, field: seq<Byte>, chunks: seq<seq<Byte>>, clientPid: U32, agentPid: U32)
    requires Posted(hub) && |field| == PATH_MAX && Terminated(field)
    requires typ == 1 || typ == 2
    requires Joined(chunks) == Frame(Message(Header(typ, 16 + 4096, 0, 1, clientPid), field))
    ensures var r := if typ == 1 then SearchReq(CStr(field)) else DiscardReq(CStr(field));
            var d := OnChunks(hub.state, hub.now, conn, [], chunks);
            var x := Asked(hub, conn, r);
            var stream := hub.Unread(conn) + d.effect.replies;
            && Fits(CStr(field), PATH_MAX) && d.effect.state == x.1.state && d.rest == []
            && AllSendable(stream) && AllSendable(x.1.Unread(conn)) && x.0.Sendable()
            && Next(FramesOf(MessagesFor(stream, agentPid)))
               == Got(x.0.ToMessage(agentPid), FramesOf(MessagesFor(x.1.Unread(conn), agentPid)))
  {
    var m := Message(Header(typ, 16 + 4096, 0, 1, clientPid), field);
    NameDecodes(typ, field, clientPid);
    OneMessage(hub.state, hub.now, conn, m, chunks);
    RequestKeepsFits(hub.state, hub.now, conn, Decode(m));
    UnreadSendable(hub, conn);
    FirstFrame(hub.Unread(conn) + OnRequest(hub.state, hub.now, conn, Decode(m)).replies, agentPid);
  }

  /** What reading a file yields when no read fails: its contents, or the error. */
  ghost predicate ReadsAs(conf: Conf, bytes: seq<Byte>, ret: nat, c: Store.Contents)
    requires conf.k.Laws()
  {
    exists g :: |g| == SafeFile.PLAIN_MAX
                && match SafeFile.Opened(conf.k, conf.master, bytes, g)
                   case Ok(c') => ret == KP_SUCCESS && c == c'
                   case Err(code) => ret == code
  }

  /** The result code that kp_agent_receive returns with an answer. An error comes with its own code. */
  function CodeOf(a: Answer): nat {
    match a
    case Data(_) => KP_SUCCESS
    case Invalid => KP_INVALID_MSG
    case Remote(err, _) => err
    case _ => KP_ERRNO
  }

  /** struct kp_ctx, together with what it reaches: the workspace and the agent. `conn` is its connection.
      Three histories: how many exchanges with the agent have failed, how many calls on files have failed or
      stopped short, and which writes failed outright. */
  class Ctx {
    const conf: Conf
    const tree: Tree
    const conn: nat
    const pid: U32
    const sodium: U16
    var opslimit: U64
    var memlimit: U64
    var connected: bool
    var disk: map<Name, seq<Byte>>
    var hub: Hub
    ghost var linkFaults: nat
    ghost var fileFaults: nat
    ghost var refused: seq<SafeFile.Refused>

    ghost predicate Valid()
      reads this
    {
      conf.k.Laws() && Posted(hub)
    }

    ghost function World(): Cache.World
      reads this
    {
      Cache.World(disk, hub)
    }

    constructor (conf: Conf, tree: Tree, conn: nat, pid: U32, sodium: U16, opslimit: U64, memlimit: U64, connected: bool)
      requires conf.k.Laws()
      ensures Valid() && World() == Cache.World(map[], Fresh(State(map[], []), 0))
      ensures this.conf == conf && this.tree == tree && this.connected == connected
      ensures linkFaults == fileFaults == 0 && refused == []
    {
      this.conf, this.tree, this.conn, this.pid, this.sodium := conf, tree, conn, pid, sodium;
      this.opslimit, this.memlimit, this.connected := opslimit, memlimit, connected;
      disk, hub := map[], Fresh(State(map[], []), 0);
      linkFaults, fileFaults, refused := 0, 0, [];
    }

    // ---- Talking to the agent ----

    /** Time passes; timers that are due may fire, and those that miss leave an error to be read. */
    method Pass()
      requires Valid()
      modifies this`hub
      ensures Valid() && Elapsed(old(hub), hub)
    {
      hide Moves, Elapsed, Posted;
      ElapsedRefl(hub);
      var rounds: nat :| rounds >= 0;
      while rounds > 0
        invariant Valid() && Elapsed(old(hub), hub)
      {
        ghost var before := hub;
        var later: int :| later >= hub.now;
        hub := hub.(now := later);
        TimeMoves(before, later);
        ElapsedMore(old(hub), before, hub);
        before := hub;
        if hub.state.timers != [] {
          var i :| 0 <= i < |hub.state.timers|;
          if hub.state.timers[i].deadline <= hub.now {
            hub := Fired(hub, i);
            FiringMoves(before, i);
            ElapsedMore(old(hub), before, hub);
          }
        }
        ElapsedPosted(old(hub), hub);
        rounds := rounds - 1;
      }
    }

    /** One more queued request arrives and is handled, and time passes. */
    method ArriveNext(r: Request, ghost before: Hub, ghost q: seq<Request>)
      requires Valid() && Proper(r) && Delivered(before, conn, q, hub)
      modifies this`hub
      ensures Valid() && Delivered(before, conn, q + [r], hub)
      ensures hub.outbox == old(hub).outbox
    {
      PostedFits(hub);
      HandledPosted(hub, conn, r);
      hide Posted, Elapsed, Proper, Delivered, Grown, Shrunk;
      ghost var a := hub;
      hub := Handled(hub, conn, r);
      ghost var handled := hub;
      Pass();
      Ages(handled, hub);
      DeliveredNext(before, conn, q, a, r, hub);
    }

    /** Some of the requests still queued arrive, in order, with time passing in between. */
    method Arrive(held: seq<Request>)
      requires Valid() && ProperList(held)
      modifies this`hub
      ensures Valid() && Delivered(old(hub), conn, held, hub)
      ensures hub.outbox == old(hub).outbox
      decreases |held|
    {
      ghost var before := hub;
      if held == [] {
        Pass();
        DeliveredNone(before, conn, hub);
      } else {
        ProperInit(held);
        hide *;
        var n := |held| - 1;
        Arrive(held[..n]);
        ArriveNext(held[n], before, held[..n]);
      }
    }

    /** kp_agent_send, up to the request itself: the flush sends what is still queued first. When it fails,
        the request, and perhaps some of what was queued before, stays queued. */
    method Send(r: Request) returns (ok: bool)
      requires Valid() && Proper(r)
      modifies this`hub, this`linkFaults
      ensures Valid()
      ensures linkFaults == old(linkFaults) + if ok then 0 else 1
      ensures ok ==> Flushed(old(hub), conn, hub)
      ensures !ok ==> Stuck(old(hub), conn, r, hub)
    {
      hide Delivered, Proper, Genuine;
      var held := hub.Held(conn);
      var count: nat :| count <= |held|;
      ok :| ok ==> count == |held|;
      HeldProper(hub, conn);
      ProperParts(held, count, r);
      Arrive(held[..count]);
      assert held[..|held|] == held;
      if ok {
        QueuePosted(hub, conn, [], hub.failed);
        hub := Emptied(hub, conn);
      } else {
        QueuePosted(hub, conn, held[count..] + [r], hub.failed + {conn});
        hub := Stalled(hub, conn, held[count..] + [r]);
        linkFaults := linkFaults + 1;
      }
    }

    /** kp_agent_send and kp_agent_receive for a search or a discard. Either may fail; otherwise the answer
        is made of the first unread reply, on the agent as the request meets it, `met`. */
    method Ask(r: Request, typ: nat, size: nat) returns (a: Answer, ghost fails: bool, ghost met: Hub)
      requires Valid() && r.Valid() && Session.ExpectsReply(r)
      modifies this`hub, this`linkFaults
      ensures Valid()
      ensures fails <==> linkFaults != old(linkFaults)
      ensures fails ==> a == Broken && met == hub && Fails(old(hub), conn, r, hub)
      ensures !fails ==>
                && Flushed(old(hub), conn, met) && Posted(met) && StoreFits(met.state.store)
                && var x := Asked(met, conn, r);
                   hub == x.1 && Genuine(x.0) && x.0.Sendable() && a == Classify(x.0.ToMessage(pid), typ, size)
    {
      var sent := Send(r);
      if !sent {
        return Broken, true, hub;
      }
      met := hub;
      PostedFits(hub);
      var answered: bool :| answered || !answered;
      if !answered {
        FailsPosted(old(hub), conn, r, Abandoned(hub, conn, r));
        hub := Abandoned(hub, conn, r);
        linkFaults := linkFaults + 1;
        return Broken, true, hub;
      }
      AskedPosted(hub, conn, r);
      var x := Asked(hub, conn, r);
      AnyAnswer(x.0, pid);
      hub := x.1;
      a, fails := Classify(x.0.ToMessage(pid), typ, size), false;
    }

    /** kp_agent_send for a store, which has no answer. */
    method Tell(u: Unsafe) returns (ret: nat, ghost met: Hub)
      requires Valid() && u.Sized() && u.AllTerminated()
      modifies this`hub, this`linkFaults
      ensures Valid()
      ensures ret == if linkFaults == old(linkFaults) then KP_SUCCESS else KP_ERRNO
      ensures StoresAfter(old(hub), conn, CStr(u.name), u.Value(), u.timeout, ret == KP_SUCCESS, met, hub)
    {
      ValueFits(u);
      var sent := Send(StoreReq(u));
      if !sent {
        assert Says(u, CStr(u.name), u.Value(), u.timeout);
        return KP_ERRNO, hub;
      }
      met := hub;
      StoredIsOnStore(hub, conn, u);
      StoredPosted(hub, conn, CStr(u.name), u.Value(), u.timeout);
      hub := hub.(state := Protocol.OnStore(hub.state, hub.now, conn, u));
      ret := KP_SUCCESS;
    }

    // ---- The files ----

    /** kp_storage_open on the file of a safe. */
    method ReadFile(name: Name) returns (ret: nat, c: Store.Contents)
      requires Valid()
      modifies this`fileFaults
      ensures ret == KP_SUCCESS ==> name in disk && FileOpens(conf, disk[name], c)
      ensures name !in disk || fileFaults != old(fileFaults) ==> ret == KP_ERRNO
      ensures ret != KP_SUCCESS ==> c == Store.Contents([], [])
      ensures name in disk && fileFaults == old(fileFaults) ==> ReadsAs(conf, disk[name], ret, c)
    {
      c := Store.Contents([], []);
      var file: SafeFile.File? := null;
      var openable: bool :| openable ==> name in disk;
      if openable {
        file := new SafeFile.File(disk[name]);
      } else if name in disk {
        fileFaults := fileFaults + 1;
      }
      var password, metadata := new Byte[PASSWORD_MAX], new Byte[METADATA_MAX];
      ghost var garbage, failed;
      ret, garbage, failed := SafeFile.Open(conf.k, conf.master, file, password, metadata);
      if ret == KP_SUCCESS {
        c := Store.Contents(CStr(password[..]), CStr(metadata[..]));
      }
      if file != null {
        fileFaults := fileFaults + file.faults;
      }
    }

    /** A header that this workspace gives a file: the version, and its own limits. */
    ghost predicate Ours(h: SafeFile.Header)
      reads `opslimit, `memlimit
    {
      h.Valid() && h.version == 1 && h.sodium == sodium && h.opslimit == opslimit && h.memlimit == memlimit
    }

    /** What writing a safe's file does to the files: when the primitives succeed, it succeeds if and only if
        no call fails or stops short, except that a failure to write the ciphertext goes unnoticed and leaves
        the header; and otherwise the file is as it was, or a proper prefix of what it should be. */
    ghost predicate Writes(name: Name, c: Store.Contents, before: map<Name, seq<Byte>>, after: map<Name, seq<Byte>>,
                           ret: nat, lost: bool, faulty: bool, denied: seq<SafeFile.Refused>)
      reads `opslimit, `memlimit
    {
      exists h :: Ours(h) && WritesUnder(h, name, c, before, after, ret, lost, faulty, denied)
    }

    ghost predicate WritesUnder(h: SafeFile.Header, name: Name, c: Store.Contents, before: map<Name, seq<Byte>>,
                                after: map<Name, seq<Byte>>, ret: nat, lost: bool, faulty: bool, denied: seq<SafeFile.Refused>)
      requires h.Valid()
    {
      match SafeFile.Sealed(conf.k, conf.master, h, c)
      case None =>
        && !lost && denied == [] && (after == before || after == before[name := []]) && ret != KP_SUCCESS
        && (!faulty ==>
              ret == if conf.k.kdf(conf.master, h.salt, h.opslimit, h.memlimit).None? then KP_ERRNO else KP_EENCRYPT)
      case Some(sealed) =>
        && (lost <==> denied == [SafeFile.Refused(60, sealed[60..])])
        && (ret == KP_SUCCESS <==> !faulty || lost)
        && (ret == KP_SUCCESS ==> after == before[name := if lost then SafeFile.Packed(h) else sealed])
        && (ret != KP_SUCCESS ==>
              ret == KP_ERRNO && (after == before || (name in after && after[name] < sealed && after == before[name := after[name]])))
    }

    /** kp_storage_save on the file of a safe, with a fresh salt and nonce. `lost` is a failed write of the
        ciphertext, which goes unnoticed. */
    method WriteFile(name: Name, c: Store.Contents) returns (ret: nat, ghost lost: bool)
      requires Valid() && ContentsFit(c)
      modifies this`disk, this`fileFaults, this`refused
      ensures Valid() && old(refused) <= refused
      ensures Writes(name, c, old(disk), disk, ret, lost, fileFaults != old(fileFaults), refused[|old(refused)|..])
      ensures ret == KP_SUCCESS && !lost ==> exists f :: Holds(conf, f, c) && disk == old(disk)[name := f]
      ensures disk - {name} == old(disk) - {name}
    {
      hide Holds, Posted, SafeFile.Sealed, SafeFile.Packed;
      var salt: seq<Byte> :| |salt| == SafeFile.SALT_SIZE by { assert |Zeros(SafeFile.SALT_SIZE)| == SafeFile.SALT_SIZE; }
      var nonce: seq<Byte> :| |nonce| == SafeFile.NONCE_SIZE by { assert |Zeros(SafeFile.NONCE_SIZE)| == SafeFile.NONCE_SIZE; }
      var h := SafeFile.FileHeader(sodium, opslimit, memlimit, salt, nonce);
      assert Ours(h);
      ret, lost := WriteUnder(h, name, c);
      assert Ours(h);
      if ret == KP_SUCCESS && !lost {
        SealedHolds(conf, h, c, disk[name]);
      }
    }

    method WriteUnder(h: SafeFile.Header, name: Name, c: Store.Contents) returns (ret: nat, ghost lost: bool)
      requires conf.k.Laws() && ContentsFit(c) && h.Valid()
      modifies this`disk, this`fileFaults, this`refused
      ensures old(refused) <= refused
      ensures WritesUnder(h, name, c, old(disk), disk, ret, lost, fileFaults != old(fileFaults), refused[|old(refused)|..])
    {
      CStrOfPadded(c.password, PASSWORD_MAX);
      CStrOfPadded(c.metadata, METADATA_MAX);
      hide Padded, CStr, Terminated, SafeFile.Sealed, SafeFile.Packed, WritesUnder;
      var openable: bool :| openable || !openable;
      ghost var denied := refused;
      if openable {
        var file := new SafeFile.File(if name in disk then disk[name] else []);
        ret, lost := SafeFile.Save(conf.k, conf.master, h, file, Padded(c.password, PASSWORD_MAX), Padded(c.metadata, METADATA_MAX));
        FileWrites(h, name, c, disk, file.bytes, ret, lost, file.faults != 0, file.refused);
        disk := disk[name := file.bytes];
        fileFaults := fileFaults + file.faults;
        refused := refused + file.refused;
        assert refused[|denied|..] == file.refused;
      } else {
        ret, lost := SafeFile.Save(conf.k, conf.master, h, null, Padded(c.password, PASSWORD_MAX), Padded(c.metadata, METADATA_MAX));
        NothingWritten(h, name, c, disk);
        fileFaults := fileFaults + 1;
        assert refused[|denied|..] == [];
      }
    }

    /** A file that cannot be opened is left alone. */
    lemma {:induction false} NothingWritten(h: SafeFile.Header, name: Name, c: Store.Contents, before: map<Name, seq<Byte>>)
      requires h.Valid()
      ensures WritesUnder(h, name, c, before, before, KP_ERRNO, false, true, [])
    {
    }

    /** From what a save does to the open file. */
    lemma {:induction false} FileWrites(h: SafeFile.Header, name: Name, c: Store.Contents, before: map<Name, seq<Byte>>,
                                        bytes: seq<Byte>, ret: nat, lost: bool, faulty: bool, denied: seq<SafeFile.Refused>)
      requires h.Valid() && ret in {KP_SUCCESS, KP_ERRNO, KP_EENCRYPT}
      requires var was := if name in before then before[name] else [];
               match SafeFile.Sealed(conf.k, conf.master, h, c)
               case None =>
                 && ret != KP_SUCCESS && (bytes == was || bytes == []) && !lost && denied == []
                 && (!faulty ==>
                       ret == if conf.k.kdf(conf.master, h.salt, h.opslimit, h.memlimit).None? then KP_ERRNO else KP_EENCRYPT)
               case Some(sealed) =>
                 && (if ret != KP_SUCCESS then ret == KP_ERRNO && (bytes == was || bytes < sealed)
                     else bytes == if lost then SafeFile.Packed(h) else sealed)
                 && (lost <==> denied == [SafeFile.Refused(60, sealed[60..])])
                 && (ret == KP_SUCCESS <==> !faulty || lost)
      ensures WritesUnder(h, name, c, before, before[name := bytes], ret, lost, faulty, denied)
    {
      hide SafeFile.Packed;
      assert name in before ==> before == before[name := before[name]];
      if SafeFile.Sealed(conf.k, conf.master, h, c).Some? {
        assert [] < SafeFile.Sealed(conf.k, conf.master, h, c).value;
      }
    }

    /** unlinkat on the file of a safe. */
    method Unlink(name: Name) returns (ok: bool)
      modifies this`disk, this`fileFaults
      ensures ok <==> name in old(disk) && fileFaults == old(fileFaults)
      ensures disk == if ok then old(disk) - {name} else old(disk)
    {
      ok :| ok ==> name in disk;
      if ok {
        disk := disk - {name};
      } else if name in disk {
        fileFaults := fileFaults + 1;
      }
    }

    /** renameat: 0, or an errno. */
    method RenameFile(from: Name, to: Name) returns (errno: nat)
      modifies this`disk, this`fileFaults
      ensures errno == 0 <==> from in old(disk) && fileFaults == old(fileFaults)
      ensures from !in old(disk) && fileFaults == old(fileFaults) ==> errno == ENOENT
      ensures disk == if errno == 0 then (old(disk) - {from})[to := old(disk)[from]] else old(disk)
    {
      errno :| errno >= 0;
      if errno == 0 && from !in disk {
        errno := ENOENT;
      }
      if errno == 0 {
        disk := (disk - {from})[to := disk[from]];
      } else if from in disk || errno != ENOENT {
        fileFaults := fileFaults + 1;
      }
    }

    /** An open safe, as the operations see it. */
    ghost function HandleOf(safe: KpSafe, clean: bool): Handle
      reads safe
    {
      Handle(safe.name, safe.Contents(), clean)
    }

    // ---- The operations ----

    /** The agent's part of kp_safe_open. The two strings always come terminated, so that the length
        checks the code makes on them cannot fail. */
    method AskForSafe(name: Name) returns (served: Option<Store.Contents>, ghost fails: bool, ghost met: Hub)
      requires Valid() && Fits(name, PATH_MAX)
      modifies this`hub, this`linkFaults
      ensures Valid() && OpensVia(old(hub), conn, name, met, served, hub)
      ensures served.Some? ==> ContentsFit(served.value)
      ensures fails <==> linkFaults != old(linkFaults)
      ensures fails ==> served == None && Fails(old(hub), conn, SearchReq(name), hub)
      ensures !fails ==> Flushed(old(hub), conn, met) && Posted(met) && OpenedFrom(met, conn, name, served, hub)
    {
      hide Posted, Found, NoSuchSafe, Discarded, Flushed, Fails;
      var a;
      a, fails, met := Ask(SearchReq(name), MSG_SEARCH, UNSAFE_SIZE);
      served := None;
      if !fails {
        AnyAnswer(Asked(met, conn, SearchReq(name)).0, pid);
      }
      if a.Data? {
        GenuineServes(Asked(met, conn, SearchReq(name)).0);
        var u := DecodeUnsafe(a.data);
        served := Some(u.Value());
      }
      assert !fails ==> OpenedFrom(met, conn, name, served, hub);
    }

    /** kp_safe_open. Asking for a new safe creates the directories above it and requires that no file
        is there; otherwise the agent is asked first, unless the file is forced, and the file is read
        when the exchange fails or the first unread reply is not one that serves a safe. */
    method Open(safe: KpSafe, create: bool, force: bool)
      returns (ret: nat, ghost fails: bool, ghost met: Hub, ghost served: Option<Store.Contents>)
      requires Valid() && safe.Valid() && !safe.open
      modifies this`hub, this`linkFaults, this`fileFaults, tree, safe`open, safe`password, safe`metadata
      ensures Valid() && safe.Valid() && safe.open
      ensures disk == old(disk)
      ensures create || force || !connected ==> hub == old(hub)
      ensures ret == KP_SUCCESS && create ==>
                Does(conf, old(World()), conn, Closed, Create(safe.name), World(), HandleOf(safe, false))
      ensures ret == KP_SUCCESS && !create ==>
                Does(conf, old(World()), conn, Closed, Cache.Open(safe.name, force || !connected), World(), HandleOf(safe, true))
      ensures (safe.name in disk) == create ==> ret != KP_SUCCESS
      ensures create ==> (ret == KP_SUCCESS <==>
                safe.name !in disk && tree.faults == old(tree.faults) && !(safe.name != [] && safe.name[0] == SLASH))
      ensures create && ret == KP_SUCCESS ==> tree.present == old(tree.present) + Cuts(safe.name, |safe.name|)
      ensures !create ==> tree.present == old(tree.present)
      ensures !create && safe.name !in disk ==> ret == KP_ERRNO && hub == old(hub)
      ensures fails <==> linkFaults != old(linkFaults)
      ensures !create && safe.name in disk && !force && connected ==>
                if fails then served == None && Fails(old(hub), conn, SearchReq(safe.name), hub)
                else Flushed(old(hub), conn, met) && Posted(met) && OpenedFrom(met, conn, safe.name, served, hub)
      ensures served.Some? ==> ret == KP_SUCCESS && safe.Contents() == served.value && fileFaults == old(fileFaults)
      ensures !create && safe.name in disk && served == None ==>
                if fileFaults == old(fileFaults) then ReadsAs(conf, disk[safe.name], ret, safe.Contents()) else ret == KP_ERRNO
      ensures create || ret != KP_SUCCESS ==> safe.Contents() == Store.Contents([], [])
      ensures create || safe.name !in disk ==> fileFaults == old(fileFaults)
    {
      hide OpensVia, FileOpens, Elapsed, Posted, Fails, Flushed, OpenedFrom, ReadsAs;
      fails, met, served := false, hub, None;
      safe.open, safe.password, safe.metadata := true, [], [];
      if create {
        ret := tree.MakeParents(safe.name);
        if ret != KP_SUCCESS {
          return;
        }
      }
      if (safe.name in disk) == create {
        return KP_ERRNO, fails, met, served;
      }
      if create {
        return KP_SUCCESS, fails, met, served;
      }
      ElapsedRefl(hub);
      if !force && connected {
        var answer;
        answer, fails, met := AskForSafe(safe.name);
        served := answer;
        assert AgentOpens(old(hub), conn, safe.name, answer, hub);
        if answer.Some? {
          safe.password, safe.metadata := answer.value.password, answer.value.metadata;
          return KP_SUCCESS, fails, met, served;
        }
      }
      var c;
      ret, c := ReadFile(safe.name);
      if ret == KP_SUCCESS {
        OpensFits(conf, disk[safe.name], c);
        safe.password, safe.metadata := c.password, c.metadata;
      }
    }

    /** kp_safe_save: search the agent, and when the first unread reply serves a safe, send its structure
        back with the new strings in it; then write the file, whatever became of that. `lost` is a failed
        write of the file that goes unnoticed. */
    method Save(safe: KpSafe) returns (ret: nat, ghost lost: bool, ghost met: Hub, ghost told: Option<Name>, ghost m2: Hub)
      requires Valid() && safe.Valid() && safe.open
      modifies this`hub, this`disk, this`linkFaults, this`fileFaults, this`refused
      ensures Valid() && old(refused) <= refused
      ensures disk - {safe.name} == old(disk) - {safe.name}
      ensures Writes(safe.name, safe.Contents(), old(disk), disk, ret, lost, fileFaults != old(fileFaults), refused[|old(refused)|..])
      ensures !connected ==> hub == old(hub) && linkFaults == old(linkFaults)
      ensures connected ==> SavesVia(old(hub), conn, safe.name, safe.Contents(), met, told, m2, hub)
      ensures connected && linkFaults == old(linkFaults) ==> Updates(old(hub), safe.name, met, told)
      ensures ret == KP_SUCCESS && connected && !lost ==>
                forall clean :: Does(conf, old(World()), conn, old(HandleOf(safe, clean)), Cache.Save, World(), HandleOf(safe, true))
    {
      hide SavesVia, Holds, Posted, Writes, Updates;
      met, told, m2 := hub, None, hub;
      if connected {
        ghost var met', told', m2';
        met', told', m2' := UpdateAgent(safe);
        met, told, m2 := met', told', m2';
        assert AgentSaves(old(hub), conn, safe.name, safe.Contents(), hub);
      }
      ret, lost := WriteFile(safe.name, safe.Contents());
    }

    /** An exchange in which nothing fails: the search gets through, and so does a store exactly when the
        first unread reply serves a safe. */
    ghost predicate Updates(before: Hub, name: Name, met: Hub, told: Option<Name>) {
      && Flushed(before, conn, met) && StoreFits(met.state.store)
      && (told.Some? <==> Serves(Asked(met, conn, SearchReq(name)).0))
    }

    /** The agent's half of kp_safe_save. The name in the structure is left as it was read. */
    method UpdateAgent(safe: KpSafe) returns (ghost met: Hub, ghost told: Option<Name>, ghost m2: Hub)
      requires Valid() && safe.Valid()
      modifies this`hub, this`linkFaults
      ensures Valid() && SavesVia(old(hub), conn, safe.name, safe.Contents(), met, told, m2, hub)
      ensures linkFaults == old(linkFaults) ==> Updates(old(hub), safe.name, met, told)
    {
      hide Posted, Found, NoSuchSafe, Discarded, Flushed, Fails, StoresAfter;
      var a;
      ghost var fails;
      a, fails, met := Ask(SearchReq(safe.name), MSG_SEARCH, UNSAFE_SIZE);
      told, m2 := None, hub;
      if !fails {
        AnyAnswer(Asked(met, conn, SearchReq(safe.name)).0, pid);
      }
      if a.Data? {
        GenuineServes(Asked(met, conn, SearchReq(safe.name)).0);
        var u := DecodeUnsafe(a.data);
        var v := Rewritten(u, safe.Contents());
        RewrittenReads(u, safe.Contents());
        var ret;
        ghost var m;
        ret, m := Tell(v);
        told, m2 := if ret == KP_SUCCESS then Some(CStr(u.name)) else None, m;
      }
      assert !fails ==> SavedFrom(met, conn, safe.name, safe.Contents(), told, m2, hub);
    }

    /** kp_safe_store: whether the message gets through is not reported. */
    method Put(safe: KpSafe, timeout: int) returns (ret: nat, ghost arrives: bool, ghost met: Hub)
      requires Valid() && safe.Valid()
      modifies this`hub, this`linkFaults
      ensures Valid() && disk == old(disk)
      ensures ret == KP_SUCCESS <==> connected
      ensures ret != KP_SUCCESS ==> ret == KP_EINPUT && hub == old(hub) && linkFaults == old(linkFaults)
      ensures ret == KP_SUCCESS ==> StoresAfter(old(hub), conn, safe.name, safe.Contents(), timeout, arrives, met, hub)
      ensures ret == KP_SUCCESS ==> (arrives <==> linkFaults == old(linkFaults))
      ensures ret == KP_SUCCESS ==>
                forall clean :: Does(conf, old(World()), conn, old(HandleOf(safe, clean)), Cache.Put(timeout), World(), HandleOf(safe, clean))
    {
      hide Posted, StoresAfter;
      arrives, met := false, hub;
      if !connected {
        return KP_EINPUT, false, hub;
      }
      FillReads(timeout, safe.name, safe.Contents());
      var sent;
      ghost var m;
      sent, m := Tell(Fill(timeout, safe.name, safe.Contents()));
      arrives, met := sent == KP_SUCCESS, m;
      assert AgentPuts(old(hub), conn, safe.name, safe.Contents(), timeout, hub);
      ret := KP_SUCCESS;
    }

    /** kp_safe_close. */
    method Close(safe: KpSafe) returns (ret: nat)
      modifies safe
      ensures ret == KP_SUCCESS && !safe.open && safe.name == old(safe.name)
      ensures safe.Contents() == if old(safe.open) then Store.Contents([], []) else old(safe.Contents())
    {
      if !safe.open {
        return KP_SUCCESS;
      }
      safe.password, safe.metadata, safe.open := [], [], false;
      ret := KP_SUCCESS;
    }

    /** kp_safe_delete: with an agent connected, the first unread reply must confirm a discard, or nothing
        is deleted; with nothing unread, that is so exactly when the agent has the safe. Whatever the outcome,
        one discard has been sent and one reply been read, unless that exchange fails. */
    method Delete(safe: KpSafe) returns (ret: nat, ghost fails: bool, ghost met: Hub)
      requires Valid() && safe.Valid() && safe.open
      modifies this`hub, this`disk, this`linkFaults, this`fileFaults
      ensures Valid()
      ensures !connected ==> hub == old(hub) && !fails
      ensures fails <==> linkFaults != old(linkFaults)
      ensures fails ==> ret == KP_ERRNO && Fails(old(hub), conn, DiscardReq(safe.name), hub)
      ensures connected && !fails ==>
                && Flushed(old(hub), conn, met) && Posted(met)
                && var x := Asked(met, conn, DiscardReq(safe.name));
                   && hub == x.1
                   && (!Confirms(x.0) ==> ret == if x.0 == NoSuchSafe() then KP_ERRNO else KP_INVALID_MSG)
      ensures Refuses(fails, met, safe.name) ==> fileFaults == old(fileFaults)
      ensures ret == KP_SUCCESS <==>
              !Refuses(fails, met, safe.name) && safe.name in old(disk) && fileFaults == old(fileFaults)
      ensures connected && !fails && met.Unread(conn) == [] ==> (Refuses(fails, met, safe.name) <==> safe.name !in met.state.store)
      ensures disk == if ret == KP_SUCCESS then old(disk) - {safe.name} else old(disk)
      ensures ret == KP_SUCCESS && connected ==>
                forall clean :: Does(conf, old(World()), conn, old(HandleOf(safe, clean)), Cache.Delete, World(), HandleOf(safe, false))
    {
      hide Found, NoSuchSafe, Discarded, Flushed, Fails, Fits, ContentsFit, Genuine, AllProper;
      met, fails := hub, false;
      if connected {
        var a;
        var r := DiscardReq(safe.name);
        a, fails, met := Ask(r, MSG_DISCARD, 1);
        if !fails {
          AnyAnswer(Asked(met, conn, r).0, pid);
          OwnAnswer(met, conn, r);
          DeservedGenuine(met.state.store, r);
        }
        if !a.Data? {
          return CodeOf(a), fails, met;
        }
        assert DeletedFrom(met, conn, safe.name, hub);
        assert AgentDeletes(old(hub), conn, safe.name, hub);
      }
      var unlinked := Unlink(safe.name);
      ret := if unlinked then KP_SUCCESS else KP_ERRNO;
    }

    /** Whether the agent stops a delete: the exchange fails, or what is read does not confirm a discard. */
    ghost predicate Refuses(fails: bool, met: Hub, name: Name)
      requires connected && !fails ==> StoreFits(met.state.store)
      reads `connected
    {
      connected && (fails || !Confirms(Asked(met, conn, DiscardReq(name)).0))
    }

    /** The agent's half of kp_safe_rename: discard the old name, and when the first unread reply confirms
        a discard, store the safe under the new one, without a timeout. */
    method RenameInAgent(safe: KpSafe, oldName: Name) returns (ghost met: Hub, ghost arrives: bool, ghost m2: Hub)
      requires Valid() && safe.Valid() && Fits(oldName, PATH_MAX)
      modifies this`hub, this`linkFaults
      ensures Valid() && RenamesVia(old(hub), conn, oldName, safe.name, safe.Contents(), met, arrives, m2, hub)
      ensures linkFaults == old(linkFaults) ==> Carries(old(hub), oldName, met, arrives)
    {
      hide Posted, Found, NoSuchSafe, Discarded, Flushed, Fails, Genuine, StoresAfter;
      var a;
      ghost var fails;
      a, fails, met := Ask(DiscardReq(oldName), MSG_DISCARD, 1);
      arrives, m2 := false, hub;
      if !fails {
        AnyAnswer(Asked(met, conn, DiscardReq(oldName)).0, pid);
      }
      if a.Data? {
        FillReads(-1, safe.name, safe.Contents());
        var ret;
        ghost var m;
        ret, m := Tell(Fill(-1, safe.name, safe.Contents()));
        arrives, m2 := ret == KP_SUCCESS, m;
      }
      assert !fails ==> RenamedFrom(met, conn, oldName, safe.name, safe.Contents(), arrives, m2, hub);
    }

    /** An exchange in which nothing fails: the discard gets through, and so does a store exactly when the
        first unread reply confirms a discard. */
    ghost predicate Carries(before: Hub, from: Name, met: Hub, arrives: bool) {
      && Flushed(before, conn, met) && StoreFits(met.state.store)
      && (arrives <==> Confirms(Asked(met, conn, DiscardReq(from)).0))
    }

    /** kp_safe_rename: the agent first, then the directories and the file. The name in the handle changes
        at once, and the target is not checked. */
    method Rename(safe: KpSafe, name: Name) returns (ret: nat, ghost met: Hub, ghost arrives: bool, ghost m2: Hub)
      requires Valid() && safe.Valid() && NulFree(name)
      modifies this`hub, this`disk, this`linkFaults, this`fileFaults, tree, safe`name
      ensures Valid() && safe.Valid()
      ensures |name| >= PATH_MAX ==>
                ret == KP_ERRNO && hub == old(hub) && tree.present == old(tree.present) && safe.name == name[..PATH_MAX - 1]
      ensures |name| < PATH_MAX ==> safe.name == name
      ensures ret == KP_SUCCESS <==>
              && |name| < PATH_MAX && !(name != [] && name[0] == SLASH) && tree.faults == old(tree.faults)
              && old(safe.name) in old(disk) && fileFaults == old(fileFaults)
      ensures |name| < PATH_MAX && !(name != [] && name[0] == SLASH) && tree.faults == old(tree.faults) ==>
                && tree.present == old(tree.present) + Cuts(name, |name|)
                && (old(safe.name) !in old(disk) && fileFaults == old(fileFaults) ==> ret == ENOENT)
      ensures disk == if ret != KP_SUCCESS then old(disk)
                      else (old(disk) - {old(safe.name)})[name := old(disk)[old(safe.name)]]
      ensures !connected ==> hub == old(hub)
      ensures connected && |name| < PATH_MAX ==>
                RenamesVia(old(hub), conn, old(safe.name), name, safe.Contents(), met, arrives, m2, hub)
      ensures connected && |name| < PATH_MAX && linkFaults == old(linkFaults) ==> Carries(old(hub), old(safe.name), met, arrives)
      ensures ret == KP_SUCCESS && connected ==>
                forall clean :: Does(conf, old(World()), conn, old(HandleOf(safe, clean)), Cache.Rename(name), World(), HandleOf(safe, clean))
    {
      hide Posted, RenamesVia, Carries;
      met, arrives, m2 := hub, false, hub;
      var oldName := safe.name;
      if |name| >= PATH_MAX {
        safe.name := name[..PATH_MAX - 1];
        return KP_ERRNO, met, arrives, m2;
      }
      safe.name := name;
      if connected {
        ghost var met', arrives', m2';
        met', arrives', m2' := RenameInAgent(safe, oldName);
        met, arrives, m2 := met', arrives', m2';
        assert AgentRenames(old(hub), conn, oldName, name, safe.Contents(), hub);
      }
      ret := tree.MakeParents(safe.name);
      if ret != KP_SUCCESS {
        return;
      }
      ret := RenameFile(oldName, safe.name);
    }
  }

  /** The structure that a save sends back: the one it read, with the two strings replaced. */
  function Rewritten(u: Unsafe, c: Store.Contents): (v: Unsafe)
    requires u.Sized() && ContentsFit(c)
    ensures v.Sized()
  {
    u.(password := Overwrite(u.password, c.password), metadata := Overwrite(u.metadata, c.metadata))
  }

  lemma {:induction false} RewrittenReads(u: Unsafe, c: Store.Contents)
    requires u.Sized() && u.AllTerminated() && ContentsFit(c)
    ensures var v := Rewritten(u, c);
            v.AllTerminated() && v.Value() == c && v.name == u.name && v.timeout == u.timeout
  {
    OverwriteReads(u.password, c.password);
    OverwriteReads(u.metadata, c.metadata);
  }

  lemma {:induction false} SealedHolds(conf: Conf, h: SafeFile.Header, c: Store.Contents, f: seq<Byte>)
    requires conf.k.Laws() && h.Valid() && ContentsFit(c)
    requires SafeFile.Sealed(conf.k, conf.master, h, c) == Some(f)
    ensures Holds(conf, f, c)
  {
    forall g | |g| == SafeFile.PLAIN_MAX ensures SafeFile.Opened(conf.k, conf.master, f, g) == SafeFile.Ok(c) {
      SafeFile.SavedOpens(conf.k, conf.master, h, c, g);
    }
  }

  lemma {:induction false} OpensFits(conf: Conf, bytes: seq<Byte>, c: Store.Contents)
    requires conf.k.Laws() && FileOpens(conf, bytes, c)
    ensures ContentsFit(c)
  {
  }

  lemma {:induction false} TimeMoves(a: Hub, later: int)
    requires a.now <= later
    ensures Moves(a, a.(now := later))
  {
  }

  lemma {:induction false} FiringMoves(a: Hub, i: nat)
    requires Due(a, i)
    ensures Moves(a, Fired(a, i))
  {
  }
}
