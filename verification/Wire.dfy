/** One direction of a connected stream socket that can also carry descriptors. */
module Wire {
  import opened Bytes

  const NO_FD: int := -1

  /** A byte in flight. `fd` is the descriptor passed with the send that this byte begins, or NO_FD. */
  datatype Cell = Cell(b: Byte, fd: int)

  function BytesOf(cells: seq<Cell>): (s: seq<Byte>)
    ensures |s| == |cells|
  {
    seq(|cells|, i requires 0 <= i < |cells| => cells[i].b)
  }

  /** The descriptors attached to some cells, in order. */
  function Marks(cells: seq<Cell>): (fds: seq<int>)
    ensures |fds| <= |cells|
  {
    if cells == [] then []
    else (if cells[0].fd == NO_FD then [] else [cells[0].fd]) + Marks(cells[1..])
  }

  /** The cells of one send: the descriptor rides on the first byte. */
  function Marked(s: seq<Byte>, fd: int): (cells: seq<Cell>)
    ensures |cells| == |s|
    ensures BytesOf(cells) == s
  {
    seq(|s|, i requires 0 <= i < |s| => Cell(s[i], if i == 0 then fd else NO_FD))
  }

  predicate Plain(cells: seq<Cell>) {
    forall i :: 0 <= i < |cells| ==> cells[i].fd == NO_FD
  }

  lemma {:induction false} PlainParts(a: seq<Cell>, b: seq<Cell>)
    ensures Plain(a + b) <==> Plain(a) && Plain(b)
  {
    assert Plain(a + b) ==> Plain(b) by {
      assert forall i :: 0 <= i < |b| ==> b[i] == (a + b)[|a| + i];
    }
    assert forall i :: 0 <= i < |a| ==> a[i] == (a + b)[i];
  }

  /** The cells of one send, cut somewhere: what comes behind the first byte is plain. */
  lemma {:induction false} MarkedParts(s: seq<Byte>, fd: int, n: nat)
    requires n <= |s|
    ensures Marked(s, NO_FD)[n..] == Marked(s[n..], NO_FD)
    ensures Plain(Marked(s, NO_FD))
    ensures s != [] ==> Marked(s, fd)[0].fd == fd
  {
  }

  lemma {:induction false} BytesOfAppend(a: seq<Cell>, b: seq<Cell>)
    ensures BytesOf(a + b) == BytesOf(a) + BytesOf(b)
  {
  }

  lemma {:induction false} MarksAppend(a: seq<Cell>, b: seq<Cell>)
    ensures Marks(a + b) == Marks(a) + Marks(b)
  {
    if a == [] {
      assert a + b == b;
    } else {
      HeadTail(a, b);
      MarksAppend(a[1..], b);
    }
  }

  lemma {:induction false} PlainHasNoMarks(cells: seq<Cell>)
    ensures Plain(cells) <==> Marks(cells) == []
  {
    if cells != [] {
      PlainHasNoMarks(cells[1..]);
      assert Plain(cells[1..]) ==> forall i :: 1 <= i < |cells| ==> cells[i] == cells[1..][i - 1];
    }
  }

  lemma {:induction false} MarksOfMarked(s: seq<Byte>, fd: int)
    requires s != []
    ensures Marks(Marked(s, fd)) == if fd == NO_FD then [] else [fd]
  {
    assert Plain(Marked(s, fd)[1..]);
    PlainHasNoMarks(Marked(s, fd)[1..]);
  }

  /** The kernel's side of one direction of a connection. Two histories: how often sendmsg has sent
      nothing, and how often recvmsg has failed. */
  class Pipe {
    var cells: seq<Cell>
    ghost var unsent: nat
    ghost var unread: nat

    constructor ()
      ensures cells == [] && unsent == unread == 0
    {
      cells := [];
      unsent, unread := 0, 0;
    }

    /** sendmsg: may fail (-1), may report a closed connection (0), or takes any non-empty part of
        the data; the descriptor goes with whatever was taken. */
    method SendMsg(data: seq<Byte>, fd: int) returns (n: int)
      modifies this
      ensures -1 <= n <= |data|
      ensures n <= 0 ==> cells == old(cells)
      ensures n > 0 ==> cells == old(cells) + Marked(data[..n], fd)
      ensures unsent == old(unsent) + (if n > 0 then 0 else 1) && unread == old(unread)
    {
      n :| -1 <= n <= |data|;
      if n > 0 {
        cells := cells + Marked(data[..n], fd);
      } else {
        unsent := unsent + 1;
      }
    }

    /** recvmsg: fails (-1), reports end of stream (0), or returns any non-empty part of what is
        there, stopping before a second descriptor. */
    method RecvMsg(room: nat) returns (n: int, data: seq<Byte>, fds: seq<int>)
      modifies this
      ensures -1 <= n <= room && n <= |old(cells)|
      ensures n == 0 ==> room == 0 || old(cells) == []
      ensures n <= 0 ==> cells == old(cells) && data == [] && fds == []
      ensures n > 0 ==> old(cells) == old(cells)[..n] + cells
      ensures n > 0 ==> data == BytesOf(old(cells)[..n]) && fds == Marks(old(cells)[..n]) && |fds| <= 1
      ensures unread == old(unread) + (if n < 0 then 1 else 0) && unsent == old(unsent)
    {
      data, fds := [], [];
      if room == 0 || cells == [] {
        n :| n == -1 || n == 0;
      } else {
        assert |Marks(cells[..1])| <= 1;
        n :| -1 <= n <= room && n <= |cells| && n != 0 && (n > 0 ==> |Marks(cells[..n])| <= 1);
      }
      if n > 0 {
        data, fds, cells := BytesOf(cells[..n]), Marks(cells[..n]), cells[n..];
      } else if n < 0 {
        unread := unread + 1;
      }
    }
  }
}
