/** Bytes, fixed-width integers and C strings, as the C code lays them out in memory. */
module Bytes {

  type Byte = x: int | 0 <= x < 0x100
  type U16 = x: int | 0 <= x < 0x1_0000
  type U32 = x: int | 0 <= x < 0x1_0000_0000
  type U64 = x: int | 0 <= x < 0x1_0000_0000_0000_0000

  /** '/', which separates the components of a path. */
  const SLASH: Byte := 47

  /** 256 to the power n: the number of values that n bytes can hold. */
  function Pow256(n: nat): (p: nat)
    ensures p > 0
  {
    if n == 0 then 1 else 256 * Pow256(n - 1)
  }

  lemma {:induction false} Widths()
    ensures Pow256(2) == 0x1_0000
    ensures Pow256(4) == 0x1_0000_0000
    ensures Pow256(8) == 0x1_0000_0000_0000_0000
  {
    assert Pow256(4) == 256 * (256 * Pow256(2));
    assert Pow256(6) == 256 * (256 * Pow256(4));
    assert Pow256(8) == 256 * (256 * Pow256(6));
  }

  /** The n low-order bytes of v, least significant first (the host's own order). */
  function Le(v: nat, n: nat): (s: seq<Byte>)
    ensures |s| == n
  {
    if n == 0 then [] else [v % 256] + Le(v / 256, n - 1)
  }

  function FromLe(s: seq<Byte>): nat {
    if s == [] then 0 else s[0] + 256 * FromLe(s[1..])
  }

  /** The n low-order bytes of v, most significant first (htobe16, htobe64). */
  function Be(v: nat, n: nat): (s: seq<Byte>)
    ensures |s| == n
  {
    if n == 0 then [] else Be(v / 256, n - 1) + [v % 256]
  }

  function FromBe(s: seq<Byte>): nat {
    if s == [] then 0 else 256 * FromBe(s[..|s| - 1]) + s[|s| - 1]
  }

  lemma {:induction false} LeDecodes(v: nat, n: nat)
    requires v < Pow256(n)
    ensures FromLe(Le(v, n)) == v
  {
    if n > 0 {
      LeDecodes(v / 256, n - 1);
      assert Le(v, n)[1..] == Le(v / 256, n - 1);
    }
  }

  lemma {:induction false} LeEncodes(s: seq<Byte>)
    ensures FromLe(s) < Pow256(|s|)
    ensures Le(FromLe(s), |s|) == s
  {
    if s != [] {
      LeEncodes(s[1..]);
      var v := FromLe(s);
      assert v % 256 == s[0] && v / 256 == FromLe(s[1..]);
      assert s == [s[0]] + s[1..];
    }
  }

  /** The numbers at a position, read off as little-endian ones. */
  function Le16At(p: seq<Byte>, i: nat): int
    requires i + 2 <= |p|
  {
    var low: int, high: int := p[i], p[i + 1];
    low + 0x100 * high
  }

  function Le32At(p: seq<Byte>, i: nat): int
    requires i + 4 <= |p|
  {
    Le16At(p, i) + 0x1_0000 * Le16At(p, i + 2)
  }

  function Le64At(p: seq<Byte>, i: nat): int
    requires i + 8 <= |p|
  {
    Le32At(p, i) + 0x1_0000_0000 * Le32At(p, i + 4)
  }

  lemma {:induction false} LittleEndianStep(s: seq<Byte>, i: nat)
    requires i + 2 <= |s|
    ensures FromLe(s[i..]) == Le16At(s, i) + 0x1_0000 * FromLe(s[i + 2..])
  {
    assert s[i..][1..] == s[i + 1..] && s[i + 1..][1..] == s[i + 2..];
  }

  /** A number written at a position is what stands there. */
  lemma {:induction false} LittleEndian(v: nat, n: nat)
    requires v < Pow256(n)
    ensures n == 2 ==> v == Le16At(Le(v, n), 0)
    ensures n == 4 ==> v == Le32At(Le(v, n), 0)
    ensures n == 8 ==> v == Le64At(Le(v, n), 0)
  {
    var s := Le(v, n);
    LeDecodes(v, n);
    assert s[0..] == s && FromLe(s[n..]) == 0;
    hide Le, FromLe;
    if n == 2 {
      LittleEndianStep(s, 0);
    } else if n == 4 {
      LittleEndianStep(s, 0);
      LittleEndianStep(s, 2);
    } else if n == 8 {
      LittleEndianStep(s, 0);
      LittleEndianStep(s, 2);
      LittleEndianStep(s, 4);
      LittleEndianStep(s, 6);
    }
  }

  lemma {:induction false} BeDecodes(v: nat, n: nat)
    requires v < Pow256(n)
    ensures FromBe(Be(v, n)) == v
  {
    if n > 0 {
      BeDecodes(v / 256, n - 1);
      assert Be(v, n)[..n - 1] == Be(v / 256, n - 1);
    }
  }

  lemma {:induction false} BeEncodes(s: seq<Byte>)
    ensures FromBe(s) < Pow256(|s|)
    ensures Be(FromBe(s), |s|) == s
  {
    if s != [] {
      var init := s[..|s| - 1];
      BeEncodes(init);
      assert s == init + [s[|s| - 1]];
    }
  }

  // ---- Concatenation ----

  lemma {:induction false} Assoc<T>(a: seq<T>, b: seq<T>, c: seq<T>)
    ensures (a + b) + c == a + (b + c)
  {
  }

  lemma {:induction false} HeadTail<T>(s: seq<T>, t: seq<T>)
    requires s != []
    ensures [s[0]] + (s[1..] + t) == s + t
    ensures (s + t)[1..] == s[1..] + t
  {
  }

  lemma {:induction false} UpdateTail<T>(s: seq<T>, k: nat, x: T)
    requires 0 < k < |s|
    ensures s[k := x] == [s[0]] + s[1..][k - 1 := x]
  {
  }

  /** Cutting a concatenation behind its first part, and inside it. */
  lemma {:induction false} CutBehind<T>(a: seq<T>, b: seq<T>, k: nat)
    requires k <= |b|
    ensures (a + b)[..|a| + k] == a + b[..k] && (a + b)[|a| + k..] == b[k..]
  {
  }

  lemma {:induction false} CutInside<T>(a: seq<T>, b: seq<T>, k: nat)
    requires k <= |a|
    ensures (a + b)[..k] == a[..k] && (a + b)[k..] == a[k..] + b
  {
  }

  lemma {:induction false} Rejoin<T>(s: seq<T>, k: nat)
    requires k <= |s|
    ensures s[..k] + s[k..] == s
  {
  }

  lemma {:induction false} SliceOfTake<T>(s: seq<T>, n: nat, from: nat, to: nat)
    requires from <= to <= n <= |s|
    ensures s[..n][from..to] == s[from..to]
  {
  }

  lemma {:induction false} Without<T>(s: seq<T>, i: nat)
    requires i < |s|
    ensures multiset(s) == multiset(s[..i] + s[i + 1..]) + multiset{s[i]}
  {
    assert s == s[..i] + [s[i]] + s[i + 1..];
  }

  // ---- C strings ----

  predicate NulFree(s: seq<Byte>) {
    forall i :: 0 <= i < |s| ==> s[i] != 0
  }

  /** strnlen: the index of the first NUL in a field, or the field's length when it has none. */
  function StrLen(field: seq<Byte>): (n: nat)
    ensures n <= |field|
    ensures NulFree(field[..n])
    ensures n < |field| ==> field[n] == 0
  {
    if field == [] || field[0] == 0 then 0
    else
      var n := StrLen(field[1..]);
      assert field[..n + 1] == [field[0]] + field[1..][..n];
      n + 1
  }

  /** The string a field holds: everything before its first NUL. */
  function CStr(field: seq<Byte>): (s: seq<Byte>)
    ensures NulFree(s) && |s| <= |field|
  {
    field[..StrLen(field)]
  }

  predicate Terminated(field: seq<Byte>) {
    StrLen(field) < |field|
  }

  function Zeros(n: nat): (z: seq<Byte>)
    ensures |z| == n
  {
    seq(n, _ => 0)
  }

  /** A string in a zeroed field of a fixed size. */
  function Padded(s: seq<Byte>, size: nat): (field: seq<Byte>)
    requires |s| <= size
    ensures |field| == size
  {
    s + Zeros(size - |s|)
  }

  /** A terminated string is read back whatever follows its terminator. */
  lemma {:induction false} StrLenUnique(field: seq<Byte>, n: nat)
    requires n < |field| && field[n] == 0 && NulFree(field[..n])
    ensures StrLen(field) == n && CStr(field) == field[..n]
  {
  }

  lemma {:induction false} CStrOf(s: seq<Byte>, tail: seq<Byte>)
    requires NulFree(s)
    ensures CStr(s + [0] + tail) == s && StrLen(s + [0] + tail) == |s|
  {
    var field := s + [0] + tail;
    assert field[..|s|] == s;
    StrLenUnique(field, |s|);
  }

  lemma {:induction false} CStrOfPadded(s: seq<Byte>, size: nat)
    requires NulFree(s) && |s| < size
    ensures CStr(Padded(s, size)) == s && Terminated(Padded(s, size))
  {
    assert Padded(s, size) == s + [0] + Zeros(size - |s| - 1);
    CStrOf(s, Zeros(size - |s| - 1));
  }

  // ---- Buffers ----

  /** memcpy to a position of a buffer. */
  method CopyTo(dst: array<Byte>, at: nat, src: seq<Byte>) returns (next: nat)
    requires at + |src| <= dst.Length
    modifies dst
    ensures next == at + |src|
    ensures dst[..] == old(dst[..at]) + src + old(dst[at + |src|..])
  {
    forall i | 0 <= i < |src| {
      dst[at + i] := src[i];
    }
    next := at + |src|;
  }

  /** memcpy behind what the buffer holds already. */
  method Append(dst: array<Byte>, at: nat, src: seq<Byte>, ghost before: seq<Byte>) returns (next: nat)
    requires at + |src| <= dst.Length && dst[..at] == before
    modifies dst
    ensures next == at + |src| && dst[..next] == before + src
  {
    next := CopyTo(dst, at, src);
    assert dst[..next] == (before + src + old(dst[at + |src|..]))[..next];
  }
}
