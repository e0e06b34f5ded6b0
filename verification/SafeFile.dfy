/** The encrypted file of one safe: header, ciphertext, and the plaintext inside (lib/storage.c). */
module SafeFile {
  import opened Bytes
  import opened Errors
  import opened Store

  const SALT_SIZE: nat := 32
  const NONCE_SIZE: nat := 8
  const HEADER_SIZE: nat := 60
  const TAG_SIZE: nat := 16
  const PLAIN_MAX: nat := 8192

  const STORAGE_VERSION: nat := 1

  // ---- The header ----

  /** struct kp_storage_header. */
  datatype Header = Header(version: U16, sodium: U16, opslimit: U64, memlimit: U64, salt: seq<Byte>, nonce: seq<Byte>) {
    predicate Valid() {
      |salt| == SALT_SIZE && |nonce| == NONCE_SIZE
    }
  }

  function Packed(h: Header): (s: seq<Byte>)
    requires h.Valid()
    ensures |s| == HEADER_SIZE
  {
    Be(h.version, 2) + Be(h.sodium, 2) + Be(h.opslimit, 8) + Be(h.memlimit, 8) + h.salt + h.nonce
  }

  function Unpacked(s: seq<Byte>): (h: Header)
    requires |s| == HEADER_SIZE
    ensures h.Valid()
  {
    BeEncodes(s[0..2]); BeEncodes(s[2..4]); BeEncodes(s[4..12]); BeEncodes(s[12..20]);
    Widths();
    Header(FromBe(s[0..2]), FromBe(s[2..4]), FromBe(s[4..12]), FromBe(s[12..20]), s[20..52], s[52..60])
  }

  /** Packing and unpacking are inverse to each other: on all headers, */
  lemma {:induction false} UnpackPacked(h: Header)
    requires h.Valid()
    ensures Unpacked(Packed(h)) == h
  {
    var s := Packed(h);
    Widths();
    assert s[0..2] == Be(h.version, 2) && s[2..4] == Be(h.sodium, 2);
    assert s[4..12] == Be(h.opslimit, 8) && s[12..20] == Be(h.memlimit, 8);
    assert s[20..52] == h.salt;
    assert s[52..] == h.nonce && s[52..60] == s[52..];
    BeDecodes(h.version, 2); BeDecodes(h.sodium, 2); BeDecodes(h.opslimit, 8); BeDecodes(h.memlimit, 8);
  }

  /** and on all 60-byte strings. */
  lemma {:induction false} PackUnpacked(s: seq<Byte>)
    requires |s| == HEADER_SIZE
    ensures Packed(Unpacked(s)) == s
  {
    BeEncodes(s[0..2]); BeEncodes(s[2..4]); BeEncodes(s[4..12]); BeEncodes(s[12..20]);
    assert s == s[0..2] + s[2..4] + s[4..12] + s[12..20] + s[20..52] + s[52..60];
  }

  /** The numbers at a position, read off as big-endian ones. */
  function U16At(p: seq<Byte>, i: nat): int
    requires i + 2 <= |p|
  {
    var high: int := p[i];
    0x100 * high + p[i + 1]
  }

  function U32At(p: seq<Byte>, i: nat): int
    requires i + 4 <= |p|
  {
    0x1_0000 * U16At(p, i) + U16At(p, i + 2)
  }

  function U64At(p: seq<Byte>, i: nat): int
    requires i + 8 <= |p|
  {
    0x1_0000_0000 * U32At(p, i) + U32At(p, i + 4)
  }

  lemma {:induction false} BigEndianStep(s: seq<Byte>, i: nat)
    requires i + 2 <= |s|
    ensures FromBe(s[..i + 2]) == 0x1_0000 * FromBe(s[..i]) + U16At(s, i)
  {
    assert s[..i + 1][..i] == s[..i] && s[..i + 2][..i + 1] == s[..i + 1];
  }

  lemma {:induction false} BigEndian(s: seq<Byte>)
    ensures |s| == 2 ==> FromBe(s) == U16At(s, 0)
    ensures |s| == 8 ==> FromBe(s) == U64At(s, 0)
  {
    assert s[..|s|] == s && FromBe(s[..0]) == 0;
    if |s| == 2 {
      BigEndianStep(s, 0);
    } else if |s| == 8 {
      BigEndianStep(s, 0);
      BigEndianStep(s, 2);
      BigEndianStep(s, 4);
      BigEndianStep(s, 6);
    }
  }

  /** Where each field lies in the file, and that the numbers are big-endian. */
  lemma {:induction false} HeaderLayout(h: Header)
    requires h.Valid()
    ensures var p := Packed(h);
            && h.version == U16At(p, 0) && h.sodium == U16At(p, 2)
            && h.opslimit == U64At(p, 4) && h.memlimit == U64At(p, 12)
            && h.salt == p[20..52] && h.nonce == p[52..]
  {
    var p := Packed(h);
    UnpackPacked(h);
    BigEndian(p[0..2]);
    BigEndian(p[2..4]);
    BigEndian(p[4..12]);
    BigEndian(p[12..20]);
    hide FromBe, Packed;
    assert h == Unpacked(p);
  }

  /** kp_storage_header_pack: field by field behind a moving cursor. */
  method HeaderPack(h: Header, packed: array<Byte>)
    requires h.Valid() && packed.Length == HEADER_SIZE
    modifies packed
    ensures packed[..] == Packed(h)
  {
    hide Be;
    var version, sodium := Be(h.version, 2), Be(h.sodium, 2);
    var opslimit, memlimit := Be(h.opslimit, 8), Be(h.memlimit, 8);
    var at := Append(packed, 0, version, []);
    at := Append(packed, at, sodium, [] + version);
    at := Append(packed, at, opslimit, [] + version + sodium);
    at := Append(packed, at, memlimit, [] + version + sodium + opslimit);
    at := Append(packed, at, h.salt, [] + version + sodium + opslimit + memlimit);
    at := Append(packed, at, h.nonce, [] + version + sodium + opslimit + memlimit + h.salt);
    assert [] + version == version;
    assert packed[..at] == packed[..];
  }

  // ---- The plaintext ----

  /** password, NUL, metadata, NUL. */
  function Layout(c: Contents): seq<Byte> {
    c.password + [0] + c.metadata + [0]
  }

  /** What kp_storage_open reads out of its plaintext buffer: a string of at most 4095 bytes at the
      start, and another one behind that string's terminator. */
  function ReadBack(buf: seq<Byte>): (c: Contents)
    requires |buf| == PLAIN_MAX
    ensures ContentsFit(c)
  {
    var password := CStr(buf[..PASSWORD_MAX - 1]);
    var from := |password| + 1;
    Contents(password, CStr(buf[from..from + METADATA_MAX - 1]))
  }

  /** The bound is exactly tight: the layout of any contents that fit is at most the plaintext buffer,
      and the longest contents fill it. */
  lemma {:induction false} LayoutBound(c: Contents)
    requires ContentsFit(c)
    ensures 0 < |Layout(c)| <= PLAIN_MAX
    ensures |Layout(c)| == PLAIN_MAX <==> |c.password| == PASSWORD_MAX - 1 && |c.metadata| == METADATA_MAX - 1
  {
  }

  /** Both strings are read back exactly, whatever the rest of the buffer holds. */
  lemma {:induction false} LayoutReadsBack(c: Contents, garbage: seq<Byte>)
    requires ContentsFit(c) && |Layout(c) + garbage| == PLAIN_MAX
    ensures ReadBack(Layout(c) + garbage) == c
  {
    var tail := [0] + garbage;
    Assoc(c.password + [0] + c.metadata, [0], garbage);
    PieceStands(c.password + [0], c.metadata, tail);
    Assoc(c.password + [0], c.metadata, tail);
    Assoc(c.password, [0], c.metadata + tail);
    PieceStands([], c.password, [0] + (c.metadata + tail));
    assert [] + c.password == c.password;
    hide ReadBack, StrLen, CStr;
    FieldsReadBack(Layout(c) + garbage, c);
  }

  lemma {:induction false} FieldsReadBack(buf: seq<Byte>, c: Contents)
    requires ContentsFit(c) && |buf| == PLAIN_MAX
    requires buf[0..|c.password|] == c.password && buf[|c.password|] == 0
    requires var from := |c.password| + 1; buf[from..from + |c.metadata|] == c.metadata && buf[from + |c.metadata|] == 0
    ensures ReadBack(buf) == c
  {
    hide StrLen, NulFree;
    FieldReadsBack(buf, 0, c.password, PASSWORD_MAX - 1);
    FieldReadsBack(buf, |c.password| + 1, c.metadata, METADATA_MAX - 1);
  }

  lemma {:induction false} PieceStands(a: seq<Byte>, s: seq<Byte>, b: seq<Byte>)
    requires b != []
    ensures var buf := a + s + b;
            buf[|a|..|a| + |s|] == s && buf[|a| + |s|] == b[0]
  {
  }

  lemma {:induction false} FieldReadsBack(buf: seq<Byte>, from: nat, s: seq<Byte>, width: nat)
    requires NulFree(s) && |s| <= width && from + width < |buf|
    requires buf[from..from + |s|] == s && buf[from + |s|] == 0
    ensures CStr(buf[from..from + width]) == s
  {
    var field := buf[from..from + width];
    assert field[..|s|] == s;
    if |s| < width {
      StrLenUnique(field, |s|);
    } else {
      assert field == s;
      StrLenOfNulFree(s);
    }
  }

  lemma {:induction false} StrLenOfNulFree(s: seq<Byte>)
    requires NulFree(s)
    ensures StrLen(s) == |s|
  {
  }

  // ---- The primitives, and the laws they are assumed to satisfy ----

  type Key = seq<Byte>

  /** scrypt as an uninterpreted function that may fail for want of memory, and an AEAD with the
      interface of sections 2.1 and 2.2 of RFC 5116. */
  datatype Crypto = Crypto(
    kdf: (seq<Byte>, seq<Byte>, U64, U64) -> Option<Key>,
    seal: (Key, seq<Byte>, seq<Byte>, seq<Byte>) -> Option<seq<Byte>>,
    unseal: (Key, seq<Byte>, seq<Byte>, seq<Byte>) -> Option<seq<Byte>>)
  {
    /** Authenticated decryption with the same key, nonce and header undoes encryption, and the
        ciphertext is longer than the plaintext by the tag. */
    ghost predicate Laws() {
      && (forall k, n, ad, p :: seal(k, n, ad, p).Some? ==>
            |seal(k, n, ad, p).value| == |p| + TAG_SIZE && unseal(k, n, ad, seal(k, n, ad, p).value) == Some(p))
      && (forall k, n, ad, c :: unseal(k, n, ad, c).Some? ==> |unseal(k, n, ad, c).value| + TAG_SIZE == |c|)
    }
  }

  // ---- Files ----

  /** A write that failed outright: where it was to go, and what it was to write. */
  datatype Refused = Refused(at: nat, data: seq<Byte>)

  /** An open regular file with its offset. Two histories: how many calls have failed or stopped short,
      and which writes failed outright. */
  class File {
    var bytes: seq<Byte>
    var pos: nat
    ghost var faults: nat
    ghost var refused: seq<Refused>

    ghost predicate Valid()
      reads this
    {
      pos <= |bytes|
    }

    constructor (bytes: seq<Byte>)
      ensures Valid() && this.bytes == bytes && pos == 0 && faults == 0 && refused == []
    {
      this.bytes, pos := bytes, 0;
      faults, refused := 0, [];
    }

    /** lseek to the start and ftruncate to nothing; either may fail. */
    method Reset() returns (ok: bool)
      requires Valid()
      modifies this
      ensures Valid()
      ensures ok ==> bytes == [] && pos == 0
      ensures !ok ==> bytes == old(bytes)
      ensures faults == old(faults) + (if ok then 0 else 1) && refused == old(refused)
    {
      ok :| ok || !ok;
      if ok {
        bytes, pos := [], 0;
      } else {
        faults := faults + 1;
      }
    }

    /** write at the end of the file: all of it, part of it, or a failure. */
    method Write(data: seq<Byte>) returns (n: int)
      requires Valid() && pos == |bytes|
      modifies this
      ensures Valid() && pos == |bytes| && -1 <= n <= |data|
      ensures bytes == old(bytes) + (if n < 0 then [] else data[..n])
      ensures faults == old(faults) + (if n == |data| then 0 else 1)
      ensures refused == old(refused) + (if n < 0 then [Refused(old(pos), data)] else [])
    {
      n :| -1 <= n <= |data|;
      if n > 0 {
        bytes, pos := bytes + data[..n], pos + n;
      }
      faults := faults + if n == |data| then 0 else 1;
      refused := refused + if n < 0 then [Refused(pos, data)] else [];
    }

    /** read: a failure, or as much as there is up to the size asked for. */
    method Read(size: nat) returns (n: int, data: seq<Byte>)
      requires Valid()
      modifies this`pos, this`faults
      ensures Valid()
      ensures faults == old(faults) + if n == -1 then 1 else 0
      ensures n == -1 ==> data == [] && pos == old(pos)
      ensures n != -1 ==> n == |data| == pos - old(pos) && data == bytes[old(pos)..pos]
      ensures n != -1 ==> pos == if old(pos) + size <= |bytes| then old(pos) + size else |bytes|
    {
      var fails :| fails || !fails;
      if fails {
        faults := faults + 1;
        return -1, [];
      }
      var end := if pos + size <= |bytes| then pos + size else |bytes|;
      n, data, pos := end - pos, bytes[pos..end], end;
    }
  }

  // ---- Saving ----

  function FileHeader(sodium: U16, opslimit: U64, memlimit: U64, salt: seq<Byte>, nonce: seq<Byte>): Header {
    Header(STORAGE_VERSION, sodium, opslimit, memlimit, salt, nonce)
  }

  /** The file that holds some contents, when the primitives succeed: the packed header, then the
      ciphertext with that header as associated data. */
  function Sealed(k: Crypto, master: seq<Byte>, h: Header, c: Contents): Option<seq<Byte>>
    requires h.Valid()
  {
    match k.kdf(master, h.salt, h.opslimit, h.memlimit)
    case None => None
    case Some(key) =>
      match k.seal(key, h.nonce, Packed(h), Layout(c))
      case None => None
      case Some(cipher) => Some(Packed(h) + cipher)
  }

  /** A string field as kp_safe has it: terminated, in a buffer of fixed size. */
  predicate Field(f: seq<Byte>, size: nat) {
    |f| == size && Terminated(f)
  }

  /** kp_storage_encrypt. */
  method Encrypt(k: Crypto, master: seq<Byte>, h: Header, packed: seq<Byte>, plain: seq<Byte>)
    returns (ret: nat, cipher: seq<Byte>)
    ensures match k.kdf(master, h.salt, h.opslimit, h.memlimit)
            case None => ret == KP_ERRNO
            case Some(key) =>
              match k.seal(key, h.nonce, packed, plain)
              case None => ret == KP_EENCRYPT
              case Some(c) => ret == KP_SUCCESS && cipher == c
  {
    var key := k.kdf(master, h.salt, h.opslimit, h.memlimit);
    if key.None? {
      return KP_ERRNO, [];
    }
    var sealed := k.seal(key.value, h.nonce, packed, plain);
    if sealed.None? {
      return KP_EENCRYPT, [];
    }
    return KP_SUCCESS, sealed.value;
  }

  /** The plaintext of a safe, filled in place. */
  method FillPlain(password: seq<Byte>, metadata: seq<Byte>) returns (plain: array<Byte>)
    requires Field(password, PASSWORD_MAX) && Field(metadata, METADATA_MAX)
    ensures fresh(plain) && plain[..] == Layout(Contents(CStr(password), CStr(metadata)))
  {
    var passwordLen, metadataLen := StrLen(password), StrLen(metadata);
    ghost var c := Contents(CStr(password), CStr(metadata));
    hide StrLen, NulFree;
    plain := new Byte[passwordLen + metadataLen + 2];
    var at := CopyTo(plain, 0, password[..passwordLen]);
    assert plain[..passwordLen] == c.password;
    plain[passwordLen] := 0;
    assert plain[..passwordLen + 1] == c.password + [0];
    at := CopyTo(plain, passwordLen + 1, metadata[..metadataLen]);
    assert plain[..plain.Length - 1] == c.password + [0] + c.metadata;
    plain[plain.Length - 1] := 0;
    assert plain[..plain.Length - 1] == c.password + [0] + c.metadata;
  }

  /** The second length check of kp_storage_save compares write's signed result with an unsigned size:
      a failure, -1, becomes the largest unsigned number and passes for a complete write. */
  predicate SeenAsShort(n: int, size: U64) {
    (if n < 0 then n + 0x1_0000_0000_0000_0000 else n) < size
  }

  /** kp_storage_save. It succeeds if and only if the primitives do and no call fails or stops short,
      except that a failure to write the ciphertext, all behind the header, goes unnoticed (`lost`). The
      file is then the sealed contents, or the header alone. When it fails, the file is as it was, or a
      proper prefix of what it should be: empty, if encryption failed. `file` is null when it could not be
      opened. */
  method Save(k: Crypto, master: seq<Byte>, h: Header, file: File?, password: seq<Byte>, metadata: seq<Byte>)
    returns (ret: nat, ghost lost: bool)
    requires k.Laws() && h.Valid() && Field(password, PASSWORD_MAX) && Field(metadata, METADATA_MAX)
    requires file != null ==> file.Valid()
    modifies file
    ensures file != null ==> file.Valid()
    ensures ret == KP_SUCCESS || ret == KP_ERRNO || ret == KP_EENCRYPT
    ensures file == null ==> ret == KP_ERRNO
    ensures file != null ==>
              match Sealed(k, master, h, Contents(CStr(password), CStr(metadata)))
              case None => ret != KP_SUCCESS && (file.bytes == old(file.bytes) || file.bytes == [])
              case Some(sealed) =>
                if ret != KP_SUCCESS then file.bytes == old(file.bytes) || file.bytes < sealed
                else file.bytes == if lost then Packed(h) else sealed
    ensures file == null ==> !lost
    ensures file != null ==>
              match Sealed(k, master, h, Contents(CStr(password), CStr(metadata)))
              case None =>
                && !lost && file.refused == old(file.refused)
                && (file.faults == old(file.faults) ==>
                      file.bytes == [] && ret == if k.kdf(master, h.salt, h.opslimit, h.memlimit).None? then KP_ERRNO else KP_EENCRYPT)
              case Some(sealed) =>
                && (lost <==> file.refused == old(file.refused) + [Refused(60, sealed[60..])])
                && (ret == KP_SUCCESS <==> file.faults == old(file.faults) || lost)
                && ret != KP_EENCRYPT
  {
    lost := false;
    if file == null {
      return KP_ERRNO, false;
    }
    var ok := file.Reset();
    if !ok {
      return KP_ERRNO, false;
    }
    var plain := FillPlain(password, metadata);
    LayoutBound(Contents(CStr(password), CStr(metadata)));
    var packed := new Byte[HEADER_SIZE];
    HeaderPack(h, packed);
    var cipher;
    ret, cipher := Encrypt(k, master, h, packed[..], plain[..]);
    if ret != KP_SUCCESS {
      return;
    }
    ret, lost := WriteParts(file, packed[..], cipher);
  }

  /** The two writes of kp_storage_save. */
  method WriteParts(file: File, packed: seq<Byte>, cipher: seq<Byte>) returns (ret: nat, ghost lost: bool)
    requires file.Valid() && file.bytes == [] && |packed| == HEADER_SIZE && 0 < |cipher| < 0x8000_0000_0000_0000
    modifies file
    ensures file.Valid() && (ret == KP_SUCCESS || ret == KP_ERRNO)
    ensures ret != KP_SUCCESS ==> file.bytes < packed + cipher
    ensures ret == KP_SUCCESS ==> file.bytes == if lost then packed else packed + cipher
    ensures lost <==> file.refused == old(file.refused) + [Refused(HEADER_SIZE, cipher)]
    ensures ret == KP_SUCCESS <==> file.faults == old(file.faults) || lost
  {
    ghost var sealed := packed + cipher;
    var n := file.Write(packed);
    assert n < 0 ==> file.refused[|old(file.refused)|].at == 0;
    assert file.bytes == sealed[..|file.bytes|];
    if n < HEADER_SIZE {
      return KP_ERRNO, false;
    }
    n := file.Write(cipher);
    assert file.bytes == sealed[..|file.bytes|];
    if SeenAsShort(n, |cipher|) {
      return KP_ERRNO, false;
    }
    lost := n == -1;
    ret := KP_SUCCESS;
  }

  // ---- Opening ----

  datatype Result = Ok(contents: Contents) | Err(code: nat)

  function Least(a: nat, b: nat): nat {
    if a < b then a else b
  }

  /** What a file opens to. `garbage` is what the plaintext buffer held before. */
  function Opened(k: Crypto, master: seq<Byte>, bytes: seq<Byte>, garbage: seq<Byte>): (r: Result)
    requires k.Laws() && |garbage| == PLAIN_MAX
    ensures r.Ok? ==> ContentsFit(r.contents)
  {
    if |bytes| < HEADER_SIZE then Err(KP_INVALID_STORAGE)
    else
      var packed := bytes[..HEADER_SIZE];
      var h := Unpacked(packed);
      var cipher := bytes[HEADER_SIZE..Least(|bytes|, HEADER_SIZE + PLAIN_MAX + TAG_SIZE)];
      if |cipher| <= TAG_SIZE then Err(KP_INVALID_STORAGE)
      else
        match k.kdf(master, h.salt, h.opslimit, h.memlimit)
        case None => Err(KP_ERRNO)
        case Some(key) =>
          match k.unseal(key, h.nonce, packed, cipher)
          case None => Err(KP_EDECRYPT)
          case Some(plain) => Ok(ReadBack(plain + garbage[|plain|..]))
  }

  /** What the file says about itself is true: its first 60 bytes are a header, and under the key made of
      the password and that header the bytes behind it, with the header, decrypt to `plain`. */
  ghost predicate Authentic(k: Crypto, master: seq<Byte>, bytes: seq<Byte>, h: Header, key: Key, plain: seq<Byte>) {
    && h.Valid() && |bytes| > 60 + 16 && bytes[..60] == Packed(h) && |plain| <= PLAIN_MAX
    && k.kdf(master, h.salt, h.opslimit, h.memlimit) == Some(key)
    && k.unseal(key, h.nonce, bytes[..60], bytes[60..Least(|bytes|, 60 + 8192 + 16)]) == Some(plain)
  }

  /** A file opens if and only if it is authentic, and then to what is in it. Otherwise it is too short, or
      there is no key, or the authentication fails, and the error says which. */
  lemma {:induction false} OpensExactly(k: Crypto, master: seq<Byte>, bytes: seq<Byte>, garbage: seq<Byte>)
    requires k.Laws() && |garbage| == PLAIN_MAX
    ensures var r := Opened(k, master, bytes, garbage);
            && (forall c :: r == Ok(c) <==>
                  exists h, key, plain :: Authentic(k, master, bytes, h, key, plain)
                                          && c == ReadBack(plain + garbage[|plain|..]))
            && (r == Err(4) <==> |bytes| <= 60 + 16)
            && (r == Err(5) <==> |bytes| > 60 + 16
                                 && exists h: Header :: h.Valid() && bytes[..60] == Packed(h)
                                                        && k.kdf(master, h.salt, h.opslimit, h.memlimit) == None)
            && (r == Err(7) <==> |bytes| > 60 + 16
                                 && exists h: Header, key :: h.Valid() && bytes[..60] == Packed(h)
                                      && k.kdf(master, h.salt, h.opslimit, h.memlimit) == Some(key)
                                      && k.unseal(key, h.nonce, bytes[..60], bytes[60..Least(|bytes|, 60 + 8192 + 16)]) == None)
            && (r.Ok? || r.code in {4, 5, 7})
  {
    hide Be, FromBe, Packed, Unpacked, ReadBack;
    if |bytes| > 60 + 16 {
      var h := Unpacked(bytes[..60]);
      PackUnpacked(bytes[..60]);
      forall h': Header | h'.Valid() && bytes[..60] == Packed(h') ensures h' == h {
        UnpackPacked(h');
      }
      var r := Opened(k, master, bytes, garbage);
      if r.Ok? {
        var key := k.kdf(master, h.salt, h.opslimit, h.memlimit).value;
        var plain := k.unseal(key, h.nonce, bytes[..60], bytes[60..Least(|bytes|, 60 + 8192 + 16)]).value;
        assert Authentic(k, master, bytes, h, key, plain);
      }
    }
  }

  lemma {:induction false} OpensOnlyAuthentic(k: Crypto, master: seq<Byte>, bytes: seq<Byte>, garbage: seq<Byte>)
    requires k.Laws() && |garbage| == PLAIN_MAX
    ensures Opened(k, master, bytes, garbage).Ok? <==> exists h, key, plain :: Authentic(k, master, bytes, h, key, plain)
  {
    OpensExactly(k, master, bytes, garbage);
    hide Opened, ReadBack, Packed;
    if h, key, plain :| Authentic(k, master, bytes, h, key, plain) {
      assert Opened(k, master, bytes, garbage) == Ok(ReadBack(plain + garbage[|plain|..]));
    }
  }

  /** Save, then open: exactly the password and metadata that were saved, for every contents that fit,
      every salt and nonce, and whatever the configuration is by then, because key and nonce are taken
      from the header in the file. */
  lemma {:induction false} SavedOpens(k: Crypto, master: seq<Byte>, h: Header, c: Contents, garbage: seq<Byte>)
    requires k.Laws() && h.Valid() && ContentsFit(c) && |garbage| == PLAIN_MAX
    requires Sealed(k, master, h, c).Some?
    ensures Opened(k, master, Sealed(k, master, h, c).value, garbage) == Ok(c)
  {
    var file := Sealed(k, master, h, c).value;
    var key := k.kdf(master, h.salt, h.opslimit, h.memlimit).value;
    var cipher := k.seal(key, h.nonce, Packed(h), Layout(c)).value;
    LayoutBound(c);
    UnpackPacked(h);
    assert file[..HEADER_SIZE] == Packed(h);
    assert |cipher| == |Layout(c)| + TAG_SIZE;
    assert Least(|file|, HEADER_SIZE + PLAIN_MAX + TAG_SIZE) == |file|;
    assert file[HEADER_SIZE..|file|] == cipher;
    assert k.unseal(key, h.nonce, Packed(h), cipher) == Some(Layout(c));
    LayoutReadsBack(c, garbage[|Layout(c)|..]);
  }

  /** A save that lost its ciphertext left a file that cannot be opened, although it reported success:
      what is read back is what was saved if and only if the write did not fail. */
  lemma {:induction false} LostSaveDoesNotOpen(k: Crypto, master: seq<Byte>, h: Header, c: Contents, garbage: seq<Byte>, lost: bool)
    requires k.Laws() && h.Valid() && ContentsFit(c) && |garbage| == PLAIN_MAX
    requires Sealed(k, master, h, c).Some?
    ensures var file := if lost then Packed(h) else Sealed(k, master, h, c).value;
            Opened(k, master, file, garbage) == Ok(c) <==> !lost
  {
    SavedOpens(k, master, h, c, garbage);
  }

  /** The laws can be met: an AEAD that appends an empty tag satisfies them. */
  lemma {:induction false} LawsHaveAModel() returns (k: Crypto)
    ensures k.Laws()
    ensures forall m, s, o, l :: k.kdf(m, s, o, l).Some?
    ensures forall key, n, ad, p :: k.seal(key, n, ad, p).Some?
  {
    k := Crypto(
      (m, s, o, l) => Some(m),
      (key, n, ad, p) => Some(p + Zeros(TAG_SIZE)),
      (key, n, ad, c) => if |c| < TAG_SIZE then None else Some(c[..|c| - TAG_SIZE]));
    forall key, n, ad, p ensures k.unseal(key, n, ad, k.seal(key, n, ad, p).value) == Some(p) {
      assert (p + Zeros(TAG_SIZE))[..|p|] == p;
    }
  }

  /** The first half of strncpy: copy up to the source's first NUL, or n bytes. */
  method CopyText(dst: array<Byte>, src: array<Byte>, from: nat) returns (len: nat)
    requires dst != src && from + dst.Length <= src.Length
    modifies dst
    ensures len <= dst.Length && dst[..len] == src[from..from + len] && NulFree(dst[..len])
    ensures len < dst.Length ==> src[from + len] == 0
  {
    len := 0;
    while len < dst.Length && src[from + len] != 0
      invariant 0 <= len <= dst.Length
      invariant forall j :: 0 <= j < len ==> dst[j] == src[from + j] && dst[j] != 0
    {
      dst[len] := src[from + len];
      len := len + 1;
    }
  }

  /** The second half: fill up with NULs. */
  method PadRest(dst: array<Byte>, len: nat)
    requires len <= dst.Length
    modifies dst
    ensures dst[..len] == old(dst[..len]) && forall j :: len <= j < dst.Length ==> dst[j] == 0
  {
    var i := len;
    while i < dst.Length
      invariant len <= i <= dst.Length
      invariant forall j :: 0 <= j < len ==> dst[j] == old(dst[j])
      invariant forall j :: len <= j < i ==> dst[j] == 0
    {
      dst[i] := 0;
      i := i + 1;
    }
  }

  /** strncpy followed by a terminator in the last byte: the source is read only as far as its first
      NUL, and never beyond n bytes. */
  method CopyString(dst: array<Byte>, src: array<Byte>, from: nat)
    requires dst != src && 0 < dst.Length && from + dst.Length <= src.Length
    modifies dst
    ensures Field(dst[..], dst.Length)
    ensures CStr(dst[..]) == CStr(src[from..from + dst.Length - 1])
  {
    hide Field, CStr, NulFree;
    var n := dst.Length;
    ghost var text := src[from..from + n];
    var len := CopyText(dst, src, from);
    assert dst[..len] == text[..len] && (len < n ==> text[len] == 0);
    PadRest(dst, len);
    ghost var copied := dst[..];
    assert copied[..len] == text[..len] && (len < n ==> copied[len] == 0);
    dst[n - 1] := 0;
    assert dst[..] == copied[n - 1 := 0];
    CopyTerminates(text, copied, len);
    assert src[from..from + n - 1] == text[..n - 1];
  }

  /** A strncpy of some text, with its last byte overwritten, holds the text up to that byte. */
  lemma {:induction false} CopyTerminates(text: seq<Byte>, copied: seq<Byte>, len: nat)
    requires 0 < |text| == |copied| && len <= |text| && NulFree(text[..len])
    requires len < |text| ==> text[len] == 0 && copied[len] == 0
    requires copied[..len] == text[..len]
    ensures var n, dst := |text|, copied[|text| - 1 := 0];
            Field(dst, n) && CStr(dst) == CStr(text[..n - 1])
  {
    var n, dst := |text|, copied[|text| - 1 := 0];
    var k := if len < n then len else n - 1;
    var field := text[..n - 1];
    assert text[..k] == text[..len][..k];
    assert dst[..k] == copied[..len][..k];
    StrLenUnique(dst, k);
    assert field[..k] == text[..k];
    if k < n - 1 {
      StrLenUnique(field, k);
    } else {
      assert field[..k] == field;
      StrLenOfNulFree(field);
    }
  }

  /** kp_storage_decrypt, into the plaintext buffer. */
  method Decrypt(k: Crypto, master: seq<Byte>, h: Header, packed: seq<Byte>, cipher: seq<Byte>, plain: array<Byte>)
    returns (ret: nat)
    requires k.Laws() && |cipher| <= plain.Length + TAG_SIZE
    modifies plain
    ensures match k.kdf(master, h.salt, h.opslimit, h.memlimit)
            case None => ret == KP_ERRNO
            case Some(key) =>
              match k.unseal(key, h.nonce, packed, cipher)
              case None => ret == KP_EDECRYPT
              case Some(p) => ret == KP_SUCCESS && |p| <= plain.Length && plain[..] == p + old(plain[..])[|p|..]
  {
    var key := k.kdf(master, h.salt, h.opslimit, h.memlimit);
    if key.None? {
      return KP_ERRNO;
    }
    var result := k.unseal(key.value, h.nonce, packed, cipher);
    if result.None? {
      return KP_EDECRYPT;
    }
    ghost var garbage := plain[..];
    var at := CopyTo(plain, 0, result.value);
    assert garbage[|result.value|..] == old(plain[|result.value|..]);
    ret := KP_SUCCESS;
  }

  /** The end of kp_storage_open: the two strings, the second one from behind the first one's terminator. */
  method CopyOut(plain: array<Byte>, password: array<Byte>, metadata: array<Byte>)
    requires plain.Length == PLAIN_MAX && password.Length == PASSWORD_MAX && metadata.Length == METADATA_MAX
    requires plain != password && plain != metadata && password != metadata
    modifies password, metadata
    ensures Field(password[..], PASSWORD_MAX) && Field(metadata[..], METADATA_MAX)
    ensures Contents(CStr(password[..]), CStr(metadata[..])) == ReadBack(plain[..])
  {
    hide StrLen;
    CopyString(password, plain, 0);
    var passwordLen := StrLen(password[..]);
    ghost var text := plain[..];
    assert plain[0..PASSWORD_MAX - 1] == text[..PASSWORD_MAX - 1];
    CopyString(metadata, plain, passwordLen + 1);
    assert plain[passwordLen + 1..passwordLen + METADATA_MAX] == text[passwordLen + 1..passwordLen + METADATA_MAX];
  }

  /** kp_storage_open: read and check the header and the ciphertext, decrypt into a buffer of 8192 bytes
      that is not cleared first, and copy the two strings out of it. `garbage` is what that buffer held;
      `failed` says that a read of the file failed. Otherwise it succeeds if and only if the file is
      authentic. */
  method Open(k: Crypto, master: seq<Byte>, file: File?, password: array<Byte>, metadata: array<Byte>)
    returns (ret: nat, ghost garbage: seq<Byte>, ghost failed: bool)
    requires k.Laws() && password != metadata
    requires password.Length == PASSWORD_MAX && metadata.Length == METADATA_MAX
    requires file != null ==> file.Valid() && file.pos == 0
    modifies file, password, metadata
    ensures file != null ==> file.Valid() && file.bytes == old(file.bytes)
    ensures |garbage| == PLAIN_MAX
    ensures failed <==> file != null && file.faults != old(file.faults)
    ensures file != null ==> file.refused == old(file.refused)
    ensures file == null || failed ==> ret == KP_ERRNO
    ensures ret == KP_SUCCESS <==>
            file != null && !failed && exists h, key, plain :: Authentic(k, master, file.bytes, h, key, plain)
    ensures file != null && !failed ==>
              match Opened(k, master, file.bytes, garbage)
              case Err(code) => ret == code
              case Ok(c) =>
                && ret == KP_SUCCESS
                && Field(password[..], PASSWORD_MAX) && Field(metadata[..], METADATA_MAX)
                && Contents(CStr(password[..]), CStr(metadata[..])) == c
  {
    hide StrLen, Be, FromBe, ReadBack, Field, CStr, Unpacked, Authentic, Packed;
    failed, garbage := false, Zeros(PLAIN_MAX);
    if file == null {
      return KP_ERRNO, garbage, false;
    }
    var n, packed := file.Read(HEADER_SIZE);
    OpensOnlyAuthentic(k, master, file.bytes, garbage);
    if n != HEADER_SIZE {
      if n == -1 {
        return KP_ERRNO, garbage, true;
      }
      return KP_INVALID_STORAGE, garbage, false;
    }
    var h := Unpacked(packed);
    var plain := new Byte[PLAIN_MAX];
    garbage := plain[..];
    OpensOnlyAuthentic(k, master, file.bytes, garbage);
    var cipher;
    n, cipher := file.Read(PLAIN_MAX + TAG_SIZE);
    var cipherSize := if n == -1 then 0xFFFF_FFFF_FFFF_FFFF else n;
    if cipherSize <= TAG_SIZE {
      return KP_INVALID_STORAGE, garbage, false;
    }
    if cipherSize - TAG_SIZE > PLAIN_MAX {
      return KP_ERRNO, garbage, true;
    }
    ret := Decrypt(k, master, h, packed, cipher, plain);
    if ret != KP_SUCCESS {
      return ret, garbage, false;
    }
    CopyOut(plain, password, metadata);
  }
}
