/** The workspace configuration: the text that is written and read back, and the search for the nearest
    configuration above a safe (lib/config.c). */
module Config {
  import opened Bytes
  import opened Errors
  import opened Store
  import SafeFile

  const NEWLINE: Byte := 10
  const SPACE: Byte := 32
  const ZERO: Byte := 48
  const COLON: Byte := 58

  /** "memlimit" and "opslimit": the table of settings, in the order that qsort leaves it in. */
  const MEMLIMIT: seq<Byte> := [109, 101, 109, 108, 105, 109, 105, 116]
  const OPSLIMIT: seq<Byte> := [111, 112, 115, 108, 105, 109, 105, 116]
  const CONFIGS: seq<seq<Byte>> := [MEMLIMIT, OPSLIMIT]

  /** ".config", the name of the safe that holds a configuration. */
  const CONFIG_SAFE_NAME: seq<Byte> := [46, 99, 111, 110, 102, 105, 103]

  const LONG_MAX: int := 0x7FFF_FFFF_FFFF_FFFF

  // ---- Numbers ----

  /** %lu and %llu. */
  function Decimal(n: nat): (s: seq<Byte>)
    ensures s != [] && forall i :: 0 <= i < |s| ==> IsDigit(s[i])
  {
    (if n < 10 then [] else Decimal(n / 10)) + [ZERO + n % 10]
  }

  predicate IsDigit(b: Byte) {
    ZERO <= b <= ZERO + 9
  }

  predicate IsSpace(b: Byte) {
    b == SPACE || 9 <= b <= 13
  }

  /** The digits at the front of a text, after some that gave acc. */
  function Digits(s: seq<Byte>, acc: nat): nat {
    if s == [] || !IsDigit(s[0]) then acc else Digits(s[1..], 10 * acc + (s[0] - ZERO))
  }

  /** atol and atoll: leading blanks, a sign, digits; clamped to the range of a signed 64-bit integer. */
  function Atol(s: seq<Byte>): (v: int)
    ensures -LONG_MAX - 1 <= v <= LONG_MAX
  {
    if s != [] && IsSpace(s[0]) then Atol(s[1..])
    else
      var negative := s != [] && s[0] == 45;
      var signed := negative || (s != [] && s[0] == 43);
      var magnitude := Digits(if signed then s[1..] else s, 0);
      if negative then (if magnitude > LONG_MAX then -LONG_MAX - 1 else 0 - magnitude)
      else if magnitude > LONG_MAX then LONG_MAX else magnitude
  }

  /** The conversion of the signed result to size_t or unsigned long long. */
  function Unsigned(v: int): U64
    requires -LONG_MAX - 1 <= v <= LONG_MAX
  {
    if v < 0 then v + 0x1_0000_0000_0000_0000 else v
  }

  lemma {:induction false} DigitsOfDecimal(n: nat, tail: seq<Byte>)
    ensures Digits(Decimal(n) + tail, 0) == Digits(tail, n)
  {
    var last := [ZERO + n % 10];
    assert (last + tail)[1..] == tail;
    if n < 10 {
      assert Decimal(n) + tail == last + tail;
    } else {
      Assoc(Decimal(n / 10), last, tail);
      DigitsOfDecimal(n / 10, last + tail);
    }
  }

  /** Any blanks, a sign or none, a printed number, and anything that is no digit: the number is read, with
      its sign, and clamped to 64 bits. */
  lemma {:induction false} AtolReads(blanks: seq<Byte>, sign: seq<Byte>, n: nat, tail: seq<Byte>)
    requires forall i :: 0 <= i < |blanks| ==> blanks[i] == 32 || 9 <= blanks[i] <= 13
    requires sign == [] || sign == [43] || sign == [45]
    requires tail != [] ==> !(48 <= tail[0] <= 57)
    ensures Atol(blanks + sign + Decimal(n) + tail)
            == if sign == [45] then (if n > 0x8000_0000_0000_0000 then -0x8000_0000_0000_0000 else -(n as int))
               else if n > 0x7FFF_FFFF_FFFF_FFFF then 0x7FFF_FFFF_FFFF_FFFF else n
  {
    Assoc(blanks + sign, Decimal(n), tail);
    Assoc(blanks, sign, Decimal(n) + tail);
    AtolSkips(blanks, sign + (Decimal(n) + tail));
    SignedReads(sign, n, tail);
  }

  lemma {:induction false} AtolSkips(blanks: seq<Byte>, s: seq<Byte>)
    requires forall i :: 0 <= i < |blanks| ==> blanks[i] == 32 || 9 <= blanks[i] <= 13
    ensures Atol(blanks + s) == Atol(s)
  {
    if blanks == [] {
      assert blanks + s == s;
    } else {
      assert (blanks + s)[0] == blanks[0] && (blanks + s)[1..] == blanks[1..] + s;
      AtolSkips(blanks[1..], s);
    }
  }

  lemma {:induction false} SignedReads(sign: seq<Byte>, n: nat, tail: seq<Byte>)
    requires sign == [] || sign == [43] || sign == [45]
    requires tail != [] ==> !(48 <= tail[0] <= 57)
    ensures Atol(sign + (Decimal(n) + tail))
            == if sign == [45] then (if n > 0x8000_0000_0000_0000 then -0x8000_0000_0000_0000 else -(n as int))
               else if n > 0x7FFF_FFFF_FFFF_FFFF then 0x7FFF_FFFF_FFFF_FFFF else n
  {
    var digits := Decimal(n) + tail;
    DigitsOfDecimal(n, tail);
    assert digits[0] == Decimal(n)[0];
    assert Digits(digits, 0) == n;
    hide Decimal, Digits;
    if sign == [] {
      assert sign + digits == digits;
    } else {
      assert (sign + digits)[1..] == digits && (sign + digits)[0] == sign[0];
    }
  }

  /** A printed number is read back as itself, up to the largest signed value, and as that beyond. */
  lemma {:induction false} AtolOfDecimal(n: nat)
    ensures Atol([SPACE] + Decimal(n)) == if n > LONG_MAX then LONG_MAX else n
  {
    AtolReads([SPACE], [], n, []);
    assert [SPACE] + [] + Decimal(n) + [] == [SPACE] + Decimal(n);
  }

  function Pow10(n: nat): nat {
    if n == 0 then 1 else 10 * Pow10(n - 1)
  }

  lemma {:induction false} DecimalLength(n: nat, k: nat)
    requires n < Pow10(k) && k > 0
    ensures |Decimal(n)| <= k
  {
    if n >= 10 {
      DecimalLength(n / 10, k - 1);
    }
  }

  // ---- Tokens ----

  datatype Token = NoToken | Token(text: seq<Byte>, rest: seq<Byte>)

  function Skip(s: seq<Byte>, d: Byte): (r: seq<Byte>)
    ensures |r| <= |s| && (r != [] ==> r[0] != d)
  {
    if s != [] && s[0] == d then Skip(s[1..], d) else s
  }

  function Span(s: seq<Byte>, d: Byte): (n: nat)
    ensures n <= |s| && (n < |s| ==> s[n] == d)
    ensures forall i :: 0 <= i < n ==> s[i] != d
  {
    if s == [] || s[0] == d then 0 else Span(s[1..], d) + 1
  }

  /** strtok with one delimiter: skip any delimiters, take what comes before the next one. */
  function StrTok(s: seq<Byte>, d: Byte): (t: Token)
    ensures t.Token? ==> t.text != [] && |t.rest| < |s|
  {
    var start := Skip(s, d);
    if start == [] then NoToken
    else
      var n := Span(start, d);
      Token(start[..n], if n < |start| then start[n + 1..] else [])
  }

  lemma {:induction false} TokenAtFront(t: seq<Byte>, d: Byte, rest: seq<Byte>)
    requires t != [] && forall i :: 0 <= i < |t| ==> t[i] != d
    ensures StrTok(t + [d] + rest, d) == Token(t, rest)
    ensures StrTok(t, d) == Token(t, [])
  {
    SpanAt(t + [d] + rest, d, |t|);
    SpanAt(t, d, |t|);
    assert (t + [d] + rest)[..|t|] == t && (t + [d] + rest)[|t| + 1..] == rest;
  }

  lemma {:induction false} SpanAt(s: seq<Byte>, d: Byte, n: nat)
    requires n <= |s| && (forall i :: 0 <= i < n ==> s[i] != d) && (n < |s| ==> s[n] == d)
    ensures Span(s, d) == n
  {
  }

  // ---- Loading ----

  datatype Limits = Limits(memlimit: U64, opslimit: U64)

  /** A line without a key, or a known key without a value, makes the code follow a null pointer: it has
      no defined outcome. */
  datatype Outcome = Loaded(limits: Limits) | Undefined

  function Set(limits: Limits, key: seq<Byte>, value: U64): Limits {
    if key == MEMLIMIT then limits.(memlimit := value) else limits.(opslimit := value)
  }

  function OnLine(line: seq<Byte>, limits: Limits): Outcome {
    match StrTok(line, COLON)
    case NoToken => Undefined
    case Token(key, rest) =>
      if key !in CONFIGS then Loaded(limits)
      else
        match StrTok(rest, COLON)
        case NoToken => Undefined
        case Token(value, _) => Loaded(Set(limits, key, Unsigned(Atol(value))))
  }

  /** The loop of kp_cfg_load over the lines of a text. */
  function OnText(text: seq<Byte>, limits: Limits): Outcome
    decreases |text|
  {
    match StrTok(text, NEWLINE)
    case NoToken => Loaded(limits)
    case Token(line, rest) =>
      match OnLine(line, limits)
      case Undefined => Undefined
      case Loaded(limits') => OnText(rest, limits')
  }

  /** KP_CONFIG_TEMPLATE. */
  function Line(key: seq<Byte>, n: nat): seq<Byte> {
    key + [COLON] + ([SPACE] + Decimal(n))
  }

  function Text(limits: Limits): seq<Byte> {
    Line(MEMLIMIT, limits.memlimit) + [NEWLINE] + (Line(OPSLIMIT, limits.opslimit) + [NEWLINE] + [])
  }

  lemma {:induction false} LineLoads(key: seq<Byte>, n: nat, limits: Limits)
    requires key == MEMLIMIT || key == OPSLIMIT
    ensures OnLine(Line(key, n), limits) == Loaded(Set(limits, key, if n > LONG_MAX then LONG_MAX else n))
  {
    var value := [SPACE] + Decimal(n);
    AtolOfDecimal(n);
    LineTokens(key, n);
    hide StrTok, Atol, Decimal, Line, Set;
    assert CONFIGS[0] == MEMLIMIT && CONFIGS[1] == OPSLIMIT;
  }

  lemma {:induction false} LineTokens(key: seq<Byte>, n: nat)
    requires key == MEMLIMIT || key == OPSLIMIT
    ensures StrTok(Line(key, n), COLON) == Token(key, [SPACE] + Decimal(n))
    ensures StrTok([SPACE] + Decimal(n), COLON) == Token([SPACE] + Decimal(n), [])
  {
    TokenAtFront(key, COLON, [SPACE] + Decimal(n));
    TokenAtFront([SPACE] + Decimal(n), COLON, []);
  }

  lemma {:induction false} LineHasNoNewline(key: seq<Byte>, n: nat)
    requires key == MEMLIMIT || key == OPSLIMIT
    ensures forall i :: 0 <= i < |Line(key, n)| ==> Line(key, n)[i] != NEWLINE && Line(key, n)[i] != 0
  {
    forall i | 0 <= i < |Line(key, n)| ensures Line(key, n)[i] != NEWLINE && Line(key, n)[i] != 0 {
      if i >= |key| + 2 {
        assert Line(key, n)[i] == Decimal(n)[i - |key| - 2];
      }
    }
  }

  /** What loading the printed text sets: each limit, or the largest signed value when it exceeds that. */
  lemma {:induction false} TextLoads(limits: Limits, before: Limits)
    ensures OnText(Text(limits), before)
            == Loaded(Limits(if limits.memlimit > LONG_MAX then LONG_MAX else limits.memlimit,
                             if limits.opslimit > LONG_MAX then LONG_MAX else limits.opslimit))
  {
    var m := Set(before, MEMLIMIT, if limits.memlimit > LONG_MAX then LONG_MAX else limits.memlimit);
    LineThenRest(MEMLIMIT, limits.memlimit, Line(OPSLIMIT, limits.opslimit) + [NEWLINE] + [], before);
    LineThenRest(OPSLIMIT, limits.opslimit, [], m);
  }

  lemma {:induction false} LineThenRest(key: seq<Byte>, n: nat, rest: seq<Byte>, limits: Limits)
    requires key == MEMLIMIT || key == OPSLIMIT
    ensures OnText(Line(key, n) + [NEWLINE] + rest, limits)
            == OnText(rest, Set(limits, key, if n > LONG_MAX then LONG_MAX else n))
  {
    LineHasNoNewline(key, n);
    LineLoads(key, n, limits);
    TokenAtFront(Line(key, n), NEWLINE, rest);
  }

  /** The configuration is read back as it was written, whatever was set before, if and only if both
      limits are below 2 to the 63. */
  lemma {:induction false} ConfigRoundTrip(limits: Limits, before: Limits)
    ensures OnText(Text(limits), before) == Loaded(limits)
            <==> limits.memlimit <= LONG_MAX && limits.opslimit <= LONG_MAX
  {
    TextLoads(limits, before);
  }

  /** The text always fits the metadata of a safe, so that it is written and stored whole. */
  lemma {:induction false} TextFits(limits: Limits)
    ensures ContentsFit(Contents([], Text(limits)))
  {
    var p := Pow10(20);
    assert Pow10(4) == 10_000;
    assert Pow10(8) == 10_000 * Pow10(4);
    assert Pow10(12) == 10_000 * Pow10(8);
    assert Pow10(16) == 10_000 * Pow10(12);
    assert p == 10_000 * Pow10(16);
    DecimalLength(limits.memlimit, 20);
    DecimalLength(limits.opslimit, 20);
    LineHasNoNewline(MEMLIMIT, limits.memlimit);
    LineHasNoNewline(OPSLIMIT, limits.opslimit);
  }

  /** And this holds through the encrypted file: what kp_cfg_create saves, kp_cfg_load finds again. */
  lemma {:induction false} ConfigSurvivesFile(k: SafeFile.Crypto, master: seq<Byte>, h: SafeFile.Header, limits: Limits, garbage: seq<Byte>, before: Limits)
    requires k.Laws() && h.Valid() && |garbage| == SafeFile.PLAIN_MAX
    requires limits.memlimit <= LONG_MAX && limits.opslimit <= LONG_MAX
    requires SafeFile.Sealed(k, master, h, Contents([], Text(limits))).Some?
    ensures var r := SafeFile.Opened(k, master, SafeFile.Sealed(k, master, h, Contents([], Text(limits))).value, garbage);
            r.Ok? && OnText(r.contents.metadata, before) == Loaded(limits)
  {
    TextFits(limits);
    TextLoads(limits, before);
    SafeFile.SavedOpens(k, master, h, Contents([], Text(limits)), garbage);
  }

  // ---- The loop over the lines ----

  /** The table is sorted, as bsearch requires. */
  lemma {:induction false} TableSorted()
    ensures StrCmp(CONFIGS[0], CONFIGS[1]) < 0
  {
    assert MEMLIMIT[0] < OPSLIMIT[0];
  }

  /** bsearch with config_search. */
  method Search(key: seq<Byte>) returns (at: nat)
    requires NulFree(key)
    ensures at <= |CONFIGS| && (at < |CONFIGS| <==> key in CONFIGS)
    ensures at < |CONFIGS| ==> CONFIGS[at] == key
  {
    TableSorted();
    var lo, hi := 0, |CONFIGS|;
    while lo < hi
      invariant 0 <= lo <= hi <= |CONFIGS|
      invariant forall j :: 0 <= j < |CONFIGS| && CONFIGS[j] == key ==> lo <= j < hi
    {
      var mid := (lo + hi) / 2;
      var c := StrCmp(key, CONFIGS[mid]);
      StrCmpTotal(key, CONFIGS[mid]);
      StrCmpTotal(key, CONFIGS[1 - mid]);
      StrCmpTotal(CONFIGS[0], CONFIGS[1]);
      if c == 0 {
        return mid;
      } else if c < 0 {
        hi := mid;
      } else {
        lo := mid + 1;
      }
    }
    at := |CONFIGS|;
  }

  /** The part of struct kp_ctx that the setters write. */
  class Settings {
    var limits: Limits

    constructor (limits: Limits)
      ensures this.limits == limits
    {
      this.limits := limits;
    }

    /** The loop of kp_cfg_load. `defined` is false where the code would follow a null pointer. */
    method Load(text: seq<Byte>) returns (defined: bool)
      requires NulFree(text)
      modifies this
      ensures match OnText(text, old(limits))
              case Loaded(l) => defined && limits == l
              case Undefined => !defined
    {
      var line := StrTok(text, NEWLINE);
      ghost var left := text;
      TokenNulFree(text, NEWLINE);
      while line.Token?
        invariant NulFree(left) && line == StrTok(left, NEWLINE)
        invariant line.Token? ==> NulFree(line.text) && NulFree(line.rest)
        invariant OnText(left, limits) == OnText(text, old(limits))
        decreases |left|
      {
        var key := StrTok(line.text, COLON);
        if key.NoToken? {
          return false;
        }
        TokenNulFree(line.text, COLON);
        var value := StrTok(key.rest, COLON);
        var at := Search(key.text);
        if at < |CONFIGS| {
          if value.NoToken? {
            return false;
          }
          limits := Set(limits, CONFIGS[at], Unsigned(Atol(value.text)));
        }
        left := line.rest;
        TokenNulFree(left, NEWLINE);
        line := StrTok(line.rest, NEWLINE);
      }
      defined := true;
    }
  }

  lemma {:induction false} SkipIsSuffix(s: seq<Byte>, d: Byte)
    ensures Skip(s, d) == s[|s| - |Skip(s, d)|..]
  {
    if s != [] && s[0] == d {
      SkipIsSuffix(s[1..], d);
    }
  }

  lemma {:induction false} TokenNulFree(s: seq<Byte>, d: Byte)
    requires NulFree(s)
    ensures StrTok(s, d).Token? ==> NulFree(StrTok(s, d).text) && NulFree(StrTok(s, d).rest)
  {
    SkipIsSuffix(s, d);
  }

  // ---- The search for the nearest configuration ----

  datatype Stat = Present | NoEntry | Failed

  datatype FindResult = Found(dir: Name) | TooLong | StatFailed

  /** strrchr: the position of the last slash, or -1. */
  function LastSlash(p: seq<Byte>): (i: int)
    ensures -1 <= i < |p|
    ensures i >= 0 ==> p[i] == SLASH
    ensures forall j :: i < j < |p| ==> p[j] != SLASH
  {
    if p == [] then -1
    else if p[|p| - 1] == SLASH then |p| - 1
    else LastSlash(p[..|p| - 1])
  }

  /** One turn of the loop: cut at the last slash, or to nothing when there is none. */
  function Parent(p: Name): (q: Name)
    ensures p != [] ==> |q| < |p|
    ensures p == [] ==> q == []
  {
    var i := LastSlash(p);
    if i < 0 then [] else p[..i]
  }

  /** The places where a path can be cut: before one of its slashes, or to nothing. */
  ghost predicate IsAncestor(d: Name, p: Name) {
    d == [] || (|d| < |p| && p[|d|] == SLASH && p[..|d|] == d)
  }

  /** A workspace: its own path, and what stat finds at an absolute path. */
  datatype Workspace = Workspace(path: seq<Byte>, lookup: seq<Byte> -> Stat) {
    function ConfigPath(d: Name): seq<Byte> {
      path + [SLASH] + d + [SLASH] + CONFIG_SAFE_NAME
    }

    predicate Fits(d: Name) {
      |ConfigPath(d)| < PATH_MAX
    }

    function At(d: Name): Stat {
      lookup(ConfigPath(d))
    }

    /** Whether the loop ends at a directory. */
    predicate Decides(d: Name) {
      !Fits(d) || At(d) != NoEntry
    }
  }

  ghost predicate SomeDecides(ws: Workspace, p: Name) {
    exists d :: IsAncestor(d, p) && ws.Decides(d)
  }

  /** The nearest ancestor is the parent; all others are ancestors of the parent. */
  lemma {:induction false} AncestorsOfParent(d: Name, p: Name)
    ensures IsAncestor(d, p) <==> d == Parent(p) || (p != [] && IsAncestor(d, Parent(p)))
  {
    var i := LastSlash(p);
    if IsAncestor(d, p) && d != [] {
      assert |d| <= i;
      if |d| < i {
        assert Parent(p)[..|d|] == d;
      }
    }
    if i >= 0 && d != [] && IsAncestor(d, Parent(p)) {
      assert p[..|d|] == Parent(p)[..|d|];
    }
  }

  lemma {:induction false} DecidedAbove(ws: Workspace, p: Name)
    requires SomeDecides(ws, p) && !ws.Decides(Parent(p))
    ensures p != [] && SomeDecides(ws, Parent(p))
  {
    var d :| IsAncestor(d, p) && ws.Decides(d);
    AncestorsOfParent(d, p);
  }

  /** What the loop finds, when it ends. */
  function Find(ws: Workspace, p: Name): FindResult
    requires SomeDecides(ws, p)
    decreases |p|
  {
    var q := Parent(p);
    if !ws.Fits(q) then TooLong
    else
      match ws.At(q)
      case Present => Found(q)
      case Failed => StatFailed
      case NoEntry =>
        DecidedAbove(ws, p);
        Find(ws, q)
  }

  /** kp_cfg_find yields the longest proper ancestor that holds a configuration: the directory found is
      an ancestor, it has one, and no longer ancestor has one or failed to be looked up; and whenever
      there is such a directory, it is found. */
  lemma {:induction false} FindsNearest(ws: Workspace, p: Name, d: Name)
    requires SomeDecides(ws, p)
    ensures Find(ws, p) == Found(d) <==>
            && IsAncestor(d, p)
            && (var abspath := ws.path + [47] + d + [47] + CONFIG_SAFE_NAME;
                |abspath| < 4096 && ws.lookup(abspath) == Present)
            && forall e :: IsAncestor(e, p) && |e| > |d| ==> !ws.Decides(e)
    decreases |p|
  {
    var q := Parent(p);
    AncestorsOfParent(q, p);
    AncestorsOfParent(d, p);
    forall e ensures IsAncestor(e, p) <==> e == q || (p != [] && IsAncestor(e, q)) {
      AncestorsOfParent(e, p);
    }
    AncestorsAreShorter(q);
    if !ws.Decides(q) {
      DecidedAbove(ws, p);
      FindsNearest(ws, q, d);
    }
  }

  lemma {:induction false} AncestorsAreShorter(p: Name)
    ensures forall e :: IsAncestor(e, p) && p != [] ==> |e| < |p|
    ensures forall e :: IsAncestor(e, p) && p == [] ==> e == []
  {
  }

  // ---- When the loop ends ----

  /** Whether the loop is still going after n turns. */
  ghost predicate StillGoing(ws: Workspace, p: Name, n: nat)
    decreases n
  {
    n > 0 ==> ws.Fits(Parent(p)) && ws.At(Parent(p)) == NoEntry && StillGoing(ws, Parent(p), n - 1)
  }

  /** The loop ends if and only if some ancestor, the root included, has a configuration or cannot be
      looked up. Its condition never becomes false: without a root configuration, and with nothing but
      missing entries above, it is still going after any number of turns. */
  lemma {:induction false} EndsExactlyWhenDecided(ws: Workspace, p: Name)
    ensures (forall n :: StillGoing(ws, p, n)) <==> !SomeDecides(ws, p)
  {
    if SomeDecides(ws, p) {
      var n := StopsAt(ws, p);
    } else {
      forall n ensures StillGoing(ws, p, n) {
        NeverStops(ws, p, n);
      }
    }
  }

  lemma {:induction false} StopsAt(ws: Workspace, p: Name) returns (n: nat)
    requires SomeDecides(ws, p)
    ensures n <= |p| + 1 && !StillGoing(ws, p, n)
    decreases |p|
  {
    if ws.Decides(Parent(p)) {
      n := 1;
    } else {
      DecidedAbove(ws, p);
      n := StopsAt(ws, Parent(p));
      n := n + 1;
    }
  }

  lemma {:induction false} NeverStops(ws: Workspace, p: Name, n: nat)
    requires !SomeDecides(ws, p)
    ensures StillGoing(ws, p, n)
    decreases n
  {
    if n > 0 {
      AncestorsOfParent(Parent(p), p);
      forall d | IsAncestor(d, Parent(p)) ensures !ws.Decides(d) {
        AncestorsOfParent(d, p);
      }
      NeverStops(ws, Parent(p), n - 1);
    }
  }

  // ---- The loop itself, on its path buffer ----

  /** strrchr on the buffer: a position, or the start of the buffer when there is no slash. */
  method CutPoint(buf: array<Byte>, ghost p: Name) returns (dir: nat)
    requires |p| < buf.Length && NulFree(p) && buf[..|p|] == p && buf[|p|] == 0
    ensures dir < buf.Length && dir <= |p| && p[..dir] == Parent(p)
  {
    var n := StrLen(buf[..]);
    StrLenUnique(buf[..], |p|);
    assert buf[..][..|p|] == p;
    var i: int := n;
    while i > 0 && buf[i - 1] != SLASH
      invariant 0 <= i <= n == |p|
      invariant forall j :: i <= j < n ==> p[j] != SLASH
    {
      assert p[i - 1] == buf[i - 1];
      i := i - 1;
    }
    assert i > 0 ==> p[i - 1] == buf[i - 1];
    LastSlashIs(p, i - 1);
    dir := if i > 0 then i - 1 else 0;
  }

  lemma {:induction false} LastSlashIs(p: seq<Byte>, i: int)
    requires -1 <= i < |p| && (i >= 0 ==> p[i] == SLASH) && forall j :: i < j < |p| ==> p[j] != SLASH
    ensures LastSlash(p) == i
  {
  }

  /** strlcat: append what fits, with a terminator. */
  method Concatenate(buf: array<Byte>, path: Name) returns (fits: bool)
    requires NulFree(path)
    modifies buf
    ensures fits <==> |CStr(old(buf[..])) + path| < buf.Length
    ensures fits ==>
              var s := CStr(old(buf[..])) + path;
              NulFree(s) && buf[..|s|] == s && buf[|s|] == 0
    ensures !fits ==>
              CStr(buf[..]) == if Terminated(old(buf[..])) then (CStr(old(buf[..])) + path)[..buf.Length - 1] else CStr(old(buf[..]))
  {
    var at := StrLen(buf[..]);
    fits := at + |path| < buf.Length;
    if at == buf.Length {
      return;
    }
    ghost var s := CStr(buf[..]) + path;
    var n := if fits then |path| else buf.Length - 1 - at;
    forall i | 0 <= i < n {
      buf[at + i] := path[i];
    }
    buf[at + n] := 0;
    assert buf[..at + n] == s[..at + n];
    assert fits ==> s[..at + n] == s;
    StrLenUnique(buf[..], at + n);
  }

  lemma {:induction false} FindStep(ws: Workspace, p: Name)
    requires SomeDecides(ws, p)
    ensures var q := Parent(p);
            if !ws.Fits(q) then Find(ws, p) == TooLong
            else match ws.At(q)
                 case Present => Find(ws, p) == Found(q)
                 case Failed => Find(ws, p) == StatFailed
                 case NoEntry => p != [] && SomeDecides(ws, q) && Find(ws, p) == Find(ws, q)
  {
    if ws.Fits(Parent(p)) && ws.At(Parent(p)) == NoEntry {
      DecidedAbove(ws, p);
    }
  }

  /** snprintf and stat on the configuration of a directory. */
  method StatConfig(ws: Workspace, d: Name) returns (tooLong: bool, stat: Stat)
    ensures tooLong <==> !ws.Fits(d)
    ensures !tooLong ==> stat == ws.At(d)
  {
    var abspath := ws.path + [SLASH] + d + [SLASH] + CONFIG_SAFE_NAME;
    if |abspath| >= PATH_MAX {
      return true, NoEntry;
    }
    return false, ws.lookup(abspath);
  }

  /** kp_cfg_find, where its loop ends: append the path to what the buffer holds, if it fits, then cut. On
      success the buffer holds the directory found. */
  method FindConfig(ws: Workspace, path: Name, buf: array<Byte>) returns (ret: nat)
    requires NulFree(path)
    requires |CStr(buf[..]) + path| < buf.Length ==> SomeDecides(ws, CStr(buf[..]) + path)
    modifies buf
    ensures |CStr(old(buf[..])) + path| >= buf.Length ==>
              && ret == KP_ERRNO
              && CStr(buf[..]) == if Terminated(old(buf[..])) then (CStr(old(buf[..])) + path)[..buf.Length - 1] else CStr(old(buf[..]))
    ensures |CStr(old(buf[..])) + path| < buf.Length ==>
              match Find(ws, CStr(old(buf[..])) + path)
              case Found(d) => ret == KP_SUCCESS && CStr(buf[..]) == d
              case _ => ret == KP_ERRNO
  {
    hide Find, SomeDecides, Parent, Workspace.Fits, Workspace.At, StrLen;
    ghost var start := CStr(buf[..]) + path;
    var fits := Concatenate(buf, path);
    if !fits {
      return KP_ERRNO;
    }
    ghost var p := start;
    while true
      invariant |p| < buf.Length && NulFree(p) && buf[..|p|] == p && buf[|p|] == 0
      invariant SomeDecides(ws, p) && Find(ws, p) == Find(ws, start)
      decreases |p|
    {
      var dir := CutPoint(buf, p);
      ghost var q := Parent(p);
      buf[dir] := 0;
      assert buf[..dir] == q && |q| == dir;
      BufferHolds(buf[..], q);
      var cfgPath := CStr(buf[..]);
      FindStep(ws, p);
      var tooLong, stat := StatConfig(ws, cfgPath);
      if tooLong {
        return KP_ERRNO;
      }
      if stat == Present {
        return KP_SUCCESS;
      }
      if stat == Failed {
        return KP_ERRNO;
      }
      p := q;
    }
  }

  lemma {:induction false} BufferHolds(buf: seq<Byte>, q: Name)
    requires |q| < |buf| && buf[..|q|] == q && buf[|q|] == 0 && NulFree(q)
    ensures CStr(buf) == q
  {
    StrLenUnique(buf, |q|);
  }
}
