/** Creating the directories above a safe: the loop that cuts and restores a path buffer (kp_safe_mkdir). */
module Directories {
  import opened Bytes
  import opened Errors
  import opened Store

  /** What a relative path names: its non-empty components. */
  type Path = seq<seq<Byte>>

  function Resolve(p: seq<Byte>, component: seq<Byte> := []): Path {
    if p == [] then (if component == [] then [] else [component])
    else if p[0] == SLASH then (if component == [] then [] else [component]) + Resolve(p[1..], [])
    else Resolve(p[1..], component + [p[0]])
  }

  /** A path names its components: the pieces between slashes, in order, the empty ones left out. */
  lemma {:induction false} Components(a: seq<Byte>, b: seq<Byte>)
    requires SLASH !in b
    ensures Resolve(b) == if b == [] then [] else [b]
    ensures Resolve(a + [SLASH] + b) == Resolve(a) + if b == [] then [] else [b]
  {
    LastComponent(b, []);
    assert [] + b == b;
    ComponentsFrom(a, [], b);
  }

  lemma {:induction false} LastComponent(b: seq<Byte>, component: seq<Byte>)
    requires SLASH !in b
    ensures Resolve(b, component) == if component + b == [] then [] else [component + b]
  {
    if b != [] {
      LastComponent(b[1..], component + [b[0]]);
      assert component + [b[0]] + b[1..] == component + b;
    } else {
      assert component + b == component;
    }
  }

  lemma {:induction false} ComponentsFrom(a: seq<Byte>, component: seq<Byte>, b: seq<Byte>)
    requires SLASH !in b
    ensures Resolve(a + [SLASH] + b, component) == Resolve(a, component) + if b == [] then [] else [b]
  {
    var p := a + [SLASH] + b;
    if a == [] {
      assert p[1..] == b;
      LastComponent(b, []);
      assert [] + b == b;
    } else {
      assert p[0] == a[0] && p[1..] == a[1..] + [SLASH] + b;
      if a[0] == SLASH {
        ComponentsFrom(a[1..], [], b);
        Assoc(if component == [] then [] else [component], Resolve(a[1..], []), if b == [] then [] else [b]);
      } else {
        ComponentsFrom(a[1..], component + [a[0]], b);
      }
    }
  }

  /** The prefixes that end before a slash, among the first n positions. */
  ghost function Cuts(name: Name, n: nat): set<Path>
    requires n <= |name|
  {
    set i | 0 <= i < n && name[i] == SLASH :: Resolve(name[..i])
  }

  /** strchr in a buffer that holds a name: the next slash at or after a position, or, for NULL, the
      buffer's length. */
  method NextSlash(path: array<Byte>, from: nat, ghost name: Name) returns (i: nat)
    requires from <= |name| < path.Length && NulFree(name)
    requires path[..|name|] == name && path[|name|] == 0
    ensures i == path.Length || (from <= i < |name| && name[i] == SLASH)
    ensures forall j :: from <= j < |name| && j < i ==> name[j] != SLASH
  {
    i := from;
    while path[i] != SLASH && path[i] != 0
      invariant from <= i <= |name|
      invariant forall j :: from <= j < i ==> name[j] != SLASH
      invariant forall j :: 0 <= j < |name| ==> path[j] == path[..|name|][j]
      decreases path.Length - i
    {
      i := i + 1;
    }
    if path[i] == 0 {
      i := path.Length;
    }
  }

  /** Everything that exists below the workspace. `faults` counts the calls that failed for another reason
      than a missing entry. */
  class Tree {
    var present: set<Path>
    ghost var faults: nat

    constructor ()
      ensures present == {} && faults == 0
    {
      present, faults := {}, 0;
    }

    /** fstatat: 0, or an errno. The empty path names nothing. */
    method Stat(path: seq<Byte>) returns (err: nat)
      modifies this`faults
      ensures err == 0 ==> path != [] && Resolve(path) in present
      ensures err == ENOENT ==> path == [] || Resolve(path) !in present
      ensures faults == old(faults) + if err == 0 || err == ENOENT then 0 else 1
    {
      var other: nat :| other != ENOENT;
      if other != 0 {
        faults := faults + 1;
        return other;
      }
      err := if path != [] && Resolve(path) in present then 0 else ENOENT;
    }

    /** mkdirat: 0, or an errno. */
    method Make(path: seq<Byte>) returns (err: nat)
      modifies this
      ensures err == 0 ==> path != [] && present == old(present) + {Resolve(path)}
      ensures err != 0 ==> present == old(present)
      ensures path == [] ==> err == ENOENT
      ensures faults == old(faults) + if err == 0 || path == [] then 0 else 1
    {
      if path == [] {
        return ENOENT;
      }
      err :| err >= 0;
      if err == 0 {
        present := present + {Resolve(path)};
      } else {
        faults := faults + 1;
      }
    }

    /** One prefix: create it unless it is there. */
    method MakeOne(path: seq<Byte>) returns (err: nat)
      modifies this
      ensures err == 0 ==> path != [] && present == old(present) + {Resolve(path)}
      ensures err != 0 ==> present == old(present)
      ensures err == 0 <==> path != [] && faults == old(faults)
      ensures path == [] && faults == old(faults) ==> err == ENOENT
    {
      err := Stat(path);
      if err == ENOENT {
        err := Make(path);
      }
    }

    /** One turn of the loop of kp_safe_mkdir: cut the path at a slash, create what it then names unless it
        is there, and on success put the slash back. */
    method CutOne(path: array<Byte>, ghost name: Name, at: nat) returns (err: nat)
      requires NulFree(name) && at < |name| < path.Length && path[..|name|] == name && name[at] == SLASH
      modifies this, path
      ensures err == 0 ==> path[..] == old(path[..]) && at > 0 && present == old(present) + {Resolve(name[..at])}
      ensures err != 0 ==> present == old(present)
      ensures err == 0 <==> at > 0 && faults == old(faults)
      ensures at == 0 && faults == old(faults) ==> err == ENOENT
    {
      hide Resolve, CStr, StrLen;
      ghost var buffer := path[..];
      assert buffer[..|name|] == name;
      path[at] := 0;
      assert path[..] == buffer[at := 0];
      CutBuffer(name, buffer, at);
      err := MakeOne(CStr(path[..]));
      if err == 0 {
        path[at] := SLASH;
        assert path[..] == buffer;
      }
    }

    /** kp_safe_mkdir. On success every prefix of the name that ends before a slash exists, and nothing
        else was added; on failure, at most some of those were. It fails if and only if the name is too
        long or begins with a slash, or a call does; and a name without a slash needs no call. */
    method MakeParents(name: Name) returns (ret: nat)
      requires NulFree(name)
      modifies this
      ensures ret == KP_SUCCESS ==> present == old(present) + Cuts(name, |name|)
      ensures Cuts(name, |name|) <= old(present) ==> present == old(present)
      ensures old(present) <= present <= old(present) + Cuts(name, |name|)
      ensures |name| >= PATH_MAX ==> ret == KP_ERRNO && present == old(present)
      ensures 0 < |name| < PATH_MAX && name[0] == SLASH && faults == old(faults) ==> ret == ENOENT
      ensures ret == KP_SUCCESS <==> |name| < PATH_MAX && !(|name| > 0 && name[0] == SLASH) && faults == old(faults)
      ensures SLASH !in name ==> faults == old(faults)
    {
      if |name| >= PATH_MAX {
        return KP_ERRNO;
      }
      var path := new Byte[PATH_MAX](i => if 0 <= i < |name| then name[i] else 0);
      ghost var buffer := path[..];
      assert buffer[..|name|] == name && buffer[|name|] == 0;
      BufferHolds(path, buffer, name);
      hide Resolve, NulFree, Cuts;
      ret := CutAll(path, name);
    }

    /** The loop of kp_safe_mkdir, on a buffer that holds the name. */
    method CutAll(path: array<Byte>, ghost name: Name) returns (ret: nat)
      requires NulFree(name) && |name| < path.Length && path[..|name|] == name && path[|name|] == 0
      modifies this, path
      ensures ret == KP_SUCCESS ==> present == old(present) + Cuts(name, |name|) && path[..] == old(path[..])
      ensures old(present) <= present <= old(present) + Cuts(name, |name|)
      ensures 0 < |name| && name[0] == SLASH && faults == old(faults) ==> ret == ENOENT
      ensures ret == KP_SUCCESS <==> !(|name| > 0 && name[0] == SLASH) && faults == old(faults)
      ensures SLASH !in name ==> faults == old(faults)
    {
      hide Resolve, NulFree, Cuts;
      ghost var buffer := path[..];
      assert buffer[..|name|] == name && buffer[|name|] == 0;
      var rdir := NextSlash(path, 0, name);
      ghost var done := 0;
      CutsNone(name);
      while rdir < path.Length
        invariant 0 <= done <= |name| && path[..] == buffer
        invariant rdir == path.Length || (done <= rdir < |name| && name[rdir] == SLASH)
        invariant forall j :: done <= j < |name| && j < rdir ==> name[j] != SLASH
        invariant present == old(present) + Cuts(name, done)
        invariant done > 0 ==> name[0] != SLASH
        invariant faults == old(faults)
        decreases path.Length - rdir
      {
        BufferHolds(path, buffer, name);
        var err := CutOne(path, name, rdir);
        CutsStep(name, done, rdir);
        CutsWithin(name, done);
        if err != 0 {
          return err;
        }
        done := rdir + 1;
        BufferHolds(path, buffer, name);
        rdir := NextSlash(path, rdir + 1, name);
      }
      CutsRest(name, done);
      ret := KP_SUCCESS;
    }
  }

  lemma {:induction false} BufferHolds(path: array<Byte>, buffer: seq<Byte>, name: Name)
    requires path[..] == buffer && |name| < |buffer| && buffer[..|name|] == name && buffer[|name|] == 0
    ensures path[..|name|] == name && path[|name|] == 0
  {
    assert path[..|name|] == path[..][..|name|];
  }

  lemma {:induction false} CutsNone(name: Name)
    ensures Cuts(name, 0) == {}
  {
  }

  /** A NUL in place of a slash leaves the prefix before it. */
  lemma {:induction false} CutBuffer(name: Name, buffer: seq<Byte>, at: nat)
    requires NulFree(name) && at < |name| < |buffer| && buffer[..|name|] == name
    ensures CStr(buffer[at := 0]) == name[..at]
  {
    assert buffer[at := 0][..at] == name[..at];
    StrLenUnique(buffer[at := 0], at);
  }

  lemma {:induction false} CutsWithin(name: Name, n: nat)
    requires n <= |name|
    ensures Cuts(name, n) <= Cuts(name, |name|)
  {
  }

  lemma {:induction false} CutsStep(name: Name, from: nat, at: nat)
    requires from <= at < |name| && name[at] == SLASH
    requires forall j :: from <= j < at ==> name[j] != SLASH
    ensures Cuts(name, at + 1) == Cuts(name, from) + {Resolve(name[..at])}
  {
  }

  lemma {:induction false} CutsRest(name: Name, from: nat)
    requires from <= |name| && forall j :: from <= j < |name| ==> name[j] != SLASH
    ensures Cuts(name, |name|) == Cuts(name, from)
  {
  }
}
