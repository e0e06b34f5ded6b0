/** The agent's ordered store of safes (kpagent.c): nodes in search order, keyed through the payload
    that each node points to. */
module Store {
  import opened Bytes

  const PATH_MAX: nat := 4096
  const PASSWORD_MAX: nat := 4096
  const METADATA_MAX: nat := 4096

  type Name = seq<Byte>

  datatype Contents = Contents(password: seq<Byte>, metadata: seq<Byte>)

  datatype Option<T> = None | Some(value: T)

  /** struct kp_unsafe: a timeout and three fixed-size fields, in whatever state they arrived. */
  datatype Unsafe = Unsafe(timeout: int, name: seq<Byte>, password: seq<Byte>, metadata: seq<Byte>) {
    predicate Sized() {
      |name| == PATH_MAX && |password| == PASSWORD_MAX && |metadata| == METADATA_MAX
    }

    /** Every strlcpy out of this structure succeeds. */
    predicate AllTerminated() {
      Terminated(name) && Terminated(password) && Terminated(metadata)
    }

    function Value(): Contents {
      Contents(CStr(password), CStr(metadata))
    }
  }

  /** A string that fits a field with its terminator. */
  predicate Fits(s: seq<Byte>, size: nat) {
    NulFree(s) && |s| < size
  }

  predicate ContentsFit(c: Contents) {
    Fits(c.password, PASSWORD_MAX) && Fits(c.metadata, METADATA_MAX)
  }

  ghost predicate StoreFits(store: map<Name, Contents>) {
    forall n :: n in store ==> Fits(n, PATH_MAX) && ContentsFit(store[n])
  }

  // ---- store_cmp ----

  /** strncmp on NUL-free strings: the difference of the first bytes that differ. */
  function StrCmp(a: seq<Byte>, b: seq<Byte>): int {
    if a == [] then (if b == [] then 0 else -b[0])
    else if b == [] then a[0]
    else if a[0] != b[0] then a[0] - b[0]
    else StrCmp(a[1..], b[1..])
  }

  /** What decides the order: the first bytes that differ, the end of a string counting as less than any. */
  lemma {:induction false} StrCmpDecides(a: seq<Byte>, b: seq<Byte>, k: nat)
    requires k <= |a| && k <= |b| && a[..k] == b[..k]
    ensures k < |a| && k < |b| && a[k] != b[k] ==> (StrCmp(a, b) < 0 <==> a[k] < b[k]) && StrCmp(a, b) != 0
    ensures k == |a| < |b| && NulFree(b) ==> StrCmp(a, b) < 0
    ensures k == |b| < |a| && NulFree(a) ==> StrCmp(a, b) > 0
  {
    if k > 0 {
      assert a[..k][0] == b[..k][0];
      assert a[1..][..k - 1] == a[..k][1..] && b[1..][..k - 1] == b[..k][1..];
      StrCmpDecides(a[1..], b[1..], k - 1);
    }
  }

  /** The order is total: equal names compare 0, and swapping the arguments swaps the sign. */
  lemma {:induction false} StrCmpTotal(a: seq<Byte>, b: seq<Byte>)
    requires NulFree(a) && NulFree(b)
    ensures StrCmp(a, b) == 0 <==> a == b
    ensures StrCmp(a, b) == -StrCmp(b, a)
  {
    if a != [] && b != [] {
      StrCmpTotal(a[1..], b[1..]);
      assert a == [a[0]] + a[1..] && b == [b[0]] + b[1..];
    }
  }

  /** And transitive. */
  lemma {:induction false} StrCmpTransitive(a: seq<Byte>, b: seq<Byte>, c: seq<Byte>)
    requires NulFree(a) && NulFree(b) && NulFree(c)
    requires StrCmp(a, b) <= 0 && StrCmp(b, c) <= 0
    ensures StrCmp(a, c) <= 0
    ensures StrCmp(a, b) < 0 || StrCmp(b, c) < 0 ==> StrCmp(a, c) < 0
  {
    if a != [] && b != [] && c != [] && a[0] == b[0] == c[0] {
      StrCmpTransitive(a[1..], b[1..], c[1..]);
    }
  }

  // ---- The entries of the tree, in order ----

  datatype Entry = Entry(name: Name, value: Contents) {
    predicate Valid() {
      Fits(name, PATH_MAX) && ContentsFit(value)
    }
  }

  ghost predicate AllEntriesValid(es: seq<Entry>) {
    forall i :: 0 <= i < |es| ==> es[i].Valid()
  }

  ghost predicate Sorted(es: seq<Entry>) {
    forall i, j :: 0 <= i < j < |es| ==> StrCmp(es[i].name, es[j].name) < 0
  }

  ghost predicate Has(es: seq<Entry>, n: Name) {
    exists i :: 0 <= i < |es| && es[i].name == n
  }

  ghost predicate Represents(es: seq<Entry>, m: map<Name, Contents>) {
    && (forall n :: n in m <==> Has(es, n))
    && (forall i :: 0 <= i < |es| ==> Has(es, es[i].name) && m[es[i].name] == es[i].value)
  }

  /** Where a key belongs: everything before is smaller, everything from there on is larger. */
  ghost predicate Splits(es: seq<Entry>, key: Name, at: nat) {
    && at <= |es|
    && (forall j :: 0 <= j < at ==> StrCmp(es[j].name, key) < 0)
    && (forall j :: at <= j < |es| ==> StrCmp(key, es[j].name) < 0)
  }

  lemma {:induction false} SplitMeansAbsent(es: seq<Entry>, m: map<Name, Contents>, key: Name, at: nat)
    requires Represents(es, m) && Splits(es, key, at) && NulFree(key)
    ensures key !in m
  {
    StrCmpTotal(key, key);
    assert !Has(es, key);
  }

  /** Everything up to a smaller entry is smaller than the key; everything from a larger one, larger. */
  lemma {:induction false} SmallerBelow(es: seq<Entry>, mid: nat, key: Name)
    requires Sorted(es) && AllEntriesValid(es) && NulFree(key) && mid < |es| && StrCmp(es[mid].name, key) < 0
    ensures forall j :: 0 <= j <= mid ==> StrCmp(es[j].name, key) < 0
  {
    forall j | 0 <= j < mid ensures StrCmp(es[j].name, key) < 0 {
      StrCmpTransitive(es[j].name, es[mid].name, key);
    }
  }

  lemma {:induction false} LargerAbove(es: seq<Entry>, mid: nat, key: Name)
    requires Sorted(es) && AllEntriesValid(es) && NulFree(key) && mid < |es| && StrCmp(key, es[mid].name) < 0
    ensures forall j :: mid <= j < |es| ==> StrCmp(key, es[j].name) < 0
  {
    forall j | mid < j < |es| ensures StrCmp(key, es[j].name) < 0 {
      StrCmpTransitive(key, es[mid].name, es[j].name);
    }
  }

  function Inserted(es: seq<Entry>, at: nat, e: Entry): seq<Entry>
    requires at <= |es|
  {
    es[..at] + [e] + es[at..]
  }

  lemma {:induction false} InsertSorted(es: seq<Entry>, at: nat, e: Entry)
    requires Sorted(es) && Splits(es, e.name, at)
    ensures Sorted(Inserted(es, at, e))
  {
    var es' := Inserted(es, at, e);
    assert forall i :: 0 <= i < |es'| ==> es'[i] == if i < at then es[i] else if i == at then e else es[i - 1];
  }

  lemma {:induction false} InsertHas(es: seq<Entry>, at: nat, e: Entry, n: Name)
    requires at <= |es|
    ensures Has(Inserted(es, at, e), n) <==> Has(es, n) || n == e.name
  {
    var es' := Inserted(es, at, e);
    assert es'[at] == e;
    if Has(es, n) {
      var i :| 0 <= i < |es| && es[i].name == n;
      assert es'[if i < at then i else i + 1] == es[i];
    }
    if Has(es', n) {
      var i :| 0 <= i < |es'| && es'[i].name == n;
      assert i != at ==> es'[i] == es[if i < at then i else i - 1];
    }
  }

  lemma {:induction false} InsertRepresents(es: seq<Entry>, m: map<Name, Contents>, at: nat, e: Entry)
    requires Represents(es, m) && Splits(es, e.name, at) && NulFree(e.name)
    ensures Represents(Inserted(es, at, e), m[e.name := e.value])
  {
    var es', m' := Inserted(es, at, e), m[e.name := e.value];
    SplitMeansAbsent(es, m, e.name, at);
    forall n ensures n in m' <==> Has(es', n) {
      InsertHas(es, at, e, n);
    }
    forall i | 0 <= i < |es'| ensures Has(es', es'[i].name) && m'[es'[i].name] == es'[i].value {
      if i != at {
        var k := if i < at then i else i - 1;
        assert es'[i] == es[k] && Has(es, es[k].name);
      }
    }
  }

  lemma {:induction false} SortedIsDistinct(es: seq<Entry>, i: nat, j: nat)
    requires Sorted(es) && AllEntriesValid(es) && i < |es| && j < |es| && es[i].name == es[j].name
    ensures i == j
  {
    StrCmpTotal(es[i].name, es[j].name);
  }

  function Replaced(es: seq<Entry>, at: nat, v: Contents): seq<Entry>
    requires at < |es|
  {
    es[at := es[at].(value := v)]
  }

  lemma {:induction false} ReplaceHas(es: seq<Entry>, at: nat, v: Contents, n: Name)
    requires at < |es|
    ensures Has(Replaced(es, at, v), n) <==> Has(es, n)
  {
    var es' := Replaced(es, at, v);
    if Has(es, n) {
      var i :| 0 <= i < |es| && es[i].name == n;
      assert es'[i].name == n;
    }
  }

  lemma {:induction false} ReplaceKeeps(es: seq<Entry>, m: map<Name, Contents>, at: nat, v: Contents)
    requires Sorted(es) && AllEntriesValid(es) && Represents(es, m) && at < |es|
    ensures Sorted(Replaced(es, at, v))
    ensures Represents(Replaced(es, at, v), m[es[at].name := v])
  {
    var es', m' := Replaced(es, at, v), m[es[at].name := v];
    assert Has(es, es[at].name);
    forall n ensures n in m' <==> Has(es', n) {
      ReplaceHas(es, at, v, n);
    }
    forall i | 0 <= i < |es'| ensures Has(es', es'[i].name) && m'[es'[i].name] == es'[i].value {
      if es[i].name == es[at].name {
        SortedIsDistinct(es, i, at);
      }
    }
  }

  function Removed(es: seq<Entry>, at: nat): seq<Entry>
    requires at < |es|
  {
    es[..at] + es[at + 1..]
  }

  lemma {:induction false} RemoveSorted(es: seq<Entry>, at: nat)
    requires Sorted(es) && at < |es|
    ensures Sorted(Removed(es, at))
  {
    var es' := Removed(es, at);
    assert forall i :: 0 <= i < |es'| ==> es'[i] == es[if i < at then i else i + 1];
  }

  lemma {:induction false} RemoveHasOnly(es: seq<Entry>, at: nat, n: Name)
    requires Sorted(es) && AllEntriesValid(es) && at < |es| && Has(Removed(es, at), n)
    ensures Has(es, n) && n != es[at].name
  {
    var es' := Removed(es, at);
    var i :| 0 <= i < |es'| && es'[i].name == n;
    var k := if i < at then i else i + 1;
    assert es'[i] == es[k];
    if n == es[at].name {
      SortedIsDistinct(es, k, at);
    }
  }

  lemma {:induction false} RemoveHas(es: seq<Entry>, at: nat, n: Name)
    requires at < |es| && Has(es, n) && n != es[at].name
    ensures Has(Removed(es, at), n)
  {
    var i :| 0 <= i < |es| && es[i].name == n;
    assert Removed(es, at)[if i < at then i else i - 1] == es[i];
  }

  lemma {:induction false} RemoveRepresents(es: seq<Entry>, m: map<Name, Contents>, at: nat)
    requires Sorted(es) && AllEntriesValid(es) && Represents(es, m) && at < |es|
    ensures Represents(Removed(es, at), m - {es[at].name})
  {
    var es', m' := Removed(es, at), m - {es[at].name};
    forall n ensures n in m' <==> Has(es', n) {
      if Has(es', n) {
        RemoveHasOnly(es, at, n);
      }
      if n in m' {
        RemoveHas(es, at, n);
      }
    }
    forall i | 0 <= i < |es'| ensures Has(es', es'[i].name) && m'[es'[i].name] == es'[i].value {
      var k := if i < at then i else i + 1;
      assert es'[i] == es[k] && Has(es', es'[i].name);
      assert es[k].name in m';
    }
  }

  // ---- The tree ----

  /** struct kp_agent_safe: the payload, which holds the key. */
  class AgentSafe {
    const name: Name
    const value: Contents

    constructor (name: Name, value: Contents)
      ensures this.name == name && this.value == value
    {
      this.name, this.value := name, value;
    }
  }

  /** struct kp_store. */
  class Node {
    var safe: AgentSafe

    constructor (safe: AgentSafe)
      ensures this.safe == safe
    {
      this.safe := safe;
    }
  }

  /** The tree, as its nodes in order. `entries` is what the nodes hold, read through their payloads,
      and `model` the map from names to contents that the entries stand for. */
  class Storage {
    var tree: seq<Node>
    ghost var entries: seq<Entry>
    ghost var model: map<Name, Contents>
    ghost var Repr: set<Node>

    ghost predicate Valid()
      reads this, Repr
      ensures Valid() ==> Sorted(entries) && Represents(entries, model) && AllEntriesValid(entries)
    {
      && (forall n :: n in tree ==> n in Repr)
      && Holding(tree, entries) && Distinct(tree)
      && AllEntriesValid(entries) && Sorted(entries) && Represents(entries, model)
    }

    constructor ()
      ensures Valid() && model == map[] && Repr == {}
    {
      tree, entries, model, Repr := [], [], map[], {};
    }

    lemma {:induction false} ModelFits()
      requires Valid()
      ensures StoreFits(model)
    {
      forall n | n in model ensures Fits(n, PATH_MAX) && ContentsFit(model[n]) {
        var i :| 0 <= i < |entries| && entries[i].name == n;
        assert entries[i].Valid();
      }
    }

    /** The descent that RB_FIND and RB_INSERT make: the position of a key, or where it would go. */
    method Locate(key: Name) returns (at: nat, found: bool)
      requires Valid() && NulFree(key)
      ensures found ==> at < |tree| && entries[at].name == key
      ensures !found ==> Splits(entries, key, at)
      ensures found <==> key in model
    {
      var lo, hi := 0, |tree|;
      while lo < hi
        invariant 0 <= lo <= hi <= |tree|
        invariant forall j :: 0 <= j < lo ==> StrCmp(entries[j].name, key) < 0
        invariant forall j :: hi <= j < |tree| ==> StrCmp(key, entries[j].name) < 0
      {
        var mid := (lo + hi) / 2;
        var c := StrCmp(tree[mid].safe.name, key);
        assert entries[mid].Valid();
        StrCmpTotal(entries[mid].name, key);
        if c == 0 {
          return mid, true;
        } else if c < 0 {
          SmallerBelow(entries, mid, key);
          lo := mid + 1;
        } else {
          LargerAbove(entries, mid, key);
          hi := mid;
        }
      }
      at, found := lo, false;
      SplitMeansAbsent(entries, model, key, at);
    }

    /** Every node holds the entry at its position. */
    ghost predicate Holding(nodes: seq<Node>, es: seq<Entry>)
      reads nodes
    {
      && |nodes| == |es|
      && forall i :: 0 <= i < |nodes| ==> Entry(nodes[i].safe.name, nodes[i].safe.value) == es[i]
    }

    ghost predicate Distinct(nodes: seq<Node>) {
      forall i, j :: 0 <= i < j < |nodes| ==> nodes[i] != nodes[j]
    }

    lemma {:induction false} Linked(node: Node, at: nat)
      requires Holding(tree, entries) && Distinct(tree) && at <= |tree| && node !in tree
      ensures var nodes := tree[..at] + [node] + tree[at..];
              Distinct(nodes) && Holding(nodes, Inserted(entries, at, Entry(node.safe.name, node.safe.value)))
    {
      var nodes := tree[..at] + [node] + tree[at..];
      assert forall i :: 0 <= i < |nodes| ==>
        nodes[i] == if i < at then tree[i] else if i == at then node else tree[i - 1];
    }

    lemma {:induction false} Unlinked(at: nat)
      requires Holding(tree, entries) && Distinct(tree) && at < |tree|
      ensures Distinct(tree[..at] + tree[at + 1..]) && Holding(tree[..at] + tree[at + 1..], Removed(entries, at))
    {
      var nodes := tree[..at] + tree[at + 1..];
      assert forall i :: 0 <= i < |nodes| ==> nodes[i] == tree[if i < at then i else i + 1];
    }

    /** RB_INSERT: link the node in order, unless one with the same key is there already. */
    method Insert(node: Node) returns (existing: Node?, ghost at: nat)
      requires Valid() && node !in Repr && Entry(node.safe.name, node.safe.value).Valid()
      modifies this
      ensures Valid() && Repr == old(Repr) + {node}
      ensures existing == null <==> node.safe.name !in old(model)
      ensures existing == null ==>
                model == old(model)[node.safe.name := node.safe.value]
      ensures existing != null ==>
                && tree == old(tree) && model == old(model) && entries == old(entries)
                && at < |tree| && existing == tree[at] && entries[at].name == node.safe.name
    {
      hide Represents, Sorted, Splits, StrCmp;
      var i, found := Locate(node.safe.name);
      at := i;
      Repr := Repr + {node};
      if found {
        return tree[i], i;
      }
      var e := Entry(node.safe.name, node.safe.value);
      InsertSorted(entries, i, e);
      InsertRepresents(entries, model, i, e);
      Linked(node, i);
      tree := tree[..i] + [node] + tree[i..];
      entries, model := Inserted(entries, i, e), model[e.name := e.value];
      existing := null;
    }

    /** Swap the payload, and with it the stored key, inside a linked node. */
    method Replace(node: Node, safe: AgentSafe, ghost at: nat)
      requires Valid() && at < |tree| && node == tree[at]
      requires safe.name == entries[at].name && ContentsFit(safe.value)
      modifies this`model, this`entries, node
      ensures Valid() && model == old(model)[safe.name := safe.value]
    {
      hide Represents, Sorted, StrCmp;
      ReplaceKeeps(entries, model, at, safe.value);
      node.safe := safe;
      entries := Replaced(entries, at, safe.value);
      assert Holding(tree, entries);
      model := model[safe.name := safe.value];
    }

    /** kp_agent_store without its timer: copy the three strings, insert, or replace the payload of
        the node that has the name already. An unterminated field is refused. */
    method Put(u: Unsafe) returns (ok: bool)
      requires Valid() && u.Sized()
      modifies this, Repr
      ensures Valid() && fresh(Repr - old(Repr))
      ensures ok == u.AllTerminated()
      ensures model == if ok then old(model)[CStr(u.name) := u.Value()] else old(model)
    {
      hide Represents, Sorted, StrCmp;
      if !Terminated(u.name) || !Terminated(u.password) || !Terminated(u.metadata) {
        return false;
      }
      var safe := new AgentSafe(CStr(u.name), u.Value());
      var node := new Node(safe);
      var existing, at := Insert(node);
      if existing != null {
        Replace(existing, safe, at);
      }
      ok := true;
    }

    /** RB_FIND on a name, and what the node found points to. */
    method Find(name: Name) returns (r: Option<AgentSafe>)
      requires Valid() && NulFree(name)
      ensures r.Some? <==> name in model
      ensures r.Some? ==> r.value.name == name && r.value.value == model[name]
      ensures r.Some? ==> Fits(r.value.name, PATH_MAX) && ContentsFit(r.value.value)
    {
      var at, found := Locate(name);
      r := if found then Some(tree[at].safe) else None;
      assert found ==> entries[at].Valid();
    }

    /** RB_FIND and RB_REMOVE. */
    method Remove(name: Name) returns (found: bool)
      requires Valid() && NulFree(name)
      modifies this
      ensures Valid() && found == (name in old(model))
      ensures model == old(model) - {name} && Repr == old(Repr)
    {
      hide Represents, Sorted, StrCmp;
      var at;
      at, found := Locate(name);
      if found {
        RemoveSorted(entries, at);
        RemoveRepresents(entries, model, at);
        Unlinked(at);
        tree, entries := tree[..at] + tree[at + 1..], Removed(entries, at);
      } else {
        assert model - {name} == model;
      }
      model := model - {name};
    }
  }
}
