/**
Two implementations of nested buckets of key-value pairs.  `Memory` has a node per bucket with
its values and its sub-buckets.  `Flat` has one ordered table whose keys are the bucket names,
each followed by a slash, and then the key.  Addressed by path they are the same store.
*/
module Caches {
  import opened Options
  import opened Bytes
  import opened KeyRange

  type Name = seq<byte>
  type Value = seq<byte>
  type Path = seq<Name>

  const SLASH: byte := 47

  predicate Plain(s: seq<byte>) {
    SLASH !in s
  }

  predicate PlainPath(p: Path) {
    forall i :: 0 <= i < |p| ==> Plain(p[i])
  }

  // ---- The encoding -----------------------------------------------------------------

  function Prefix(p: Path): Key {
    if p == [] then [] else p[0] + [SLASH] + Prefix(p[1..])
  }

  function Encode(p: Path, k: Key): Key {
    Prefix(p) + k
  }

  /** Builds the prefix of a bucket below the bucket with prefix `base`. */
  method CachePrefix(base: Key, names: Path) returns (prefix: Key)
    ensures prefix == base + Prefix(names)
  {
    prefix := base;
    for i := 0 to |names|
      invariant prefix + Prefix(names[i..]) == base + Prefix(names)
    {
      assert names[i..][1..] == names[i + 1..];
      assert prefix + (names[i] + [SLASH] + Prefix(names[i + 1..]))
          == (prefix + names[i] + [SLASH]) + Prefix(names[i + 1..]);
      prefix := prefix + names[i] + [SLASH];
    }
  }

  /** The prefix of a bucket is never all 0xff, so that its range always has an end. */
  lemma {:induction false} BucketRangeHasEnd(p: Path)
    requires p != []
    ensures Successor(Prefix(p)).Some?
  {
    PrefixEndsInSlash(p);
    var q := Prefix(p);
    SuccessorOfLast(q[..|q| - 1], SLASH);
    assert q == q[..|q| - 1] + [SLASH];
  }

  lemma {:induction false} PrefixEndsInSlash(p: Path)
    requires p != []
    ensures Prefix(p) != [] && Prefix(p)[|Prefix(p)| - 1] == SLASH
  {
    if |p| <= 1 {
    } else {
      PrefixEndsInSlash(p[1..]);
    }
  }

  lemma SplitAtSlash(a: Name, x: Key, b: Name, y: Key)
    requires Plain(a) && Plain(b) && a + [SLASH] + x == b + [SLASH] + y
    ensures a == b && x == y
  {
    var s := a + [SLASH] + x;
    assert s[|a|] == SLASH && s[|b|] == SLASH;
    assert forall i :: 0 <= i < |a| ==> s[i] == a[i];
    assert forall i :: 0 <= i < |b| ==> s[i] == b[i];
    assert |a| == |b|;
    assert a == s[..|a|] == b;
    assert x == s[|a| + 1..] == y;
  }

  lemma Unfold(p: Path, k: Key)
    requires p != []
    ensures Encode(p, k) == p[0] + [SLASH] + Encode(p[1..], k)
  {
  }

  /** With no slash in names and keys, an encoded key starts with the prefix of a bucket exactly
      when it belongs to that bucket or one below it. */
  lemma {:induction false} EncodedPrefix(p: Path, q: Path, k: Key)
    requires PlainPath(p) && PlainPath(q) && Plain(k)
    ensures Prefix(p) <= Encode(q, k) <==> p <= q
  {
    if p == [] {
    } else {
      if q == [] {
        assert p[0] + [SLASH] <= Prefix(p);
        assert Prefix(p)[|p[0]|] == SLASH;
      } else {
        Unfold(q, k);
        EncodedPrefix(p[1..], q[1..], k);
        var e := Encode(q[1..], k);
        if Prefix(p) <= Encode(q, k) {
          var rest := Encode(q, k)[|p[0]| + 1..];
          assert Encode(q, k) == p[0] + [SLASH] + rest;
          SplitAtSlash(p[0], rest, q[0], e);
          var n := |p[0]| + 1;
          assert Prefix(p)[n..] == Prefix(p[1..]);
          assert Prefix(p)[n..] <= Encode(q, k)[n..];
        }
        if p <= q {
          assert p[1..] <= q[1..];
        }
        assert p[0] == q[0] && p[1..] <= q[1..] ==> p <= q;
      }
    }
  }

  /** No two bucket-key pairs share an encoding. */
  lemma {:induction false} EncodeInjective(p: Path, k: Key, q: Path, j: Key)
    requires PlainPath(p) && PlainPath(q) && Plain(k) && Plain(j)
    requires Encode(p, k) == Encode(q, j)
    ensures p == q && k == j
  {
    EncodedPrefix(p, q, j);
    EncodedPrefix(q, p, k);
    assert Prefix(p) <= Encode(p, k) && Prefix(q) <= Encode(q, j);
    assert p == q;
    assert k == Encode(p, k)[|Prefix(p)|..] == j;
  }

  /** With a slash in a key they can: key b/c of bucket a is key c of bucket a, b. */
  lemma SlashesCollide(a: Name, b: Name, c: Key)
    ensures Encode([a], b + [SLASH] + c) == Encode([a, b], c)
  {
    assert Prefix([a, b]) == a + [SLASH] + Prefix([b]);
    assert Prefix([b]) == b + [SLASH] + Prefix([]);
    assert Prefix([a]) == a + [SLASH] + Prefix([]);
  }

  // ---- The flat store ---------------------------------------------------------------

  type Table = map<Key, Value>

  ghost function FlatAt(t: Table, p: Path, k: Key): Option<Value> {
    if Encode(p, k) in t then Some(t[Encode(p, k)]) else None
  }

  /** Every key of the table is the encoding of some bucket and key. */
  ghost predicate Encoded(t: Table) {
    forall e :: e in t ==> exists p, k :: PlainPath(p) && Plain(k) && e == Encode(p, k)
  }

  class Flat {
    var table: Table

    constructor ()
      ensures table == map[]
    {
      table := map[];
    }

    method Get(p: Path, k: Key) returns (v: Option<Value>)
      ensures v == FlatAt(table, p, k)
    {
      var prefix := CachePrefix([], p);
      var e := prefix + k;
      assert e == Encode(p, k);
      v := if e in table then Some(table[e]) else None;
    }

    method Put(p: Path, k: Key, v: Value)
      modifies this
      ensures table == old(table)[Encode(p, k) := v]
    {
      var prefix := CachePrefix([], p);
      assert prefix + k == Encode(p, k);
      table := table[prefix + k := v];
    }

    method Delete(p: Path, k: Key)
      modifies this
      ensures table == old(table) - {Encode(p, k)}
    {
      var prefix := CachePrefix([], p);
      assert prefix + k == Encode(p, k);
      table := table - {prefix + k};
    }

    /** Deletes the range of the bucket's prefix. */
    method DeleteBucket(p: Path)
      modifies this
      ensures p == [] ==> table == old(table)
      ensures p != [] ==> table == map e | e in old(table) && !(Prefix(p) <= e) :: old(table)[e]
    {
      if |p| == 0 {
        return;
      }
      var prefix := CachePrefix([], p);
      assert prefix == Prefix(p);
      var high := UpperBound(prefix);
      BucketRangeHasEnd(p);
      forall e | e in table
        ensures InRange(prefix, high, e) <==> Prefix(p) <= e
      {
        RangeIsPrefix(prefix, e);
      }
      table := map e | e in table && !InRange(prefix, high, e) :: table[e];
    }

    /** The pairs in the range of the bucket's prefix, with the prefix cut off. */
    method Range(p: Path) returns (pairs: map<Key, Value>)
      ensures forall k :: k in pairs <==> Encode(p, k) in table
      ensures forall k :: k in pairs ==> pairs[k] == table[Encode(p, k)]
    {
      var prefix := CachePrefix([], p);
      assert prefix == Prefix(p);
      var high := UpperBound(prefix);
      forall e | e in table
        ensures InRange(prefix, high, e) <==> prefix <= e
      {
        RangeIsPrefix(prefix, e);
      }
      forall e | e in table && InRange(prefix, high, e)
        ensures e == prefix + e[|prefix|..]
      {
      }
      pairs := map e | e in table && InRange(prefix, high, e) :: e[|prefix|..] := table[e];
      forall k
        ensures k in pairs <==> Encode(p, k) in table
      {
        if Encode(p, k) in table {
          assert prefix <= Encode(p, k);
          assert Encode(p, k)[|prefix|..] == k;
        }
      }
    }
  }

  lemma FlatPutAt(t: Table, p: Path, k: Key, v: Value, q: Path, j: Key)
    requires PlainPath(p) && PlainPath(q) && Plain(k) && Plain(j)
    ensures FlatAt(t[Encode(p, k) := v], q, j) == if p == q && k == j then Some(v) else FlatAt(t, q, j)
    ensures FlatAt(t - {Encode(p, k)}, q, j) == if p == q && k == j then None else FlatAt(t, q, j)
  {
    if Encode(p, k) == Encode(q, j) {
      EncodeInjective(p, k, q, j);
    }
  }

  // ---- The nested store -------------------------------------------------------------

  /** A bucket; `path` remembers where it was created. */
  datatype Node = Node(path: Path, values: map<Key, Value>, subs: map<Name, nat>)

  type Nodes = map<nat, Node>

  ghost predicate Linked(nodes: Nodes, next: nat) {
    && 0 in nodes && nodes[0].path == []
    && (forall i :: i in nodes ==> i < next)
    && (forall i, n :: i in nodes && n in nodes[i].subs ==>
          nodes[i].subs[n] in nodes && nodes[nodes[i].subs[n]].path == nodes[i].path + [n])
  }

  /** The bucket reached from bucket i along p. */
  ghost function Walk(nodes: Nodes, i: nat, p: Path): Option<nat>
    decreases |p|
  {
    if p == [] then Some(i)
    else if i in nodes && p[0] in nodes[i].subs then Walk(nodes, nodes[i].subs[p[0]], p[1..])
    else None
  }

  ghost function NestedAt(nodes: Nodes, p: Path, k: Key): Option<Value> {
    var i := Walk(nodes, 0, p);
    if i.Some? && i.value in nodes && k in nodes[i.value].values then Some(nodes[i.value].values[k]) else None
  }

  /** A bucket can be reached in one way only. */
  lemma {:induction false} WalkRemembersPath(nodes: Nodes, next: nat, i: nat, p: Path)
    requires Linked(nodes, next) && i in nodes && Walk(nodes, i, p).Some?
    ensures Walk(nodes, i, p).value in nodes && nodes[Walk(nodes, i, p).value].path == nodes[i].path + p
    decreases |p|
  {
    if p == [] {
    } else {
      WalkRemembersPath(nodes, next, nodes[i].subs[p[0]], p[1..]);
      assert nodes[i].path + [p[0]] + p[1..] == nodes[i].path + p;
    }
  }

  lemma {:induction false} WalkStep(nodes: Nodes, i: nat, p: Path, n: Name)
    ensures Walk(nodes, i, p + [n]) ==
            (var j := Walk(nodes, i, p);
             if j.Some? && j.value in nodes && n in nodes[j.value].subs then Some(nodes[j.value].subs[n]) else None)
    decreases |p|
  {
    if p == [] {
      assert p + [n] == [n];
    } else {
      assert (p + [n])[1..] == p[1..] + [n];
      if i in nodes && p[0] in nodes[i].subs {
        WalkStep(nodes, nodes[i].subs[p[0]], p[1..], n);
      }
    }
  }

  /** Changing the values of a bucket moves nothing. */
  lemma {:induction false} WalkIgnoresValues(nodes: Nodes, j: nat, node: Node, i: nat, p: Path)
    requires j in nodes && node.subs == nodes[j].subs
    ensures Walk(nodes[j := node], i, p) == Walk(nodes, i, p)
    decreases |p|
  {
    if p != [] && i in nodes && p[0] in nodes[i].subs {
      WalkIgnoresValues(nodes, j, node, nodes[i].subs[p[0]], p[1..]);
    }
  }

  /** Hanging a new empty bucket below bucket j keeps all contents. */
  lemma {:induction false} CreateKeeps(nodes: Nodes, next: nat, j: nat, n: Name, p: Path)
    requires Linked(nodes, next) && j in nodes && n !in nodes[j].subs
    ensures var nodes' := nodes[j := nodes[j].(subs := nodes[j].subs[n := next])]
                               [next := Node(nodes[j].path + [n], map[], map[])];
            var w, w' := Walk(nodes, 0, p), Walk(nodes', 0, p);
            w' == w || (w == None && w' == Some(next))
    decreases |p|
  {
    if p == [] {
    } else {
      var q, m := p[..|p| - 1], p[|p| - 1];
      assert p == q + [m];
      var nodes' := nodes[j := nodes[j].(subs := nodes[j].subs[n := next])]
                         [next := Node(nodes[j].path + [n], map[], map[])];
      CreateKeeps(nodes, next, j, n, q);
      WalkStep(nodes, 0, q, m);
      WalkStep(nodes', 0, q, m);
      if Walk(nodes, 0, q).Some? {
        WalkRemembersPath(nodes, next, 0, q);
      }
    }
  }

  /** Unhooking the bucket r + [n] hides what is in and below it, and nothing else. */
  lemma {:induction false} UnhookWalk(nodes: Nodes, next: nat, j: nat, r: Path, n: Name, p: Path)
    requires Linked(nodes, next) && Walk(nodes, 0, r) == Some(j) && j in nodes
    ensures Walk(nodes[j := nodes[j].(subs := nodes[j].subs - {n})], 0, p) ==
            if r + [n] <= p then None else Walk(nodes, 0, p)
    decreases |p|
  {
    var nodes' := nodes[j := nodes[j].(subs := nodes[j].subs - {n})];
    if p == [] {
      assert !(r + [n] <= p);
    } else {
      var q, m := p[..|p| - 1], p[|p| - 1];
      assert p == q + [m];
      UnhookWalk(nodes, next, j, r, n, q);
      WalkStep(nodes, 0, q, m);
      WalkStep(nodes', 0, q, m);
      WalkRemembersPath(nodes, next, 0, r);
      if Walk(nodes, 0, q).Some? {
        WalkRemembersPath(nodes, next, 0, q);
      }
      assert r + [n] <= p <==> r + [n] <= q || (r == q && n == m);
    }
  }

  /** Buckets stay where they are; a path that led nowhere may lead to a new one. */
  ghost predicate Grown(before: Nodes, after: Nodes) {
    before.Keys <= after.Keys && (forall i :: i in before ==> after[i].path == before[i].path) &&
    forall p :: Walk(after, 0, p) == Walk(before, 0, p) || LeadsToNew(before, after, p)
  }

  ghost predicate LeadsToNew(before: Nodes, after: Nodes, p: Path) {
    Walk(before, 0, p).None? && Walk(after, 0, p).Some? && Walk(after, 0, p).value !in before
  }

  lemma GrownOn(a: Nodes, b: Nodes, c: Nodes)
    requires Grown(a, b) && Grown(b, c)
    ensures Grown(a, c)
  {
    forall p ensures Walk(c, 0, p) == Walk(a, 0, p) || LeadsToNew(a, c, p) {
      assert Walk(b, 0, p) == Walk(a, 0, p) || LeadsToNew(a, b, p);
      assert Walk(c, 0, p) == Walk(b, 0, p) || LeadsToNew(b, c, p);
    }
  }

  /** The same, but that nothing leads to bucket p or below it. */
  ghost predicate CutAt(before: Nodes, after: Nodes, p: Path) {
    before.Keys <= after.Keys && (forall i :: i in before ==> after[i].path == before[i].path) &&
    forall q :: if p != [] && p <= q then Walk(after, 0, q).None?
                else Walk(after, 0, q) == Walk(before, 0, q) || LeadsToNew(before, after, q)
  }

  ghost predicate SameContents(before: Nodes, after: Nodes) {
    forall p, k :: NestedAt(after, p, k) == NestedAt(before, p, k)
  }

  lemma GrownKeepsWalk(before: Nodes, after: Nodes, p: Path)
    requires Grown(before, after) && Walk(before, 0, p).Some?
    ensures Walk(after, 0, p) == Walk(before, 0, p)
  {
    assert Walk(after, 0, p) == Walk(before, 0, p) || LeadsToNew(before, after, p);
  }

  lemma SameContentsOn(a: Nodes, b: Nodes, c: Nodes)
    requires SameContents(a, b) && SameContents(b, c)
    ensures SameContents(a, c)
  {
    forall p, k ensures NestedAt(c, p, k) == NestedAt(a, p, k) {
      assert NestedAt(b, p, k) == NestedAt(a, p, k);
    }
  }

  lemma WalkDown(before: Nodes, after: Nodes, i: nat, p: Path, n: nat)
    requires Grown(before, after) && n < |p| && Walk(before, 0, p[..n]) == Some(i)
    requires i in after && p[n] in after[i].subs
    ensures Walk(after, 0, p[..n + 1]) == Some(after[i].subs[p[n]])
  {
    GrownKeepsWalk(before, after, p[..n]);
    assert p[..n + 1] == p[..n] + [p[n]];
    WalkStep(after, 0, p[..n], p[n]);
  }

  function Created(nodes: Nodes, next: nat, i: nat, name: Name): Nodes
    requires i in nodes
  {
    nodes[i := nodes[i].(subs := nodes[i].subs[name := next])][next := Node(nodes[i].path + [name], map[], map[])]
  }

  lemma CreatedKeepsAll(nodes: Nodes, next: nat, i: nat, name: Name)
    requires Linked(nodes, next) && i in nodes && name !in nodes[i].subs
    ensures var after := Created(nodes, next, i, name);
            Linked(after, next + 1) && Grown(nodes, after) && SameContents(nodes, after)
  {
    var after := Created(nodes, next, i, name);
    assert next !in nodes;
    forall p ensures Walk(after, 0, p) == Walk(nodes, 0, p) || LeadsToNew(nodes, after, p) {
      CreateKeeps(nodes, next, i, name, p);
    }
    forall p, k ensures NestedAt(after, p, k) == NestedAt(nodes, p, k) {
      CreateKeeps(nodes, next, i, name, p);
      if Walk(nodes, 0, p).Some? {
        WalkRemembersPath(nodes, next, 0, p);
      }
    }
  }

  function Unhooked(nodes: Nodes, i: nat, n: Name): Nodes
    requires i in nodes
  {
    nodes[i := nodes[i].(subs := nodes[i].subs - {n})]
  }

  lemma UnhookedIsCut(before: Nodes, nodes: Nodes, next: nat, i: nat, r: Path, n: Name)
    requires Linked(nodes, next) && Walk(nodes, 0, r) == Some(i) && i in nodes
    requires Grown(before, nodes) && SameContents(before, nodes)
    ensures var after := Unhooked(nodes, i, n);
            && Linked(after, next) && CutAt(before, after, r + [n])
            && forall q, j :: NestedAt(after, q, j) == if r + [n] <= q then None else NestedAt(before, q, j)
  {
    var after, p := Unhooked(nodes, i, n), r + [n];
    forall q
      ensures Walk(after, 0, q) == if p <= q then None else Walk(nodes, 0, q)
      ensures !(p <= q) ==> Walk(after, 0, q) == Walk(before, 0, q) || LeadsToNew(before, after, q)
    {
      UnhookWalk(nodes, next, i, r, n, q);
      assert Walk(nodes, 0, q) == Walk(before, 0, q) || LeadsToNew(before, nodes, q);
    }
    forall q, j ensures NestedAt(after, q, j) == if p <= q then None else NestedAt(before, q, j) {
      assert NestedAt(nodes, q, j) == NestedAt(before, q, j);
    }
  }

  class Memory {
    var nodes: Nodes
    var next: nat

    ghost predicate Valid()
      reads this
    {
      Linked(nodes, next)
    }

    constructor ()
      ensures Valid() && nodes == map[0 := Node([], map[], map[])]
    {
      nodes, next := map[0 := Node([], map[], map[])], 1;
    }

    /** The bucket `name` below bucket i, created if need be. */
    method LoadOrCreateBucket(i: nat, name: Name) returns (j: nat)
      requires Valid() && i in nodes
      modifies this
      ensures Valid() && i in nodes && name in nodes[i].subs && nodes[i].subs[name] == j && j in nodes
      ensures nodes[j].path == nodes[i].path + [name]
      ensures Grown(old(nodes), nodes) && SameContents(old(nodes), nodes)
    {
      if name in nodes[i].subs {
        return nodes[i].subs[name];
      }
      CreatedKeepsAll(nodes, next, i, name);
      j := next;
      nodes := Created(nodes, next, i, name);
      next := next + 1;
    }

    /** The bucket at a path; missing ones are created on the way. */
    method NewCache(p: Path) returns (i: nat)
      requires Valid()
      modifies this
      ensures Valid() && Walk(nodes, 0, p) == Some(i) && i in nodes
      ensures Grown(old(nodes), nodes) && SameContents(old(nodes), nodes)
    {
      i := 0;
      for n := 0 to |p|
        invariant Valid() && Walk(nodes, 0, p[..n]) == Some(i) && i in nodes
        invariant Grown(old(nodes), nodes) && SameContents(old(nodes), nodes)
      {
        i := NextCache(i, p, n, old(nodes));
      }
      assert p[..|p|] == p;
    }

    /** One level down the path. */
    method NextCache(i: nat, p: Path, n: nat, ghost before: Nodes) returns (j: nat)
      requires Valid() && n < |p| && Walk(nodes, 0, p[..n]) == Some(i) && i in nodes
      requires Grown(before, nodes) && SameContents(before, nodes)
      modifies this
      ensures Valid() && Walk(nodes, 0, p[..n + 1]) == Some(j) && j in nodes
      ensures Grown(before, nodes) && SameContents(before, nodes)
    {
      ghost var mid := nodes;
      j := LoadOrCreateBucket(i, p[n]);
      WalkDown(mid, nodes, i, p, n);
      GrownOn(before, mid, nodes);
      SameContentsOn(before, mid, nodes);
    }

    method Get(p: Path, k: Key) returns (v: Option<Value>)
      requires Valid()
      modifies this
      ensures Valid() && Grown(old(nodes), nodes) && v == NestedAt(old(nodes), p, k)
      ensures forall q, j :: NestedAt(nodes, q, j) == NestedAt(old(nodes), q, j)
    {
      var i := NewCache(p);
      v := if k in nodes[i].values then Some(nodes[i].values[k]) else None;
      assert v == NestedAt(nodes, p, k);
    }

    method Put(p: Path, k: Key, v: Value)
      requires Valid()
      modifies this
      ensures Valid() && Grown(old(nodes), nodes)
      ensures forall q, j :: NestedAt(nodes, q, j) == if q == p && j == k then Some(v) else NestedAt(old(nodes), q, j)
    {
      var i := NewCache(p);
      ghost var mid := nodes;
      SetValues(i, p, nodes[i].values[k := v]);
      GrownOn(old(nodes), mid, nodes);
    }

    method Delete(p: Path, k: Key)
      requires Valid()
      modifies this
      ensures Valid() && Grown(old(nodes), nodes)
      ensures forall q, j :: NestedAt(nodes, q, j) == if q == p && j == k then None else NestedAt(old(nodes), q, j)
    {
      var i := NewCache(p);
      ghost var mid := nodes;
      SetValues(i, p, nodes[i].values - {k});
      GrownOn(old(nodes), mid, nodes);
    }

    method SetValues(i: nat, p: Path, values: map<Key, Value>)
      requires Valid() && Walk(nodes, 0, p) == Some(i) && i in nodes
      modifies this
      ensures Valid() && Grown(old(nodes), nodes)
      ensures forall q, j :: NestedAt(nodes, q, j) ==
                if q == p then (if j in values then Some(values[j]) else None) else NestedAt(old(nodes), q, j)
    {
      var node := nodes[i].(values := values);
      forall q
        ensures Walk(nodes[i := node], 0, q) == Walk(nodes, 0, q)
        ensures Walk(nodes, 0, q) == Some(i) <==> q == p
      {
        WalkIgnoresValues(nodes, i, node, 0, q);
        WalkRemembersPath(nodes, next, 0, p);
        if Walk(nodes, 0, q).Some? {
          WalkRemembersPath(nodes, next, 0, q);
          assert [] + q == q && [] + p == p;
        }
      }
      nodes := nodes[i := node];
    }

    method DeleteBucket(p: Path)
      requires Valid()
      modifies this
      ensures Valid() && CutAt(old(nodes), nodes, p)
      ensures forall q, j :: NestedAt(nodes, q, j) == if p != [] && p <= q then None else NestedAt(old(nodes), q, j)
    {
      if |p| == 0 {
        return;
      }
      var r, n := p[..|p| - 1], p[|p| - 1];
      var i := NewCache(r);
      assert p == r + [n];
      UnhookedIsCut(old(nodes), nodes, next, i, r, n);
      nodes := Unhooked(nodes, i, n);
    }

    /** Writes through a bucket obtained earlier. */
    method PutInto(i: nat, k: Key, v: Value)
      requires Valid() && i in nodes
      modifies this
      ensures Valid() && nodes == old(nodes)[i := old(nodes)[i].(values := old(nodes)[i].values[k := v])]
    {
      nodes := nodes[i := nodes[i].(values := nodes[i].values[k := v])];
    }
  }

  // ---- What a run of operations answers ----------------------------------------------

  datatype Op = Get(p: Path, k: Key) | Put(p: Path, k: Key, v: Value) | Delete(p: Path, k: Key) | Drop(p: Path)

  /** What is stored after a run: the last value put that was not deleted or dropped since. */
  ghost function Held(ops: seq<Op>, p: Path, k: Key): Option<Value> {
    if ops == [] then None
    else
      var before := ops[..|ops| - 1];
      match ops[|ops| - 1]
      case Get(_, _) => Held(before, p, k)
      case Put(q, j, v) => if q == p && j == k then Some(v) else Held(before, p, k)
      case Delete(q, j) => if q == p && j == k then None else Held(before, p, k)
      case Drop(q) => if q != [] && q <= p then None else Held(before, p, k)
  }

  /** The same of the flat store, which knows encoded keys and prefixes only. */
  ghost function FlatHeld(ops: seq<Op>, e: Key): Option<Value> {
    if ops == [] then None
    else
      var before := ops[..|ops| - 1];
      match ops[|ops| - 1]
      case Get(_, _) => FlatHeld(before, e)
      case Put(q, j, v) => if Encode(q, j) == e then Some(v) else FlatHeld(before, e)
      case Delete(q, j) => if Encode(q, j) == e then None else FlatHeld(before, e)
      case Drop(q) => if q != [] && Prefix(q) <= e then None else FlatHeld(before, e)
  }

  ghost function Answer(ops: seq<Op>, i: nat): Option<Value>
    requires i < |ops|
  {
    if ops[i].Get? then Held(ops[..i], ops[i].p, ops[i].k) else None
  }

  ghost function FlatAnswer(ops: seq<Op>, i: nat): Option<Value>
    requires i < |ops|
  {
    if ops[i].Get? then FlatHeld(ops[..i], Encode(ops[i].p, ops[i].k)) else None
  }

  ghost predicate Reflects(nodes: Nodes, ops: seq<Op>) {
    forall p, k :: NestedAt(nodes, p, k) == Held(ops, p, k)
  }

  ghost predicate FlatReflects(t: Table, ops: seq<Op>) {
    forall e :: (if e in t then Some(t[e]) else None) == FlatHeld(ops, e)
  }

  lemma HeldSnoc(ops: seq<Op>, op: Op)
    ensures (ops + [op])[..|ops|] == ops && (ops + [op])[|ops|] == op
  {
  }

  /** One operation on the nested store, after the operations done so far. */
  method PerformNested(m: Memory, ghost done: seq<Op>, op: Op) returns (answer: Option<Value>)
    requires m.Valid() && Reflects(m.nodes, done)
    modifies m
    ensures m.Valid() && Reflects(m.nodes, done + [op])
    ensures answer == if op.Get? then Held(done, op.p, op.k) else None
  {
    HeldSnoc(done, op);
    answer := None;
    match op {
      case Get(p, k) => answer := m.Get(p, k);
      case Put(p, k, v) => m.Put(p, k, v);
      case Delete(p, k) => m.Delete(p, k);
      case Drop(p) => m.DeleteBucket(p);
    }
  }

  method PerformFlat(f: Flat, ghost done: seq<Op>, op: Op) returns (answer: Option<Value>)
    requires FlatReflects(f.table, done)
    modifies f
    ensures FlatReflects(f.table, done + [op])
    ensures answer == if op.Get? then FlatHeld(done, Encode(op.p, op.k)) else None
  {
    HeldSnoc(done, op);
    answer := None;
    match op {
      case Get(p, k) => answer := f.Get(p, k);
      case Put(p, k, v) => f.Put(p, k, v);
      case Delete(p, k) => f.Delete(p, k);
      case Drop(p) => f.DeleteBucket(p);
    }
  }

  /** Both stores answer a run as specified; where their addresses are separate, alike. */
  method Replay(ops: seq<Op>) returns (nested: seq<Option<Value>>, flat: seq<Option<Value>>)
    ensures |nested| == |flat| == |ops|
    ensures forall i :: 0 <= i < |ops| ==> nested[i] == Answer(ops, i) && flat[i] == FlatAnswer(ops, i)
    ensures forall a: Addresses, d: Droppable :: Separate(a, d) && Within(ops, a, d) ==> nested == flat
  {
    var m := new Memory();
    var f := new Flat();
    nested, flat := [], [];
    assert forall p :: Walk(m.nodes, 0, p) == if p == [] then Some(0) else None;
    for i := 0 to |ops|
      invariant m.Valid() && Reflects(m.nodes, ops[..i]) && FlatReflects(f.table, ops[..i])
      invariant |nested| == |flat| == i
      invariant forall j :: 0 <= j < i ==> nested[j] == Answer(ops, j) && flat[j] == FlatAnswer(ops, j)
    {
      assert ops[..i + 1] == ops[..i] + [ops[i]];
      var x := PerformNested(m, ops[..i], ops[i]);
      var y := PerformFlat(f, ops[..i], ops[i]);
      nested, flat := nested + [x], flat + [y];
    }
    forall a: Addresses, d: Droppable | Separate(a, d) && Within(ops, a, d)
      ensures nested == flat
    {
      forall i | 0 <= i < |ops| ensures nested[i] == flat[i] {
        AnswersAgree(ops, a, d, i);
      }
    }
  }

  // ---- When the two agree --------------------------------------------------------------

  /** The keys that are used, and the buckets that are dropped. */
  type Addresses = (Path, Key) -> bool
  type Droppable = Path -> bool

  /** No two addresses share an encoding, and no dropped bucket's prefix starts the encoding of an
      address outside it. */
  ghost predicate Separate(a: Addresses, d: Droppable) {
    && (forall p, k, q, j :: a(p, k) && a(q, j) && Encode(p, k) == Encode(q, j) ==> p == q && k == j)
    && (forall p, q, k :: d(p) && p != [] && a(q, k) && Prefix(p) <= Encode(q, k) ==> p <= q)
  }

  ghost predicate Within(ops: seq<Op>, a: Addresses, d: Droppable) {
    forall i :: 0 <= i < |ops| ==> if ops[i].Drop? then d(ops[i].p) else a(ops[i].p, ops[i].k)
  }

  lemma PathGivesPrefix(p: Path, q: Path, k: Key)
    requires p <= q
    ensures Prefix(p) <= Encode(q, k)
  {
    assert q == p + q[|p|..];
    PrefixOfJoin(p, q[|p|..]);
  }

  lemma {:induction false} FlatHoldsTheSame(ops: seq<Op>, a: Addresses, d: Droppable, p: Path, k: Key)
    requires Separate(a, d) && Within(ops, a, d) && a(p, k)
    ensures FlatHeld(ops, Encode(p, k)) == Held(ops, p, k)
    decreases |ops|
  {
    if ops == [] {
    } else {
      var n := |ops| - 1;
      FlatHoldsTheSame(ops[..n], a, d, p, k);
      assert ops[n].Drop? || a(ops[n].p, ops[n].k);
      if ops[n].Drop? && ops[n].p <= p {
        PathGivesPrefix(ops[n].p, p, k);
      }
    }
  }

  lemma AnswersAgree(ops: seq<Op>, a: Addresses, d: Droppable, i: nat)
    requires Separate(a, d) && Within(ops, a, d) && i < |ops|
    ensures Answer(ops, i) == FlatAnswer(ops, i)
  {
    if ops[i].Get? {
      FlatHoldsTheSame(ops[..i], a, d, ops[i].p, ops[i].k);
    }
  }

  ghost predicate AlwaysAgree(a: Addresses, d: Droppable) {
    forall ops, i: nat :: Within(ops, a, d) && i < |ops| ==> Answer(ops, i) == FlatAnswer(ops, i)
  }

  /** A value put under one address is found under another with the same encoding. */
  lemma SharedEncoding(a: Addresses, d: Droppable, p: Path, k: Key, q: Path, j: Key)
    requires a(p, k) && a(q, j) && Encode(p, k) == Encode(q, j) && !(p == q && k == j)
    ensures !AlwaysAgree(a, d)
  {
    var ops := [Put(p, k, []), Get(q, j)];
    assert Within(ops, a, d);
    assert ops[..1] == [Put(p, k, [])] && ops[..1][..0] == [];
    assert FlatHeld(ops[..1], Encode(q, j)) == Some([]);
    assert Held([], q, j) == None;
    assert Answer(ops, 1) != FlatAnswer(ops, 1);
  }

  /** A value outside a dropped bucket is gone from the flat store. */
  lemma DroppedByPrefix(a: Addresses, d: Droppable, p: Path, q: Path, k: Key)
    requires d(p) && p != [] && a(q, k) && Prefix(p) <= Encode(q, k) && !(p <= q)
    ensures !AlwaysAgree(a, d)
  {
    var ops := [Put(q, k, []), Drop(p), Get(q, k)];
    assert Within(ops, a, d);
    assert ops[..2] == [Put(q, k, []), Drop(p)] && ops[..2][..1] == [Put(q, k, [])];
    assert Held(ops[..2][..1], q, k) == Some([]);
    assert Held(ops[..2], q, k) == Some([]);
    assert FlatHeld(ops[..2], Encode(q, k)) == None;
    assert Answer(ops, 2) != FlatAnswer(ops, 2);
  }

  /** All runs over given addresses get the same answers from both stores exactly when these
      addresses are separate. */
  lemma AlwaysAgreeIff(a: Addresses, d: Droppable)
    ensures AlwaysAgree(a, d) <==> Separate(a, d)
  {
    if Separate(a, d) {
      forall ops, i: nat | Within(ops, a, d) && i < |ops|
        ensures Answer(ops, i) == FlatAnswer(ops, i)
      {
        AnswersAgree(ops, a, d, i);
      }
    } else if p, k, q, j :| a(p, k) && a(q, j) && Encode(p, k) == Encode(q, j) && !(p == q && k == j) {
      SharedEncoding(a, d, p, k, q, j);
    } else {
      var p, q, k :| d(p) && p != [] && a(q, k) && Prefix(p) <= Encode(q, k) && !(p <= q);
      DroppedByPrefix(a, d, p, q, k);
    }
  }

  /** Without slashes in names and keys everything is separate. */
  lemma PlainIsSeparate()
    ensures Separate((p, k) => PlainPath(p) && Plain(k), p => PlainPath(p))
  {
    forall p, k, q, j | PlainPath(p) && Plain(k) && PlainPath(q) && Plain(j) && Encode(p, k) == Encode(q, j)
      ensures p == q && k == j
    {
      EncodeInjective(p, k, q, j);
    }
    forall p, q, k | PlainPath(p) && PlainPath(q) && Plain(k) && Prefix(p) <= Encode(q, k)
      ensures p <= q
    {
      EncodedPrefix(p, q, k);
    }
  }

  /** Buckets side by side, whatever is in their names and keys, are separate as long as no
      bucket's prefix starts another's. */
  lemma SiblingsAreSeparate(names: set<Name>)
    requires forall m, n :: m in names && n in names && m != n ==> !(Prefix([m]) <= Prefix([n]))
    ensures Separate((p, k) => |p| == 1 && p[0] in names, p => |p| == 1 && p[0] in names)
  {
    forall p: Path, q: Path, k: Key
      | |p| == 1 && |q| == 1 && p[0] in names && q[0] in names && Prefix(p) <= Encode(q, k)
      ensures p == q
    {
      assert p == [p[0]] && q == [q[0]];
      assert Prefix(p) <= Prefix(q) || Prefix(q) <= Prefix(p);
    }
    forall p: Path, k: Key, q: Path, j: Key
      | |p| == 1 && |q| == 1 && p[0] in names && q[0] in names && Encode(p, k) == Encode(q, j)
      ensures p == q && k == j
    {
      assert Prefix(p) <= Encode(p, k) == Encode(q, j);
      assert k == Encode(p, k)[|Prefix(p)|..] && j == Encode(q, j)[|Prefix(q)|..];
    }
  }

  /** The buckets the FakeIP import reads: one is named by an address prefix, slash included, the
      other is "fakedns_cache" or "fakedns_cachev6".  A dot or a colon is only in the first, a "k"
      only in the second. */
  lemma FakeIPBucketsAreSeparate(prefix: Name, cache: Name)
    requires 107 !in prefix && (46 in prefix || 58 in prefix)
    requires 107 in cache && 46 !in cache && 58 !in cache && Plain(cache)
    ensures var names := {prefix, cache};
            Separate((p, k) => |p| == 1 && p[0] in names, p => |p| == 1 && p[0] in names)
  {
    OneName(prefix);
    OneName(cache);
    NotBelow(prefix + [SLASH], cache + [SLASH], if 46 in prefix then 46 else 58);
    NotBelow(cache + [SLASH], prefix + [SLASH], 107);
    SiblingsAreSeparate({prefix, cache});
  }

  lemma OneName(name: Name)
    ensures Prefix([name]) == name + [SLASH]
  {
    assert [name][1..] == [];
  }

  lemma NotBelow(a: Key, b: Key, c: byte)
    requires c in a && c !in b
    ensures !(a <= b)
  {
    var i :| 0 <= i < |a| && a[i] == c;
    assert i < |b| ==> b[i] in b;
  }

  // ---- Listing a bucket ----------------------------------------------------------------

  /** Same answer for every bucket and key; nothing is stored under a name with a slash. */
  ghost predicate Same(nodes: Nodes, t: Table) {
    forall p, k :: NestedAt(nodes, p, k) == if PlainPath(p) && Plain(k) then FlatAt(t, p, k) else None
  }

  /** No operation has a slash in a name or a key. */
  ghost predicate PlainRun(ops: seq<Op>) {
    Within(ops, (p, k) => PlainPath(p) && Plain(k), p => PlainPath(p))
  }

  lemma {:induction false} OnlyPlainHeld(ops: seq<Op>, p: Path, k: Key)
    requires PlainRun(ops) && !(PlainPath(p) && Plain(k))
    ensures Held(ops, p, k).None?
    decreases |ops|
  {
    if ops == [] {
    } else {
      OnlyPlainHeld(ops[..|ops| - 1], p, k);
    }
  }

  lemma {:induction false} HeldIsEncoded(ops: seq<Op>, e: Key)
    requires PlainRun(ops) && FlatHeld(ops, e).Some?
    ensures exists p, k :: PlainPath(p) && Plain(k) && e == Encode(p, k)
    decreases |ops|
  {
    var op := ops[|ops| - 1];
    if op.Put? && Encode(op.p, op.k) == e {
    } else {
      HeldIsEncoded(ops[..|ops| - 1], e);
    }
  }

  /** After the same run without slashes the two stores are the same. */
  lemma RunsAreSame(nodes: Nodes, t: Table, ops: seq<Op>)
    requires PlainRun(ops) && Reflects(nodes, ops) && FlatReflects(t, ops)
    ensures Same(nodes, t) && Encoded(t)
  {
    PlainIsSeparate();
    forall p, k
      ensures NestedAt(nodes, p, k) == if PlainPath(p) && Plain(k) then FlatAt(t, p, k) else None
    {
      if PlainPath(p) && Plain(k) {
        FlatHoldsTheSame(ops, (p, k) => PlainPath(p) && Plain(k), p => PlainPath(p), p, k);
      } else {
        OnlyPlainHeld(ops, p, k);
      }
    }
    forall e | e in t ensures exists p, k :: PlainPath(p) && Plain(k) && e == Encode(p, k) {
      HeldIsEncoded(ops, e);
    }
  }

  lemma {:induction false} PrefixOfJoin(p: Path, q: Path)
    ensures Prefix(p + q) == Prefix(p) + Prefix(q)
  {
    if p == [] {
      assert p + q == q;
    } else {
      PrefixOfJoin(p[1..], q);
      assert (p + q)[1..] == p[1..] + q;
    }
  }

  /** A key of a bucket below p, seen from p, has a slash in it. */
  lemma BelowHasSlash(p: Path, q: Path, k: Key) returns (j: Key)
    requires p < q
    ensures !Plain(j) && Encode(p, j) == Encode(q, k)
  {
    var r := q[|p|..];
    assert q == p + r;
    PrefixOfJoin(p, r);
    PrefixEndsInSlash(r);
    j := Prefix(r) + k;
  }

  lemma SlashIsBelow(p: Path, j: Key, q: Path, k: Key)
    requires PlainPath(p) && PlainPath(q) && Plain(k) && !Plain(j) && Encode(p, j) == Encode(q, k)
    ensures p < q
  {
    EncodedPrefix(p, q, k);
    assert Prefix(p) <= Encode(p, j);
    assert Encode(p, j)[|Prefix(p)|..] == j && Encode(q, k)[|Prefix(q)|..] == k;
    assert |p| == |q| ==> p == q;
    assert p != q;
  }

  ghost predicate NothingBelow(nodes: Nodes, p: Path) {
    forall q, k :: p < q ==> NestedAt(nodes, q, k).None?
  }

  ghost predicate NothingHeldBelow(ops: seq<Op>, p: Path) {
    forall q, k :: p < q ==> Held(ops, q, k).None?
  }

  lemma ReflectsBelow(nodes: Nodes, ops: seq<Op>, p: Path)
    requires Reflects(nodes, ops)
    ensures NothingBelow(nodes, p) <==> NothingHeldBelow(ops, p)
  {
    if q, k :| p < q && NestedAt(nodes, q, k).Some? {
      assert Held(ops, q, k).Some?;
    }
    if q, k :| p < q && Held(ops, q, k).Some? {
      assert NestedAt(nodes, q, k).Some?;
    }
  }

  ghost predicate ListedAlike(nodes: Nodes, t: Table, p: Path) {
    forall k :: FlatAt(t, p, k) == NestedAt(nodes, p, k)
  }

  /** Listing a bucket of the flat store also lists everything below it: it agrees with the
      nested store exactly when the buckets below are empty. */
  lemma RangesAgreeIff(nodes: Nodes, t: Table, p: Path)
    requires Same(nodes, t) && Encoded(t) && PlainPath(p)
    ensures ListedAlike(nodes, t, p) <==> NothingBelow(nodes, p)
  {
    if q, k :| p < q && NestedAt(nodes, q, k).Some? {
      var j := BelowHasSlash(p, q, k);
      assert FlatAt(t, p, j) != NestedAt(nodes, p, j);
    }
    if k :| FlatAt(t, p, k) != NestedAt(nodes, p, k) {
      var q, j :| PlainPath(q) && Plain(j) && Encode(p, k) == Encode(q, j);
      SlashIsBelow(p, k, q, j);
      assert FlatAt(t, q, j).Some?;
      assert NestedAt(nodes, q, j).Some?;
    }
  }

  /** After any run without slashes, listing a bucket of the flat store agrees with the nested one
      exactly when the run left nothing in the buckets below. */
  lemma RunListingIff(nodes: Nodes, t: Table, ops: seq<Op>, p: Path)
    requires PlainRun(ops) && Reflects(nodes, ops) && FlatReflects(t, ops) && PlainPath(p)
    ensures ListedAlike(nodes, t, p) <==> NothingHeldBelow(ops, p)
  {
    ReflectsBelow(nodes, ops, p);
    RunsAreSame(nodes, t, ops);
    RangesAgreeIff(nodes, t, p);
  }

  // ---- Buckets kept for later ------------------------------------------------------------

  ghost predicate Attached(nodes: Nodes, i: nat) {
    i in nodes && Walk(nodes, 0, nodes[i].path) == Some(i)
  }

  /** What a write through bucket i does to either store. */
  ghost function PutThrough(nodes: Nodes, i: nat, k: Key, v: Value): Nodes
    requires i in nodes
  {
    nodes[i := nodes[i].(values := nodes[i].values[k := v])]
  }

  lemma PutThroughAt(nodes: Nodes, next: nat, i: nat, k: Key, v: Value, q: Path, j: Key)
    requires Linked(nodes, next) && i in nodes
    ensures NestedAt(PutThrough(nodes, i, k, v), q, j) ==
            if Attached(nodes, i) && q == nodes[i].path && j == k then Some(v) else NestedAt(nodes, q, j)
  {
    var after := PutThrough(nodes, i, k, v);
    WalkIgnoresValues(nodes, i, after[i], 0, q);
    if Walk(nodes, 0, q).Some? {
      WalkRemembersPath(nodes, next, 0, q);
      assert [] + q == q;
    }
  }

  /** A write through a bucket obtained earlier is seen alike by both stores exactly when the bucket
      is still attached, or the value was there already. */
  lemma PutThroughSeenIff(nodes: Nodes, next: nat, t: Table, i: nat, k: Key, v: Value)
    requires Linked(nodes, next) && i in nodes && Same(nodes, t) && PlainPath(nodes[i].path) && Plain(k)
    ensures var p := nodes[i].path;
            Same(PutThrough(nodes, i, k, v), t[Encode(p, k) := v])
            <==> Attached(nodes, i) || NestedAt(nodes, p, k) == Some(v)
  {
    var p := nodes[i].path;
    var after, flat := PutThrough(nodes, i, k, v), t[Encode(p, k) := v];
    forall q, j
      ensures NestedAt(after, q, j) ==
              if Attached(nodes, i) && q == p && j == k then Some(v) else NestedAt(nodes, q, j)
      ensures PlainPath(q) && Plain(j) ==> FlatAt(flat, q, j) == if p == q && k == j then Some(v) else FlatAt(t, q, j)
    {
      PutThroughAt(nodes, next, i, k, v, q, j);
      if PlainPath(q) && Plain(j) {
        FlatPutAt(t, p, k, v, q, j);
      }
    }
    if Same(after, flat) {
      assert NestedAt(after, p, k) == FlatAt(flat, p, k);
    }
  }

  /** All writes through a bucket are seen alike exactly when it is attached. */
  lemma HandleGoodIff(nodes: Nodes, next: nat, t: Table, i: nat)
    requires Linked(nodes, next) && i in nodes && Same(nodes, t) && PlainPath(nodes[i].path)
    ensures (forall k, v :: Plain(k) ==> Same(PutThrough(nodes, i, k, v), t[Encode(nodes[i].path, k) := v]))
            <==> Attached(nodes, i)
  {
    if Attached(nodes, i) {
      forall k, v | Plain(k)
        ensures Same(PutThrough(nodes, i, k, v), t[Encode(nodes[i].path, k) := v])
      {
        PutThroughSeenIff(nodes, next, t, i, k, v);
      }
    } else {
      var v: Value := if NestedAt(nodes, nodes[i].path, []) == Some([]) then [0] else [];
      PutThroughSeenIff(nodes, next, t, i, [], v);
      assert Plain([]);
    }
  }

  /** So it is after any run without slashes. */
  lemma RunHandleIff(nodes: Nodes, next: nat, t: Table, ops: seq<Op>, i: nat)
    requires PlainRun(ops) && Reflects(nodes, ops) && FlatReflects(t, ops)
    requires Linked(nodes, next) && i in nodes && PlainPath(nodes[i].path)
    ensures (forall k, v :: Plain(k) ==> Same(PutThrough(nodes, i, k, v), t[Encode(nodes[i].path, k) := v]))
            <==> Attached(nodes, i)
  {
    RunsAreSame(nodes, t, ops);
    HandleGoodIff(nodes, next, t, i);
  }

  /** Which operations a bucket at path p survives. */
  predicate Survives(op: Op, p: Path) {
    op.Drop? ==> op.p == [] || !(op.p <= p)
  }

  /** A bucket obtained earlier stays attached through a run exactly when no operation dropped it or
      a bucket above it; once detached it stays so, even when its path is used again. */
  method KeepBucket(m: Memory, i: nat, ops: seq<Op>)
    requires m.Valid() && i in m.nodes
    modifies m
    ensures m.Valid() && i in m.nodes && m.nodes[i].path == old(m.nodes[i].path)
    ensures Attached(m.nodes, i) <==>
            Attached(old(m.nodes), i) && forall n :: 0 <= n < |ops| ==> Survives(ops[n], old(m.nodes[i].path))
  {
    ghost var p := m.nodes[i].path;
    for n := 0 to |ops|
      invariant m.Valid() && i in m.nodes && m.nodes[i].path == p
      invariant Attached(m.nodes, i) <==> Attached(old(m.nodes), i) && forall j :: 0 <= j < n ==> Survives(ops[j], p)
    {
      KeepThrough(m, i, ops[n]);
    }
  }

  method KeepThrough(m: Memory, i: nat, op: Op)
    requires m.Valid() && i in m.nodes
    modifies m
    ensures m.Valid() && i in m.nodes && m.nodes[i].path == old(m.nodes[i].path)
    ensures Attached(m.nodes, i) <==> Attached(old(m.nodes), i) && Survives(op, old(m.nodes[i].path))
  {
    match op {
      case Get(p, k) => var _ := m.Get(p, k);
      case Put(p, k, v) => m.Put(p, k, v);
      case Delete(p, k) => m.Delete(p, k);
      case Drop(p) => m.DeleteBucket(p);
    }
  }

  /** A bucket obtained before it was deleted is detached in the nested store and alive in the
      flat one: the two only agree on operations that start from the root. */
  method StaleBucket(name: Name, k: Key, v: Value) returns (nested: Option<Value>, flat: Option<Value>)
    ensures nested == None && flat == Some(v)
  {
    var m := new Memory();
    var i := m.NewCache([name]);
    m.DeleteBucket([name]);
    ghost var nodes := m.nodes;
    m.PutInto(i, k, v);
    WalkIgnoresValues(nodes, i, m.nodes[i], 0, [name]);
    nested := m.Get([name], k);
    var f := new Flat();
    f.DeleteBucket([name]);
    f.Put([name], k, v);
    flat := f.Get([name], k);
  }
}
