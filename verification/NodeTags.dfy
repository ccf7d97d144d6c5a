/**
Tags name nodes, or mirror another tag.  Resolving a tag follows mirrors until it finds nodes;
it ends exactly when the chain of mirrors has no cycle.
*/
module NodeTags {
  import opened KeyRange
  import opened Options

  type Name = Key

  datatype Kind = ToNode | ToTag

  datatype Row = Row(tag: Name, kind: Kind, target: Name)

  /** The order of the table: by tag, node targets before tag targets, then by target. */
  predicate RowBefore(a: Row, b: Row) {
    || Less(a.tag, b.tag)
    || (a.tag == b.tag && a.kind.ToNode? && b.kind.ToTag?)
    || (a.tag == b.tag && a.kind == b.kind && Less(a.target, b.target))
  }

  /** The rows of the table in their order; a row is there once. */
  type Table = seq<Row>

  function Insert(rows: Table, r: Row): (t: Table)
    ensures forall x :: x in t <==> x == r || x in rows
  {
    if rows == [] then [r]
    else if rows[0] == r then rows
    else if RowBefore(r, rows[0]) then [r] + rows
    else
      var t := Insert(rows[1..], r);
      assert rows == [rows[0]] + rows[1..];
      [rows[0]] + t
  }

  function Without(rows: Table, drop: Row -> bool): (t: Table)
    ensures forall x :: x in t <==> x in rows && !drop(x)
  {
    if rows == [] then []
    else
      var t := Without(rows[1..], drop);
      assert rows == [rows[0]] + rows[1..];
      (if drop(rows[0]) then [] else [rows[0]]) + t
  }

  // ---- The order of the table ----------------------------------------------------------

  ghost predicate Sorted(rows: Table) {
    forall i, j :: 0 <= i < j < |rows| ==> RowBefore(rows[i], rows[j])
  }

  lemma RowTotal(a: Row, b: Row)
    ensures !(RowBefore(a, b) && RowBefore(b, a)) && (a != b <==> RowBefore(a, b) || RowBefore(b, a))
  {
    LessTotal(a.tag, b.tag);
    LessTotal(a.target, b.target);
  }

  lemma RowTransitive(a: Row, b: Row, c: Row)
    requires RowBefore(a, b) && RowBefore(b, c)
    ensures RowBefore(a, c)
  {
    if Less(a.tag, b.tag) && Less(b.tag, c.tag) {
      LessTransitive(a.tag, b.tag, c.tag);
    } else if a.tag == b.tag == c.tag && a.kind == b.kind == c.kind {
      LessTransitive(a.target, b.target, c.target);
    }
  }

  lemma SortedCons(r: Row, rows: Table)
    requires Sorted(rows) && forall x :: x in rows ==> RowBefore(r, x)
    ensures Sorted([r] + rows)
  {
  }

  /** Adding a row keeps the order. */
  lemma {:induction false} InsertKeepsOrder(rows: Table, r: Row)
    requires Sorted(rows)
    ensures Sorted(Insert(rows, r))
  {
    if rows == [] || rows[0] == r {
    } else {
      var rest := rows[1..];
      assert rows == [rows[0]] + rest;
      if RowBefore(r, rows[0]) {
        forall x | x in rows ensures RowBefore(r, x) {
          if x != rows[0] {
            RowTransitive(r, rows[0], x);
          }
        }
        SortedCons(r, rows);
      } else {
        RowTotal(r, rows[0]);
        InsertKeepsOrder(rest, r);
        SortedCons(rows[0], Insert(rest, r));
      }
    }
  }

  /** So does dropping rows. */
  lemma {:induction false} WithoutKeepsOrder(rows: Table, drop: Row -> bool)
    requires Sorted(rows)
    ensures Sorted(Without(rows, drop))
  {
    if rows == [] {
    } else {
      var rest := Without(rows[1..], drop);
      assert rows == [rows[0]] + rows[1..];
      WithoutKeepsOrder(rows[1..], drop);
      if drop(rows[0]) {
        assert [] + rest == rest;
      } else {
        SortedCons(rows[0], rest);
      }
    }
  }

  /** A tag cannot mirror itself; an unknown kind is an error, an empty one means node. */
  function AddTag(rows: Table, tag: Name, kind: string, target: Name): Option<Table> {
    var k := if kind == "" then "node" else kind;
    if k != "node" && k != "tag" then None
    else if k == "tag" && tag == target then Some(rows)
    else Some(Insert(rows, Row(tag, if k == "node" then ToNode else ToTag, target)))
  }

  function DeleteTag(rows: Table, tag: Name): Table {
    Without(rows, (r: Row) => r.tag == tag)
  }

  // ---- Resolution -------------------------------------------------------------------

  datatype Tag = Tag(mirror: bool, targets: seq<Name>)

  /** All targets of a tag in table order; one tag among them makes it a mirror. */
  function GetTag(rows: Table, name: Name): (t: Tag)
    ensures forall x :: x in t.targets <==> exists r :: r in rows && r.tag == name && r.target == x
    ensures t.mirror <==> exists r :: r in rows && r.tag == name && r.kind.ToTag?
  {
    if rows == [] then Tag(false, [])
    else
      var rest := GetTag(rows[1..], name);
      var r := rows[0];
      assert rows == [r] + rows[1..];
      if r.tag != name then rest
      else
        var t := Tag(r.kind.ToTag? || rest.mirror, [r.target] + rest.targets);
        assert t.targets[0] == r.target;
        t
  }

  /** The first target is that of the tag's first row, and all others come behind it. */
  lemma {:induction false} FirstTarget(rows: Table, name: Name) returns (first: Row)
    requires Sorted(rows) && GetTag(rows, name).targets != []
    ensures first in rows && first.tag == name && first.target == GetTag(rows, name).targets[0]
    ensures forall r :: r in rows && r.tag == name && r != first ==> RowBefore(first, r)
  {
    assert rows == [rows[0]] + rows[1..];
    if rows[0].tag == name {
      first := rows[0];
    } else {
      first := FirstTarget(rows[1..], name);
    }
  }

  /** The tag to go on with, if resolution does not stop here. */
  function Next(rows: Table, tag: Name): Option<Name> {
    var t := GetTag(rows, tag);
    if t.mirror && t.targets != [] && t.targets[0] != tag then Some(t.targets[0]) else None
  }

  function NextOf(rows: Table): Name -> Option<Name> {
    (tag: Name) => Next(rows, tag)
  }

  /** Where a walk is after k steps, if it gets that far. */
  function Walk<T>(next: T -> Option<T>, start: T, k: nat): Option<T> {
    if k == 0 then Some(start)
    else match Walk(next, start, k - 1)
      case None => None
      case Some(t) => next(t)
  }

  ghost predicate Ends<T>(next: T -> Option<T>, start: T) {
    exists k: nat :: Walk(next, start, k).None?
  }

  /** Nothing is visited twice. */
  ghost predicate NoRepeat<T>(next: T -> Option<T>, start: T) {
    forall i: nat, j: nat :: i < j && Walk(next, start, j).Some? ==> Walk(next, start, i) != Walk(next, start, j)
  }

  lemma {:induction false} WalkPrefix<T>(next: T -> Option<T>, start: T, i: nat, j: nat)
    requires i <= j && Walk(next, start, j).Some?
    ensures Walk(next, start, i).Some?
  {
    if i == j {
    } else {
      WalkPrefix(next, start, i, j - 1);
    }
  }

  lemma {:induction false} WalkRepeats<T>(next: T -> Option<T>, start: T, i: nat, j: nat, k: nat)
    requires Walk(next, start, i) == Walk(next, start, j)
    ensures Walk(next, start, i + k) == Walk(next, start, j + k)
  {
    if k == 0 {
    } else {
      WalkRepeats(next, start, i, j, k - 1);
    }
  }

  /** Once something comes back, the walk goes round for ever. */
  lemma {:induction false} CycleGoesOn<T>(next: T -> Option<T>, start: T, i: nat, j: nat, k: nat)
    requires i < j && Walk(next, start, j).Some? && Walk(next, start, i) == Walk(next, start, j)
    ensures Walk(next, start, k).Some?
  {
    if k <= j {
      WalkPrefix(next, start, k, j);
    } else {
      CycleGoesOn(next, start, i, j, k - (j - i));
      WalkRepeats(next, start, i, j, k - j);
    }
  }

  ghost predicate StepsFrom<T(!new)>(next: T -> Option<T>, names: set<T>) {
    forall t :: next(t).Some? ==> t in names
  }

  ghost predicate Passed<T>(next: T -> Option<T>, start: T, k: nat, t: T) {
    exists i: nat :: i < k && Walk(next, start, i) == Some(t)
  }

  /** A walk without repeats passes k different places in k steps. */
  lemma {:induction false} VisitedCount<T(!new)>(next: T -> Option<T>, start: T, k: nat, names: set<T>)
    returns (visited: set<T>)
    requires StepsFrom(next, names) && NoRepeat(next, start) && Walk(next, start, k).Some?
    ensures |visited| == k && visited <= names
    ensures forall t :: t in visited ==> Passed(next, start, k, t)
  {
    if k == 0 {
      visited := {};
    } else {
      var before := VisitedCount(next, start, k - 1, names);
      var last := Walk(next, start, k - 1).value;
      assert last !in before;
      visited := before + {last};
      forall t | t in visited ensures Passed(next, start, k, t) {
        if t in before {
          var i: nat :| i < k - 1 && Walk(next, start, i) == Some(t);
        } else {
          assert Walk(next, start, k - 1) == Some(t);
        }
      }
    }
  }

  /** Where resolution is after k steps. */
  function Chain(rows: Table, tag: Name, k: nat): Option<Name> {
    Walk(NextOf(rows), tag, k)
  }

  ghost predicate Stops(rows: Table, tag: Name) {
    Ends(NextOf(rows), tag)
  }

  /** No tag is visited twice. */
  ghost predicate NoCycle(rows: Table, tag: Name) {
    NoRepeat(NextOf(rows), tag)
  }

  ghost function Names(rows: Table): set<Name> {
    set r | r in rows :: r.tag
  }

  lemma OnlyTagsHaveNext(rows: Table)
    ensures StepsFrom(NextOf(rows), Names(rows))
  {
    forall tag | Next(rows, tag).Some? ensures tag in Names(rows) {
      var t := GetTag(rows, tag);
      assert t.targets[0] in t.targets;
    }
  }

  /** A chain that does not repeat is no longer than there are tags. */
  lemma ChainIsShort(rows: Table, tag: Name, k: nat)
    requires NoCycle(rows, tag) && Chain(rows, tag, k).Some?
    ensures k <= |Names(rows)|
  {
    OnlyTagsHaveNext(rows);
    var visited := VisitedCount(NextOf(rows), tag, k, Names(rows));
    SubsetSize(visited, Names(rows));
  }

  lemma SubsetSize(a: set<Name>, b: set<Name>)
    requires a <= b
    ensures |a| <= |b|
  {
    assert b == a + (b - a);
  }

  /** Resolution of a tag stops exactly when its mirrors do not form a cycle; a tag that lists
      itself first ends it at once. */
  lemma StopsIffNoCycle(rows: Table, tag: Name)
    ensures Stops(rows, tag) <==> NoCycle(rows, tag)
  {
    var next := NextOf(rows);
    if NoCycle(rows, tag) {
      var n := |Names(rows)| + 1;
      if Chain(rows, tag, n).Some? {
        ChainIsShort(rows, tag, n);
      }
      assert Walk(next, tag, n).None?;
    }
    if Stops(rows, tag) && !NoCycle(rows, tag) {
      var k: nat :| Walk(next, tag, k).None?;
      var i: nat, j: nat :| i < j && Walk(next, tag, j).Some? && Walk(next, tag, i) == Walk(next, tag, j);
      CycleGoesOn(next, tag, i, j, k);
    }
  }

  /** A tag with node targets and tag targets is a mirror whose first target is a node: resolution
      goes on with a tag named like that node. */
  lemma MixedTagFollowsNode(rows: Table, n: Row, t: Row) returns (node: Row)
    requires Sorted(rows) && n in rows && t in rows && n.tag == t.tag && n.kind.ToNode? && t.kind.ToTag?
    ensures node in rows && node.tag == n.tag && node.kind.ToNode?
    ensures forall r :: r in rows && r.tag == n.tag && r.kind.ToNode? && r != node ==> Less(node.target, r.target)
    ensures Next(rows, n.tag) == if node.target == n.tag then None else Some(node.target)
  {
    assert n.target in GetTag(rows, n.tag).targets;
    node := FirstTarget(rows, n.tag);
    LessTotal(node.tag, n.tag);
    RowTotal(node, n);
  }

  lemma {:induction false} NamesCount(rows: Table)
    ensures |Names(rows)| <= |rows|
  {
    if rows == [] {
    } else {
      NamesCount(rows[1..]);
      assert rows == [rows[0]] + rows[1..];
      assert Names(rows) == Names(rows[1..]) + {rows[0].tag};
    }
  }

  /** Whether a tag resolves can be told after as many steps as there are rows. */
  predicate Resolvable(rows: Table, tag: Name) {
    Chain(rows, tag, |rows| + 1).None?
  }

  lemma ResolvableIff(rows: Table, tag: Name)
    ensures Resolvable(rows, tag) <==> NoCycle(rows, tag)
  {
    StopsIffNoCycle(rows, tag);
    if NoCycle(rows, tag) && Chain(rows, tag, |rows| + 1).Some? {
      ChainIsShort(rows, tag, |rows| + 1);
      NamesCount(rows);
    }
  }

  /** Two tags can be made to mirror each other, and then neither resolves. */
  lemma MirrorsCanLoop(a: Name, b: Name)
    requires a != b
    ensures var one := AddTag([], a, "tag", b);
            one.Some? &&
            var two := AddTag(one.value, b, "tag", a);
            two.Some? && !Stops(two.value, a) && !Stops(two.value, b)
  {
    var rows := AddTag(AddTag([], a, "tag", b).value, b, "tag", a).value;
    LoopTag(rows, a, b);
    LoopTag(rows, b, a);
    StopsIffNoCycle(rows, a);
    StopsIffNoCycle(rows, b);
    assert Chain(rows, a, 1) == Next(rows, a) && Chain(rows, a, 2) == Next(rows, b);
    assert Chain(rows, b, 1) == Next(rows, b) && Chain(rows, b, 2) == Next(rows, a);
    assert Chain(rows, a, 0) == Chain(rows, a, 2);
    assert Chain(rows, b, 0) == Chain(rows, b, 2);
  }

  lemma LoopTag(rows: Table, a: Name, b: Name)
    requires a != b && Row(a, ToTag, b) in rows
    requires forall r :: r in rows && r.tag == a ==> r == Row(a, ToTag, b)
    ensures Next(rows, a) == Some(b)
  {
    var t := GetTag(rows, a);
    assert b in t.targets;
    assert t.targets[0] in t.targets;
  }

  // ---- What resolution can return ---------------------------------------------------

  /** The chain gets to `end` and no further. */
  ghost predicate EndsAt(rows: Table, tag: Name, end: Name) {
    Next(rows, end).None? && exists k: nat :: Chain(rows, tag, k) == Some(end)
  }

  lemma {:induction false} NothingAfter(rows: Table, tag: Name, k: nat, end: Name, j: nat)
    requires Chain(rows, tag, k) == Some(end) && Next(rows, end).None? && j > k
    ensures Chain(rows, tag, j).None?
  {
    if j == k + 1 {
    } else {
      NothingAfter(rows, tag, k, end, j - 1);
    }
  }

  /** There is one end at most. */
  lemma EndIsOne(rows: Table, tag: Name, a: Name, b: Name)
    requires EndsAt(rows, tag, a) && EndsAt(rows, tag, b)
    ensures a == b
  {
    var i: nat :| Chain(rows, tag, i) == Some(a);
    var j: nat :| Chain(rows, tag, j) == Some(b);
    if i < j {
      NothingAfter(rows, tag, i, a, j);
    } else if j < i {
      NothingAfter(rows, tag, j, b, i);
    }
  }

  lemma {:induction false} LastOfChain(rows: Table, tag: Name, k: nat) returns (end: Name)
    requires Chain(rows, tag, k).None?
    ensures EndsAt(rows, tag, end)
  {
    if Chain(rows, tag, k - 1).Some? {
      end := Chain(rows, tag, k - 1).value;
    } else {
      end := LastOfChain(rows, tag, k - 1);
    }
  }

  lemma EndExists(rows: Table, tag: Name)
    requires NoCycle(rows, tag)
    ensures exists end :: EndsAt(rows, tag, end)
  {
    ResolvableIff(rows, tag);
    var end := LastOfChain(rows, tag, |rows| + 1);
  }

  /** The tag that resolution comes to in the end. */
  ghost function End(rows: Table, tag: Name): (end: Name)
    requires NoCycle(rows, tag)
    ensures EndsAt(rows, tag, end)
  {
    EndExists(rows, tag);
    var end :| EndsAt(rows, tag, end);
    end
  }

  /** The node picked at the end of the chain: none where the chain ends in a mirror or in nothing. */
  ghost function Resolved(rows: Table, tag: Name, pick: nat): Name
    requires NoCycle(rows, tag)
  {
    var t := GetTag(rows, End(rows, tag));
    if t.mirror || t.targets == [] then [] else t.targets[pick % |t.targets|]
  }

  /** What a tag resolves to is a node of some row. */
  lemma ResolvedIsNode(rows: Table, tag: Name, pick: nat)
    requires NoCycle(rows, tag) && Resolved(rows, tag, pick) != []
    ensures exists r :: r in rows && r.kind.ToNode? && r.target == Resolved(rows, tag, pick)
  {
    var t := GetTag(rows, End(rows, tag));
    assert t.targets[pick % |t.targets|] in t.targets;
  }

  /** Follows the mirrors and picks one of the nodes, the `pick`-th modulo their number. */
  method TagConn(rows: Table, tag: Name, pick: nat) returns (id: Name)
    requires NoCycle(rows, tag)
    ensures id == Resolved(rows, tag, pick)
  {
    var at := tag;
    ghost var k: nat := 0;
    while true
      invariant Chain(rows, tag, k) == Some(at) && k <= |Names(rows)|
      decreases |Names(rows)| - k
    {
      var t := GetTag(rows, at);
      if Next(rows, at).None? {
        EndIsOne(rows, tag, at, End(rows, tag));
      }
      if |t.targets| == 0 {
        return [];
      }
      if t.mirror {
        if at == t.targets[0] {
          return [];
        }
        at := t.targets[0];
        k := k + 1;
        ChainIsShort(rows, tag, k);
      } else {
        return t.targets[pick % |t.targets|];
      }
    }
  }
}
