/**
The order of route rules.  In memory it is the order of a slice; in the database it is a
priority per rule, with an index that allows no priority twice at any moment.
*/
module RuleOrder {

  // ---- Moving an element of a slice -------------------------------------------------

  function Removed<T>(s: seq<T>, i: nat): seq<T>
    requires i < |s|
  {
    s[..i] + s[i + 1..]
  }

  function Inserted<T>(s: seq<T>, i: nat, x: T): seq<T>
    requires i <= |s|
  {
    s[..i] + [x] + s[i..]
  }

  /** Where element `to` is once element `from` is gone. */
  function Shifted(from: nat, to: nat): nat {
    if from < to then to - 1 else to
  }

  /** Element `from` moved directly before or directly after element `to`. */
  function Moved<T>(s: seq<T>, from: nat, to: nat, after: bool): seq<T>
    requires from < |s| && to < |s| && from != to
  {
    Inserted(Removed(s, from), Shifted(from, to) + if after then 1 else 0, s[from])
  }

  lemma SliceGrows<T>(s: seq<T>, i: nat, k: nat)
    requires i <= k < |s|
    ensures s[i..k] + [s[k]] == s[i..k + 1]
  {
  }

  function Unshifted(i: nat, k: nat): nat {
    if k < i then k else k + 1
  }

  /** Taking an element out loses that one element and keeps the order of the others. */
  lemma RemovedElements<T>(s: seq<T>, i: nat)
    requires i < |s|
    ensures multiset(s) == multiset(Removed(s, i)) + multiset{s[i]}
  {
    assert s == s[..i] + [s[i]] + s[i + 1..];
  }

  lemma RemovedAt<T>(s: seq<T>, i: nat, k: nat)
    requires i < |s| && k < |s| - 1
    ensures Removed(s, i)[k] == s[Unshifted(i, k)]
  {
  }

  /** Putting an element in and taking it out again changes nothing. */
  lemma InsertedThenRemoved<T>(s: seq<T>, i: nat, x: T)
    requires i <= |s|
    ensures Inserted(s, i, x)[i] == x && Removed(Inserted(s, i, x), i) == s
  {
    var t := Inserted(s, i, x);
    assert t[..i] == s[..i] && t[i + 1..] == s[i..];
    assert s == s[..i] + s[i..];
  }

  lemma MovedKeepsElements<T>(s: seq<T>, from: nat, to: nat, after: bool)
    requires from < |s| && to < |s| && from != to
    ensures multiset(Moved(s, from, to, after)) == multiset(s)
  {
    var r, p := Removed(s, from), Shifted(from, to) + if after then 1 else 0;
    RemovedElements(s, from);
    InsertedThenRemoved(r, p, s[from]);
    RemovedElements(Inserted(r, p, s[from]), p);
  }

  /** A move rearranges; the element stands next to the target on the right side, and all other
      elements keep their order. */
  lemma MovedIsRightMove<T>(s: seq<T>, from: nat, to: nat, after: bool)
    requires from < |s| && to < |s| && from != to
    ensures var m, t := Moved(s, from, to, after), Shifted(from, to);
            && |m| == |s| && multiset(m) == multiset(s)
            && (if after
                then m[t] == s[to] && m[t + 1] == s[from] && Removed(m, t + 1) == Removed(s, from)
                else m[t] == s[from] && m[t + 1] == s[to] && Removed(m, t) == Removed(s, from))
  {
    MovedKeepsElements(s, from, to, after);
    var t := Shifted(from, to);
    InsertedThenRemoved(Removed(s, from), if after then t + 1 else t, s[from]);
    RemovedAt(s, from, t);
  }

  /** Copies the slice, leaving `from` out and putting it back before `to`. */
  method InsertBefore<T>(s: seq<T>, from: nat, to: nat) returns (result: seq<T>)
    requires from < |s| && to < |s|
    ensures result == if from == to then Removed(s, from) else Moved(s, from, to, false)
  {
    result := [];
    ghost var r, t := Removed(s, from), Shifted(from, to);
    for i := 0 to |s|
      invariant result == if from != to && i > to
                          then r[..t] + [s[from]] + r[t..Shifted(from, i)]
                          else r[0..Shifted(from, i)]
    {
      if i == from {
        continue;
      }
      ghost var k := Shifted(from, i);
      SliceGrows(r, if from != to && i >= to then t else 0, k);
      if i == to {
        result := result + [s[from]];
      }
      result := result + [s[i]];
    }
  }

  /** The same with the element behind `to`. */
  method InsertAfter<T>(s: seq<T>, from: nat, to: nat) returns (result: seq<T>)
    requires from < |s| && to < |s|
    ensures result == if from == to then Removed(s, from) else Moved(s, from, to, true)
  {
    result := [];
    ghost var r, t := Removed(s, from), Shifted(from, to);
    for i := 0 to |s|
      invariant result == if from != to && i > to
                          then r[..t + 1] + [s[from]] + r[t + 1..Shifted(from, i)]
                          else r[0..Shifted(from, i)]
    {
      if i == from {
        continue;
      }
      ghost var k := Shifted(from, i);
      SliceGrows(r, if from != to && i > to then t + 1 else 0, k);
      result := result + [s[i]];
      if i == to {
        result := result + [s[from]];
      }
    }
  }

  // ---- One reordering request, as the slice and as the store serve it ----------------

  datatype Operate = Exchange | InsertPrev | InsertNext | OtherOperate

  datatype Outcome = Done | NotFound | UnknownOperate | EmptyName | PriorityTaken

  predicate Distinct<T(==)>(s: seq<T>) {
    forall i, j :: 0 <= i < j < |s| ==> s[i] != s[j]
  }

  function Swapped<T>(s: seq<T>, i: nat, j: nat): seq<T>
    requires i < |s| && j < |s|
  {
    s[i := s[j]][j := s[i]]
  }

  /** What the slice of matchers becomes. */
  function SliceOrder<T>(s: seq<T>, from: nat, to: nat, operate: Operate): seq<T>
    requires from < |s| && to < |s|
  {
    match operate
    case Exchange => Swapped(s, from, to)
    case InsertPrev => if from == to then Removed(s, from) else Moved(s, from, to, false)
    case InsertNext => if from == to then Removed(s, from) else Moved(s, from, to, true)
    case OtherOperate => s
  }

  method ReorderSlice<T>(s: seq<T>, from: nat, to: nat, operate: Operate) returns (result: seq<T>)
    requires from < |s| && to < |s|
    ensures result == SliceOrder(s, from, to, operate)
    ensures operate.Exchange? ==> |result| == |s| && result[from] == s[to] && result[to] == s[from]
    ensures operate.Exchange? ==> forall k :: 0 <= k < |s| && k != from && k != to ==> result[k] == s[k]
    ensures operate.InsertPrev? && from != to ==> StandsAt(result, Shifted(from, to), s[from], s[to])
    ensures operate.InsertPrev? && from != to ==> Removed(result, Shifted(from, to)) == Removed(s, from)
    ensures operate.InsertNext? && from != to ==> StandsAt(result, Shifted(from, to), s[to], s[from])
    ensures operate.InsertNext? && from != to ==> Removed(result, Shifted(from, to) + 1) == Removed(s, from)
    ensures operate.OtherOperate? ==> result == s
  {
    if from != to {
      MovedIsRightMove(s, from, to, operate.InsertNext?);
    }
    match operate
    case Exchange =>
      var src, dst := s[from], s[to];
      result := s[from := dst];
      result := result[to := src];
    case InsertPrev => result := InsertBefore(s, from, to);
    case InsertNext => result := InsertAfter(s, from, to);
    case OtherOperate => result := s;
  }

  /** `x` at position p, and `y` directly behind it. */
  ghost predicate StandsAt<T>(s: seq<T>, p: nat, x: T, y: T) {
    p + 1 < |s| && s[p] == x && s[p + 1] == y
  }

  /** A reordering keeps every element exactly when it does not insert an element beside itself. */
  lemma SliceKeepsElementsIff<T>(s: seq<T>, from: nat, to: nat, operate: Operate)
    requires from < |s| && to < |s|
    ensures multiset(SliceOrder(s, from, to, operate)) == multiset(s)
            <==> !(from == to && (operate.InsertPrev? || operate.InsertNext?))
  {
    if operate.InsertPrev? || operate.InsertNext? {
      if from == to {
        RemovedElements(s, from);
        assert multiset(s)[s[from]] == multiset(Removed(s, from))[s[from]] + 1;
      } else {
        MovedKeepsElements(s, from, to, operate.InsertNext?);
      }
    }
  }

  /** What the store answers, and the order it leaves, said of names. */
  ghost function StoreOutcome<N>(order: seq<N>, source: N, target: N, operate: Operate): Outcome {
    if source !in order || target !in order then NotFound
    else if operate.OtherOperate? then UnknownOperate
    else if source == target && !operate.Exchange? then NotFound
    else Done
  }

  /** The order that is asked for: source and target change places, or the source stands directly
      before or behind the target, and all others stay as they are. */
  ghost predicate Reordered<N>(after: seq<N>, order: seq<N>, source: N, target: N, operate: Operate) {
    match operate
    case Exchange => |after| == |order| && forall k :: 0 <= k < |order| ==>
      after[k] == if order[k] == source then target else if order[k] == target then source else order[k]
    case InsertPrev =>
      Without(after, source) == Without(order, source) && exists p :: StandsAt(after, p, source, target)
    case InsertNext =>
      Without(after, source) == Without(order, source) && exists p :: StandsAt(after, p, target, source)
    case OtherOperate => after == order
  }

  ghost predicate IsStoreOrder<N>(after: seq<N>, order: seq<N>, source: N, target: N, operate: Operate) {
    if StoreOutcome(order, source, target, operate).Done?
    then Reordered(after, order, source, target, operate)
    else after == order
  }

  /** The list without (the first) `x`. */
  ghost function Without<N>(l: seq<N>, x: N): seq<N> {
    if l == [] then [] else if l[0] == x then l[1..] else [l[0]] + Without(l[1..], x)
  }

  lemma {:induction false} WithoutIsRemoved<N>(l: seq<N>, x: N) returns (i: nat)
    requires x in l
    ensures i < |l| && l[i] == x && Without(l, x) == Removed(l, i)
  {
    if l[0] == x {
      i := 0;
    } else {
      var k := WithoutIsRemoved(l[1..], x);
      i := k + 1;
      assert l[..i] == [l[0]] + l[1..][..k] && l[i + 1..] == l[1..][k + 1..];
    }
  }

  lemma WithoutAt<N>(l: seq<N>, i: nat)
    requires Distinct(l) && i < |l|
    ensures Without(l, l[i]) == Removed(l, i)
  {
    var k := WithoutIsRemoved(l, l[i]);
  }

  /** Said of names, the slice ends in the order that is asked for. */
  lemma SliceIsReordered<N>(order: seq<N>, i: nat, j: nat, operate: Operate)
    requires Distinct(order) && i < |order| && j < |order| && (i != j || operate.Exchange? || operate.OtherOperate?)
    ensures Reordered(SliceOrder(order, i, j, operate), order, order[i], order[j], operate)
  {
    if operate.InsertPrev? || operate.InsertNext? {
      var after, t := SliceOrder(order, i, j, operate), Shifted(i, j);
      MovedIsRightMove(order, i, j, operate.InsertNext?);
      SameElements(order, after);
      WithoutAt(order, i);
      WithoutAt(after, if operate.InsertNext? then t + 1 else t);
      assert if operate.InsertNext? then StandsAt(after, t, order[j], order[i])
             else StandsAt(after, t, order[i], order[j]);
    }
  }

  /** The slice and the store end in the same order exactly when no rule is inserted beside itself;
      then the slice loses the rule and the store refuses. */
  lemma SliceAndStoreAgreeIff<N>(order: seq<N>, i: nat, j: nat, operate: Operate)
    requires Distinct(order) && i < |order| && j < |order|
    ensures IsStoreOrder(SliceOrder(order, i, j, operate), order, order[i], order[j], operate)
            <==> !(i == j && (operate.InsertPrev? || operate.InsertNext?))
  {
    SliceKeepsElementsIff(order, i, j, operate);
    if !(i == j && (operate.InsertPrev? || operate.InsertNext?)) {
      SliceIsReordered(order, i, j, operate);
    }
  }

  // ---- The table of priorities -------------------------------------------------------

  /** The unique index on priority. */
  ghost predicate Unique<N>(t: map<N, int>) {
    forall m, n :: m in t && n in t && m != n ==> t[m] != t[n]
  }

  predicate Covers<N(==)>(t: map<N, int>, l: seq<N>) {
    && (forall n :: n in l ==> n in t)
    && (forall n :: n in t ==> n in l)
  }

  /** The names of the table, by rising priority. */
  ghost predicate IsListing<N>(t: map<N, int>, l: seq<N>) {
    Covers(t, l) && forall i, j :: 0 <= i < j < |l| ==> t[l[i]] < t[l[j]]
  }

  lemma SameFirst<N>(t: map<N, int>, a: seq<N>, b: seq<N>)
    requires IsListing(t, a) && IsListing(t, b) && a != []
    ensures b != [] && a[0] == b[0]
  {
    assert a[0] in t;
    var i: nat :| i < |b| && b[i] == a[0];
    assert b[0] in t;
    var j: nat :| j < |a| && a[j] == b[0];
  }

  lemma TailIsListing<N>(t: map<N, int>, a: seq<N>)
    requires IsListing(t, a) && a != []
    ensures IsListing(t - {a[0]}, a[1..])
  {
    var u := t - {a[0]};
    forall n | n in u ensures n in a[1..] {
      var i: nat :| i < |a| && a[i] == n;
      assert a[1..][i - 1] == n;
    }
  }

  lemma {:induction false} ListingIsUnique<N>(t: map<N, int>, a: seq<N>, b: seq<N>)
    requires IsListing(t, a) && IsListing(t, b)
    ensures a == b
    decreases |a|
  {
    if a == [] {
      if b != [] {
        SameFirst(t, b, a);
        assert false;
      }
    } else {
      SameFirst(t, a, b);
      TailIsListing(t, a);
      TailIsListing(t, b);
      ListingIsUnique(t - {a[0]}, a[1..], b[1..]);
      assert a == [a[0]] + a[1..] && b == [b[0]] + b[1..];
    }
  }

  lemma {:induction false} SomeLowest<N>(t: map<N, int>, rest: set<N>) returns (low: N)
    requires rest <= t.Keys && rest != {}
    ensures low in rest && forall m :: m in rest ==> t[low] <= t[m]
    decreases |rest|
  {
    var some :| some in rest;
    var others := rest - {some};
    low := some;
    if others != {} {
      var l := SomeLowest(t, others);
      if t[l] < t[some] {
        low := l;
      }
      forall m | m in rest ensures t[low] <= t[m] {
        assert m == some || m in others;
      }
    } else {
      assert rest == {some};
    }
  }

  /** The listing of the names that are not in `rest`, which all come later. */
  ghost predicate ListedBefore<N>(t: map<N, int>, l: seq<N>, rest: set<N>)
    requires rest <= t.Keys
  {
    IsListing(t - rest, l) && forall n, m :: n in l && m in rest ==> t[n] < t[m]
  }

  lemma ListNext<N>(t: map<N, int>, l: seq<N>, rest: set<N>, next: N)
    requires rest <= t.Keys && ListedBefore(t, l, rest) && Unique(t)
    requires next in rest && forall m :: m in rest ==> t[next] <= t[m]
    ensures ListedBefore(t, l + [next], rest - {next})
  {
    var k := l + [next];
    assert forall n :: n in l ==> n in t - rest;
    forall n | n in t - (rest - {next}) ensures n in k {
      assert n in t - rest ==> n in l;
      assert k[|l|] == next;
    }
  }

  lemma SomeListing<N>(t: map<N, int>) returns (l: seq<N>)
    requires Unique(t)
    ensures IsListing(t, l)
  {
    l := [];
    var rest := t.Keys;
    while rest != {}
      invariant rest <= t.Keys && ListedBefore(t, l, rest)
      decreases |rest|
    {
      var next := SomeLowest(t, rest);
      ListNext(t, l, rest, next);
      l := l + [next];
      rest := rest - {next};
    }
    assert t - rest == t;
  }

  lemma {:induction false} WithoutAbsent<N>(l: seq<N>, x: N)
    requires x !in l
    ensures Without(l, x) == l
  {
    if l == [] {
    } else {
      WithoutAbsent(l[1..], x);
      assert l == [l[0]] + l[1..];
    }
  }

  lemma RemovedCovers<N>(t: map<N, int>, l: seq<N>, i: nat)
    requires Covers(t, l) && Distinct(l) && i < |l|
    ensures Covers(t - {l[i]}, Removed(l, i))
  {
    var r, u := Removed(l, i), t - {l[i]};
    forall n | n in u ensures n in r {
      var j: nat :| j < |l| && l[j] == n;
      RemovedAt(l, i, Shifted(i, j));
    }
    forall n | n in r ensures n in u {
      var k: nat :| k < |r| && r[k] == n;
      RemovedAt(l, i, k);
    }
  }

  lemma RemovedIsListing<N>(t: map<N, int>, l: seq<N>, i: nat)
    requires IsListing(t, l) && i < |l|
    ensures IsListing(t - {l[i]}, Removed(l, i))
  {
    RemovedCovers(t, l, i);
    var r := Removed(l, i);
    forall j, k | 0 <= j < k < |r| ensures t[r[j]] < t[r[k]] {
      RemovedAt(l, i, j);
      RemovedAt(l, i, k);
    }
  }

  lemma WithoutIsListing<N>(t: map<N, int>, l: seq<N>, x: N)
    requires IsListing(t, l)
    ensures IsListing(t - {x}, Without(l, x))
  {
    if x in l {
      var i := WithoutIsRemoved(l, x);
      RemovedIsListing(t, l, i);
    } else {
      WithoutAbsent(l, x);
      assert t - {x} == t;
    }
  }

  lemma AppendedIsListing<N>(t: map<N, int>, l: seq<N>, x: N, p: int)
    requires IsListing(t, l) && forall n :: n in t && n != x ==> t[n] < p
    ensures IsListing(t[x := p], Without(l, x) + [x])
  {
    WithoutIsListing(t, l, x);
    var k, u := Without(l, x) + [x], t[x := p];
    forall n | n in u ensures n in k {
      if n == x {
        assert k[|k| - 1] == x;
      } else {
        assert n in t - {x};
      }
    }
    forall n | n in k ensures n in u {
      assert n == x || n in t - {x};
    }
    forall i, j | 0 <= i < j < |k| ensures u[k[i]] < u[k[j]] {
      assert k[i] in t - {x};
      assert k[j] == x || k[j] in t - {x};
    }
  }

  /** Saving one row moves that one name; with the highest priority, to the end. */
  lemma SavedListing<N>(t: map<N, int>, l: seq<N>, x: N, p: int) returns (k: seq<N>)
    requires IsListing(t, l) && Unique(t[x := p])
    ensures IsListing(t[x := p], k) && x in k && Without(k, x) == Without(l, x)
    ensures (forall n :: n in t && n != x ==> t[n] < p) ==> k == Without(l, x) + [x]
  {
    var u := t[x := p];
    k := SomeListing(u);
    assert x in u;
    WithoutIsListing(t, l, x);
    WithoutIsListing(u, k, x);
    assert u - {x} == t - {x};
    ListingIsUnique(t - {x}, Without(k, x), Without(l, x));
    if forall n :: n in t && n != x ==> t[n] < p {
      AppendedIsListing(t, l, x, p);
      ListingIsUnique(u, k, Without(l, x) + [x]);
    }
  }

  lemma StaysUnique<N>(t: map<N, int>, x: N, p: int)
    requires Unique(t) && forall n :: n in t && n != x ==> t[n] != p
    ensures Unique(t[x := p])
  {
  }

  lemma SameElements<N>(a: seq<N>, b: seq<N>)
    requires multiset(a) == multiset(b) && Distinct(a)
    ensures Distinct(b) && (forall n :: n in a ==> n in b) && (forall n :: n in b ==> n in a)
  {
    forall n | n in a ensures n in b {
      assert n in multiset(a);
    }
    forall n | n in b ensures n in a {
      assert n in multiset(b);
    }
    forall i, j | 0 <= i < j < |b| ensures b[i] != b[j] {
      if b[i] == b[j] {
        TwiceCounts(b, i, j);
        DistinctCounts(a, b[i]);
        assert false;
      }
    }
  }

  lemma TwiceCounts<N>(b: seq<N>, i: nat, j: nat)
    requires i < j < |b| && b[i] == b[j]
    ensures multiset(b)[b[i]] >= 2
  {
    assert b == b[..j] + [b[j]] + b[j + 1..];
    assert b[..j][i] == b[i];
  }

  lemma DistinctCounts<N>(a: seq<N>, x: N)
    requires Distinct(a)
    ensures multiset(a)[x] <= 1
  {
    if x in a {
      var i: nat :| i < |a| && a[i] == x;
      assert a == a[..i] + [x] + a[i + 1..];
    }
  }

  method FindIndex<N(==)>(names: seq<N>, name: N) returns (index: int)
    ensures if name in names then 0 <= index < |names| && names[index] == name else index == -1
  {
    index := -1;
    for i := 0 to |names|
      invariant if name in names[..i] then 0 <= index < i && names[index] == name else index == -1
    {
      if names[i] == name {
        index := i;
      }
    }
    assert names[..|names|] == names;
  }

  /** The store's way to move an entry: take it out, look the target up again, put it back in. */
  method Reinsert<N(==)>(entries: seq<N>, i: nat, j: nat, after: bool) returns (outcome: Outcome, result: seq<N>)
    requires Distinct(entries) && i < |entries| && j < |entries|
    ensures if i == j then outcome == NotFound else outcome == Done && result == Moved(entries, i, j, after)
  {
    var rest := Removed(entries, i);
    var k := FindIndex(rest, entries[j]);
    if k < 0 {
      if i != j {
        RemovedAt(entries, i, Shifted(i, j));
        assert false;
      }
      return NotFound, entries;
    }
    RemovedAt(entries, i, k);
    return Done, Inserted(rest, if after then k + 1 else k, entries[i]);
  }

  method Rearrange<N(==)>(entries: seq<N>, source: N, target: N, operate: Operate)
    returns (outcome: Outcome, result: seq<N>)
    requires Distinct(entries)
    ensures outcome == StoreOutcome(entries, source, target, operate)
    ensures IsStoreOrder(result, entries, source, target, operate)
    ensures multiset(result) == multiset(entries)
  {
    var i := FindIndex(entries, source);
    var j := FindIndex(entries, target);
    result := entries;
    if i < 0 || j < 0 {
      return NotFound, entries;
    }
    SliceKeepsElementsIff(entries, i, j, operate);
    if i != j || operate.Exchange? || operate.OtherOperate? {
      SliceIsReordered(entries, i, j, operate);
    }
    match operate
    case Exchange => return Done, Swapped(entries, i, j);
    case OtherOperate => return UnknownOperate, entries;
    case _ =>
      outcome, result := Reinsert(entries, i, j, operate.InsertNext?);
      if outcome != Done {
        result := entries;
      }
  }

  datatype Command<N> =
    | Save(name: N, blank: bool, wanted: int)
    | Delete(name: N)
    | Change(source: N, target: N, operate: Operate)

  /** What a command may do to the order of the rules. */
  ghost predicate Follows<N>(before: seq<N>, c: Command<N>, after: seq<N>) {
    match c
    case Save(name, blank, wanted) =>
      || (after == before && (blank || wanted > 0))
      || (!blank && wanted > 0 && name in after && Without(after, name) == Without(before, name))
      || (!blank && wanted <= 0 && after == Without(before, name) + [name])
    case Delete(name) => after == Without(before, name)
    case Change(source, target, operate) => IsStoreOrder(after, before, source, target, operate)
  }

  class Rules<N(==)> {
    var priority: map<N, int>
    ghost var order: seq<N>

    /** Between transactions: distinct positive priorities, and `order` is what a listing shows. */
    ghost predicate Valid()
      reads this
    {
      && Unique(priority)
      && (forall n :: n in priority ==> priority[n] > 0)
      && IsListing(priority, order)
    }

    constructor ()
      ensures Valid() && order == []
    {
      priority := map[];
      order := [];
    }

    method List() returns (names: seq<N>)
      requires Valid()
      ensures names == order && Distinct(names)
    {
      names := [];
      var rest := priority.Keys;
      while rest != {}
        invariant rest <= priority.Keys && ListedBefore(priority, names, rest)
        decreases |rest|
      {
        ghost var low := SomeLowest(priority, rest);
        var next :| next in rest && forall m :: m in rest ==> priority[next] <= priority[m];
        ListNext(priority, names, rest, next);
        names := names + [next];
        rest := rest - {next};
      }
      assert priority - rest == priority;
      ListingIsUnique(priority, names, order);
    }

    /** One row update; the index refuses a priority that another row has. */
    method UpdateRow(name: N, p: int) returns (ok: bool)
      requires Unique(priority)
      modifies this`priority
      ensures Unique(priority)
      ensures ok == !(name in old(priority) && exists n :: n in old(priority) && n != name && old(priority)[n] == p)
      ensures priority == if ok && name in old(priority) then old(priority)[name := p] else old(priority)
    {
      ok := !(name in priority && exists n :: n in priority && n != name && priority[n] == p);
      if ok && name in priority {
        priority := priority[name := p];
      }
    }

    /** The row update inside a rewrite: with a priority no other row has, it goes through. */
    method Renumber(names: seq<N>, i: nat, p: int) returns (ok: bool)
      requires Unique(priority) && Covers(priority, names) && Distinct(names) && i < |names|
      requires forall j :: 0 <= j < |names| && j != i ==> priority[names[j]] != p
      modifies this`priority
      ensures ok && Unique(priority) && Covers(priority, names) && priority[names[i]] == p
      ensures forall j :: 0 <= j < |names| && j != i ==> priority[names[j]] == old(priority)[names[j]]
    {
      ok := UpdateRow(names[i], p);
    }

    /** Rows at `names[j]` have priority `f(j)`. */
    ghost predicate Numbered(names: seq<N>, from: nat, to: nat, f: int -> int)
      requires to <= |names| && Covers(priority, names)
      reads this
    {
      forall j {:trigger names[j]} :: from <= j < to ==> priority[names[j]] == f(j)
    }

    /** First pass: below zero, clear of every priority in use. */
    method Stage(names: seq<N>) returns (ok: bool)
      requires Unique(priority) && forall n :: n in priority ==> priority[n] > 0
      requires Distinct(names) && Covers(priority, names)
      modifies this`priority
      ensures ok && Unique(priority) && Covers(priority, names)
      ensures Numbered(names, 0, |names|, j => 0 - j - 1)
    {
      ok := true;
      for i := 0 to |names|
        invariant ok && Unique(priority) && Covers(priority, names)
        invariant Numbered(names, 0, i, j => 0 - j - 1)
        invariant forall j {:trigger names[j]} :: i <= j < |names| ==> priority[names[j]] > 0
      {
        ok := Renumber(names, i, 0 - i - 1);
        if !ok {
          return;
        }
      }
    }

    /** Second pass: 1, 2, 3 and so on. */
    method Settle(names: seq<N>) returns (ok: bool)
      requires Unique(priority) && Distinct(names) && Covers(priority, names)
      requires Numbered(names, 0, |names|, j => 0 - j - 1)
      modifies this`priority
      ensures ok && Unique(priority) && Covers(priority, names)
      ensures Numbered(names, 0, |names|, j => j + 1)
    {
      ok := true;
      for i := 0 to |names|
        invariant ok && Unique(priority) && Covers(priority, names)
        invariant Numbered(names, 0, i, j => j + 1)
        invariant Numbered(names, i, |names|, j => 0 - j - 1)
      {
        ok := Renumber(names, i, i + 1);
        if !ok {
          return;
        }
      }
    }

    /** Renumbers in two passes.  No row update is ever refused, and the rows end at 1..n. */
    method Rewrite(names: seq<N>) returns (ok: bool)
      requires Unique(priority) && forall n :: n in priority ==> priority[n] > 0
      requires Distinct(names) && Covers(priority, names)
      modifies this
      ensures ok && Valid() && order == names
      ensures Numbered(names, 0, |names|, j => j + 1)
    {
      ok := Stage(names);
      if !ok {
        return;
      }
      ok := Settle(names);
      order := names;
    }

    method NextPriority() returns (p: int)
      requires Valid()
      ensures p > 0 && forall n :: n in priority ==> priority[n] < p
    {
      p := 1;
      var rest := priority.Keys;
      while rest != {}
        invariant p > 0 && rest <= priority.Keys
        invariant forall n :: n in priority && n !in rest ==> priority[n] < p
        decreases |rest|
      {
        var n :| n in rest;
        if priority[n] >= p {
          p := priority[n] + 1;
        }
        rest := rest - {n};
      }
    }

    /** Saves a rule.  Without a priority it goes to the end; with one, the index decides. */
    method SaveRule(name: N, blank: bool, wanted: int) returns (outcome: Outcome)
      requires Valid()
      modifies this
      ensures Valid()
      ensures outcome ==
              if blank then EmptyName
              else if wanted > 0 && exists n :: n in old(priority) && n != name && old(priority)[n] == wanted
              then PriorityTaken else Done
      ensures !outcome.Done? ==> priority == old(priority) && order == old(order)
      ensures outcome.Done? ==> name in order && Without(order, name) == Without(old(order), name)
      ensures outcome.Done? && wanted > 0 ==> priority == old(priority)[name := wanted]
      ensures outcome.Done? && wanted <= 0 ==> order == Without(old(order), name) + [name]
    {
      if blank {
        return EmptyName;
      }
      var p := wanted;
      if p <= 0 {
        p := NextPriority();
      }
      if exists n :: n in priority && n != name && priority[n] == p {
        return PriorityTaken;
      }
      StaysUnique(priority, name, p);
      ghost var l := SavedListing(priority, order, name, p);
      priority := priority[name := p];
      order := l;
      outcome := Done;
    }

    /** Deletes a rule and closes the gap; the others keep their order. */
    method DeleteRule(name: N) returns (outcome: Outcome)
      requires Valid()
      modifies this
      ensures Valid()
      ensures outcome == if name in old(order) then Done else NotFound
      ensures order == Without(old(order), name)
      ensures outcome.Done? ==> Numbered(order, 0, |order|, j => j + 1)
      ensures !outcome.Done? ==> priority == old(priority)
    {
      if name !in priority {
        WithoutAbsent(order, name);
        return NotFound;
      }
      WithoutIsListing(priority, order, name);
      priority := priority - {name};
      order := Without(order, name);
      var names := List();
      var ok := Rewrite(names);
      outcome := Done;
    }

    /** Serves a reordering request by name. */
    method ChangePriority(source: N, target: N, operate: Operate) returns (outcome: Outcome)
      requires Valid()
      modifies this
      ensures Valid()
      ensures outcome == StoreOutcome(old(order), source, target, operate)
      ensures IsStoreOrder(order, old(order), source, target, operate)
      ensures outcome.Done? ==> Numbered(order, 0, |order|, j => j + 1)
      ensures !outcome.Done? ==> priority == old(priority)
    {
      var entries := List();
      var after;
      outcome, after := Rearrange(entries, source, target, operate);
      if outcome == Done {
        SameElements(entries, after);
        var ok := Rewrite(after);
      }
    }

    /** Any run of saves, deletes and reorderings keeps priorities distinct and positive, and the
        order follows the commands one by one. */
    method Serve(commands: seq<Command<N>>) returns (ghost orders: seq<seq<N>>)
      requires Valid()
      modifies this
      ensures Valid()
      ensures |orders| == |commands| + 1 && orders[0] == old(order) && orders[|commands|] == order
      ensures forall i :: 0 <= i < |commands| ==> Follows(orders[i], commands[i], orders[i + 1])
    {
      orders := [order];
      for i := 0 to |commands|
        invariant Valid() && |orders| == i + 1 && orders[0] == old(order) && orders[i] == order
        invariant forall k :: 0 <= k < i ==> Follows(orders[k], commands[k], orders[k + 1])
      {
        ServeOne(commands[i]);
        orders := orders + [order];
      }
    }

    method ServeOne(c: Command<N>)
      requires Valid()
      modifies this
      ensures Valid() && Follows(old(order), c, order)
    {
      var outcome;
      match c
      case Save(name, blank, wanted) => outcome := SaveRule(name, blank, wanted);
      case Delete(name) => outcome := DeleteRule(name);
      case Change(source, target, operate) => outcome := ChangePriority(source, target, operate);
    }
  }
}
