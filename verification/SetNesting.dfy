/**
Sets that contain Sets.  `Offer` is the order in which a Set tries its members.  The rest is
about dialing through a graph of Sets, which may be cyclic: a counter carried in the context
refuses the eleventh nested entry into the same Set.  That bound ends every recursion, and it
never hides a member that can be reached.
*/
module SetNesting {

  // ---- Order of the members ---------------------------------------------------------

  ghost predicate Permutation(s: seq<nat>, n: nat) {
    && (forall i, j :: 0 <= i < j < |s| ==> s[i] != s[j])
    && (forall k: nat :: k in s <==> k < n)
  }

  /** The members other than the remembered one, in the given order. */
  function Without(s: seq<nat>, cached: int): seq<nat> {
    if s == [] then [] else (if s[0] == cached then [] else [s[0]]) + Without(s[1..], cached)
  }

  function OfferOrder(cached: int, order: seq<nat>): seq<nat> {
    (if cached >= 0 then [cached] else []) + Without(order, cached)
  }

  /** The part of `s` up to and including the first index that ends the loop. */
  function Taken(s: seq<nat>, again: nat -> bool): seq<nat> {
    if s == [] then [] else if again(s[0]) then [s[0]] + Taken(s[1..], again) else [s[0]]
  }

  lemma {:induction false} WithoutContains(s: seq<nat>, cached: int, k: nat)
    ensures k in Without(s, cached) <==> k in s && k != cached
  {
    if s == [] {
    } else {
      WithoutContains(s[1..], cached, k);
      assert s == [s[0]] + s[1..];
    }
  }

  lemma {:induction false} WithoutDistinct(s: seq<nat>, cached: int)
    requires forall i, j :: 0 <= i < j < |s| ==> s[i] != s[j]
    ensures var t := Without(s, cached); forall i, j :: 0 <= i < j < |t| ==> t[i] != t[j]
  {
    if s == [] {
    } else {
      WithoutDistinct(s[1..], cached);
      WithoutContains(s[1..], cached, s[0]);
    }
  }

  /** Every member is offered exactly once, the remembered one first. */
  lemma OfferOrderIsPermutation(n: nat, cached: int, order: seq<nat>)
    requires Permutation(order, n) && -1 <= cached < n
    ensures Permutation(OfferOrder(cached, order), n)
    ensures cached >= 0 ==> OfferOrder(cached, order)[0] == cached
  {
    WithoutDistinct(order, cached);
    var t := Without(order, cached);
    forall k: nat
      ensures k in t <==> k < n && k != cached
    {
      WithoutContains(order, cached, k);
    }
    var r := OfferOrder(cached, order);
    if cached >= 0 {
      assert r == [cached] + t;
      forall i, j | 0 <= i < j < |r|
        ensures r[i] != r[j]
      {
        assert r[j] == t[j - 1];
        WithoutContains(order, cached, r[j]);
      }
    } else {
      assert r == t;
    }
  }

  /** What is taken is the beginning of the order, through the first index that is refused, or all. */
  lemma {:induction false} TakenIsBeginning(s: seq<nat>, again: nat -> bool)
    ensures var t := Taken(s, again);
            && t <= s && (forall i :: 0 <= i < |t| - 1 ==> again(t[i]))
            && (t == s || (t != [] && !again(t[|t| - 1])))
  {
    if s == [] || !again(s[0]) {
    } else {
      TakenIsBeginning(s[1..], again);
      assert s == [s[0]] + s[1..];
    }
  }

  lemma TakenCons(k: nat, s: seq<nat>, again: nat -> bool)
    ensures Taken([k] + s, again) == if again(k) then [k] + Taken(s, again) else [k]
  {
    assert ([k] + s)[1..] == s;
  }

  /** One round of the loop. */
  lemma TakenNext(order: seq<nat>, i: nat, cached: int, again: nat -> bool, offered: seq<nat>)
    requires i < |order|
    ensures var k, rest := order[i], Taken(Without(order[i + 1..], cached), again);
            offered + Taken(Without(order[i..], cached), again) ==
            if k == cached then offered + rest else if again(k) then offered + [k] + rest else offered + [k]
  {
    var k, rest := order[i], Without(order[i + 1..], cached);
    assert order[i..][1..] == order[i + 1..];
    if k != cached {
      assert Without(order[i..], cached) == [k] + rest;
      TakenCons(k, rest, again);
      assert offered + ([k] + Taken(rest, again)) == offered + [k] + Taken(rest, again);
    } else {
      assert Without(order[i..], cached) == rest;
    }
  }

  /** The loop over the members: `order` is 0, 1, 2, ... or a random permutation, and the loop
      goes on as long as `again` says so. */
  method Offer(n: nat, cached: int, order: seq<nat>, again: nat -> bool) returns (offered: seq<nat>)
    requires Permutation(order, n) && -1 <= cached < n
    ensures offered == Taken(OfferOrder(cached, order), again)
  {
    ghost var all := Taken(OfferOrder(cached, order), again);
    offered := [];
    if cached >= 0 {
      offered := [cached];
      TakenCons(cached, Without(order, cached), again);
      if !again(cached) {
        return;
      }
    } else {
      assert OfferOrder(cached, order) == Without(order, cached);
    }
    var i := 0;
    assert order[i..] == order;
    while i < |order|
      invariant 0 <= i <= |order|
      invariant all == offered + Taken(Without(order[i..], cached), again)
    {
      var k := order[i];
      TakenNext(order, i, cached, again, offered);
      i := i + 1;
      if k != cached {
        offered := offered + [k];
        if !again(k) {
          return;
        }
      }
    }
  }

  // ---- The counter in the context ---------------------------------------------------

  datatype Node = Single(alive: bool) | Group(members: seq<string>)

  /** The stored nodes; an id that is absent has no dialer. */
  type Net = map<string, Node>

  /** The context maps a Set to its counter; the counters are shared by everything below. */
  type Context = map<string, nat>
  type Counters = seq<nat>

  const MAX_ENTRIES: nat := 10

  ghost predicate Bound(ctx: Context, cells: Counters) {
    forall id :: id in ctx ==> ctx[id] < |cells|
  }

  /** Counters are only ever added and incremented. */
  ghost predicate Grows(cells: Counters, cells': Counters) {
    |cells| <= |cells'| && forall i :: 0 <= i < |cells| ==> cells[i] <= cells'[i]
  }

  datatype Entry = Entry(ok: bool, ctx: Context, cells: Counters)

  function Enter(id: string, ctx: Context, cells: Counters): (e: Entry)
    requires Bound(ctx, cells)
    ensures Bound(e.ctx, e.cells) && Grows(cells, e.cells)
  {
    if id !in ctx then
      Entry(true, ctx[id := |cells|], cells + [1])
    else
      var count := cells[ctx[id]] + 1;
      Entry(count <= MAX_ENTRIES, ctx, cells[ctx[id] := count])
  }

  /** How often a Set may still be entered below this point. */
  function Remaining(id: string, ctx: Context, cells: Counters): nat
    requires Bound(ctx, cells)
  {
    if id !in ctx then MAX_ENTRIES
    else if cells[ctx[id]] < MAX_ENTRIES then MAX_ENTRIES - cells[ctx[id]] else 0
  }

  ghost function Pick(ids: set<string>): (id: string)
    requires ids != {}
    ensures id in ids
  {
    var id :| id in ids; id
  }

  ghost function TotalRemaining(ids: set<string>, ctx: Context, cells: Counters): nat
    requires Bound(ctx, cells)
    decreases |ids|
  {
    if ids == {} then 0
    else var id := Pick(ids); Remaining(id, ctx, cells) + TotalRemaining(ids - {id}, ctx, cells)
  }

  lemma {:induction false} TotalRemainingMonotone(
    ids: set<string>, ctx: Context, cells: Counters, ctx': Context, cells': Counters)
    requires Bound(ctx, cells) && Bound(ctx', cells')
    requires forall id :: id in ids ==> Remaining(id, ctx', cells') <= Remaining(id, ctx, cells)
    ensures TotalRemaining(ids, ctx', cells') <= TotalRemaining(ids, ctx, cells)
    ensures (exists id :: id in ids && Remaining(id, ctx', cells') < Remaining(id, ctx, cells))
            ==> TotalRemaining(ids, ctx', cells') < TotalRemaining(ids, ctx, cells)
    decreases |ids|
  {
    if ids != {} {
      TotalRemainingMonotone(ids - {Pick(ids)}, ctx, cells, ctx', cells');
    }
  }

  lemma GrowthLowersRemaining(ids: set<string>, ctx: Context, cells: Counters, cells': Counters)
    requires Bound(ctx, cells) && Grows(cells, cells')
    ensures Bound(ctx, cells')
    ensures TotalRemaining(ids, ctx, cells') <= TotalRemaining(ids, ctx, cells)
  {
    TotalRemainingMonotone(ids, ctx, cells, ctx, cells');
  }

  lemma EntryLowersRemaining(ids: set<string>, id: string, ctx: Context, cells: Counters)
    requires Bound(ctx, cells) && id in ids && Enter(id, ctx, cells).ok
    ensures var e := Enter(id, ctx, cells);
            && Remaining(id, e.ctx, e.cells) == Remaining(id, ctx, cells) - 1
            && TotalRemaining(ids, e.ctx, e.cells) < TotalRemaining(ids, ctx, cells)
  {
    var e := Enter(id, ctx, cells);
    assert Remaining(id, e.ctx, e.cells) < Remaining(id, ctx, cells);
    TotalRemainingMonotone(ids, ctx, cells, e.ctx, e.cells);
  }

  /** An entry is accepted exactly when one is left. */
  lemma EntersIff(id: string, ctx: Context, cells: Counters)
    requires Bound(ctx, cells)
    ensures Enter(id, ctx, cells).ok <==> Remaining(id, ctx, cells) > 0
  {
  }

  /** The n-th entry into one Set, each inside the one before. */
  function NthEntry(id: string, n: nat): (e: Entry)
    requires n > 0
    ensures Bound(e.ctx, e.cells) && id in e.ctx
  {
    if n == 1 then Enter(id, map[], [])
    else var e := NthEntry(id, n - 1); Enter(id, e.ctx, e.cells)
  }

  /** The first ten entries are accepted, the eleventh and all others are refused. */
  lemma {:induction false} TenEntries(id: string, n: nat)
    requires n > 0
    ensures var e := NthEntry(id, n); e.cells[e.ctx[id]] == n && (e.ok <==> n <= 10)
  {
    if n == 1 {
    } else {
      TenEntries(id, n - 1);
    }
  }

  lemma {:induction false} FullRemaining(ids: set<string>)
    ensures TotalRemaining(ids, map[], []) == MAX_ENTRIES * |ids|
    decreases |ids|
  {
    if ids != {} {
      FullRemaining(ids - {Pick(ids)});
    }
  }

  // ---- Chains of nested entries, with interference ----------------------------------

  /** `ids` are entered one inside the other, while goroutines elsewhere enter Sets too and
      raise any counter they share. */
  ghost predicate Chain(ids: seq<string>, ctx: Context, cells: Counters)
    requires Bound(ctx, cells)
    decreases |ids|
  {
    ids == [] ||
    exists mid: Counters :: Grows(cells, mid) && ChainVia(ids, ctx, mid)
  }

  ghost predicate ChainVia(ids: seq<string>, ctx: Context, mid: Counters)
    requires ids != [] && Bound(ctx, mid)
    decreases |ids|, 0
  {
    var e := Enter(ids[0], ctx, mid);
    e.ok && Chain(ids[1..], e.ctx, e.cells)
  }

  function Count(ids: seq<string>, id: string): nat {
    if ids == [] then 0 else (if ids[0] == id then 1 else 0) + Count(ids[1..], id)
  }

  /** Along a chain no Set is entered more often than it may be. */
  lemma {:induction false} ChainEntries(ids: seq<string>, ctx: Context, cells: Counters, id: string)
    requires Bound(ctx, cells) && Chain(ids, ctx, cells)
    ensures Count(ids, id) <= Remaining(id, ctx, cells)
    decreases |ids|
  {
    if ids == [] {
    } else {
      var mid: Counters :| Grows(cells, mid) && ChainVia(ids, ctx, mid);
      var e := Enter(ids[0], ctx, mid);
      ChainEntries(ids[1..], e.ctx, e.cells, id);
    }
  }

  /** Nesting is finite however the Sets refer to each other: at most ten times the number of
      Sets deep, under any interference. */
  lemma {:induction false} ChainBounded(sets: set<string>, ids: seq<string>, ctx: Context, cells: Counters)
    requires Bound(ctx, cells) && Chain(ids, ctx, cells)
    requires forall i :: 0 <= i < |ids| ==> ids[i] in sets
    ensures |ids| <= TotalRemaining(sets, ctx, cells)
    decreases |ids|
  {
    if ids == [] {
    } else {
      var mid: Counters :| Grows(cells, mid) && ChainVia(ids, ctx, mid);
      var e := Enter(ids[0], ctx, mid);
      GrowthLowersRemaining(sets, ctx, cells, mid);
      EntryLowersRemaining(sets, ids[0], ctx, mid);
      ChainBounded(sets, ids[1..], e.ctx, e.cells);
    }
  }

  lemma NestingBounded(sets: set<string>, ids: seq<string>)
    requires Chain(ids, map[], []) && forall i :: 0 <= i < |ids| ==> ids[i] in sets
    ensures |ids| <= MAX_ENTRIES * |sets|
    ensures forall id :: Count(ids, id) <= MAX_ENTRIES
  {
    ChainBounded(sets, ids, map[], []);
    FullRemaining(sets);
    forall id
      ensures Count(ids, id) <= MAX_ENTRIES
    {
      ChainEntries(ids, map[], [], id);
    }
  }

  /** `ids` can be entered one inside the other whatever goroutines elsewhere do to the counters. */
  ghost predicate AlwaysEnters(ids: seq<string>, ctx: Context, cells: Counters)
    requires Bound(ctx, cells)
    decreases |ids|
  {
    ids == [] || forall mid: Counters :: Grows(cells, mid) ==> EntersVia(ids, ctx, mid)
  }

  ghost predicate EntersVia(ids: seq<string>, ctx: Context, mid: Counters)
    requires ids != [] && Bound(ctx, mid)
    decreases |ids|, 0
  {
    var e := Enter(ids[0], ctx, mid);
    e.ok && AlwaysEnters(ids[1..], e.ctx, e.cells)
  }

  /** Sets that were not entered yet are never refused, under any interference. */
  lemma {:induction false} FreshAlwaysEnter(ids: seq<string>, ctx: Context, cells: Counters)
    requires Bound(ctx, cells) && forall i :: 0 <= i < |ids| ==> ids[i] !in ctx
    requires forall i, j :: 0 <= i < j < |ids| ==> ids[i] != ids[j]
    ensures AlwaysEnters(ids, ctx, cells)
    decreases |ids|
  {
    if ids == [] {
    } else {
      forall mid: Counters | Grows(cells, mid) ensures EntersVia(ids, ctx, mid) {
        var e := Enter(ids[0], ctx, mid);
        FreshAlwaysEnter(ids[1..], e.ctx, e.cells);
      }
    }
  }

  lemma {:induction false} AlwaysEntersIsChain(ids: seq<string>, ctx: Context, cells: Counters)
    requires Bound(ctx, cells) && AlwaysEnters(ids, ctx, cells)
    ensures Chain(ids, ctx, cells)
    decreases |ids|
  {
    if ids == [] {
    } else {
      assert Grows(cells, cells) && EntersVia(ids, ctx, cells);
      var e := Enter(ids[0], ctx, cells);
      AlwaysEntersIsChain(ids[1..], e.ctx, e.cells);
      assert ChainVia(ids, ctx, cells);
    }
  }

  // ---- Ping through the graph -------------------------------------------------------

  /** Which order a Set uses on a visit; it may differ from visit to visit. */
  type Schedule = (string, Counters) -> seq<string>

  ghost predicate Fair(net: Net, order: Schedule) {
    forall id, cells :: id in net && net[id].Group? ==>
      forall m :: m in order(id, cells) <==> m in net[id].members
  }

  datatype Answer = Answer(ok: bool, cells: Counters)

  function Ping(net: Net, order: Schedule, id: string, ctx: Context, cells: Counters): (a: Answer)
    requires Bound(ctx, cells)
    ensures Grows(cells, a.cells)
    decreases TotalRemaining(net.Keys, ctx, cells), 0, 0
  {
    if id !in net then Answer(false, cells)
    else match net[id]
      case Single(alive) => Answer(alive, cells)
      case Group(_) =>
        var e := Enter(id, ctx, cells);
        if !e.ok then Answer(false, e.cells)
        else
          EntryLowersRemaining(net.Keys, id, ctx, cells);
          PingMembers(net, order, order(id, cells), e.ctx, e.cells)
  }

  function PingMembers(net: Net, order: Schedule, members: seq<string>, ctx: Context, cells: Counters): (a: Answer)
    requires Bound(ctx, cells)
    ensures Grows(cells, a.cells)
    decreases TotalRemaining(net.Keys, ctx, cells), 1, |members|
  {
    if members == [] then Answer(false, cells)
    else
      var a := Ping(net, order, members[0], ctx, cells);
      if a.ok then a
      else
        GrowthLowersRemaining(net.Keys, ctx, cells, a.cells);
        PingMembers(net, order, members[1..], ctx, a.cells)
  }

  /** A way from the first id through Sets to a member that answers. */
  ghost predicate LivePath(net: Net, path: seq<string>) {
    && path != []
    && (forall i :: 0 <= i < |path| ==> path[i] in net)
    && (forall i :: 0 <= i < |path| - 1 ==> net[path[i]].Group? && path[i + 1] in net[path[i]].members)
    && net[path[|path| - 1]] == Single(true)
  }

  ghost predicate Simple(path: seq<string>) {
    forall i, j :: 0 <= i < j < |path| ==> path[i] != path[j]
  }

  lemma {:induction false} PingFollowsPath(net: Net, order: Schedule, id: string, ctx: Context, cells: Counters)
    returns (path: seq<string>)
    requires Bound(ctx, cells) && Fair(net, order) && Ping(net, order, id, ctx, cells).ok
    ensures LivePath(net, path) && path[0] == id
    decreases TotalRemaining(net.Keys, ctx, cells), 0, 0
  {
    path := [id];
    if net[id].Group? {
      var e := Enter(id, ctx, cells);
      EntryLowersRemaining(net.Keys, id, ctx, cells);
      var rest := MembersFollowPath(net, order, order(id, cells), e.ctx, e.cells);
      path := [id] + rest;
    }
  }

  lemma {:induction false} MembersFollowPath(
    net: Net, order: Schedule, members: seq<string>, ctx: Context, cells: Counters) returns (path: seq<string>)
    requires Bound(ctx, cells) && Fair(net, order) && PingMembers(net, order, members, ctx, cells).ok
    ensures LivePath(net, path) && path[0] in members
    decreases TotalRemaining(net.Keys, ctx, cells), 1, |members|
  {
    var a := Ping(net, order, members[0], ctx, cells);
    if a.ok {
      path := PingFollowsPath(net, order, members[0], ctx, cells);
    } else {
      GrowthLowersRemaining(net.Keys, ctx, cells, a.cells);
      path := MembersFollowPath(net, order, members[1..], ctx, a.cells);
    }
  }

  /** A path through Sets not entered yet is never cut off, whatever was tried before. */
  lemma {:induction false} PathAnswers(net: Net, order: Schedule, path: seq<string>, ctx: Context, cells: Counters)
    requires Bound(ctx, cells) && Fair(net, order)
    requires LivePath(net, path) && Simple(path) && forall i :: 0 <= i < |path| ==> path[i] !in ctx
    ensures Ping(net, order, path[0], ctx, cells).ok
    decreases |path|, 0
  {
    if |path| <= 1 {
    } else {
      var e := Enter(path[0], ctx, cells);
      assert path[1] in order(path[0], cells);
      assert LivePath(net, path[1..]);
      MembersAnswer(net, order, order(path[0], cells), path[1..], e.ctx, e.cells);
    }
  }

  lemma {:induction false} MembersAnswer(
    net: Net, order: Schedule, members: seq<string>, path: seq<string>, ctx: Context, cells: Counters)
    requires Bound(ctx, cells) && Fair(net, order)
    requires LivePath(net, path) && Simple(path) && forall i :: 0 <= i < |path| ==> path[i] !in ctx
    requires path[0] in members
    ensures PingMembers(net, order, members, ctx, cells).ok
    decreases |path|, 1, |members|
  {
    var a := Ping(net, order, members[0], ctx, cells);
    if members[0] == path[0] {
      PathAnswers(net, order, path, ctx, cells);
    } else if !a.ok {
      MembersAnswer(net, order, members[1..], path, ctx, a.cells);
    }
  }

  lemma {:induction false} CutLoops(net: Net, path: seq<string>) returns (short: seq<string>)
    requires LivePath(net, path)
    ensures LivePath(net, short) && Simple(short) && short[0] == path[0]
    decreases |path|
  {
    short := path;
    if i, j :| 0 <= i < j < |path| && path[i] == path[j] {
      short := CutLoops(net, path[..i] + path[j..]);
    }
  }

  /** The entry limit costs nothing: a Ping from outside answers exactly when some member that
      answers can be reached, on every graph of Sets and in every order of trial. */
  lemma PingReachesExactly(net: Net, order: Schedule, id: string)
    requires Fair(net, order)
    ensures Ping(net, order, id, map[], []).ok <==> exists path :: LivePath(net, path) && path[0] == id
  {
    if Ping(net, order, id, map[], []).ok {
      var path := PingFollowsPath(net, order, id, map[], []);
    }
    if path :| LivePath(net, path) && path[0] == id {
      var short := CutLoops(net, path);
      PathAnswers(net, order, short, map[], []);
    }
  }

  /** The racing dial reaches what Ping reaches: whatever runs beside it, no Set on the way to a
      member that answers is refused, if the way has no loop; and there is such a way if there is
      one at all. */
  lemma DialReachesLive(net: Net, path: seq<string>) returns (short: seq<string>)
    requires LivePath(net, path)
    ensures LivePath(net, short) && Simple(short) && short[0] == path[0]
    ensures AlwaysEnters(short[..|short| - 1], map[], []) && Chain(short[..|short| - 1], map[], [])
  {
    short := CutLoops(net, path);
    FreshAlwaysEnter(short[..|short| - 1], map[], []);
    AlwaysEntersIsChain(short[..|short| - 1], map[], []);
  }
}
