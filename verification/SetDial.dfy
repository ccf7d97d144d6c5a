/**
A dial through Sets of Sets: every Set on the way runs a race of its own, and the dial of a member
is itself a race when the member is a Set.  The race of each Set is the one of SetRace, and the
counters that end the recursion are those of SetNesting.
*/
module SetDial {
  import SetNesting
  import SetRace

  type Net = SetNesting.Net
  type Context = SetNesting.Context

  /** One dial, and the dials of the offers below it. */
  datatype Attempt =
    | Plain(ok: bool)
    | Refused
    | Race(config: SetRace.Config, steps: seq<SetRace.Step>, end: SetRace.State, offers: seq<Attempt>)

  predicate Succeeded(a: Attempt) {
    match a
    case Plain(ok) => ok
    case Refused => false
    case Race(_, _, end, _) => end.caller.Returned? && end.caller.result.Conn?
  }

  /** `a` is what may come of dialing a node, while goroutines elsewhere raise the counters.  A dial
      that is not cancelled from above fails only of itself. */
  ghost predicate Happens(net: Net, id: string, ctx: Context, cancelled: bool, a: Attempt)
    decreases a, 1
  {
    id in net &&
    match net[id]
    case Single(alive) => a.Plain? && (a.ok ==> alive) && (!cancelled ==> a.ok == alive)
    case Group(members) =>
      exists cells: SetNesting.Counters :: SetNesting.Bound(ctx, cells) &&
        var e := SetNesting.Enter(id, ctx, cells);
        if e.ok then a.Race? && Races(net, members, e.ctx, cancelled, a) else a.Refused?
  }

  /** The context of a race ends early only when its caller leaves with a connection or when it is
      cancelled from above, for it is cancelled from within after all dials have ended. */
  predicate EndsEarly(a: Attempt)
    requires a.Race?
  {
    SetRace.CancelParent in a.steps || (a.end.caller.Returned? && a.end.caller.result.Conn?)
  }

  /** So it is at every moment of a race: a dial under way finds the context cancelled only then. */
  lemma CancelledEarly(c: SetRace.Config, steps: seq<SetRace.Step>, s: SetRace.State, k: nat)
    requires SetRace.Run(c, SetRace.Init(c), steps, s)
    requires s.ctx.Some? && k < |s.dials| && SetRace.Running(s.dials[k]) && SetRace.CancelParent !in steps
    ensures s.caller.Returned? && s.caller.result.Conn?
  {
    SetRace.ReachableInv(c, steps, s);
    SetRace.OnlyParentBlamesParent(c, SetRace.Init(c), steps, s);
  }

  ghost predicate Races(net: Net, members: seq<string>, ctx: Context, cancelled: bool, a: Attempt)
    requires a.Race?
    decreases a, 0
  {
    && SetRace.Run(a.config, SetRace.Init(a.config), a.steps, a.end) && SetRace.Quiescent(a.end)
    && (SetRace.CancelParent in a.steps ==> cancelled)
    && SetNesting.Permutation(a.config.order, |members|)
    && |a.offers| == |a.config.order| == |a.end.dials|
    && (forall k :: 0 <= k < |a.offers| ==> a.config.order[k] < |members|)
    && (forall k :: 0 <= k < |a.offers| && a.end.dials[k].NoDialer? ==> members[a.config.order[k]] !in net)
    && (forall k :: 0 <= k < |a.offers| && Dialed(a.end.dials[k]) ==>
         && Happens(net, members[a.config.order[k]], ctx, EndsEarly(a), a.offers[k])
         && (SetRace.MadeConnection(a.end.dials[k]) <==> Succeeded(a.offers[k])))
  }

  predicate Dialed(d: SetRace.Dial) {
    !d.NotStarted? && !d.NoDialer?
  }

  /** A dial that succeeded at a Set was a race, and one offer delivered. */
  lemma WinningOffer(net: Net, id: string, ctx: Context, cancelled: bool, a: Attempt)
    returns (k: nat, below: Context)
    requires Happens(net, id, ctx, cancelled, a) && Succeeded(a) && net[id].Group?
    ensures a.Race? && k < |a.offers| == |a.config.order| && a.config.order[k] < |net[id].members|
    ensures Happens(net, net[id].members[a.config.order[k]], below, EndsEarly(a), a.offers[k])
    ensures Succeeded(a.offers[k])
  {
    var members := net[id].members;
    var cells: SetNesting.Counters :| SetNesting.Bound(ctx, cells) &&
      var e := SetNesting.Enter(id, ctx, cells);
      if e.ok then a.Race? && Races(net, members, e.ctx, cancelled, a) else a.Refused?;
    below := SetNesting.Enter(id, ctx, cells).ctx;
    SetRace.NoConnectionLeaks(a.config, a.steps, a.end);
    k := a.end.caller.result.offer;
  }

  /** A member on the way that answers is not missed. */
  lemma {:induction false} PathDelivers(net: Net, path: seq<string>, ctx: Context, a: Attempt)
    requires SetNesting.LivePath(net, path) && SetNesting.Simple(path)
    requires forall i :: 0 <= i < |path| ==> path[i] !in ctx
    requires Happens(net, path[0], ctx, false, a)
    ensures Succeeded(a)
    decreases |path|
  {
    if |path| == 1 {
    } else {
      var members := net[path[0]].members;
      var cells: SetNesting.Counters :| SetNesting.Bound(ctx, cells) &&
        var e := SetNesting.Enter(path[0], ctx, cells);
        if e.ok then a.Race? && Races(net, members, e.ctx, false, a) else a.Refused?;
      var below := SetNesting.Enter(path[0], ctx, cells).ctx;
      if !Succeeded(a) {
        SetRace.ErrorMeansAllFailed(a.config, a.steps, a.end);
        var k := OfferOf(members, a.config.order, path[1]);
        assert SetRace.HasError(a.end.dials[k]);
        assert SetNesting.LivePath(net, path[1..]);
        PathDelivers(net, path[1..], below, a.offers[k]);
      }
    }
  }

  /** Every member is offered somewhere. */
  lemma OfferOf(members: seq<string>, order: seq<nat>, m: string) returns (k: nat)
    requires SetNesting.Permutation(order, |members|) && m in members
    ensures k < |order| && order[k] < |members| && members[order[k]] == m
  {
    var i :| 0 <= i < |members| && members[i] == m;
    assert i in order;
    k :| 0 <= k < |order| && order[k] == i;
  }

  lemma PathOnward(net: Net, id: string, rest: seq<string>)
    requires SetNesting.LivePath(net, rest) && id in net && net[id].Group? && rest[0] in net[id].members
    ensures SetNesting.LivePath(net, [id] + rest)
  {
  }

  /** A connection comes from a member that answers, whatever was cancelled. */
  lemma {:induction false} DeliveredFollowsPath(net: Net, id: string, ctx: Context, cancelled: bool, a: Attempt)
    returns (path: seq<string>)
    requires Happens(net, id, ctx, cancelled, a) && Succeeded(a)
    ensures SetNesting.LivePath(net, path) && path[0] == id
    decreases a
  {
    path := [id];
    if net[id].Group? {
      var k, below := WinningOffer(net, id, ctx, cancelled, a);
      var rest := DeliveredFollowsPath(
        net, net[id].members[a.config.order[k]], below, EndsEarly(a), a.offers[k]);
      PathOnward(net, id, rest);
      path := [id] + rest;
    }
  }

  /** A dial that is not cancelled delivers a connection exactly when a member that answers can be
      reached, on every graph of Sets, in every interleaving of all races, and whatever goroutines
      elsewhere do to the counters. */
  lemma DialDeliversIff(net: Net, id: string, a: Attempt)
    requires Happens(net, id, map[], false, a)
    ensures Succeeded(a) <==> exists path :: SetNesting.LivePath(net, path) && path[0] == id
  {
    if Succeeded(a) {
      var path := DeliveredFollowsPath(net, id, map[], false, a);
    }
    if path :| SetNesting.LivePath(net, path) && path[0] == id {
      var short := SetNesting.CutLoops(net, path);
      PathDelivers(net, short, map[], a);
    }
  }

  // ---- There is always such a dial ---------------------------------------------------------

  /** What may come of a dial may also come of it when it is cancelled. */
  lemma HappensCancelled(net: Net, id: string, ctx: Context, a: Attempt)
    requires Happens(net, id, ctx, false, a)
    ensures Happens(net, id, ctx, true, a)
  {
    if net[id].Group? {
      var members := net[id].members;
      var cells: SetNesting.Counters :| SetNesting.Bound(ctx, cells) &&
        var e := SetNesting.Enter(id, ctx, cells);
        if e.ok then a.Race? && Races(net, members, e.ctx, false, a) else a.Refused?;
      var e := SetNesting.Enter(id, ctx, cells);
      assert e.ok ==> Races(net, members, e.ctx, true, a);
    }
  }

  ghost predicate Dials(net: Net, members: seq<string>, ctx: Context, cancelled: bool, dials: seq<Attempt>) {
    forall i :: 0 <= i < |dials| <= |members| && members[i] in net ==>
      Happens(net, members[i], ctx, cancelled, dials[i])
  }

  /** The members offered in their order. */
  ghost function InOrder(n: nat): (c: SetRace.Config)
    ensures SetNesting.Permutation(c.order, n) && |c.order| == n
  {
    NumbersArePermutation(n);
    SetRace.Config(seq(n, i => i), true, -1)
  }

  lemma NumbersArePermutation(n: nat)
    ensures SetNesting.Permutation(seq(n, i => i), n)
  {
    var order: seq<nat> := seq(n, i => i);
    forall k: nat | k < n ensures k in order {
      assert order[k] == k;
    }
  }

  ghost function Skipped(net: Net, members: seq<string>): seq<bool> {
    seq(|members|, i requires 0 <= i < |members| => members[i] !in net)
  }

  /** The race that the first dial which succeeds wins. */
  lemma WonRace(net: Net, members: seq<string>, ctx: Context, dials: seq<Attempt>, k: nat) returns (a: Attempt)
    requires |dials| == |members| && Dials(net, members, ctx, false, dials) && k < |members|
    requires members[k] in net && Succeeded(dials[k]) && NoneBefore(Skipped(net, members), dials, k)
    ensures a.Race? && Races(net, members, ctx, false, a)
  {
    var c := InOrder(|members|);
    var steps, end := SetRace.CanWin(c, Skipped(net, members), k);
    forall i | 0 <= i < |members| && members[i] in net ensures Happens(net, members[i], ctx, true, dials[i]) {
      HappensCancelled(net, members[i], ctx, dials[i]);
    }
    a := Race(c, steps, end, dials);
  }

  /** The race in which all dials fail. */
  lemma LostRace(net: Net, members: seq<string>, ctx: Context, dials: seq<Attempt>) returns (a: Attempt)
    requires |dials| == |members| && Dials(net, members, ctx, false, dials)
    requires NoneBefore(Skipped(net, members), dials, |members|)
    ensures a.Race? && Races(net, members, ctx, false, a)
  {
    var c := InOrder(|members|);
    var steps, end := SetRace.CanFail(c, Skipped(net, members));
    a := Race(c, steps, end, dials);
  }

  lemma SomeRace(net: Net, members: seq<string>, ctx: Context, dials: seq<Attempt>) returns (a: Attempt)
    requires |dials| == |members| && Dials(net, members, ctx, false, dials)
    ensures a.Race? && Races(net, members, ctx, false, a)
  {
    var skipped := Skipped(net, members);
    if k: nat :| k < |members| && !skipped[k] && Succeeded(dials[k]) && NoneBefore(skipped, dials, k) {
      a := WonRace(net, members, ctx, dials, k);
    } else {
      NoneAtAll(skipped, dials, |members|);
      a := LostRace(net, members, ctx, dials);
    }
  }

  ghost predicate NoneBefore(skipped: seq<bool>, dials: seq<Attempt>, k: nat) {
    |skipped| == |dials| && forall i :: 0 <= i < k <= |dials| && !skipped[i] ==> !Succeeded(dials[i])
  }

  lemma {:induction false} NoneAtAll(skipped: seq<bool>, dials: seq<Attempt>, n: nat)
    requires n <= |dials| == |skipped|
    requires forall k: nat :: k < |dials| && NoneBefore(skipped, dials, k) ==> skipped[k] || !Succeeded(dials[k])
    ensures NoneBefore(skipped, dials, n)
  {
    if n == 0 {
    } else {
      NoneAtAll(skipped, dials, n - 1);
    }
  }

  /** Every node that is stored can be dialed: on every graph something may come of it. */
  lemma {:induction false} SomeDial(net: Net, id: string, ctx: Context, cells: SetNesting.Counters)
    returns (a: Attempt)
    requires SetNesting.Bound(ctx, cells) && id in net
    ensures Happens(net, id, ctx, false, a)
    decreases |net.Keys - ctx.Keys|, 0
  {
    if net[id].Single? {
      a := Plain(net[id].alive);
    } else if id in ctx {
      var full := seq(|cells|, _ => SetNesting.MAX_ENTRIES);
      assert SetNesting.Bound(ctx, full) && !SetNesting.Enter(id, ctx, full).ok;
      a := Refused;
    } else {
      var e, members := SetNesting.Enter(id, ctx, cells), net[id].members;
      assert net.Keys - e.ctx.Keys == net.Keys - ctx.Keys - {id};
      var dials := SomeDials(net, members, e.ctx, e.cells, |members|);
      a := SomeRace(net, members, e.ctx, dials);
    }
  }

  lemma {:induction false} SomeDials(net: Net, members: seq<string>, ctx: Context, cells: SetNesting.Counters, n: nat)
    returns (dials: seq<Attempt>)
    requires SetNesting.Bound(ctx, cells) && n <= |members|
    ensures |dials| == n && Dials(net, members, ctx, false, dials)
    decreases |net.Keys - ctx.Keys|, n + 1
  {
    if n == 0 {
      dials := [];
    } else {
      dials := SomeDials(net, members, ctx, cells, n - 1);
      var last := Refused;
      if members[n - 1] in net {
        last := SomeDial(net, members[n - 1], ctx, cells);
      }
      dials := dials + [last];
    }
  }

  /** So a live member that can be reached is reached by some dial. */
  lemma LiveIsDelivered(net: Net, path: seq<string>) returns (a: Attempt)
    requires SetNesting.LivePath(net, path)
    ensures Happens(net, path[0], map[], false, a) && Succeeded(a)
  {
    a := SomeDial(net, path[0], map[], []);
    DialDeliversIff(net, path[0], a);
  }
}
