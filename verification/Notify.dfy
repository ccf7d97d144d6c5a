/**
Connection events are collected and handed out in batches: first the removals, then the
additions.  A subscriber that applies the batches to its own list should always end up with
the live connections.
*/
module Notify {
  import opened Options

  /** `id` is the decimal id of the connection, `info` whatever else is known of it. */
  datatype Conn = Conn(id: nat, info: nat)

  type Conns = map<nat, Conn>

  datatype Batch = Batch(removed: set<nat>, added: Conns)

  class Store {
    var added: Conns
    var removed: set<nat>
    var length: nat

    /** The length counts at least what is pending, so that it never underflows. */
    ghost predicate Valid()
      reads this
    {
      length >= |added| + |removed|
    }

    constructor ()
      ensures Valid() && added == map[] && removed == {} && length == 0
    {
      added, removed, length := map[], {}, 0;
    }

    method Push(c: Conn) returns (n: nat)
      requires Valid()
      modifies this
      ensures Valid() && n == length == old(length) + 1
      ensures Pending(added, removed) == PushTo(old(Pending(added, removed)), c)
    {
      assert added[c.id := c].Keys == added.Keys + {c.id};
      added := added[c.id := c];
      length := length + 1;
      n := length;
    }

    method Remove(id: nat) returns (n: nat)
      requires Valid()
      modifies this
      ensures Valid() && n == length == (if id in old(added) then old(length) - 1 else old(length) + 1)
      ensures Pending(added, removed) == RemoveFrom(old(Pending(added, removed)), id)
    {
      if id in added {
        assert (added - {id}).Keys == added.Keys - {id};
        added := added - {id};
        length := length - 1;
      } else {
        length := length + 1;
        removed := removed + {id};
      }
      n := length;
    }

    method Dump() returns (b: Batch)
      requires Valid()
      modifies this
      ensures Valid() && length == 0
      ensures b == Batch(old(removed), old(added)) && Pending(added, removed) == NOTHING
    {
      b := Batch(removed, added);
      added, removed, length := map[], {}, 0;
    }
  }

  // ---- What is pending ----------------------------------------------------------------

  datatype Pending = Pending(added: Conns, removed: set<nat>)

  const NOTHING := Pending(map[], {})

  function PushTo(p: Pending, c: Conn): Pending {
    p.(added := p.added[c.id := c])
  }

  /** A connection that was not announced yet is simply forgotten. */
  function RemoveFrom(p: Pending, id: nat): Pending {
    if id in p.added then p.(added := p.added - {id}) else p.(removed := p.removed + {id})
  }

  /** What a subscriber does with a batch. */
  function Receive(view: Conns, b: Batch): Conns {
    (view - b.removed) + b.added
  }

  /** The next batch will bring the view to the live connections. */
  ghost predicate InStep(view: Conns, p: Pending, live: Conns) {
    Receive(view, Batch(p.removed, p.added)) == live
  }

  lemma PushInStep(view: Conns, p: Pending, live: Conns, c: Conn)
    requires InStep(view, p, live)
    ensures InStep(view, PushTo(p, c), live[c.id := c])
  {
  }

  /** A removal is lost on a subscriber exactly when the connection is pending although the
      subscriber has it already. */
  lemma RemoveInStepIff(view: Conns, p: Pending, live: Conns, id: nat)
    requires InStep(view, p, live)
    ensures InStep(view, RemoveFrom(p, id), live - {id})
            <==> !(id in p.added && id in view && id !in p.removed)
  {
    var q := RemoveFrom(p, id);
    var next := Receive(view, Batch(q.removed, q.added));
    if id in p.added && id in view && id !in p.removed {
      assert id in next && id !in live - {id};
    } else {
      assert next == live - {id};
    }
  }

  lemma DumpInStep(view: Conns, p: Pending, live: Conns)
    requires InStep(view, p, live)
    ensures Receive(view, Batch(p.removed, p.added)) == live && InStep(live, NOTHING, live)
  {
    assert live - {} + map[] == live;
  }

  // ---- Whole runs ---------------------------------------------------------------------

  /** A connection is stored and, later, pushed to the collector; it leaves the store and, later, its
      removal is recorded.  A batch is dumped and, later, delivered to whoever is registered. */
  datatype Event =
    | Stored(c: Conn)
    | Pushed(id: nat)
    | Left(id: nat)
    | Recorded(id: nat)
    | Dumped
    | Delivered
    | Registered

  /** A subscriber with the snapshot it was given and what it received since, next to the collector.
      `live` is the store, `waiting` are connections stored and not pushed yet, `told` those pushed
      whose removal is not recorded, `ever` all connections there have been. */
  datatype World = World(
    view: Conns, registered: bool, batch: Option<Batch>, pending: Pending,
    live: Conns, told: Conns, waiting: Conns, ever: Conns)

  /** Ids are never used again, and connections are removed after they were pushed, possibly often. */
  ghost predicate Possible(w: World, e: Event) {
    match e
    case Stored(c) => c.id !in w.ever
    case Pushed(id) => id in w.waiting
    case Left(id) => id in w.ever && id !in w.waiting
    case Recorded(id) => id in w.ever && id !in w.waiting && id !in w.live
    case Dumped => w.batch.None?
    case Delivered => w.batch.Some?
    case Registered => !w.registered
  }

  ghost function Step(w: World, e: Event): World
    requires Possible(w, e)
  {
    match e
    case Stored(c) => w.(live := w.live[c.id := c], waiting := w.waiting[c.id := c], ever := w.ever[c.id := c])
    case Pushed(id) =>
      var c := w.waiting[id];
      w.(pending := PushTo(w.pending, c), told := w.told[c.id := c], waiting := w.waiting - {id})
    case Left(id) => w.(live := w.live - {id})
    case Recorded(id) => w.(pending := RemoveFrom(w.pending, id), told := w.told - {id})
    case Dumped => w.(batch := Some(Batch(w.pending.removed, w.pending.added)), pending := NOTHING)
    case Delivered => w.(batch := None, view := if w.registered then Receive(w.view, w.batch.value) else w.view)
    case Registered => w.(registered := true)
  }

  ghost predicate Orderly(w: World, events: seq<Event>)
    decreases |events|
  {
    events == [] || (Possible(w, events[0]) && Orderly(Step(w, events[0]), events[1..]))
  }

  ghost function Run(w: World, events: seq<Event>): World
    requires Orderly(w, events)
    decreases |events|
  {
    if events == [] then w else Run(Step(w, events[0]), events[1..])
  }

  ghost predicate Sub(m: Conns, ever: Conns) {
    forall id :: id in m ==> id in ever && ever[id] == m[id]
  }

  /** How the store, the collector and the batch under way fit together. */
  ghost predicate Timely(w: World) {
    && (forall id :: id in w.ever ==> w.ever[id].id == id)
    && Sub(w.view, w.ever) && Sub(w.live, w.ever) && Sub(w.told, w.ever) && Sub(w.waiting, w.ever)
    && Sub(w.pending.added, w.ever) && w.pending.removed <= w.ever.Keys
    && w.waiting.Keys <= w.live.Keys <= w.told.Keys + w.waiting.Keys && w.waiting.Keys !! w.told.Keys
    && w.pending.added.Keys <= w.told.Keys && w.pending.removed !! w.told.Keys + w.waiting.Keys
    && (w.batch.Some? ==> BatchTimely(w, w.batch.value))
  }

  ghost predicate BatchTimely(w: World, b: Batch) {
    && Sub(b.added, w.ever) && b.removed <= w.ever.Keys && b.removed !! w.told.Keys + w.waiting.Keys
    && b.added.Keys !! w.pending.added.Keys && b.added.Keys !! w.waiting.Keys
    && b.added.Keys <= w.told.Keys + w.pending.removed
  }

  lemma StoredTimely(w: World, c: Conn)
    requires Timely(w) && Possible(w, Stored(c))
    ensures Timely(Step(w, Stored(c)))
  {
  }

  lemma PushedTimely(w: World, id: nat)
    requires Timely(w) && Possible(w, Pushed(id))
    ensures Timely(Step(w, Pushed(id)))
  {
  }

  lemma RecordedTimely(w: World, id: nat)
    requires Timely(w) && Possible(w, Recorded(id))
    ensures Timely(Step(w, Recorded(id)))
  {
  }

  lemma StepTimely(w: World, e: Event)
    requires Timely(w) && Possible(w, e)
    ensures Timely(Step(w, e))
  {
    match e
    case Stored(c) => StoredTimely(w, c);
    case Pushed(id) => PushedTimely(w, id);
    case Recorded(id) => RecordedTimely(w, id);
    case _ =>
  }

  lemma {:induction false} RunTimely(w: World, events: seq<Event>)
    requires Timely(w) && Orderly(w, events)
    ensures Timely(Run(w, events))
    decreases |events|
  {
    if events == [] {
    } else {
      StepTimely(w, events[0]);
      RunTimely(Step(w, events[0]), events[1..]);
    }
  }

  // ---- Being up to date ----------------------------------------------------------------

  /** The view once the batch under way has arrived. */
  ghost function Base(w: World): Conns {
    if w.batch.Some? then Receive(w.view, w.batch.value) else w.view
  }

  /** The view once the next batch has arrived too. */
  ghost function Coming(w: World): Conns {
    Receive(Base(w), Batch(w.pending.removed, w.pending.added))
  }

  /** What is announced and open will be in the view, and nothing whose removal is recorded. */
  ghost predicate UpToDate(w: World) {
    && (forall id :: id in w.told && id in w.live ==> id in Coming(w))
    && (forall id :: id in Coming(w) ==> id in w.told || id in w.waiting)
  }

  /** Nothing in the view is pending as added or still to be pushed. */
  ghost predicate NothingTwice(w: World) {
    Base(w).Keys !! w.pending.added.Keys && Base(w).Keys !! w.waiting.Keys
  }

  ghost predicate Good(w: World) {
    UpToDate(w) && NothingTwice(w)
  }

  ghost predicate StaysUpToDate(w: World) {
    forall events :: Orderly(w, events) ==> UpToDate(Run(w, events))
  }

  lemma PushedKeepsGood(w: World, id: nat)
    requires Timely(w) && Good(w) && Possible(w, Pushed(id))
    ensures Good(Step(w, Pushed(id)))
  {
  }

  lemma RecordedKeepsGood(w: World, id: nat)
    requires Timely(w) && Good(w) && Possible(w, Recorded(id))
    ensures Good(Step(w, Recorded(id)))
  {
  }

  lemma DumpedKeepsGood(w: World)
    requires Timely(w) && Good(w) && Possible(w, Dumped)
    ensures Good(Step(w, Dumped))
  {
    assert Coming(Step(w, Dumped)) == Coming(w);
  }

  lemma StepKeepsGood(w: World, e: Event)
    requires Timely(w) && Good(w) && Possible(w, e) && (e.Delivered? ==> w.registered)
    ensures Good(Step(w, e))
  {
    match e
    case Pushed(id) => PushedKeepsGood(w, id);
    case Recorded(id) => RecordedKeepsGood(w, id);
    case Dumped => DumpedKeepsGood(w);
    case _ =>
  }

  lemma {:induction false} RunKeepsGood(w: World, events: seq<Event>)
    requires Timely(w) && Good(w) && w.registered && Orderly(w, events)
    ensures Good(Run(w, events)) && Run(w, events).registered
    decreases |events|
  {
    if events == [] {
    } else {
      StepTimely(w, events[0]);
      StepKeepsGood(w, events[0]);
      RunKeepsGood(Step(w, events[0]), events[1..]);
    }
  }

  lemma RunOne(w: World, e: Event)
    requires Possible(w, e)
    ensures Orderly(w, [e]) && Run(w, [e]) == Step(w, e)
  {
    assert [e][1..] == [];
  }

  lemma {:induction false} RunJoin(w: World, a: seq<Event>, b: seq<Event>)
    requires Orderly(w, a) && Orderly(Run(w, a), b)
    ensures Orderly(w, a + b) && Run(w, a + b) == Run(Run(w, a), b)
    decreases |a|
  {
    if a == [] {
      assert a + b == b;
    } else {
      assert (a + b)[1..] == a[1..] + b;
      RunJoin(Step(w, a[0]), a[1..], b);
    }
  }

  /** A connection in the view that is pending as added closes, and its removal is lost. */
  lemma PendingIsKept(w: World, id: nat)
    requires Timely(w) && id in Base(w) && id in w.pending.added
    ensures !StaysUpToDate(w)
  {
    var u := Step(w, Left(id));
    var v := Step(u, Recorded(id));
    RunOne(w, Left(id));
    RunOne(u, Recorded(id));
    RunJoin(w, [Left(id)], [Recorded(id)]);
    assert id in Coming(v) && !UpToDate(v);
  }

  /** So it is with one that is pushed after it was given to the subscriber. */
  lemma WaitingIsKept(w: World, id: nat)
    requires Timely(w) && id in Base(w) && id in w.waiting
    ensures !StaysUpToDate(w)
  {
    var u := Step(w, Pushed(id));
    StepTimely(w, Pushed(id));
    assert Base(u) == Base(w);
    PendingIsKept(u, id);
    var events :| Orderly(u, events) && !UpToDate(Run(u, events));
    RunOne(w, Pushed(id));
    RunJoin(w, [Pushed(id)], events);
  }

  /** A registered subscriber stays up to date in every run exactly when it is up to date now, and
      nothing in its view is pending as added or still to be pushed. */
  lemma JoinInStepIff(w: World)
    requires Timely(w) && w.registered
    ensures StaysUpToDate(w) <==> Good(w)
  {
    if Good(w) {
      forall events | Orderly(w, events) ensures UpToDate(Run(w, events)) {
        RunKeepsGood(w, events);
      }
    } else if !UpToDate(w) {
      assert Orderly(w, []) && Run(w, []) == w;
    } else if id :| id in Base(w) && id in w.pending.added {
      PendingIsKept(w, id);
    } else {
      var id :| id in Base(w) && id in w.waiting;
      WaitingIsKept(w, id);
    }
  }

  /** Whenever no connection is half opened or half closed, the next batch brings a good subscriber to
      exactly the live connections. */
  lemma ViewIsLive(w: World, events: seq<Event>)
    requires Timely(w) && Good(w) && w.registered && Orderly(w, events)
    ensures var v := Run(w, events); v.waiting == map[] && v.told == v.live ==> Coming(v) == v.live
  {
    RunTimely(w, events);
    RunKeepsGood(w, events);
    var v := Run(w, events);
    assert Sub(Base(v), v.ever) && Sub(Coming(v), v.ever);
  }

  /** A subscriber that is up to date gets a new connection with the next batch, and loses it again
      with the batch after it closed. */
  lemma ComesAndGoes(w: World, c: Conn) returns (v: World, u: World)
    requires Timely(w) && Good(w) && w.registered && w.batch.None? && c.id !in w.ever
    ensures Orderly(w, [Stored(c), Pushed(c.id), Dumped, Delivered])
    ensures v == Run(w, [Stored(c), Pushed(c.id), Dumped, Delivered])
    ensures c.id in v.live && c.id in v.view && v.view[c.id] == c
    ensures Orderly(v, [Left(c.id), Recorded(c.id), Dumped, Delivered])
    ensures u == Run(v, [Left(c.id), Recorded(c.id), Dumped, Delivered])
    ensures c.id !in u.live && c.id !in u.view
  {
    RunFour(w, Stored(c), Pushed(c.id), Dumped, Delivered);
    v := Run(w, [Stored(c), Pushed(c.id), Dumped, Delivered]);
    RunFour(v, Left(c.id), Recorded(c.id), Dumped, Delivered);
    u := Run(v, [Left(c.id), Recorded(c.id), Dumped, Delivered]);
  }

  lemma RunFour(w: World, a: Event, b: Event, c: Event, d: Event)
    requires Possible(w, a) && Possible(Step(w, a), b) && Possible(Step(Step(w, a), b), c)
    requires Possible(Step(Step(Step(w, a), b), c), d)
    ensures Orderly(w, [a, b, c, d]) && Run(w, [a, b, c, d]) == Step(Step(Step(Step(w, a), b), c), d)
  {
    var w1 := Step(w, a);
    var w2 := Step(w1, b);
    var w3 := Step(w2, c);
    RunOne(w, a);
    RunOne(w1, b);
    RunJoin(w, [a], [b]);
    RunOne(w2, c);
    RunJoin(w, [a] + [b], [c]);
    RunOne(w3, d);
    RunJoin(w, [a] + [b] + [c], [d]);
    assert [a] + [b] + [c] + [d] == [a, b, c, d];
  }

  // ---- From the snapshot to the registration ---------------------------------------------

  ghost predicate Empty(b: Batch) {
    b.removed == {} && b.added == map[]
  }

  /** Every batch delivered is empty, or was under way already (`early`) when the snapshot was taken. */
  ghost predicate NothingMissed(w: World, events: seq<Event>, early: bool)
    requires Orderly(w, events)
    decreases |events|
  {
    events == [] ||
    (&& (events[0].Delivered? ==> early || Empty(w.batch.value))
     && NothingMissed(Step(w, events[0]), events[1..], early && !events[0].Delivered?))
  }

  /** Good, also if the batch that was under way at the snapshot does not arrive. */
  ghost predicate GoodEitherWay(w: World, early: bool) {
    Good(w) && (early ==> w.batch.Some? && Good(w.(batch := None)))
  }

  lemma SnapshotIsGood(w: World)
    requires Timely(w) && w.view == w.live && w.waiting == map[] && w.pending.added.Keys !! w.live.Keys
    ensures GoodEitherWay(w, w.batch.Some?)
  {
  }

  lemma StepGoodEitherWay(w: World, e: Event, early: bool)
    requires Timely(w) && GoodEitherWay(w, early) && Possible(w, e) && !w.registered && !e.Registered?
    requires e.Delivered? ==> early || Empty(w.batch.value)
    ensures GoodEitherWay(Step(w, e), early && !e.Delivered?)
  {
    if e.Delivered? {
      var v := Step(w, e);
      assert !early ==> Receive(w.view, w.batch.value) == w.view;
    } else {
      StepKeepsGood(w, e);
      if early {
        StepKeepsGood(w.(batch := None), e);
        assert Step(w.(batch := None), e) == Step(w, e).(batch := None);
      }
    }
  }

  lemma {:induction false} RunGoodEitherWay(w: World, events: seq<Event>, early: bool)
    requires Timely(w) && GoodEitherWay(w, early) && !w.registered && Orderly(w, events)
    requires Registered !in events && NothingMissed(w, events, early)
    ensures Good(Run(w, events)) && !Run(w, events).registered
    decreases |events|
  {
    if events == [] {
    } else {
      assert events[0] in events;
      StepTimely(w, events[0]);
      StepGoodEitherWay(w, events[0], early);
      RunGoodEitherWay(Step(w, events[0]), events[1..], early && !events[0].Delivered?);
    }
  }

  lemma GoodWhenRegistering(w: World)
    requires Timely(w) && Good(w) && !w.registered
    ensures StaysUpToDate(Step(w, Registered))
  {
    var v := Step(w, Registered);
    StepTimely(w, Registered);
    assert Base(v) == Base(w) && Coming(v) == Coming(w);
    JoinInStepIff(v);
  }

  /** A subscriber stays up to date for ever if nothing of its snapshot was pending as added or still
      to be pushed, and no batch with anything in it was dumped and delivered until it registered. */
  lemma QuietJoin(w: World, events: seq<Event>)
    requires Timely(w) && !w.registered && w.view == w.live && w.waiting == map[]
    requires w.pending.added.Keys !! w.live.Keys
    requires Orderly(w, events) && Registered !in events && NothingMissed(w, events, w.batch.Some?)
    ensures var v := Run(w, events); !v.registered && StaysUpToDate(Step(v, Registered))
  {
    SnapshotIsGood(w);
    RunTimely(w, events);
    RunGoodEitherWay(w, events, w.batch.Some?);
    GoodWhenRegistering(Run(w, events));
  }

  // ---- What goes wrong otherwise ---------------------------------------------------------

  /** Registered with the snapshot, while only `c` is open: `told` when it was pushed already. */
  ghost function Alone(c: Conn, told: bool, pending: Pending): World {
    var one := map[c.id := c];
    World(one, true, None, pending, one, if told then one else map[], if told then map[] else one, one)
  }

  /** The snapshot has `c`, which is pending as added: the removal is lost. */
  lemma JoinedTooEarly(c: Conn)
    ensures var w := Alone(c, true, Pending(map[c.id := c], {})); Timely(w) && !StaysUpToDate(w)
  {
    PendingIsKept(Alone(c, true, Pending(map[c.id := c], {})), c.id);
  }

  /** The snapshot has `c`, which is stored and pushed only later: the removal is lost. */
  lemma JoinedBeforePush(c: Conn)
    ensures var w := Alone(c, false, NOTHING); Timely(w) && !StaysUpToDate(w)
  {
    WaitingIsKept(Alone(c, false, NOTHING), c.id);
  }

  /** `c` closes after the snapshot, and the batch goes out before the registration. */
  lemma MissedRemoval(c: Conn)
    ensures var w := Alone(c, true, NOTHING).(registered := false);
            var events := [Left(c.id), Recorded(c.id), Dumped, Delivered, Registered];
            && Timely(w) && Orderly(w, events)
            && Run(w, events).view == map[c.id := c] && Run(w, events).live == map[]
            && !StaysUpToDate(Run(w, events))
  {
    var w := Alone(c, true, NOTHING).(registered := false);
    var w1 := Step(w, Left(c.id));
    var w2 := Step(w1, Recorded(c.id));
    var w3 := Step(w2, Dumped);
    var w4 := Step(w3, Delivered);
    var w5 := Step(w4, Registered);
    RunFive(w, Left(c.id), Recorded(c.id), Dumped, Delivered, Registered);
    assert Orderly(w5, []) && Run(w5, []) == w5;
    assert c.id in Coming(w5) && !UpToDate(w5);
  }

  lemma RunFive(w: World, a: Event, b: Event, c: Event, d: Event, e: Event)
    requires Possible(w, a) && Possible(Step(w, a), b) && Possible(Step(Step(w, a), b), c)
    requires Possible(Step(Step(Step(w, a), b), c), d) && Possible(Step(Step(Step(Step(w, a), b), c), d), e)
    ensures Orderly(w, [a, b, c, d, e])
    ensures Run(w, [a, b, c, d, e]) == Step(Step(Step(Step(Step(w, a), b), c), d), e)
  {
    RunFour(w, a, b, c, d);
    RunOne(Run(w, [a, b, c, d]), e);
    RunJoin(w, [a, b, c, d], [e]);
    assert [a, b, c, d] + [e] == [a, b, c, d, e];
  }

  /** A batch that was missed may be harmless: it removed a connection the snapshot never had. */
  lemma MissedHarmless(c: Conn, w: World)
    requires w == Alone(c, true, NOTHING).(registered := false, view := map[], live := map[])
    ensures Timely(w) && w.view == w.live
    ensures var events := [Recorded(c.id), Dumped, Delivered, Registered];
            && Orderly(w, events) && !NothingMissed(w, events, false) && StaysUpToDate(Run(w, events))
  {
    var w1 := Step(w, Recorded(c.id));
    var w2 := Step(w1, Dumped);
    var w3 := Step(w2, Delivered);
    var w4 := Step(w3, Registered);
    var events := [Recorded(c.id), Dumped, Delivered, Registered];
    assert events[1..] == [Dumped, Delivered, Registered];
    assert events[1..][1..] == [Delivered, Registered];
    assert events[1..][1..][1..] == [Registered];
    RunOne(w3, Registered);
    assert Orderly(w2, [Delivered, Registered]) && Run(w2, [Delivered, Registered]) == w4;
    assert !NothingMissed(w2, [Delivered, Registered], false);
    assert Orderly(w1, [Dumped, Delivered, Registered]);
    assert !NothingMissed(w1, [Dumped, Delivered, Registered], false);
    StepTimely(w, Recorded(c.id));
    JoinInStepIff(w4);
  }

  /** A connection whose removal is recorded before it is pushed is announced and never removed. */
  lemma RemovedBeforePush(view: Conns, c: Conn)
    ensures var p := PushTo(RemoveFrom(NOTHING, c.id), c);
            c.id in Receive(view, Batch(p.removed, p.added))
  {
  }
}
