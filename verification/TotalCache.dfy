/** 64-bit unsigned arithmetic. */
module Words {

  const B: int := 0x1_0000_0000_0000_0000

  type u64 = x: int | 0 <= x < B

  /** A 64-bit counter starts over at either end of its range. */
  function Wrap(x: int): u64
    decreases if x < 0 then B - x else x
  {
    if x < 0 then Wrap(x + B) else if x < B then x else Wrap(x - B)
  }

  lemma WrapShift(x: int)
    ensures Wrap(x + B) == Wrap(x)
  {
  }

  lemma {:induction false} WrapAdd(x: int, y: int)
    ensures Wrap(Wrap(x) + y) == Wrap(x + y)
    decreases if x < 0 then B - x else x
  {
    if x < 0 {
      WrapAdd(x + B, y);
      WrapShift(x + y);
    } else if x >= B {
      WrapAdd(x - B, y);
      WrapShift(x + y - B);
    }
  }

  /** Two amounts less than a whole turn apart look alike only if they are the same. */
  lemma WrapOffBy(x: int, d: u64)
    ensures Wrap(x + d) == Wrap(x) <==> d == 0
  {
    WrapAdd(x, d);
  }
}

/**
Traffic totals: any number of goroutines add bytes, one worker moves what was added into the
running total and writes it to the database, and Close writes the rest.  A run interleaves
their atomic operations in any order.  Counters are 64 bits wide and wrap.
*/
module TotalCache {
  import opened Words

  // ---- One direction ----------------------------------------------------------------

  /** The pending bytes that the worker, or Close, has taken in hand. */
  datatype Hand =
    | Empty
    | Held(delta: u64)                // read off the pending counter
    | Moved(delta: u64, total: u64)   // added to the running total, which is now `total`
    | Tried(delta: u64, ok: bool)     // the write has succeeded or failed

  /** `last`, `synced` and `pending` are the counters, `stored` and `hourly` the database.  The
      rest is history: all bytes added, moved to the running total, taken off the pending
      counter, in hourly deltas whose write failed, and added when `hand` was filled. */
  datatype Dir = Dir(
    last: u64,
    synced: u64,
    pending: u64,
    hand: Hand,
    stored: u64,
    hourly: nat,
    added: nat,
    moved: nat,
    settled: nat,
    lost: nat,
    seen: nat)

  /** What LoadDownload and LoadUpload report. */
  function Total(d: Dir): u64 {
    Wrap(d.last + d.synced + d.pending)
  }

  function AddBytes(d: Dir, n: u64): Dir {
    d.(pending := Wrap(d.pending + n), added := d.added + n)
  }

  function Take(d: Dir): Dir {
    d.(hand := Held(d.pending), seen := d.added)
  }

  function Move(d: Dir): Dir
    requires d.hand.Held?
  {
    var synced := Wrap(d.synced + d.hand.delta);
    d.(synced := synced, moved := d.moved + d.hand.delta, hand := Moved(d.hand.delta, Wrap(d.last + synced)))
  }

  /** The transaction that writes the total and adds to the hourly delta. */
  function Write(d: Dir, ok: bool): Dir
    requires d.hand.Moved?
  {
    var Moved(delta, total) := d.hand;
    if ok then d.(stored := total, hourly := d.hourly + delta, hand := Tried(delta, true))
    else d.(lost := d.lost + delta, hand := Tried(delta, false))
  }

  function Settle(d: Dir): Dir
    requires d.hand.Tried?
  {
    d.(pending := Wrap(d.pending - d.hand.delta), settled := d.settled + d.hand.delta, hand := Empty)
  }

  // ---- The whole cache --------------------------------------------------------------

  datatype Which = Down | Up

  function Other(w: Which): Which {
    if w.Down? then Up else Down
  }

  /** `Ready` has also read the total of the other direction. */
  datatype Worker = Idle | Busy(w: Which) | Ready(w: Which, other: u64) | Stopped

  datatype Closer = Open | Cancelled | Closing | Closed(ok: bool)

  datatype State = State(down: Dir, up: Dir, worker: Worker, closer: Closer)

  function Get(s: State, w: Which): Dir {
    if w.Down? then s.down else s.up
  }

  function Set(s: State, w: Which, d: Dir): State {
    if w.Down? then s.(down := d) else s.(up := d)
  }

  datatype Step =
    | Add(w: Which, n: u64)
    | WorkerTakes(w: Which)
    | WorkerMoves
    | WorkerReads
    | WorkerWrites(ok: bool)
    | WorkerSettles
    | Cancel
    | WorkerStops
    | CloseTakes(w: Which)
    | CloseMoves(w: Which)
    | CloseWrites(ok: bool)

  predicate Enabled(s: State, a: Step) {
    match a
    case Add(_, _) => true
    case WorkerTakes(_) => s.worker.Idle?
    case WorkerMoves => s.worker.Busy? && Get(s, s.worker.w).hand.Held?
    case WorkerReads => s.worker.Busy? && Get(s, s.worker.w).hand.Moved?
    case WorkerWrites(_) => s.worker.Ready? && Get(s, s.worker.w).hand.Moved?
    case WorkerSettles => s.worker.Busy? && Get(s, s.worker.w).hand.Tried?
    case Cancel => s.closer.Open?
    case WorkerStops => s.worker.Idle? && !s.closer.Open?
    case CloseTakes(w) =>
      s.worker.Stopped?
      && (if w.Down? then s.closer.Cancelled? else s.closer.Closing? && s.down.hand.Held? && s.up.hand.Empty?)
    case CloseMoves(w) =>
      s.closer.Closing? && s.up.hand.Held? && (if w.Down? then s.down.hand.Held? else s.down.hand.Moved?)
    case CloseWrites(_) => s.closer.Closing? && s.down.hand.Moved? && s.up.hand.Moved?
  }

  function Apply(s: State, a: Step): State
    requires Enabled(s, a)
  {
    match a
    case Add(w, n) => Set(s, w, AddBytes(Get(s, w), n))
    case WorkerTakes(w) => Set(s, w, Take(Get(s, w))).(worker := Busy(w))
    case WorkerMoves => Set(s, s.worker.w, Move(Get(s, s.worker.w)))
    case WorkerReads => s.(worker := Ready(s.worker.w, Total(Get(s, Other(s.worker.w)))))
    case WorkerWrites(ok) =>
      var w, o := s.worker.w, Other(s.worker.w);
      var t := Set(s, w, Write(Get(s, w), ok)).(worker := Busy(w));
      if ok then Set(t, o, Get(t, o).(stored := s.worker.other)) else t
    case WorkerSettles => Set(s, s.worker.w, Settle(Get(s, s.worker.w))).(worker := Idle)
    case Cancel => s.(closer := Cancelled)
    case WorkerStops => s.(worker := Stopped)
    case CloseTakes(w) => Set(s, w, Take(Get(s, w))).(closer := Closing)
    case CloseMoves(w) => Set(s, w, Move(Get(s, w)))
    case CloseWrites(ok) => s.(down := Write(s.down, ok), up := Write(s.up, ok), closer := Closed(ok))
  }

  /** `last` is what the database held, or 0 when it could not be read. */
  function Start(last: u64, stored: u64): Dir {
    Dir(last, 0, 0, Empty, stored, 0, 0, 0, 0, 0, 0)
  }

  predicate Init(s: State) {
    && s.down == Start(s.down.last, s.down.stored) && s.up == Start(s.up.last, s.up.stored)
    && s.worker.Idle? && s.closer.Open?
  }

  predicate Run(s: State, steps: seq<Step>, t: State)
    decreases |steps|
  {
    if steps == [] then s == t
    else Enabled(s, steps[0]) && Run(Apply(s, steps[0]), steps[1..], t)
  }

  // ---- Conservation -----------------------------------------------------------------

  /** Bytes that are already in the running total and still pending. */
  function InFlight(d: Dir): nat {
    if d.hand.Moved? || d.hand.Tried? then d.hand.delta else 0
  }

  ghost predicate Conserved(d: Dir) {
    && d.moved == d.settled + InFlight(d)
    && d.moved == d.hourly + d.lost + (if d.hand.Moved? then d.hand.delta else 0)
    && d.synced == Wrap(d.moved)
    && d.pending == Wrap(d.added - d.settled)
  }

  lemma AddConserves(d: Dir, n: u64)
    requires Conserved(d)
    ensures Conserved(AddBytes(d, n))
  {
    WrapAdd(d.added - d.settled, n);
  }

  lemma MoveConserves(d: Dir)
    requires Conserved(d) && d.hand.Held?
    ensures Conserved(Move(d))
  {
    WrapAdd(d.moved, d.hand.delta);
  }

  lemma SettleConserves(d: Dir)
    requires Conserved(d) && d.hand.Tried?
    ensures Conserved(Settle(d))
  {
    WrapAdd(d.added - d.settled, 0 - d.hand.delta);
  }

  /** Nobody takes bytes in hand while somebody else has some. */
  ghost predicate Exclusive(s: State) {
    && (s.worker.Idle? ==> s.down.hand.Empty? && s.up.hand.Empty?)
    && (s.worker.Busy? || s.worker.Ready? ==> Get(s, Other(s.worker.w)).hand.Empty?)
    && (s.worker.Ready? ==> Get(s, s.worker.w).hand.Moved?)
    && (!s.worker.Stopped? ==> s.closer.Open? || s.closer.Cancelled?)
    && (s.worker.Stopped? ==> !s.closer.Open?)
    && (s.worker.Stopped? && s.closer.Cancelled? ==> s.down.hand.Empty? && s.up.hand.Empty?)
    && (s.closer.Closed? ==> s.down.hand.Tried? && s.up.hand.Tried?)
    && (s.closer.Closed? ==> s.down.hand.ok == s.up.hand.ok == s.closer.ok)
  }

  lemma StepExclusive(s: State, a: Step)
    requires Exclusive(s) && Enabled(s, a)
    ensures Exclusive(Apply(s, a))
  {
  }

  /** What a step can do to one direction, apart from the total that is written beside the
      other direction's. */
  ghost predicate Local(d: Dir, e: Dir) {
    || d == e
    || (exists n: u64 :: e == AddBytes(d, n))
    || (d.hand.Empty? && e == Take(d))
    || (d.hand.Held? && e == Move(d))
    || (d.hand.Moved? && (e == Write(d, true) || e == Write(d, false)))
    || (d.hand.Tried? && e == Settle(d))
  }

  ghost predicate WritesBeside(s: State, a: Step, w: Which) {
    a == WorkerWrites(true) && s.worker.Ready? && w == Other(s.worker.w)
  }

  lemma StepIsLocal(s: State, a: Step, w: Which)
    requires Exclusive(s) && Enabled(s, a)
    ensures if WritesBeside(s, a, w) then Get(Apply(s, a), w) == Get(s, w).(stored := s.worker.other)
            else Local(Get(s, w), Get(Apply(s, a), w))
  {
    if a.Add? && a.w == w {
      assert Get(Apply(s, a), w) == AddBytes(Get(s, w), a.n);
    }
  }

  lemma LocalConserves(d: Dir, e: Dir)
    requires Conserved(d) && Local(d, e)
    ensures Conserved(e)
  {
    if n: u64 :| e == AddBytes(d, n) {
      AddConserves(d, n);
    } else if d.hand.Held? {
      MoveConserves(d);
    } else if d.hand.Tried? {
      SettleConserves(d);
    }
  }

  lemma StepConserves(s: State, a: Step, w: Which)
    requires Exclusive(s) && Conserved(Get(s, w)) && Enabled(s, a)
    ensures Conserved(Get(Apply(s, a), w))
  {
    StepIsLocal(s, a, w);
    if !WritesBeside(s, a, w) {
      LocalConserves(Get(s, w), Get(Apply(s, a), w));
    }
  }

  lemma {:induction false} RunConserves(s: State, steps: seq<Step>, t: State, w: Which)
    requires Exclusive(s) && Conserved(Get(s, w)) && Run(s, steps, t)
    ensures Exclusive(t) && Conserved(Get(t, w)) && Get(t, w).last == Get(s, w).last
    decreases |steps|
  {
    if steps == [] {
    } else {
      StepExclusive(s, steps[0]);
      StepConserves(s, steps[0], w);
      RunConserves(Apply(s, steps[0]), steps[1..], t, w);
    }
  }

  /** In every reachable state the reported total is the starting total plus all bytes added,
      plus exactly the delta that is being moved.  Every byte moved is in the hourly table, in a
      failed write, or about to be written. */
  lemma NothingIsLost(s: State, steps: seq<Step>, t: State, w: Which)
    requires Init(s) && Run(s, steps, t)
    ensures var d := Get(t, w);
            && Total(d) == Wrap(Get(s, w).last + d.added + InFlight(d))
            && d.moved == d.hourly + d.lost + (if d.hand.Moved? then d.hand.delta else 0)
  {
    RunConserves(s, steps, t, w);
    var d := Get(t, w);
    WrapAdd(d.moved, d.last + d.pending);
    WrapAdd(d.added - d.settled, d.last + d.moved);
  }

  lemma {:induction false} SettledGrows(s: State, steps: seq<Step>, t: State, w: Which)
    requires Run(s, steps, t)
    ensures Get(s, w).settled <= Get(t, w).settled && Get(s, w).moved <= Get(t, w).moved
    decreases |steps|
  {
    if steps == [] {
    } else {
      SettledGrows(Apply(s, steps[0]), steps[1..], t, w);
    }
  }

  /** How far a Load is off that reads the running total of `d` and later the pending bytes of `e`. */
  function LoadError(d: Dir, e: Dir): int {
    InFlight(d) - (e.settled - d.settled)
  }

  /** Such a Load reports all bytes added by then, plus what was in flight at the first moment, less
      what was taken off the pending counter in between. */
  lemma LoadReports(s: State, before: seq<Step>, m: State, after: seq<Step>, t: State, w: Which)
    requires Init(s) && Run(s, before, m) && Run(m, after, t)
    ensures Wrap(Get(s, w).last + Get(m, w).synced + Get(t, w).pending) ==
            Wrap(Get(s, w).last + Get(t, w).added + LoadError(Get(m, w), Get(t, w)))
    ensures Get(m, w).moved - Get(t, w).moved <= LoadError(Get(m, w), Get(t, w)) <= InFlight(Get(m, w))
  {
    RunConserves(s, before, m, w);
    RunConserves(m, after, t, w);
    SettledGrows(m, after, t, w);
    var last, d, e := Get(s, w).last, Get(m, w), Get(t, w);
    WrapAdd(d.moved, last + e.pending);
    WrapAdd(e.added - e.settled, last + d.moved);
  }

  // ---- The database -----------------------------------------------------------------

  /** The part of the added bytes that the next write of this direction will certainly cover. */
  function Floor(d: Dir): nat {
    if d.hand.Empty? then d.added else d.seen
  }

  /** What is known of a direction whose counters do not overflow, wherever it started. */
  ghost predicate Counted(d: Dir) {
    && d.moved <= d.added && d.seen <= d.added
    && (d.hand.Held? ==> d.settled + d.hand.delta == d.seen)
    && (d.hand.Moved? ==> d.moved == d.seen && d.hand.total == d.last + d.seen)
    && (d.hand.Tried? ==> d.moved == d.seen && (d.hand.ok ==> d.stored == d.last + d.seen))
  }

  /** The same of one whose stored total was read at the start. */
  ghost predicate Exact(d: Dir) {
    Counted(d) && d.stored <= d.last + Floor(d)
  }

  predicate Fits(d: Dir) {
    d.last + d.added < B
  }

  /** Without overflow the counters are what they stand for. */
  lemma Plain(d: Dir)
    requires Conserved(d) && d.moved <= d.added && Fits(d)
    ensures d.synced == d.moved && d.pending == d.added - d.settled
    ensures InFlight(d) == 0 ==> Total(d) == d.last + d.added
  {
  }

  lemma TakeCounted(d: Dir)
    requires Conserved(d) && Counted(d) && Fits(d) && d.hand.Empty?
    ensures Counted(Take(d))
  {
    Plain(d);
  }

  lemma MoveCounted(d: Dir)
    requires Conserved(d) && Counted(d) && Fits(d) && d.hand.Held?
    ensures Counted(Move(d))
  {
    Plain(d);
  }

  lemma WriteCounted(d: Dir, ok: bool)
    requires Counted(d) && d.hand.Moved?
    ensures Counted(Write(d, ok))
  {
  }

  lemma LocalCounted(d: Dir, e: Dir)
    requires Conserved(d) && Counted(d) && Fits(d) && Local(d, e)
    ensures Counted(e)
  {
    if d == e {
    } else if n: u64 :| e == AddBytes(d, n) {
    } else {
      match d.hand
      case Empty => TakeCounted(d);
      case Held(_) => MoveCounted(d);
      case Moved(_, _) =>
        WriteCounted(d, true);
        WriteCounted(d, false);
      case Tried(_, _) =>
    }
  }

  lemma StepCounted(s: State, a: Step, w: Which)
    requires Exclusive(s) && Conserved(Get(s, w)) && Counted(Get(s, w)) && Fits(Get(s, w)) && Enabled(s, a)
    ensures Counted(Get(Apply(s, a), w))
  {
    StepIsLocal(s, a, w);
    if !WritesBeside(s, a, w) {
      LocalCounted(Get(s, w), Get(Apply(s, a), w));
    }
  }

  lemma {:induction false} RunCounted(s: State, steps: seq<Step>, t: State, w: Which)
    requires Exclusive(s) && Conserved(Get(s, w)) && Counted(Get(s, w)) && Run(s, steps, t) && Fits(Get(t, w))
    ensures Counted(Get(t, w))
    decreases |steps|
  {
    if steps == [] {
    } else {
      AddedGrows(s, steps, t, w);
      StepExclusive(s, steps[0]);
      StepConserves(s, steps[0], w);
      StepCounted(s, steps[0], w);
      RunCounted(Apply(s, steps[0]), steps[1..], t, w);
    }
  }

  ghost predicate AllExact(s: State, w: Which) {
    && Exact(Get(s, w))
    && (s.worker.Ready? && w == Other(s.worker.w) ==>
          Get(s, w).stored <= s.worker.other <= Get(s, w).last + Get(s, w).added)
  }

  lemma LocalExact(d: Dir, e: Dir)
    requires Conserved(d) && Exact(d) && Fits(d) && Local(d, e)
    ensures Exact(e) && d.stored <= e.stored
  {
    LocalCounted(d, e);
  }

  lemma ReadExact(s: State, a: Step, w: Which)
    requires Exclusive(s) && Conserved(Get(s, w)) && AllExact(s, w) && Fits(Get(s, w)) && Enabled(s, a)
    requires a.WorkerReads?
    ensures AllExact(Apply(s, a), w)
    ensures Get(s, w).stored <= Get(Apply(s, a), w).stored
  {
    Plain(Get(s, w));
  }

  /** A write never lowers the stored total. */
  lemma StepExact(s: State, a: Step, w: Which)
    requires Exclusive(s) && Conserved(Get(s, w)) && AllExact(s, w) && Fits(Get(s, w)) && Enabled(s, a)
    ensures AllExact(Apply(s, a), w)
    ensures Get(s, w).stored <= Get(Apply(s, a), w).stored
  {
    if a.WorkerReads? {
      ReadExact(s, a, w);
    } else {
      StepIsLocal(s, a, w);
      if !WritesBeside(s, a, w) {
        LocalExact(Get(s, w), Get(Apply(s, a), w));
      }
    }
  }

  lemma {:induction false} AddedGrows(s: State, steps: seq<Step>, t: State, w: Which)
    requires Run(s, steps, t)
    ensures Get(s, w).added <= Get(t, w).added && Get(s, w).last == Get(t, w).last
    decreases |steps|
  {
    if steps == [] {
    } else {
      AddedGrows(Apply(s, steps[0]), steps[1..], t, w);
    }
  }

  lemma {:induction false} RunExact(s: State, steps: seq<Step>, t: State, w: Which)
    requires Exclusive(s) && Conserved(Get(s, w)) && AllExact(s, w) && Run(s, steps, t) && Fits(Get(t, w))
    ensures AllExact(t, w) && Get(s, w).stored <= Get(t, w).stored
    decreases |steps|
  {
    if steps == [] {
    } else {
      AddedGrows(s, steps, t, w);
      StepExclusive(s, steps[0]);
      StepConserves(s, steps[0], w);
      StepExact(s, steps[0], w);
      RunExact(Apply(s, steps[0]), steps[1..], t, w);
    }
  }

  /** What a later write stores is never below what an earlier one stored, and never above what
      was added. */
  lemma StoredIsMonotone(s: State, before: seq<Step>, m: State, after: seq<Step>, t: State, w: Which)
    requires Init(s) && Get(s, w).stored <= Get(s, w).last
    requires Run(s, before, m) && Run(m, after, t) && Fits(Get(t, w))
    ensures Get(m, w).stored <= Get(t, w).stored <= Get(s, w).last + Get(t, w).added
  {
    AddedGrows(m, after, t, w);
    AddedGrows(s, before, m, w);
    RunExact(s, before, m, w);
    RunConserves(s, before, m, w);
    RunExact(m, after, t, w);
  }

  /** The shortest way to close. */
  const CLOSE_NOW: seq<Step> := [
    Cancel, WorkerStops, CloseTakes(Down), CloseTakes(Up), CloseMoves(Down), CloseMoves(Up), CloseWrites(true)]

  lemma CloseAtOnce(s: State) returns (t: State)
    requires Init(s)
    ensures Run(s, CLOSE_NOW, t)
    ensures t.down.stored == s.down.last && t.up.stored == s.up.last
    ensures t.down.last + t.down.added < B && t.up.last + t.up.added < B
  {
    var s2 := Apply(Apply(s, Cancel), WorkerStops);
    var s4 := Apply(Apply(s2, CloseTakes(Down)), CloseTakes(Up));
    var s6 := Apply(Apply(s4, CloseMoves(Down)), CloseMoves(Up));
    t := Apply(s6, CloseWrites(true));
    assert Run(s6, CLOSE_NOW[6..], t);
    assert Run(s4, CLOSE_NOW[4..], t);
    assert Run(s2, CLOSE_NOW[2..], t);
  }

  ghost predicate NeverLowers(s: State, w: Which) {
    forall steps, t :: Run(s, steps, t) && Fits(Get(t, w)) ==> Get(s, w).stored <= Get(t, w).stored
  }

  /** The stored total never shrinks in any run exactly when it was not above the total the
      cache started from, which is so when the database could be read at the start. */
  lemma NeverLowersIff(s: State, w: Which)
    requires Init(s)
    ensures NeverLowers(s, w) <==> Get(s, w).stored <= Get(s, w).last
  {
    if Get(s, w).stored <= Get(s, w).last {
      forall steps, t | Run(s, steps, t) && Fits(Get(t, w))
        ensures Get(s, w).stored <= Get(t, w).stored
      {
        RunExact(s, steps, t, w);
      }
    } else {
      var t := CloseAtOnce(s);
      assert Run(s, CLOSE_NOW, t) && Fits(Get(t, w));
    }
  }

  lemma {:induction false} SeenIsKept(s: State, steps: seq<Step>, t: State, w: Which)
    requires Exclusive(s) && (s.closer.Closing? || s.closer.Closed?) && !Get(s, w).hand.Empty?
    requires Run(s, steps, t)
    ensures (t.closer.Closing? || t.closer.Closed?) && !Get(t, w).hand.Empty? && Get(t, w).seen == Get(s, w).seen
    decreases |steps|
  {
    if steps == [] {
    } else {
      StepExclusive(s, steps[0]);
      SeenIsKept(Apply(s, steps[0]), steps[1..], t, w);
    }
  }

  /** A Close whose write succeeds leaves the total at the starting total plus everything that
      was added before Close read the counter, whatever the database held, whatever the worker was
      doing and whether or not its own writes succeeded. */
  lemma CloseStoresEverything(s: State, before: seq<Step>, m: State, w: Which, after: seq<Step>, t: State)
    requires Init(s) && Run(s, before, m) && Enabled(m, CloseTakes(w)) && Run(Apply(m, CloseTakes(w)), after, t)
    requires Fits(Get(t, w)) && t.closer == Closed(true)
    ensures Get(t, w).stored == Get(s, w).last + Get(m, w).added
  {
    var n := Apply(m, CloseTakes(w));
    AddedGrows(n, after, t, w);
    AddedGrows(s, before, m, w);
    RunConserves(s, before, m, w);
    RunCounted(s, before, m, w);
    StepExclusive(m, CloseTakes(w));
    StepConserves(m, CloseTakes(w), w);
    StepCounted(m, CloseTakes(w), w);
    RunCounted(n, after, t, w);
    RunConserves(n, after, t, w);
    SeenIsKept(n, after, t, w);
  }

  /** Close does not take the moved bytes off the pending counter: from then on the reported
      total counts them twice, and is right exactly when there were none. */
  lemma ClosedCountsTwice(s: State, steps: seq<Step>, t: State, w: Which)
    requires Init(s) && Run(s, steps, t) && t.closer.Closed?
    ensures Get(t, w).hand.Tried?
    ensures Total(Get(t, w)) == Wrap(Get(s, w).last + Get(t, w).added + Get(t, w).hand.delta)
    ensures Total(Get(t, w)) == Wrap(Get(s, w).last + Get(t, w).added) <==> Get(t, w).hand.delta == 0
  {
    NothingIsLost(s, steps, t, w);
    RunConserves(s, steps, t, w);
    WrapOffBy(Get(s, w).last + Get(t, w).added, Get(t, w).hand.delta);
  }

  /** What another Close does to a direction when its write succeeds. */
  function CloseAgain(d: Dir): Dir {
    Write(Move(Take(d)), true)
  }

  /** A second Close stores the bytes that the first one moved once more: the total it leaves behind
      is right exactly when there were none. */
  lemma SecondCloseStoresTwice(s: State, steps: seq<Step>, t: State, w: Which)
    requires Init(s) && Run(s, steps, t) && t.closer.Closed?
    ensures Get(t, w).hand.Tried?
    ensures var d, e := Get(t, w), CloseAgain(Get(t, w));
            && e.stored == Wrap(Get(s, w).last + d.added + d.hand.delta)
            && (e.stored == Wrap(Get(s, w).last + d.added) <==> d.hand.delta == 0)
            && e.hourly == d.hourly + d.pending
  {
    ClosedCountsTwice(s, steps, t, w);
    RunConserves(s, steps, t, w);
    AddedGrows(s, steps, t, w);
    var d := Get(t, w);
    assert CloseAgain(d).stored == Wrap(d.last + Wrap(d.synced + d.pending));
    WrapAdd(d.synced + d.pending, d.last);
  }

  // ---- What can happen -------------------------------------------------------------------

  lemma {:induction false} ReadIsKept(s: State, steps: seq<Step>, t: State)
    requires s.worker.Ready? && Get(s, s.worker.w).hand.Moved? && Run(s, steps, t)
    requires forall i :: 0 <= i < |steps| ==> !steps[i].WorkerWrites?
    requires Exclusive(s)
    ensures t.worker == s.worker && Get(t, t.worker.w).hand == Get(s, s.worker.w).hand
    decreases |steps|
  {
    if steps == [] {
    } else {
      assert !steps[0].WorkerWrites?;
      StepExclusive(s, steps[0]);
      ReadIsKept(Apply(s, steps[0]), steps[1..], t);
    }
  }

  /** Beside its own direction a write stores what was reported of the other one when the worker read
      it, whatever was added since. */
  lemma StoresWhatWasRead(s: State, between: seq<Step>, m: State)
    requires Exclusive(s) && Enabled(s, WorkerReads) && Run(Apply(s, WorkerReads), between, m)
    requires forall i :: 0 <= i < |between| ==> !between[i].WorkerWrites?
    ensures Enabled(m, WorkerWrites(true))
    ensures var w, t := s.worker.w, Apply(m, WorkerWrites(true));
            && Get(t, Other(w)).stored == Total(Get(s, Other(w)))
            && Get(t, w).stored == Get(s, w).hand.total
  {
    StepExclusive(s, WorkerReads);
    ReadIsKept(Apply(s, WorkerReads), between, m);
  }

  lemma RunFive(s: State, a: Step, b: Step, c: Step, d: Step, e: Step)
    requires Enabled(s, a) && Enabled(Apply(s, a), b) && Enabled(Apply(Apply(s, a), b), c)
    requires Enabled(Apply(Apply(Apply(s, a), b), c), d)
    requires Enabled(Apply(Apply(Apply(Apply(s, a), b), c), d), e)
    ensures Run(s, [a, b, c, d, e], Apply(Apply(Apply(Apply(Apply(s, a), b), c), d), e))
  {
    var all := [a, b, c, d, e];
    assert all[1..] == [b, c, d, e] && all[1..][1..] == [c, d, e];
    assert [c, d, e][1..] == [d, e] && [d, e][1..] == [e] && [e][1..] == [];
    var s3 := Apply(Apply(Apply(s, a), b), c);
    assert Run(s3, [d, e], Apply(Apply(s3, d), e));
  }

  /** An idle worker can store both totals: what was pending is moved, written and taken off. */
  lemma CanSync(s: State, w: Which) returns (t: State)
    requires s.worker.Idle? && s.down.hand.Empty? && s.up.hand.Empty?
    ensures Run(s, [WorkerTakes(w), WorkerMoves, WorkerReads, WorkerWrites(true), WorkerSettles], t)
    ensures var d, e, o := Get(s, w), Get(t, w), Get(s, Other(w));
            && e.pending == 0 && e.synced == Wrap(d.synced + d.pending) && e.stored == Wrap(d.last + e.synced)
            && e.hourly == d.hourly + d.pending
            && Get(t, Other(w)) == o.(stored := Total(o)) && t.worker.Idle?
  {
    var s3 := Apply(Apply(Apply(s, WorkerTakes(w)), WorkerMoves), WorkerReads);
    t := Apply(Apply(s3, WorkerWrites(true)), WorkerSettles);
    RunFive(s, WorkerTakes(w), WorkerMoves, WorkerReads, WorkerWrites(true), WorkerSettles);
  }
}
