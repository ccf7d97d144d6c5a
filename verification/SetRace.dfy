/**
The race between the members of a Set: one goroutine offers the members in turn, every
member is dialed in its own goroutine, and the caller waits for the first connection.

A run is a sequence of atomic steps of the caller, the offering goroutine and the dial
goroutines, in any interleaving.  Dials may succeed or fail, timers may fire and the parent
context may be cancelled whenever they like.
*/
module SetRace {
  import opened Options

  /** The dial goroutine of one offer. */
  datatype Dial =
    | NotStarted
    | NoDialer   // the member has no dialer, nothing was started
    | Dialing
    | Failing    // the error is recorded, the pause of the offering goroutine may be cut short
    | Failed
    | Connected  // blocked on handing the connection over
    | Sent       // handed over, the index is not remembered yet
    | Recorded
    | Closed     // the connection was closed by its own goroutine

  /** The goroutine that offers the members; `next` is the next offer to make. */
  datatype Driver =
    | Offering(next: nat)
    | Pausing(next: nat)
    | Draining
    | Quit
    | Done

  datatype Cause = ByParent | ByDriver(errors: seq<nat>) | ByCaller

  datatype Result = Conn(offer: nat) | Error(cause: Cause)

  datatype Caller = Selecting | Leaving(result: Result) | Returned(result: Result)

  /** `order[k]` is the index of the member that is offered k-th. */
  datatype Config = Config(order: seq<nat>, storeIndex: bool, lastID: int)

  datatype State = State(
    dials: seq<Dial>,
    driver: Driver,
    caller: Caller,
    ctx: Option<Cause>,
    errors: seq<nat>,
    lastID: int)

  datatype Step =
    | SkipMember
    | StartDial
    | PauseOver
    | QuitOffering
    | BeginDrain
    | Finish
    | DialFails(k: nat)
    | Boost(k: nat, wakes: bool)
    | DialSucceeds(k: nat)
    | Deliver(k: nat)
    | Record(k: nat)
    | CloseConn(k: nat)
    | SeeCancel
    | Return
    | CancelParent

  predicate Running(d: Dial) {
    d.Dialing? || d.Failing? || d.Connected? || d.Sent?
  }

  /** The dials whose error has been joined. */
  predicate HasError(d: Dial) {
    d.NoDialer? || d.Failing? || d.Failed?
  }

  predicate Delivered(d: Dial) {
    d.Sent? || d.Recorded?
  }

  /** The first cancellation of a context fixes its cause. */
  function Cancel(ctx: Option<Cause>, cause: Cause): Option<Cause> {
    if ctx.None? then Some(cause) else ctx
  }

  function Init(c: Config): State {
    State(seq(|c.order|, _ => NotStarted), Offering(0), Selecting, None, [], c.lastID)
  }

  predicate At(s: State, k: nat, d: Dial) {
    k < |s.dials| && s.dials[k] == d
  }

  predicate Enabled(c: Config, s: State, a: Step) {
    match a
    case SkipMember => s.driver.Offering? && At(s, s.driver.next, NotStarted)
    case StartDial => s.driver.Offering? && At(s, s.driver.next, NotStarted)
    case PauseOver => s.driver.Pausing?
    case QuitOffering => s.driver.Pausing? && s.ctx.Some?
    case BeginDrain => s.driver == Offering(|s.dials|)
    case Finish => s.driver.Draining? && forall k :: 0 <= k < |s.dials| ==> !Running(s.dials[k])
    case DialFails(k) => At(s, k, Dialing)
    case Boost(k, wakes) => At(s, k, Failing) && (wakes ==> s.driver.Pausing?)
    case DialSucceeds(k) => At(s, k, Dialing)
    case Deliver(k) => At(s, k, Connected) && s.caller.Selecting?
    case Record(k) => At(s, k, Sent)
    case CloseConn(k) => At(s, k, Connected) && s.ctx.Some?
    case SeeCancel => s.caller.Selecting? && s.ctx.Some?
    case Return => s.caller.Leaving?
    case CancelParent => s.ctx.None?
  }

  function Apply(c: Config, s: State, a: Step): State
    requires |s.dials| == |c.order|
    requires Enabled(c, s, a)
  {
    match a
    case SkipMember =>
      var k := s.driver.next;
      s.(dials := s.dials[k := NoDialer], errors := s.errors + [k], driver := Offering(k + 1))
    case StartDial =>
      var k := s.driver.next;
      s.(dials := s.dials[k := Dialing], driver := Pausing(k + 1))
    case PauseOver => s.(driver := Offering(s.driver.next))
    case QuitOffering => s.(driver := Quit)
    case BeginDrain => s.(driver := Draining)
    case Finish => s.(driver := Done, ctx := Cancel(s.ctx, ByDriver(s.errors)))
    case DialFails(k) => s.(dials := s.dials[k := Failing], errors := s.errors + [k])
    case Boost(k, wakes) =>
      s.(dials := s.dials[k := Failed], driver := if wakes then Offering(s.driver.next) else s.driver)
    case DialSucceeds(k) => s.(dials := s.dials[k := Connected])
    case Deliver(k) => s.(dials := s.dials[k := Sent], caller := Leaving(Conn(k)))
    case Record(k) =>
      s.(dials := s.dials[k := Recorded], lastID := if c.storeIndex then c.order[k] else s.lastID)
    case CloseConn(k) => s.(dials := s.dials[k := Closed])
    case SeeCancel => s.(caller := Leaving(Error(s.ctx.value)))
    case Return => s.(caller := Returned(s.caller.result), ctx := Cancel(s.ctx, ByCaller))
    case CancelParent => s.(ctx := Some(ByParent))
  }

  /** `steps` is a run from `s` to `t`. */
  predicate Run(c: Config, s: State, steps: seq<Step>, t: State)
    requires |s.dials| == |c.order|
    decreases |steps|
  {
    if steps == [] then s == t
    else Enabled(c, s, steps[0]) && Run(c, Apply(c, s, steps[0]), steps[1..], t)
  }

  /** The offers made so far are exactly the dials that left `NotStarted`. */
  ghost predicate OffersInOrder(s: State) {
    forall k :: 0 <= k < |s.dials| ==>
      match s.driver
      case Offering(next) => next <= |s.dials| && (s.dials[k].NotStarted? <==> next <= k)
      case Pausing(next) => next <= |s.dials| && (s.dials[k].NotStarted? <==> next <= k)
      case Draining => !s.dials[k].NotStarted?
      case Quit => true
      case Done => !s.dials[k].NotStarted? && !Running(s.dials[k])
  }

  /** The joined errors are those of the failed offers, each once. */
  ghost predicate ErrorsExact(dials: seq<Dial>, errors: seq<nat>) {
    && (forall i, j :: 0 <= i < j < |errors| ==> errors[i] != errors[j])
    && (forall i :: 0 <= i < |errors| ==> errors[i] < |dials| && HasError(dials[errors[i]]))
    && (forall k :: 0 <= k < |dials| && HasError(dials[k]) ==> k in errors)
  }

  /** One connection, and only one, is the caller's. */
  ghost predicate SingleWinner(s: State) {
    && (forall k :: 0 <= k < |s.dials| && Delivered(s.dials[k]) ==>
          !s.caller.Selecting? && s.caller.result == Conn(k))
    && (!s.caller.Selecting? && s.caller.result.Conn? ==>
          s.caller.result.offer < |s.dials| && Delivered(s.dials[s.caller.result.offer]))
  }

  /** Why the context is done, and what follows from it being done. */
  ghost predicate CancelExplained(s: State) {
    && (s.ctx.None? ==>
          && !s.caller.Returned? && !s.driver.Quit? && !s.driver.Done?
          && forall k :: 0 <= k < |s.dials| ==> !s.dials[k].Closed?)
    && (!s.caller.Selecting? && s.caller.result.Error? ==>
          s.ctx == Some(s.caller.result.cause) && !s.caller.result.cause.ByCaller?)
    && (s.ctx == Some(ByCaller) ==> s.caller.Returned? && s.caller.result.Conn?)
    && (s.ctx.Some? && s.ctx.value.ByDriver? ==>
          && s.driver.Done?
          && s.ctx.value.errors == s.errors
          && forall k :: 0 <= k < |s.dials| ==> HasError(s.dials[k]) || s.dials[k].Recorded?)
  }

  /** The remembered index is the winner's, or what it was before the race. */
  ghost predicate IndexRemembered(c: Config, s: State)
    requires |s.dials| == |c.order|
  {
    && (forall k :: 0 <= k < |s.dials| && s.dials[k].Recorded? && c.storeIndex ==> s.lastID == c.order[k])
    && (s.lastID == c.lastID || exists k :: 0 <= k < |s.dials| && s.dials[k].Recorded? && s.lastID == c.order[k])
  }

  ghost predicate Inv(c: Config, s: State) {
    && |s.dials| == |c.order|
    && NextInBounds(s)
    && OffersInOrder(s)
    && ErrorsExact(s.dials, s.errors)
    && SingleWinner(s)
    && CancelExplained(s)
    && IndexRemembered(c, s)
  }

  lemma StepKeepsInv(c: Config, s: State, a: Step)
    requires Inv(c, s) && Enabled(c, s, a)
    ensures Inv(c, Apply(c, s, a))
  {
    OffersStayInOrder(c, s, a);
    ErrorsStayExact(c, s, a);
    WinnerStaysSingle(c, s, a);
    CancelStaysExplained(c, s, a);
    IndexStaysRemembered(c, s, a);
  }

  lemma OffersStayInOrder(c: Config, s: State, a: Step)
    requires Inv(c, s) && Enabled(c, s, a)
    ensures OffersInOrder(Apply(c, s, a))
  {
  }

  lemma WinnerStaysSingle(c: Config, s: State, a: Step)
    requires Inv(c, s) && Enabled(c, s, a)
    ensures SingleWinner(Apply(c, s, a))
  {
  }

  lemma CancelStaysExplained(c: Config, s: State, a: Step)
    requires Inv(c, s) && Enabled(c, s, a)
    ensures CancelExplained(Apply(c, s, a))
  {
  }

  lemma IndexStaysRemembered(c: Config, s: State, a: Step)
    requires Inv(c, s) && Enabled(c, s, a)
    ensures IndexRemembered(c, Apply(c, s, a))
  {
    var t := Apply(c, s, a);
    if s.lastID != c.lastID && !a.Record? {
      var k :| 0 <= k < |s.dials| && s.dials[k].Recorded? && s.lastID == c.order[k];
      assert t.dials[k].Recorded?;
    }
    if a.Record? {
      assert t.dials[a.k].Recorded?;
      forall k | 0 <= k < |s.dials| && k != a.k
        ensures !s.dials[k].Recorded?
      {
        assert Delivered(s.dials[a.k]);
      }
    }
  }

  lemma ErrorAdded(dials: seq<Dial>, errors: seq<nat>, k: nat, d: Dial)
    requires ErrorsExact(dials, errors) && k < |dials| && !HasError(dials[k]) && HasError(d)
    ensures ErrorsExact(dials[k := d], errors + [k])
  {
    assert k !in errors;
    var more := errors + [k];
    assert more[|errors|] == k;
    forall j | j in errors ensures j in more {
    }
  }

  lemma ErrorsKept(dials: seq<Dial>, errors: seq<nat>, k: nat, d: Dial)
    requires ErrorsExact(dials, errors) && k < |dials| && (HasError(dials[k]) <==> HasError(d))
    ensures ErrorsExact(dials[k := d], errors)
  {
  }

  lemma ErrorsStayExact(c: Config, s: State, a: Step)
    requires |s.dials| == |c.order| && ErrorsExact(s.dials, s.errors) && Enabled(c, s, a)
    ensures var t := Apply(c, s, a); ErrorsExact(t.dials, t.errors)
  {
    match a {
      case SkipMember => ErrorAdded(s.dials, s.errors, s.driver.next, NoDialer);
      case StartDial => ErrorsKept(s.dials, s.errors, s.driver.next, Dialing);
      case DialFails(k) => ErrorAdded(s.dials, s.errors, k, Failing);
      case Boost(k, _) => ErrorsKept(s.dials, s.errors, k, Failed);
      case DialSucceeds(k) => ErrorsKept(s.dials, s.errors, k, Connected);
      case Deliver(k) => ErrorsKept(s.dials, s.errors, k, Sent);
      case Record(k) => ErrorsKept(s.dials, s.errors, k, Recorded);
      case CloseConn(k) => ErrorsKept(s.dials, s.errors, k, Closed);
      case _ =>
    }
  }

  lemma {:induction false} RunKeepsInv(c: Config, s: State, steps: seq<Step>, t: State)
    requires Inv(c, s) && Run(c, s, steps, t)
    ensures Inv(c, t)
    decreases |steps|
  {
    if steps == [] {
    } else {
      StepKeepsInv(c, s, steps[0]);
      RunKeepsInv(c, Apply(c, s, steps[0]), steps[1..], t);
    }
  }

  lemma ReachableInv(c: Config, steps: seq<Step>, t: State)
    requires Run(c, Init(c), steps, t)
    ensures Inv(c, t)
  {
    RunKeepsInv(c, Init(c), steps, t);
  }

  // ---- Safety -----------------------------------------------------------------------

  /** A dial that produced a connection. */
  predicate MadeConnection(d: Dial) {
    d.Connected? || d.Sent? || d.Recorded? || d.Closed?
  }

  lemma AtMostOneConnection(c: Config, steps: seq<Step>, t: State, j: nat, k: nat)
    requires Run(c, Init(c), steps, t)
    requires j < |t.dials| && k < |t.dials| && Delivered(t.dials[j]) && Delivered(t.dials[k])
    ensures j == k && !t.caller.Selecting? && t.caller.result == Conn(k)
  {
    ReachableInv(c, steps, t);
  }

  lemma {:induction false} OnlyParentBlamesParent(c: Config, s: State, steps: seq<Step>, t: State)
    requires |s.dials| == |c.order| && Run(c, s, steps, t)
    requires CancelParent !in steps && s.ctx != Some(ByParent)
    ensures t.ctx != Some(ByParent)
    decreases |steps|
  {
    if steps == [] {
    } else {
      OnlyParentBlamesParent(c, Apply(c, s, steps[0]), steps[1..], t);
    }
  }

  /** Unless the parent was cancelled, an error means that every member failed, and carries
      the error of every member exactly once. */
  lemma ErrorMeansAllFailed(c: Config, steps: seq<Step>, t: State)
    requires Run(c, Init(c), steps, t) && CancelParent !in steps
    requires t.caller.Returned? && t.caller.result.Error?
    ensures |t.dials| == |c.order|
    ensures forall k :: 0 <= k < |c.order| ==> HasError(t.dials[k]) && !MadeConnection(t.dials[k])
    ensures t.caller.result.cause.ByDriver?
    ensures var errors := t.caller.result.cause.errors;
            && (forall i, j :: 0 <= i < j < |errors| ==> errors[i] != errors[j])
            && (forall k :: k in errors <==> 0 <= k < |c.order|)
  {
    ReachableInv(c, steps, t);
    OnlyParentBlamesParent(c, Init(c), steps, t);
  }

  // ---- Progress ---------------------------------------------------------------------

  /** Every goroutine has come to its end. */
  predicate Quiescent(s: State) {
    && s.caller.Returned?
    && (s.driver.Quit? || s.driver.Done?)
    && forall k :: 0 <= k < |s.dials| ==> !Running(s.dials[k])
  }

  /** Whatever the schedule was, a goroutine that has not ended can be scheduled next, without
      help from the parent. */
  lemma NeverStuck(c: Config, steps: seq<Step>, t: State)
    requires Run(c, Init(c), steps, t)
    ensures Quiescent(t) <==> forall a: Step :: Enabled(c, t, a) ==> a.CancelParent?
  {
    ReachableInv(c, steps, t);
    if !Quiescent(t) {
      var a := NextStep(c, t);
      assert Enabled(c, t, a) && !a.CancelParent?;
    }
  }

  lemma NextStep(c: Config, s: State) returns (a: Step)
    requires Inv(c, s) && !Quiescent(s)
    ensures Enabled(c, s, a) && !a.CancelParent?
  {
    if k :| 0 <= k < |s.dials| && Running(s.dials[k]) {
      match s.dials[k] {
        case Dialing => a := DialFails(k);
        case Failing => a := Boost(k, false);
        case Sent => a := Record(k);
        case Connected =>
          a := if s.caller.Selecting? then Deliver(k) else if s.caller.Leaving? then Return else CloseConn(k);
      }
    } else if s.driver.Offering? {
      a := if s.driver.next < |s.dials| then StartDial else BeginDrain;
    } else if s.driver.Pausing? {
      a := PauseOver;
    } else if s.driver.Draining? {
      a := Finish;
    } else {
      a := if s.caller.Selecting? then SeeCancel else Return;
    }
  }

  /** A dial that finished after the caller left closes its connection and cannot deliver it. */
  lemma LateDialCloses(c: Config, steps: seq<Step>, t: State, k: nat)
    requires Run(c, Init(c), steps, t)
    requires t.caller.Returned? && At(t, k, Connected)
    ensures Enabled(c, t, CloseConn(k)) && !Enabled(c, t, Deliver(k))
  {
    ReachableInv(c, steps, t);
  }

  // ---- Termination ------------------------------------------------------------------

  function DialRank(d: Dial): nat {
    match d
    case NotStarted => 4
    case Dialing => 3
    case Connected => 2
    case Failing => 1
    case Sent => 1
    case _ => 0
  }

  function DialsRank(ds: seq<Dial>): nat {
    if ds == [] then 0 else DialRank(ds[0]) + DialsRank(ds[1..])
  }

  function DriverRank(d: Driver, n: nat): int {
    match d
    case Offering(next) => 2 * (n - next) + 2
    case Pausing(next) => 2 * (n - next) + 3
    case Draining => 1
    case _ => 0
  }

  function CallerRank(c: Caller): nat {
    match c
    case Selecting => 2
    case Leaving(_) => 1
    case Returned(_) => 0
  }

  function Rank(s: State): int {
    DialsRank(s.dials) + DriverRank(s.driver, |s.dials|) + CallerRank(s.caller) + if s.ctx.None? then 1 else 0
  }

  lemma {:induction false} DialsRankUpdate(ds: seq<Dial>, k: nat, d: Dial)
    requires k < |ds|
    ensures DialsRank(ds[k := d]) == DialsRank(ds) - DialRank(ds[k]) + DialRank(d)
  {
    if k == 0 {
      assert ds[k := d][1..] == ds[1..];
    } else {
      DialsRankUpdate(ds[1..], k - 1, d);
      assert ds[k := d][1..] == ds[1..][k - 1 := d];
    }
  }

  lemma {:induction false} FreshDialsRank(n: nat)
    ensures DialsRank(seq(n, _ => NotStarted)) == 4 * n
  {
    if n == 0 {
    } else {
      assert seq(n, _ => NotStarted)[1..] == seq(n - 1, _ => NotStarted);
      FreshDialsRank(n - 1);
    }
  }

  predicate NextInBounds(s: State) {
    s.driver.Offering? || s.driver.Pausing? ==> s.driver.next <= |s.dials|
  }

  lemma RankNonNegative(s: State)
    requires NextInBounds(s)
    ensures Rank(s) >= 0
  {
  }

  /** A step of a dial goroutine lowers the rank of that dial and raises nothing else. */
  lemma DialStepDrops(c: Config, s: State, a: Step)
    requires |s.dials| == |c.order| && NextInBounds(s) && Enabled(c, s, a)
    requires a.DialFails? || a.Boost? || a.DialSucceeds? || a.Deliver? || a.Record? || a.CloseConn?
    ensures Rank(Apply(c, s, a)) < Rank(s)
  {
    DialsRankUpdate(s.dials, a.k, Apply(c, s, a).dials[a.k]);
  }

  lemma RankDrops(c: Config, s: State, a: Step)
    requires |s.dials| == |c.order| && NextInBounds(s) && Enabled(c, s, a)
    ensures Rank(Apply(c, s, a)) < Rank(s)
  {
    match a {
      case SkipMember => DialsRankUpdate(s.dials, s.driver.next, NoDialer);
      case StartDial => DialsRankUpdate(s.dials, s.driver.next, Dialing);
      case PauseOver =>
      case QuitOffering =>
      case BeginDrain =>
      case Finish =>
      case SeeCancel =>
      case Return =>
      case CancelParent =>
      case _ => DialStepDrops(c, s, a);
    }
  }

  lemma StepLowersRank(c: Config, s: State, a: Step)
    requires Inv(c, s) && Enabled(c, s, a)
    ensures 0 <= Rank(Apply(c, s, a)) < Rank(s)
  {
    StepKeepsInv(c, s, a);
    RankDrops(c, s, a);
    RankNonNegative(Apply(c, s, a));
  }

  lemma {:induction false} RunLowersRank(c: Config, s: State, steps: seq<Step>, t: State)
    requires Inv(c, s) && Run(c, s, steps, t)
    ensures |steps| <= Rank(s) - Rank(t)
    decreases |steps|
  {
    if steps == [] {
    } else {
      StepLowersRank(c, s, steps[0]);
      StepKeepsInv(c, s, steps[0]);
      RunLowersRank(c, Apply(c, s, steps[0]), steps[1..], t);
    }
  }

  /** No schedule goes on for ever: a race over n members takes at most 6n + 5 steps. */
  lemma RunBounded(c: Config, steps: seq<Step>, t: State)
    requires Run(c, Init(c), steps, t)
    ensures |steps| <= 6 * |c.order| + 5
  {
    RunLowersRank(c, Init(c), steps, t);
    FreshDialsRank(|c.order|);
    ReachableInv(c, steps, t);
  }

  // ---- Outcome ----------------------------------------------------------------------

  /** When all goroutines have ended, no connection is left open except the caller's, and the
      winner's index is remembered when the Set was asked to. */
  lemma NoConnectionLeaks(c: Config, steps: seq<Step>, t: State)
    requires Run(c, Init(c), steps, t) && Quiescent(t)
    ensures |t.dials| == |c.order|
    ensures forall k :: 0 <= k < |c.order| && MadeConnection(t.dials[k]) ==>
              t.dials[k].Closed? || t.caller == Returned(Conn(k))
    ensures t.caller.result.Conn? ==> var k := t.caller.result.offer;
              k < |c.order| && At(t, k, Recorded) && (c.storeIndex ==> t.lastID == c.order[k])
    ensures t.caller.result.Error? ==> t.lastID == c.lastID
  {
    ReachableInv(c, steps, t);
  }

  /** Unless the parent was cancelled, the caller gets a connection as soon as one was made. */
  lemma OneSuccessSuffices(c: Config, steps: seq<Step>, t: State, k: nat)
    requires Run(c, Init(c), steps, t) && Quiescent(t) && CancelParent !in steps
    requires k < |t.dials| && MadeConnection(t.dials[k])
    ensures t.caller.result.Conn?
  {
    if t.caller.result.Error? {
      ErrorMeansAllFailed(c, steps, t);
    }
  }

  /** The remembered index always names a member. */
  lemma LastIdInRange(c: Config, steps: seq<Step>, t: State)
    requires Run(c, Init(c), steps, t)
    requires -1 <= c.lastID < |c.order| && forall k :: 0 <= k < |c.order| ==> c.order[k] < |c.order|
    ensures -1 <= t.lastID < |c.order|
  {
    ReachableInv(c, steps, t);
  }

  // ---- What can happen -------------------------------------------------------------------

  /** A run that the parent does not cancel. */
  ghost predicate Reaches(c: Config, steps: seq<Step>, t: State) {
    Run(c, Init(c), steps, t) && CancelParent !in steps
  }

  lemma Onward(c: Config, steps: seq<Step>, s: State, a: Step) returns (more: seq<Step>, t: State)
    requires Run(c, Init(c), steps, s) && |s.dials| == |c.order| && Enabled(c, s, a)
    ensures Run(c, Init(c), more, t) && t == Apply(c, s, a) && more == steps + [a]
  {
    more, t := steps + [a], Apply(c, s, a);
    RunSnoc(c, Init(c), steps, s, a);
  }

  lemma OneMore(c: Config, steps: seq<Step>, s: State, a: Step) returns (more: seq<Step>, t: State)
    requires Reaches(c, steps, s) && |s.dials| == |c.order| && Enabled(c, s, a) && !a.CancelParent?
    ensures Reaches(c, more, t) && t == Apply(c, s, a)
  {
    more, t := Onward(c, steps, s, a);
  }

  /** The first k offers are made: a member without a dialer is passed over, the dials of the others
      have failed. */
  ghost function Tried(c: Config, skipped: seq<bool>, k: nat): State
    requires |skipped| == |c.order| && k <= |c.order|
  {
    State(
      seq(|c.order|, i requires 0 <= i < |skipped| =>
            if i >= k then NotStarted else if skipped[i] then NoDialer else Failed),
      Offering(k), Selecting, None, seq(k, i => i), c.lastID)
  }

  lemma TryNext(c: Config, skipped: seq<bool>, k: nat, steps: seq<Step>) returns (more: seq<Step>)
    requires |skipped| == |c.order| && k < |c.order| && Reaches(c, steps, Tried(c, skipped, k))
    ensures Reaches(c, more, Tried(c, skipped, k + 1))
  {
    var s, t;
    if skipped[k] {
      more, t := OneMore(c, steps, Tried(c, skipped, k), SkipMember);
    } else {
      more, s := OneMore(c, steps, Tried(c, skipped, k), StartDial);
      more, s := OneMore(c, more, s, DialFails(k));
      more, t := OneMore(c, more, s, Boost(k, true));
    }
    assert t.errors == seq(k + 1, i => i);
    assert t.dials == Tried(c, skipped, k + 1).dials;
  }

  lemma {:induction false} TryFirst(c: Config, skipped: seq<bool>, k: nat) returns (steps: seq<Step>)
    requires |skipped| == |c.order| && k <= |c.order|
    ensures Reaches(c, steps, Tried(c, skipped, k))
  {
    if k == 0 {
      steps := [];
      assert Init(c) == Tried(c, skipped, 0);
    } else {
      steps := TryFirst(c, skipped, k - 1);
      steps := TryNext(c, skipped, k - 1, steps);
    }
  }

  /** Every offer can win after all before it failed or were passed over. */
  lemma CanWin(c: Config, skipped: seq<bool>, k: nat) returns (steps: seq<Step>, t: State)
    requires |skipped| == |c.order| && k < |c.order|
    ensures Reaches(c, steps, t) && Quiescent(t) && t.caller == Returned(Conn(k))
    ensures t.dials == Tried(c, skipped, k).dials[k := Recorded]
    ensures t.lastID == if c.storeIndex then c.order[k] else c.lastID
  {
    var s := Tried(c, skipped, k);
    steps := TryFirst(c, skipped, k);
    steps, t := OneMore(c, steps, s, StartDial);
    steps, t := OneMore(c, steps, t, DialSucceeds(k));
    steps, t := OneMore(c, steps, t, Deliver(k));
    steps, t := OneMore(c, steps, t, Record(k));
    steps, t := OneMore(c, steps, t, Return);
    steps, t := OneMore(c, steps, t, QuitOffering);
  }

  /** All offers can fail or be passed over, and then the caller gets all their errors. */
  lemma CanFail(c: Config, skipped: seq<bool>) returns (steps: seq<Step>, t: State)
    requires |skipped| == |c.order|
    ensures Reaches(c, steps, t) && Quiescent(t)
    ensures t.caller == Returned(Error(ByDriver(seq(|c.order|, i => i))))
    ensures t.dials == Tried(c, skipped, |c.order|).dials
  {
    var n := |c.order|;
    t := Tried(c, skipped, n);
    steps := TryFirst(c, skipped, n);
    steps, t := OneMore(c, steps, t, BeginDrain);
    steps, t := OneMore(c, steps, t, Finish);
    steps, t := OneMore(c, steps, t, SeeCancel);
    steps, t := OneMore(c, steps, t, Return);
  }

  /** The first k + 1 offers are under way, the last of them just made. */
  ghost function UnderWay(c: Config, k: nat): State
    requires k < |c.order|
  {
    State(seq(|c.order|, i => if i <= k then Dialing else NotStarted), Pausing(k + 1), Selecting, None, [], c.lastID)
  }

  lemma {:induction false} DialSlowly(c: Config, k: nat) returns (steps: seq<Step>)
    requires k < |c.order|
    ensures Reaches(c, steps, UnderWay(c, k))
  {
    var t;
    if k == 0 {
      steps, t := OneMore(c, [], Init(c), StartDial);
    } else {
      steps := DialSlowly(c, k - 1);
      steps, t := OneMore(c, steps, UnderWay(c, k - 1), PauseOver);
      steps, t := OneMore(c, steps, t, StartDial);
    }
    assert t.dials == UnderWay(c, k).dials;
  }

  /** After k has won: the first j of the others have connected too late and closed their connection. */
  ghost function WonBy(c: Config, k: nat, j: nat): State
    requires j <= k < |c.order|
  {
    State(
      seq(|c.order|, i => if i > k then NotStarted else if i == k then Recorded else if i < j then Closed else Dialing),
      Pausing(k + 1), Returned(Conn(k)), Some(ByCaller), [], if c.storeIndex then c.order[k] else c.lastID)
  }

  lemma {:induction false} CloseLate(c: Config, k: nat, j: nat, steps: seq<Step>) returns (more: seq<Step>)
    requires j <= k < |c.order| && Reaches(c, steps, WonBy(c, k, 0))
    ensures Reaches(c, more, WonBy(c, k, j))
  {
    if j == 0 {
      more := steps;
    } else {
      more := CloseLate(c, k, j - 1, steps);
      var t;
      more, t := OneMore(c, more, WonBy(c, k, j - 1), DialSucceeds(j - 1));
      more, t := OneMore(c, more, t, CloseConn(j - 1));
      assert t.dials == WonBy(c, k, j).dials;
    }
  }

  /** Every offer can win while all before it are still under way; these then close what they get. */
  lemma CanWinRace(c: Config, k: nat) returns (steps: seq<Step>, t: State)
    requires k < |c.order|
    ensures Reaches(c, steps, t) && Quiescent(t) && t.caller == Returned(Conn(k))
    ensures forall i :: 0 <= i < k ==> At(t, i, Closed)
  {
    steps := DialSlowly(c, k);
    steps, t := OneMore(c, steps, UnderWay(c, k), DialSucceeds(k));
    steps, t := OneMore(c, steps, t, Deliver(k));
    steps, t := OneMore(c, steps, t, Record(k));
    steps, t := OneMore(c, steps, t, Return);
    assert t.dials == WonBy(c, k, 0).dials;
    steps := CloseLate(c, k, k, steps);
    steps, t := OneMore(c, steps, WonBy(c, k, k), QuitOffering);
  }

  lemma ParentCancels(c: Config) returns (steps: seq<Step>)
    ensures Run(c, Init(c), steps, Init(c).(ctx := Some(ByParent), caller := Returned(Error(ByParent))))
  {
    var t;
    steps, t := Onward(c, [], Init(c), CancelParent);
    steps, t := Onward(c, steps, t, SeeCancel);
    steps, t := Onward(c, steps, t, Return);
  }

  /** A race that the parent cancels at once returns the parent's cause. */
  lemma CanBeCancelled(c: Config) returns (steps: seq<Step>, t: State)
    requires |c.order| > 0
    ensures Run(c, Init(c), steps, t) && Quiescent(t) && t.caller == Returned(Error(ByParent))
  {
    var s := Init(c).(ctx := Some(ByParent), caller := Returned(Error(ByParent)));
    steps := ParentCancels(c);
    steps, t := Onward(c, steps, s, StartDial);
    steps, t := Onward(c, steps, t, DialFails(0));
    steps, t := Onward(c, steps, t, Boost(0, false));
    steps, t := Onward(c, steps, t, QuitOffering);
  }

  // ---- Several races of one Set ----------------------------------------------------------

  /** The races of a Set run beside each other and share the remembered index. */
  datatype Races = Races(configs: seq<Config>, states: seq<State>, lastID: int)

  datatype Move = Start(c: Config) | Act(r: nat, a: Step)

  predicate Possible(rs: Races, m: Move) {
    |rs.configs| == |rs.states| &&
    match m
    case Start(c) => c.lastID == rs.lastID
    case Act(r, a) =>
      r < |rs.states| && |rs.states[r].dials| == |rs.configs[r].order| && Enabled(rs.configs[r], rs.states[r], a)
  }

  function Moved(rs: Races, m: Move): Races
    requires Possible(rs, m)
  {
    match m
    case Start(c) => rs.(configs := rs.configs + [c], states := rs.states + [Init(c)])
    case Act(r, a) =>
      var c := rs.configs[r];
      rs.(states := rs.states[r := Apply(c, rs.states[r], a)],
          lastID := if a.Record? && c.storeIndex then c.order[a.k] else rs.lastID)
  }

  predicate RunRaces(rs: Races, moves: seq<Move>, ts: Races)
    decreases |moves|
  {
    if moves == [] then rs == ts
    else Possible(rs, moves[0]) && RunRaces(Moved(rs, moves[0]), moves[1..], ts)
  }

  /** The steps of one race. */
  function Own(moves: seq<Move>, r: nat): seq<Step> {
    if moves == [] then []
    else (if moves[0].Act? && moves[0].r == r then [moves[0].a] else []) + Own(moves[1..], r)
  }

  lemma {:induction false} RunSnoc(c: Config, s: State, steps: seq<Step>, m: State, a: Step)
    requires |s.dials| == |c.order| && Run(c, s, steps, m) && |m.dials| == |c.order| && Enabled(c, m, a)
    ensures Run(c, s, steps + [a], Apply(c, m, a))
    decreases |steps|
  {
    if steps == [] {
      assert steps + [a] == [a] && [a][1..] == [];
    } else {
      assert (steps + [a])[1..] == steps[1..] + [a];
      RunSnoc(c, Apply(c, s, steps[0]), steps[1..], m, a);
    }
  }

  /** Race r so far: not begun, or a run of its own steps. */
  ghost predicate RunsAlone(rs: Races, r: nat, done: seq<Step>) {
    |rs.configs| == |rs.states| &&
    if r < |rs.states| then Run(rs.configs[r], Init(rs.configs[r]), done, rs.states[r]) else done == []
  }

  lemma MoveRunsAlone(rs: Races, m: Move, r: nat, done: seq<Step>)
    requires Possible(rs, m) && RunsAlone(rs, r, done)
    ensures RunsAlone(Moved(rs, m), r, done + if m.Act? && m.r == r then [m.a] else [])
  {
    assert done + [] == done;
    if m.Act? && m.r == r {
      RunSnoc(rs.configs[r], Init(rs.configs[r]), done, rs.states[r], m.a);
    }
  }

  lemma Regroup<T>(a: seq<T>, b: seq<T>, c: seq<T>)
    ensures a + b + c == a + (b + c)
  {
  }

  /** Each race runs as if it were alone, so that all that is proved of one race holds of each. */
  lemma {:induction false} RacesRunAlone(rs: Races, moves: seq<Move>, ts: Races, r: nat, done: seq<Step>)
    requires RunRaces(rs, moves, ts) && RunsAlone(rs, r, done)
    ensures RunsAlone(ts, r, done + Own(moves, r))
    decreases |moves|
  {
    if moves == [] {
      assert done + Own(moves, r) == done;
    } else {
      var one := if moves[0].Act? && moves[0].r == r then [moves[0].a] else [];
      MoveRunsAlone(rs, moves[0], r, done);
      RacesRunAlone(Moved(rs, moves[0]), moves[1..], ts, r, done + one);
      assert Own(moves, r) == one + Own(moves[1..], r);
      Regroup(done, one, Own(moves[1..], r));
    }
  }

  /** The remembered index is the first one or that of a dial which some race has recorded. */
  ghost predicate Remembered(rs: Races, first: int) {
    |rs.configs| == |rs.states| && (rs.lastID == first || exists r: nat, k: nat :: RecordedAt(rs, r, k))
  }

  ghost predicate RecordedAt(rs: Races, r: nat, k: nat) {
    && r < |rs.states| && r < |rs.configs| && |rs.states[r].dials| == |rs.configs[r].order|
    && rs.configs[r].storeIndex && At(rs.states[r], k, Recorded) && rs.lastID == rs.configs[r].order[k]
  }

  lemma MoveRemembers(rs: Races, m: Move, first: int)
    requires Possible(rs, m) && Remembered(rs, first)
    ensures Remembered(Moved(rs, m), first)
  {
    var ts := Moved(rs, m);
    if m.Act? && m.a.Record? && rs.configs[m.r].storeIndex {
      assert RecordedAt(ts, m.r, m.a.k);
    } else if rs.lastID != first {
      var r: nat, k: nat :| RecordedAt(rs, r, k);
      assert RecordedAt(ts, r, k);
    }
  }

  lemma {:induction false} RacesRemember(rs: Races, moves: seq<Move>, ts: Races, first: int)
    requires RunRaces(rs, moves, ts) && Remembered(rs, first)
    ensures Remembered(ts, first)
    decreases |moves|
  {
    if moves == [] {
    } else {
      MoveRemembers(rs, moves[0], first);
      RacesRemember(Moved(rs, moves[0]), moves[1..], ts, first);
    }
  }

  /** However many races of a Set of n members run beside each other, the index they share is the one
      it had at the beginning, or the member of a connection that one of them handed to its caller;
      it always names a member. */
  lemma SharedIndex(first: int, moves: seq<Move>, ts: Races, n: nat)
    requires RunRaces(Races([], [], first), moves, ts) && -1 <= first < n
    requires forall r, k :: 0 <= r < |ts.configs| && 0 <= k < |ts.configs[r].order| ==> ts.configs[r].order[k] < n
    ensures -1 <= ts.lastID < n
    ensures ts.lastID == first ||
            exists r: nat, k: nat ::
              RecordedAt(ts, r, k) && !ts.states[r].caller.Selecting? && ts.states[r].caller.result == Conn(k)
  {
    var rs := Races([], [], first);
    RacesRemember(rs, moves, ts, first);
    if ts.lastID != first {
      var r: nat, k: nat :| RecordedAt(ts, r, k);
      assert ts.configs[r].order[k] < n;
      RacesRunAlone(rs, moves, ts, r, []);
      assert [] + Own(moves, r) == Own(moves, r);
      AtMostOneConnection(ts.configs[r], Own(moves, r), ts.states[r], k, k);
    }
  }

  /** A move that stores an index. */
  ghost predicate Stores(configs: seq<Config>, m: Move) {
    && m.Act? && m.a.Record? && m.r < |configs| && configs[m.r].storeIndex
    && m.a.k < |configs[m.r].order|
  }

  lemma {:induction false} ConfigsGrow(rs: Races, moves: seq<Move>, ts: Races)
    requires RunRaces(rs, moves, ts)
    ensures rs.configs <= ts.configs
    decreases |moves|
  {
    if moves == [] {
    } else {
      ConfigsGrow(Moved(rs, moves[0]), moves[1..], ts);
    }
  }

  /** The shared index is the member of the last recorded dial of a race that stores its index, and
      the first value if there was none. */
  lemma {:induction false} LastRecordWins(rs: Races, moves: seq<Move>, ts: Races)
    requires RunRaces(rs, moves, ts)
    ensures (forall i :: 0 <= i < |moves| ==> !Stores(ts.configs, moves[i])) ==> ts.lastID == rs.lastID
    ensures forall i :: 0 <= i < |moves| && Stores(ts.configs, moves[i])
                        && (forall j :: i < j < |moves| ==> !Stores(ts.configs, moves[j]))
                        ==> ts.lastID == ts.configs[moves[i].r].order[moves[i].a.k]
    decreases |moves|
  {
    if moves == [] {
    } else {
      var next := Moved(rs, moves[0]);
      ConfigsGrow(rs, moves, ts);
      LastRecordWins(next, moves[1..], ts);
      assert forall j :: 0 < j < |moves| ==> moves[j] == moves[1..][j - 1];
    }
  }
}
