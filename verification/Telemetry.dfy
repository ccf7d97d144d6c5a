/**
Traffic per dimension.  Connections credit bytes to their counters at any time; a flush takes
what the counters hold, adds it up per dimension and writes it to the database.
*/
module Telemetry {
  import opened Options
  import opened Words

  // ---- Decimal numbers -----------------------------------------------------------------

  predicate Digits(s: string) {
    forall i :: 0 <= i < |s| ==> '0' <= s[i] <= '9'
  }

  ghost function Value(s: string): nat
    requires Digits(s)
  {
    if s == [] then 0 else 10 * Value(s[..|s| - 1]) + (s[|s| - 1] - '0') as int
  }

  lemma {:induction false} WrapScale(v: nat, d: nat)
    ensures Wrap(Wrap(v) * 10 + d) == Wrap(v * 10 + d)
    decreases v
  {
    if v >= B {
      WrapScale(v - B, d);
      var y := v * 10 + d;
      WrapShift(y - B);
      WrapShift(y - 2 * B);
      WrapShift(y - 3 * B);
      WrapShift(y - 4 * B);
      WrapShift(y - 5 * B);
      WrapShift(y - 6 * B);
      WrapShift(y - 7 * B);
      WrapShift(y - 8 * B);
      WrapShift(y - 9 * B);
      WrapShift(y - 10 * B);
    }
  }

  /** A decimal number as a 64-bit word; zero if anything in it is not a digit. */
  ghost function Read(s: string): u64 {
    if Digits(s) then Wrap(Value(s)) else 0
  }

  method ParseUint64(s: string) returns (result: u64)
    ensures result == Read(s)
  {
    result := 0;
    for i := 0 to |s|
      invariant Digits(s[..i]) && result == Wrap(Value(s[..i]))
    {
      if s[i] < '0' || s[i] > '9' {
        return 0;
      }
      assert s[..i + 1][..i] == s[..i];
      WrapScale(Value(s[..i]), (s[i] - '0') as int);
      result := Wrap(result * 10 + (s[i] - '0') as int);
    }
    assert s[..|s|] == s;
  }

  function FormatUint64(x: nat): (s: string)
    ensures Digits(s)
  {
    (if x < 10 then [] else FormatUint64(x / 10)) + ['0' + (x % 10) as char]
  }

  lemma {:induction false} FormattedValue(x: nat)
    ensures Value(FormatUint64(x)) == x
  {
    var s := FormatUint64(x);
    if x >= 10 {
      FormattedValue(x / 10);
      assert s[..|s| - 1] == FormatUint64(x / 10);
    } else {
      assert s[..|s| - 1] == [];
    }
  }

  /** Every 64-bit number survives being written and read. */
  lemma FormatThenParse(x: u64)
    ensures Read(FormatUint64(x)) == x
  {
    FormattedValue(x);
  }

  // ---- What one flush adds up -------------------------------------------------------

  /** What was taken from one counter, for its dimensions. */
  datatype Taken<D> = Taken(dims: seq<D>, down: u64, up: u64)

  datatype Amounts = Amounts(down: string, up: string)

  ghost predicate NoRepeats<D>(dims: seq<D>) {
    forall i, j :: 0 <= i < j < |dims| ==> dims[i] != dims[j]
  }

  ghost predicate Increased(before: Amounts, down: u64, up: u64, after: Amounts) {
    Read(after.down) == Wrap(Read(before.down) + down) && Read(after.up) == Wrap(Read(before.up) + up)
  }

  method Increase(current: Amounts, down: u64, up: u64) returns (after: Amounts)
    ensures Increased(current, down, up, after)
  {
    var d := ParseUint64(current.down);
    var u := ParseUint64(current.up);
    FormatThenParse(Wrap(d + down));
    FormatThenParse(Wrap(u + up));
    after := Amounts(FormatUint64(Wrap(d + down)), FormatUint64(Wrap(u + up)));
  }

  function Current<D>(deltas: map<D, Amounts>, x: D): Amounts {
    if x in deltas then deltas[x] else Amounts("", "")
  }

  /** Adds to every dimension of one counter. */
  method AddTaken<D(==, !new)>(deltas: map<D, Amounts>, t: Taken<D>) returns (after: map<D, Amounts>)
    requires NoRepeats(t.dims)
    ensures forall x :: x in t.dims ==> Increased(Current(deltas, x), t.down, t.up, Current(after, x))
    ensures forall x :: x !in t.dims ==> Current(after, x) == Current(deltas, x)
  {
    after := deltas;
    for i := 0 to |t.dims|
      invariant forall k :: 0 <= k < i ==>
                  Increased(Current(deltas, t.dims[k]), t.down, t.up, Current(after, t.dims[k]))
      invariant forall x :: x !in t.dims[..i] ==> Current(after, x) == Current(deltas, x)
    {
      var x := t.dims[i];
      assert x !in t.dims[..i];
      var more := Increase(Current(after, x), t.down, t.up);
      after := after[x := more];
    }
    assert t.dims[..|t.dims|] == t.dims;
  }

  /** What was taken for a dimension, in the direction that `amount` picks. */
  ghost function Total<D>(all: seq<Taken<D>>, x: D, amount: Taken<D> -> u64): nat {
    if all == [] then 0
    else Total(all[..|all| - 1], x, amount) + Share(all[|all| - 1], x, amount)
  }

  ghost function Share<D>(t: Taken<D>, x: D, amount: Taken<D> -> u64): u64 {
    if x in t.dims then amount(t) else 0
  }

  lemma TotalOn<D>(all: seq<Taken<D>>, t: Taken<D>, x: D, amount: Taken<D> -> u64)
    ensures Wrap(Wrap(Total(all, x, amount)) + Share(t, x, amount)) == Wrap(Total(all + [t], x, amount))
  {
    assert (all + [t])[..|all|] == all;
    WrapAdd(Total(all, x, amount), Share(t, x, amount));
  }

  ghost predicate Totalled<D>(deltas: map<D, Amounts>, all: seq<Taken<D>>, x: D) {
    && Read(Current(deltas, x).down) == Wrap(Total(all, x, (t: Taken<D>) => t.down))
    && Read(Current(deltas, x).up) == Wrap(Total(all, x, (t: Taken<D>) => t.up))
  }

  lemma TotalledOn<D>(deltas: map<D, Amounts>, all: seq<Taken<D>>, t: Taken<D>, after: map<D, Amounts>, x: D)
    requires Totalled(deltas, all, x)
    requires if x in t.dims then Increased(Current(deltas, x), t.down, t.up, Current(after, x))
             else Current(after, x) == Current(deltas, x)
    ensures Totalled(after, all + [t], x)
  {
    TotalOn(all, t, x, (t: Taken<D>) => t.down);
    TotalOn(all, t, x, (t: Taken<D>) => t.up);
  }

  /** The written deltas read back as the totals per dimension, in both directions. */
  method Deltas<D(==, !new)>(all: seq<Taken<D>>) returns (deltas: map<D, Amounts>)
    requires forall t :: t in all ==> NoRepeats(t.dims)
    ensures forall x :: Totalled(deltas, all, x)
  {
    deltas := map[];
    for i := 0 to |all|
      invariant forall x :: Totalled(deltas, all[..i], x)
    {
      var t := all[i];
      assert all[..i + 1] == all[..i] + [t];
      ghost var before := deltas;
      if t.down != 0 || t.up != 0 {
        deltas := AddTaken(deltas, t);
      }
      ghost var done := all[..i + 1];
      forall x ensures Totalled(deltas, done, x) {
        TotalledOn(before, all[..i], t, deltas, x);
      }
    }
    assert all[..|all|] == all;
  }

  // ---- One direction of the recorder ----------------------------------------------------

  datatype Counter<D> = Counter(dims: set<D>, held: u64)

  /** The flush under way: of all counters, or of the one counter that is being removed. */
  datatype Job<D> =
    | Idle
    | Flushing(queue: seq<nat>, deltas: map<D, u64>, removal: Option<nat>)
    | Holding(at: nat, taken: u64, queue: seq<nat>, deltas: map<D, u64>, removal: Option<nat>)

  /** `collected` is the list of a flush that waits for the lock, `flushed` are removals that have
      flushed and not yet deleted their counter.  `persisted` is the table; `credited` and `lost`
      record what came in and what failed writes dropped. */
  datatype State<D> = State(
    counters: seq<Counter<D>>, registered: set<nat>, collected: Option<seq<nat>>, flushed: set<nat>, job: Job<D>,
    persisted: map<D, nat>, lost: map<D, nat>, credited: map<D, nat>)

  datatype Step<D> =
    | Register(dims: set<D>)
    | Credit(i: nat, n: u64)
    | Collect(queue: seq<nat>)
    | Begin
    | BeginRemove(i: nat)
    | Swap(i: nat)
    | Skip
    | Merge
    | Persist(ok: bool)
    | Delete(i: nat)

  ghost function At<D>(m: map<D, nat>, x: D): nat {
    if x in m then m[x] else 0
  }

  ghost function Plus<D>(m: map<D, nat>, dims: set<D>, n: nat): map<D, nat> {
    map x | x in m.Keys + dims :: At(m, x) + if x in dims then n else 0
  }

  ghost function Joined<D>(m: map<D, nat>, more: map<D, nat>): map<D, nat> {
    map x | x in m.Keys + more.Keys :: At(m, x) + At(more, x)
  }

  ghost function Wrapped<D>(m: map<D, nat>): map<D, u64> {
    map x | x in m :: Wrap(m[x])
  }

  ghost predicate Enabled<D>(s: State<D>, step: Step<D>) {
    match step
    case Register(_) => true
    case Credit(i, _) => i < |s.counters|
    case Collect(queue) => s.collected.None? && forall i :: i in queue <==> i in s.registered
    case Begin => s.job.Idle? && s.collected.Some?
    case BeginRemove(i) => s.job.Idle? && i < |s.counters|
    case Swap(i) => s.job.Flushing? && s.job.queue != [] && s.job.queue[0] == i < |s.counters|
    case Skip => s.job.Holding? && s.job.taken == 0
    case Merge => s.job.Holding? && s.job.at < |s.counters|
    case Persist(_) => s.job.Flushing? && s.job.queue == []
    case Delete(i) => i in s.flushed
  }

  ghost function Apply<D>(s: State<D>, step: Step<D>): State<D>
    requires Enabled(s, step)
  {
    match step
    case Register(dims) =>
      s.(counters := s.counters + [Counter(dims, 0)],
         registered := s.registered + if dims == {} then {} else {|s.counters|})
    case Credit(i, n) =>
      var c := s.counters[i];
      s.(counters := s.counters[i := c.(held := Wrap(c.held + n))], credited := Plus(s.credited, c.dims, n))
    case Collect(queue) => s.(collected := Some(queue))
    case Begin => s.(collected := None, job := Flushing(s.collected.value, map[], None))
    case BeginRemove(i) => s.(job := Flushing([i], map[], Some(i)))
    case Swap(i) =>
      var c := s.counters[i];
      s.(counters := s.counters[i := c.(held := 0)],
         job := Holding(i, c.held, s.job.queue[1..], s.job.deltas, s.job.removal))
    case Skip => s.(job := Flushing(s.job.queue, s.job.deltas, s.job.removal))
    case Merge =>
      var deltas := Wrapped(Plus(s.job.deltas, s.counters[s.job.at].dims, s.job.taken));
      s.(job := Flushing(s.job.queue, deltas, s.job.removal))
    case Persist(ok) =>
      var t := s.(job := Idle, flushed := s.flushed + if s.job.removal.Some? then {s.job.removal.value} else {});
      if ok then t.(persisted := Joined(s.persisted, s.job.deltas)) else t.(lost := Joined(s.lost, s.job.deltas))
    case Delete(i) => s.(registered := s.registered - {i}, flushed := s.flushed - {i})
  }

  ghost predicate Run<D>(s: State<D>, steps: seq<Step<D>>, t: State<D>)
    decreases |steps|
  {
    if steps == [] then t == s else Enabled(s, steps[0]) && Run(Apply(s, steps[0]), steps[1..], t)
  }

  ghost predicate Init<D>(s: State<D>) {
    s == State([], {}, None, {}, Idle, map[], map[], map[])
  }

  // ---- Conservation ----------------------------------------------------------------------

  /** What the counters hold for a dimension. */
  ghost function Outstanding<D>(counters: seq<Counter<D>>, x: D): nat {
    if counters == [] then 0
    else Outstanding(counters[..|counters| - 1], x) + Holds(counters[|counters| - 1], x)
  }

  ghost function Holds<D>(c: Counter<D>, x: D): nat {
    if x in c.dims then c.held else 0
  }

  /** What a flush under way has taken for a dimension. */
  ghost function InFlight<D>(s: State<D>, x: D): nat {
    match s.job
    case Idle => 0
    case Flushing(_, deltas, _) => At(deltas, x)
    case Holding(at, taken, _, deltas, _) =>
      At(deltas, x) + if at < |s.counters| && x in s.counters[at].dims then taken else 0
  }

  ghost function Accounted<D>(s: State<D>, x: D): nat {
    At(s.persisted, x) + At(s.lost, x) + InFlight(s, x) + Outstanding(s.counters, x)
  }

  /** As long as a dimension's bytes fit a word, every one of them is in exactly one place. */
  ghost predicate Conserved<D>(s: State<D>, x: D) {
    && (s.job.Holding? ==> s.job.at < |s.counters|)
    && (At(s.credited, x) < B ==> Accounted(s, x) == At(s.credited, x))
  }

  lemma {:induction false} OutstandingUpdate<D>(cs: seq<Counter<D>>, i: nat, c: Counter<D>, x: D)
    requires i < |cs|
    ensures Outstanding(cs[i := c], x) + Holds(cs[i], x) == Outstanding(cs, x) + Holds(c, x)
    decreases |cs|
  {
    var n := |cs| - 1;
    if i == n {
      assert cs[i := c][..n] == cs[..n];
    } else {
      OutstandingUpdate(cs[..n], i, c, x);
      assert cs[i := c][..n] == cs[..n][i := c];
    }
  }

  lemma CreditConserves<D>(s: State<D>, i: nat, n: u64, x: D)
    requires Conserved(s, x) && i < |s.counters|
    ensures Conserved(Apply(s, Credit(i, n)), x)
  {
    var t, c := Apply(s, Credit(i, n)), s.counters[i];
    OutstandingUpdate(s.counters, i, t.counters[i], x);
    OutstandingUpdate(s.counters, i, c.(held := 0), x);
    assert At(t.credited, x) == At(s.credited, x) + if x in c.dims then n else 0;
  }

  lemma SwapConserves<D>(s: State<D>, i: nat, x: D)
    requires Conserved(s, x) && Enabled(s, Swap(i))
    ensures Conserved(Apply(s, Swap(i)), x)
  {
    OutstandingUpdate(s.counters, i, s.counters[i].(held := 0), x);
  }

  lemma MergeConserves<D>(s: State<D>, x: D)
    requires Conserved(s, x) && Enabled(s, Merge)
    ensures Conserved(Apply(s, Merge), x)
  {
  }

  lemma PersistConserves<D>(s: State<D>, ok: bool, x: D)
    requires Conserved(s, x) && Enabled(s, Persist(ok))
    ensures Conserved(Apply(s, Persist(ok)), x)
  {
  }

  lemma StepConserves<D>(s: State<D>, step: Step<D>, x: D)
    requires Conserved(s, x) && Enabled(s, step)
    ensures Conserved(Apply(s, step), x)
  {
    match step
    case Register(dims) =>
      assert (s.counters + [Counter(dims, 0)])[..|s.counters|] == s.counters;
    case Credit(i, n) => CreditConserves(s, i, n, x);
    case Swap(i) => SwapConserves(s, i, x);
    case Merge => MergeConserves(s, x);
    case Persist(ok) => PersistConserves(s, ok, x);
    case _ =>
  }

  lemma {:induction false} RunConserves<D>(s: State<D>, steps: seq<Step<D>>, t: State<D>, x: D)
    requires Conserved(s, x) && Run(s, steps, t)
    ensures Conserved(t, x)
    decreases |steps|
  {
    if steps == [] {
    } else {
      StepConserves(s, steps[0], x);
      RunConserves(Apply(s, steps[0]), steps[1..], t, x);
    }
  }

  lemma {:induction false} NothingLost<D>(s: State<D>, steps: seq<Step<D>>, t: State<D>)
    requires Run(s, steps, t) && forall i :: 0 <= i < |steps| ==> steps[i] != Persist(false)
    ensures t.lost == s.lost
    decreases |steps|
  {
    if steps == [] {
    } else {
      NothingLost(Apply(s, steps[0]), steps[1..], t);
    }
  }

  /** With successful writes, what is persisted, in flight and outstanding is what was credited. */
  lemma EveryByteCounted<D>(s: State<D>, steps: seq<Step<D>>, t: State<D>, x: D)
    requires Init(s) && Run(s, steps, t) && At(t.credited, x) < B
    ensures Accounted(t, x) == At(t.credited, x)
    ensures (forall i :: 0 <= i < |steps| ==> steps[i] != Persist(false)) ==>
              At(t.persisted, x) + InFlight(t, x) + Outstanding(t.counters, x) == At(t.credited, x)
  {
    RunConserves(s, steps, t, x);
    if forall i :: 0 <= i < |steps| ==> steps[i] != Persist(false) {
      NothingLost(s, steps, t);
    }
  }

  // ---- The last flush ------------------------------------------------------------------

  ghost predicate Waiting<D>(s: State<D>, i: nat) {
    (s.collected.Some? && i in s.collected.value) || (!s.job.Idle? && i in s.job.queue)
  }

  /** Whatever registered counter holds bytes is still to be taken by a flush. */
  ghost predicate Draining<D>(s: State<D>) {
    forall i :: 0 <= i < |s.counters| && i in s.registered && s.counters[i].held != 0 ==> Waiting(s, i)
  }

  lemma SwapDrains<D>(s: State<D>, i: nat)
    requires Draining(s) && Enabled(s, Swap(i))
    ensures Draining(Apply(s, Swap(i)))
  {
    var q := s.job.queue;
    assert forall k :: k in q ==> k == q[0] || k in q[1..];
  }

  lemma StepDrains<D>(s: State<D>, step: Step<D>)
    requires Draining(s) && Enabled(s, step) && !step.Credit?
    ensures Draining(Apply(s, step))
  {
    var t := Apply(s, step);
    if step.Swap? {
      SwapDrains(s, step.i);
    } else {
      forall i | 0 <= i < |t.counters| && i in t.registered && t.counters[i].held != 0 ensures Waiting(t, i) {
        assert i < |s.counters| && i in s.registered && Waiting(s, i);
      }
    }
  }

  lemma {:induction false} RunDrains<D>(s: State<D>, steps: seq<Step<D>>, t: State<D>)
    requires Draining(s) && Run(s, steps, t) && forall i :: 0 <= i < |steps| ==> !steps[i].Credit?
    ensures Draining(t)
    decreases |steps|
  {
    if steps == [] {
    } else {
      StepDrains(s, steps[0]);
      RunDrains(Apply(s, steps[0]), steps[1..], t);
    }
  }

  /** What counters that are no longer registered hold for a dimension: no flush will list them. */
  ghost function Stranded<D>(counters: seq<Counter<D>>, registered: set<nat>, x: D): nat {
    if counters == [] then 0
    else
      var n := |counters| - 1;
      Stranded(counters[..n], registered, x) + if n in registered then 0 else Holds(counters[n], x)
  }

  lemma {:induction false} OnlyStranded<D>(cs: seq<Counter<D>>, registered: set<nat>, x: D)
    requires forall i :: 0 <= i < |cs| && i in registered ==> cs[i].held == 0
    ensures Outstanding(cs, x) == Stranded(cs, registered, x)
  {
    if cs == [] {
    } else {
      OnlyStranded(cs[..|cs| - 1], registered, x);
    }
  }

  /** Once nothing is credited any more, a flush of the registered counters leaves all that was
      credited in the table, but for failed writes and what removed counters hold. */
  lemma LastFlushSettles<D>(s: State<D>, queue: seq<nat>, steps: seq<Step<D>>, t: State<D>, x: D)
    requires Conserved(s, x) && Enabled(s, Collect(queue)) && Run(Apply(s, Collect(queue)), steps, t)
    requires forall i :: 0 <= i < |steps| ==> !steps[i].Credit?
    requires t.collected.None? && t.job.Idle? && At(t.credited, x) < B
    ensures At(t.persisted, x) + At(t.lost, x) + Stranded(t.counters, t.registered, x) == At(t.credited, x)
  {
    var u := Apply(s, Collect(queue));
    StepConserves(s, Collect(queue), x);
    RunConserves(u, steps, t, x);
    RunDrains(u, steps, t);
    OnlyStranded(t.counters, t.registered, x);
  }

  // ---- What is stranded ------------------------------------------------------------------

  function SinceStep<D>(step: Step<D>, i: nat, before: nat): nat {
    match step
    case Credit(k, n) => if k == i then before + n else before
    case Swap(k) => if k == i then 0 else before
    case _ => before
  }

  /** What was credited to a counter since its last swap, with `before` at the start. */
  function Since<D>(steps: seq<Step<D>>, i: nat, before: nat): nat
    decreases |steps|
  {
    if steps == [] then before else Since(steps[1..], i, SinceStep(steps[0], i, before))
  }

  ghost predicate HoldsSince<D>(s: State<D>, i: nat, since: nat) {
    if i < |s.counters| then s.counters[i].held == Wrap(since) else since == 0
  }

  lemma StepHolds<D>(s: State<D>, step: Step<D>, i: nat, before: nat)
    requires Enabled(s, step) && HoldsSince(s, i, before)
    ensures HoldsSince(Apply(s, step), i, SinceStep(step, i, before))
  {
    if step.Credit? {
      WrapAdd(before, step.n);
    }
  }

  lemma {:induction false} HeldIsSince<D>(s: State<D>, steps: seq<Step<D>>, t: State<D>, i: nat, before: nat)
    requires Run(s, steps, t) && HoldsSince(s, i, before)
    ensures HoldsSince(t, i, Since(steps, i, before))
    decreases |steps|
  {
    if steps == [] {
    } else {
      StepHolds(s, steps[0], i, before);
      HeldIsSince(Apply(s, steps[0]), steps[1..], t, i, SinceStep(steps[0], i, before));
    }
  }

  /** Some bytes are credited to the counter, and no swap of it follows. */
  ghost predicate CreditedLast<D>(steps: seq<Step<D>>, i: nat) {
    exists j :: 0 <= j < |steps| && CreditedAt(steps, i, j)
  }

  ghost predicate CreditedAt<D>(steps: seq<Step<D>>, i: nat, j: nat)
    requires j < |steps|
  {
    steps[j].Credit? && steps[j].i == i && steps[j].n > 0 && Swap(i) !in steps[j + 1..]
  }

  lemma CreditedLastCons<D>(steps: seq<Step<D>>, i: nat)
    requires steps != []
    ensures CreditedLast(steps, i) <==> CreditedAt(steps, i, 0) || CreditedLast(steps[1..], i)
  {
    var rest := steps[1..];
    if CreditedLast(rest, i) {
      var j :| 0 <= j < |rest| && CreditedAt(rest, i, j);
      assert rest[j + 1..] == steps[j + 2..];
      assert CreditedAt(steps, i, j + 1);
    }
    if CreditedLast(steps, i) && !CreditedAt(steps, i, 0) {
      var j :| 0 <= j < |steps| && CreditedAt(steps, i, j);
      assert rest[j..] == steps[j + 1..];
      assert CreditedAt(rest, i, j - 1);
    }
  }

  lemma {:induction false} SincePositiveIff<D>(steps: seq<Step<D>>, i: nat, before: nat)
    ensures Since(steps, i, before) > 0 <==> CreditedLast(steps, i) || (before > 0 && Swap(i) !in steps)
    decreases |steps|
  {
    if steps == [] {
    } else {
      CreditedLastCons(steps, i);
      assert steps == [steps[0]] + steps[1..];
      SincePositiveIff(steps[1..], i, SinceStep(steps[0], i, before));
    }
  }

  /** A counter is on its way out of the registry, or was swapped, or is still in it. */
  ghost predicate SwappedFirst<D>(s: State<D>, i: nat, swapped: bool) {
    swapped ||
    (&& i !in s.flushed && (i < |s.counters| && s.counters[i].dims != {} ==> i in s.registered)
     && (!s.job.Idle? && s.job.removal == Some(i) ==> i in s.job.queue))
  }

  lemma {:induction false} RemovedWasSwapped<D>(s: State<D>, steps: seq<Step<D>>, t: State<D>, i: nat, swapped: bool)
    requires Run(s, steps, t) && SwappedFirst(s, i, swapped)
    ensures SwappedFirst(t, i, swapped || Swap(i) in steps)
    decreases |steps|
  {
    if steps == [] {
    } else {
      var u := Apply(s, steps[0]);
      assert steps == [steps[0]] + steps[1..];
      var now := swapped || steps[0] == Swap(i);
      assert SwappedFirst(u, i, now) by {
        StepSwappedFirst(s, steps[0], i, swapped);
      }
      RemovedWasSwapped(u, steps[1..], t, i, now);
    }
  }

  lemma StepSwappedFirst<D>(s: State<D>, step: Step<D>, i: nat, swapped: bool)
    requires Enabled(s, step) && SwappedFirst(s, i, swapped)
    ensures SwappedFirst(Apply(s, step), i, swapped || step == Swap(i))
  {
    if step.Swap? && step.i != i && !swapped {
      var q := s.job.queue;
      assert forall k :: k in q ==> k == q[0] || k in q[1..];
    }
  }

  /** A counter that left the registry was swapped before, and strands bytes exactly when some are
      credited to it after its last swap. */
  lemma StrandedIff<D>(s: State<D>, steps: seq<Step<D>>, t: State<D>, i: nat)
    requires Init(s) && Run(s, steps, t) && i < |t.counters| && t.counters[i].dims != {} && i !in t.registered
    requires Since(steps, i, 0) < B
    ensures Swap(i) in steps
    ensures t.counters[i].held > 0 <==> CreditedLast(steps, i)
  {
    RemovedWasSwapped(s, steps, t, i, false);
    HeldIsSince(s, steps, t, i, 0);
    SincePositiveIff(steps, i, 0);
  }

  ghost predicate Strands<D>(cs: seq<Counter<D>>, registered: set<nat>, x: D, i: nat) {
    i < |cs| && i !in registered && Holds(cs[i], x) > 0
  }

  lemma {:induction false} StrandedSomeIff<D>(cs: seq<Counter<D>>, registered: set<nat>, x: D)
    ensures Stranded(cs, registered, x) > 0 <==> exists i: nat :: Strands(cs, registered, x, i)
  {
    if cs == [] {
    } else {
      var n := |cs| - 1;
      var init := cs[..n];
      StrandedSomeIff(init, registered, x);
      if i: nat :| Strands(init, registered, x, i) {
        assert Strands(cs, registered, x, i);
      }
      if i: nat :| Strands(cs, registered, x, i) {
        assert i == n || Strands(init, registered, x, i);
      }
      assert Holds(cs[n], x) > 0 && n !in registered ==> Strands(cs, registered, x, n);
    }
  }

  /** Bytes of a dimension are stranded exactly when some were credited to a counter of it after
      the last swap of that counter, which then left the registry. */
  lemma BytesStrandedIff<D>(s: State<D>, steps: seq<Step<D>>, t: State<D>, x: D)
    requires Init(s) && Run(s, steps, t) && forall i: nat :: Since(steps, i, 0) < B
    ensures Stranded(t.counters, t.registered, x) > 0 <==>
            exists i: nat :: i < |t.counters| && i !in t.registered && x in t.counters[i].dims && CreditedLast(steps, i)
  {
    StrandedSomeIff(t.counters, t.registered, x);
    forall i: nat | i < |t.counters| && i !in t.registered && x in t.counters[i].dims
      ensures Strands(t.counters, t.registered, x, i) <==> CreditedLast(steps, i)
    {
      StrandedIff(s, steps, t, i);
    }
  }

  lemma {:induction false} RunJoin<D>(s: State<D>, a: seq<Step<D>>, m: State<D>, b: seq<Step<D>>, t: State<D>)
    requires Run(s, a, m) && Run(m, b, t)
    ensures Run(s, a + b, t)
    decreases |a|
  {
    if a == [] {
      assert a + b == b;
    } else {
      assert (a + b)[1..] == a[1..] + b;
      RunJoin(Apply(s, a[0]), a[1..], m, b, t);
    }
  }

  lemma OneStep<D>(s: State<D>, step: Step<D>)
    requires Enabled(s, step)
    ensures Run(s, [step], Apply(s, step))
  {
    assert [step][1..] == [];
  }

  ghost function During<D>(
    dims: set<D>, registered: set<nat>, flushed: set<nat>, held: u64, job: Job<D>, credited: map<D, nat>): State<D>
  {
    State([Counter(dims, held)], registered, None, flushed, job, map[], map[], credited)
  }

  lemma RemovalSwaps<D>(dims: set<D>) returns (t: State<D>)
    requires dims != {}
    ensures Run(State([], {}, None, {}, Idle, map[], map[], map[]), [Register(dims), BeginRemove(0)] + [Swap(0)], t)
    ensures t == During(dims, {0}, {}, 0, Holding(0, 0, [], map[], Some(0)), map[])
  {
    var s: State<D> := State([], {}, None, {}, Idle, map[], map[], map[]);
    var s1 := During(dims, {0}, {}, 0, Idle, map[]);
    var s2 := During(dims, {0}, {}, 0, Flushing([0], map[], Some(0)), map[]);
    t := During(dims, {0}, {}, 0, Holding(0, 0, [], map[], Some(0)), map[]);
    assert [0][1..] == [] && s2.counters[0 := Counter(dims, 0)] == s2.counters;
    assert Apply(s, Register(dims)) == s1 && Apply(s1, BeginRemove(0)) == s2 && Apply(s2, Swap(0)) == t;
    OneStep(s, Register(dims));
    OneStep(s1, BeginRemove(0));
    OneStep(s2, Swap(0));
    RunJoin(s, [Register(dims)], s1, [BeginRemove(0)], s2);
    assert [Register(dims)] + [BeginRemove(0)] == [Register(dims), BeginRemove(0)];
    RunJoin(s, [Register(dims), BeginRemove(0)], s2, [Swap(0)], t);
  }

  lemma RemovalEnds<D>(dims: set<D>, credited: map<D, nat>) returns (t: State<D>)
    ensures Run(During(dims, {0}, {}, 5, Holding(0, 0, [], map[], Some(0)), credited),
                [Skip, Persist(true)] + [Delete(0)], t)
    ensures t == During(dims, {}, {}, 5, Idle, credited)
  {
    var s := During(dims, {0}, {}, 5, Holding(0, 0, [], map[], Some(0)), credited);
    var s1 := During(dims, {0}, {}, 5, Flushing([], map[], Some(0)), credited);
    var s2 := During(dims, {0}, {0}, 5, Idle, credited);
    t := During(dims, {}, {}, 5, Idle, credited);
    assert Apply(s, Skip) == s1 && Apply(s1, Persist(true)) == s2 && Apply(s2, Delete(0)) == t;
    OneStep(s, Skip);
    OneStep(s1, Persist(true));
    OneStep(s2, Delete(0));
    RunJoin(s, [Skip], s1, [Persist(true)], s2);
    var first: seq<Step<D>> := [Skip, Persist(true)];
    assert [Skip] + [Persist(true)] == first;
    RunJoin(s, [Skip, Persist(true)], s2, [Delete(0)], t);
  }

  /** A connection is removed; five bytes that are credited between the swap of its counter and the
      deletion never reach the table. */
  lemma CreditDuringRemoval<D>(dims: set<D>, x: D) returns (steps: seq<Step<D>>, t: State<D>)
    requires x in dims
    ensures Run(State([], {}, None, {}, Idle, map[], map[], map[]), steps, t)
    ensures t.job.Idle? && t.registered == {} && At(t.credited, x) == 5
    ensures Stranded(t.counters, t.registered, x) == 5 && At(t.persisted, x) == 0
  {
    var m := RemovalSwaps(dims);
    var n := Apply(m, Credit(0, 5));
    assert n.counters == [Counter(dims, 5)];
    OneStep(m, Credit(0, 5));
    t := RemovalEnds(dims, n.credited);
    var s: State<D> := State([], {}, None, {}, Idle, map[], map[], map[]);
    RunJoin(s, [Register(dims), BeginRemove(0)] + [Swap(0)], m, [Credit(0, 5)], n);
    steps := [Register(dims), BeginRemove(0)] + [Swap(0)] + [Credit(0, 5)] + ([Skip, Persist(true)] + [Delete(0)]);
    RunJoin(
      s, [Register(dims), BeginRemove(0)] + [Swap(0)] + [Credit(0, 5)], n, [Skip, Persist(true)] + [Delete(0)], t);
    assert t.counters[..0] == [];
  }

  // ---- What can happen -------------------------------------------------------------------

  /** The next counter of a flush can be taken and merged. */
  lemma CanTakeNext<D>(s: State<D>) returns (steps: seq<Step<D>>, t: State<D>)
    requires s.job.Flushing? && s.job.queue != [] && s.job.queue[0] < |s.counters|
    ensures Run(s, steps, t) && t.job.Flushing? && t.job.queue == s.job.queue[1..]
    ensures t.lost == s.lost && t.credited == s.credited && t.registered == s.registered
    ensures var i := s.job.queue[0]; t.counters == s.counters[i := s.counters[i].(held := 0)]
  {
    var i := s.job.queue[0];
    var m := Apply(s, Swap(i));
    t := Apply(m, Merge);
    OneStep(s, Swap(i));
    OneStep(m, Merge);
    RunJoin(s, [Swap(i)], m, [Merge], t);
    steps := [Swap(i)] + [Merge];
  }

  /** A flush under way can go through its queue and be written; it empties exactly these counters. */
  lemma {:induction false} CanFinishFlush<D>(s: State<D>) returns (steps: seq<Step<D>>, t: State<D>)
    requires s.job.Flushing? && forall i :: i in s.job.queue ==> i < |s.counters|
    ensures Run(s, steps, t) && t.job.Idle? && t.lost == s.lost && t.credited == s.credited
    ensures t.registered == s.registered && |t.counters| == |s.counters|
    ensures forall i :: 0 <= i < |s.counters| ==>
              t.counters[i] == if i in s.job.queue then s.counters[i].(held := 0) else s.counters[i]
    decreases |s.job.queue|
  {
    var q := s.job.queue;
    if q == [] {
      OneStep(s, Persist(true));
      steps, t := [Persist(true)], Apply(s, Persist(true));
    } else {
      assert q[0] in q && forall j :: j in q <==> j == q[0] || j in q[1..];
      var first, m := CanTakeNext(s);
      var rest;
      rest, t := CanFinishFlush(m);
      RunJoin(s, first, m, rest, t);
      steps := first + rest;
    }
  }

  /** An idle recorder can flush: afterwards no registered counter holds anything, and nothing was
      lost. */
  lemma CanFlush<D>(s: State<D>, queue: seq<nat>) returns (steps: seq<Step<D>>, t: State<D>)
    requires s.job.Idle? && s.collected.None? && forall i :: i in queue <==> i in s.registered
    requires forall i :: i in s.registered ==> i < |s.counters|
    ensures Run(s, steps, t) && t.job.Idle? && t.lost == s.lost && t.credited == s.credited
    ensures t.registered == s.registered && |t.counters| == |s.counters|
    ensures forall i :: i in s.registered ==> t.counters[i].held == 0
  {
    var m := Apply(s, Collect(queue));
    var n := Apply(m, Begin);
    OneStep(s, Collect(queue));
    OneStep(m, Begin);
    RunJoin(s, [Collect(queue)], m, [Begin], n);
    var rest;
    rest, t := CanFinishFlush(n);
    RunJoin(s, [Collect(queue)] + [Begin], n, rest, t);
    steps := [Collect(queue)] + [Begin] + rest;
  }
}
