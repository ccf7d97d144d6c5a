/**
The store of live proxies, operated by many goroutines at once.  Loading or creating a proxy
happens under the read side of a lock, deleting takes no lock, and closing raises a flag, takes
the write side and then deletes everything.  A run interleaves these steps in any order.
*/
module ProxyStore {
  import opened Options

  /** A goroutine in LoadOrCreate. */
  datatype Loader = Locked(key: string) | Admitted(key: string) | Left

  /** A call of Delete, by Close or by others: it owns a proxy it took out of the store until it has
      closed it. */
  datatype Deleter = Holds(proxy: nat, byClose: bool) | Gone

  /** The goroutine in Close; `todo` are the keys it has still to visit, and `busy` is the Delete it
      is waiting for. */
  datatype Closer = NotYet | Flagged | Sweeping(todo: set<string>, busy: Option<nat>) | Finished

  /** Proxies are numbered in the order of their creation. */
  datatype State = State(
    store: map<string, nat>,
    made: nat,
    shut: seq<nat>,
    loaders: seq<Loader>,
    deleters: seq<Deleter>,
    closer: Closer)

  const INIT := State(map[], 0, [], [], [], NotYet)

  datatype Step =
    | Enter(key: string)
    | Check(t: nat)
    | Load(t: nat)
    | Create(t: nat)
    | CreateFails(t: nat)
    | Remove(key: string)
    | Shut(d: nat)
    | Flag
    | Sweep
    | SweepKey(key: string)
    | Finish

  predicate Reading(l: Loader) {
    l.Locked? || l.Admitted?
  }

  predicate Enabled(s: State, a: Step) {
    match a
    case Enter(_) => !s.closer.Sweeping?
    case Check(t) => t < |s.loaders| && s.loaders[t].Locked?
    case Load(t) => t < |s.loaders| && s.loaders[t].Admitted? && s.loaders[t].key in s.store
    case Create(t) => t < |s.loaders| && s.loaders[t].Admitted? && s.loaders[t].key !in s.store
    case CreateFails(t) => t < |s.loaders| && s.loaders[t].Admitted? && s.loaders[t].key !in s.store
    case Remove(key) => key in s.store
    case Shut(d) => d < |s.deleters| && s.deleters[d].Holds?
    case Flag => s.closer.NotYet?
    case Sweep => s.closer.Flagged? && forall t :: 0 <= t < |s.loaders| ==> !Reading(s.loaders[t])
    case SweepKey(key) => s.closer.Sweeping? && s.closer.busy.None? && key in s.closer.todo
    case Finish => s.closer == Sweeping({}, None)
  }

  /** Takes a proxy out of the store in order to close it. */
  function TakeOut(s: State, key: string, byClose: bool): State {
    if key in s.store
    then s.(store := s.store - {key}, deleters := s.deleters + [Holds(s.store[key], byClose)])
    else s
  }

  /** When Close's own Delete is done, Close goes on. */
  function Resumed(c: Closer, d: nat): Closer {
    if c.Sweeping? && c.busy == Some(d) then c.(busy := None) else c
  }

  function Apply(s: State, a: Step): State
    requires Enabled(s, a)
  {
    match a
    case Enter(key) => s.(loaders := s.loaders + [Locked(key)])
    case Check(t) =>
      s.(loaders := s.loaders[t := if s.closer.NotYet? then Admitted(s.loaders[t].key) else Left])
    case Load(t) => s.(loaders := s.loaders[t := Left])
    case Create(t) =>
      s.(store := s.store[s.loaders[t].key := s.made], made := s.made + 1, loaders := s.loaders[t := Left])
    case CreateFails(t) => s.(loaders := s.loaders[t := Left])
    case Remove(key) => TakeOut(s, key, false)
    case Shut(d) =>
      s.(shut := s.shut + [s.deleters[d].proxy], deleters := s.deleters[d := Gone], closer := Resumed(s.closer, d))
    case Flag => s.(closer := Flagged)
    case Sweep => s.(closer := Sweeping(s.store.Keys, None))
    case SweepKey(key) =>
      TakeOut(s, key, true).(
        closer := Sweeping(s.closer.todo - {key}, if key in s.store then Some(|s.deleters|) else None))
    case Finish => s.(closer := Finished)
  }

  predicate Run(s: State, steps: seq<Step>, t: State)
    decreases |steps|
  {
    if steps == [] then s == t
    else Enabled(s, steps[0]) && Run(Apply(s, steps[0]), steps[1..], t)
  }

  // ---- Where every proxy is ---------------------------------------------------------

  ghost predicate Cached(s: State, p: nat) {
    exists key :: key in s.store && s.store[key] == p
  }

  ghost predicate Held(s: State, p: nat) {
    exists d :: 0 <= d < |s.deleters| && s.deleters[d].Holds? && s.deleters[d].proxy == p
  }

  ghost predicate Numbered(s: State) {
    && (forall key :: key in s.store ==> s.store[key] < s.made)
    && (forall d :: 0 <= d < |s.deleters| && s.deleters[d].Holds? ==> s.deleters[d].proxy < s.made)
    && (forall i :: 0 <= i < |s.shut| ==> s.shut[i] < s.made)
  }

  /** Nothing is in two places. */
  ghost predicate Apart(s: State) {
    && (forall k, l :: k in s.store && l in s.store && k != l ==> s.store[k] != s.store[l])
    && (forall d, e :: 0 <= d < e < |s.deleters| && s.deleters[d].Holds? && s.deleters[e].Holds? ==>
          s.deleters[d].proxy != s.deleters[e].proxy)
    && (forall i, j :: 0 <= i < j < |s.shut| ==> s.shut[i] != s.shut[j])
    && (forall k, d :: k in s.store && 0 <= d < |s.deleters| && s.deleters[d].Holds? ==>
          s.deleters[d].proxy != s.store[k])
    && (forall k :: k in s.store ==> s.store[k] !in s.shut)
    && (forall d :: 0 <= d < |s.deleters| && s.deleters[d].Holds? ==> s.deleters[d].proxy !in s.shut)
  }

  ghost predicate Accounted(s: State) {
    forall p :: 0 <= p < s.made ==> Cached(s, p) || Held(s, p) || p in s.shut
  }

  /** From the sweep on nobody is admitted, and what is left is still to be swept. */
  ghost predicate ClosedForGood(s: State) {
    && (s.closer.Sweeping? || s.closer.Finished? ==>
          forall t :: 0 <= t < |s.loaders| ==> !s.loaders[t].Admitted?)
    && (s.closer.Sweeping? ==> s.store.Keys <= s.closer.todo)
    && (s.closer.Finished? ==> s.store == map[])
    && (forall d :: 0 <= d < |s.deleters| && s.deleters[d].Holds? && s.deleters[d].byClose ==>
          s.closer.Sweeping? && s.closer.busy == Some(d))
    && (s.closer.Sweeping? && s.closer.busy.Some? ==>
          s.closer.busy.value < |s.deleters| && s.deleters[s.closer.busy.value].Holds?)
  }

  ghost predicate Inv(s: State) {
    Numbered(s) && Apart(s) && Accounted(s) && ClosedForGood(s)
  }

  lemma TakeOutApart(s: State, key: string, byClose: bool)
    requires Numbered(s) && Apart(s)
    ensures Numbered(TakeOut(s, key, byClose)) && Apart(TakeOut(s, key, byClose))
  {
  }

  lemma CreateApart(s: State, t: nat)
    requires Numbered(s) && Apart(s) && Enabled(s, Create(t))
    ensures Numbered(Apply(s, Create(t))) && Apart(Apply(s, Create(t)))
  {
  }

  lemma ShutApart(s: State, d: nat)
    requires Numbered(s) && Apart(s) && Enabled(s, Shut(d))
    ensures Numbered(Apply(s, Shut(d))) && Apart(Apply(s, Shut(d)))
  {
  }

  /** Places do not depend on who is waiting for what. */
  lemma SamePlaces(s: State, t: State)
    requires Numbered(s) && Apart(s) && s == t.(loaders := s.loaders, closer := s.closer)
    ensures Numbered(t) && Apart(t)
  {
  }

  lemma StepApart(s: State, a: Step)
    requires Numbered(s) && Apart(s) && Enabled(s, a)
    ensures Numbered(Apply(s, a)) && Apart(Apply(s, a))
  {
    match a {
      case Create(t) => CreateApart(s, t);
      case Shut(d) => ShutApart(s, d);
      case Remove(key) => TakeOutApart(s, key, false);
      case SweepKey(key) =>
        TakeOutApart(s, key, true);
        SamePlaces(TakeOut(s, key, true), Apply(s, a));
      case _ => SamePlaces(s, Apply(s, a));
    }
  }

  lemma StepAccounted(s: State, a: Step)
    requires Inv(s) && Enabled(s, a)
    ensures Accounted(Apply(s, a))
  {
    var t := Apply(s, a);
    forall p | 0 <= p < t.made
      ensures Cached(t, p) || Held(t, p) || p in t.shut
    {
      if p == s.made {
        assert t.store[s.loaders[a.t].key] == p;
      } else if Cached(s, p) {
        var key :| key in s.store && s.store[key] == p;
        if key in t.store {
          assert t.store[key] == p;
        } else {
          assert t.deleters[|s.deleters|].proxy == p;
        }
      } else if Held(s, p) {
        var d :| 0 <= d < |s.deleters| && s.deleters[d].Holds? && s.deleters[d].proxy == p;
        if a == Shut(d) {
          assert t.shut[|s.shut|] == p;
        } else {
          assert t.deleters[d] == s.deleters[d];
        }
      } else {
        assert p in s.shut;
      }
    }
  }

  lemma StepClosed(s: State, a: Step)
    requires Inv(s) && Enabled(s, a)
    ensures ClosedForGood(Apply(s, a))
  {
  }

  lemma {:induction false} RunKeepsInv(s: State, steps: seq<Step>, t: State)
    requires Inv(s) && Run(s, steps, t)
    ensures Inv(t)
    decreases |steps|
  {
    if steps == [] {
    } else {
      StepApart(s, steps[0]);
      StepAccounted(s, steps[0]);
      StepClosed(s, steps[0]);
      RunKeepsInv(Apply(s, steps[0]), steps[1..], t);
    }
  }

  /** Every proxy ever created is cached, or in the hands of the one goroutine that took it out,
      or closed; and it was closed at most once. */
  lemma EveryProxyAccounted(steps: seq<Step>, t: State, p: nat)
    requires Run(INIT, steps, t) && p < t.made
    ensures Cached(t, p) || Held(t, p) || p in t.shut
    ensures Cached(t, p) ==> !Held(t, p) && p !in t.shut
    ensures Held(t, p) ==> p !in t.shut
    ensures multiset(t.shut)[p] <= 1
  {
    RunKeepsInv(INIT, steps, t);
    AtMostOnce(t.shut, p);
  }

  lemma {:induction false} AtMostOnce(s: seq<nat>, p: nat)
    requires forall i, j :: 0 <= i < j < |s| ==> s[i] != s[j]
    ensures multiset(s)[p] <= 1
  {
    if s == [] {
    } else {
      var n := |s| - 1;
      AtMostOnce(s[..n], p);
      assert s == s[..n] + [s[n]];
      if p == s[n] {
        assert p !in s[..n];
        assert p !in multiset(s[..n]);
      }
    }
  }

  /** From the end of Close on no Delete starts, nothing is created and nothing comes back. */
  lemma {:induction false} FinishedIsFinal(s: State, steps: seq<Step>, t: State)
    requires Inv(s) && s.closer.Finished? && Run(s, steps, t)
    ensures t.closer.Finished? && t.made == s.made && |t.deleters| == |s.deleters|
    ensures forall d :: 0 <= d < |s.deleters| ==> t.deleters[d] == s.deleters[d] || t.deleters[d].Gone?
    decreases |steps|
  {
    if steps == [] {
    } else {
      var u := Apply(s, steps[0]);
      RunKeepsInv(s, [steps[0]], u);
      FinishedIsFinal(u, steps[1..], t);
    }
  }

  /** After Close the store is empty and stays empty, whatever was in progress when it began; every
      proxy is closed, or in the hands of a Delete of somebody else that had begun before Close
      returned. */
  lemma CloseIsFinal(before: seq<Step>, m: State, after: seq<Step>, t: State)
    requires Run(INIT, before, m) && m.closer.Finished? && Run(m, after, t)
    ensures t.store == map[] && t.made == m.made
    ensures forall p :: 0 <= p < t.made ==> p in t.shut || (HeldByOthers(t, p) && HeldByOthers(m, p))
  {
    RunKeepsInv(INIT, before, m);
    RunKeepsInv(m, after, t);
    FinishedIsFinal(m, after, t);
    forall p | 0 <= p < t.made && p !in t.shut ensures HeldByOthers(t, p) && HeldByOthers(m, p) {
      assert Held(t, p);
      var d :| 0 <= d < |t.deleters| && t.deleters[d].Holds? && t.deleters[d].proxy == p;
      assert t.deleters[d] == m.deleters[d];
    }
  }

  ghost predicate HeldByOthers(s: State, p: nat) {
    exists d :: 0 <= d < |s.deleters| && s.deleters[d] == Holds(p, false)
  }

  /** What others hold, a step of theirs took out of the store. */
  lemma {:induction false} HeldWasRemoved(s: State, steps: seq<Step>, t: State, p: nat) returns (j: nat, m: State)
    requires Run(s, steps, t) && HeldByOthers(t, p) && !HeldByOthers(s, p)
    ensures j < |steps| && Run(s, steps[..j], m) && steps[j].Remove? && Enabled(m, steps[j])
    ensures m.store[steps[j].key] == p
    decreases |steps|
  {
    var u := Apply(s, steps[0]);
    if HeldByOthers(u, p) {
      j, m := 0, s;
      TookOut(s, steps[0], p);
    } else {
      var k: nat;
      k, m := HeldWasRemoved(u, steps[1..], t, p);
      j := k + 1;
      assert steps[..j][1..] == steps[1..][..k];
    }
  }

  lemma TookOut(s: State, a: Step, p: nat)
    requires Enabled(s, a) && HeldByOthers(Apply(s, a), p) && !HeldByOthers(s, p)
    ensures a.Remove? && s.store[a.key] == p
  {
    var t := Apply(s, a);
    var d :| 0 <= d < |t.deleters| && t.deleters[d] == Holds(p, false);
  }

  /** Nothing that Close itself took out is open when Close has returned: what is left was removed by
      somebody else. */
  lemma LeftByOthers(steps: seq<Step>, t: State, p: nat) returns (j: nat, m: State)
    requires Run(INIT, steps, t) && t.closer.Finished? && p < t.made && p !in t.shut
    ensures j < |steps| && Run(INIT, steps[..j], m) && steps[j].Remove? && Enabled(m, steps[j])
    ensures m.store[steps[j].key] == p
  {
    assert Run(t, [], t);
    CloseIsFinal(steps, t, [], t);
    j, m := HeldWasRemoved(INIT, steps, t, p);
  }

  // ---- What can happen -------------------------------------------------------------------

  lemma {:induction false} RunJoin(s: State, a: seq<Step>, m: State, b: seq<Step>, t: State)
    requires Run(s, a, m) && Run(m, b, t)
    ensures Run(s, a + b, t)
    decreases |a|
  {
    if a == [] {
      assert a + b == b;
    } else {
      assert (a + b)[1..] == a[1..] + b;
      RunJoin(Apply(s, a[0]), a[1..], m, b, t);
    }
  }

  lemma Two(s: State, a: Step, b: Step)
    requires Enabled(s, a) && Enabled(Apply(s, a), b)
    ensures Run(s, [a, b], Apply(Apply(s, a), b))
  {
    assert [a, b][1..] == [b] && [b][1..] == [];
  }

  lemma One(s: State, a: Step)
    requires Enabled(s, a)
    ensures Run(s, [a], Apply(s, a))
  {
    assert [a][1..] == [];
  }

  /** While the store is open, a loader is admitted; it finds the proxy of its key, or makes a new one
      that is stored then. */
  lemma CanLoad(s: State, key: string) returns (steps: seq<Step>, t: State)
    requires s.closer.NotYet?
    ensures Run(s, steps, t) && t.loaders == s.loaders + [Left]
    ensures t == s.(loaders := t.loaders,
                    store := if key in s.store then s.store else s.store[key := s.made],
                    made := if key in s.store then s.made else s.made + 1)
  {
    var n := |s.loaders|;
    var m := Apply(Apply(s, Enter(key)), Check(n));
    Two(s, Enter(key), Check(n));
    var last := if key in s.store then Load(n) else Create(n);
    One(m, last);
    t := Apply(m, last);
    RunJoin(s, [Enter(key), Check(n)], m, [last], t);
    steps := [Enter(key), Check(n)] + [last];
    assert t.loaders == s.loaders + [Left];
  }

  /** Whoever deletes a stored proxy closes it. */
  lemma CanDelete(s: State, key: string) returns (steps: seq<Step>, t: State)
    requires key in s.store && !s.closer.Sweeping?
    ensures Run(s, steps, t) && t.store == s.store - {key} && t.shut == s.shut + [s.store[key]]
  {
    var d := |s.deleters|;
    Two(s, Remove(key), Shut(d));
    steps, t := [Remove(key), Shut(d)], Apply(Apply(s, Remove(key)), Shut(d));
  }

  /** A loader that cannot make its proxy leaves everything as it was. */
  lemma CanFailToLoad(s: State, key: string) returns (steps: seq<Step>, t: State)
    requires s.closer.NotYet? && key !in s.store
    ensures Run(s, steps, t) && t == s.(loaders := s.loaders + [Left])
  {
    var n := |s.loaders|;
    var m := Apply(Apply(s, Enter(key)), Check(n));
    Two(s, Enter(key), Check(n));
    One(m, CreateFails(n));
    t := Apply(m, CreateFails(n));
    RunJoin(s, [Enter(key), Check(n)], m, [CreateFails(n)], t);
    steps := [Enter(key), Check(n)] + [CreateFails(n)];
    assert t.loaders == s.loaders + [Left];
  }

  /** A loader under way can leave. */
  lemma CanLeave(s: State, i: nat) returns (steps: seq<Step>, t: State)
    requires i < |s.loaders| && s.closer.Flagged?
    ensures Run(s, steps, t) && t == s.(loaders := s.loaders[i := Left])
  {
    if s.loaders[i].Left? {
      steps, t := [], s;
    } else if s.loaders[i].Locked? {
      One(s, Check(i));
      steps, t := [Check(i)], Apply(s, Check(i));
    } else {
      var a := if s.loaders[i].key in s.store then Load(i) else CreateFails(i);
      One(s, a);
      steps, t := [a], Apply(s, a);
    }
  }

  lemma {:induction false} CanAllLeave(s: State, n: nat) returns (steps: seq<Step>, t: State)
    requires n <= |s.loaders| && s.closer.Flagged?
    ensures Run(s, steps, t) && t == s.(loaders := t.loaders) && |t.loaders| == |s.loaders|
    ensures forall i :: 0 <= i < n ==> t.loaders[i].Left?
  {
    if n == 0 {
      steps, t := [], s;
    } else {
      var first, m := CanAllLeave(s, n - 1);
      var rest;
      rest, t := CanLeave(m, n - 1);
      RunJoin(s, first, m, rest, t);
      steps := first + rest;
    }
  }

  /** Close can go through its keys, also through those that others have removed. */
  lemma {:induction false} CanSweep(s: State) returns (steps: seq<Step>, t: State)
    requires s.closer.Sweeping? && s.closer.busy.None? && s.store.Keys <= s.closer.todo
    ensures Run(s, steps, t) && t.closer.Finished? && t.store == map[]
    ensures forall key :: key in s.store ==> s.store[key] in t.shut
    ensures forall p :: p in s.shut ==> p in t.shut
    decreases |s.closer.todo|
  {
    if s.closer.todo == {} {
      assert s.store.Keys == {};
      One(s, Finish);
      steps, t := [Finish], Apply(s, Finish);
    } else {
      var key :| key in s.closer.todo;
      var first, m := CanSweepKey(s, key);
      var rest;
      rest, t := CanSweep(m);
      RunJoin(s, first, m, rest, t);
      steps := first + rest;
      forall k | k in s.store ensures s.store[k] in t.shut {
        assert k != key ==> m.store[k] == s.store[k];
      }
    }
  }

  lemma CanSweepKey(s: State, key: string) returns (steps: seq<Step>, t: State)
    requires s.closer.Sweeping? && s.closer.busy.None? && key in s.closer.todo
    ensures Run(s, steps, t) && t.closer == Sweeping(s.closer.todo - {key}, None) && t.store == s.store - {key}
    ensures t.shut == s.shut + if key in s.store then [s.store[key]] else []
  {
    var m := Apply(s, SweepKey(key));
    if key in s.store {
      var d := |s.deleters|;
      Two(s, SweepKey(key), Shut(d));
      steps, t := [SweepKey(key), Shut(d)], Apply(m, Shut(d));
    } else {
      One(s, SweepKey(key));
      steps, t := [SweepKey(key)], m;
      assert s.store - {key} == s.store && s.shut + [] == s.shut;
    }
  }

  /** In every reachable state Close can still come to its end, and then all that was stored is closed. */
  lemma CanClose(before: seq<Step>, s: State) returns (steps: seq<Step>, t: State)
    requires Run(INIT, before, s)
    ensures Run(s, steps, t) && t.closer.Finished? && t.store == map[]
    ensures forall key :: key in s.store ==> s.store[key] in t.shut
  {
    RunKeepsInv(INIT, before, s);
    if s.closer.Finished? {
      steps, t := [], s;
    } else if s.closer.Sweeping? {
      steps, t := CanGoOnSweeping(s);
    } else {
      var flagged := s.(closer := Flagged);
      var flag := if s.closer.NotYet? then [Flag] else [];
      if s.closer.NotYet? {
        One(s, Flag);
      }
      var leave, m := CanAllLeave(flagged, |s.loaders|);
      RunJoin(s, flag, flagged, leave, m);
      One(m, Sweep);
      var n := Apply(m, Sweep);
      RunJoin(s, flag + leave, m, [Sweep], n);
      var rest;
      rest, t := CanSweep(n);
      RunJoin(s, flag + leave + [Sweep], n, rest, t);
      steps := flag + leave + [Sweep] + rest;
    }
  }

  lemma CanGoOnSweeping(s: State) returns (steps: seq<Step>, t: State)
    requires Inv(s) && s.closer.Sweeping?
    ensures Run(s, steps, t) && t.closer.Finished? && t.store == map[]
    ensures forall key :: key in s.store ==> s.store[key] in t.shut
  {
    if s.closer.busy.Some? {
      var d := s.closer.busy.value;
      var m := Apply(s, Shut(d));
      One(s, Shut(d));
      var rest;
      rest, t := CanSweep(m);
      RunJoin(s, [Shut(d)], m, rest, t);
      steps := [Shut(d)] + rest;
    } else {
      steps, t := CanSweep(s);
    }
  }
}
