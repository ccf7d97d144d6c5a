/**
Compiling route rules to matchers.  Each expression of a rule becomes the conjunction of its
recognised conditions, in an order that puts cheap tests first; the rule accepts when one of
its expressions does; the first rule that accepts decides the mode of a connection.
*/
module RuleMatch {
  import opened Options

  /** Where a connection came in: several names, and a single one unless it is empty. */
  datatype Source = Source(name: string, names: seq<string>)

  /** An expression as it is stored: a type and whatever objects are present. */
  datatype Expr = Expr(
    kind: string,
    all: seq<Expr>,
    any: seq<Expr>,
    not: Option<Expr>,
    host: Option<string>,
    process: Option<string>,
    inbound: Option<Source>,
    network: Option<string>,
    port: Option<string>,
    geoip: Option<string>)

  /** What can be asked about a connection. */
  datatype Leaf =
    | InList(list: string)
    | Inbound(names: set<string>)
    | Network(network: string)
    | Port(ports: string)
    | Geo(countries: string)

  /** A connection: the answers to all questions. */
  type Env = Leaf -> bool

  datatype Matcher = Test(leaf: Leaf) | And(matchers: seq<Matcher>) | Or(matchers: seq<Matcher>)

  // ---- Evaluation -------------------------------------------------------------------

  predicate Accepts(m: Matcher, env: Env) {
    match m
    case Test(leaf) => env(leaf)
    case And(ms) => forall x :: x in ms ==> Accepts(x, env)
    case Or(ms) => exists x :: x in ms && Accepts(x, env)
  }

  /** The tests that a conjunction makes, up to the first that fails. */
  function NeededByAll(ms: seq<Matcher>, env: Env): seq<Leaf>
    decreases ms
  {
    if ms == [] then []
    else Needed(ms[0], env) + if Accepts(ms[0], env) then NeededByAll(ms[1..], env) else []
  }

  /** The tests that alternatives make, up to the first that holds. */
  function NeededByAny(ms: seq<Matcher>, env: Env): seq<Leaf>
    decreases ms
  {
    if ms == [] then []
    else Needed(ms[0], env) + if Accepts(ms[0], env) then [] else NeededByAny(ms[1..], env)
  }

  function Needed(m: Matcher, env: Env): seq<Leaf>
    decreases m
  {
    match m
    case Test(leaf) => [leaf]
    case And(ms) => NeededByAll(ms, env)
    case Or(ms) => NeededByAny(ms, env)
  }

  ghost predicate SameAnswers(asked: seq<Leaf>, env: Env, other: Env) {
    forall l :: l in asked ==> env(l) == other(l)
  }

  /** The tests made decide: a connection with the same answers to them is matched alike. */
  lemma {:induction false} NeededDecide(m: Matcher, env: Env, other: Env)
    requires SameAnswers(Needed(m, env), env, other)
    ensures Accepts(m, env) == Accepts(m, other)
    decreases m
  {
    match m {
      case Test(leaf) => assert leaf in Needed(m, env);
      case And(ms) => NeededDecideAll(ms, env, other);
      case Or(ms) => NeededDecideAny(ms, env, other);
    }
  }

  lemma {:induction false} NeededDecideAll(ms: seq<Matcher>, env: Env, other: Env)
    requires SameAnswers(NeededByAll(ms, env), env, other)
    ensures (forall x :: x in ms ==> Accepts(x, env)) == (forall x :: x in ms ==> Accepts(x, other))
    decreases ms
  {
    if ms == [] {
    } else {
      assert ms == [ms[0]] + ms[1..];
      NeededDecide(ms[0], env, other);
      if Accepts(ms[0], env) {
        NeededDecideAll(ms[1..], env, other);
      }
    }
  }

  lemma {:induction false} NeededDecideAny(ms: seq<Matcher>, env: Env, other: Env)
    requires SameAnswers(NeededByAny(ms, env), env, other)
    ensures (exists x :: x in ms && Accepts(x, env)) == (exists x :: x in ms && Accepts(x, other))
    decreases ms
  {
    if ms == [] {
    } else {
      assert ms == [ms[0]] + ms[1..];
      NeededDecide(ms[0], env, other);
      if !Accepts(ms[0], env) {
        NeededDecideAny(ms[1..], env, other);
      }
    }
  }

  /** Behind the first alternative that holds nothing is asked. */
  lemma {:induction false} AnyStopsAtFirst(ms: seq<Matcher>, i: nat, env: Env)
    requires i < |ms| && Accepts(ms[i], env)
    ensures NeededByAny(ms, env) == NeededByAny(ms[..i + 1], env)
    decreases i
  {
    var head := ms[..i + 1];
    assert head[0] == ms[0] && head[1..] == ms[1..][..i];
    if i == 0 || Accepts(ms[0], env) {
    } else {
      AnyStopsAtFirst(ms[1..], i - 1, env);
    }
  }

  /** Behind the first condition that fails nothing is asked. */
  lemma {:induction false} AllStopsAtFirst(ms: seq<Matcher>, i: nat, env: Env)
    requires i < |ms| && !Accepts(ms[i], env)
    ensures NeededByAll(ms, env) == NeededByAll(ms[..i + 1], env)
    decreases i
  {
    var head := ms[..i + 1];
    assert head[0] == ms[0] && head[1..] == ms[1..][..i];
    if i == 0 || !Accepts(ms[0], env) {
    } else {
      AllStopsAtFirst(ms[1..], i - 1, env);
    }
  }

  /** Evaluation stops at the first test that decides; `asked` are the tests made. */
  method Match(m: Matcher, env: Env) returns (ok: bool, asked: seq<Leaf>)
    ensures ok == Accepts(m, env) && asked == Needed(m, env)
    decreases m
  {
    match m {
      case Test(leaf) =>
        ok, asked := env(leaf), [leaf];
      case And(ms) =>
        ok, asked := MatchAll(ms, env);
      case Or(ms) =>
        ok, asked := MatchAny(ms, env);
    }
  }

  method MatchAll(ms: seq<Matcher>, env: Env) returns (ok: bool, asked: seq<Leaf>)
    ensures ok <==> forall x :: x in ms ==> Accepts(x, env)
    ensures asked == NeededByAll(ms, env)
    decreases ms, 0
  {
    asked := [];
    assert ms[0..] == ms;
    for i := 0 to |ms|
      invariant forall j :: 0 <= j < i ==> Accepts(ms[j], env)
      invariant asked + NeededByAll(ms[i..], env) == NeededByAll(ms, env)
    {
      assert ms[i..][1..] == ms[i + 1..];
      var yes, more := Match(ms[i], env);
      Regroup(asked, more, NeededByAll(ms[i + 1..], env));
      asked := asked + more;
      if !yes {
        assert ms[i] in ms;
        return false, asked;
      }
    }
    ok := true;
  }

  method MatchAny(ms: seq<Matcher>, env: Env) returns (ok: bool, asked: seq<Leaf>)
    ensures ok <==> exists x :: x in ms && Accepts(x, env)
    ensures asked == NeededByAny(ms, env)
    decreases ms, 0
  {
    asked := [];
    assert ms[0..] == ms;
    for i := 0 to |ms|
      invariant forall j :: 0 <= j < i ==> !Accepts(ms[j], env)
      invariant asked + NeededByAny(ms[i..], env) == NeededByAny(ms, env)
    {
      assert ms[i..][1..] == ms[i + 1..];
      var yes, more := Match(ms[i], env);
      Regroup(asked, more, NeededByAny(ms[i + 1..], env));
      asked := asked + more;
      if yes {
        assert ms[i] in ms;
        return true, asked;
      }
    }
    ok := false;
  }

  lemma Regroup<T>(a: seq<T>, b: seq<T>, c: seq<T>)
    ensures a + (b + c) == (a + b) + c && a + (b + []) == a + b
  {
  }

  // ---- Compilation ------------------------------------------------------------------

  /** The condition an expression states, if its type is known and its object present. */
  function Recognise(e: Expr): Option<Leaf> {
    match e.kind
    case "host" => if e.host.Some? then Some(InList(e.host.value)) else None
    case "process" => if e.process.Some? then Some(InList(e.process.value)) else None
    case "inbound" =>
      if e.inbound.None? then None
      else
        var names := e.inbound.value.names + if e.inbound.value.name != "" then [e.inbound.value.name] else [];
        Some(Inbound(set n | n in names && n != ""))
    case "network" => if e.network.Some? then Some(Network(e.network.value)) else None
    case "port" => if e.port.Some? then Some(Port(e.port.value)) else None
    case "geoip" => if e.geoip.Some? then Some(Geo(e.geoip.value)) else None
    case _ => None
  }

  function Flatten(e: Expr): seq<Expr> {
    if e.kind == "all" then e.all else [e]
  }

  /** How expensive a test is; unknown types come last. */
  function Rank(e: Expr): int {
    match e.kind
    case "port" => 1
    case "network" => 1
    case "process" => 2
    case "inbound" => 3
    case "geoip" => 4
    case "host" => 5
    case _ => 6
  }

  ghost predicate SortedBy<T>(key: T -> int, xs: seq<T>) {
    forall i, j :: 0 <= i < j < |xs| ==> key(xs[i]) <= key(xs[j])
  }

  /** Sorts by a key; nothing is promised about the order of equal keys. */
  method SortBy<T(==)>(key: T -> int, xs: seq<T>) returns (r: seq<T>)
    ensures multiset(r) == multiset(xs) && SortedBy(key, r)
  {
    r := [];
    for n := 0 to |xs|
      invariant multiset(r) == multiset(xs[..n]) && SortedBy(key, r)
    {
      assert xs[..n + 1] == xs[..n] + [xs[n]];
      r := InsertBy(key, r, xs[n]);
    }
    assert xs[..|xs|] == xs;
  }

  method InsertBy<T(==)>(key: T -> int, xs: seq<T>, x: T) returns (r: seq<T>)
    requires SortedBy(key, xs)
    ensures multiset(r) == multiset(xs) + multiset{x} && SortedBy(key, r)
  {
    var i := 0;
    while i < |xs| && key(xs[i]) <= key(x)
      invariant 0 <= i <= |xs|
      invariant forall j :: 0 <= j < i ==> key(xs[j]) <= key(x)
    {
      i := i + 1;
    }
    r := Spliced(key, xs, i, x);
  }

  function Spliced<T(==)>(key: T -> int, xs: seq<T>, i: nat, x: T): (r: seq<T>)
    requires i <= |xs| && SortedBy(key, xs)
    requires forall j :: 0 <= j < i ==> key(xs[j]) <= key(x)
    requires i < |xs| ==> key(x) <= key(xs[i])
    ensures multiset(r) == multiset(xs) + multiset{x} && SortedBy(key, r)
  {
    assert xs == xs[..i] + xs[i..];
    xs[..i] + [x] + xs[i..]
  }

  /** Nothing stands before a cheaper test: ports and networks, then processes, inbounds, countries and
      hosts, then the rest. */
  ghost predicate CheapFirst(r: seq<Expr>) {
    forall i, j :: 0 <= i < j < |r| ==>
      && (r[j].kind in {"port", "network"} ==> r[i].kind in {"port", "network"})
      && (r[j].kind == "process" ==> r[i].kind in {"port", "network", "process"})
      && (r[j].kind == "inbound" ==> r[i].kind in {"port", "network", "process", "inbound"})
      && (r[j].kind == "geoip" ==> r[i].kind in {"port", "network", "process", "inbound", "geoip"})
      && (r[j].kind == "host" ==> r[i].kind in {"port", "network", "process", "inbound", "geoip", "host"})
  }

  method SortRule(es: seq<Expr>) returns (r: seq<Expr>)
    ensures multiset(r) == multiset(es) && CheapFirst(r)
  {
    r := SortBy(Rank, es);
    forall i, j | 0 <= i < j < |r| ensures Rank(r[i]) <= Rank(r[j]) {
    }
  }

  /** The object that goes with the type is there. */
  predicate Present(e: Expr) {
    || (e.kind == "host" && e.host.Some?)
    || (e.kind == "process" && e.process.Some?)
    || (e.kind == "inbound" && e.inbound.Some?)
    || (e.kind == "network" && e.network.Some?)
    || (e.kind == "port" && e.port.Some?)
    || (e.kind == "geoip" && e.geoip.Some?)
  }

  /** What a single condition asks of a connection. */
  predicate Holds(e: Expr, env: Env) {
    || (e.kind == "host" && e.host.Some? && env(InList(e.host.value)))
    || (e.kind == "process" && e.process.Some? && env(InList(e.process.value)))
    || (e.kind == "inbound" && e.inbound.Some? && env(Inbound(NamesOf(e.inbound.value))))
    || (e.kind == "network" && e.network.Some? && env(Network(e.network.value)))
    || (e.kind == "port" && e.port.Some? && env(Port(e.port.value)))
    || (e.kind == "geoip" && e.geoip.Some? && env(Geo(e.geoip.value)))
  }

  /** The names that count; an empty one never does. */
  function NamesOf(s: Source): set<string> {
    (set n | n in s.names) + {s.name} - {""}
  }

  /** A condition is recognised exactly when its object is there, and asks what it should. */
  lemma RecognisesConditions(e: Expr, env: Env)
    ensures Recognise(e).Some? <==> Present(e)
    ensures Recognise(e).Some? ==> (env(Recognise(e).value) <==> Holds(e, env))
  {
    if Recognise(e).Some? && e.kind == "inbound" {
      assert Recognise(e).value.names == NamesOf(e.inbound.value);
    }
  }

  /** What one expression of a rule is compiled to mean: all conditions in it whose object is there
      hold. */
  ghost predicate ExprHolds(e: Expr, env: Env) {
    if e.kind == "all" then forall x :: x in e.all && Present(x) ==> Holds(x, env)
    else Present(e) ==> Holds(e, env)
  }

  lemma RecognisedHold(e: Expr, env: Env)
    ensures ExprHolds(e, env) <==> forall x :: x in Flatten(e) && Recognise(x).Some? ==> env(Recognise(x).value)
  {
    forall x
      ensures Recognise(x).Some? <==> Present(x)
      ensures Recognise(x).Some? ==> (env(Recognise(x).value) <==> Holds(x, env))
    {
      RecognisesConditions(x, env);
    }
    if e.kind != "all" {
      assert e in Flatten(e);
    }
  }

  /** A rule holds when one of its expressions does; a rule without expressions never does. */
  ghost predicate RuleHolds(exprs: seq<Expr>, env: Env) {
    exists i :: 0 <= i < |exprs| && ExprHolds(exprs[i], env)
  }

  method CompileExpr(e: Expr) returns (m: Matcher)
    ensures forall env: Env :: Accepts(m, env) <==> ExprHolds(e, env)
    ensures m.Test? || (m.And? && |m.matchers| != 1 && forall x :: x in m.matchers ==> x.Test?)
  {
    var es := SortRule(Flatten(e));
    var tests: seq<Matcher> := [];
    for i := 0 to |es|
      invariant forall x :: x in tests <==>
                  exists j :: 0 <= j < i && Recognise(es[j]).Some? && x == Test(Recognise(es[j]).value)
    {
      var leaf := Recognise(es[i]);
      if leaf.Some? {
        tests := tests + [Test(leaf.value)];
      }
    }
    assert forall x :: x in es <==> x in multiset(es);
    assert forall x :: x in Flatten(e) <==> x in multiset(Flatten(e));
    assert |tests| == 1 ==> tests[0] in tests;
    m := Collapsed(tests);
    forall env: Env
      ensures Accepts(m, env) <==> ExprHolds(e, env)
    {
      CollapsedAccepts(tests, env);
      TestsAreConditions(es, e, tests, env);
    }
  }

  /** One condition stands for itself. */
  function Collapsed(tests: seq<Matcher>): Matcher {
    if |tests| == 1 then tests[0] else And(tests)
  }

  lemma CollapsedAccepts(tests: seq<Matcher>, env: Env)
    ensures Accepts(Collapsed(tests), env) <==> forall x :: x in tests ==> Accepts(x, env)
  {
  }

  lemma TestsAreConditions(es: seq<Expr>, e: Expr, tests: seq<Matcher>, env: Env)
    requires forall x :: x in es <==> x in Flatten(e)
    requires forall x :: x in tests <==>
               exists j :: 0 <= j < |es| && Recognise(es[j]).Some? && x == Test(Recognise(es[j]).value)
    ensures (forall x :: x in tests ==> Accepts(x, env)) <==> ExprHolds(e, env)
  {
    RecognisedHold(e, env);
    if forall x :: x in tests ==> Accepts(x, env) {
      forall x | x in Flatten(e) && Recognise(x).Some?
        ensures env(Recognise(x).value)
      {
        var j :| 0 <= j < |es| && es[j] == x;
        assert Test(Recognise(es[j]).value) in tests;
      }
    }
    if ExprHolds(e, env) {
      forall x | x in tests
        ensures Accepts(x, env)
      {
        var j :| 0 <= j < |es| && Recognise(es[j]).Some? && x == Test(Recognise(es[j]).value);
        assert es[j] in es;
      }
    }
  }

  /** Flattening, sorting and collapsing keep the meaning of a rule, on every connection. */
  method ParseMatcher(exprs: seq<Expr>) returns (m: Matcher)
    ensures forall env: Env :: Accepts(m, env) <==> RuleHolds(exprs, env)
  {
    var ms: seq<Matcher> := [];
    for i := 0 to |exprs|
      invariant |ms| == i
      invariant forall j, env: Env :: 0 <= j < i ==> (Accepts(ms[j], env) <==> ExprHolds(exprs[j], env))
    {
      var x := CompileExpr(exprs[i]);
      ms := ms + [x];
    }
    m := if |ms| == 1 then ms[0] else Or(ms);
  }

  // ---- Routing ----------------------------------------------------------------------

  datatype Rule = Rule(name: string, mode: string, tag: string, disabled: bool, exprs: seq<Expr>)

  datatype Entry = Entry(name: string, mode: string, matcher: Matcher)

  const PROXY := "proxy"

  /** The mode of the first enabled rule that holds, if there is one. */
  ghost function Decision(rules: seq<Rule>, env: Env): Option<string> {
    if rules == [] then None
    else if !rules[0].disabled && RuleHolds(rules[0].exprs, env) then Some(rules[0].mode)
    else Decision(rules[1..], env)
  }

  ghost function FirstHit(entries: seq<Entry>, env: Env): Option<string> {
    if entries == [] then None
    else if Accepts(entries[0].matcher, env) then Some(entries[0].mode)
    else FirstHit(entries[1..], env)
  }

  lemma {:induction false} FirstHitJoin(a: seq<Entry>, b: seq<Entry>, env: Env)
    ensures FirstHit(a + b, env) == if FirstHit(a, env).Some? then FirstHit(a, env) else FirstHit(b, env)
  {
    if a == [] {
      assert a + b == b;
    } else {
      assert (a + b)[1..] == a[1..] + b;
      FirstHitJoin(a[1..], b, env);
    }
  }

  lemma {:induction false} DecisionJoin(a: seq<Rule>, b: seq<Rule>, env: Env)
    ensures Decision(a + b, env) == if Decision(a, env).Some? then Decision(a, env) else Decision(b, env)
  {
    if a == [] {
      assert a + b == b;
    } else {
      assert (a + b)[1..] == a[1..] + b;
      DecisionJoin(a[1..], b, env);
    }
  }

  lemma NextRule(es: seq<Entry>, rules: seq<Rule>, r: Rule, more: seq<Entry>, env: Env)
    requires FirstHit(es, env) == Decision(rules, env)
    requires if r.disabled then more == []
             else exists m :: more == [Entry(r.name, r.mode, m)] && (Accepts(m, env) <==> RuleHolds(r.exprs, env))
    ensures FirstHit(es + more, env) == Decision(rules + [r], env)
    ensures more == [] ==> FirstHit(es, env) == Decision(rules + [r], env)
  {
    FirstHitJoin(es, more, env);
    DecisionJoin(rules, [r], env);
    assert [r][1..] == [] && es + [] == es;
    assert more != [] ==> more[1..] == [];
  }

  class Matchers {
    var entries: seq<Entry>
    var tags: set<string>

    constructor ()
      ensures entries == [] && tags == {}
    {
      entries, tags := [], {};
    }

    /** The entries of some rules; disabled ones leave no trace. */
    method AppendRules(rules: seq<Rule>) returns (es: seq<Entry>)
      modifies this`tags
      ensures forall env: Env :: FirstHit(es, env) == Decision(rules, env)
      ensures tags == old(tags) + set r | r in rules && !r.disabled && r.tag != "" :: r.tag
    {
      es := [];
      for i := 0 to |rules|
        invariant forall env: Env :: FirstHit(es, env) == Decision(rules[..i], env)
        invariant tags == old(tags) + set r | r in rules[..i] && !r.disabled && r.tag != "" :: r.tag
      {
        assert rules[..i + 1] == rules[..i] + [rules[i]];
        if rules[i].disabled {
          forall env: Env
            ensures FirstHit(es, env) == Decision(rules[..i + 1], env)
          {
            NextRule(es, rules[..i], rules[i], [], env);
          }
        } else {
          var m := ParseMatcher(rules[i].exprs);
          var e := Entry(rules[i].name, rules[i].mode, m);
          forall env: Env
            ensures FirstHit(es + [e], env) == Decision(rules[..i + 1], env)
          {
            NextRule(es, rules[..i], rules[i], [e], env);
          }
          es := es + [e];
          if rules[i].tag != "" {
            tags := tags + {rules[i].tag};
          }
        }
      }
      assert rules[..|rules|] == rules;
    }

    /** Replaces all rules. */
    method Update(rules: seq<Rule>)
      modifies this
      ensures forall env: Env :: FirstHit(entries, env) == Decision(rules, env)
      ensures tags == set r | r in rules && !r.disabled && r.tag != "" :: r.tag
    {
      tags := {};
      var es := AppendRules(rules);
      entries := es;
    }

    /** Puts rules behind those already there. */
    method Add(rules: seq<Rule>)
      modifies this
      ensures forall env: Env :: FirstHit(entries, env) ==
                if FirstHit(old(entries), env).Some? then FirstHit(old(entries), env) else Decision(rules, env)
      ensures tags == old(tags) + set r | r in rules && !r.disabled && r.tag != "" :: r.tag
    {
      var es := AppendRules(rules);
      forall env: Env
        ensures FirstHit(entries + es, env) ==
                if FirstHit(entries, env).Some? then FirstHit(entries, env) else FirstHit(es, env)
      {
        FirstHitJoin(entries, es, env);
      }
      entries := entries + es;
    }

    /** The mode of a connection: that of the first rule that accepts it, else proxy. */
    method Route(env: Env) returns (mode: string)
      ensures mode == if FirstHit(entries, env).Some? then FirstHit(entries, env).value else PROXY
    {
      for i := 0 to |entries|
        invariant FirstHit(entries, env) == FirstHit(entries[i..], env)
      {
        var yes, _ := Match(entries[i].matcher, env);
        if yes {
          return entries[i].mode;
        }
        assert entries[i..][1..] == entries[i + 1..];
      }
      return PROXY;
    }
  }

  // ---- What is not recognised -------------------------------------------------------

  /** The expressions that are looked at: those of a conjunction, or the expression itself. */
  ghost predicate PartOf(x: Expr, e: Expr) {
    if e.kind == "all" then x in e.all else x == e
  }

  /** An expression without a condition whose object is there is compiled to one that always holds,
      and such expressions are the only ones. */
  lemma AlwaysHoldsIff(e: Expr)
    ensures (forall env: Env :: ExprHolds(e, env)) <==> forall x :: PartOf(x, e) ==> !Present(x)
  {
    if x :| PartOf(x, e) && Present(x) {
      var never: Env := (l: Leaf) => false;
      assert !ExprHolds(e, never);
    }
  }

  /** What the stored forms of expressions are meant to say. */
  predicate Intended(e: Expr, env: Env) {
    match e.kind
    case "all" => forall x :: x in e.all ==> Intended(x, env)
    case "any" => exists x :: x in e.any && Intended(x, env)
    case "not" => e.not.Some? && !Intended(e.not.value, env)
    case _ => Holds(e, env)
  }

  lemma PresentIsMeant(e: Expr, env: Env)
    requires Present(e)
    ensures Intended(e, env) <==> Holds(e, env)
  {
  }

  /** What is compiled asks for no more than what is meant. */
  lemma IntendedImpliesCompiled(e: Expr, env: Env)
    requires Intended(e, env)
    ensures ExprHolds(e, env)
  {
    forall x | PartOf(x, e) && Present(x) ensures Holds(x, env) {
      assert Intended(x, env);
      PresentIsMeant(x, env);
    }
  }

  /** The parts that compiling skips hold as they are meant. */
  ghost predicate SkippedHold(e: Expr, env: Env) {
    forall x :: PartOf(x, e) && !Present(x) ==> Intended(x, env)
  }

  /** Compiled and meant agree on a connection exactly when the compiled form is not met, or every
      part that is skipped happens to hold of it. */
  lemma CompiledIsIntendedIff(e: Expr, env: Env)
    ensures (ExprHolds(e, env) <==> Intended(e, env)) <==> (ExprHolds(e, env) ==> SkippedHold(e, env))
  {
    if Intended(e, env) {
      IntendedImpliesCompiled(e, env);
      assert forall x :: PartOf(x, e) ==> Intended(x, env);
    } else if ExprHolds(e, env) {
      var x :| PartOf(x, e) && !Intended(x, env);
      if Present(x) {
        PresentIsMeant(x, env);
      }
    }
  }

  ghost predicate RuleIntended(exprs: seq<Expr>, env: Env) {
    exists i :: 0 <= i < |exprs| && Intended(exprs[i], env)
  }

  /** The same for a whole rule: it may accept too much, never too little. */
  lemma RuleIsIntendedIff(exprs: seq<Expr>, env: Env)
    ensures RuleIntended(exprs, env) ==> RuleHolds(exprs, env)
    ensures (RuleHolds(exprs, env) <==> RuleIntended(exprs, env))
            <==> (RuleHolds(exprs, env) ==>
                    exists i :: 0 <= i < |exprs| && ExprHolds(exprs[i], env) && SkippedHold(exprs[i], env))
  {
    forall i | 0 <= i < |exprs|
      ensures Intended(exprs[i], env) ==> ExprHolds(exprs[i], env)
      ensures Intended(exprs[i], env) <==> ExprHolds(exprs[i], env) && SkippedHold(exprs[i], env)
    {
      CompiledIsIntendedIff(exprs[i], env);
      if Intended(exprs[i], env) {
        IntendedImpliesCompiled(exprs[i], env);
      }
    }
  }

  /** A single condition, or a conjunction of conditions, each with its object. */
  predicate Simple(e: Expr) {
    if e.kind == "all" then forall x :: x in e.all ==> Present(x) else Present(e)
  }

  lemma SimpleIsFaithful(e: Expr, env: Env)
    requires Simple(e)
    ensures ExprHolds(e, env) <==> Intended(e, env)
  {
    CompiledIsIntendedIff(e, env);
    assert forall x :: PartOf(x, e) ==> Present(x);
  }

  /** A negation is compiled to a rule for every connection, also those it should exclude. */
  lemma NegationIsLost(e: Expr, env: Env)
    requires e.kind == "not" && e.not.Some? && Intended(e.not.value, env)
    ensures ExprHolds(e, env) && !Intended(e, env)
  {
    CompiledIsIntendedIff(e, env);
  }

  /** A rule on the port asks about the port, and nothing else. */
  lemma PortRule(ports: string, env: Env)
    ensures var e := Expr("port", [], [], None, None, None, None, None, Some(ports), None);
            RuleHolds([e], env) <==> env(Port(ports))
  {
    var e := Expr("port", [], [], None, None, None, None, None, Some(ports), None);
    assert ExprHolds([e][0], env) <==> env(Port(ports));
  }
}
