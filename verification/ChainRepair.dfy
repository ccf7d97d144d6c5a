/**
Two repairs of migrated data.  Both merge the chain that is stored now with the chain that the
legacy record gives: what is stored stays, and what went missing is put back between.
*/
module ChainRepair {
  import opened Options

  /** `a` is found in `b`, in order. */
  predicate Subsequence<T(==)>(a: seq<T>, b: seq<T>) {
    a == [] || (b != [] && if a[0] == b[0] then Subsequence(a[1..], b[1..]) else Subsequence(a, b[1..]))
  }

  lemma {:induction false} SubsequenceSelf<T>(a: seq<T>)
    ensures Subsequence(a, a)
  {
    if a == [] {
    } else {
      SubsequenceSelf(a[1..]);
    }
  }

  /** Taking the first match is never worse than passing it over. */
  lemma {:induction false} SubsequenceOfTail<T>(a: seq<T>, b: seq<T>)
    requires a != [] && Subsequence(a, b)
    ensures Subsequence(a[1..], b)
    decreases |b|
  {
    if a[0] == b[0] {
      SubsequenceWiden(a[1..], b);
    } else {
      SubsequenceOfTail(a, b[1..]);
      SubsequenceWiden(a[1..], b);
    }
  }

  lemma {:induction false} SubsequenceWiden<T>(a: seq<T>, b: seq<T>)
    requires b != [] && Subsequence(a, b[1..])
    ensures Subsequence(a, b)
    decreases |b|, 1
  {
    if a != [] && a[0] == b[0] {
      SubsequenceOfTail(a, b[1..]);
    }
  }

  // ---- Nodes: partial network splits -----------------------------------------------

  const SPLIT := "network_split"

  datatype Split = Split(tcp: bool, udp: bool)

  datatype Protocol<B> = Protocol(kind: string, split: Option<Split>, body: B)

  /** A split that redirects one of TCP and UDP only. */
  predicate Partial<B>(p: Protocol<B>) {
    p.kind == SPLIT && p.split.Some? && p.split.value.tcp != p.split.value.udp
  }

  /** Of the splits, those of TCP alone and of UDP alone are partial; nothing else is. */
  lemma PartialCases<B>(kind: string, body: B)
    ensures forall tcp, udp :: Partial(Protocol(kind, Some(Split(tcp, udp)), body)) <==>
              kind == "network_split" && ((tcp && !udp) || (!tcp && udp))
    ensures !Partial(Protocol(kind, None, body))
  {
  }

  predicate Matches<B>(current: seq<Protocol<B>>, p: Protocol<B>) {
    current != [] && current[0].kind == p.kind
  }

  /** The merge: a stored step where its kind is next, a partial split where it is missing. */
  ghost function Recovered<B>(current: seq<Protocol<B>>, expected: seq<Protocol<B>>): seq<Protocol<B>>
    decreases |expected|
  {
    if expected == [] then current
    else if Matches(current, expected[0]) then [current[0]] + Recovered(current[1..], expected[1..])
    else if Partial(expected[0]) then [expected[0]] + Recovered(current, expected[1..])
    else Recovered(current, expected[1..])
  }

  method RecoverPartialSplits<B(==)>(current: seq<Protocol<B>>, expected: seq<Protocol<B>>)
    returns (recovered: seq<Protocol<B>>, changed: bool)
    ensures recovered == Recovered(current, expected)
    ensures changed <==> recovered != current
  {
    recovered := [];
    var index := 0;
    for i := 0 to |expected|
      invariant index <= |current|
      invariant recovered + Recovered(current[index..], expected[i..]) == Recovered(current, expected)
    {
      var p := expected[i];
      assert expected[i..][0] == p && expected[i..][1..] == expected[i + 1..];
      if index < |current| && current[index].kind == p.kind {
        assert current[index..][0] == current[index] && current[index..][1..] == current[index + 1..];
        recovered := recovered + [current[index]];
        index := index + 1;
        continue;
      }
      if Partial(p) {
        recovered := recovered + [p];
      }
    }
    recovered := recovered + current[index..];
    changed := current != recovered;
  }

  /** Everything stored stays, in order; everything else is a partial split of the legacy chain. */
  lemma {:induction false} RecoveredKeepsChain<B>(current: seq<Protocol<B>>, expected: seq<Protocol<B>>)
    ensures Subsequence(current, Recovered(current, expected))
    ensures forall p :: p in Recovered(current, expected) ==> p in current || (p in expected && Partial(p))
    decreases |expected|
  {
    if expected == [] {
      SubsequenceSelf(current);
    } else if Matches(current, expected[0]) {
      RecoveredKeepsChain(current[1..], expected[1..]);
    } else {
      RecoveredKeepsChain(current, expected[1..]);
      if Partial(expected[0]) {
        SubsequenceWiden(current, Recovered(current, expected));
      }
    }
  }

  // How often a repair repeated changes nothing.

  /** Partial splits put back before the next stored step. */
  ghost function PutBack<B>(current: seq<Protocol<B>>, expected: seq<Protocol<B>>): nat
    decreases |expected|
  {
    if expected == [] || Matches(current, expected[0]) then 0
    else if Partial(expected[0]) then 1 + PutBack(current, expected[1..])
    else PutBack(current, expected[1..])
  }

  /** A whole split of the legacy chain is passed over, and the next step is a partial one put back:
      a second repair will take the one for the other. */
  ghost predicate Mistakable<B>(current: seq<Protocol<B>>, expected: seq<Protocol<B>>)
    decreases |expected|
  {
    if expected == [] then false
    else if Matches(current, expected[0]) then Mistakable(current[1..], expected[1..])
    else
      || (!Partial(expected[0]) && expected[0].kind == SPLIT && PutBack(current, expected[1..]) > 0)
      || Mistakable(current, expected[1..])
  }

  lemma {:induction false} NeverShorter<B>(current: seq<Protocol<B>>, expected: seq<Protocol<B>>)
    ensures |Recovered(current, expected)| >= |current|
    decreases |expected|
  {
    if expected == [] {
    } else if Matches(current, expected[0]) {
      NeverShorter(current[1..], expected[1..]);
    } else {
      NeverShorter(current, expected[1..]);
    }
  }

  /** What a repaired chain starts with: the splits put back, then the next stored step. */
  lemma {:induction false} RecoveredHead<B>(current: seq<Protocol<B>>, expected: seq<Protocol<B>>)
    ensures var r, n := Recovered(current, expected), PutBack(current, expected);
            && n <= |r| && (forall i :: 0 <= i < n ==> r[i].kind == SPLIT)
            && (if current == [] then n == |r| else n < |r| && r[n] == current[0])
    decreases |expected|
  {
    if expected != [] && !Matches(current, expected[0]) {
      RecoveredHead(current, expected[1..]);
    }
  }

  /** A second repair that has run `d` splits ahead puts one of them back again. */
  lemma {:induction false} AheadGrows<B>(current: seq<Protocol<B>>, expected: seq<Protocol<B>>, d: nat)
    requires 1 <= d <= PutBack(current, expected) <= |Recovered(current, expected)|
    ensures var x := Recovered(current, expected)[d..]; |Recovered(x, expected)| > |x|
    decreases |expected|
  {
    var rest, r := expected[1..], Recovered(current, expected[1..]);
    RecoveredHead(current, rest);
    var n := PutBack(current, rest);
    var x := Recovered(current, expected)[d..];
    if Partial(expected[0]) {
      assert x == r[d - 1..];
      if d - 1 < n {
        assert x[1..] == r[d..];
        AheadGrows(current, rest, d);
      } else {
        NeverShorter(x, rest);
      }
    } else if d < n && expected[0].kind == SPLIT {
      assert x[1..] == r[d + 1..];
      AheadGrows(current, rest, d + 1);
    } else {
      AheadGrows(current, rest, d);
    }
  }

  /** A second repair changes nothing, or makes the chain longer, as `Mistakable` says. */
  lemma {:induction false} RepeatedRepair<B>(current: seq<Protocol<B>>, expected: seq<Protocol<B>>)
    ensures var r := Recovered(current, expected);
            if Mistakable(current, expected) then |Recovered(r, expected)| > |r| else Recovered(r, expected) == r
    decreases |expected|
  {
    if expected == [] {
    } else if Matches(current, expected[0]) {
      RepeatedRepair(current[1..], expected[1..]);
      var r := Recovered(current, expected);
      assert r[1..] == Recovered(current[1..], expected[1..]);
    } else {
      var rest := expected[1..];
      var r, s := Recovered(current, expected), Recovered(current, rest);
      RepeatedRepair(current, rest);
      RecoveredHead(current, rest);
      if Partial(expected[0]) {
        assert r[1..] == s;
      } else if expected[0].kind == SPLIT && PutBack(current, rest) > 0 {
        AheadGrows(current, rest, 1);
        assert Recovered(r, expected) == [r[0]] + Recovered(r[1..], rest);
      }
    }
  }

  /** The repair is idempotent exactly on chains that are not mistakable. */
  lemma IdempotentIff<B>(current: seq<Protocol<B>>, expected: seq<Protocol<B>>)
    ensures Recovered(Recovered(current, expected), expected) == Recovered(current, expected)
            <==> !Mistakable(current, expected)
  {
    RepeatedRepair(current, expected);
  }

  ghost predicate OnlyPartialSplits<B>(expected: seq<Protocol<B>>) {
    forall p :: p in expected && p.kind == SPLIT ==> Partial(p)
  }

  lemma {:induction false} PartialSplitsNotMistakable<B>(current: seq<Protocol<B>>, expected: seq<Protocol<B>>)
    requires OnlyPartialSplits(expected)
    ensures !Mistakable(current, expected)
    decreases |expected|
  {
    if expected == [] {
    } else {
      assert expected[0] in expected;
      if Matches(current, expected[0]) {
        PartialSplitsNotMistakable(current[1..], expected[1..]);
      } else {
        PartialSplitsNotMistakable(current, expected[1..]);
      }
    }
  }

  /** With partial splits only, the repair is idempotent. */
  lemma IdempotentWithPartialSplits<B>(current: seq<Protocol<B>>, expected: seq<Protocol<B>>)
    requires OnlyPartialSplits(expected)
    ensures Recovered(Recovered(current, expected), expected) == Recovered(current, expected)
  {
    PartialSplitsNotMistakable(current, expected);
    IdempotentIff(current, expected);
  }

  // Repairs repeated for ever.

  predicate Whole<B>(p: Protocol<B>) {
    p.kind == SPLIT && !Partial(p)
  }

  ghost function Wholes<B>(chain: seq<Protocol<B>>): nat {
    if chain == [] then 0 else (if Whole(chain[0]) then 1 else 0) + Wholes(chain[1..])
  }

  /** The whole splits of the legacy chain that the merge passes over. */
  ghost function PassedOver<B>(current: seq<Protocol<B>>, expected: seq<Protocol<B>>): (n: nat)
    ensures n <= Wholes(expected)
    decreases |expected|
  {
    if expected == [] then 0
    else if Matches(current, expected[0]) then PassedOver(current[1..], expected[1..])
    else (if Whole(expected[0]) then 1 else 0) + PassedOver(current, expected[1..])
  }

  /** A second repair that is `d` splits ahead and comes to a partial split. */
  lemma AheadAtPartial<B>(current: seq<Protocol<B>>, expected: seq<Protocol<B>>, d: nat)
    requires expected != [] && !Matches(current, expected[0]) && Partial(expected[0])
    requires d <= PutBack(current, expected) <= |Recovered(current, expected)|
    ensures var n, r := PutBack(current, expected[1..]), Recovered(current, expected[1..]);
            && n <= |r| && d <= n + 1
            && PassedOver(Recovered(current, expected)[d..], expected)
               == PassedOver(r[if d <= n then d else n..], expected[1..])
  {
    RecoveredHead(current, expected[1..]);
    var n, r := PutBack(current, expected[1..]), Recovered(current, expected[1..]);
    var x := Recovered(current, expected)[d..];
    if d <= n {
      assert x[1..] == r[d..];
    } else {
      assert x == r[n..];
    }
  }

  /** The same at anything else that the first repair passed over. */
  lemma AheadAtOther<B>(current: seq<Protocol<B>>, expected: seq<Protocol<B>>, d: nat)
    requires expected != [] && !Matches(current, expected[0]) && !Partial(expected[0])
    requires d <= PutBack(current, expected) <= |Recovered(current, expected)|
    ensures var n, r := PutBack(current, expected[1..]), Recovered(current, expected[1..]);
            && n <= |r| && d <= n
            && PassedOver(Recovered(current, expected)[d..], expected)
               == if d < n && Whole(expected[0]) then PassedOver(r[d + 1..], expected[1..])
                  else (if Whole(expected[0]) then 1 else 0) + PassedOver(r[d..], expected[1..])
  {
    RecoveredHead(current, expected[1..]);
    var n, r := PutBack(current, expected[1..]), Recovered(current, expected[1..]);
    var x := Recovered(current, expected)[d..];
    if d < n && Whole(expected[0]) {
      assert x[1..] == r[d + 1..];
    }
  }

  /** A second repair, even `d` splits ahead, passes over no more whole splits than the first. */
  lemma {:induction false} NoMorePassedOver<B>(current: seq<Protocol<B>>, expected: seq<Protocol<B>>, d: nat)
    requires d <= PutBack(current, expected) <= |Recovered(current, expected)|
    ensures PassedOver(Recovered(current, expected)[d..], expected) <= PassedOver(current, expected)
    decreases |expected|
  {
    if expected == [] {
    } else if Matches(current, expected[0]) {
      RecoveredHead(current[1..], expected[1..]);
      NoMorePassedOver(current[1..], expected[1..], 0);
      assert Recovered(current, expected)[1..] == Recovered(current[1..], expected[1..]);
    } else {
      var n := PutBack(current, expected[1..]);
      if Partial(expected[0]) {
        AheadAtPartial(current, expected, d);
        NoMorePassedOver(current, expected[1..], if d <= n then d else n);
      } else {
        AheadAtOther(current, expected, d);
        NoMorePassedOver(current, expected[1..], if d < n && Whole(expected[0]) then d + 1 else d);
      }
    }
  }

  /** It passes over fewer if it takes a split for another. */
  lemma {:induction false} FewerPassedOver<B>(current: seq<Protocol<B>>, expected: seq<Protocol<B>>)
    requires Mistakable(current, expected)
    ensures PassedOver(Recovered(current, expected), expected) < PassedOver(current, expected)
    decreases |expected|
  {
    var x, rest := Recovered(current, expected), expected[1..];
    if Matches(current, expected[0]) {
      FewerPassedOver(current[1..], rest);
      assert x[1..] == Recovered(current[1..], rest);
    } else {
      RecoveredHead(current, rest);
      if Whole(expected[0]) && PutBack(current, rest) > 0 {
        NoMorePassedOver(current, rest, 1);
      } else {
        FewerPassedOver(current, rest);
        assert Partial(expected[0]) ==> x[1..] == Recovered(current, rest);
      }
    }
  }

  /** The chain after `k` repairs. */
  ghost function Repaired<B>(current: seq<Protocol<B>>, expected: seq<Protocol<B>>, k: nat): seq<Protocol<B>>
    decreases k
  {
    if k == 0 then current else Repaired(Recovered(current, expected), expected, k - 1)
  }

  lemma {:induction false} RepairedStays<B>(current: seq<Protocol<B>>, expected: seq<Protocol<B>>, k: nat)
    requires Recovered(current, expected) == current
    ensures Repaired(current, expected, k) == current
  {
    if k == 0 {
    } else {
      RepairedStays(current, expected, k - 1);
    }
  }

  /** After one repair more than the first passes over whole splits, none changes anything. */
  lemma {:induction false} RepairsSettle<B>(current: seq<Protocol<B>>, expected: seq<Protocol<B>>, k: nat)
    requires k > PassedOver(current, expected)
    ensures Recovered(Repaired(current, expected, k), expected) == Repaired(current, expected, k)
    decreases k
  {
    var r := Recovered(current, expected);
    if Mistakable(current, expected) {
      FewerPassedOver(current, expected);
      RepairsSettle(r, expected, k - 1);
    } else {
      RepeatedRepair(current, expected);
      RepairedStays(r, expected, k - 1);
    }
  }

  /** So it is after one repair more than the legacy chain has whole splits. */
  lemma RepairsEnd<B>(current: seq<Protocol<B>>, expected: seq<Protocol<B>>)
    ensures var done := Repaired(current, expected, Wholes(expected) + 1); Recovered(done, expected) == done
  {
    RepairsSettle(current, expected, Wholes(expected) + 1);
  }

  /** A whole split before a partial one: the second repair puts the partial one back once more, and
      the third changes nothing. */
  lemma WholeSplitGrows()
    ensures var whole := Protocol(SPLIT, Some(Split(true, true)), 0);
            var part := Protocol(SPLIT, Some(Split(true, false)), 1);
            && Recovered([], [whole, part]) == [part]
            && Recovered([part], [whole, part]) == [part, part]
            && Recovered([part, part], [whole, part]) == [part, part]
  {
    var whole := Protocol(SPLIT, Some(Split(true, true)), 0);
    var part := Protocol(SPLIT, Some(Split(true, false)), 1);
    assert [whole, part][1..] == [part] && [part][1..] == [];
    assert Recovered([], [part]) == [part];
    assert Recovered([], [part][1..]) == [];
    assert Recovered([part][1..], [part]) == [part];
    assert [part, part][1..] == [part];
    assert Recovered([part][1..], [part][1..]) == [];
    assert Recovered([part], [part]) == [part];
  }

  // What a chain that lost its partial splits is rebuilt to.

  ghost predicate SameKinds<B>(a: seq<Protocol<B>>, b: seq<Protocol<B>>) {
    |a| == |b| && forall i :: 0 <= i < |a| ==> a[i].kind == b[i].kind
  }

  /** The chain without its partial splits. */
  ghost function Lost<B>(chain: seq<Protocol<B>>): seq<Protocol<B>> {
    if chain == [] then [] else (if Partial(chain[0]) then [] else [chain[0]]) + Lost(chain[1..])
  }

  ghost function Partials<B>(chain: seq<Protocol<B>>): nat {
    if chain == [] then 0 else (if Partial(chain[0]) then 1 else 0) + Partials(chain[1..])
  }

  /** Somewhere a partial split stands right before a whole one. */
  ghost predicate PartialBeforeWhole<B>(chain: seq<Protocol<B>>) {
    |chain| >= 2 &&
    ((Partial(chain[0]) && chain[1].kind == SPLIT && !Partial(chain[1])) || PartialBeforeWhole(chain[1..]))
  }

  lemma {:induction false} LostCount<B>(chain: seq<Protocol<B>>)
    ensures |Lost(chain)| + Partials(chain) == |chain|
  {
    if chain == [] {
    } else {
      LostCount(chain[1..]);
    }
  }

  lemma {:induction false} AddsAtMostPartials<B>(current: seq<Protocol<B>>, expected: seq<Protocol<B>>)
    ensures |Recovered(current, expected)| <= |current| + Partials(expected)
    decreases |expected|
  {
    if expected == [] {
    } else {
      if Matches(current, expected[0]) {
        AddsAtMostPartials(current[1..], expected[1..]);
      } else {
        AddsAtMostPartials(current, expected[1..]);
      }
    }
  }

  lemma {:induction false} SplitAfterPartial<B>(chain: seq<Protocol<B>>)
    requires chain != [] && Partial(chain[0])
    requires Lost(chain[1..]) != [] && Lost(chain[1..])[0].kind == SPLIT
    ensures PartialBeforeWhole(chain)
    decreases |chain|
  {
    if Partial(chain[1]) {
      SplitAfterPartial(chain[1..]);
    }
  }

  /** A chain that lost its partial splits gets the expected kinds back exactly when no partial
      split stands right before a whole one. */
  lemma {:induction false} RebuildsIff<B>(current: seq<Protocol<B>>, expected: seq<Protocol<B>>)
    requires SameKinds(current, Lost(expected))
    ensures SameKinds(Recovered(current, expected), expected) <==> !PartialBeforeWhole(expected)
    decreases |expected|
  {
    if expected == [] {
    } else {
      var rest := expected[1..];
      if Partial(expected[0]) && Matches(current, expected[0]) {
        SplitAfterPartial(expected);
        AddsAtMostPartials(current[1..], rest);
        LostCount(rest);
      } else if Partial(expected[0]) {
        RebuildsIff(current, rest);
        SameAfterHead(Recovered(current, expected), expected);
        assert rest != [] && !Partial(rest[0]) ==> Lost(rest)[0] == rest[0];
      } else {
        assert Lost(expected)[1..] == Lost(rest);
        RebuildsIff(current[1..], rest);
        SameAfterHead(Recovered(current, expected), expected);
      }
    }
  }

  lemma SameAfterHead<B>(a: seq<Protocol<B>>, b: seq<Protocol<B>>)
    requires a != [] && b != [] && a[0].kind == b[0].kind
    ensures SameKinds(a, b) <==> SameKinds(a[1..], b[1..])
  {
    if SameKinds(a[1..], b[1..]) {
      forall i | 0 <= i < |a| ensures a[i].kind == b[i].kind {
        assert i > 0 ==> a[i] == a[1..][i - 1] && b[i] == b[1..][i - 1];
      }
    }
  }

  // ---- Inbounds: transports ----------------------------------------------------------

  datatype Transport<B> = Transport(kind: string, body: B)

  datatype Result<T> = Ok(value: T) | NoConcreteType(index: nat) | Inconvertible(index: nat)

  /** The one key of a legacy transport, or nothing. */
  function TypeOf<V>(raw: map<string, V>): (kind: string)
    ensures kind != "" ==> raw.Keys == {kind}
    ensures kind == "" <==> |raw| != 1 || "" in raw
  {
    if |raw| != 1 then "" else
      OnlyKey(raw.Keys);
      var k :| k in raw; k
  }

  lemma OnlyKey<K>(s: set<K>)
    requires |s| == 1
    ensures exists k :: s == {k}
  {
    var k :| k in s;
    assert |s - {k}| == 0;
    assert s == {k};
  }

  predicate NextIs<B>(current: seq<Transport<B>>, kind: string) {
    current != [] && current[0].kind == kind
  }

  /** The merge, with `convert` for the conversion of one legacy transport. */
  ghost function Merged<V, B>(current: seq<Transport<B>>, raw: seq<map<string, V>>,
                              convert: map<string, V> -> Option<Transport<B>>, index: nat): Result<seq<Transport<B>>>
    decreases |raw|
  {
    if raw == [] then Ok(current)
    else
      var kind := TypeOf(raw[0]);
      if kind == "grpc" then Merged(current, raw[1..], convert, index + 1)
      else if kind == "" then NoConcreteType(index)
      else if convert(raw[0]).None? then Inconvertible(index)
      else if NextIs(current, kind) then Prepend(current[0], Merged(current[1..], raw[1..], convert, index + 1))
      else Prepend(convert(raw[0]).value, Merged(current, raw[1..], convert, index + 1))
  }

  ghost function Prepend<T>(x: T, r: Result<seq<T>>): Result<seq<T>> {
    match r
    case Ok(s) => Ok([x] + s)
    case _ => r
  }

  method RecoverTransports<V, B(==)>(current: seq<Transport<B>>, raw: seq<map<string, V>>,
                                     convert: map<string, V> -> Option<Transport<B>>)
    returns (recovered: Result<seq<Transport<B>>>, changed: bool)
    ensures recovered == Merged(current, raw, convert, 0)
    ensures changed <==> recovered.Ok? && recovered.value != current
  {
    if |raw| == 0 {
      return Ok(current), false;
    }
    var done := [];
    var at := 0;
    ghost var merged := Merged(current, raw, convert, 0);
    assert current[0..] == current && raw[0..] == raw;
    assert merged.Ok? ==> done + merged.value == merged.value;
    for i := 0 to |raw|
      invariant at <= |current|
      invariant Joined(done, Merged(current[at..], raw[i..], convert, i)) == Merged(current, raw, convert, 0)
    {
      assert raw[i..][0] == raw[i] && raw[i..][1..] == raw[i + 1..];
      var kind := TypeOf(raw[i]);
      if kind == "grpc" {
        continue;
      }
      if kind == "" {
        return NoConcreteType(i), false;
      }
      var transport := convert(raw[i]);
      if transport.None? {
        return Inconvertible(i), false;
      }
      if at < |current| && current[at].kind == kind {
        JoinedPrepend(done, current[at], Merged(current[at + 1..], raw[i + 1..], convert, i + 1));
        assert current[at..][1..] == current[at + 1..];
        done := done + [current[at]];
        at := at + 1;
        continue;
      }
      JoinedPrepend(done, transport.value, Merged(current[at..], raw[i + 1..], convert, i + 1));
      done := done + [transport.value];
    }
    done := done + current[at..];
    recovered, changed := Ok(done), done != current;
  }

  ghost function Joined<T>(done: seq<T>, r: Result<seq<T>>): Result<seq<T>> {
    match r
    case Ok(s) => Ok(done + s)
    case _ => r
  }

  lemma JoinedPrepend<T>(done: seq<T>, x: T, r: Result<seq<T>>)
    ensures Joined(done, Prepend(x, r)) == Joined(done + [x], r)
  {
    if r.Ok? {
      assert done + ([x] + r.value) == (done + [x]) + r.value;
    }
  }

  /** Everything stored stays, in order. */
  lemma {:induction false} MergedKeepsChain<V, B>(current: seq<Transport<B>>, raw: seq<map<string, V>>,
                                                  convert: map<string, V> -> Option<Transport<B>>, index: nat)
    requires Merged(current, raw, convert, index).Ok?
    ensures Subsequence(current, Merged(current, raw, convert, index).value)
    decreases |raw|
  {
    if raw == [] {
      SubsequenceSelf(current);
    } else if TypeOf(raw[0]) == "grpc" {
      MergedKeepsChain(current, raw[1..], convert, index + 1);
    } else if NextIs(current, TypeOf(raw[0])) {
      MergedKeepsChain(current[1..], raw[1..], convert, index + 1);
    } else {
      MergedKeepsChain(current, raw[1..], convert, index + 1);
      SubsequenceWiden(current, Merged(current, raw, convert, index).value);
    }
  }

  /** The kinds of the legacy transports, without gRPC. */
  ghost function LegacyKinds<V>(raw: seq<map<string, V>>): seq<string> {
    if raw == [] then []
    else (if TypeOf(raw[0]) == "grpc" then [] else [TypeOf(raw[0])]) + LegacyKinds(raw[1..])
  }

  ghost function KindsOf<B>(ts: seq<Transport<B>>): seq<string> {
    seq(|ts|, i requires 0 <= i < |ts| => ts[i].kind)
  }

  /** Nothing stays missing: the legacy kinds are all there, in order, if conversion keeps kinds; and
      what was not stored is a legacy transport converted. */
  lemma {:induction false} MergedHasLegacy<V, B>(current: seq<Transport<B>>, raw: seq<map<string, V>>,
                                                 convert: map<string, V> -> Option<Transport<B>>, index: nat)
    requires Merged(current, raw, convert, index).Ok?
    requires forall r :: r in raw && convert(r).Some? ==> convert(r).value.kind == TypeOf(r)
    ensures Subsequence(LegacyKinds(raw), KindsOf(Merged(current, raw, convert, index).value))
    ensures forall t :: t in Merged(current, raw, convert, index).value ==>
              t in current || exists r :: r in raw && convert(r) == Some(t)
    decreases |raw|
  {
    if raw == [] {
    } else {
      var rest := raw[1..];
      assert raw[0] in raw && forall r :: r in rest ==> r in raw;
      if TypeOf(raw[0]) == "grpc" {
        MergedHasLegacy(current, rest, convert, index + 1);
        assert [] + LegacyKinds(rest) == LegacyKinds(rest);
      } else {
        var next := if NextIs(current, TypeOf(raw[0])) then current[1..] else current;
        MergedHasLegacy(next, rest, convert, index + 1);
        var merged := Merged(current, raw, convert, index).value;
        assert merged[1..] == Merged(next, rest, convert, index + 1).value;
        KindsOfTail(merged);
        assert LegacyKinds(raw)[1..] == LegacyKinds(rest);
      }
    }
  }

  lemma KindsOfTail<B>(ts: seq<Transport<B>>)
    requires ts != []
    ensures KindsOf(ts)[1..] == KindsOf(ts[1..]) && KindsOf(ts)[0] == ts[0].kind
  {
  }

  /** The merge answers unless some transport that is not gRPC cannot be read. */
  lemma {:induction false} MergesIff<V, B>(current: seq<Transport<B>>, raw: seq<map<string, V>>,
                                           convert: map<string, V> -> Option<Transport<B>>, index: nat)
    ensures Merged(current, raw, convert, index).Ok?
            <==> forall r :: r in raw ==> TypeOf(r) == "grpc" || (TypeOf(r) != "" && convert(r).Some?)
    decreases |raw|
  {
    if raw == [] {
    } else {
      assert raw == [raw[0]] + raw[1..];
      MergesIff(current, raw[1..], convert, index + 1);
      if current != [] {
        MergesIff(current[1..], raw[1..], convert, index + 1);
      }
    }
  }

  /** Every transport put back has the kind it is looked up by. */
  ghost predicate KindsKept<V, B>(current: seq<Transport<B>>, raw: seq<map<string, V>>,
                                  convert: map<string, V> -> Option<Transport<B>>)
    decreases |raw|
  {
    if raw == [] then true
    else
      var kind := TypeOf(raw[0]);
      if kind == "grpc" then KindsKept(current, raw[1..], convert)
      else if NextIs(current, kind) then KindsKept(current[1..], raw[1..], convert)
      else (convert(raw[0]).Some? ==> convert(raw[0]).value.kind == kind) && KindsKept(current, raw[1..], convert)
  }

  lemma {:induction false} MergedNeverShorter<V, B>(current: seq<Transport<B>>, raw: seq<map<string, V>>,
                                                    convert: map<string, V> -> Option<Transport<B>>, index: nat)
    requires Merged(current, raw, convert, index).Ok?
    ensures |Merged(current, raw, convert, index).value| >= |current|
    decreases |raw|
  {
    if raw == [] {
    } else {
      if TypeOf(raw[0]) != "grpc" && NextIs(current, TypeOf(raw[0])) {
        MergedNeverShorter(current[1..], raw[1..], convert, index + 1);
      } else {
        MergedNeverShorter(current, raw[1..], convert, index + 1);
      }
    }
  }

  /** The repair is idempotent exactly when the transports it puts back keep their kind. */
  lemma {:induction false} MergeIdempotentIff<V, B>(current: seq<Transport<B>>, raw: seq<map<string, V>>,
                                                    convert: map<string, V> -> Option<Transport<B>>, index: nat)
    requires Merged(current, raw, convert, index).Ok?
    ensures var r := Merged(current, raw, convert, index);
            if KindsKept(current, raw, convert)
            then Merged(r.value, raw, convert, index) == r
            else Merged(r.value, raw, convert, index).Ok? &&
                 |Merged(r.value, raw, convert, index).value| > |r.value|
    decreases |raw|
  {
    if raw == [] {
    } else {
      var r := Merged(current, raw, convert, index).value;
      var rest := raw[1..];
      MergesIff(current, raw, convert, index);
      MergesIff(r, raw, convert, index);
      if TypeOf(raw[0]) == "grpc" {
        MergeIdempotentIff(current, rest, convert, index + 1);
      } else if NextIs(current, TypeOf(raw[0])) {
        MergeIdempotentIff(current[1..], rest, convert, index + 1);
        assert r[1..] == Merged(current[1..], rest, convert, index + 1).value;
      } else {
        MergeIdempotentIff(current, rest, convert, index + 1);
        assert r[1..] == Merged(current, rest, convert, index + 1).value;
        if convert(raw[0]).value.kind != TypeOf(raw[0]) {
          MergesIff(r, rest, convert, index + 1);
          MergedNeverShorter(r, rest, convert, index + 1);
        }
      }
    }
  }
}
