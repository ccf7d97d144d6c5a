/**
The legacy routing settings in their Protocol Buffers form: rules made of alternatives of
conditions, and named lists.  Decoding what an encoder wrote gives back the same rules and
lists in the same order.
*/
module BypassProto {
  import opened Options
  import opened Bytes
  import opened Wire

  type Text = Data

  // ---- Messages ---------------------------------------------------------------------

  type int32 = x: int | -0x8000_0000 <= x < 0x8000_0000

  datatype Source = Source(name: Text, names: seq<Text>)

  datatype Rule = Rule(
    host: Option<Text>,
    process: Option<Text>,
    inbound: Option<Source>,
    network: Option<int32>,
    port: Option<Text>,
    geoip: Option<Text>)

  datatype Or = Or(rules: seq<Rule>)

  datatype RuleV2 = RuleV2(
    name: Text,
    mode: int32,
    tag: Text,
    resolveStrategy: int32,
    udpStrategy: int32,
    resolver: Text,
    rules: seq<Or>,
    disabled: bool)

  datatype List = List(
    listType: int32,
    name: Text,
    local: Option<seq<Text>>,
    remote: Option<seq<Text>>,
    errors: seq<Text>)

  datatype Entry = Entry(name: Text, message: Data)

  datatype Bypass = Bypass(
    udpStrategy: int32,
    resolveLocally: bool,
    directResolver: Text,
    proxyResolver: Text,
    rules: seq<RuleV2>,
    lists: map<Text, List>)

  const EMPTY_SOURCE := Source([], [])
  const EMPTY_RULE := Rule(None, None, None, None, None, None)
  const EMPTY_RULE_V2 := RuleV2([], 0, [], 0, 0, [], [], false)
  const EMPTY_LIST := List(0, [], None, None, [])

  /** The enumeration types are 32 bits wide. */
  function ToInt32(v: nat): int32 {
    var w := v % 0x1_0000_0000;
    if w < 0x8000_0000 then w else w - 0x1_0000_0000
  }

  function OfInt32(x: int32): (v: nat)
    ensures v < LIMIT
  {
    if x >= 0 then x else LIMIT + x
  }

  lemma Int32RoundTrip(x: int32)
    ensures ToInt32(OfInt32(x)) == x
  {
  }

  // ---- Decoders: what each does with one field ----------------------------------------

  function ApplyString(s: Text, f: Field): Option<Text> {
    if f.num != 1 then Some(s) else if f.val.Bytes? then Some(f.val.b) else None
  }

  function ApplyNumber(n: nat, f: Field): Option<nat> {
    if f.num != 1 then Some(n) else if f.val.Varint? then Some(f.val.n) else None
  }

  function ApplyStrings(ss: seq<Text>, f: Field): Option<seq<Text>> {
    if f.num != 1 then Some(ss) else if f.val.Bytes? then Some(ss + [f.val.b]) else None
  }

  function ApplySource(s: Source, f: Field): Option<Source> {
    if f.num != 1 && f.num != 2 then Some(s)
    else if !f.val.Bytes? then None
    else if f.num == 1 then Some(s.(name := f.val.b))
    else Some(s.(names := s.names + [f.val.b]))
  }

  function ApplyRule(r: Rule, f: Field): Option<Rule> {
    if !(1 <= f.num <= 6) then Some(r)
    else if !f.val.Bytes? then None
    else match f.num
      case 1 =>
        (match Decode(ApplyString, f.val.b, []) case None => None case Some(z) => Some(r.(host := Some(z))))
      case 2 =>
        (match Decode(ApplyString, f.val.b, []) case None => None case Some(z) => Some(r.(process := Some(z))))
      case 3 =>
        (match Decode(ApplySource, f.val.b, EMPTY_SOURCE)
         case None => None
         case Some(z) => Some(r.(inbound := Some(z))))
      case 4 =>
        (match Decode(ApplyNumber, f.val.b, 0) case None => None case Some(z) => Some(r.(network := Some(ToInt32(z)))))
      case 5 =>
        (match Decode(ApplyString, f.val.b, []) case None => None case Some(z) => Some(r.(port := Some(z))))
      case _ =>
        (match Decode(ApplyString, f.val.b, []) case None => None case Some(z) => Some(r.(geoip := Some(z))))
  }

  function ApplyOr(o: Or, f: Field): Option<Or> {
    if f.num != 1 then Some(o)
    else if !f.val.Bytes? then None
    else match Decode(ApplyRule, f.val.b, EMPTY_RULE)
      case None => None
      case Some(rule) => Some(Or(o.rules + [rule]))
  }

  function AddGroup(r: RuleV2, b: Data): Option<RuleV2> {
    match Decode(ApplyOr, b, Or([]))
    case None => None
    case Some(g) => Some(r.(rules := r.rules + [g]))
  }

  function ApplyRuleV2(r: RuleV2, f: Field): Option<RuleV2> {
    match f.num
    case 1 => if f.val.Bytes? then Some(r.(name := f.val.b)) else None
    case 3 => if f.val.Bytes? then Some(r.(tag := f.val.b)) else None
    case 6 => if f.val.Bytes? then Some(r.(resolver := f.val.b)) else None
    case 2 => if f.val.Varint? then Some(r.(mode := ToInt32(f.val.n))) else None
    case 4 => if f.val.Varint? then Some(r.(resolveStrategy := ToInt32(f.val.n))) else None
    case 5 => if f.val.Varint? then Some(r.(udpStrategy := ToInt32(f.val.n))) else None
    case 8 => if f.val.Varint? then Some(r.(disabled := f.val.n != 0)) else None
    case 7 => if f.val.Bytes? then AddGroup(r, f.val.b) else None
    case _ => Some(r)
  }

  function ApplyList(l: List, f: Field): Option<List> {
    match f.num
    case 1 => if f.val.Varint? then Some(l.(listType := ToInt32(f.val.n))) else None
    case 2 => if f.val.Bytes? then Some(l.(name := f.val.b)) else None
    case 5 => if f.val.Bytes? then Some(l.(errors := l.errors + [f.val.b])) else None
    case 3 =>
      if !f.val.Bytes? then None
      else (match Decode(ApplyStrings, f.val.b, []) case None => None case Some(z) => Some(l.(local := Some(z))))
    case 4 =>
      if !f.val.Bytes? then None
      else (match Decode(ApplyStrings, f.val.b, []) case None => None case Some(z) => Some(l.(remote := Some(z))))
    case _ => Some(l)
  }

  function ApplyEntry(e: Entry, f: Field): Option<Entry> {
    if f.num != 1 && f.num != 2 then Some(e)
    else if !f.val.Bytes? then None
    else if f.num == 1 then Some(e.(name := f.val.b)) else Some(e.(message := f.val.b))
  }

  /** A list without a name takes the one it is filed under. */
  function Named(l: List, name: Text): List {
    if l.name == [] then l.(name := name) else l
  }

  function AddRule(c: Bypass, b: Data): Option<Bypass> {
    match Decode(ApplyRuleV2, b, EMPTY_RULE_V2)
    case None => None
    case Some(rule) => Some(c.(rules := c.rules + [rule]))
  }

  function AddList(c: Bypass, b: Data): Option<Bypass> {
    match Decode(ApplyEntry, b, Entry([], []))
    case None => None
    case Some(e) =>
      match Decode(ApplyList, e.message, EMPTY_LIST)
      case None => None
      case Some(list) => Some(c.(lists := c.lists[e.name := Named(list, e.name)]))
  }

  function ApplyBypass(c: Bypass, f: Field): Option<Bypass> {
    match f.num
    case 6 => if f.val.Varint? then Some(c.(udpStrategy := ToInt32(f.val.n))) else None
    case 9 => if f.val.Varint? then Some(c.(resolveLocally := f.val.n != 0)) else None
    case 10 => if f.val.Bytes? then Some(c.(directResolver := f.val.b)) else None
    case 11 => if f.val.Bytes? then Some(c.(proxyResolver := f.val.b)) else None
    case 12 => if f.val.Bytes? then AddRule(c, f.val.b) else None
    case 13 => if f.val.Bytes? then AddList(c, f.val.b) else None
    case _ => Some(c)
  }

  function Cleared(c: Bypass): Bypass {
    c.(rules := [], lists := map[])
  }

  /** Decodes settings over a configuration whose rules and lists are cleared first.  Of what an
      encoder wrote, the rules, the lists and the scalars that are not zero come back. */
  method UnmarshalBypass(data: Data, into: Bypass) returns (r: Option<Bypass>)
    ensures r == Decode(ApplyBypass, data, Cleared(into))
    ensures forall c, lists :: data == EncodeBypass(c, lists) && |data| < LIMIT ==>
              r == Some(LaidOver(c, into).(lists := Filed(lists)))
    ensures forall other: Bypass :: AlikeResults(into, other, r, Decode(ApplyBypass, data, Cleared(other)))
  {
    r := DecodeMessage(ApplyBypass, data, Cleared(into));
    forall c, lists | data == EncodeBypass(c, lists) && |data| < LIMIT
      ensures r == Some(LaidOver(c, into).(lists := Filed(lists)))
    {
      BypassRoundTrip(c, lists, into);
    }
    forall other: Bypass
      ensures AlikeResults(into, other, r, Decode(ApplyBypass, data, Cleared(other)))
    {
      DecodeAlike(data, into, other, Cleared(into), Cleared(other));
    }
  }

  // ---- Encoders ---------------------------------------------------------------------

  function Str(num: nat, s: Text): (fs: seq<Field>)
    requires 1 <= num <= MAX_NUMBER
    ensures Writable(fs)
  {
    if s == [] then [] else [Field(num, Bytes(s))]
  }

  function Num(num: nat, x: int32): (fs: seq<Field>)
    requires 1 <= num <= MAX_NUMBER
    ensures Writable(fs)
  {
    if x == 0 then [] else [Field(num, Varint(OfInt32(x)))]
  }

  function Flag(num: nat, b: bool): (fs: seq<Field>)
    requires 1 <= num <= MAX_NUMBER
    ensures Writable(fs)
  {
    if b then [Field(num, Varint(1))] else []
  }

  /** A message that may be absent. */
  function Maybe<T>(num: nat, encode: T -> Data, m: Option<T>): (fs: seq<Field>)
    requires 1 <= num <= MAX_NUMBER
    ensures Writable(fs)
  {
    if m.None? then [] else [Field(num, Bytes(encode(m.value)))]
  }

  function Strs(num: nat, ss: seq<Text>): (fs: seq<Field>)
    requires 1 <= num <= MAX_NUMBER
    ensures Writable(fs)
  {
    Repeated(num, (s: Text) => s, ss)
  }

  function EncodeText(s: Text): Data {
    EncodeFields(Str(1, s))
  }

  function EncodeNetwork(x: int32): Data {
    EncodeFields(Num(1, x))
  }

  function EncodeTexts(ss: seq<Text>): Data {
    EncodeFields(Strs(1, ss))
  }

  function SourceParts(s: Source): (ps: seq<seq<Field>>)
    ensures forall i :: 0 <= i < |ps| ==> Writable(ps[i])
  {
    [Str(1, s.name), Strs(2, s.names)]
  }

  function EncodeSource(s: Source): Data {
    EncodeFields(Flatten(SourceParts(s)))
  }

  function RuleParts(r: Rule): (ps: seq<seq<Field>>)
    ensures forall i :: 0 <= i < |ps| ==> Writable(ps[i])
  {
    [Maybe(1, EncodeText, r.host), Maybe(2, EncodeText, r.process), Maybe(3, EncodeSource, r.inbound),
     Maybe(4, EncodeNetwork, r.network), Maybe(5, EncodeText, r.port), Maybe(6, EncodeText, r.geoip)]
  }

  function EncodeRule(r: Rule): Data {
    EncodeFields(Flatten(RuleParts(r)))
  }

  function EncodeOr(o: Or): Data {
    EncodeFields(Repeated(1, EncodeRule, o.rules))
  }

  function RuleV2Parts(r: RuleV2): (ps: seq<seq<Field>>)
    ensures forall i :: 0 <= i < |ps| ==> Writable(ps[i])
  {
    [Str(1, r.name), Num(2, r.mode), Str(3, r.tag), Num(4, r.resolveStrategy), Num(5, r.udpStrategy),
     Str(6, r.resolver), Repeated(7, EncodeOr, r.rules), Flag(8, r.disabled)]
  }

  function EncodeRuleV2(r: RuleV2): Data {
    EncodeFields(Flatten(RuleV2Parts(r)))
  }

  function ListParts(l: List): (ps: seq<seq<Field>>)
    ensures forall i :: 0 <= i < |ps| ==> Writable(ps[i])
  {
    [Num(1, l.listType), Str(2, l.name), Maybe(3, EncodeTexts, l.local), Maybe(4, EncodeTexts, l.remote),
     Strs(5, l.errors)]
  }

  function EncodeList(l: List): Data {
    EncodeFields(Flatten(ListParts(l)))
  }

  function EntryParts(e: (Text, List)): (ps: seq<seq<Field>>)
    ensures forall i :: 0 <= i < |ps| ==> Writable(ps[i])
  {
    [Str(1, e.0), Maybe(2, EncodeList, Some(e.1))]
  }

  function EncodeEntry(e: (Text, List)): Data {
    EncodeFields(Flatten(EntryParts(e)))
  }

  /** The lists of a map in some order, the rest as stored. */
  function BypassParts(c: Bypass, lists: seq<(Text, List)>): (ps: seq<seq<Field>>)
    ensures forall i :: 0 <= i < |ps| ==> Writable(ps[i])
  {
    [Num(6, c.udpStrategy), Flag(9, c.resolveLocally), Str(10, c.directResolver), Str(11, c.proxyResolver),
     Repeated(12, EncodeRuleV2, c.rules), Repeated(13, EncodeEntry, lists)]
  }

  function EncodeBypass(c: Bypass, lists: seq<(Text, List)>): Data {
    EncodeFields(Flatten(BypassParts(c, lists)))
  }

  // ---- Round trips ------------------------------------------------------------------

  lemma MaybeSize<T>(num: nat, encode: T -> Data, m: Option<T>)
    requires 1 <= num <= MAX_NUMBER
    ensures m.Some? ==> |encode(m.value)| < Size(Maybe(num, encode, m))
  {
    if m.Some? {
      RepeatedSize(num, encode, [m.value], m.value);
      assert Repeated(num, encode, [m.value]) == Maybe(num, encode, m);
    }
  }

  lemma MaybeFold<A, T>(apply: (A, Field) -> Option<A>, acc: A, num: nat, encode: T -> Data, m: Option<T>, next: A)
    requires 1 <= num <= MAX_NUMBER
    requires if m.None? then next == acc else apply(acc, Field(num, Bytes(encode(m.value)))) == Some(next)
    ensures Fold(apply, acc, Maybe(num, encode, m)) == Some(next)
  {
  }

  lemma TextRoundTrip(s: Text)
    requires |EncodeText(s)| < LIMIT
    ensures Decode(ApplyString, EncodeText(s), []) == Some(s)
  {
    DecodeOfEncoded(ApplyString, [], Str(1, s));
  }

  lemma NetworkRoundTrip(x: int32)
    requires |EncodeNetwork(x)| < LIMIT
    ensures Decode(ApplyNumber, EncodeNetwork(x), 0) == Some(OfInt32(x))
  {
    DecodeOfEncoded(ApplyNumber, 0, Num(1, x));
  }

  lemma TextsRoundTrip(ss: seq<Text>)
    requires |EncodeTexts(ss)| < LIMIT
    ensures Decode(ApplyStrings, EncodeTexts(ss), []) == Some(ss)
  {
    DecodeOfEncoded(ApplyStrings, [], Strs(1, ss));
    FoldRepeated(ApplyStrings, 1, (s: Text) => s, (d: seq<Text>) => d, [], ss);
    assert [] + ss == ss;
  }

  lemma SourceRoundTrip(s: Source)
    requires |EncodeSource(s)| < LIMIT
    ensures Decode(ApplySource, EncodeSource(s), EMPTY_SOURCE) == Some(s)
  {
    DecodeOfEncoded(ApplySource, EMPTY_SOURCE, Flatten(SourceParts(s)));
    FoldRepeated(ApplySource, 2, (t: Text) => t, (d: seq<Text>) => Source(s.name, d), [], s.names);
    assert [] + s.names == s.names;
    FoldParts(ApplySource, [EMPTY_SOURCE, Source(s.name, []), s], SourceParts(s));
  }

  lemma TextCondition(r: Rule, num: nat, m: Option<Text>)
    requires num in {1, 2, 5, 6} && Size(Maybe(num, EncodeText, m)) < LIMIT
    ensures Fold(ApplyRule, r, Maybe(num, EncodeText, m)) ==
            Some(if m.None? then r
                 else if num == 1 then r.(host := m)
                 else if num == 2 then r.(process := m)
                 else if num == 5 then r.(port := m)
                 else r.(geoip := m))
  {
    MaybeSize(num, EncodeText, m);
    if m.Some? {
      TextRoundTrip(m.value);
    }
  }

  lemma SourceCondition(r: Rule, m: Option<Source>)
    requires Size(Maybe(3, EncodeSource, m)) < LIMIT
    ensures Fold(ApplyRule, r, Maybe(3, EncodeSource, m)) == Some(if m.None? then r else r.(inbound := m))
  {
    MaybeSize(3, EncodeSource, m);
    if m.Some? {
      SourceRoundTrip(m.value);
    }
  }

  lemma NetworkCondition(r: Rule, m: Option<int32>)
    requires Size(Maybe(4, EncodeNetwork, m)) < LIMIT
    ensures Fold(ApplyRule, r, Maybe(4, EncodeNetwork, m)) == Some(if m.None? then r else r.(network := m))
  {
    MaybeSize(4, EncodeNetwork, m);
    if m.Some? {
      NetworkRoundTrip(m.value);
      Int32RoundTrip(m.value);
    }
  }

  lemma RuleFold(r: Rule)
    requires forall i :: 0 <= i < 6 ==> Size(RuleParts(r)[i]) < LIMIT
    ensures Fold(ApplyRule, EMPTY_RULE, Flatten(RuleParts(r))) == Some(r)
  {
    var parts := RuleParts(r);
    var r1 := EMPTY_RULE.(host := r.host);
    var r2 := r1.(process := r.process);
    var r3 := r2.(inbound := r.inbound);
    var r4 := r3.(network := r.network);
    var r5 := r4.(port := r.port);
    var states := [EMPTY_RULE, r1, r2, r3, r4, r5, r];
    forall i | 0 <= i < 6
      ensures Fold(ApplyRule, states[i], parts[i]) == Some(states[i + 1])
    {
      assert Size(parts[i]) < LIMIT;
      match i {
        case 0 => TextCondition(EMPTY_RULE, 1, r.host);
        case 1 => TextCondition(r1, 2, r.process);
        case 2 => SourceCondition(r2, r.inbound);
        case 3 => NetworkCondition(r3, r.network);
        case 4 => TextCondition(r4, 5, r.port);
        case 5 => TextCondition(r5, 6, r.geoip);
      }
    }
    FoldParts(ApplyRule, states, parts);
  }

  lemma RuleRoundTrip(r: Rule)
    requires |EncodeRule(r)| < LIMIT
    ensures Decode(ApplyRule, EncodeRule(r), EMPTY_RULE) == Some(r)
  {
    var parts := RuleParts(r);
    forall i | 0 <= i < 6
      ensures Size(parts[i]) < LIMIT
    {
      PartSize(parts, i);
    }
    RuleFold(r);
    DecodeOfEncoded(ApplyRule, EMPTY_RULE, Flatten(parts));
  }

  lemma OrRoundTrip(o: Or)
    requires |EncodeOr(o)| < LIMIT
    ensures Decode(ApplyOr, EncodeOr(o), Or([])) == Some(o)
  {
    var at := (d: seq<Rule>) => Or(d);
    forall d, r | r in o.rules
      ensures ApplyOr(at(d), Field(1, Bytes(EncodeRule(r)))) == Some(at(d + [r]))
    {
      RepeatedSize(1, EncodeRule, o.rules, r);
      RuleRoundTrip(r);
    }
    FoldRepeated(ApplyOr, 1, EncodeRule, at, [], o.rules);
    assert [] + o.rules == o.rules;
    DecodeOfEncoded(ApplyOr, Or([]), Repeated(1, EncodeRule, o.rules));
  }

  lemma GroupStepOf(r: RuleV2, b: Data, g: Or)
    requires Decode(ApplyOr, b, Or([])) == Some(g)
    ensures ApplyRuleV2(r, Field(7, Bytes(b))) == Some(r.(rules := r.rules + [g]))
  {
  }

  lemma GroupStep(r: RuleV2, g: Or)
    requires |EncodeOr(g)| < LIMIT
    ensures ApplyRuleV2(r, Field(7, Bytes(EncodeOr(g)))) == Some(r.(rules := r.rules + [g]))
  {
    OrRoundTrip(g);
    GroupStepOf(r, EncodeOr(g), g);
  }

  lemma GroupsFold(r: RuleV2, groups: seq<Or>)
    requires r.rules == [] && Size(Repeated(7, EncodeOr, groups)) < LIMIT
    ensures Fold(ApplyRuleV2, r, Repeated(7, EncodeOr, groups)) == Some(r.(rules := groups))
  {
    var at := (d: seq<Or>) => r.(rules := d);
    forall d, g | g in groups
      ensures ApplyRuleV2(at(d), Field(7, Bytes(EncodeOr(g)))) == Some(at(d + [g]))
    {
      RepeatedSize(7, EncodeOr, groups, g);
      GroupStep(at(d), g);
    }
    FoldRepeated(ApplyRuleV2, 7, EncodeOr, at, [], groups);
    assert [] + groups == groups;
  }

  lemma RuleV2Str(r: RuleV2, num: nat, s: Text)
    requires num in {1, 3, 6}
    requires (num == 1 ==> r.name == []) && (num == 3 ==> r.tag == []) && (num == 6 ==> r.resolver == [])
    ensures Fold(ApplyRuleV2, r, Str(num, s)) ==
            Some(if num == 1 then r.(name := s) else if num == 3 then r.(tag := s) else r.(resolver := s))
  {
  }

  lemma RuleV2Num(r: RuleV2, num: nat, x: int32)
    requires num in {2, 4, 5}
    requires (num == 2 ==> r.mode == 0) && (num == 4 ==> r.resolveStrategy == 0) && (num == 5 ==> r.udpStrategy == 0)
    ensures Fold(ApplyRuleV2, r, Num(num, x)) ==
            Some(if num == 2 then r.(mode := x)
                 else if num == 4 then r.(resolveStrategy := x)
                 else r.(udpStrategy := x))
  {
    Int32RoundTrip(x);
  }

  lemma RuleV2Flag(r: RuleV2, b: bool)
    requires !r.disabled
    ensures Fold(ApplyRuleV2, r, Flag(8, b)) == Some(r.(disabled := b))
  {
  }

  /** A rule of which the first `i` parts are known. */
  ghost function RuleV2Upto(r: RuleV2, i: nat): RuleV2 {
    EMPTY_RULE_V2.(
      name := if i > 0 then r.name else [],
      mode := if i > 1 then r.mode else 0,
      tag := if i > 2 then r.tag else [],
      resolveStrategy := if i > 3 then r.resolveStrategy else 0,
      udpStrategy := if i > 4 then r.udpStrategy else 0,
      resolver := if i > 5 then r.resolver else [],
      rules := if i > 6 then r.rules else [],
      disabled := i > 7 && r.disabled)
  }

  lemma RuleV2NameAndMode(r: RuleV2, i: nat)
    requires i < 2
    ensures Fold(ApplyRuleV2, RuleV2Upto(r, i), RuleV2Parts(r)[i]) == Some(RuleV2Upto(r, i + 1))
  {
    if i == 0 {
      RuleV2Str(RuleV2Upto(r, 0), 1, r.name);
    } else {
      RuleV2Num(RuleV2Upto(r, 1), 2, r.mode);
    }
  }

  lemma RuleV2TagAndStrategy(r: RuleV2, i: nat)
    requires 2 <= i < 4
    ensures Fold(ApplyRuleV2, RuleV2Upto(r, i), RuleV2Parts(r)[i]) == Some(RuleV2Upto(r, i + 1))
  {
    var at := RuleV2Upto(r, i);
    if i == 2 {
      RuleV2Str(at, 3, r.tag);
      assert RuleV2Upto(r, 3) == at.(tag := r.tag) && RuleV2Parts(r)[2] == Str(3, r.tag);
    } else {
      RuleV2Num(at, 4, r.resolveStrategy);
      assert RuleV2Upto(r, 4) == at.(resolveStrategy := r.resolveStrategy);
      assert RuleV2Parts(r)[3] == Num(4, r.resolveStrategy);
    }
  }

  lemma RuleV2LastParts(r: RuleV2, i: nat)
    requires 4 <= i < 8 && Size(Repeated(7, EncodeOr, r.rules)) < LIMIT
    ensures Fold(ApplyRuleV2, RuleV2Upto(r, i), RuleV2Parts(r)[i]) == Some(RuleV2Upto(r, i + 1))
  {
    match i {
      case 4 => RuleV2Num(RuleV2Upto(r, 4), 5, r.udpStrategy);
      case 5 => RuleV2Str(RuleV2Upto(r, 5), 6, r.resolver);
      case 6 => GroupsFold(RuleV2Upto(r, 6), r.rules);
      case 7 => RuleV2Flag(RuleV2Upto(r, 7), r.disabled);
    }
  }

  lemma RuleV2Fold(r: RuleV2)
    requires Size(Repeated(7, EncodeOr, r.rules)) < LIMIT
    ensures Fold(ApplyRuleV2, EMPTY_RULE_V2, Flatten(RuleV2Parts(r))) == Some(r)
  {
    var parts, states := RuleV2Parts(r), seq(9, i requires 0 <= i < 9 => RuleV2Upto(r, i));
    forall i | 0 <= i < 8
      ensures Fold(ApplyRuleV2, states[i], parts[i]) == Some(states[i + 1])
    {
      if i < 2 {
        RuleV2NameAndMode(r, i);
      } else if i < 4 {
        RuleV2TagAndStrategy(r, i);
      } else {
        RuleV2LastParts(r, i);
      }
    }
    FoldParts(ApplyRuleV2, states, parts);
  }

  lemma RuleV2RoundTrip(r: RuleV2)
    requires |EncodeRuleV2(r)| < LIMIT
    ensures Decode(ApplyRuleV2, EncodeRuleV2(r), EMPTY_RULE_V2) == Some(r)
  {
    PartSize(RuleV2Parts(r), 6);
    RuleV2Fold(r);
    DecodeOfEncoded(ApplyRuleV2, EMPTY_RULE_V2, Flatten(RuleV2Parts(r)));
  }

  // ---- Lists ------------------------------------------------------------------------

  lemma SourcesStepOf(l: List, num: nat, b: Data, ss: seq<Text>)
    requires num in {3, 4} && Decode(ApplyStrings, b, []) == Some(ss)
    ensures ApplyList(l, Field(num, Bytes(b)))
            == Some(if num == 3 then l.(local := Some(ss)) else l.(remote := Some(ss)))
  {
  }

  lemma SourcesFold(l: List, num: nat, m: Option<seq<Text>>)
    requires num in {3, 4} && Size(Maybe(num, EncodeTexts, m)) < LIMIT
    ensures Fold(ApplyList, l, Maybe(num, EncodeTexts, m)) ==
            Some(if m.None? then l else if num == 3 then l.(local := m) else l.(remote := m))
  {
    MaybeSize(num, EncodeTexts, m);
    var l' := if m.None? then l else if num == 3 then l.(local := m) else l.(remote := m);
    if m.Some? {
      TextsRoundTrip(m.value);
      SourcesStepOf(l, num, EncodeTexts(m.value), m.value);
    }
    MaybeFold(ApplyList, l, num, EncodeTexts, m, l');
  }

  lemma ErrorsFold(l: List, ss: seq<Text>)
    requires l.errors == []
    ensures Fold(ApplyList, l, Strs(5, ss)) == Some(l.(errors := ss))
  {
    FoldRepeated(ApplyList, 5, (s: Text) => s, (d: seq<Text>) => l.(errors := d), [], ss);
    assert [] + ss == ss;
  }

  lemma ListFold(l: List)
    requires Size(ListParts(l)[2]) < LIMIT && Size(ListParts(l)[3]) < LIMIT
    ensures Fold(ApplyList, EMPTY_LIST, Flatten(ListParts(l))) == Some(l)
  {
    var parts := ListParts(l);
    var l1 := EMPTY_LIST.(listType := l.listType);
    var l2 := l1.(name := l.name);
    var l3 := l2.(local := l.local);
    var l4 := l3.(remote := l.remote);
    assert Fold(ApplyList, EMPTY_LIST, parts[0]) == Some(l1) by { Int32RoundTrip(l.listType); }
    assert Fold(ApplyList, l1, parts[1]) == Some(l2);
    assert Fold(ApplyList, l2, parts[2]) == Some(l3) by { SourcesFold(l2, 3, l.local); }
    assert Fold(ApplyList, l3, parts[3]) == Some(l4) by { SourcesFold(l3, 4, l.remote); }
    assert Fold(ApplyList, l4, parts[4]) == Some(l) by { ErrorsFold(l4, l.errors); }
    FoldParts(ApplyList, [EMPTY_LIST, l1, l2, l3, l4, l], parts);
  }

  lemma ListRoundTrip(l: List)
    requires |EncodeList(l)| < LIMIT
    ensures Decode(ApplyList, EncodeList(l), EMPTY_LIST) == Some(l)
  {
    PartSize(ListParts(l), 2);
    PartSize(ListParts(l), 3);
    ListFold(l);
    DecodeOfEncoded(ApplyList, EMPTY_LIST, Flatten(ListParts(l)));
  }

  lemma EntryRoundTrip(e: (Text, List))
    requires |EncodeEntry(e)| < LIMIT
    ensures Decode(ApplyEntry, EncodeEntry(e), Entry([], [])) == Some(Entry(e.0, EncodeList(e.1)))
    ensures |EncodeList(e.1)| < LIMIT
  {
    PartSize(EntryParts(e), 1);
    MaybeSize(2, EncodeList, Some(e.1));
    FoldParts(ApplyEntry, [Entry([], []), Entry(e.0, []), Entry(e.0, EncodeList(e.1))], EntryParts(e));
    DecodeOfEncoded(ApplyEntry, Entry([], []), Flatten(EntryParts(e)));
  }

  // ---- The settings -----------------------------------------------------------------

  /** What a sequence of entries is decoded to: the last entry of a name wins, and a list without a
      name takes that name. */
  function Filed(entries: seq<(Text, List)>): map<Text, List> {
    if entries == [] then map[]
    else
      var e := entries[|entries| - 1];
      Filed(entries[..|entries| - 1])[e.0 := Named(e.1, e.0)]
  }

  /** The entries of a map, in any order. */
  ghost predicate Enumerates(entries: seq<(Text, List)>, m: map<Text, List>) {
    && (forall i :: 0 <= i < |entries| ==> entries[i].0 in m && m[entries[i].0] == entries[i].1)
    && (forall k :: k in m ==> exists i :: 0 <= i < |entries| && entries[i].0 == k)
  }

  lemma {:induction false} FiledFrom(entries: seq<(Text, List)>, m: map<Text, List>)
    requires forall i :: 0 <= i < |entries| ==> entries[i].0 in m && m[entries[i].0] == entries[i].1
    ensures forall k :: k in Filed(entries) ==> k in m && Filed(entries)[k] == Named(m[k], k)
    ensures forall i :: 0 <= i < |entries| ==> entries[i].0 in Filed(entries)
  {
    if entries == [] {
    } else {
      FiledFrom(entries[..|entries| - 1], m);
      forall i | 0 <= i < |entries| ensures entries[i].0 in Filed(entries) {
        if i < |entries| - 1 {
          assert entries[..|entries| - 1][i] == entries[i];
        }
      }
    }
  }

  /** In whatever order the lists of a map are written, each comes back, named. */
  lemma FiledAll(entries: seq<(Text, List)>, m: map<Text, List>)
    requires Enumerates(entries, m)
    ensures Filed(entries) == map k | k in m :: Named(m[k], k)
  {
    FiledFrom(entries, m);
  }

  lemma RuleStepOf(c: Bypass, b: Data, r: RuleV2)
    requires Decode(ApplyRuleV2, b, EMPTY_RULE_V2) == Some(r)
    ensures ApplyBypass(c, Field(12, Bytes(b))) == Some(c.(rules := c.rules + [r]))
  {
  }

  lemma RuleStep(c: Bypass, r: RuleV2)
    requires |EncodeRuleV2(r)| < LIMIT
    ensures ApplyBypass(c, Field(12, Bytes(EncodeRuleV2(r)))) == Some(c.(rules := c.rules + [r]))
  {
    RuleV2RoundTrip(r);
    RuleStepOf(c, EncodeRuleV2(r), r);
  }

  lemma ListStepOf(c: Bypass, b: Data, e: Entry, l: List)
    requires Decode(ApplyEntry, b, Entry([], [])) == Some(e) && Decode(ApplyList, e.message, EMPTY_LIST) == Some(l)
    ensures ApplyBypass(c, Field(13, Bytes(b))) == Some(c.(lists := c.lists[e.name := Named(l, e.name)]))
  {
    AddListOf(c, b, e, l);
    var f := Field(13, Bytes(b));
    assert ApplyBypass(c, f) == AddList(c, b);
  }

  lemma AddListOf(c: Bypass, b: Data, e: Entry, l: List)
    requires Decode(ApplyEntry, b, Entry([], [])) == Some(e) && Decode(ApplyList, e.message, EMPTY_LIST) == Some(l)
    ensures AddList(c, b) == Some(c.(lists := c.lists[e.name := Named(l, e.name)]))
  {
  }

  lemma ListStep(c: Bypass, e: (Text, List))
    requires |EncodeEntry(e)| < LIMIT
    ensures ApplyBypass(c, Field(13, Bytes(EncodeEntry(e)))) == Some(c.(lists := c.lists[e.0 := Named(e.1, e.0)]))
  {
    EntryRoundTrip(e);
    ListRoundTrip(e.1);
    ListStepOf(c, EncodeEntry(e), Entry(e.0, EncodeList(e.1)), e.1);
  }

  lemma ListStepAt(c: Bypass, d: seq<(Text, List)>, e: (Text, List))
    requires |EncodeEntry(e)| < LIMIT
    ensures ApplyBypass(c.(lists := Filed(d)), Field(13, Bytes(EncodeEntry(e)))) == Some(c.(lists := Filed(d + [e])))
  {
    ListStep(c.(lists := Filed(d)), e);
    assert (d + [e])[..|d|] == d;
  }

  lemma RulesFold(c: Bypass, rules: seq<RuleV2>)
    requires c.rules == [] && Size(Repeated(12, EncodeRuleV2, rules)) < LIMIT
    ensures Fold(ApplyBypass, c, Repeated(12, EncodeRuleV2, rules)) == Some(c.(rules := rules))
  {
    var at := (d: seq<RuleV2>) => c.(rules := d);
    forall d, r | r in rules
      ensures ApplyBypass(at(d), Field(12, Bytes(EncodeRuleV2(r)))) == Some(at(d + [r]))
    {
      RepeatedSize(12, EncodeRuleV2, rules, r);
      RuleStep(at(d), r);
    }
    FoldRepeated(ApplyBypass, 12, EncodeRuleV2, at, [], rules);
    assert [] + rules == rules;
  }

  lemma ListsFold(c: Bypass, lists: seq<(Text, List)>)
    requires c.lists == map[] && Size(Repeated(13, EncodeEntry, lists)) < LIMIT
    ensures Fold(ApplyBypass, c, Repeated(13, EncodeEntry, lists)) == Some(c.(lists := Filed(lists)))
  {
    var at := (d: seq<(Text, List)>) => c.(lists := Filed(d));
    forall d, e | e in lists
      ensures ApplyBypass(at(d), Field(13, Bytes(EncodeEntry(e)))) == Some(at(d + [e]))
    {
      RepeatedSize(13, EncodeEntry, lists, e);
      ListStepAt(c, d, e);
    }
    FoldRepeated(ApplyBypass, 13, EncodeEntry, at, [], lists);
    assert [] + lists == lists;
  }

  /** A configuration laid over another: its rules and lists, and its scalars where they are not
      zero, for zero scalars are not written. */
  function LaidOver(c: Bypass, into: Bypass): Bypass {
    c.(udpStrategy := if c.udpStrategy == 0 then into.udpStrategy else c.udpStrategy,
       resolveLocally := c.resolveLocally || into.resolveLocally,
       directResolver := if c.directResolver == [] then into.directResolver else c.directResolver,
       proxyResolver := if c.proxyResolver == [] then into.proxyResolver else c.proxyResolver)
  }

  /** The same after the first `i` parts. */
  ghost function LaidOverUpto(c: Bypass, lists: seq<(Text, List)>, into: Bypass, i: nat): Bypass {
    var all := LaidOver(c, into);
    into.(udpStrategy := if i > 0 then all.udpStrategy else into.udpStrategy,
          resolveLocally := if i > 1 then all.resolveLocally else into.resolveLocally,
          directResolver := if i > 2 then all.directResolver else into.directResolver,
          proxyResolver := if i > 3 then all.proxyResolver else into.proxyResolver,
          rules := if i > 4 then c.rules else [],
          lists := if i > 5 then Filed(lists) else map[])
  }

  lemma ScalarFold(c: Bypass, x: int32, b: bool, s: Text)
    ensures Fold(ApplyBypass, c, Num(6, x)) == Some(if x == 0 then c else c.(udpStrategy := x))
    ensures Fold(ApplyBypass, c, Flag(9, b)) == Some(if b then c.(resolveLocally := true) else c)
    ensures Fold(ApplyBypass, c, Str(10, s)) == Some(if s == [] then c else c.(directResolver := s))
    ensures Fold(ApplyBypass, c, Str(11, s)) == Some(if s == [] then c else c.(proxyResolver := s))
  {
    Int32RoundTrip(x);
  }

  lemma ScalarParts(c: Bypass, lists: seq<(Text, List)>, into: Bypass, i: nat)
    requires i < 4
    ensures Fold(ApplyBypass, LaidOverUpto(c, lists, into, i), BypassParts(c, lists)[i])
            == Some(LaidOverUpto(c, lists, into, i + 1))
  {
    var at := LaidOverUpto(c, lists, into, i);
    match i {
      case 0 => ScalarFold(at, c.udpStrategy, false, []);
      case 1 => ScalarFold(at, 0, c.resolveLocally, []);
      case 2 => ScalarFold(at, 0, false, c.directResolver);
      case 3 => ScalarFold(at, 0, false, c.proxyResolver);
    }
  }

  lemma RepeatedParts(c: Bypass, lists: seq<(Text, List)>, into: Bypass, i: nat)
    requires 4 <= i < 6
    requires Size(BypassParts(c, lists)[4]) < LIMIT && Size(BypassParts(c, lists)[5]) < LIMIT
    ensures Fold(ApplyBypass, LaidOverUpto(c, lists, into, i), BypassParts(c, lists)[i])
            == Some(LaidOverUpto(c, lists, into, i + 1))
  {
    if i == 4 {
      RulesFold(LaidOverUpto(c, lists, into, 4), c.rules);
    } else {
      ListsFold(LaidOverUpto(c, lists, into, 5), lists);
    }
  }

  lemma BypassFold(c: Bypass, lists: seq<(Text, List)>, into: Bypass)
    requires |EncodeBypass(c, lists)| < LIMIT
    ensures Fold(ApplyBypass, Cleared(into), Flatten(BypassParts(c, lists)))
            == Some(LaidOver(c, into).(lists := Filed(lists)))
  {
    var parts := BypassParts(c, lists);
    var states := seq(7, i requires 0 <= i < 7 => LaidOverUpto(c, lists, into, i));
    PartSize(parts, 4);
    PartSize(parts, 5);
    forall i | 0 <= i < 6
      ensures Fold(ApplyBypass, states[i], parts[i]) == Some(states[i + 1])
    {
      if i < 4 {
        ScalarParts(c, lists, into, i);
      } else {
        RepeatedParts(c, lists, into, i);
      }
    }
    FoldParts(ApplyBypass, states, parts);
  }

  /** Decoding an encoded configuration over any other yields its rules with the same alternatives
      and conditions in the same order and the lists written; its zero scalars do not show. */
  lemma BypassRoundTrip(c: Bypass, lists: seq<(Text, List)>, into: Bypass)
    requires |EncodeBypass(c, lists)| < LIMIT
    ensures Decode(ApplyBypass, EncodeBypass(c, lists), Cleared(into))
            == Some(LaidOver(c, into).(lists := Filed(lists)))
  {
    BypassFold(c, lists, into);
    DecodeOfEncoded(ApplyBypass, Cleared(into), Flatten(BypassParts(c, lists)));
  }

  /** The configuration comes back exactly when each of its zero scalars is zero where it is
      decoded into, and each of its lists has a name or is filed under the empty one. */
  lemma RoundTripIff(c: Bypass, lists: seq<(Text, List)>, into: Bypass)
    requires |EncodeBypass(c, lists)| < LIMIT && Enumerates(lists, c.lists)
    ensures Decode(ApplyBypass, EncodeBypass(c, lists), Cleared(into)) == Some(c)
            <==> && (c.udpStrategy == 0 ==> into.udpStrategy == 0)
                 && (!c.resolveLocally ==> !into.resolveLocally)
                 && (c.directResolver == [] ==> into.directResolver == [])
                 && (c.proxyResolver == [] ==> into.proxyResolver == [])
                 && (forall k :: k in c.lists ==> c.lists[k].name != [] || k == [])
  {
    BypassRoundTrip(c, lists, into);
    FiledAll(lists, c.lists);
    if k :| k in c.lists && c.lists[k].name == [] && k != [] {
      assert Filed(lists)[k] != c.lists[k];
    } else {
      assert Filed(lists) == c.lists;
    }
  }

  lemma {:induction false} FlattenOnly(parts: seq<seq<Field>>, fs: seq<Field>)
    requires parts != [] && parts[|parts| - 1] == fs
    requires forall i :: 0 <= i < |parts| - 1 ==> parts[i] == []
    ensures Flatten(parts) == fs
    decreases |parts|
  {
    if |parts| == 1 {
      assert parts[1..] == [] && fs + [] == fs;
    } else {
      FlattenOnly(parts[1..], fs);
      assert [] + fs == fs;
    }
  }

  /** One unnamed list without anything in it, filed under "x", takes seven bytes. */
  lemma UnnamedSize(c: Bypass, x: Text)
    requires c == Bypass(0, false, [], [], [], map[x := EMPTY_LIST]) && x == [120]
    ensures |EncodeBypass(c, [(x, EMPTY_LIST)])| == 7
  {
    var e := (x, EMPTY_LIST);
    FlattenOnly(ListParts(EMPTY_LIST), []);
    var first, second := Field(1, Bytes(x)), Field(2, Bytes([]));
    assert EncodeList(EMPTY_LIST) == [];
    assert EntryParts(e) == [[first], [second]];
    assert Flatten([[second]]) == [second] by { FlattenOnly([[second]], [second]); }
    assert [[first], [second]][1..] == [[second]];
    assert Flatten(EntryParts(e)) == [first, second];
    JoinSize([first], [second]);
    assert |EncodeEntry(e)| == 5 by { OneSize(first); OneSize(second); }
    var f := Field(13, Bytes(EncodeEntry(e)));
    assert Repeated(13, EncodeEntry, [e]) == [f];
    FlattenOnly(BypassParts(c, [e]), [f]);
    OneSize(f);
  }

  lemma OneSize(f: Field)
    requires 1 <= f.num < 16 && f.val.Bytes? && |f.val.b| < 128
    ensures Writable([f]) && Size([f]) == 2 + |f.val.b|
  {
    assert EncodeFields([f]) == EncodeField(f) + EncodeFields([]) by {
      assert [f][1..] == [];
    }
    assert |EncodeTag(f.num, 2)| == 1 && |EncodeVarint(|f.val.b|)| == 1;
    assert |EncodeField(f)| == 1 + (1 + |f.val.b|);
  }

  /** An unnamed list filed under "x" comes back with that name. */
  lemma UnnamedTakesKey(into: Bypass)
    requires into.udpStrategy == 0 && !into.resolveLocally
    requires into.directResolver == [] && into.proxyResolver == []
    ensures var x: Text := [120];
            var c := Bypass(0, false, [], [], [], map[x := EMPTY_LIST]);
            Decode(ApplyBypass, EncodeBypass(c, [(x, EMPTY_LIST)]), Cleared(into))
            == Some(c.(lists := map[x := EMPTY_LIST.(name := x)]))
  {
    var x: Text := [120];
    var c := Bypass(0, false, [], [], [], map[x := EMPTY_LIST]);
    UnnamedSize(c, x);
    BypassRoundTrip(c, [(x, EMPTY_LIST)], into);
  }

  /** "bootstrap" */
  const BOOTSTRAP: Text := [98, 111, 111, 116, 115, 116, 114, 97, 112]

  /** The defaults that settings are decoded into name a resolver for both directions, so that a
      configuration without resolvers comes back with them. */
  lemma DefaultsShowThrough(c: Bypass, lists: seq<(Text, List)>, defaults: Bypass)
    requires |EncodeBypass(c, lists)| < LIMIT
    requires c.directResolver == [] && c.proxyResolver == []
    requires defaults.directResolver == BOOTSTRAP && defaults.proxyResolver == BOOTSTRAP
    ensures var r := Decode(ApplyBypass, EncodeBypass(c, lists), Cleared(defaults));
            r.Some? && r.value.directResolver == BOOTSTRAP && r.value.proxyResolver == BOOTSTRAP && r != Some(c)
  {
    BypassRoundTrip(c, lists, defaults);
  }

  /** Two results that agree wherever the input had its say. */
  ghost predicate Agree<T(!new)>(start: T, other: T, a: T, b: T) {
    a == b || (a == start && b == other)
  }

  ghost predicate Alike(start: Bypass, other: Bypass, a: Bypass, b: Bypass) {
    && a.rules == b.rules && a.lists == b.lists
    && Agree(start.udpStrategy, other.udpStrategy, a.udpStrategy, b.udpStrategy)
    && Agree(start.resolveLocally, other.resolveLocally, a.resolveLocally, b.resolveLocally)
    && Agree(start.directResolver, other.directResolver, a.directResolver, b.directResolver)
    && Agree(start.proxyResolver, other.proxyResolver, a.proxyResolver, b.proxyResolver)
  }

  ghost predicate AlikeResults(start: Bypass, other: Bypass, x: Option<Bypass>, y: Option<Bypass>) {
    if x.None? then y.None? else y.Some? && Alike(start, other, x.value, y.value)
  }

  lemma AlikeRule(start: Bypass, other: Bypass, a: Bypass, b: Bypass, data: Data)
    requires Alike(start, other, a, b)
    ensures AlikeResults(start, other, AddRule(a, data), AddRule(b, data))
  {
  }

  lemma AlikeList(start: Bypass, other: Bypass, a: Bypass, b: Bypass, data: Data)
    requires Alike(start, other, a, b)
    ensures AlikeResults(start, other, AddList(a, data), AddList(b, data))
  {
  }

  lemma AlikeScalar(start: Bypass, other: Bypass, a: Bypass, b: Bypass, f: Field)
    requires Alike(start, other, a, b) && f.num != 12 && f.num != 13
    ensures AlikeResults(start, other, ApplyBypass(a, f), ApplyBypass(b, f))
  {
  }

  lemma AlikeStep(start: Bypass, other: Bypass, a: Bypass, b: Bypass, f: Field)
    requires Alike(start, other, a, b)
    ensures AlikeResults(start, other, ApplyBypass(a, f), ApplyBypass(b, f))
  {
    if f.num == 12 {
      if f.val.Bytes? {
        AlikeRule(start, other, a, b, f.val.b);
      }
    } else if f.num == 13 {
      if f.val.Bytes? {
        AlikeList(start, other, a, b, f.val.b);
      }
    } else {
      AlikeScalar(start, other, a, b, f);
    }
  }

  /** On any input, well-formed or not, what is decoded into matters only for the scalars that the
      input does not mention. */
  lemma {:induction false} DecodeAlike(data: Data, start: Bypass, other: Bypass, a: Bypass, b: Bypass)
    requires Alike(start, other, a, b)
    ensures AlikeResults(start, other, Decode(ApplyBypass, data, a), Decode(ApplyBypass, data, b))
    decreases |data|
  {
    if data == [] || Next(data).None? {
    } else {
      var s := Next(data).value;
      AlikeStep(start, other, a, b, s.value);
      if ApplyBypass(a, s.value).Some? {
        DecodeAlike(s.rest, start, other, ApplyBypass(a, s.value).value, ApplyBypass(b, s.value).value);
      }
    }
  }

  lemma SettingSkips(c: Bypass, f: Field)
    requires f.num !in {6, 9, 10, 11, 12, 13}
    ensures ApplyBypass(c, f) == Some(c)
  {
  }

  lemma RuleSkips(r: RuleV2, f: Field)
    requires !(1 <= f.num <= 8)
    ensures ApplyRuleV2(r, f) == Some(r)
  {
  }

  /** A field with any other number, of any well-formed kind, may stand between the fields of
      the settings without changing them. */
  lemma UnknownSettingIgnored(before: Data, unknown: Data, f: Field, after: Data, c: Bypass)
    requires WholeFields(before) && Next(unknown) == Some(Scan(f, []))
    requires f.num !in {6, 9, 10, 11, 12, 13}
    ensures Decode(ApplyBypass, before + (unknown + after), c) == Decode(ApplyBypass, before + after, c)
  {
    forall a ensures ApplyBypass(a, f) == Some(a) {
      SettingSkips(a, f);
    }
    UnknownFieldIgnored(ApplyBypass, before, unknown, f, after, c);
  }

  /** The same inside a rule. */
  lemma UnknownRuleFieldIgnored(before: Data, unknown: Data, f: Field, after: Data, r: RuleV2)
    requires WholeFields(before) && Next(unknown) == Some(Scan(f, []))
    requires !(1 <= f.num <= 8)
    ensures Decode(ApplyRuleV2, before + (unknown + after), r) == Decode(ApplyRuleV2, before + after, r)
  {
    forall a ensures ApplyRuleV2(a, f) == Some(a) {
      RuleSkips(a, f);
    }
    UnknownFieldIgnored(ApplyRuleV2, before, unknown, f, after, r);
  }

  /** The same inside a condition. */
  lemma UnknownConditionFieldIgnored(before: Data, unknown: Data, f: Field, after: Data, r: Rule)
    requires WholeFields(before) && Next(unknown) == Some(Scan(f, [])) && !(1 <= f.num <= 6)
    ensures Decode(ApplyRule, before + (unknown + after), r) == Decode(ApplyRule, before + after, r)
  {
    UnknownFieldIgnored(ApplyRule, before, unknown, f, after, r);
  }

  /** The same inside an alternative. */
  lemma UnknownAlternativeFieldIgnored(before: Data, unknown: Data, f: Field, after: Data, o: Or)
    requires WholeFields(before) && Next(unknown) == Some(Scan(f, [])) && f.num != 1
    ensures Decode(ApplyOr, before + (unknown + after), o) == Decode(ApplyOr, before + after, o)
  {
    UnknownFieldIgnored(ApplyOr, before, unknown, f, after, o);
  }

  /** The same inside a source. */
  lemma UnknownSourceFieldIgnored(before: Data, unknown: Data, f: Field, after: Data, s: Source)
    requires WholeFields(before) && Next(unknown) == Some(Scan(f, [])) && f.num != 1 && f.num != 2
    ensures Decode(ApplySource, before + (unknown + after), s) == Decode(ApplySource, before + after, s)
  {
    UnknownFieldIgnored(ApplySource, before, unknown, f, after, s);
  }

  /** The same inside a list. */
  lemma UnknownListFieldIgnored(before: Data, unknown: Data, f: Field, after: Data, l: List)
    requires WholeFields(before) && Next(unknown) == Some(Scan(f, [])) && !(1 <= f.num <= 5)
    ensures Decode(ApplyList, before + (unknown + after), l) == Decode(ApplyList, before + after, l)
  {
    UnknownFieldIgnored(ApplyList, before, unknown, f, after, l);
  }

  /** The same inside the entry a list is filed in. */
  lemma UnknownEntryFieldIgnored(before: Data, unknown: Data, f: Field, after: Data, e: Entry)
    requires WholeFields(before) && Next(unknown) == Some(Scan(f, [])) && f.num != 1 && f.num != 2
    ensures Decode(ApplyEntry, before + (unknown + after), e) == Decode(ApplyEntry, before + after, e)
  {
    UnknownFieldIgnored(ApplyEntry, before, unknown, f, after, e);
  }

  // Numbers that no encoder would write.

  /** An enumeration keeps the low 32 bits of whatever number it is given. */
  lemma LowBitsKept(v: nat)
    ensures (ToInt32(v) - v) % 0x1_0000_0000 == 0
  {
    var q := v / 0x1_0000_0000;
    assert v == 0x1_0000_0000 * q + v % 0x1_0000_0000;
    if v % 0x1_0000_0000 < 0x8000_0000 {
      assert ToInt32(v) - v == 0x1_0000_0000 * -q;
    } else {
      assert ToInt32(v) - v == 0x1_0000_0000 * (-q - 1);
    }
  }

  lemma FlagFields(c: Bypass, r: RuleV2, n: nat)
    ensures ApplyBypass(c, Field(9, Varint(n))) == Some(c.(resolveLocally := n > 0))
    ensures ApplyRuleV2(r, Field(8, Varint(n))) == Some(r.(disabled := n > 0))
  {
  }

  /** A flag of the settings is set by every number but zero, whatever came before. */
  lemma FlagOfNumber(before: Data, n: nat, c: Bypass, d: Bypass)
    requires WholeFields(before) && n < LIMIT && Decode(ApplyBypass, before, c) == Some(d)
    ensures Decode(ApplyBypass, before + WrittenAll([Number(9, n)]), c) == Some(d.(resolveLocally := n > 0))
  {
    LastField(ApplyBypass, before, Number(9, n), c);
    FlagFields(d, EMPTY_RULE_V2, n);
  }

  /** So is that of a rule. */
  lemma RuleFlagOfNumber(before: Data, n: nat, r: RuleV2, d: RuleV2)
    requires WholeFields(before) && n < LIMIT && Decode(ApplyRuleV2, before, r) == Some(d)
    ensures Decode(ApplyRuleV2, before + WrittenAll([Number(8, n)]), r) == Some(d.(disabled := n > 0))
  {
    LastField(ApplyRuleV2, before, Number(8, n), r);
    FlagFields(Bypass(0, false, [], [], [], map[]), d, n);
  }

  /** The last field is applied to what those before it made. */
  lemma LastField<A>(apply: (A, Field) -> Option<A>, before: Data, f: Item, acc: A)
    requires WholeFields(before) && Proper(f, MAX_DEPTH)
    ensures var d := Decode(apply, before, acc);
            d.Some? ==> Decode(apply, before + WrittenAll([f]), acc) == apply(d.value, Field(f.num, Meaning(f)))
  {
    var field := EncodeTag(f.num, TypeOf(f)) + (Body(f) + []);
    assert WrittenAll([f]) == field;
    NextOfWritten(f, []);
    DecodeJoin(apply, before, field, acc);
  }

  // Fields that are known, but not like this.

  /** A setting, a rule or a list of the wrong type, and a rule or a list that cannot be decoded, make
      the settings an error. */
  lemma WrongSettingFails(before: Data, f: Item, after: Data, c: Bypass)
    requires WholeFields(before) && Proper(f, MAX_DEPTH)
    requires || (f.num in {6, 9} && !f.Number?)
             || (f.num in {10, 11, 12, 13} && !f.Chunk?)
             || (f.num == 12 && f.Chunk? && Decode(ApplyRuleV2, f.b, EMPTY_RULE_V2).None?)
             || (f.num == 13 && f.Chunk? && Decode(ApplyEntry, f.b, Entry([], [])).None?)
    ensures Decode(ApplyBypass, before + (WrittenAll([f]) + after), c) == None
  {
    forall a ensures ApplyBypass(a, Field(f.num, Meaning(f))) == None {
      WrongSetting(a, f);
    }
    RefusedFieldFails(ApplyBypass, before, f, after, c);
  }

  lemma WrongSetting(c: Bypass, f: Item)
    requires || (f.num in {6, 9} && !f.Number?)
             || (f.num in {10, 11, 12, 13} && !f.Chunk?)
             || (f.num == 12 && f.Chunk? && Decode(ApplyRuleV2, f.b, EMPTY_RULE_V2).None?)
             || (f.num == 13 && f.Chunk? && Decode(ApplyEntry, f.b, Entry([], [])).None?)
    ensures ApplyBypass(c, Field(f.num, Meaning(f))) == None
  {
  }

  /** The same inside a rule. */
  lemma WrongRuleFieldFails(before: Data, f: Item, after: Data, r: RuleV2)
    requires WholeFields(before) && Proper(f, MAX_DEPTH)
    requires || (f.num in {2, 4, 5, 8} && !f.Number?)
             || (f.num in {1, 3, 6, 7} && !f.Chunk?)
             || (f.num == 7 && f.Chunk? && Decode(ApplyOr, f.b, Or([])).None?)
    ensures Decode(ApplyRuleV2, before + (WrittenAll([f]) + after), r) == None
  {
    forall a ensures ApplyRuleV2(a, Field(f.num, Meaning(f))) == None {
      WrongRuleField(a, f);
    }
    RefusedFieldFails(ApplyRuleV2, before, f, after, r);
  }

  lemma WrongRuleField(r: RuleV2, f: Item)
    requires || (f.num in {2, 4, 5, 8} && !f.Number?)
             || (f.num in {1, 3, 6, 7} && !f.Chunk?)
             || (f.num == 7 && f.Chunk? && Decode(ApplyOr, f.b, Or([])).None?)
    ensures ApplyRuleV2(r, Field(f.num, Meaning(f))) == None
  {
  }

  /** The same inside alternatives, conditions and sources. */
  lemma WrongConditionFails(before: Data, f: Item, after: Data, o: Or, r: Rule, s: Source)
    requires WholeFields(before) && Proper(f, MAX_DEPTH)
    ensures f.num == 1 && (!f.Chunk? || Decode(ApplyRule, f.b, EMPTY_RULE).None?) ==>
              Decode(ApplyOr, before + (WrittenAll([f]) + after), o) == None
    ensures 1 <= f.num <= 6 && !f.Chunk? ==> Decode(ApplyRule, before + (WrittenAll([f]) + after), r) == None
    ensures 1 <= f.num <= 2 && !f.Chunk? ==> Decode(ApplySource, before + (WrittenAll([f]) + after), s) == None
  {
    if f.num == 1 && (!f.Chunk? || Decode(ApplyRule, f.b, EMPTY_RULE).None?) {
      RefusedFieldFails(ApplyOr, before, f, after, o);
    }
    if 1 <= f.num <= 6 && !f.Chunk? {
      RefusedFieldFails(ApplyRule, before, f, after, r);
    }
    if 1 <= f.num <= 2 && !f.Chunk? {
      RefusedFieldFails(ApplySource, before, f, after, s);
    }
  }

  /** The same inside lists and their entries. */
  lemma WrongListFieldFails(before: Data, f: Item, after: Data, l: List, e: Entry)
    requires WholeFields(before) && Proper(f, MAX_DEPTH)
    ensures (f.num == 1 && !f.Number?) || (2 <= f.num <= 5 && !f.Chunk?) ==>
              Decode(ApplyList, before + (WrittenAll([f]) + after), l) == None
    ensures 1 <= f.num <= 2 && !f.Chunk? ==> Decode(ApplyEntry, before + (WrittenAll([f]) + after), e) == None
  {
    if (f.num == 1 && !f.Number?) || (2 <= f.num <= 5 && !f.Chunk?) {
      RefusedFieldFails(ApplyList, before, f, after, l);
    }
    if 1 <= f.num <= 2 && !f.Chunk? {
      RefusedFieldFails(ApplyEntry, before, f, after, e);
    }
  }

  /** Whatever came before it, the last mode of a rule is the rule's mode. */
  lemma LastModeWins(before: Data, x: int32, r: RuleV2)
    requires WholeFields(before) && Decode(ApplyRuleV2, before, EMPTY_RULE_V2) == Some(r)
    ensures Decode(ApplyRuleV2, before + EncodeField(Field(2, Varint(OfInt32(x)))), EMPTY_RULE_V2)
            == Some(r.(mode := x))
  {
    var f := Field(2, Varint(OfInt32(x)));
    RoomOfVarint();
    VarintSize(OfInt32(x), 0);
    DecodeJoin(ApplyRuleV2, before, EncodeField(f), EMPTY_RULE_V2);
    DecodeOne(ApplyRuleV2, f, r);
    Int32RoundTrip(x);
  }
}
