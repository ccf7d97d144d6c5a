/**
The Protocol Buffers wire format, as the decoders of the legacy settings use it: tags,
varints, length-delimited values and the skipping of unknown fields, nested groups included.
*/
module Wire {
  import opened Options
  import opened Bytes

  type Data = seq<byte>

  const MAX_NUMBER: nat := 0x7fff_ffff
  const MAX_DEPTH: int := 10000
  const LIMIT: nat := 0x1_0000_0000_0000_0000

  /** The encoded part and what follows it. */
  datatype Scan<+T> = Scan(value: T, rest: Data)

  // ---- Varints ----------------------------------------------------------------------

  /** What the bytes of a varint from the i-th on can express: 7 bits each, and one bit in the
      tenth. */
  function Room(i: nat): (r: nat)
    requires i <= 9
    ensures r >= 2 && (i < 9 ==> r >= 256)
    decreases 9 - i
  {
    if i == 9 then 2 else 128 * Room(i + 1)
  }

  function VarintAt(b: Data, i: nat): (r: Option<Scan<nat>>)
    requires i <= 9
    ensures r.Some? ==> |r.value.rest| < |b| && r.value.value < Room(i)
    decreases 9 - i
  {
    if b == [] then None
    else if i == 9 then (if b[0] < 2 then Some(Scan(b[0], b[1..])) else None)
    else if b[0] < 128 then Some(Scan(b[0], b[1..]))
    else match VarintAt(b[1..], i + 1)
      case None => None
      case Some(s) => Some(Scan(b[0] - 128 + 128 * s.value, s.rest))
  }

  function ConsumeVarint(b: Data): (r: Option<Scan<nat>>)
    ensures r.Some? ==> |r.value.rest| < |b| && r.value.value < LIMIT
  {
    RoomOfVarint();
    VarintAt(b, 0)
  }

  function EncodeVarint(v: nat): (b: Data)
    ensures b != []
  {
    if v < 128 then [v] else [128 + v % 128] + EncodeVarint(v / 128)
  }

  lemma RoomOfVarint()
    ensures Room(0) == LIMIT
  {
    assert Room(7) == 32768;
    assert Room(5) == 16384 * 32768;
    assert Room(3) == 16384 * 16384 * 32768;
  }

  lemma {:induction false} VarintRoundTrip(v: nat, i: nat, rest: Data)
    requires i <= 9 && v < Room(i)
    ensures VarintAt(EncodeVarint(v) + rest, i) == Some(Scan(v, rest))
    decreases 9 - i
  {
    if v < 128 {
      assert ([v] + rest)[1..] == rest;
    } else {
      var tail := EncodeVarint(v / 128) + rest;
      VarintRoundTrip(v / 128, i + 1, rest);
      assert EncodeVarint(v) + rest == [128 + v % 128] + tail;
      assert ([128 + v % 128] + tail)[1..] == tail;
    }
  }

  lemma {:induction false} VarintSize(v: nat, i: nat)
    requires i <= 9 && v < Room(i)
    ensures |EncodeVarint(v)| <= 10 - i
    decreases 9 - i
  {
    if v < 128 {
    } else {
      VarintSize(v / 128, i + 1);
    }
  }

  lemma {:induction false} VarintExtends(b: Data, i: nat, x: Data)
    requires i <= 9 && VarintAt(b, i).Some?
    ensures VarintAt(b + x, i) == Some(Scan(VarintAt(b, i).value.value, VarintAt(b, i).value.rest + x))
    decreases 9 - i
  {
    assert (b + x)[1..] == b[1..] + x;
    if i < 9 && b[0] >= 128 {
      VarintExtends(b[1..], i + 1, x);
    }
  }

  // ---- Fields -----------------------------------------------------------------------

  datatype Val =
    | Varint(n: nat)
    | Fixed64(raw: Data)
    | Bytes(b: Data)
    | Group(raw: Data)
    | Fixed32(raw: Data)

  datatype Field = Field(num: nat, val: Val)

  datatype Tag = Tag(num: nat, typ: nat)

  function ConsumeTag(b: Data): (r: Option<Scan<Tag>>)
    ensures r.Some? ==> |r.value.rest| < |b| && 1 <= r.value.value.num <= MAX_NUMBER
  {
    match ConsumeVarint(b)
    case None => None
    case Some(s) =>
      var num, typ := s.value / 8, s.value % 8;
      if 1 <= num <= MAX_NUMBER then Some(Scan(Tag(num, typ), s.rest)) else None
  }

  function ConsumeFixed(b: Data, n: nat): (r: Option<Scan<Data>>)
    ensures r.Some? ==> |r.value.rest| <= |b|
  {
    if n <= |b| then Some(Scan(b[..n], b[n..])) else None
  }

  function ConsumeBytes(b: Data): (r: Option<Scan<Data>>)
    ensures r.Some? ==> |r.value.rest| <= |b|
  {
    match ConsumeVarint(b)
    case None => None
    case Some(s) => ConsumeFixed(s.rest, s.value)
  }

  function ConsumeValue(num: nat, typ: nat, b: Data, depth: int): (r: Option<Scan<Val>>)
    ensures r.Some? ==> |r.value.rest| <= |b|
    decreases |b|, 1
  {
    match typ
    case 0 => (match ConsumeVarint(b) case None => None case Some(s) => Some(Scan(Varint(s.value), s.rest)))
    case 1 => (match ConsumeFixed(b, 8) case None => None case Some(s) => Some(Scan(Fixed64(s.value), s.rest)))
    case 2 => (match ConsumeBytes(b) case None => None case Some(s) => Some(Scan(Bytes(s.value), s.rest)))
    case 3 =>
      if depth < 0 then None
      else (match ConsumeGroup(num, b, depth)
            case None => None
            case Some(rest) => Some(Scan(Group(b[..|b| - |rest|]), rest)))
    case 5 => (match ConsumeFixed(b, 4) case None => None case Some(s) => Some(Scan(Fixed32(s.value), s.rest)))
    case _ => None
  }

  /** Skips fields up to the end tag of group `num`. */
  function ConsumeGroup(num: nat, b: Data, depth: int): (r: Option<Data>)
    ensures r.Some? ==> |r.value| <= |b|
    decreases |b|, 0
  {
    match ConsumeTag(b)
    case None => None
    case Some(t) =>
      if t.value.typ == 4 then (if t.value.num == num then Some(t.rest) else None)
      else match ConsumeValue(t.value.num, t.value.typ, t.rest, depth - 1)
        case None => None
        case Some(s) => ConsumeGroup(num, s.rest, depth)
  }

  /** The first field and the rest. */
  function Next(b: Data): (r: Option<Scan<Field>>)
    ensures r.Some? ==> |r.value.rest| < |b|
  {
    match ConsumeTag(b)
    case None => None
    case Some(t) =>
      match ConsumeValue(t.value.num, t.value.typ, t.rest, MAX_DEPTH)
      case None => None
      case Some(s) => Some(Scan(Field(t.value.num, s.value), s.rest))
  }

  // ---- More input behind a field changes nothing -------------------------------------

  lemma TagExtends(b: Data, x: Data)
    requires ConsumeTag(b).Some?
    ensures ConsumeTag(b + x) == Some(Scan(ConsumeTag(b).value.value, ConsumeTag(b).value.rest + x))
  {
    VarintExtends(b, 0, x);
  }

  lemma FixedExtends(b: Data, n: nat, x: Data)
    requires ConsumeFixed(b, n).Some?
    ensures ConsumeFixed(b + x, n) == Some(Scan(ConsumeFixed(b, n).value.value, ConsumeFixed(b, n).value.rest + x))
  {
    assert (b + x)[..n] == b[..n] && (b + x)[n..] == b[n..] + x;
  }

  lemma BytesExtends(b: Data, x: Data)
    requires ConsumeBytes(b).Some?
    ensures ConsumeBytes(b + x) == Some(Scan(ConsumeBytes(b).value.value, ConsumeBytes(b).value.rest + x))
  {
    VarintExtends(b, 0, x);
    FixedExtends(ConsumeVarint(b).value.rest, ConsumeVarint(b).value.value, x);
  }

  lemma PlainValueExtends(num: nat, typ: nat, b: Data, depth: int, x: Data)
    requires ConsumeValue(num, typ, b, depth).Some? && typ != 3
    ensures var v := ConsumeValue(num, typ, b, depth).value;
            ConsumeValue(num, typ, b + x, depth) == Some(Scan(v.value, v.rest + x))
  {
    match typ {
      case 0 => VarintExtends(b, 0, x);
      case 1 => FixedExtends(b, 8, x);
      case 2 => BytesExtends(b, x);
      case 5 => FixedExtends(b, 4, x);
    }
  }

  lemma {:induction false} ValueExtends(num: nat, typ: nat, b: Data, depth: int, x: Data)
    requires ConsumeValue(num, typ, b, depth).Some?
    ensures var v := ConsumeValue(num, typ, b, depth).value;
            ConsumeValue(num, typ, b + x, depth) == Some(Scan(v.value, v.rest + x))
    decreases |b|, 1
  {
    if typ == 3 {
      GroupExtends(num, b, depth, x);
      var rest := ConsumeGroup(num, b, depth).value;
      assert (b + x)[..|b| - |rest|] == b[..|b| - |rest|];
    } else {
      PlainValueExtends(num, typ, b, depth, x);
    }
  }

  lemma {:induction false} GroupExtends(num: nat, b: Data, depth: int, x: Data)
    requires ConsumeGroup(num, b, depth).Some?
    ensures ConsumeGroup(num, b + x, depth) == Some(ConsumeGroup(num, b, depth).value + x)
    decreases |b|, 0
  {
    TagExtends(b, x);
    var t := ConsumeTag(b).value;
    if t.value.typ != 4 {
      ValueExtends(t.value.num, t.value.typ, t.rest, depth - 1, x);
      GroupExtends(num, ConsumeValue(t.value.num, t.value.typ, t.rest, depth - 1).value.rest, depth, x);
    }
  }

  lemma NextExtends(b: Data, x: Data)
    requires Next(b).Some?
    ensures Next(b + x) == Some(Scan(Next(b).value.value, Next(b).value.rest + x))
  {
    TagExtends(b, x);
    var t := ConsumeTag(b).value;
    ValueExtends(t.value.num, t.value.typ, t.rest, MAX_DEPTH, x);
  }

  // ---- Encoding ---------------------------------------------------------------------

  /** The fields an encoder writes. */
  predicate Encodable(f: Field) {
    1 <= f.num <= MAX_NUMBER && (f.val.Varint? || f.val.Bytes?) && (f.val.Varint? ==> f.val.n < LIMIT)
  }

  function EncodeTag(num: nat, typ: nat): (b: Data)
    ensures b != []
  {
    EncodeVarint(8 * num + typ)
  }

  function EncodeField(f: Field): (b: Data)
    requires Encodable(f)
    ensures b != []
  {
    match f.val
    case Varint(n) => EncodeTag(f.num, 0) + EncodeVarint(n)
    case Bytes(b) => EncodeTag(f.num, 2) + (EncodeVarint(|b|) + b)
  }

  function EncodeFields(fs: seq<Field>): Data
    requires forall i :: 0 <= i < |fs| ==> Encodable(fs[i])
  {
    if fs == [] then [] else EncodeField(fs[0]) + EncodeFields(fs[1..])
  }

  lemma TagOfEncoded(num: nat, typ: nat, rest: Data)
    requires 1 <= num <= MAX_NUMBER && typ < 8
    ensures ConsumeTag(EncodeTag(num, typ) + rest) == Some(Scan(Tag(num, typ), rest))
  {
    RoomOfVarint();
    VarintRoundTrip(8 * num + typ, 0, rest);
  }

  lemma FixedOfWritten(raw: Data, rest: Data)
    ensures ConsumeFixed(raw + rest, |raw|) == Some(Scan(raw, rest))
  {
  }

  lemma Regroup(a: Data, b: Data, c: Data)
    ensures a + b + c == a + (b + c)
  {
  }

  lemma BytesOfEncoded(data: Data, rest: Data)
    requires |data| < LIMIT
    ensures ConsumeBytes(EncodeVarint(|data|) + data + rest) == Some(Scan(data, rest))
  {
    RoomOfVarint();
    VarintRoundTrip(|data|, 0, data + rest);
    Regroup(EncodeVarint(|data|), data, rest);
    FixedOfWritten(data, rest);
  }

  /** A field is its tag followed by its value. */
  lemma NextOfParts(tag: Data, body: Data, rest: Data, f: Field, typ: nat)
    requires ConsumeTag(tag + (body + rest)) == Some(Scan(Tag(f.num, typ), body + rest))
    requires ConsumeValue(f.num, typ, body + rest, MAX_DEPTH) == Some(Scan(f.val, rest))
    ensures Next(tag + body + rest) == Some(Scan(f, rest))
  {
    assert tag + body + rest == tag + (body + rest);
  }

  lemma NextOfVarint(num: nat, n: nat, rest: Data)
    requires 1 <= num <= MAX_NUMBER && n < LIMIT
    ensures Next(EncodeTag(num, 0) + EncodeVarint(n) + rest) == Some(Scan(Field(num, Varint(n)), rest))
  {
    TagOfEncoded(num, 0, EncodeVarint(n) + rest);
    RoomOfVarint();
    VarintRoundTrip(n, 0, rest);
    NextOfParts(EncodeTag(num, 0), EncodeVarint(n), rest, Field(num, Varint(n)), 0);
  }

  lemma NextOfBytes(num: nat, data: Data, rest: Data)
    requires 1 <= num <= MAX_NUMBER && |data| < LIMIT
    ensures Next(EncodeTag(num, 2) + (EncodeVarint(|data|) + data) + rest) ==
            Some(Scan(Field(num, Bytes(data)), rest))
  {
    TagOfEncoded(num, 2, EncodeVarint(|data|) + data + rest);
    BytesOfEncoded(data, rest);
    NextOfParts(EncodeTag(num, 2), EncodeVarint(|data|) + data, rest, Field(num, Bytes(data)), 2);
  }

  lemma NextOfEncoded(f: Field, rest: Data)
    requires Encodable(f) && |EncodeField(f)| < LIMIT
    ensures Next(EncodeField(f) + rest) == Some(Scan(f, rest))
  {
    match f.val {
      case Varint(n) => NextOfVarint(f.num, n, rest);
      case Bytes(data) => NextOfBytes(f.num, data, rest);
    }
  }

  // ---- Decoding a message -----------------------------------------------------------

  /** A decoder takes field after field and applies each to the message so far; an error in the
      input or in a field is the error of the whole. */
  function Decode<A>(apply: (A, Field) -> Option<A>, data: Data, acc: A): Option<A>
    decreases |data|
  {
    if data == [] then Some(acc)
    else match Next(data)
      case None => None
      case Some(s) =>
        match apply(acc, s.value)
        case None => None
        case Some(a) => Decode(apply, s.rest, a)
  }

  function Fold<A>(apply: (A, Field) -> Option<A>, acc: A, fs: seq<Field>): Option<A> {
    if fs == [] then Some(acc)
    else match apply(acc, fs[0])
      case None => None
      case Some(a) => Fold(apply, a, fs[1..])
  }

  /** The loop all decoders share; every round takes at least one byte off the input. */
  method DecodeMessage<A>(apply: (A, Field) -> Option<A>, data: Data, empty: A) returns (r: Option<A>)
    ensures r == Decode(apply, data, empty)
  {
    var rest, out := data, empty;
    while |rest| > 0
      invariant Decode(apply, data, empty) == Decode(apply, rest, out)
      decreases |rest|
    {
      var s := Next(rest);
      if s.None? {
        return None;
      }
      var a := apply(out, s.value.value);
      if a.None? {
        return None;
      }
      rest, out := s.value.rest, a.value;
    }
    return Some(out);
  }

  lemma {:induction false} DecodeOfEncoded<A>(apply: (A, Field) -> Option<A>, acc: A, fs: seq<Field>)
    requires forall i :: 0 <= i < |fs| ==> Encodable(fs[i])
    requires |EncodeFields(fs)| < LIMIT
    ensures Decode(apply, EncodeFields(fs), acc) == Fold(apply, acc, fs)
    decreases |fs|
  {
    if fs == [] {
    } else {
      NextOfEncoded(fs[0], EncodeFields(fs[1..]));
      var a := apply(acc, fs[0]);
      if a.Some? {
        DecodeOfEncoded(apply, a.value, fs[1..]);
      }
    }
  }

  lemma {:induction false} FoldJoin<A>(apply: (A, Field) -> Option<A>, acc: A, fs: seq<Field>, gs: seq<Field>)
    ensures Fold(apply, acc, fs + gs) ==
            (match Fold(apply, acc, fs) case None => None case Some(a) => Fold(apply, a, gs))
    decreases |fs|
  {
    if fs == [] {
      assert fs + gs == gs;
    } else {
      assert (fs + gs)[1..] == fs[1..] + gs;
      var a := apply(acc, fs[0]);
      if a.Some? {
        FoldJoin(apply, a.value, fs[1..], gs);
      }
    }
  }

  ghost predicate Writable(fs: seq<Field>) {
    forall i :: 0 <= i < |fs| ==> Encodable(fs[i])
  }

  function Size(fs: seq<Field>): nat
    requires Writable(fs)
  {
    |EncodeFields(fs)|
  }

  lemma {:induction false} JoinSize(fs: seq<Field>, gs: seq<Field>)
    requires Writable(fs) && Writable(gs)
    ensures Writable(fs + gs) && Size(fs + gs) == Size(fs) + Size(gs)
    decreases |fs|
  {
    if fs == [] {
      assert fs + gs == gs;
    } else {
      assert (fs + gs)[1..] == fs[1..] + gs;
      JoinSize(fs[1..], gs);
    }
  }

  /** A message in parts: each part is one member of the message. */
  function Flatten(parts: seq<seq<Field>>): (fs: seq<Field>)
    ensures (forall i :: 0 <= i < |parts| ==> Writable(parts[i])) ==> Writable(fs)
  {
    if parts == [] then [] else parts[0] + Flatten(parts[1..])
  }

  lemma FlattenSize(parts: seq<seq<Field>>)
    requires parts != [] && forall j :: 0 <= j < |parts| ==> Writable(parts[j])
    ensures Writable(Flatten(parts[1..])) && Writable(Flatten(parts))
    ensures Size(Flatten(parts)) == Size(parts[0]) + Size(Flatten(parts[1..]))
  {
    var first, rest := parts[0], Flatten(parts[1..]);
    assert Flatten(parts) == first + rest;
    JoinSize(first, rest);
  }

  ghost predicate AllWritable(parts: seq<seq<Field>>) {
    forall j :: 0 <= j < |parts| ==> Writable(parts[j])
  }

  /** The size of the parts from i on. */
  ghost function SizeFrom(parts: seq<seq<Field>>, i: nat): nat
    requires i <= |parts| && AllWritable(parts)
  {
    Size(Flatten(parts[i..]))
  }

  lemma DropOne(parts: seq<seq<Field>>, i: nat)
    requires i < |parts| && AllWritable(parts)
    ensures SizeFrom(parts, i) == Size(parts[i]) + SizeFrom(parts, i + 1)
  {
    FlattenSize(parts[i..]);
    assert parts[i..][0] == parts[i] && parts[i..][1..] == parts[i + 1..];
  }

  lemma {:induction false} SuffixSize(parts: seq<seq<Field>>, i: nat)
    requires i <= |parts| && AllWritable(parts)
    ensures SizeFrom(parts, i) <= SizeFrom(parts, 0)
    decreases i
  {
    if i == 0 {
    } else {
      SuffixSize(parts, i - 1);
      DropOne(parts, i - 1);
    }
  }

  lemma PartSize(parts: seq<seq<Field>>, i: nat)
    requires i < |parts| && AllWritable(parts)
    ensures Size(parts[i]) <= Size(Flatten(parts))
  {
    SuffixSize(parts, i);
    DropOne(parts, i);
    assert parts[0..] == parts;
  }

  /** If each part takes the message one step further, all parts take it all the way. */
  lemma {:induction false} FoldParts<A>(apply: (A, Field) -> Option<A>, states: seq<A>, parts: seq<seq<Field>>)
    requires |states| == |parts| + 1
    requires forall i :: 0 <= i < |parts| ==> Fold(apply, states[i], parts[i]) == Some(states[i + 1])
    ensures Fold(apply, states[0], Flatten(parts)) == Some(states[|parts|])
    decreases |parts|
  {
    if parts == [] {
    } else {
      assert Fold(apply, states[0], parts[0]) == Some(states[1]);
      forall i | 0 <= i < |parts[1..]|
        ensures Fold(apply, states[1..][i], parts[1..][i]) == Some(states[1..][i + 1])
      {
        assert Fold(apply, states[i + 1], parts[i + 1]) == Some(states[i + 2]);
      }
      FoldParts(apply, states[1..], parts[1..]);
      FoldJoin(apply, states[0], parts[0], Flatten(parts[1..]));
    }
  }

  /** A repeated field of messages or strings. */
  function Repeated<T>(num: nat, encode: T -> Data, ts: seq<T>): (fs: seq<Field>)
    requires 1 <= num <= MAX_NUMBER
    ensures Writable(fs)
  {
    if ts == [] then [] else [Field(num, Bytes(encode(ts[0])))] + Repeated(num, encode, ts[1..])
  }

  lemma {:induction false} RepeatedSize<T>(num: nat, encode: T -> Data, ts: seq<T>, t: T)
    requires 1 <= num <= MAX_NUMBER && t in ts
    ensures |encode(t)| < Size(Repeated(num, encode, ts))
    decreases |ts|
  {
    var head := Field(num, Bytes(encode(ts[0])));
    assert Repeated(num, encode, ts)[1..] == Repeated(num, encode, ts[1..]);
    assert EncodeField(head) == EncodeTag(num, 2) + (EncodeVarint(|encode(ts[0])|) + encode(ts[0]));
    if t != ts[0] {
      RepeatedSize(num, encode, ts[1..], t);
    }
  }

  /** If each element takes the message from `at(done)` to `at(done + [t])`, the repeated field
      takes it to the message with all of them. */
  lemma {:induction false} FoldRepeated<A, T>(
    apply: (A, Field) -> Option<A>, num: nat, encode: T -> Data, at: seq<T> -> A, done: seq<T>, ts: seq<T>)
    requires 1 <= num <= MAX_NUMBER
    requires forall d, t :: t in ts ==> apply(at(d), Field(num, Bytes(encode(t)))) == Some(at(d + [t]))
    ensures Fold(apply, at(done), Repeated(num, encode, ts)) == Some(at(done + ts))
    decreases |ts|
  {
    if ts == [] {
      assert done + ts == done;
    } else {
      assert done + [ts[0]] + ts[1..] == done + ts;
      assert Repeated(num, encode, ts)[1..] == Repeated(num, encode, ts[1..]);
      FoldRepeated(apply, num, encode, at, done + [ts[0]], ts[1..]);
    }
  }

  /** `data` is a sequence of whole fields. */
  predicate WholeFields(data: Data)
    decreases |data|
  {
    data == [] || (var s := Next(data); s.Some? && WholeFields(s.value.rest))
  }

  lemma DecodeFirst<A>(apply: (A, Field) -> Option<A>, b: Data, x: Data, acc: A)
    requires Next(b).Some?
    ensures Decode(apply, b + x, acc) ==
            (match apply(acc, Next(b).value.value)
             case None => None
             case Some(a) => Decode(apply, Next(b).value.rest + x, a))
  {
    NextExtends(b, x);
  }

  lemma DecodeOne<A>(apply: (A, Field) -> Option<A>, f: Field, acc: A)
    requires Encodable(f) && |EncodeField(f)| < LIMIT
    ensures Decode(apply, EncodeField(f), acc) == apply(acc, f)
  {
    NextOfEncoded(f, []);
    assert EncodeField(f) + [] == EncodeField(f);
  }

  /** Input behind whole fields is decoded on top of what they made: concatenating two encoded
      messages merges them, and the last value of a field wins. */
  lemma {:induction false} DecodeJoin<A>(apply: (A, Field) -> Option<A>, before: Data, after: Data, acc: A)
    requires WholeFields(before)
    ensures Decode(apply, before + after, acc) ==
            (match Decode(apply, before, acc) case None => None case Some(a) => Decode(apply, after, a))
    decreases |before|
  {
    if before == [] {
      assert before + after == after;
    } else {
      DecodeFirst(apply, before, after, acc);
      var a := apply(acc, Next(before).value.value);
      if a.Some? {
        DecodeJoin(apply, Next(before).value.rest, after, a.value);
      }
    }
  }

  /** A field the decoder does not know may stand between any two others. */
  lemma UnknownFieldIgnored<A>(
    apply: (A, Field) -> Option<A>, before: Data, unknown: Data, f: Field, after: Data, acc: A)
    requires WholeFields(before) && Next(unknown) == Some(Scan(f, []))
    requires forall a :: apply(a, f) == Some(a)
    ensures Decode(apply, before + (unknown + after), acc) == Decode(apply, before + after, acc)
  {
    DecodeJoin(apply, before, unknown + after, acc);
    DecodeJoin(apply, before, after, acc);
    var r := Decode(apply, before, acc);
    if r.Some? {
      DecodeFirst(apply, unknown, after, r.value);
      assert [] + after == after;
    }
  }

  // ---- Everything that is one field ----------------------------------------------------

  /** A field as it can be written, whether or not anybody knows it; groups have fields inside. */
  datatype Item =
    | Number(num: nat, n: nat)
    | Eight(num: nat, raw: Data)
    | Chunk(num: nat, b: Data)
    | Nested(num: nat, items: seq<Item>)
    | Four(num: nat, raw: Data)

  function TypeOf(f: Item): nat {
    match f
    case Number(_, _) => 0
    case Eight(_, _) => 1
    case Chunk(_, _) => 2
    case Nested(_, _) => 3
    case Four(_, _) => 5
  }

  /** What stands behind the tag; a group ends with an end tag of its own number. */
  function Body(f: Item): Data
    decreases f
  {
    match f
    case Number(_, n) => EncodeVarint(n)
    case Eight(_, raw) => raw
    case Chunk(_, b) => EncodeVarint(|b|) + b
    case Nested(num, items) => WrittenAll(items) + EncodeTag(num, 4)
    case Four(_, raw) => raw
  }

  function WrittenAll(items: seq<Item>): Data
    decreases items
  {
    if items == [] then []
    else EncodeTag(items[0].num, TypeOf(items[0])) + (Body(items[0]) + WrittenAll(items[1..]))
  }

  /** Numbers in range, fixed sizes of 8 and 4 bytes, and groups nested no deeper than allowed. */
  predicate Proper(f: Item, depth: int)
    decreases f
  {
    1 <= f.num <= MAX_NUMBER &&
    match f
    case Number(_, n) => n < LIMIT
    case Eight(_, raw) => |raw| == 8
    case Chunk(_, b) => |b| < LIMIT
    case Nested(_, items) => depth >= 0 && forall x :: x in items ==> Proper(x, depth - 1)
    case Four(_, raw) => |raw| == 4
  }

  function Meaning(f: Item): Val {
    match f
    case Number(_, n) => Varint(n)
    case Eight(_, raw) => Fixed64(raw)
    case Chunk(_, b) => Bytes(b)
    case Nested(_, _) => Group(Body(f))
    case Four(_, raw) => Fixed32(raw)
  }

  lemma {:induction false} ValueOfWritten(f: Item, depth: int, rest: Data)
    requires Proper(f, depth)
    ensures ConsumeValue(f.num, TypeOf(f), Body(f) + rest, depth) == Some(Scan(Meaning(f), rest))
    decreases f
  {
    match f
    case Number(_, n) =>
      RoomOfVarint();
      VarintRoundTrip(n, 0, rest);
    case Eight(_, raw) => FixedOfWritten(raw, rest);
    case Chunk(_, b) => BytesOfEncoded(b, rest);
    case Nested(num, items) =>
      var b := Body(f) + rest;
      GroupOfWritten(num, items, depth, rest);
      Regroup(WrittenAll(items), EncodeTag(num, 4), rest);
      assert b[..|b| - |rest|] == Body(f);
    case Four(_, raw) => FixedOfWritten(raw, rest);
  }

  lemma {:induction false} GroupOfWritten(num: nat, items: seq<Item>, depth: int, rest: Data)
    requires 1 <= num <= MAX_NUMBER && forall x :: x in items ==> Proper(x, depth - 1)
    ensures ConsumeGroup(num, WrittenAll(items) + (EncodeTag(num, 4) + rest), depth) == Some(rest)
    decreases items
  {
    var end := EncodeTag(num, 4) + rest;
    if items == [] {
      assert WrittenAll(items) + end == end;
      TagOfEncoded(num, 4, rest);
    } else {
      var f, inner := items[0], WrittenAll(items[1..]);
      assert f in items && forall x :: x in items[1..] ==> x in items;
      Regroup(EncodeTag(f.num, TypeOf(f)), Body(f) + inner, end);
      Regroup(Body(f), inner, end);
      ValueOfWritten(f, depth - 1, inner + end);
      GroupOfWritten(num, items[1..], depth, rest);
      GroupStep(num, f, Body(f), inner + end, depth);
    }
  }

  /** One field inside a group. */
  lemma GroupStep(num: nat, f: Item, body: Data, more: Data, depth: int)
    requires 1 <= f.num <= MAX_NUMBER
    requires ConsumeValue(f.num, TypeOf(f), body + more, depth - 1) == Some(Scan(Meaning(f), more))
    ensures ConsumeGroup(num, EncodeTag(f.num, TypeOf(f)) + (body + more), depth) == ConsumeGroup(num, more, depth)
  {
    TagOfEncoded(f.num, TypeOf(f), body + more);
  }

  /** Whatever follows, a tag and what belongs to it are one field. */
  lemma NextOfWritten(f: Item, rest: Data)
    requires Proper(f, MAX_DEPTH)
    ensures Next(EncodeTag(f.num, TypeOf(f)) + (Body(f) + rest)) == Some(Scan(Field(f.num, Meaning(f)), rest))
  {
    TagOfEncoded(f.num, TypeOf(f), Body(f) + rest);
    ValueOfWritten(f, MAX_DEPTH, rest);
  }

  /** A proper field that the decoder does not know may stand between any two others. */
  lemma ProperFieldIgnored<A>(apply: (A, Field) -> Option<A>, before: Data, f: Item, after: Data, acc: A)
    requires WholeFields(before) && Proper(f, MAX_DEPTH)
    requires forall a :: apply(a, Field(f.num, Meaning(f))) == Some(a)
    ensures Decode(apply, before + (WrittenAll([f]) + after), acc) == Decode(apply, before + after, acc)
  {
    var unknown := EncodeTag(f.num, TypeOf(f)) + (Body(f) + []);
    assert WrittenAll([f]) == unknown;
    NextOfWritten(f, []);
    UnknownFieldIgnored(apply, before, unknown, Field(f.num, Meaning(f)), after, acc);
  }

  /** A field that the decoder refuses makes the whole input an error, whatever stands around it. */
  lemma RefusedFieldFails<A>(apply: (A, Field) -> Option<A>, before: Data, f: Item, after: Data, acc: A)
    requires WholeFields(before) && Proper(f, MAX_DEPTH)
    requires forall a :: apply(a, Field(f.num, Meaning(f))) == None
    ensures Decode(apply, before + (WrittenAll([f]) + after), acc) == None
  {
    var field := EncodeTag(f.num, TypeOf(f)) + (Body(f) + []);
    assert WrittenAll([f]) == field;
    NextOfWritten(f, []);
    DecodeJoin(apply, before, field + after, acc);
    var r := Decode(apply, before, acc);
    if r.Some? {
      DecodeFirst(apply, field, after, r.value);
    }
  }

  /** A group without its end tag is no field. */
  lemma UnendedGroup(num: nat)
    requires 1 <= num <= MAX_NUMBER
    ensures Next(EncodeTag(num, 3)).None?
  {
    TagOfEncoded(num, 3, []);
    assert EncodeTag(num, 3) + [] == EncodeTag(num, 3);
  }
}
