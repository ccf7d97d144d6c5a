/**
The import of legacy FakeIP entries.  A table gives each domain one address and each address one
domain; the legacy buckets may disagree with it and among themselves.
*/
module FakeIPImport {
  import opened Options
  import opened Bytes
  import opened KeyRange

  type Addr = seq<byte>

  datatype Entry<D, A> = Entry(domain: D, addr: A)

  // ---- The two statements for one entry ----------------------------------------------

  ghost predicate OneToOne<D, A>(t: map<D, A>) {
    forall d, e :: d in t && e in t && d != e ==> t[d] != t[e]
  }

  /** The address leaves every other domain, and the domain gets it. */
  function Assigned<D, A(==)>(t: map<D, A>, e: Entry<D, A>): map<D, A> {
    (map d | d in t && (t[d] != e.addr || d == e.domain) :: t[d])[e.domain := e.addr]
  }

  predicate LastWith<D, A(==)>(es: seq<Entry<D, A>>, i: nat)
    requires i < |es|
  {
    forall j :: i < j < |es| ==> es[j].addr != es[i].addr
  }

  predicate Names<D(==), A>(es: seq<Entry<D, A>>, d: D) {
    exists i :: 0 <= i < |es| && es[i].domain == d
  }

  predicate Uses<D, A(==)>(es: seq<Entry<D, A>>, a: A) {
    exists i :: 0 <= i < |es| && es[i].addr == a
  }

  predicate DistinctDomains<D(==), A>(es: seq<Entry<D, A>>) {
    forall i, j :: 0 <= i < j < |es| ==> es[i].domain != es[j].domain
  }

  /** `f` is `t` after the entries: an entry stays if none after it wants its address, and an old
      row stays if no entry names its domain or wants its address. */
  ghost predicate After<D, A>(t: map<D, A>, es: seq<Entry<D, A>>, f: map<D, A>) {
    && (forall i :: 0 <= i < |es| ==> (es[i].domain in f <==> LastWith(es, i)))
    && (forall i :: 0 <= i < |es| && es[i].domain in f ==> f[es[i].domain] == es[i].addr)
    && (forall d :: d in f && !Names(es, d) ==> d in t && !Uses(es, t[d]) && f[d] == t[d])
    && (forall d :: d in t && !Names(es, d) && !Uses(es, t[d]) ==> d in f)
  }

  lemma OneMore<D, A>(t: map<D, A>, es: seq<Entry<D, A>>, f: map<D, A>, e: Entry<D, A>)
    requires After(t, es, f) && DistinctDomains(es + [e])
    ensures After(t, es + [e], Assigned(f, e))
  {
    var all, g := es + [e], Assigned(f, e);
    var n := |es|;
    forall i | 0 <= i < |all|
      ensures all[i].domain in g <==> LastWith(all, i)
      ensures all[i].domain in g ==> g[all[i].domain] == all[i].addr
    {
      assert all[n] == e;
      if i < n {
        assert all[i] == es[i] && es[i].domain != e.domain;
        assert LastWith(all, i) <==> LastWith(es, i) && es[i].addr != e.addr by {
          assert forall j :: i < j < n ==> all[j] == es[j];
        }
      }
    }
    forall d | d in g && !Names(all, d) ensures d in t && !Uses(all, t[d]) && g[d] == t[d] {
      NamesMore(es, e, d);
      UsesMore(es, e, t[d]);
    }
    forall d | d in t && !Names(all, d) && !Uses(all, t[d]) ensures d in g {
      NamesMore(es, e, d);
      UsesMore(es, e, t[d]);
    }
  }

  lemma NextEntry<D, A>(t: map<D, A>, es: seq<Entry<D, A>>, i: nat, f: map<D, A>)
    requires i < |es| && After(t, es[..i], f) && DistinctDomains(es)
    ensures After(t, es[..i + 1], Assigned(f, es[i]))
  {
    assert es[..i + 1] == es[..i] + [es[i]];
    OneMore(t, es[..i], f, es[i]);
  }

  lemma NamesMore<D, A>(es: seq<Entry<D, A>>, e: Entry<D, A>, d: D)
    ensures Names(es + [e], d) <==> Names(es, d) || d == e.domain
  {
    var all := es + [e];
    assert all[|es|] == e;
    if Names(es, d) {
      var i :| 0 <= i < |es| && es[i].domain == d;
      assert all[i].domain == d;
    }
  }

  lemma UsesMore<D, A>(es: seq<Entry<D, A>>, e: Entry<D, A>, a: A)
    ensures Uses(es + [e], a) <==> Uses(es, a) || a == e.addr
  {
    var all := es + [e];
    assert all[|es|] == e;
    if Uses(es, a) {
      var i :| 0 <= i < |es| && es[i].addr == a;
      assert all[i].addr == a;
    }
  }

  /** Each pair of statements leaves a one-to-one table one-to-one. */
  lemma AssignedIsOneToOne<D, A>(t: map<D, A>, e: Entry<D, A>)
    requires OneToOne(t)
    ensures OneToOne(Assigned(t, e))
  {
  }

  // ---- What the legacy buckets hold ------------------------------------------------

  datatype Prefix = Prefix(addr: Addr, bits: nat)

  /** The number without its last `k` bits. */
  function ShiftRight(n: nat, k: nat): nat
    decreases k
  {
    if k == 0 then n else ShiftRight(n / 2, k - 1)
  }

  /** Bit i of an address, the highest bit of its first byte being bit 0. */
  function Bit(a: Addr, i: nat): int
    requires i < 8 * |a|
  {
    ShiftRight(a[i / 8], 7 - i % 8) % 2
  }

  /** A 4- or 16-byte address of the prefix's own length that agrees with it on its leading bits. */
  predicate Contains(p: Prefix, a: Addr) {
    && (|a| == 4 || |a| == 16) && |a| == |p.addr|
    && forall i :: 0 <= i < p.bits && i < 8 * |a| ==> Bit(a, i) == Bit(p.addr, i)
  }

  /** "reserved_cursor_state" */
  const CURSOR_KEY: Key :=
    [114, 101, 115, 101, 114, 118, 101, 100, 95, 99, 117, 114, 115, 111, 114, 95, 115, 116, 97, 116, 101]

  datatype Bucket = Present(items: map<Key, seq<byte>>) | Missing | Broken

  function Filtered<K, V>(items: map<K, V>, keep: (K, V) -> bool): map<K, V> {
    map k | k in items && keep(k, items[k]) :: items[k]
  }

  function Usable(p: Prefix, b: Bucket): map<Key, Addr> {
    match b
    case Present(items) => Filtered(items, (k, value) => k != CURSOR_KEY && Contains(p, value))
    case _ => map[]
  }

  /** What is to be imported: for a domain in both buckets, the second decides. */
  function Wanted(p: Prefix, first: Bucket, second: Bucket): map<Key, Addr> {
    Usable(p, first) + Usable(p, second)
  }

  function BigEndian(b: seq<byte>): nat {
    if b == [] then 0 else 256 * BigEndian(b[..|b| - 1]) + b[|b| - 1]
  }

  datatype Cursor = Cursor(index: nat, addr: Addr)

  /** Eight bytes of index and an address of the prefix, in the prefix's own bucket. */
  function CursorIn(p: Prefix, first: Bucket): Option<Cursor> {
    if first.Present? && CURSOR_KEY in first.items && |first.items[CURSOR_KEY]| > 8 &&
       Contains(p, first.items[CURSOR_KEY][8..])
    then Some(Cursor(BigEndian(first.items[CURSOR_KEY][..8]), first.items[CURSOR_KEY][8..]))
    else None
  }

  // Bytes as numbers.

  /** The last `k` bytes of a number, the highest first. */
  function BytesOf(n: nat, k: nat): (b: seq<byte>)
    ensures |b| == k
  {
    if k == 0 then [] else BytesOf(n / 256, k - 1) + [n % 256]
  }

  /** How many numbers fit into `k` bytes. */
  function Room(k: nat): nat {
    if k == 0 then 1 else 256 * Room(k - 1)
  }

  /** A number that fits into `k` bytes is read back from them. */
  lemma {:induction false} ReadsBack(n: nat, k: nat)
    requires n < Room(k)
    ensures BigEndian(BytesOf(n, k)) == n
  {
    if k == 0 {
    } else {
      ReadsBack(n / 256, k - 1);
      assert BytesOf(n, k)[..k - 1] == BytesOf(n / 256, k - 1);
    }
  }

  lemma {:induction false} ShiftTwice(n: nat, j: nat, k: nat)
    ensures ShiftRight(n, j + k) == ShiftRight(ShiftRight(n, j), k)
    decreases j
  {
    if j == 0 {
    } else {
      ShiftTwice(n / 2, j - 1, k);
    }
  }

  function ShiftLeft(n: nat, k: nat): nat {
    if k == 0 then n else 2 * ShiftLeft(n, k - 1)
  }

  /** Bits further up are shifted along. */
  lemma {:induction false} ShiftBoth(high: nat, low: nat, j: nat, k: nat)
    ensures ShiftRight(ShiftLeft(high, j + k) + low, k) == ShiftLeft(high, j) + ShiftRight(low, k)
    decreases k
  {
    if k == 0 {
    } else {
      ShiftBoth(high, low / 2, j, k - 1);
    }
  }

  lemma ByteUp(high: nat)
    ensures ShiftLeft(high, 8) == 256 * high
  {
    assert ShiftLeft(high, 1) == 2 * high;
    assert ShiftLeft(high, 2) == 4 * high;
    assert ShiftLeft(high, 4) == 4 * ShiftLeft(high, 2);
    assert ShiftLeft(high, 6) == 4 * ShiftLeft(high, 4);
    assert ShiftLeft(high, 8) == 4 * ShiftLeft(high, 6);
  }

  lemma {:induction false} ShiftOut(n: nat, k: nat)
    requires n < ShiftLeft(1, k)
    ensures ShiftRight(n, k) == 0
    decreases k
  {
    if k == 0 {
    } else {
      ShiftOut(n / 2, k - 1);
    }
  }

  lemma ShiftByte(high: nat, low: byte)
    ensures ShiftRight(256 * high + low, 8) == high
  {
    ByteUp(high);
    ByteUp(1);
    ShiftBoth(high, low, 0, 8);
    ShiftOut(low, 8);
  }

  /** A bit of an address is a bit of its number. */
  lemma {:induction false} BitOfNumber(a: Addr, i: nat)
    requires i < 8 * |a|
    ensures Bit(a, i) == ShiftRight(BigEndian(a), 8 * |a| - 1 - i) % 2
  {
    var n := |a| - 1;
    var high, low := a[..n], a[n];
    if i < 8 * n {
      BitOfNumber(high, i);
      ShiftTwice(BigEndian(a), 8, 8 * n - 1 - i);
      ShiftByte(BigEndian(high), low);
    } else {
      LowBit(BigEndian(high), low, i - 8 * n);
    }
  }

  lemma LowBit(high: nat, low: byte, j: nat)
    requires j < 8
    ensures ShiftRight(256 * high + low, 7 - j) % 2 == ShiftRight(low, 7 - j) % 2
  {
    ByteUp(high);
    ShiftBoth(high, low, j + 1, 7 - j);
  }

  /** The leading bits as a number. */
  ghost function Leading(a: Addr, bits: nat): nat
    requires bits <= 8 * |a|
  {
    ShiftRight(BigEndian(a), 8 * |a| - bits)
  }

  lemma {:induction false} NothingLeading(a: Addr)
    ensures Leading(a, 0) == 0
  {
    if a == [] {
    } else {
      var n := |a| - 1;
      NothingLeading(a[..n]);
      ShiftTwice(BigEndian(a), 8, 8 * n);
      ShiftByte(BigEndian(a[..n]), a[n]);
    }
  }

  lemma OneBitMore(a: Addr, bits: nat)
    requires bits < 8 * |a|
    ensures Leading(a, bits + 1) == 2 * Leading(a, bits) + Bit(a, bits)
  {
    BitOfNumber(a, bits);
    ShiftTwice(BigEndian(a), 8 * |a| - bits - 1, 1);
  }

  lemma {:induction false} LeadingAgree(a: Addr, b: Addr, bits: nat)
    requires |a| == |b| && bits <= 8 * |a|
    ensures (forall i :: 0 <= i < bits ==> Bit(a, i) == Bit(b, i)) <==> Leading(a, bits) == Leading(b, bits)
  {
    if bits == 0 {
      NothingLeading(a);
      NothingLeading(b);
    } else {
      LeadingAgree(a, b, bits - 1);
      OneBitMore(a, bits - 1);
      OneBitMore(b, bits - 1);
    }
  }

  /** An address is in a prefix exactly when it is of its kind and their leading bits, read as
      numbers, are equal. */
  lemma ContainsIff(p: Prefix, a: Addr)
    requires p.bits <= 8 * |p.addr|
    ensures Contains(p, a) <==>
            (|a| == 4 || |a| == 16) && |a| == |p.addr| && Leading(a, p.bits) == Leading(p.addr, p.bits)
  {
    if |a| == |p.addr| {
      LeadingAgree(a, p.addr, p.bits);
    }
  }

  lemma {:induction false} WritesBack(b: seq<byte>)
    ensures BigEndian(b) < Room(|b|) && BytesOf(BigEndian(b), |b|) == b
  {
    if b == [] {
    } else {
      var n := |b| - 1;
      WritesBack(b[..n]);
      assert b == b[..n] + [b[n]];
    }
  }

  /** The cursor is exactly what eight bytes of index and the address behind them say, if the address is
      in the prefix; anything else is no cursor. */
  lemma CursorIff(p: Prefix, items: map<Key, seq<byte>>, index: nat, addr: Addr)
    ensures CursorIn(p, Present(items)) == Some(Cursor(index, addr)) <==>
            && index < 0x1_0000_0000_0000_0000 && Contains(p, addr)
            && CURSOR_KEY in items && items[CURSOR_KEY] == BytesOf(index, 8) + addr
  {
    assert Room(4) == 0x1_0000_0000 && Room(8) == 0x1_0000_0000 * Room(4);
    if CURSOR_KEY in items {
      var value := items[CURSOR_KEY];
      if |value| > 8 {
        WritesBack(value[..8]);
        assert value == value[..8] + value[8..];
      }
      if index < Room(8) && value == BytesOf(index, 8) + addr {
        ReadsBack(index, 8);
        assert value[..8] == BytesOf(index, 8) && value[8..] == addr;
      }
    }
  }

  method AddBucket(p: Prefix, b: Bucket, known: map<Key, Addr>) returns (byDomain: map<Key, Addr>, ok: bool)
    ensures ok <==> !b.Broken?
    ensures ok ==> byDomain == known + Usable(p, b)
  {
    if b.Broken? {
      return known, false;
    }
    if b.Missing? {
      assert known + map[] == known;
      return known, true;
    }
    byDomain := RangeOver(b.items, (k, value) => k != CURSOR_KEY && Contains(p, value), known);
    ok := true;
  }

  /** What has been found once all items but `rest` were visited. */
  ghost function Found<K, V>(items: map<K, V>, keep: (K, V) -> bool, known: map<K, V>, rest: set<K>): map<K, V> {
    known + (Filtered(items, keep) - rest)
  }

  lemma VisitOne<K, V>(items: map<K, V>, keep: (K, V) -> bool, known: map<K, V>, rest: set<K>, k: K)
    requires k in rest && k in items
    ensures Found(items, keep, known, rest - {k}) ==
            if keep(k, items[k]) then Found(items, keep, known, rest)[k := items[k]]
            else Found(items, keep, known, rest)
  {
    TakeOne(known, Filtered(items, keep), rest, k);
  }

  lemma VisitBounds<K, V>(items: map<K, V>, keep: (K, V) -> bool, known: map<K, V>)
    ensures Found(items, keep, known, items.Keys) == known
    ensures Found(items, keep, known, {}) == known + Filtered(items, keep)
  {
    var all := Filtered(items, keep);
    assert all - items.Keys == map[] && all - {} == all;
  }

  /** Visits the items in any order and takes over those to keep. */
  method RangeOver<K(==), V>(items: map<K, V>, keep: (K, V) -> bool, known: map<K, V>) returns (found: map<K, V>)
    ensures found == known + Filtered(items, keep)
  {
    VisitBounds(items, keep, known);
    found := known;
    var rest := items.Keys;
    while rest != {}
      invariant rest <= items.Keys && found == Found(items, keep, known, rest)
      decreases |rest|
    {
      var k :| k in rest;
      VisitOne(items, keep, known, rest, k);
      if keep(k, items[k]) {
        found := found[k := items[k]];
      }
      rest := rest - {k};
    }
  }

  lemma TakeOne<K, V>(known: map<K, V>, all: map<K, V>, rest: set<K>, k: K)
    requires k in rest
    ensures known + (all - (rest - {k})) ==
            if k in all then (known + (all - rest))[k := all[k]] else known + (all - rest)
  {
  }

  // Domains in byte order.

  ghost predicate Least(s: set<Key>, k: Key) {
    k in s && forall m :: m in s && m != k ==> Less(k, m)
  }

  lemma {:induction false} SomeLeast(s: set<Key>) returns (low: Key)
    requires s != {}
    ensures Least(s, low)
    decreases |s|
  {
    low :| low in s;
    var others := s - {low};
    if others != {} {
      var l := SomeLeast(others);
      LessTotal(l, low);
      if Less(l, low) {
        low := l;
      } else {
        forall m | m in s && m != low ensures Less(low, m) {
          if m != l {
            LessTransitive(low, l, m);
          }
        }
      }
    }
  }

  predicate Rising(ds: seq<Key>) {
    forall i, j :: 0 <= i < j < |ds| ==> Less(ds[i], ds[j])
  }

  method SortDomains(s: set<Key>) returns (ds: seq<Key>)
    ensures Rising(ds) && (forall d :: d in ds ==> d in s) && (forall d :: d in s ==> d in ds)
  {
    ds := [];
    var rest := s;
    while rest != {}
      invariant rest <= s && Rising(ds)
      invariant forall d :: d in ds ==> d in s && d !in rest
      invariant forall d :: d in s && d !in rest ==> d in ds
      invariant forall d, m :: d in ds && m in rest ==> Less(d, m)
      decreases |rest|
    {
      ghost var low := SomeLeast(rest);
      var next :| next in rest && forall m :: m in rest && m != next ==> Less(next, m);
      ds := ds + [next];
      rest := rest - {next};
    }
  }

  /** The entries list `wanted` in domain order. */
  ghost predicate Lists(es: seq<Entry<Key, Addr>>, wanted: map<Key, Addr>) {
    && (forall i, j :: 0 <= i < j < |es| ==> Less(es[i].domain, es[j].domain))
    && (forall i :: 0 <= i < |es| ==> es[i].domain in wanted && wanted[es[i].domain] == es[i].addr)
    && (forall d :: d in wanted ==> Names(es, d))
  }

  method Collect(p: Prefix, first: Bucket, second: Bucket)
    returns (ok: bool, es: seq<Entry<Key, Addr>>)
    ensures ok <==> !first.Broken? && !second.Broken?
    ensures ok ==> Lists(es, Wanted(p, first, second))
  {
    es := [];
    var byDomain;
    byDomain, ok := AddBucket(p, first, map[]);
    if !ok {
      return;
    }
    byDomain, ok := AddBucket(p, second, byDomain);
    if !ok {
      return;
    }
    assert byDomain == Wanted(p, first, second);
    var domains := SortDomains(byDomain.Keys);
    for i := 0 to |domains|
      invariant |es| == i
      invariant forall k :: 0 <= k < i ==> es[k] == Entry(domains[k], byDomain[domains[k]])
    {
      es := es + [Entry(domains[i], byDomain[domains[i]])];
    }
    forall d | d in byDomain ensures Names(es, d) {
      var i :| 0 <= i < |domains| && domains[i] == d;
      assert es[i].domain == d;
    }
  }

  // ---- The table after an import ---------------------------------------------------

  /** Another wanted domain, later in byte order, has the same address. */
  ghost predicate Outbid(wanted: map<Key, Addr>, d: Key)
    requires d in wanted
  {
    exists e :: e in wanted && Less(d, e) && wanted[e] == wanted[d]
  }

  /** Wanted rows are there unless outbid; old rows are there unless their domain or their address
      is wanted. */
  ghost predicate Settled(t: map<Key, Addr>, wanted: map<Key, Addr>, f: map<Key, Addr>) {
    && (forall d :: d in wanted ==> (d in f <==> !Outbid(wanted, d)))
    && (forall d :: d in wanted && d in f ==> f[d] == wanted[d])
    && (forall d :: d !in wanted && d in f ==> d in t && t[d] !in wanted.Values && f[d] == t[d])
    && (forall d :: d !in wanted && d in t && t[d] !in wanted.Values ==> d in f)
  }

  lemma OutbidIff(es: seq<Entry<Key, Addr>>, wanted: map<Key, Addr>, i: nat)
    requires Lists(es, wanted) && i < |es|
    ensures Outbid(wanted, es[i].domain) <==> !LastWith(es, i)
  {
    var d := es[i].domain;
    if Outbid(wanted, d) {
      var e :| e in wanted && Less(d, e) && wanted[e] == wanted[d];
      assert Names(es, e);
      var j :| 0 <= j < |es| && es[j].domain == e;
      LessTotal(d, e);
      assert es[j].addr == es[i].addr;
    }
    if !LastWith(es, i) {
      var j :| i < j < |es| && es[j].addr == es[i].addr;
      assert es[j].domain in wanted;
    }
  }

  lemma UsesIff(es: seq<Entry<Key, Addr>>, wanted: map<Key, Addr>, a: Addr)
    requires Lists(es, wanted)
    ensures Uses(es, a) <==> a in wanted.Values
  {
    if a in wanted.Values {
      var d :| d in wanted && wanted[d] == a;
      assert Names(es, d);
      var i :| 0 <= i < |es| && es[i].domain == d;
      assert es[i].addr == a;
    }
    if Uses(es, a) {
      var i :| 0 <= i < |es| && es[i].addr == a;
      assert wanted[es[i].domain] == a;
    }
  }

  lemma AfterIsSettled(t: map<Key, Addr>, es: seq<Entry<Key, Addr>>, wanted: map<Key, Addr>, f: map<Key, Addr>)
    requires Lists(es, wanted) && After(t, es, f)
    ensures Settled(t, wanted, f)
  {
    forall d | d in wanted
      ensures d in f <==> !Outbid(wanted, d)
      ensures d in f ==> f[d] == wanted[d]
    {
      assert Names(es, d);
      var i :| 0 <= i < |es| && es[i].domain == d;
      OutbidIff(es, wanted, i);
    }
    forall d | d !in wanted ensures !Names(es, d) {
    }
    forall d | d in t ensures Uses(es, t[d]) <==> t[d] in wanted.Values {
      UsesIff(es, wanted, t[d]);
    }
  }

  lemma OutbidBy(wanted: map<Key, Addr>, d: Key, e: Key)
    requires d in wanted && e in wanted && Less(d, e) && wanted[e] == wanted[d]
    ensures Outbid(wanted, d)
  {
  }

  lemma NotBothHeld(t: map<Key, Addr>, wanted: map<Key, Addr>, f: map<Key, Addr>, d: Key, e: Key)
    requires Settled(t, wanted, f) && d in wanted && e in wanted && d in f && e in f && d != e
    ensures f[d] != f[e]
  {
    LessTotal(d, e);
    if f[d] == f[e] {
      if Less(d, e) {
        OutbidBy(wanted, d, e);
      } else {
        OutbidBy(wanted, e, d);
      }
      assert false;
    }
  }

  /** The import keeps the table one-to-one. */
  lemma SettledIsOneToOne(t: map<Key, Addr>, wanted: map<Key, Addr>, f: map<Key, Addr>)
    requires OneToOne(t) && Settled(t, wanted, f)
    ensures OneToOne(f)
  {
    forall d, e | d in f && e in f && d != e ensures f[d] != f[e] {
      if d in wanted && e in wanted {
        NotBothHeld(t, wanted, f, d, e);
      } else {
        assert d in wanted ==> f[d] in wanted.Values;
        assert e in wanted ==> f[e] in wanted.Values;
      }
    }
  }

  /** Every address that the legacy data names ends with exactly one domain, the last in byte order
      of those that want it. */
  lemma LastDomainWins(t: map<Key, Addr>, wanted: map<Key, Addr>, f: map<Key, Addr>, a: Addr) returns (owner: Key)
    requires Settled(t, wanted, f) && a in wanted.Values
    ensures owner in wanted && wanted[owner] == a && owner in f && f[owner] == a
    ensures forall d :: d in wanted && wanted[d] == a && d != owner ==> Less(d, owner) && d !in f
  {
    owner := LastBidder(wanted, a);
  }

  lemma LastBidder(wanted: map<Key, Addr>, a: Addr) returns (owner: Key)
    requires a in wanted.Values
    ensures owner in wanted && wanted[owner] == a && !Outbid(wanted, owner)
    ensures forall d :: d in wanted && wanted[d] == a && d != owner ==> Less(d, owner) && Outbid(wanted, d)
  {
    var bidders := set d | d in wanted && wanted[d] == a;
    var some :| some in wanted && wanted[some] == a;
    assert some in bidders;
    owner := SomeGreatest(bidders);
    GreatestIsNotOutbid(wanted, bidders, a, owner);
    OthersAreOutbid(wanted, bidders, a, owner);
  }

  lemma OthersAreOutbid(wanted: map<Key, Addr>, bidders: set<Key>, a: Addr, owner: Key)
    requires bidders == set d | d in wanted && wanted[d] == a
    requires owner in bidders && forall m :: m in bidders && m != owner ==> Less(m, owner)
    ensures forall d :: d in wanted && wanted[d] == a && d != owner ==> Less(d, owner) && Outbid(wanted, d)
  {
    forall d | d in wanted && wanted[d] == a && d != owner ensures Less(d, owner) && Outbid(wanted, d) {
      assert d in bidders;
      OutbidBy(wanted, d, owner);
    }
  }

  lemma GreatestIsNotOutbid(wanted: map<Key, Addr>, bidders: set<Key>, a: Addr, owner: Key)
    requires bidders == set d | d in wanted && wanted[d] == a
    requires owner in bidders && forall m :: m in bidders && m != owner ==> Less(m, owner)
    ensures !Outbid(wanted, owner)
  {
    if Outbid(wanted, owner) {
      var e :| e in wanted && Less(owner, e) && wanted[e] == wanted[owner];
      LessTotal(owner, e);
      assert false;
    }
  }

  lemma {:induction false} SomeGreatest(s: set<Key>) returns (high: Key)
    requires s != {}
    ensures high in s && forall m :: m in s && m != high ==> Less(m, high)
    decreases |s|
  {
    high :| high in s;
    var others := s - {high};
    if others != {} {
      var h := SomeGreatest(others);
      LessTotal(h, high);
      if Less(high, h) {
        high := h;
      } else {
        forall m | m in s && m != high ensures Less(m, high) {
          if m != h {
            LessTransitive(m, h, high);
          }
        }
      }
    }
  }

  /** What is wanted lies in the prefix, and the second bucket decides about a domain in both. */
  lemma WantedIsInPrefix(p: Prefix, first: Bucket, second: Bucket, d: Key)
    requires d in Wanted(p, first, second)
    ensures Contains(p, Wanted(p, first, second)[d]) && d != CURSOR_KEY
    ensures d in Usable(p, second) ==> Wanted(p, first, second)[d] == second.items[d]
    ensures d !in Usable(p, second) ==> d in Usable(p, first) && Wanted(p, first, second)[d] == first.items[d]
  {
    assert d in Usable(p, first) || d in Usable(p, second);
  }

  class Database {
    var rows: map<Prefix, map<Key, Addr>>
    var cursors: map<Prefix, Cursor>
    var imported: set<Prefix>

    function Table(p: Prefix): map<Key, Addr>
      reads this`rows
    {
      if p in rows then rows[p] else map[]
    }

    /** What the unique index guards. */
    ghost predicate Valid()
      reads this
    {
      forall p :: p in rows ==> OneToOne(rows[p])
    }

    constructor ()
      ensures Valid() && rows == map[] && cursors == map[] && imported == {}
    {
      rows, cursors, imported := map[], map[], {};
    }

    /** Takes the address from other domains, then sets the row.  The index never refuses it. */
    method Assign(p: Prefix, e: Entry<Key, Addr>) returns (ok: bool)
      requires Valid()
      modifies this`rows
      ensures Valid() && ok
      ensures rows == old(rows)[p := Assigned(old(Table(p)), e)]
    {
      AssignedIsOneToOne(Table(p), e);
      var t := Table(p);
      var kept := map d | d in t && (t[d] != e.addr || d == e.domain) :: t[d];
      if exists d :: d in kept && d != e.domain && kept[d] == e.addr {
        return false;
      }
      assert kept[e.domain := e.addr] == Assigned(t, e);
      rows := rows[p := kept[e.domain := e.addr]];
      ok := true;
    }

    method AssignAll(p: Prefix, es: seq<Entry<Key, Addr>>) returns (ok: bool)
      requires Valid() && DistinctDomains(es)
      modifies this`rows
      ensures Valid() && ok
      ensures After(old(Table(p)), es, Table(p))
      ensures rows - {p} == old(rows) - {p}
    {
      ok := true;
      for i := 0 to |es|
        invariant ok && Valid()
        invariant After(old(Table(p)), es[..i], Table(p))
        invariant rows - {p} == old(rows) - {p}
      {
        NextEntry(old(Table(p)), es, i, Table(p));
        ok := Assign(p, es[i]);
        if !ok {
          return;
        }
      }
      assert es[..|es|] == es;
    }

    /** Imports once per prefix.  A run that has been marked, or that cannot read a bucket, changes
        nothing. */
    method Migrate(p: Prefix, first: Bucket, second: Bucket) returns (ok: bool)
      requires Valid()
      modifies this
      ensures Valid()
      ensures ok <==> p in old(imported) || (!first.Broken? && !second.Broken?)
      ensures imported == if ok then old(imported) + {p} else old(imported)
      ensures p in old(imported) || !ok ==> rows == old(rows) && cursors == old(cursors)
      ensures p !in old(imported) && ok ==> Settled(old(Table(p)), Wanted(p, first, second), Table(p))
      ensures p !in old(imported) && ok ==>
        cursors == match CursorIn(p, first) case Some(c) => old(cursors)[p := c] case None => old(cursors)
      ensures rows - {p} == old(rows) - {p}
    {
      if p in imported {
        return true;
      }
      var es;
      ok, es := Collect(p, first, second);
      if !ok {
        return;
      }
      forall i, j | 0 <= i < j < |es| ensures es[i].domain != es[j].domain {
        LessTotal(es[i].domain, es[j].domain);
      }
      ok := AssignAll(p, es);
      AfterIsSettled(old(Table(p)), es, Wanted(p, first, second), Table(p));
      match CursorIn(p, first) {
        case Some(c) => cursors := cursors[p := c];
        case None =>
      }
      imported := imported + {p};
    }
  }
}
