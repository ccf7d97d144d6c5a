/**
Byte keys in lexicographic order, and the range of keys that share a prefix.
*/
module KeyRange {
  import opened Options
  import opened Bytes

  type Key = seq<byte>

  predicate Less(a: Key, b: Key)
    decreases |b|
  {
    b != [] && (a == [] || a[0] < b[0] || (a[0] == b[0] && Less(a[1..], b[1..])))
  }

  lemma {:induction false} LessTotal(a: Key, b: Key)
    ensures !(Less(a, b) && Less(b, a)) && (a != b <==> Less(a, b) || Less(b, a))
  {
    if a != [] && b != [] && a[0] == b[0] {
      LessTotal(a[1..], b[1..]);
      assert a == [a[0]] + a[1..] && b == [b[0]] + b[1..];
    }
  }

  lemma {:induction false} LessTransitive(a: Key, b: Key, c: Key)
    requires Less(a, b) && Less(b, c)
    ensures Less(a, c)
  {
    if a != [] && a[0] == b[0] == c[0] {
      LessTransitive(a[1..], b[1..], c[1..]);
    }
  }

  /** The keys from `low` on, below `high` if there is such a bound. */
  predicate InRange(low: Key, high: Option<Key>, k: Key) {
    !Less(k, low) && (high.Some? ==> Less(k, high.value))
  }

  /** The least key above every key that starts with p; there is none if p is all 0xff. */
  function Successor(p: Key): Option<Key> {
    if p == [] then None
    else match Successor(p[1..])
      case Some(rest) => Some([p[0]] + rest)
      case None => if p[0] == 255 then None else Some([p[0] + 1])
  }

  lemma {:induction false} SuccessorOfLast(p: Key, b: byte)
    ensures Successor(p + [b]) == if b == 255 then Successor(p) else Some(p + [b + 1])
  {
    if p == [] {
      assert p + [b] == [b];
      assert b < 255 ==> p + [b + 1] == [b + 1];
    } else {
      SuccessorOfLast(p[1..], b);
      assert (p + [b])[1..] == p[1..] + [b];
      assert b < 255 ==> [p[0]] + (p[1..] + [b + 1]) == p + [b + 1];
    }
  }

  lemma Carry(prefix: Key, i: nat)
    requires i < |prefix|
    ensures Successor(prefix[..i + 1]) ==
            if prefix[i] == 255 then Successor(prefix[..i]) else Some(prefix[..i] + [prefix[i] + 1])
  {
    assert prefix[..i + 1] == prefix[..i] + [prefix[i]];
    SuccessorOfLast(prefix[..i], prefix[i]);
  }

  function Incremented(b: byte): (r: byte)
    ensures r == if b == 255 then 0 else b + 1
  {
    var next: int := b;
    (next + 1) % 256
  }

  /** The end of the range of a prefix: its last byte plus one, carried to the left. */
  method UpperBound(prefix: Key) returns (high: Option<Key>)
    ensures high == Successor(prefix)
  {
    if |prefix| == 0 {
      return None;
    }
    var end := new byte[|prefix|](i requires 0 <= i < |prefix| => prefix[i]);
    var i := |prefix| - 1;
    assert prefix[..i + 1] == prefix;
    while i >= 0
      invariant -1 <= i < |prefix|
      invariant end[..i + 1] == prefix[..i + 1]
      invariant Successor(prefix) == Successor(prefix[..i + 1])
    {
      Carry(prefix, i);
      end[i] := Incremented(end[i]);
      if end[i] != 0 {
        assert end[..i + 1] == prefix[..i] + [prefix[i] + 1];
        return Some(end[..i + 1]);
      }
      i := i - 1;
    }
    return None;
  }

  /** Between a prefix and its upper bound lie exactly the keys that start with it. */
  lemma {:induction false} RangeIsPrefix(p: Key, k: Key)
    ensures InRange(p, Successor(p), k) <==> p <= k
  {
    if p != [] && k != [] {
      RangeIsPrefix(p[1..], k[1..]);
      var high, rest := Successor(p), Successor(p[1..]);
      assert Less(k, p) <==> k[0] < p[0] || (k[0] == p[0] && Less(k[1..], p[1..]));
      if rest.Some? {
        assert high.value[1..] == rest.value;
        assert Less(k, high.value) <==> k[0] < p[0] || (k[0] == p[0] && Less(k[1..], rest.value));
      } else if p[0] < 255 {
        assert high.value[1..] == [];
        assert Less(k, high.value) <==> k[0] < p[0] + 1;
      }
      assert p <= k <==> p[0] == k[0] && p[1..] <= k[1..];
    }
  }

  /** Clear removes a fixed range: the empty key and the keys from ff ff ff ff on survive it. */
  lemma ClearedKeys(k: Key)
    ensures InRange([0], Some([255, 255, 255, 255]), k) <==> k != [] && !([255, 255, 255, 255] <= k)
  {
    RangeIsPrefix([255, 255, 255, 255], k);
    assert Successor([255, 255, 255, 255]) == None;
  }
}
