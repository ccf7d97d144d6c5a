/** Bytes as the rest of the model sees them. */
module Bytes {
  type byte = x: int | 0 <= x < 256
}

/**
The shared pool of byte buffers: 32 buckets, bucket i holding buffers whose capacity has i as
its rounded-down logarithm.  An array stands for the storage behind a slice, its length for
the slice's capacity.
*/
module Pool {
  import opened Bytes

  const BUCKETS := 32
  const MAX_LENGTH := 0x7fff_ffff

  function Pow2(i: nat): (p: nat)
    ensures p > 0
  {
    if i == 0 then 1 else 2 * Pow2(i - 1)
  }

  /** The number of bits needed to write v. */
  function BitLen(v: nat): nat {
    if v == 0 then 0 else 1 + BitLen(v / 2)
  }

  function NextLogBase2(v: nat): nat
    requires v > 0
  {
    BitLen(v - 1)
  }

  function PrevLogBase2(v: nat): int
    requires v > 0
  {
    var next := NextLogBase2(v);
    if v == Pow2(next) then next else next - 1
  }

  lemma {:induction false} BitLenBounds(v: nat)
    ensures v < Pow2(BitLen(v))
    ensures v > 0 ==> BitLen(v) > 0 && Pow2(BitLen(v) - 1) <= v
  {
    if v == 0 {
    } else {
      BitLenBounds(v / 2);
    }
  }

  /** Rounding up: 2^l is the least power of two that is at least v. */
  lemma NextLogRoundsUp(v: nat)
    requires v > 0
    ensures v <= Pow2(NextLogBase2(v)) < 2 * v
  {
    BitLenBounds(v - 1);
  }

  lemma PrevLogRoundsDown(v: nat)
    requires v > 0
    ensures PrevLogBase2(v) >= 0
    ensures Pow2(PrevLogBase2(v)) <= v < Pow2(PrevLogBase2(v) + 1)
  {
    BitLenBounds(v - 1);
  }

  lemma {:induction false} Pow2Monotone(i: nat, j: nat)
    requires i <= j
    ensures Pow2(i) <= Pow2(j)
  {
    if i == j {
    } else {
      Pow2Monotone(i, j - 1);
    }
  }

  lemma {:induction false} LogBelow(v: nat, i: nat)
    requires Pow2(v) < Pow2(i)
    ensures v < i
  {
    if v >= i {
      Pow2Monotone(i, v);
    }
  }

  lemma Pow2Of31()
    ensures Pow2(31) == 0x8000_0000
  {
    assert Pow2(8) == 256;
    assert Pow2(16) == 65536;
    assert Pow2(24) == 0x100_0000;
  }

  /** Sizes the pool serves have a bucket, and so have the capacities it takes back. */
  lemma BucketInRange(v: nat)
    requires 0 < v <= MAX_LENGTH
    ensures NextLogBase2(v) < BUCKETS && 0 <= PrevLogBase2(v) < BUCKETS
  {
    Pow2Of31();
    NextLogRoundsUp(v);
    PrevLogRoundsDown(v);
    assert Pow2(32) == 2 * Pow2(31);
    LogBelow(NextLogBase2(v), 32);
    LogBelow(PrevLogBase2(v), 32);
  }

  /** Bucket i holds the capacities from 2^i up to, but not including, 2^(i+1). */
  predicate Fits(capacity: nat, i: nat) {
    Pow2(i) <= capacity < Pow2(i + 1)
  }

  class Pool {
    /** The buffers waiting in each bucket. */
    var buckets: seq<set<array<byte>>>
    /** Who may use which storage; storage that waits in a bucket belongs to nobody. */
    ghost var owner: map<array<byte>, object>

    ghost function Free(): set<array<byte>>
      reads this
    {
      set i, a | 0 <= i < |buckets| && a in buckets[i] :: a
    }

    ghost predicate Valid()
      reads this
    {
      && |buckets| == BUCKETS
      && (forall i, a :: 0 <= i < BUCKETS && a in buckets[i] ==>
            Fits(a.Length, i) && a !in owner)
    }

    constructor ()
      ensures Valid() && owner == map[] && Free() == {}
    {
      buckets := seq(BUCKETS, _ => {});
      owner := map[];
    }

    /** A buffer of at least `size` bytes, now the caller's alone.  Nothing is said about its
        contents: it may have been used before. */
    method GetBytes(size: nat, ghost caller: object) returns (b: array<byte>)
      requires Valid()
      modifies this
      ensures Valid()
      ensures size <= b.Length && (size > 0 ==> b.Length < 4 * size)
      ensures fresh(b) || b in old(Free())
      ensures b !in old(owner) && owner == old(owner)[b := caller]
      ensures Free() <= old(Free()) - {b}
    {
      if size == 0 || size > MAX_LENGTH {
        b := new byte[size];
      } else {
        BucketInRange(size);
        NextLogRoundsUp(size);
        b := Take(NextLogBase2(size));
      }
      owner := owner[b := caller];
    }

    /** What is taken from a bucket is one of its buffers or a new one; the bucket may also have
        been emptied in the meantime. */
    method Take(l: nat) returns (b: array<byte>)
      requires Valid() && l < BUCKETS
      modifies this`buckets
      ensures Valid()
      ensures Fits(b.Length, l) && b !in owner
      ensures fresh(b) || b in old(Free())
      ensures Free() <= old(Free()) - {b}
    {
      if * {
        buckets := buckets[l := {}];
      }
      if buckets[l] == {} {
        b := new byte[Pow2(l)];
      } else {
        b :| b in buckets[l];
        buckets := buckets[l := buckets[l] - {b}];
        OnlyInItsBucket(b, l);
      }
    }

    /** Takes a buffer back, into the bucket of its capacity unless it has none.  Only the buffer's
        owner may do so, hence nobody can twice. */
    method PutBytes(b: array<byte>, ghost caller: object)
      requires Valid()
      requires b in owner && owner[b] == caller
      modifies this
      ensures Valid()
      ensures owner == old(owner) - {b}
      ensures Free() == old(Free()) + if 0 < b.Length <= MAX_LENGTH then {b} else {}
      ensures 0 < b.Length <= MAX_LENGTH ==> exists l :: 0 <= l < BUCKETS && Fits(b.Length, l) && b in buckets[l]
    {
      owner := owner - {b};
      if b.Length > MAX_LENGTH || b.Length <= 0 {
        return;
      }
      BucketInRange(b.Length);
      PrevLogRoundsDown(b.Length);
      var l := PrevLogBase2(b.Length);
      buckets := buckets[l := buckets[l] + {b}];
      assert b in buckets[l] && forall i, a :: 0 <= i < BUCKETS && a in old(buckets)[i] ==> a in buckets[i];
    }

    /** No buffer waits in two buckets. */
    lemma OnlyInItsBucket(b: array<byte>, l: nat)
      requires |buckets| == BUCKETS && l < BUCKETS && Fits(b.Length, l) && b !in buckets[l]
      requires forall i, a :: 0 <= i < BUCKETS && a in buckets[i] ==> Fits(a.Length, i)
      ensures b !in Free()
    {
      if i :| 0 <= i < BUCKETS && b in buckets[i] {
        if i < l { Pow2Monotone(i + 1, l); } else { Pow2Monotone(l + 1, i); }
      }
    }
  }
}
