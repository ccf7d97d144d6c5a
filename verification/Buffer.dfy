/**
The growing and shrinking byte buffer on top of the pool.  Its storage is nothing, the
64-byte bootstrap array inside the buffer itself, or storage from the pool; `rOff..len` of it
is what can still be read.
*/
module Buffer {
  import opened Bytes
  import P = Pool

  const BOOTSTRAP := 64
  const MIN_READ := 512

  datatype ReadError = NoError | EndOfFile | Fault

  /** A reader with some bytes left that hands out as many per call as its script says. */
  class Reader {
    var data: seq<byte>
    var script: seq<(nat, ReadError)>
    /** What the last call reported. */
    ghost var last: ReadError

    constructor (data: seq<byte>, script: seq<(nat, ReadError)>)
      ensures this.data == data && this.script == script
    {
      this.data, this.script, last := data, script, NoError;
    }

    method Read(space: nat) returns (got: seq<byte>, err: ReadError)
      modifies this
      ensures |got| <= space
      ensures old(data) == got + data && last == err
      ensures err.NoError? ==> |script| < |old(script)|
    {
      last := if script == [] then EndOfFile else script[0].1;
      if script == [] {
        return [], EndOfFile;
      }
      var (want, e) := script[0];
      var n := if want > space then space else want;
      n := if n > |data| then |data| else n;
      got, err := data[..n], e;
      data, script := data[n..], script[1..];
    }
  }

  class Buffer {
    const pool: P.Pool
    const bootstrap: array<byte>
    var store: array?<byte>
    var len: nat
    var rOff: nat

    ghost predicate Valid()
      reads this, pool
    {
      && pool.Valid()
      && bootstrap.Length == BOOTSTRAP
      && bootstrap in pool.owner && pool.owner[bootstrap] == this
      && (store == null ==> len == 0)
      && (store != null ==> len <= store.Length && store in pool.owner && pool.owner[store] == this)
      && rOff <= len
    }

    /** The bytes that were written and not read yet. */
    ghost function Contents(): seq<byte>
      requires Valid()
      reads this, pool, store
    {
      if store == null then [] else store[rOff..len]
    }

    ghost function Footprint(): set<object>
      reads this, pool
    {
      {this, pool, bootstrap} + (if store == null then {} else {store}) + pool.Free()
    }

    /** Storage of others stays theirs; being owned it is not in the footprint either, so its
        contents cannot change. */
    twostate predicate OthersKept()
      reads this, pool
    {
      forall a :: a in old(pool.owner) && old(pool.owner[a]) != this ==>
        a in pool.owner && pool.owner[a] == old(pool.owner[a])
    }

    function Cap(): nat
      reads this
    {
      if store == null then 0 else store.Length
    }

    function Len(): nat
      requires rOff <= len
      reads this
    {
      len - rOff
    }

    method Unread() returns (bytes: seq<byte>)
      requires Valid()
      ensures bytes == Contents()
    {
      bytes := if store == null then [] else store[rOff..len];
    }

    /** Memory in use is at most eight times what is stored, above the bootstrap size. */
    predicate Frugal()
      requires rOff <= len
      reads this
    {
      Cap() <= BOOTSTRAP || Cap() <= 8 * Len()
    }

    constructor (pool: P.Pool)
      requires pool.Valid()
      modifies pool
      ensures Valid() && this.pool == pool && Contents() == []
      ensures pool.Free() == old(pool.Free()) && fresh(bootstrap) && store == null
      ensures pool.owner == old(pool.owner)[bootstrap := this]
    {
      this.pool := pool;
      bootstrap := new byte[BOOTSTRAP];
      store, len, rOff := null, 0, 0;
      new;
      pool.owner := pool.owner[bootstrap := this];
    }

    /** Storage for n bytes, never the storage in use. */
    method GetBuf(n: nat) returns (b: array<byte>)
      requires Valid() && (store == bootstrap ==> n > BOOTSTRAP)
      modifies pool
      ensures Valid() && unchanged(this)
      ensures n <= b.Length && (b.Length == BOOTSTRAP || b.Length < 4 * n)
      ensures b != store && (b == bootstrap || fresh(b) || b in old(pool.Free()))
      ensures b == bootstrap || b !in old(pool.owner)
      ensures pool.owner == old(pool.owner)[b := this]
      ensures pool.Free() <= old(pool.Free()) - {b}
    {
      if n <= BOOTSTRAP {
        b := bootstrap;
      } else {
        b := pool.GetBytes(n, this);
      }
    }

    /** Gives the storage up, to the pool when it is large enough to have come from there. */
    method ReturnBuf()
      requires Valid()
      modifies this`store, this`len, pool
      ensures pool.Valid() && store == null && len == 0
      ensures forall a :: a in old(pool.owner) && a != old(store) ==>
                a in pool.owner && pool.owner[a] == old(pool.owner[a])
      ensures old(store) == bootstrap ==> pool.owner == old(pool.owner)
      ensures pool.Free() <= old(pool.Free()) + (if old(store) == null then {} else {old(store)})
    {
      if Cap() > BOOTSTRAP {
        pool.PutBytes(store, this);
      }
      store, len := null, 0;
    }

    /** Moves the unread bytes to the front of other storage with room for n bytes. */
    method Relocate(n: nat)
      requires Valid() && n >= Len() && (store == bootstrap ==> n > BOOTSTRAP)
      modifies Footprint()
      ensures Valid() && Contents() == old(Contents())
      ensures rOff == 0 && store != null && n <= Cap() && (Cap() == BOOTSTRAP || Cap() < 4 * n)
      ensures fresh(Footprint() - old(Footprint())) && OthersKept()
    {
      var size := Len();
      var newBuf := GetBuf(n);
      CopyTo(newBuf);
      Adopt(newBuf, size);
    }

    /** Gives the old storage up for storage that the buffer owns already. */
    method Adopt(b: array<byte>, size: nat)
      requires Valid() && b != store && size <= b.Length && b in pool.owner && pool.owner[b] == this
      requires b !in pool.Free()
      modifies this, pool
      ensures Valid() && store == b && len == size && rOff == 0
      ensures Footprint() <= old(Footprint()) + {b} && OthersKept()
    {
      ReturnBuf();
      store, len, rOff := b, size, 0;
    }

    method CopyTo(b: array<byte>)
      requires Valid() && b != store && Len() <= b.Length
      modifies b
      ensures Valid() && Contents() == old(Contents()) && b[..Len()] == Contents()
    {
      if store != null {
        forall i | 0 <= i < Len() {
          b[i] := store[rOff + i];
        }
      }
    }

    /** Makes room for n more bytes behind the unread ones: in place, by sliding the unread bytes
        to the front, or in larger storage.  The new bytes start at `wOff`. */
    method Extend(n: nat) returns (wOff: nat)
      requires Valid()
      modifies Footprint()
      ensures Valid() && wOff + n == len && rOff <= wOff && (n > 0 ==> store != null)
      ensures Contents()[..wOff - rOff] == old(Contents())
      ensures fresh(Footprint() - old(Footprint())) && OthersKept()
    {
      wOff := len;
      if Cap() < wOff + n {
        MakeRoom(n);
        wOff := len;
      }
      Lengthen(n);
    }

    method Lengthen(n: nat)
      requires Valid() && len + n <= Cap()
      modifies this`len
      ensures Valid() && len == old(len) + n && Contents()[..old(len) - rOff] == old(Contents())
    {
      len := len + n;
    }

    /** Steps over m unread bytes. */
    method Skip(m: nat) returns (got: seq<byte>)
      requires Valid() && m <= Len()
      modifies this`rOff
      ensures Valid() && old(Contents()) == got + Contents() && |got| == m
    {
      got := if store == null then [] else store[rOff..rOff + m];
      rOff := rOff + m;
    }

    method MakeRoom(n: nat)
      requires Valid() && Cap() < len + n
      modifies Footprint()
      ensures Valid() && store != null && len + n <= Cap() && Contents() == old(Contents())
      ensures fresh(Footprint() - old(Footprint())) && OthersKept()
    {
      var minCap := 2 * Len() + n;
      if Cap() >= minCap {
        Slide();
      } else {
        Relocate(minCap);
      }
    }

    method Slide()
      requires Valid() && store != null
      modifies this`rOff, this`len, store
      ensures Valid() && rOff == 0 && Contents() == old(Contents())
    {
      var size := Len();
      forall i | 0 <= i < size {
        store[i] := store[rOff + i];
      }
      rOff, len := 0, size;
    }

    method Shrink()
      requires Valid()
      modifies Footprint()
      ensures Valid() && Contents() == old(Contents()) && Frugal()
      ensures fresh(Footprint() - old(Footprint())) && OthersKept()
    {
      var c := Cap();
      if c <= BOOTSTRAP {
        return;
      }
      var l := Len();
      if l == 0 {
        ReturnBuf();
        rOff := 0;
      } else if l * 8 < c {
        Relocate(l);
      }
    }

    // ---- Operations -------------------------------------------------------------------

    method Write(bytes: seq<byte>) returns (n: nat)
      requires Valid()
      modifies Footprint()
      ensures Valid() && Contents() == old(Contents()) + bytes && n == |bytes|
      ensures fresh(Footprint() - old(Footprint())) && OthersKept()
    {
      var wOff := Extend(|bytes|);
      assert Contents()[..wOff - rOff] == old(Contents());
      Fill(wOff, bytes);
      n := |bytes|;
    }

    method WriteByte(c: byte)
      requires Valid()
      modifies Footprint()
      ensures Valid() && Contents() == old(Contents()) + [c]
      ensures fresh(Footprint() - old(Footprint())) && OthersKept()
    {
      var wOff := Extend(1);
      assert Contents()[..wOff - rOff] == old(Contents());
      Fill(wOff, [c]);
    }

    /** Overwrites everything from wOff on. */
    method Fill(wOff: nat, bytes: seq<byte>)
      requires Valid() && rOff <= wOff && wOff + |bytes| == len && (bytes != [] ==> store != null)
      modifies store
      ensures Valid() && Contents() == old(Contents())[..wOff - rOff] + bytes
    {
      if store != null {
        forall i | 0 <= i < |bytes| {
          store[wOff + i] := bytes[i];
        }
      }
    }

    method Grow(n: nat)
      requires Valid()
      modifies Footprint()
      ensures Valid() && Contents() == old(Contents()) && len + n <= Cap()
      ensures fresh(Footprint() - old(Footprint())) && OthersKept()
    {
      var wOff := Extend(n);
      len := wOff;
    }

    method Read(space: nat) returns (got: seq<byte>, eof: bool)
      requires Valid()
      modifies Footprint()
      ensures Valid() && old(Contents()) == got + Contents()
      ensures |got| == if space < |old(Contents())| then space else |old(Contents())|
      ensures eof <==> space > 0 && old(Contents()) == []
      ensures got != [] ==> Frugal()
      ensures fresh(Footprint() - old(Footprint())) && OthersKept()
    {
      if space == 0 {
        return [], false;
      }
      if rOff >= len {
        return [], true;
      }
      var n := if space < Len() then space else Len();
      got := Skip(n);
      eof := false;
      Shrink();
    }

    /** Like `Read`, without freeing storage: the result is a view, `m` bytes of the storage in use
        from `from` on. */
    method Next(n: nat) returns (view: array?<byte>, from: nat, m: nat)
      requires Valid()
      modifies this`rOff
      ensures Valid() && m == if n < |old(Contents())| then n else |old(Contents())|
      ensures view == store && (view != null ==> from + m <= view.Length) && (view == null ==> m == 0)
      ensures old(Contents()) == (if view == null then [] else view[from..from + m]) + Contents()
    {
      m := if Len() < n then Len() else n;
      view, from := store, rOff;
      assert store != null ==> store[rOff..len] == store[rOff..rOff + m] + store[rOff + m..len];
      rOff := rOff + m;
    }

    /** A view of everything that is unread: it is the storage, not a copy. */
    method View() returns (view: array?<byte>, from: nat, m: nat)
      requires Valid()
      ensures view == store && m == Len() && (view != null ==> from + m <= view.Length) && (view == null ==> m == 0)
      ensures Contents() == if view == null then [] else view[from..from + m]
    {
      view, from, m := store, rOff, len - rOff;
    }

    method ReadByte() returns (got: seq<byte>)
      requires Valid()
      modifies this`rOff
      ensures Valid() && old(Contents()) == got + Contents()
      ensures |got| == if old(Contents()) == [] then 0 else 1
    {
      if rOff >= len {
        return [];
      }
      got := [store[rOff]];
      rOff := rOff + 1;
    }

    /** Keeps the first n unread bytes; out of range, the program panics. */
    method Truncate(n: nat) returns (panics: bool)
      requires Valid()
      modifies Footprint()
      ensures Valid() && (panics <==> n > |old(Contents())|)
      ensures Contents() == if panics then old(Contents()) else old(Contents())[..n]
      ensures !panics ==> Frugal()
      ensures fresh(Footprint() - old(Footprint())) && OthersKept()
    {
      if n > Len() {
        return true;
      }
      len := rOff + n;
      assert Contents() == old(Contents())[..n];
      Shrink();
      return false;
    }

    method Reset()
      requires Valid()
      modifies Footprint()
      ensures Valid() && Contents() == [] && Cap() == 0
      ensures fresh(Footprint() - old(Footprint())) && OthersKept()
    {
      ReturnBuf();
      rOff := 0;
    }

    /** Offers everything to a writer that accepts `accepts` bytes of it. */
    method WriteTo(accepts: nat) returns (got: seq<byte>)
      requires Valid() && accepts <= |Contents()|
      modifies Footprint()
      ensures Valid() && old(Contents()) == got + Contents() && |got| == accepts
      ensures old(Contents()) != [] ==> Frugal()
      ensures fresh(Footprint() - old(Footprint())) && OthersKept()
    {
      if rOff >= len {
        return [];
      }
      got := Skip(accepts);
      Shrink();
    }

    /** Appends what the reader yields until it reports its end or fails. */
    method ReadFrom(r: Reader) returns (n: nat, err: ReadError)
      requires Valid() && r !in Footprint()
      modifies Footprint(), r
      ensures Valid() && n <= |old(r.data)| && old(r.data)[n..] == r.data
      ensures Contents() == old(Contents()) + old(r.data)[..n]
      ensures !r.last.NoError? && err == (if r.last.EndOfFile? then NoError else r.last) && Frugal()
      ensures fresh(Footprint() - old(Footprint())) && OthersKept()
    {
      var taken: seq<byte>;
      taken, err := ReadAll(r);
      n, err := |taken|, if err.EndOfFile? then NoError else err;
      Shrink();
    }

    method ReadAll(r: Reader) returns (taken: seq<byte>, err: ReadError)
      requires Valid() && r !in Footprint()
      modifies Footprint(), r
      ensures Valid() && old(r.data) == taken + r.data && r.last == err && !err.NoError?
      ensures Contents() == old(Contents()) + taken
      ensures fresh(Footprint() - old(Footprint())) && OthersKept()
    {
      taken, err := [], NoError;
      ghost var before, all := Contents(), r.data;
      while err.NoError?
        invariant Valid() && all == taken + r.data && Contents() == before + taken
        invariant !err.NoError? ==> r.last == err
        invariant fresh(Footprint() - old(Footprint())) && OthersKept()
        decreases err.NoError?, |r.script|
      {
        taken, err := ReadMore(r, taken, before, all);
      }
    }

    method ReadMore(r: Reader, taken: seq<byte>, ghost before: seq<byte>, ghost all: seq<byte>)
      returns (more: seq<byte>, err: ReadError)
      requires Valid() && r !in Footprint()
      requires all == taken + r.data && Contents() == before + taken
      modifies Footprint(), r
      ensures Valid() && all == more + r.data && Contents() == before + more && r.last == err
      ensures err.NoError? ==> |r.script| < |old(r.script)|
      ensures fresh(Footprint() - old(Footprint())) && OthersKept()
    {
      var got: seq<byte>;
      got, err := ReadOnce(r);
      assert taken + (got + r.data) == (taken + got) + r.data;
      assert before + taken + got == before + (taken + got);
      more := taken + got;
    }

    /** One call of the reader, into all the room the storage has. */
    method ReadOnce(r: Reader) returns (got: seq<byte>, err: ReadError)
      requires Valid() && r !in Footprint()
      modifies Footprint(), r
      ensures Valid() && old(r.data) == got + r.data && r.last == err
      ensures Contents() == old(Contents()) + got
      ensures err.NoError? ==> |r.script| < |old(r.script)|
      ensures fresh(Footprint() - old(Footprint())) && OthersKept()
    {
      var wOff := Extend(MIN_READ);
      got, err := r.Read(Cap() - wOff);
      Commit(wOff, got);
    }

    /** Ends the storage in use with the given bytes from wOff on. */
    method Commit(wOff: nat, bytes: seq<byte>)
      requires Valid() && store != null && rOff <= wOff <= len && wOff + |bytes| <= Cap()
      modifies this`len, store
      ensures Valid() && Contents() == old(Contents())[..wOff - rOff] + bytes
    {
      assert Contents()[..wOff - rOff] == store[rOff..wOff];
      len := wOff + |bytes|;
      assert Contents()[..wOff - rOff] == store[rOff..wOff];
      Fill(wOff, bytes);
    }
  }

  // ---- Whole runs ---------------------------------------------------------------------

  datatype Op =
    | Put(bytes: seq<byte>)
    | PutByte(c: byte)
    | Fetch(data: seq<byte>, script: seq<(nat, ReadError)>)
    | Reserve(n: nat)
    | Take(space: nat)
    | TakeByte
    | Peek(n: nat)
    | Send(accepts: nat)
    | Keep(n: nat)
    | Clear

  /** What an operation does to a plain queue of bytes. */
  datatype Event = In(bytes: seq<byte>) | Out(bytes: seq<byte>) | Cut(bytes: seq<byte>)

  predicate Moves(q: seq<byte>, e: Event, q': seq<byte>) {
    match e
    case In(bytes) => q' == q + bytes
    case Out(bytes) => q == bytes + q'
    case Cut(bytes) => q == q' + bytes
  }

  function Min(m: nat, n: nat): nat {
    if m < n then m else n
  }

  /** The event an operation stands for. */
  predicate Explains(op: Op, q: seq<byte>, e: Event) {
    match op
    case Put(bytes) => e == In(bytes)
    case PutByte(c) => e == In([c])
    case Fetch(data, _) => e.In? && e.bytes <= data
    case Reserve(_) => e == In([])
    case Take(space) => e.Out? && |e.bytes| == Min(space, |q|)
    case TakeByte => e.Out? && |e.bytes| == Min(1, |q|)
    case Peek(n) => e.Out? && |e.bytes| == Min(n, |q|)
    case Send(accepts) => e.Out? && |e.bytes| == Min(accepts, |q|)
    case Keep(n) => e.Cut? && |e.bytes| == if n > |q| then 0 else |q| - n
    case Clear => e == Cut(q)
  }

  /** A run of a plain queue. */
  predicate Follows(ops: seq<Op>, events: seq<Event>, qs: seq<seq<byte>>) {
    && |events| == |ops| && |qs| == |ops| + 1
    && forall i :: 0 <= i < |ops| ==> Explains(ops[i], qs[i], events[i]) && Moves(qs[i], events[i], qs[i + 1])
  }

  method Perform(b: Buffer, op: Op) returns (e: Event)
    requires b.Valid()
    modifies b.Footprint()
    ensures b.Valid() && Explains(op, old(b.Contents()), e) && Moves(old(b.Contents()), e, b.Contents())
    ensures fresh(b.Footprint() - old(b.Footprint())) && b.OthersKept()
  {
    if op.Put? || op.PutByte? || op.Fetch? || op.Reserve? {
      e := PerformIn(b, op);
    } else if op.Keep? {
      e := PerformKeep(b, op.n);
    } else if op.Clear? {
      var q := b.Unread();
      b.Reset();
      e := Cut(q);
    } else {
      e := PerformOut(b, op);
    }
  }

  method PerformIn(b: Buffer, op: Op) returns (e: Event)
    requires b.Valid() && (op.Put? || op.PutByte? || op.Fetch? || op.Reserve?)
    modifies b.Footprint()
    ensures b.Valid() && Explains(op, old(b.Contents()), e) && Moves(old(b.Contents()), e, b.Contents())
    ensures fresh(b.Footprint() - old(b.Footprint())) && b.OthersKept()
  {
    match op {
      case Put(bytes) =>
        var _ := b.Write(bytes);
        e := In(bytes);
      case PutByte(c) =>
        b.WriteByte(c);
        e := In([c]);
      case Fetch(data, script) =>
        var r := new Reader(data, script);
        var n, _ := b.ReadFrom(r);
        e := In(data[..n]);
      case Reserve(n) =>
        b.Grow(n);
        e := In([]);
    }
  }

  method PerformOut(b: Buffer, op: Op) returns (e: Event)
    requires b.Valid() && (op.Take? || op.TakeByte? || op.Peek? || op.Send?)
    modifies b.Footprint()
    ensures b.Valid() && Explains(op, old(b.Contents()), e) && Moves(old(b.Contents()), e, b.Contents())
    ensures fresh(b.Footprint() - old(b.Footprint())) && b.OthersKept()
  {
    var got;
    match op {
      case Take(space) =>
        var eof;
        got, eof := b.Read(space);
      case TakeByte =>
        got := b.ReadByte();
      case Peek(n) =>
        var view, from, m := b.Next(n);
        got := if view == null then [] else view[from..from + m];
      case Send(accepts) =>
        got := b.WriteTo(Min(accepts, b.Len()));
    }
    e := Out(got);
  }

  method PerformKeep(b: Buffer, n: nat) returns (e: Event)
    requires b.Valid()
    modifies b.Footprint()
    ensures b.Valid() && Explains(Keep(n), old(b.Contents()), e) && Moves(old(b.Contents()), e, b.Contents())
    ensures fresh(b.Footprint() - old(b.Footprint())) && b.OthersKept()
  {
    var q := b.Unread();
    var panics := b.Truncate(n);
    e := Cut(if panics then [] else q[n..]);
  }

  /** What one buffer owns is out of reach of the others. */
  lemma OutOfReach(a: Buffer, b: Buffer)
    requires a.Valid() && b.Valid() && a != b && a.pool == b.pool
    ensures a !in b.Footprint() && (a.store != null ==> a.store !in b.Footprint())
  {
  }

  /** Whoever keeps its fields, its storage and its place in the pool keeps its contents. */
  lemma KeptAsItWas(a: Buffer, store: array?<byte>, len: nat, rOff: nat, bytes: seq<byte>)
    requires a.store == store && a.len == len && a.rOff == rOff && rOff <= len
    requires a.pool.Valid() && a.bootstrap.Length == BOOTSTRAP
    requires a.bootstrap in a.pool.owner && a.pool.owner[a.bootstrap] == a
    requires if store == null then len == 0 && bytes == []
             else len <= store.Length && store in a.pool.owner && a.pool.owner[store] == a && store[rOff..len] == bytes
    ensures a.Valid() && a.Contents() == bytes
  {
  }

  /** Buffers that share a pool never touch each other's bytes. */
  method PerformBeside(a: Buffer, b: Buffer, op: Op) returns (e: Event)
    requires a.Valid() && b.Valid() && a != b && a.pool == b.pool
    modifies b.Footprint()
    ensures a.Valid() && a.Contents() == old(a.Contents())
    ensures b.Valid() && Moves(old(b.Contents()), e, b.Contents())
  {
    OutOfReach(a, b);
    ghost var store, len, rOff, bytes := a.store, a.len, a.rOff, a.Contents();
    e := Perform(b, op);
    KeptAsItWas(a, store, len, rOff, bytes);
  }

  lemma FollowsOn(ops: seq<Op>, i: nat, events: seq<Event>, qs: seq<seq<byte>>, e: Event, q: seq<byte>)
    requires i < |ops| && Follows(ops[..i], events, qs) && Explains(ops[i], qs[i], e) && Moves(qs[i], e, q)
    ensures Follows(ops[..i + 1], events + [e], qs + [q])
  {
    var es, rs := events + [e], qs + [q];
    forall k | 0 <= k < i + 1 ensures Explains(ops[..i + 1][k], rs[k], es[k]) && Moves(rs[k], es[k], rs[k + 1]) {
      if k < i {
        assert ops[..i][k] == ops[k] && rs[k] == qs[k] && rs[k + 1] == qs[k + 1] && es[k] == events[k];
      }
    }
  }

  /** Every sequence of operations on a buffer is a run of a plain queue. */
  method PerformAll(b: Buffer, ops: seq<Op>) returns (events: seq<Event>, ghost qs: seq<seq<byte>>)
    requires b.Valid()
    modifies b.Footprint()
    ensures b.Valid() && Follows(ops, events, qs)
    ensures qs[0] == old(b.Contents()) && qs[|ops|] == b.Contents()
  {
    events, qs := [], [b.Contents()];
    for i := 0 to |ops|
      invariant b.Valid() && fresh(b.Footprint() - old(b.Footprint()))
      invariant Follows(ops[..i], events, qs)
      invariant qs[0] == old(b.Contents()) && qs[i] == b.Contents()
    {
      var e := Perform(b, ops[i]);
      FollowsOn(ops, i, events, qs, e, b.Contents());
      events, qs := events + [e], qs + [b.Contents()];
    }
    assert ops[..|ops|] == ops;
  }

  function Written(events: seq<Event>): seq<byte> {
    if events == [] then []
    else Written(events[..|events| - 1]) + (var e := events[|events| - 1]; if e.In? then e.bytes else [])
  }

  function Received(events: seq<Event>): seq<byte> {
    if events == [] then []
    else Received(events[..|events| - 1]) + (var e := events[|events| - 1]; if e.Out? then e.bytes else [])
  }

  /** First in, first out: as long as nothing is cut off, the bytes that came out, followed by
      those still inside, are the bytes that were inside followed by those that went in. */
  lemma {:induction false} FirstInFirstOut(ops: seq<Op>, events: seq<Event>, qs: seq<seq<byte>>)
    requires Follows(ops, events, qs)
    requires forall i :: 0 <= i < |events| ==> !events[i].Cut?
    ensures qs[0] + Written(events) == Received(events) + qs[|ops|]
  {
    if ops == [] {
    } else {
      var n := |ops| - 1;
      FirstInFirstOut(ops[..n], events[..n], qs[..n + 1]);
      var w, r, e := Written(events[..n]), Received(events[..n]), events[n];
      assert Moves(qs[n], e, qs[n + 1]);
      assert e.In? ==> qs[0] + (w + e.bytes) == (qs[0] + w) + e.bytes;
      assert e.Out? ==> r + (e.bytes + qs[n + 1]) == (r + e.bytes) + qs[n + 1];
    }
  }
}
