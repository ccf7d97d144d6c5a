/**
The node table together with the cache of proxies built from it.  The operations are taken as
atomic here.  The cache never serves a proxy of outdated settings, no proxy is closed twice or
forgotten, and clearing idle proxies keeps exactly those a selection or a tag can ask for.
*/
module NodeRuntime {
  import opened Options
  import opened NodeTags

  /** `settings` stands for the protocol chain; `members` is not empty for a Set. */
  datatype Node = Node(id: Name, name: string, group: string, origin: string, settings: nat, members: seq<Name>)

  predicate WellFormed(n: Node) {
    n.id != [] && n.name != "" && n.origin != ""
  }

  /** A proxy, with its number in the order of creation and the node it was built from. */
  datatype Entry = Entry(serial: nat, node: Node)

  type Nodes = map<Name, Node>
  type Cache = map<Name, Entry>

  /** Ids that the two selections and the tags refer to. */
  function UsingIDs(tcp: Name, udp: Name, rows: Table): set<Name> {
    ({tcp, udp} + (set r | r in rows && r.kind.ToNode? :: r.target)) - {[]}
  }

  /** A selection, or the target of a row that names a node. */
  ghost predicate Referred(tcp: Name, udp: Name, rows: Table, id: Name) {
    id != [] && (id == tcp || id == udp || exists r :: r in rows && r.kind.ToNode? && r.target == id)
  }

  /** The row that adding a tag asks for; a tag that mirrors itself is left out. */
  ghost predicate Asked(x: Row, tag: Name, kind: string, target: Name) {
    && x.tag == tag && x.target == target
    && (if kind == "tag" then x.kind.ToTag? && tag != target else x.kind.ToNode?)
  }

  /** A cached proxy was built from the node that is stored now, if one is. */
  ghost predicate UpToDate(nodes: Nodes, cache: Cache) {
    && (forall id :: id in nodes ==> nodes[id].id == id)
    && (forall id :: id in cache && id in nodes ==> cache[id].node == nodes[id])
  }

  /** The cached proxies that a selection or a tag refers to. */
  function Used(cache: Cache, tcp: Name, udp: Name, rows: Table): Cache {
    map id | id in cache && id in UsingIDs(tcp, udp, rows) :: cache[id]
  }

  function GivenIDs(points: seq<Node>): set<Name> {
    set i | 0 <= i < |points| && points[i].id != [] :: points[i].id
  }

  lemma AddTagKeepsOrder(rows: Table, tag: Name, kind: string, target: Name)
    requires Sorted(rows) && AddTag(rows, tag, kind, target).Some?
    ensures Sorted(AddTag(rows, tag, kind, target).value)
  {
    InsertKeepsOrder(rows, Row(tag, ToNode, target));
    InsertKeepsOrder(rows, Row(tag, ToTag, target));
  }

  lemma DroppingKeepsOrder(rows: Table, tag: Name, id: Name)
    requires Sorted(rows)
    ensures Sorted(NodeTags.DeleteTag(rows, tag)) && Sorted(WithoutNode(rows, id))
  {
    WithoutKeepsOrder(rows, (r: Row) => r.tag == tag);
    WithoutKeepsOrder(rows, (x: Row) => x.kind.ToNode? && x.target == id);
  }

  lemma SavedIsUpToDate(nodes: Nodes, cache: Cache, n: Node)
    requires UpToDate(nodes, cache)
    ensures UpToDate(nodes[n.id := n], cache - {n.id})
  {
  }

  /** Each of the proxies made so far is cached once or was closed once, not both. */
  ghost predicate Accounted(cache: Cache, made: nat, shut: seq<nat>) {
    && (forall id :: id in cache ==> cache[id].serial < made && cache[id].serial !in shut)
    && (forall a, b :: a in cache && b in cache && a != b ==> cache[a].serial != cache[b].serial)
    && (forall i, j :: 0 <= i < j < |shut| ==> shut[i] != shut[j])
    && (forall i :: 0 <= i < |shut| ==> shut[i] < made)
    && (forall n :: 0 <= n < made ==> n in shut || IsCached(cache, n))
  }

  ghost predicate IsCached(cache: Cache, n: nat) {
    exists id :: id in cache && cache[id].serial == n
  }

  datatype Error = Closed | NotFound | Invalid | Unbuildable | BadNetwork

  /** What a connection is made with. */
  datatype Dialer = Direct | Reject | Proxy(entry: Entry)

  /** Whether a network is a kind of TCP or of UDP. */
  function NetworkOf(network: string): Option<bool> {
    if |network| < 3 then None
    else if network[..3] == "tcp" then Some(true)
    else if network[..3] == "udp" then Some(false)
    else None
  }

  datatype Result<+T> = Ok(value: T) | Err(error: Error)

  datatype Op =
    | SaveNode(node: Node)
    | ReplaceGroup(group: string, points: seq<Node>, ids: seq<Name>)
    | RemoveNode(id: Name)
    | Select(id: Name)
    | AddTagRow(tag: Name, kind: string, target: Name)
    | RemoveTag(tag: Name)
    | Dial(id: Name, buildable: bool)
    | Route(network: string, mode: string, tag: Name, pick: nat, buildable: bool)
    | CloseGroup(members: seq<Name>)
    | Drop(id: Name)
    | Shutdown

  // ---- What each operation does ---------------------------------------------------------

  datatype State = State(
    nodes: Nodes, tcp: Name, udp: Name, rows: Table, cache: Cache, closed: bool, made: nat)

  /** Drops the cached proxies that nothing refers to. */
  function Cleared(s: State): State {
    s.(cache := Used(s.cache, s.tcp, s.udp, s.rows))
  }

  /** What asking for an id yields. */
  function ProxyOf(s: State, id: Name, buildable: bool): Option<Entry> {
    if s.closed || id == [] || id !in s.nodes then None
    else if id in s.cache then Some(s.cache[id])
    else if buildable then Some(Entry(s.made, s.nodes[id]))
    else None
  }

  function ProxyByMode(s: State, network: string, mode: string, buildable: bool): Option<Entry> {
    if mode == "direct" || mode == "block" || NetworkOf(network).None? then None
    else ProxyOf(s, if NetworkOf(network).value then s.tcp else s.udp, buildable)
  }

  /** The proxy of the node a tag resolves to comes first, if it can be had. */
  ghost function ProxyFor(
    s: State, network: string, mode: string, tag: Name, pick: nat, buildable: bool): Option<Entry>
    requires NoCycle(s.rows, tag)
  {
    var tagged := if tag == [] then None else ProxyOf(s, Resolved(s.rows, tag, pick), buildable);
    if tagged.Some? then tagged else ProxyByMode(s, network, mode, buildable)
  }

  /** What the outside grants: new ids are not in use yet, and a tag that is asked for resolves. */
  predicate Granted(s: State, op: Op) {
    match op
    case ReplaceGroup(_, points, ids) => |ids| == |points| && forall i :: 0 <= i < |ids| ==> ids[i] !in s.cache
    case Route(_, _, tag, _, _) => Resolvable(s.rows, tag)
    case _ => true
  }

  /** The proxy an operation hands out. */
  ghost function Answer(s: State, op: Op): Option<Entry> {
    match op
    case Dial(id, buildable) => ProxyOf(s, id, buildable)
    case Route(network, mode, tag, pick, buildable) =>
      ResolvableIff(s.rows, tag);
      if Granted(s, op) then ProxyFor(s, network, mode, tag, pick, buildable) else None
    case _ => None
  }

  /** A proxy that was not cached is the newest one. */
  function Cached(s: State, e: Option<Entry>): State {
    if e.None? || e.value.node.id in s.cache then s
    else s.(cache := s.cache[e.value.node.id := e.value], made := s.made + 1)
  }

  predicate AllWellFormed(group: string, points: seq<Node>, ids: seq<Name>)
    requires |ids| == |points|
  {
    forall i :: 0 <= i < |points| ==> WellFormed(Remote(points[i], group, ids[i]))
  }

  /** The operations that change a table of an open runtime. */
  function Changed(s: State, op: Op): State {
    match op
    case SaveNode(node) =>
      var n := Manual(node);
      if WellFormed(n) then s.(nodes := s.nodes[n.id := n], cache := s.cache - {n.id}) else s
    case ReplaceGroup(group, points, ids) =>
      var dropped := s.(cache := s.cache - GivenIDs(points));
      if !Granted(s, op) then s
      else if !AllWellFormed(group, points, ids) then dropped
      else Cleared(dropped.(nodes := Stored(Kept(s.nodes, group), group, points, ids)))
    case RemoveNode(id) =>
      var dropped := s.(cache := s.cache - {id});
      if id !in s.nodes then Cleared(dropped)
      else Cleared(dropped.(nodes := s.nodes - {id}, rows := WithoutNode(s.rows, id)))
    case Select(id) => if id in s.nodes then Cleared(s.(tcp := id, udp := id)) else s
    case AddTagRow(tag, kind, target) =>
      var rows := AddTag(s.rows, tag, kind, target);
      if rows.Some? then Cleared(s.(rows := rows.value)) else s
    case RemoveTag(tag) => Cleared(s.(rows := NodeTags.DeleteTag(s.rows, tag)))
    case _ => s
  }

  function WithoutNode(rows: Table, id: Name): Table {
    Without(rows, (x: Row) => x.kind.ToNode? && x.target == id)
  }

  ghost function After(s: State, op: Op): State {
    if s.closed then s
    else
      match op
      case Dial(_, _) => Cached(s, Answer(s, op))
      case Route(_, _, _, _, _) => Cached(s, Answer(s, op))
      case CloseGroup(members) =>
        s.(cache := s.cache - ((set m | m in members) - UsingIDs(s.tcp, s.udp, s.rows)))
      case Drop(id) => s.(cache := s.cache - {id})
      case Shutdown => s.(closed := true, cache := map[])
      case _ => Changed(s, op)
  }

  ghost function AfterAll(s: State, ops: seq<Op>): State {
    if ops == [] then s else After(AfterAll(s, ops[..|ops| - 1]), ops[|ops| - 1])
  }

  class Runtime {
    var nodes: Nodes
    var tcp: Name
    var udp: Name
    var rows: Table
    var cache: Cache
    var closed: bool
    /** All proxies ever made, and those closed, in order. */
    var made: nat
    var shut: seq<nat>

    ghost predicate Valid()
      reads this
    {
      UpToDate(nodes, cache) && Accounted(cache, made, shut) && (closed ==> cache == map[]) && Sorted(rows)
    }

    ghost function Now(): State
      reads this
    {
      State(nodes, tcp, udp, rows, cache, closed, made)
    }

    constructor ()
      ensures Valid() && Now() == State(map[], [], [], [], map[], false, 0)
    {
      nodes, tcp, udp, rows, cache, closed, made, shut := map[], [], [], [], map[], false, 0, [];
    }

    /** Closes the proxy of an id, if there is one. */
    method DeleteProxy(id: Name)
      requires Accounted(cache, made, shut)
      modifies this`cache, this`shut
      ensures Accounted(cache, made, shut) && cache == old(cache) - {id}
    {
      if id !in cache {
        return;
      }
      ghost var before := cache;
      shut := shut + [cache[id].serial];
      cache := cache - {id};
      forall n | 0 <= n < made
        ensures n in shut || IsCached(cache, n)
      {
        if n !in shut {
          var k :| k in before && before[k].serial == n;
          assert k in cache;
        }
      }
    }

    /** Closes the proxies of some ids, one after the other. */
    method DeleteProxies(ids: set<Name>)
      requires Accounted(cache, made, shut)
      modifies this`cache, this`shut
      ensures Accounted(cache, made, shut) && cache == old(cache) - ids
    {
      var todo := ids;
      while todo != {}
        invariant Accounted(cache, made, shut) && todo <= ids && cache == old(cache) - (ids - todo)
        decreases todo
      {
        var id :| id in todo;
        DeleteProxy(id);
        todo := todo - {id};
      }
    }

    /** Deletes the proxies that nothing refers to. */
    method ClearIdle()
      requires Accounted(cache, made, shut)
      modifies this`cache, this`shut
      ensures Accounted(cache, made, shut)
      ensures cache == Used(old(cache), tcp, udp, rows) && Now() == Cleared(old(Now()))
      ensures forall k :: k in cache <==> k in old(cache) && Referred(tcp, udp, rows, k)
      ensures old(UpToDate(nodes, cache)) ==> UpToDate(nodes, cache)
    {
      DeleteProxies(cache.Keys - UsingIDs(tcp, udp, rows));
    }

    // ---- The node table ----------------------------------------------------------------

    method Save(node: Node) returns (r: Result<Node>)
      requires Valid()
      modifies this
      ensures Valid() && Now() == After(old(Now()), SaveNode(node))
      ensures r.Ok? <==> !closed && node.id != [] && node.name != ""
      ensures r.Ok? ==> r.value == Node(node.id, node.name, node.group, "manual", node.settings, node.members)
      ensures nodes == if r.Ok? then old(nodes)[node.id := r.value] else old(nodes)
      ensures cache == if r.Ok? then old(cache) - {node.id} else old(cache)
    {
      if closed {
        return Err(Closed);
      }
      var n := Manual(node);
      if !WellFormed(n) {
        return Err(Invalid);
      }
      StoreRow(n);
      return Ok(n);
    }

    /** Writes the row, then drops the proxy of the old one. */
    method StoreRow(n: Node)
      requires Valid()
      modifies this`nodes, this`cache, this`shut
      ensures Valid() && nodes == old(nodes)[n.id := n] && cache == old(cache) - {n.id}
    {
      SavedIsUpToDate(nodes, cache, n);
      nodes := nodes[n.id := n];
      DeleteProxy(n.id);
    }

    /** Replaces the remote nodes of a group.  Nodes without an id get a new one from `ids`. */
    method ReplaceRemote(group: string, points: seq<Node>, ids: seq<Name>) returns (r: Result<()>)
      requires Valid() && Granted(Now(), ReplaceGroup(group, points, ids))
      modifies this
      ensures Valid() && Now() == After(old(Now()), ReplaceGroup(group, points, ids))
      ensures r.Ok? <==> !closed && Acceptable(points, ids)
      ensures if r.Ok? then Replaced(old(nodes), nodes, group, points, ids) else nodes == old(nodes)
    {
      StoredIsReplaced(nodes, group, points, ids);
      DropGiven(points);
      StoredUpToDate(nodes, cache, group, points, ids);
      r := ReplaceRows(group, points, ids);
    }

    method DropGiven(points: seq<Node>)
      requires Valid()
      modifies this`cache, this`shut
      ensures Valid() && cache == old(cache) - GivenIDs(points) && cache.Keys !! GivenIDs(points)
      ensures closed ==> Now() == old(Now())
    {
      DeleteProxies(GivenIDs(points));
      assert old(cache) == map[] ==> cache == map[];
    }

    /** The transaction, and then the clearing of idle proxies. */
    method ReplaceRows(group: string, points: seq<Node>, ids: seq<Name>) returns (r: Result<()>)
      requires Accounted(cache, made, shut) && |ids| == |points|
      modifies this`nodes, this`cache, this`shut
      ensures Accounted(cache, made, shut)
      ensures r.Ok? <==> !closed && AllWellFormed(group, points, ids)
      ensures r.Ok? ==> nodes == Stored(Kept(old(nodes), group), group, points, ids)
      ensures r.Ok? ==> cache == Used(old(cache), tcp, udp, rows)
      ensures r.Ok? ==> Now() == Cleared(old(Now()).(nodes := nodes))
      ensures r.Ok? && UpToDate(nodes, old(cache)) ==> UpToDate(nodes, cache)
      ensures r.Err? ==> nodes == old(nodes) && cache == old(cache)
    {
      if closed {
        return Err(Closed);
      }
      var table := StoreRemote(Kept(nodes, group), group, points, ids);
      if table.None? {
        return Err(Invalid);
      }
      nodes := table.value;
      ClearIdle();
      return Ok(());
    }

    /** The changes of the transaction; they are dropped when a node is not well-formed. */
    method StoreRemote(kept: Nodes, group: string, points: seq<Node>, ids: seq<Name>) returns (table: Option<Nodes>)
      requires |ids| == |points|
      ensures table.Some? <==> AllWellFormed(group, points, ids)
      ensures table.Some? ==> table.value == Stored(kept, group, points, ids)
    {
      var t := kept;
      for i := 0 to |points|
        invariant t == Stored(kept, group, points[..i], ids[..i])
        invariant forall j :: 0 <= j < i ==> WellFormed(Remote(points[j], group, ids[j]))
      {
        var n := Remote(points[i], group, ids[i]);
        if !WellFormed(n) {
          return None;
        }
        assert points[..i + 1][..i] == points[..i] && ids[..i + 1][..i] == ids[..i];
        t := t[n.id := n];
      }
      assert points[..|points|] == points && ids[..|points|] == ids;
      return Some(t);
    }

    /** Removes a node and the tag rows that name it; an unknown id changes no table. */
    method Remove(id: Name) returns (r: Result<()>)
      requires Valid()
      modifies this
      ensures Valid() && Now() == After(old(Now()), RemoveNode(id)) && (r.Ok? <==> !closed)
      ensures r.Ok? ==> nodes == old(nodes) - {id}
      ensures r.Ok? ==> forall x :: x in rows <==>
                x in old(rows) && !(id in old(nodes) && x.kind.ToNode? && x.target == id)
    {
      DeleteProxy(id);
      if closed {
        assert cache == map[];
        return Err(Closed);
      }
      DeleteNode(id);
      ClearIdle();
      return Ok(());
    }

    method DeleteNode(id: Name)
      requires Sorted(rows) && UpToDate(nodes, cache)
      modifies this`nodes, this`rows
      ensures Sorted(rows) && UpToDate(nodes, cache)
      ensures if id in old(nodes) then nodes == old(nodes) - {id} && rows == WithoutNode(old(rows), id)
              else nodes == old(nodes) && rows == old(rows)
    {
      if id in nodes {
        DroppingKeepsOrder(rows, [], id);
        rows := WithoutNode(rows, id);
        nodes := nodes - {id};
      }
    }

    method Use(id: Name) returns (r: Result<()>)
      requires Valid()
      modifies this
      ensures Valid() && Now() == After(old(Now()), Select(id)) && (r.Ok? <==> !closed && id in nodes)
      ensures if r.Ok? then tcp == udp == id else tcp == old(tcp) && udp == old(udp)
    {
      if closed {
        return Err(Closed);
      }
      if id !in nodes {
        return Err(NotFound);
      }
      tcp, udp := id, id;
      ClearIdle();
      return Ok(());
    }

    method Tag(tag: Name, kind: string, target: Name) returns (r: Result<()>)
      requires Valid()
      modifies this
      ensures Valid() && Now() == After(old(Now()), AddTagRow(tag, kind, target))
      ensures r.Ok? <==> !closed && kind in {"", "node", "tag"}
      ensures r.Ok? ==> forall x :: x in rows <==> x in old(rows) || Asked(x, tag, kind, target)
    {
      if closed {
        return Err(Closed);
      }
      var t := AddTag(rows, tag, kind, target);
      if t.None? {
        return Err(Invalid);
      }
      AddTagKeepsOrder(rows, tag, kind, target);
      rows := t.value;
      ClearIdle();
      return Ok(());
    }

    method DeleteTag(tag: Name) returns (r: Result<()>)
      requires Valid()
      modifies this
      ensures Valid() && Now() == After(old(Now()), RemoveTag(tag)) && (r.Ok? <==> !closed)
      ensures r.Ok? ==> forall x :: x in rows <==> x in old(rows) && x.tag != tag
    {
      if closed {
        return Err(Closed);
      }
      DroppingKeepsOrder(rows, tag, []);
      rows := NodeTags.DeleteTag(rows, tag);
      ClearIdle();
      return Ok(());
    }

    // ---- Proxies -----------------------------------------------------------------------

    /** The proxy of an id: the cached one, or a new one of the given node if it can be built. */
    method LoadOrCreate(id: Name, node: Node, buildable: bool) returns (r: Result<Entry>)
      requires Accounted(cache, made, shut)
      modifies this`cache, this`made
      ensures Accounted(cache, made, shut)
      ensures r.Ok? <==> id != [] && !closed && (id in old(cache) || buildable)
      ensures r.Ok? ==> id in cache && cache[id] == r.value
      ensures cache == if r.Ok? && id !in old(cache) then old(cache)[id := Entry(old(made), node)] else old(cache)
      ensures made == if r.Ok? && id !in old(cache) then old(made) + 1 else old(made)
    {
      if id == [] {
        return Err(Invalid);
      }
      if closed {
        return Err(Closed);
      }
      if id in cache {
        return Ok(cache[id]);
      }
      if !buildable {
        return Err(Unbuildable);
      }
      ghost var before := cache;
      cache := cache[id := Entry(made, node)];
      made := made + 1;
      forall n | 0 <= n < made
        ensures n in shut || IsCached(cache, n)
      {
        if n == made - 1 {
          assert cache[id].serial == n;
        } else if n !in shut {
          var k :| k in before && before[k].serial == n;
          assert cache[k].serial == n;
        }
      }
      return Ok(cache[id]);
    }

    /** Whoever asks by id gets a proxy of the node as it is stored now. */
    method GetDialerByID(id: Name, buildable: bool) returns (r: Result<Entry>)
      requires Valid()
      modifies this`cache, this`made
      ensures Valid() && Now() == Cached(old(Now()), Given(r))
      ensures Given(r) == ProxyOf(old(Now()), id, buildable)
      ensures r.Ok? ==> id in nodes && id in cache && cache[id] == r.value && r.value.node == nodes[id]
      ensures closed ==> r == Err(Closed)
      ensures !closed && id !in nodes ==> r == Err(NotFound)
    {
      if closed {
        return Err(Closed);
      }
      if id !in nodes {
        return Err(NotFound);
      }
      r := LoadOrCreate(id, nodes[id], buildable);
      assert UpToDate(nodes, cache);
    }

    function SelectedID(forTCP: bool): (id: Name)
      reads this
      ensures id != [] ==> id in nodes && id in UsingIDs(tcp, udp, rows)
    {
      var id := if forTCP then tcp else udp;
      if id in nodes then id else []
    }

    /** What to dial with: the proxy of a tag if there is one, else what the mode says, else the
        proxy of the selected node.  Every id a proxy may come from is in use, so that clearing idle
        proxies will not take it away. */
    method Get(network: string, mode: string, tag: Name, pick: nat, buildable: bool) returns (r: Result<Dialer>)
      requires Valid() && NoCycle(rows, tag)
      modifies this`cache, this`made
      ensures Valid() && Now() == Cached(old(Now()), ProxyFor(old(Now()), network, mode, tag, pick, buildable))
      ensures r.Ok? && r.value.Proxy? ==> Current(r.value.entry)
      ensures closed && tag != [] ==> r == Err(Closed)
      ensures !closed || tag == [] ==> var e := ProxyFor(old(Now()), network, mode, tag, pick, buildable);
                if e.Some? then r == Ok(Proxy(e.value))
                else if mode == "direct" then r == Ok(Direct)
                else if mode == "block" then r == Ok(Reject)
                else r.Err?
    {
      if tag != [] {
        if closed {
          return Err(Closed);
        }
        var tagged := GetTagged(tag, pick, buildable);
        if tagged.Some? {
          return Ok(Proxy(tagged.value));
        }
      }
      r := GetByMode(network, mode, buildable);
    }

    /** The proxy of the node that a tag resolves to, if it can be had. */
    method GetTagged(tag: Name, pick: nat, buildable: bool) returns (e: Option<Entry>)
      requires Valid() && NoCycle(rows, tag)
      modifies this`cache, this`made
      ensures Valid() && Now() == Cached(old(Now()), e)
      ensures e == ProxyOf(old(Now()), Resolved(rows, tag, pick), buildable)
      ensures e.Some? ==> Current(e.value)
    {
      var id := TagConn(rows, tag, pick);
      if id == [] {
        return None;
      }
      ResolvedIsNode(rows, tag, pick);
      var d := GetDialerByID(id, buildable);
      e := Given(d);
    }

    /** Built from the node that is stored now, under an id that is in use. */
    ghost predicate Current(e: Entry)
      reads this
    {
      e.node.id in nodes && e.node == nodes[e.node.id] && e.node.id in UsingIDs(tcp, udp, rows)
    }

    method GetByMode(network: string, mode: string, buildable: bool) returns (r: Result<Dialer>)
      requires Valid()
      modifies this`cache, this`made
      ensures Valid() && Now() == Cached(old(Now()), ProxyByMode(old(Now()), network, mode, buildable))
      ensures r.Ok? && r.value.Proxy? ==> Current(r.value.entry)
      ensures var e := ProxyByMode(old(Now()), network, mode, buildable);
              if e.Some? then r == Ok(Proxy(e.value))
              else if mode == "direct" then r == Ok(Direct)
              else if mode == "block" then r == Ok(Reject)
              else r.Err?
    {
      if mode == "direct" {
        return Ok(Direct);
      }
      if mode == "block" {
        return Ok(Reject);
      }
      if |network| < 3 {
        return Err(BadNetwork);
      }
      if closed {
        return Err(Closed);
      }
      var tcpLike := NetworkOf(network);
      if tcpLike.None? {
        return Err(BadNetwork);
      }
      var d := GetSelected(tcpLike.value, buildable);
      r := if d.Ok? then Ok(Proxy(d.value)) else Err(d.error);
    }

    method GetSelected(forTCP: bool, buildable: bool) returns (r: Result<Entry>)
      requires Valid()
      modifies this`cache, this`made
      ensures Valid() && Now() == Cached(old(Now()), ProxyOf(old(Now()), if forTCP then tcp else udp, buildable))
      ensures Given(r) == ProxyOf(old(Now()), if forTCP then tcp else udp, buildable)
      ensures r.Ok? ==> Current(r.value) && r.value.node.id == if forTCP then tcp else udp
    {
      if closed {
        return Err(Closed);
      }
      var id := SelectedID(forTCP);
      if id == [] {
        return Err(NotFound);
      }
      r := LoadOrCreate(id, nodes[id], buildable);
      assert UpToDate(nodes, cache);
    }

    /** Closing a Set drops its members, unless a selection or a tag refers to them. */
    method CloseSet(members: seq<Name>)
      requires Valid()
      modifies this`cache, this`shut
      ensures Valid() && Now() == After(old(Now()), CloseGroup(members))
    {
      var used := if closed then {} else UsingIDs(tcp, udp, rows);
      DeleteProxies((set m | m in members) - used);
    }

    /** After Close nothing is cached, every proxy ever made has been closed, exactly once, and
        no operation makes another. */
    method Close()
      requires Valid()
      modifies this
      ensures Valid() && Now() == After(old(Now()), Shutdown) && closed && cache == map[]
      ensures forall n :: 0 <= n < made ==> n in shut
    {
      if closed {
        return;
      }
      closed := true;
      DeleteProxies(cache.Keys);
      assert cache == map[];
    }

    /** One operation; without the grant it does not come to pass. */
    method Step(op: Op) returns (served: Option<Entry>)
      requires Valid()
      modifies this
      ensures Valid() && Took(old(Now()), op, served, Now())
    {
      if op.Dial? || op.Route? {
        served := HandOut(op);
      } else {
        served := None;
        if op.Shutdown? {
          Close();
        } else {
          Change(op);
        }
      }
    }

    /** The operations that hand out a proxy. */
    method HandOut(op: Op) returns (served: Option<Entry>)
      requires Valid() && (op.Dial? || op.Route?)
      modifies this`cache, this`made
      ensures Valid() && Took(old(Now()), op, served, Now())
    {
      if Answer(Now(), op).Some? {
        AnswerIsRight(Now(), op);
      }
      match op {
        case Dial(id, buildable) =>
          var r := GetDialerByID(id, buildable);
          served := Given(r);
        case Route(network, mode, tag, pick, buildable) =>
          served := GetRoute(network, mode, tag, pick, buildable);
      }
    }

    /** The proxy to dial with, if it is one, and if the tag resolves. */
    method GetRoute(network: string, mode: string, tag: Name, pick: nat, buildable: bool)
      returns (served: Option<Entry>)
      requires Valid()
      modifies this`cache, this`made
      ensures Valid() && served == Answer(old(Now()), Route(network, mode, tag, pick, buildable))
      ensures Now() == Cached(old(Now()), served)
    {
      RouteAnswer(Now(), network, mode, tag, pick, buildable);
      if !Resolvable(rows, tag) {
        return None;
      }
      var r := Get(network, mode, tag, pick, buildable);
      served := if r.Ok? && r.value.Proxy? then Some(r.value.entry) else None;
    }

    /** The operations that change a table or close proxies. */
    method Change(op: Op)
      requires Valid() && !op.Dial? && !op.Route? && !op.Shutdown?
      modifies this
      ensures Valid() && Now() == After(old(Now()), op)
    {
      match op {
        case SaveNode(node) => var _ := Save(node);
        case ReplaceGroup(group, points, ids) =>
          if |ids| == |points| && forall i :: 0 <= i < |ids| ==> ids[i] !in cache {
            var _ := ReplaceRemote(group, points, ids);
          }
        case RemoveNode(id) => var _ := Remove(id);
        case Select(id) => var _ := Use(id);
        case AddTagRow(tag, kind, target) => var _ := Tag(tag, kind, target);
        case RemoveTag(tag) => var _ := DeleteTag(tag);
        case CloseGroup(members) => CloseSet(members);
        case Drop(id) => DeleteProxy(id);
      }
    }

    /** Over every run: each operation finds and leaves the tables and the cache as they should be and
        hands out the proxy it should, and that proxy was built from the node stored at that moment,
        under the id asked for or one that was in use. */
    method Serve(ops: seq<Op>) returns (served: seq<Option<Entry>>, ghost states: seq<State>)
      requires Valid()
      modifies this
      ensures Valid() && |served| == |ops| && |states| == |ops| + 1
      ensures states[0] == old(Now()) && states[|ops|] == Now()
      ensures forall i :: 0 <= i < |ops| ==> Took(states[i], ops[i], served[i], states[i + 1])
    {
      served, states := [], [Now()];
      for i := 0 to |ops|
        invariant Valid() && |served| == i && |states| == i + 1 && states[0] == old(Now()) && states[i] == Now()
        invariant forall j :: 0 <= j < i ==> Took(states[j], ops[j], served[j], states[j + 1])
      {
        var entry := Step(ops[i]);
        served, states := served + [entry], states + [Now()];
      }
    }
  }

  /** An operation that took `s` to `t`, and what it handed out. */
  ghost predicate Took(s: State, op: Op, served: Option<Entry>, t: State) {
    t == After(s, op) && served == Answer(s, op) && (served.Some? ==> Right(op, served.value, t))
  }

  lemma {:induction false} RunIsAfterAll(ops: seq<Op>, served: seq<Option<Entry>>, states: seq<State>)
    requires |served| == |ops| && |states| == |ops| + 1
    requires forall i :: 0 <= i < |ops| ==> Took(states[i], ops[i], served[i], states[i + 1])
    ensures states[|ops|] == AfterAll(states[0], ops)
  {
    if ops == [] {
    } else {
      var n := |ops| - 1;
      RunIsAfterAll(ops[..n], served[..n], states[..|ops|]);
      assert Took(states[n], ops[n], served[n], states[n + 1]);
    }
  }

  function Given(r: Result<Entry>): Option<Entry> {
    if r.Ok? then Some(r.value) else None
  }

  /** The proxy handed out for an operation is the right one. */
  ghost predicate Right(op: Op, e: Entry, after: State) {
    && e.node.id in after.nodes && e.node == after.nodes[e.node.id]
    && e.node.id in after.cache && after.cache[e.node.id] == e
    && (if op.Dial? then e.node.id == op.id
        else op.Route? && e.node.id in UsingIDs(after.tcp, after.udp, after.rows))
  }

  lemma RouteAnswer(s: State, network: string, mode: string, tag: Name, pick: nat, buildable: bool)
    ensures Resolvable(s.rows, tag) <==> NoCycle(s.rows, tag)
    ensures Answer(s, Route(network, mode, tag, pick, buildable))
            == if NoCycle(s.rows, tag) then ProxyFor(s, network, mode, tag, pick, buildable) else None
  {
    ResolvableIff(s.rows, tag);
  }

  /** Without a tag, and unless the mode is direct or block, the proxy is that of the node selected for
      networks that start with tcp or with udp. */
  lemma SelectedByNetwork(s: State, network: string, mode: string, pick: nat, buildable: bool)
    requires NoCycle(s.rows, []) && mode != "direct" && mode != "block"
    ensures ProxyFor(s, network, mode, [], pick, buildable)
            == if "tcp" <= network then ProxyOf(s, s.tcp, buildable)
               else if "udp" <= network then ProxyOf(s, s.udp, buildable)
               else None
  {
    assert "tcp" <= network ==> network[..3] == "tcp";
    assert "udp" <= network ==> network[..3] == "udp";
  }

  lemma ProxyIsRight(s: State, id: Name, buildable: bool)
    requires UpToDate(s.nodes, s.cache) && ProxyOf(s, id, buildable).Some?
    ensures var e := ProxyOf(s, id, buildable).value;
            e.node.id == id && e.node == s.nodes[id] && id in Cached(s, Some(e)).cache
            && Cached(s, Some(e)).cache[id] == e
  {
  }

  lemma AnswerIsRight(s: State, op: Op)
    requires UpToDate(s.nodes, s.cache) && Answer(s, op).Some?
    ensures Right(op, Answer(s, op).value, After(s, op))
  {
    match op
    case Dial(id, buildable) => ProxyIsRight(s, id, buildable);
    case Route(network, mode, tag, pick, buildable) =>
      ResolvableIff(s.rows, tag);
      var id := Resolved(s.rows, tag, pick);
      if tag != [] && ProxyOf(s, id, buildable).Some? {
        ResolvedIsNode(s.rows, tag, pick);
        ProxyIsRight(s, id, buildable);
      } else {
        ProxyIsRight(s, if NetworkOf(network).value then s.tcp else s.udp, buildable);
      }
  }

  /** Once closed, nothing changes any more and nothing is handed out. */
  lemma {:induction false} ClosedForGood(s: State, ops: seq<Op>)
    requires s.closed
    ensures AfterAll(s, ops) == s && forall op :: Answer(s, op).None?
  {
    if ops == [] {
    } else {
      ClosedForGood(s, ops[..|ops| - 1]);
    }
  }

  // ---- Loading and caching are two steps -----------------------------------------------

  /** Caching a proxy of a node loaded earlier leaves the cache up to date exactly when the node is
      gone or still the same. */
  lemma CachedLateIff(nodes: Nodes, cache: Cache, id: Name, serial: nat, loaded: Node)
    requires UpToDate(nodes, cache) && id !in cache
    ensures UpToDate(nodes, cache[id := Entry(serial, loaded)]) <==> (id in nodes ==> nodes[id] == loaded)
  {
    var after := cache[id := Entry(serial, loaded)];
    if UpToDate(nodes, after) {
      assert id in after;
    }
  }

  /** A dial whose node is loaded, then any operations of others, then the proxy is cached: the cache
      stays up to date exactly when no proxy was made, or the node is gone or still the same.  One is
      made exactly when the runtime is still open and nobody cached one of that id meanwhile. */
  method DialAcross(rt: Runtime, id: Name, ops: seq<Op>, buildable: bool) returns (r: Result<Entry>)
    requires rt.Valid() && !rt.closed && id in rt.nodes
    modifies rt
    ensures var s := AfterAll(old(rt.Now()), ops);
            var makes := id != [] && !s.closed && id !in s.cache && buildable;
            && rt.Now() == (if makes then Cached(s, Some(Entry(s.made, old(rt.nodes[id])))) else s)
            && (r.Ok? <==> id != [] && !s.closed && (id in s.cache || buildable))
            && (r.Ok? ==> r.value == if makes then Entry(s.made, old(rt.nodes[id])) else s.cache[id])
            && (UpToDate(rt.nodes, rt.cache) <==> (makes && id in s.nodes ==> s.nodes[id] == old(rt.nodes[id])))
    ensures Accounted(rt.cache, rt.made, rt.shut)
  {
    var loaded := rt.nodes[id];
    var served, states := rt.Serve(ops);
    RunIsAfterAll(ops, served, states);
    ghost var before, serial := rt.cache, rt.made;
    r := rt.LoadOrCreate(id, loaded, buildable);
    if r.Ok? && id !in before {
      CachedLateIff(rt.nodes, before, id, serial, loaded);
    }
  }

  /** The shortest case: the node is saved with other settings in between, and the proxy of the old
      ones is cached, and served from then on. */
  method SaveInBetween(before: Node, after: Node) returns (rt: Runtime, served: Entry)
    requires WellFormed(Manual(before)) && WellFormed(Manual(after))
    requires before.id == after.id && before.settings != after.settings
    ensures after.id in rt.nodes && rt.nodes[after.id].settings == after.settings
    ensures served.node.settings == before.settings
  {
    rt := new Runtime();
    var _ := rt.Save(before);
    var loaded := rt.nodes[before.id];
    var _ := rt.Save(after);
    var _ := rt.LoadOrCreate(before.id, loaded, true);
    var r := rt.LoadOrCreate(after.id, rt.nodes[after.id], true);
    served := r.value;
  }

  // ---- Members of Sets in use -----------------------------------------------------------

  /** A way from a Set through its members and theirs. */
  ghost predicate DialsAlong(nodes: Nodes, path: seq<Name>) {
    |path| >= 2 && forall i :: 0 <= i < |path| - 1 ==> path[i] in nodes && path[i + 1] in nodes[path[i]].members
  }

  /** `m` is cached, and a Set in use dials through it. */
  ghost predicate Needed(nodes: Nodes, cache: Cache, using: set<Name>, m: Name) {
    m in cache && exists path :: DialsAlong(nodes, path) && path[0] in using && path[|path| - 1] == m
  }

  /** Along a path from a Set in use, everything is in use if the members of all Sets in use are. */
  lemma {:induction false} PathInUse(nodes: Nodes, using: set<Name>, path: seq<Name>)
    requires forall g, m :: g in using && g in nodes && m in nodes[g].members ==> m in using
    requires DialsAlong(nodes, path) && path[0] in using
    ensures path[|path| - 1] in using
    decreases |path|
  {
    assert path[1] in nodes[path[0]].members;
    if |path| == 2 {
    } else {
      PathInUse(nodes, using, path[1..]);
    }
  }

  /** Whatever is cached, clearing idle proxies keeps the ones that a Set in use dials through, at any
      depth, exactly when the members of every Set in use are themselves in use. */
  lemma KeepsMembersIff(nodes: Nodes, tcp: Name, udp: Name, rows: Table)
    ensures var using := UsingIDs(tcp, udp, rows);
            (forall cache, m :: Needed(nodes, cache, using, m) ==> m in Used(cache, tcp, udp, rows))
            <==> (forall g, m :: g in using && g in nodes && m in nodes[g].members ==> m in using)
  {
    var using := UsingIDs(tcp, udp, rows);
    if forall g, m :: g in using && g in nodes && m in nodes[g].members ==> m in using {
      forall cache, m | Needed(nodes, cache, using, m) ensures m in Used(cache, tcp, udp, rows) {
        var path :| DialsAlong(nodes, path) && path[0] in using && path[|path| - 1] == m;
        PathInUse(nodes, using, path);
      }
    } else {
      var g, m :| g in using && g in nodes && m in nodes[g].members && m !in using;
      var cache: Cache := map[m := Entry(0, nodes[g])];
      assert DialsAlong(nodes, [g, m]) && [g, m][1] == m;
      assert Needed(nodes, cache, using, m) && m !in Used(cache, tcp, udp, rows);
    }
  }

  /** A Set that is selected, and one of its members. */
  method SelectedSet(group: Node, member: Node) returns (rt: Runtime)
    requires WellFormed(Manual(group)) && WellFormed(Manual(member)) && group.id != member.id
    ensures fresh(rt) && rt.Valid()
    ensures var nodes := map[group.id := Manual(group)][member.id := Manual(member)];
            rt.Now() == State(nodes, group.id, group.id, [], map[], false, 0)
  {
    rt := new Runtime();
    var _ := rt.Save(group);
    var _ := rt.Save(member);
    var _ := rt.Use(group.id);
  }

  /** Both are dialed. */
  method DialBoth(rt: Runtime, group: Name, member: Name) returns (serial: nat)
    requires rt.Valid() && !rt.closed && group in rt.nodes && member in rt.nodes && group != [] && member != []
    modifies rt`cache, rt`made
    ensures rt.Valid() && group in rt.cache && member in rt.cache && rt.cache[member].serial == serial < rt.made
  {
    var _ := rt.GetDialerByID(group, true);
    var r := rt.GetDialerByID(member, true);
    serial := r.value.serial;
  }

  lemma DroppedIsShut(before: Cache, after: Cache, made: nat, shut: seq<nat>, id: Name)
    requires id in before && id !in after && before[id].serial < made && Accounted(after, made, shut)
    requires forall k :: k in after ==> k in before && after[k] == before[k]
    requires forall a, b :: a in before && b in before && a != b ==> before[a].serial != before[b].serial
    ensures before[id].serial in shut
  {
    assert !IsCached(after, before[id].serial);
  }

  lemma TagAfter(s: State, tag: Name, id: Name)
    requires !s.closed && s.rows == []
    ensures After(s, AddTagRow(tag, "node", id)) == Cleared(s.(rows := [Row(tag, ToNode, id)]))
  {
  }

  /** A tag for the Set is added: the proxy that nothing refers to is closed. */
  method TagTheSet(rt: Runtime, group: Name, member: Name, tag: Name)
    requires rt.Valid() && !rt.closed && rt.rows == [] && rt.tcp == rt.udp == group
    requires group != [] && group != member && group in rt.cache && member in rt.cache
    modifies rt
    ensures rt.Valid() && rt.nodes == old(rt.nodes) && group in rt.cache && member !in rt.cache
    ensures old(rt.cache[member].serial) in rt.shut && group in UsingIDs(rt.tcp, rt.udp, rt.rows)
  {
    ghost var before := rt.cache;
    TagAfter(rt.Now(), tag, group);
    var _ := rt.Tag(tag, "node", group);
    DroppedIsShut(before, rt.cache, rt.made, rt.shut, member);
  }

  /** A Set is selected, the Set and a member are dialed, and then a tag is added: the member's proxy
      is closed under the Set. */
  method MemberIsDropped(group: Node, member: Node, tag: Name) returns (rt: Runtime, dropped: nat)
    requires WellFormed(Manual(group)) && WellFormed(Manual(member)) && group.id != member.id
    requires member.id in group.members
    ensures rt.Valid() && group.id in rt.cache && member.id in rt.nodes && member.id !in rt.cache
    ensures dropped in rt.shut
    ensures DialsAlong(rt.nodes, [group.id, member.id]) && group.id in UsingIDs(rt.tcp, rt.udp, rt.rows)
  {
    rt := SelectedSet(group, member);
    dropped := DialBoth(rt, group.id, member.id);
    TagTheSet(rt, group.id, member.id, tag);
  }

  // ---- Replacing a group is two steps ---------------------------------------------------

  /** The id a point is stored under: its own, or the new one if it has none. */
  function GivenID(points: seq<Node>, ids: seq<Name>, i: nat): Name
    requires |ids| == |points| && i < |points|
  {
    if points[i].id != [] then points[i].id else ids[i]
  }

  /** `id` is written by a replacement. */
  ghost predicate Written(points: seq<Node>, ids: seq<Name>, id: Name)
    requires |ids| == |points|
  {
    exists i: nat :: i < |points| && GivenID(points, ids, i) == id
  }

  ghost predicate LastGiven(points: seq<Node>, ids: seq<Name>, id: Name, i: nat)
    requires |ids| == |points|
  {
    i < |points| && GivenID(points, ids, i) == id && forall j: nat :: i < j < |points| ==> GivenID(points, ids, j) != id
  }

  ghost predicate Acceptable(points: seq<Node>, ids: seq<Name>)
    requires |ids| == |points|
  {
    forall i: nat :: i < |points| ==> GivenID(points, ids, i) != [] && points[i].name != ""
  }

  /** The given points are stored, the last of an id winning, as remote nodes of the group; of the
      others exactly those stay that were not remote nodes of the group. */
  ghost predicate Replaced(before: Nodes, after: Nodes, group: string, points: seq<Node>, ids: seq<Name>)
    requires |ids| == |points|
  {
    && (forall id, i: nat :: LastGiven(points, ids, id, i) ==>
          && id in after
          && after[id] == Node(id, points[i].name, group, "remote", points[i].settings, points[i].members))
    && (forall id :: !Written(points, ids, id) ==>
          && (id in after <==> id in before && !(before[id].group == group && before[id].origin == "remote"))
          && (id in after ==> after[id] == before[id]))
  }

  lemma AcceptableIff(group: string, points: seq<Node>, ids: seq<Name>)
    requires |ids| == |points|
    ensures AllWellFormed(group, points, ids) <==> Acceptable(points, ids)
  {
    forall i: nat | i < |points|
      ensures WellFormed(Remote(points[i], group, ids[i])) <==> GivenID(points, ids, i) != [] && points[i].name != ""
    {
    }
  }

  lemma {:induction false} StoredAt(kept: Nodes, group: string, points: seq<Node>, ids: seq<Name>, id: Name)
    requires |ids| == |points|
    ensures id in Stored(kept, group, points, ids) <==> id in kept || Written(points, ids, id)
    ensures Written(points, ids, id) ==> Stored(kept, group, points, ids)[id].id == id
    ensures id in kept && !Written(points, ids, id) ==> Stored(kept, group, points, ids)[id] == kept[id]
  {
    if points == [] {
    } else {
      var n := |points| - 1;
      StoredAt(kept, group, points[..n], ids[..n], id);
      WrittenSnoc(points, ids, id);
    }
  }

  lemma WrittenSnoc(points: seq<Node>, ids: seq<Name>, id: Name)
    requires |ids| == |points| > 0
    ensures var n := |points| - 1;
            Written(points, ids, id) <==> Written(points[..n], ids[..n], id) || GivenID(points, ids, n) == id
  {
    var n := |points| - 1;
    if Written(points[..n], ids[..n], id) {
      var i: nat :| i < n && GivenID(points[..n], ids[..n], i) == id;
      assert GivenID(points, ids, i) == id;
    }
    if i: nat :| i < n && GivenID(points, ids, i) == id {
      assert GivenID(points[..n], ids[..n], i) == id;
    }
  }

  lemma {:induction false} StoredLast(kept: Nodes, group: string, points: seq<Node>, ids: seq<Name>, id: Name, i: nat)
    requires |ids| == |points| && LastGiven(points, ids, id, i)
    ensures var t := Stored(kept, group, points, ids);
            && id in t
            && t[id] == Node(id, points[i].name, group, "remote", points[i].settings, points[i].members)
    decreases |points|
  {
    var n := |points| - 1;
    if i == n {
    } else {
      assert GivenID(points, ids, n) != id;
      assert forall j: nat :: j < n ==> GivenID(points[..n], ids[..n], j) == GivenID(points, ids, j);
      StoredLast(kept, group, points[..n], ids[..n], id, i);
    }
  }

  lemma StoredIsReplaced(nodes: Nodes, group: string, points: seq<Node>, ids: seq<Name>)
    requires |ids| == |points|
    ensures Replaced(nodes, Stored(Kept(nodes, group), group, points, ids), group, points, ids)
    ensures AllWellFormed(group, points, ids) <==> Acceptable(points, ids)
  {
    AcceptableIff(group, points, ids);
    var t := Stored(Kept(nodes, group), group, points, ids);
    forall id, i: nat | LastGiven(points, ids, id, i)
      ensures id in t && t[id] == Node(id, points[i].name, group, "remote", points[i].settings, points[i].members)
    {
      StoredLast(Kept(nodes, group), group, points, ids, id, i);
    }
    forall id | !Written(points, ids, id)
      ensures id in t <==> id in nodes && !(nodes[id].group == group && nodes[id].origin == "remote")
      ensures id in t ==> t[id] == nodes[id]
    {
      StoredAt(Kept(nodes, group), group, points, ids, id);
    }
  }

  /** A replacement leaves a cache up to date exactly when each cached proxy whose node it writes was
      built from just that node. */
  lemma ReplacedUpToDateIff(nodes: Nodes, cache: Cache, group: string, points: seq<Node>, ids: seq<Name>)
    requires UpToDate(nodes, cache) && |ids| == |points|
    ensures var t := Stored(Kept(nodes, group), group, points, ids);
            UpToDate(t, cache)
            <==> (forall id :: id in cache && Written(points, ids, id) ==> id in t && cache[id].node == t[id])
  {
    var t := Stored(Kept(nodes, group), group, points, ids);
    forall id ensures id in t ==> t[id].id == id {
      StoredAt(Kept(nodes, group), group, points, ids, id);
    }
    forall id | id in cache
      ensures (id in t ==> cache[id].node == t[id])
              <==> (Written(points, ids, id) ==> id in t && cache[id].node == t[id])
    {
      StoredAt(Kept(nodes, group), group, points, ids, id);
    }
  }

  lemma StoredUpToDate(nodes: Nodes, cache: Cache, group: string, points: seq<Node>, ids: seq<Name>)
    requires UpToDate(nodes, cache) && |ids| == |points| && cache.Keys !! GivenIDs(points)
    requires forall i :: 0 <= i < |ids| ==> ids[i] !in cache
    ensures UpToDate(Stored(Kept(nodes, group), group, points, ids), cache)
  {
    forall i: nat | i < |points| ensures GivenID(points, ids, i) !in cache {
      assert points[i].id != [] ==> points[i].id in GivenIDs(points);
    }
    ReplacedUpToDateIff(nodes, cache, group, points, ids);
  }

  /** The proxies of the given ids are closed, then others operate, then the group is replaced: the
      cache stays up to date exactly when nobody cached a proxy of an older node for an id in use. */
  method ReplaceAcross(rt: Runtime, group: string, points: seq<Node>, ids: seq<Name>, ops: seq<Op>)
    returns (r: Result<()>)
    requires rt.Valid() && |ids| == |points|
    modifies rt
    ensures var s := AfterAll(old(rt.Now()).(cache := old(rt.cache) - GivenIDs(points)), ops);
            && (r.Ok? <==> !s.closed && Acceptable(points, ids))
            && (r.Ok? ==> Replaced(s.nodes, rt.nodes, group, points, ids))
            && rt.Now() == (if r.Ok? then Cleared(s.(nodes := Stored(Kept(s.nodes, group), group, points, ids))) else s)
            && (UpToDate(rt.nodes, rt.cache)
                <==> (r.Ok? ==> forall id :: id in rt.cache && Written(points, ids, id) ==>
                        id in rt.nodes && s.cache[id].node == rt.nodes[id]))
    ensures Accounted(rt.cache, rt.made, rt.shut)
  {
    rt.DeleteProxies(GivenIDs(points));
    ghost var dropped := rt.Now();
    assert dropped == old(rt.Now()).(cache := old(rt.cache) - GivenIDs(points));
    var served, states := rt.Serve(ops);
    RunIsAfterAll(ops, served, states);
    ghost var nodes, cache := rt.nodes, rt.cache;
    StoredIsReplaced(nodes, group, points, ids);
    r := rt.ReplaceRows(group, points, ids);
    if r.Ok? {
      ReplacedUpToDateIff(nodes, rt.cache, group, points, ids);
    }
  }

  /** A selected node. */
  method SelectedNode(node: Node) returns (rt: Runtime)
    requires WellFormed(Manual(node))
    ensures fresh(rt) && rt.Valid()
    ensures rt.Now() == State(map[node.id := Manual(node)], node.id, node.id, [], map[], false, 0)
  {
    rt := new Runtime();
    var _ := rt.Save(node);
    var _ := rt.Use(node.id);
  }

  /** The shortest case: the node is dialed in between, and its proxy keeps the old settings. */
  method DialInBetween(node: Node, settings: nat) returns (rt: Runtime)
    requires WellFormed(Manual(node)) && node.settings != settings
    ensures node.id in rt.nodes && rt.nodes[node.id].settings == settings
    ensures node.id in rt.cache && rt.cache[node.id].node.settings == node.settings
  {
    rt := SelectedNode(node);
    rt.DeleteProxies({node.id});
    var _ := rt.GetDialerByID(node.id, true);
    var renewed := node.(settings := settings);
    OneStored(Kept(rt.nodes, node.group), renewed);
    var _ := rt.ReplaceRows(node.group, [renewed], [[]]);
  }

  lemma OneStored(kept: Nodes, node: Node)
    requires node.id != []
    ensures Stored(kept, node.group, [node], [[]]) == kept[node.id := Remote(node, node.group, [])]
  {
    var ids: seq<Name> := [[]];
    assert [node][..0] == [] && ids[..0] == [];
  }

  function Manual(n: Node): Node {
    n.(origin := "manual")
  }

  function Remote(n: Node, group: string, id: Name): Node {
    n.(group := group, origin := "remote", id := if n.id == [] then id else n.id)
  }

  /** Without the remote nodes of a group. */
  function Kept(nodes: Nodes, group: string): Nodes {
    map id | id in nodes && !(nodes[id].group == group && nodes[id].origin == "remote") :: nodes[id]
  }

  function Stored(nodes: Nodes, group: string, points: seq<Node>, ids: seq<Name>): Nodes
    requires |points| == |ids|
  {
    if points == [] then nodes
    else
      var i := |points| - 1;
      var n := Remote(points[i], group, ids[i]);
      Stored(nodes, group, points[..i], ids[..i])[n.id := n]
  }
}
