/** Next-hop choice between clusters, and what it means for a message that is relayed by
    several nodes, each with its own and possibly outdated cache. */
module Routing {
  import opened Basics
  import opened Addr
  import opened Membership
  import opened NodeCache

  /** getHarbor: the target address picks among the available harbors of a cluster. */
  function GetHarbor(c: Cache, cluster: nat, m: LogicAddr): Option<NodeRef> {
    var harbors := Bucket(c.harbors, cluster);
    if harbors == [] then None else Some(harbors[m % |harbors|])
  }

  /** getNodeByLogicAddr: direct inside a cluster, through harbors between clusters. */
  function NextHop(c: Cache, to: LogicAddr): Option<NodeRef> {
    if Cluster(to) == Cluster(c.local) then
      if to in c.all then Some(c.all[to].ref) else None
    else if IsHarbor(c.local) then GetHarbor(c, Cluster(to), to)
    else GetHarbor(c, Cluster(c.local), to)
  }

  /** How far a message at `cur` is from its target. */
  function Rank(cur: LogicAddr, to: LogicAddr): nat {
    if cur == to then 0
    else if Cluster(cur) == Cluster(to) then 1
    else if IsHarbor(cur) then 2
    else 3
  }

  /** Every hop brings a message strictly closer, whatever the cache knows. */
  lemma HopDescends(c: Cache, to: LogicAddr)
    requires Coherent(c) && c.local != to && NextHop(c, to).Some?
    ensures Rank(NextHop(c, to).value.addr, to) < Rank(c.local, to)
  {
    var n := NextHop(c, to).value;
    if Cluster(to) != Cluster(c.local) {
      var cluster := if IsHarbor(c.local) then Cluster(to) else Cluster(c.local);
      assert n in Entries(c, true, cluster);
    }
  }

  /** A journey: `caches[i]` is the cache node `path[i]` consulted when it forwarded the message.
      The caches may disagree, and may have changed between hops. */
  ghost predicate Journey(path: seq<LogicAddr>, caches: seq<Cache>, to: LogicAddr) {
    && |path| == |caches| + 1
    && forall i :: 0 <= i < |caches| ==>
         && Coherent(caches[i]) && caches[i].local == path[i] && path[i] != to
         && NextHop(caches[i], to).Some? && path[i + 1] == NextHop(caches[i], to).value.addr
  }

  lemma {:induction false} RanksDescend(path: seq<LogicAddr>, caches: seq<Cache>, to: LogicAddr, i: nat, j: nat)
    requires Journey(path, caches, to) && i <= j < |path|
    ensures Rank(path[j], to) + (j - i) <= Rank(path[i], to)
    decreases j
  {
    if i < j {
      RanksDescend(path, caches, to, i, j - 1);
      HopDescends(caches[j - 1], to);
    }
  }

  /** No journey takes more than three hops or visits a node twice, and only its last node can
      be the target. */
  lemma JourneyBounded(path: seq<LogicAddr>, caches: seq<Cache>, to: LogicAddr)
    requires Journey(path, caches, to)
    ensures |caches| <= Rank(path[0], to) <= 3
    ensures forall i, j :: 0 <= i < j < |path| ==> path[i] != path[j]
    ensures |caches| == Rank(path[0], to) ==> path[|path| - 1] == to
  {
    RanksDescend(path, caches, to, 0, |path| - 1);
    forall i, j | 0 <= i < j < |path| ensures path[i] != path[j] {
      RanksDescend(path, caches, to, i, j);
    }
  }

  // ---- When there is a next hop ----

  /** The cluster whose harbors node `local` uses on the way to another cluster. */
  function Via(local: LogicAddr, to: LogicAddr): nat {
    if IsHarbor(local) then Cluster(to) else Cluster(local)
  }

  /** The view has an available harbor of the cluster, exported or not. */
  predicate HarborIn(v: View, h: LogicAddr, cluster: nat) {
    h in v && IsHarbor(h) && Cluster(h) == cluster && v[h].available
  }

  /** What a node must know to bring a message closer: the target itself inside its cluster, an
      available harbor otherwise. */
  ghost predicate Served(local: LogicAddr, v: View, to: LogicAddr) {
    if Cluster(to) == Cluster(local) then to in v else exists h :: HarborIn(v, h, Via(local, to))
  }

  lemma SeesHarbors(local: LogicAddr, v: View, h: LogicAddr, to: LogicAddr)
    requires Keyed(v) && HarborIn(v, h, Via(local, to))
    ensures Visible(local, v[h])
  {
    assert v[h].addr == h;
  }

  lemma HarborListed(c: Cache, v: View, h: LogicAddr, to: LogicAddr)
    requires Coherent(c) && Mirrors(c, v) && Keyed(v) && Cluster(to) != Cluster(c.local)
    ensures Lists(c, true, Via(c.local, to), h) <==> HarborIn(v, h, Via(c.local, to))
  {
    BucketIsView(c, v, true, Via(c.local, to));
    if HarborIn(v, h, Via(c.local, to)) {
      SeesHarbors(c.local, v, h, to);
    }
  }

  /** There is a next hop if and only if the node is served: inside the cluster it is the target,
      otherwise it is one of the available harbors of the cluster to be used. */
  lemma NextHopExact(c: Cache, v: View, to: LogicAddr)
    requires Coherent(c) && Mirrors(c, v) && Keyed(v)
    ensures NextHop(c, to).Some? <==> Served(c.local, v, to)
    ensures NextHop(c, to).Some? ==>
              var n := NextHop(c, to).value.addr;
              if Cluster(to) == Cluster(c.local) then n == to else HarborIn(v, n, Via(c.local, to))
  {
    if Cluster(to) == Cluster(c.local) {
      assert Mirrored(c, v, to);
    } else {
      var bucket := Entries(c, true, Via(c.local, to));
      assert bucket == Bucket(c.harbors, Via(c.local, to));
      if bucket != [] {
        var r := bucket[to % |bucket|];
        assert r in bucket && Lists(c, true, Via(c.local, to), r.addr);
        HarborListed(c, v, r.addr, to);
      } else {
        forall h ensures !HarborIn(v, h, Via(c.local, to)) {
          HarborListed(c, v, h, to);
        }
      }
    }
  }

  /** Targets are spread over the harbors of a cluster: two of them use the same harbor exactly when
      their addresses agree modulo the number of harbors. */
  lemma HarborsSpread(c: Cache, cluster: nat, m: LogicAddr, m': LogicAddr)
    requires Coherent(c) && Entries(c, true, cluster) != []
    ensures var n := |Entries(c, true, cluster)|;
            GetHarbor(c, cluster, m) == GetHarbor(c, cluster, m') <==> m % n == m' % n
  {
    assert NoDup(Entries(c, true, cluster));
  }

  // ---- Whole routes ----

  /** The cache that a node consults when it holds the message after so many hops; caches differ
      between nodes and change over time. */
  type World = (nat, LogicAddr) -> Cache

  /** The nodes a message passes, for at most `fuel` hops. */
  function Route(world: World, hop: nat, cur: LogicAddr, to: LogicAddr, fuel: nat): (path: seq<LogicAddr>)
    ensures path != [] && path[0] == cur && |path| <= fuel + 1
    decreases fuel
  {
    if fuel == 0 || cur == to || NextHop(world(hop, cur), to).None? then [cur]
    else [cur] + Route(world, hop + 1, NextHop(world(hop, cur), to).value.addr, to, fuel - 1)
  }

  /** Every cache belongs to its node, has an exact index and mirrors the node's view. */
  ghost predicate Sound(world: World, views: (nat, LogicAddr) -> View) {
    forall i: nat, x: LogicAddr ::
      Coherent(world(i, x)) && world(i, x).local == x && Keyed(views(i, x)) && Mirrors(world(i, x), views(i, x))
  }

  predicate Reaches(path: seq<LogicAddr>, to: LogicAddr) {
    path != [] && path[|path| - 1] == to
  }

  lemma ReachesStep(cur: LogicAddr, rest: seq<LogicAddr>, to: LogicAddr)
    requires rest != []
    ensures Reaches([cur] + rest, to) <==> Reaches(rest, to)
  {
  }

  /** Every node on the path, the target aside, was served when it held the message. */
  ghost predicate ServedOnTheWay(views: (nat, LogicAddr) -> View, hop: nat, path: seq<LogicAddr>, to: LogicAddr) {
    forall j :: 0 <= j < |path| && path[j] != to ==> Served(path[j], views(hop + j, path[j]), to)
  }

  /** A message reaches its target, in as many hops as the rank of its start allows, if and only if
      every node on the way is served. */
  lemma {:induction false} RouteExact(world: World, views: (nat, LogicAddr) -> View, hop: nat,
                                      cur: LogicAddr, to: LogicAddr, fuel: nat)
    requires Sound(world, views) && Rank(cur, to) <= fuel
    ensures var path := Route(world, hop, cur, to, fuel);
            Reaches(path, to) <==> ServedOnTheWay(views, hop, path, to)
    decreases fuel
  {
    HopServed(world, views, hop, cur, to);
    if cur == to || NextHop(world(hop, cur), to).None? {
      ServedAlone(views, hop, cur, to);
    } else {
      var next := NextHop(world(hop, cur), to).value.addr;
      var rest := Route(world, hop + 1, next, to, fuel - 1);
      RouteExact(world, views, hop + 1, next, to, fuel - 1);
      assert Route(world, hop, cur, to, fuel) == [cur] + rest;
      ReachesStep(cur, rest, to);
      ServedStep(views, hop, cur, rest, to);
    }
  }

  lemma HopServed(world: World, views: (nat, LogicAddr) -> View, hop: nat, cur: LogicAddr, to: LogicAddr)
    requires Sound(world, views)
    ensures NextHop(world(hop, cur), to).Some? <==> Served(cur, views(hop, cur), to)
    ensures cur != to && NextHop(world(hop, cur), to).Some? ==>
              Rank(NextHop(world(hop, cur), to).value.addr, to) < Rank(cur, to)
  {
    var c, v := world(hop, cur), views(hop, cur);
    assert Coherent(c) && c.local == cur && Keyed(v) && Mirrors(c, v);
    NextHopExact(c, v, to);
    if cur != to && NextHop(c, to).Some? {
      HopDescends(c, to);
    }
  }

  lemma ServedAlone(views: (nat, LogicAddr) -> View, hop: nat, cur: LogicAddr, to: LogicAddr)
    ensures ServedOnTheWay(views, hop, [cur], to) <==> cur == to || Served(cur, views(hop, cur), to)
  {
    var path := [cur];
    if ServedOnTheWay(views, hop, path, to) && cur != to {
      assert path[0] == cur;
    }
  }

  lemma ServedStep(views: (nat, LogicAddr) -> View, hop: nat, cur: LogicAddr, rest: seq<LogicAddr>, to: LogicAddr)
    requires cur != to && Served(cur, views(hop, cur), to)
    ensures ServedOnTheWay(views, hop, [cur] + rest, to) <==> ServedOnTheWay(views, hop + 1, rest, to)
  {
    var path := [cur] + rest;
    if ServedOnTheWay(views, hop, path, to) {
      forall j | 0 <= j < |rest| && rest[j] != to ensures Served(rest[j], views(hop + 1 + j, rest[j]), to) {
        assert path[j + 1] == rest[j];
      }
    }
    if ServedOnTheWay(views, hop + 1, rest, to) {
      forall j | 0 <= j < |path| && path[j] != to ensures Served(path[j], views(hop + j, path[j]), to) {
        if j > 0 { assert path[j] == rest[j - 1]; }
      }
    }
  }

  /** Three hops are enough for any two nodes. */
  lemma ThreeHopsReach(world: World, views: (nat, LogicAddr) -> View, start: LogicAddr, to: LogicAddr)
    requires Sound(world, views)
    ensures var path := Route(world, 0, start, to, 3);
            Reaches(path, to) <==> ServedOnTheWay(views, 0, path, to)
  {
    RouteExact(world, views, 0, start, to, 3);
  }

  // ---- Undeliverable requests ----

  datatype Kind = Request(oneway: bool) | Response | Other

  datatype Flight = Flight(cur: LogicAddr, from: LogicAddr, to: LogicAddr, kind: Kind)

  /** onRelayMessage at a node that is not the target: forward, or answer a two-way request that
      cannot be routed with an error response, or drop. */
  function Relay(c: Cache, f: Flight): Option<Flight> {
    match NextHop(c, f.to)
    case Some(n) => Some(f.(cur := n.addr))
    case None =>
      if f.kind.Request? && !f.kind.oneway then
        match NextHop(c, f.from)
        case Some(n) => Some(Flight(n.addr, c.local, f.from, Response))
        case None => None
      else None
  }

  function Budget(f: Flight): nat {
    Rank(f.cur, f.to) + if f.kind == Request(false) then 4 else 0
  }

  /** Relaying, error responses included, always comes to an end: the budget shrinks. */
  lemma RelayDescends(c: Cache, f: Flight)
    requires Coherent(c) && c.local == f.cur && f.cur != f.to && Relay(c, f).Some?
    ensures Budget(Relay(c, f).value) < Budget(f)
    ensures Relay(c, f).value.kind != f.kind ==>
              Relay(c, f).value.kind == Response && Relay(c, f).value.to == f.from && f.kind == Request(false)
  {
    if NextHop(c, f.to).Some? { HopDescends(c, f.to); }
  }

  /** What a relay does with a message it is not the target of: it passes it on unchanged when there
      is a next hop; otherwise it answers a two-way request, if its sender can be reached, with a
      response from itself; otherwise it drops the message. */
  lemma RelayExact(c: Cache, v: View, f: Flight)
    requires Coherent(c) && Mirrors(c, v) && Keyed(v)
    ensures Served(c.local, v, f.to) ==>
              NextHop(c, f.to).Some? && Relay(c, f) == Some(f.(cur := NextHop(c, f.to).value.addr))
    ensures !Served(c.local, v, f.to) && f.kind == Request(false) && Served(c.local, v, f.from) ==>
              NextHop(c, f.from).Some? && Relay(c, f) == Some(Flight(NextHop(c, f.from).value.addr, c.local, f.from, Response))
    ensures Relay(c, f).None? <==>
            !Served(c.local, v, f.to) && (f.kind == Request(false) ==> !Served(c.local, v, f.from))
  {
    NextHopExact(c, v, f.to);
    NextHopExact(c, v, f.from);
  }
}
