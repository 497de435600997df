/** A node's view of the cluster, built from membership deltas: all visible nodes, and two
    indexes that list the available ones by type (ordinary nodes) and by cluster (harbors). */
module NodeCache {
  import opened Basics
  import opened Addr
  import opened Membership

  /** Identity of a node object: two objects created for one address differ in their serial. */
  datatype NodeRef = NodeRef(addr: LogicAddr, serial: nat)

  datatype NodeInfo = NodeInfo(ref: NodeRef, net: NetAddr, available: bool)

  type Index = map<nat, seq<NodeRef>>

  datatype Cache = Cache(local: LogicAddr, all: map<LogicAddr, NodeInfo>, nodes: Index, harbors: Index, serial: nat)

  function Empty(local: LogicAddr): Cache {
    Cache(local, map[], map[], map[], 0)
  }

  predicate Visible(local: LogicAddr, m: Member) {
    || m.exported
    || Cluster(m.addr) == Cluster(local)
    || (IsHarbor(local) && IsHarbor(m.addr))
  }

  /** A member is visible to its own cluster; when exported, to everybody; and harbors, whose type is
      255, see each other. */
  lemma VisibleExact(local: LogicAddr, m: Member)
    ensures Visible(local, m) <==>
            || m.exported
            || local / 262144 == m.addr / 262144
            || (local / 1024 % 256 == 255 && m.addr / 1024 % 256 == 255)
  {
  }

  // ---- Swap removal ----

  predicate NoDup(s: seq<NodeRef>) {
    forall i, j :: 0 <= i < j < |s| ==> s[i] != s[j]
  }

  function FirstIndex(s: seq<NodeRef>, r: NodeRef): (k: nat)
    ensures k <= |s|
    ensures k < |s| ==> s[k] == r
    ensures forall i :: 0 <= i < k ==> s[i] != r
  {
    if s == [] || s[0] == r then 0 else 1 + FirstIndex(s[1..], r)
  }

  /** The last element takes the place of the removed one. */
  function SwapRemove(s: seq<NodeRef>, r: NodeRef): seq<NodeRef> {
    var k := FirstIndex(s, r);
    if k == |s| then s else s[k := s[|s| - 1]][..|s| - 1]
  }

  lemma SwapRemoveExact(s: seq<NodeRef>, r: NodeRef)
    requires NoDup(s)
    ensures NoDup(SwapRemove(s, r))
    ensures forall x :: x in SwapRemove(s, r) <==> x in s && x != r
  {
    var k := FirstIndex(s, r);
    if k < |s| {
      var t := SwapRemove(s, r);
      forall x | x in s && x != r ensures x in t {
        var i :| 0 <= i < |s| && s[i] == x;
        if i == |s| - 1 { assert t[k] == x; } else { assert t[i] == x; }
      }
    }
  }

  // ---- Index maintenance as functions ----

  function Bucket(index: Index, key: nat): seq<NodeRef> {
    if key in index then index[key] else []
  }

  function Push(index: Index, key: nat, r: NodeRef): Index {
    index[key := Bucket(index, key) + [r]]
  }

  function Pull(index: Index, key: nat, r: NodeRef): Index {
    if key in index then index[key := SwapRemove(index[key], r)] else index
  }

  /** An address belongs to one bucket: its cluster's for a harbor, its type's otherwise. */
  function Key(a: LogicAddr): nat {
    if IsHarbor(a) then Cluster(a) else Type(a)
  }

  function Link(c: Cache, r: NodeRef): Cache {
    if IsHarbor(r.addr) then c.(harbors := Push(c.harbors, Key(r.addr), r))
    else c.(nodes := Push(c.nodes, Key(r.addr), r))
  }

  function Unlink(c: Cache, r: NodeRef): Cache {
    if IsHarbor(r.addr) then c.(harbors := Pull(c.harbors, Key(r.addr), r))
    else c.(nodes := Pull(c.nodes, Key(r.addr), r))
  }

  // ---- One record of a delta ----

  /** `Stopped`: the local node was removed or re-addressed and processing ended.
      `Crashed`: the record names a visible node the cache does not know. */
  datatype Outcome = Running(cache: Cache) | Stopped(cache: Cache) | Crashed

  function AddOne(c: Cache, m: Member): Cache {
    if !Visible(c.local, m) then c
    else
      var r := NodeRef(m.addr, c.serial);
      var c' := c.(all := c.all[m.addr := NodeInfo(r, m.net, m.available)], serial := c.serial + 1);
      if m.available then Link(c', r) else c'
  }

  function RemoveOne(c: Cache, m: Member): Outcome {
    if !Visible(c.local, m) then Running(c)
    else if m.addr == c.local then Stopped(c)
    else if m.addr !in c.all then Crashed
    else
      var n := c.all[m.addr];
      var c' := c.(all := c.all - {m.addr});
      Running(if n.available then Unlink(c', n.ref) else c')
  }

  function UpdateOne(c: Cache, m: Member): Outcome {
    if !Visible(c.local, m) then Running(c)
    else if m.addr !in c.all then Crashed
    else
      var n := c.all[m.addr];
      if m.net != n.net && m.addr == c.local then Stopped(c)
      else
        var c' := c.(all := c.all[m.addr := NodeInfo(n.ref, m.net, m.available)]);
        Running(if m.available && !n.available then Link(c', n.ref)
                else if !m.available && n.available then Unlink(c', n.ref)
                else c')
  }

  function AddMany(c: Cache, ms: seq<Member>): Cache {
    if ms == [] then c else AddOne(AddMany(c, ms[..|ms| - 1]), ms[|ms| - 1])
  }

  function RemoveMany(c: Cache, ms: seq<Member>): Outcome {
    if ms == [] then Running(c)
    else
      var o := RemoveMany(c, ms[..|ms| - 1]);
      if o.Running? then RemoveOne(o.cache, ms[|ms| - 1]) else o
  }

  function UpdateMany(c: Cache, ms: seq<Member>): Outcome {
    if ms == [] then Running(c)
    else
      var o := UpdateMany(c, ms[..|ms| - 1]);
      if o.Running? then UpdateOne(o.cache, ms[|ms| - 1]) else o
  }

  function OnUpdate(c: Cache, info: MemberInfo): Outcome {
    var o := RemoveMany(AddMany(c, info.add), info.remove);
    if o.Running? then UpdateMany(o.cache, info.update) else o
  }

  // ---- The cache object ----

  datatype Verdict = Done | Stop | Panic

  class NodeCacheObject {
    const localAddr: LogicAddr
    var allnodes: map<LogicAddr, NodeInfo>
    var nodes: Index
    var harbors: Index
    var serial: nat

    constructor (localAddr: LogicAddr)
      ensures Now() == Empty(localAddr)
    {
      this.localAddr := localAddr;
      allnodes, nodes, harbors, serial := map[], map[], map[], 0;
    }

    ghost function Now(): Cache
      reads this
    {
      Cache(localAddr, allnodes, nodes, harbors, serial)
    }

    /** addNode and addHarbor. */
    method AddToIndex(n: NodeRef)
      modifies this`nodes, this`harbors
      ensures Now() == Link(old(Now()), n)
    {
      if !IsHarbor(n.addr) {
        var t := Type(n.addr);
        if t !in nodes {
          assert [] + [n] == [n];
          nodes := nodes[t := [n]];
        } else {
          nodes := nodes[t := nodes[t] + [n]];
        }
      } else {
        var k := Cluster(n.addr);
        if k !in harbors {
          assert [] + [n] == [n];
          harbors := harbors[k := [n]];
        } else {
          harbors := harbors[k := harbors[k] + [n]];
        }
      }
    }

    /** The search-and-swap loop shared by removeNode and removeHarbor. */
    method Swap(bucket: seq<NodeRef>, n: NodeRef) returns (rest: seq<NodeRef>)
      ensures rest == SwapRemove(bucket, n)
    {
      rest := bucket;
      for k := 0 to |bucket|
        invariant rest == bucket
        invariant forall i :: 0 <= i < k ==> bucket[i] != n
      {
        if bucket[k] == n {
          assert FirstIndex(bucket, n) == k;
          rest := bucket[k := bucket[|bucket| - 1]];
          rest := rest[..|bucket| - 1];
          return;
        }
      }
    }

    method RemoveFromIndex(n: NodeRef)
      modifies this`nodes, this`harbors
      ensures Now() == Unlink(old(Now()), n)
    {
      if !IsHarbor(n.addr) {
        var t := Type(n.addr);
        if t in nodes {
          var rest := Swap(nodes[t], n);
          nodes := nodes[t := rest];
        }
      } else {
        var k := Cluster(n.addr);
        if k in harbors {
          var rest := Swap(harbors[k], n);
          harbors := harbors[k := rest];
        }
      }
    }

    method AddNodes(ms: seq<Member>)
      modifies this
      ensures Now() == AddMany(old(Now()), ms)
    {
      for i := 0 to |ms|
        invariant Now() == AddMany(old(Now()), ms[..i])
      {
        assert ms[..i + 1][..i] == ms[..i];
        var v := ms[i];
        if v.exported || Cluster(v.addr) == Cluster(localAddr) || (IsHarbor(localAddr) && IsHarbor(v.addr)) {
          var n := NodeRef(v.addr, serial);
          serial := serial + 1;
          allnodes := allnodes[v.addr := NodeInfo(n, v.net, v.available)];
          if v.available { AddToIndex(n); }
        }
      }
      assert ms[..|ms|] == ms;
    }

    method RemoveNodes(ms: seq<Member>) returns (verdict: Verdict)
      modifies this
      ensures match RemoveMany(old(Now()), ms)
              case Running(c) => verdict == Done && Now() == c
              case Stopped(c) => verdict == Stop && Now() == c
              case Crashed => verdict == Panic
    {
      for i := 0 to |ms|
        invariant RemoveMany(old(Now()), ms[..i]) == Running(Now())
      {
        assert ms[..i + 1][..i] == ms[..i];
        var v := ms[i];
        ghost var o := RemoveOne(Now(), v);
        assert RemoveMany(old(Now()), ms[..i + 1]) == o;
        if v.exported || Cluster(v.addr) == Cluster(localAddr) || (IsHarbor(localAddr) && IsHarbor(v.addr)) {
          if v.addr == localAddr {
            RemoveManyStuck(old(Now()), ms, i + 1);
            return Stop;
          } else if v.addr !in allnodes {
            RemoveManyStuck(old(Now()), ms, i + 1);
            return Panic;
          }
          var n := allnodes[v.addr];
          allnodes := allnodes - {v.addr};
          if n.available { RemoveFromIndex(n.ref); }
        }
      }
      assert ms[..|ms|] == ms;
      verdict := Done;
    }

    method UpdateNodes(ms: seq<Member>) returns (verdict: Verdict)
      modifies this
      ensures match UpdateMany(old(Now()), ms)
              case Running(c) => verdict == Done && Now() == c
              case Stopped(c) => verdict == Stop && Now() == c
              case Crashed => verdict == Panic
    {
      for i := 0 to |ms|
        invariant UpdateMany(old(Now()), ms[..i]) == Running(Now())
      {
        assert ms[..i + 1][..i] == ms[..i];
        var v := ms[i];
        ghost var o := UpdateOne(Now(), v);
        assert UpdateMany(old(Now()), ms[..i + 1]) == o;
        if v.exported || Cluster(v.addr) == Cluster(localAddr) || (IsHarbor(localAddr) && IsHarbor(v.addr)) {
          if v.addr !in allnodes {
            UpdateManyStuck(old(Now()), ms, i + 1);
            return Panic;
          }
          var n := allnodes[v.addr];
          if v.net != n.net && v.addr == localAddr {
            UpdateManyStuck(old(Now()), ms, i + 1);
            return Stop;
          }
          allnodes := allnodes[v.addr := NodeInfo(n.ref, v.net, v.available)];
          if v.available {
            if !n.available { AddToIndex(n.ref); }
          } else if n.available {
            RemoveFromIndex(n.ref);
          }
        }
      }
      assert ms[..|ms|] == ms;
      verdict := Done;
    }

    /** onNodeInfoUpdate. */
    method OnNodeInfoUpdate(info: MemberInfo) returns (verdict: Verdict)
      modifies this
      ensures match OnUpdate(old(Now()), info)
              case Running(c) => verdict == Done && Now() == c
              case Stopped(c) => verdict == Stop && Now() == c
              case Crashed => verdict == Panic
    {
      AddNodes(info.add);
      verdict := RemoveNodes(info.remove);
      if verdict == Done {
        verdict := UpdateNodes(info.update);
      }
    }
  }

  lemma {:induction false} RemoveManyStuck(c: Cache, ms: seq<Member>, i: nat)
    requires i <= |ms| && !RemoveMany(c, ms[..i]).Running?
    ensures RemoveMany(c, ms) == RemoveMany(c, ms[..i])
    decreases |ms|
  {
    if i == |ms| {
      assert ms[..i] == ms;
    } else {
      assert ms[..|ms| - 1][..i] == ms[..i];
      RemoveManyStuck(c, ms[..|ms| - 1], i);
    }
  }

  lemma {:induction false} UpdateManyStuck(c: Cache, ms: seq<Member>, i: nat)
    requires i <= |ms| && !UpdateMany(c, ms[..i]).Running?
    ensures UpdateMany(c, ms) == UpdateMany(c, ms[..i])
    decreases |ms|
  {
    if i == |ms| {
      assert ms[..i] == ms;
    } else {
      assert ms[..|ms| - 1][..i] == ms[..i];
      UpdateManyStuck(c, ms[..|ms| - 1], i);
    }
  }

  // ---- The indexes list exactly the available nodes ----

  function Entries(c: Cache, harbor: bool, key: nat): seq<NodeRef> {
    Bucket(if harbor then c.harbors else c.nodes, key)
  }

  predicate Listed(c: Cache, r: NodeRef) {
    r.addr in c.all && c.all[r.addr].ref == r && c.all[r.addr].available
  }

  /** Without duplicates, every bucket of `c` holds exactly the available nodes of `src` that
      belong to it. */
  ghost predicate Indexes(c: Cache, src: Cache) {
    forall harbor: bool, key: nat ::
      && NoDup(Entries(c, harbor, key))
      && forall r :: r in Entries(c, harbor, key) <==> Listed(src, r) && IsHarbor(r.addr) == harbor && Key(r.addr) == key
  }

  ghost predicate Coherent(c: Cache) {
    && Indexes(c, c)
    && forall a :: a in c.all ==> c.all[a].ref.addr == a
  }

  lemma LinkExact(c: Cache, src: Cache, src': Cache, r: NodeRef)
    requires Indexes(c, src) && !Listed(src, r)
    requires forall x :: Listed(src', x) <==> Listed(src, x) || x == r
    ensures Indexes(Link(c, r), src')
  {
    var c' := Link(c, r);
    forall harbor: bool, key: nat
      ensures NoDup(Entries(c', harbor, key))
      ensures forall x :: x in Entries(c', harbor, key) <==>
                Listed(src', x) && IsHarbor(x.addr) == harbor && Key(x.addr) == key
    {
      var before := Entries(c, harbor, key);
      assert NoDup(before);
      if harbor == IsHarbor(r.addr) && key == Key(r.addr) {
        assert Entries(c', harbor, key) == before + [r];
      } else {
        assert Entries(c', harbor, key) == before;
      }
    }
  }

  lemma UnlinkExact(c: Cache, src: Cache, src': Cache, r: NodeRef)
    requires Indexes(c, src)
    requires forall x :: Listed(src', x) <==> Listed(src, x) && x != r
    ensures Indexes(Unlink(c, r), src')
  {
    var c' := Unlink(c, r);
    forall harbor: bool, key: nat
      ensures NoDup(Entries(c', harbor, key))
      ensures forall x :: x in Entries(c', harbor, key) <==>
                Listed(src', x) && IsHarbor(x.addr) == harbor && Key(x.addr) == key
    {
      var before := Entries(c, harbor, key);
      assert NoDup(before);
      if harbor == IsHarbor(r.addr) && key == Key(r.addr) {
        SwapRemoveExact(before, r);
        assert Entries(c', harbor, key) == SwapRemove(before, r);
      } else {
        assert Entries(c', harbor, key) == before;
      }
    }
  }

  /** Indexes that did not change still list a cache with the same available nodes. */
  lemma Reindexed(c: Cache, c': Cache, src: Cache, src': Cache)
    requires Indexes(c, src) && c'.nodes == c.nodes && c'.harbors == c.harbors
    requires forall x :: Listed(src', x) <==> Listed(src, x)
    ensures Indexes(c', src')
  {
    forall harbor: bool, key: nat
      ensures NoDup(Entries(c', harbor, key))
      ensures forall x :: x in Entries(c', harbor, key) <==>
                Listed(src', x) && IsHarbor(x.addr) == harbor && Key(x.addr) == key
    {
      assert Entries(c', harbor, key) == Entries(c, harbor, key);
    }
  }

  // ---- The cache mirrors the consumer's view ----

  predicate Mirrored(c: Cache, v: View, a: LogicAddr) {
    if a in v && Visible(c.local, v[a])
    then a in c.all && c.all[a].net == v[a].net && c.all[a].available == v[a].available
    else a !in c.all
  }

  /** The cache holds exactly the visible part of the view. */
  ghost predicate Mirrors(c: Cache, v: View) {
    forall a :: Mirrored(c, v, a)
  }

  lemma AddOneExact(c: Cache, v: View, m: Member)
    requires Coherent(c) && Mirrors(c, v) && Keyed(v) && m.addr !in v
    ensures Coherent(AddOne(c, m)) && Mirrors(AddOne(c, m), v[m.addr := m])
  {
    var c', v' := AddOne(c, m), v[m.addr := m];
    assert Mirrored(c, v, m.addr);
    forall a ensures Mirrored(c', v', a) {
      assert Mirrored(c, v, a);
    }
    if Visible(c.local, m) {
      var r := NodeRef(m.addr, c.serial);
      var c1 := c.(all := c.all[m.addr := NodeInfo(r, m.net, m.available)], serial := c.serial + 1);
      if m.available {
        Reindexed(c, c1, c, c);
        LinkExact(c1, c, c', r);
      } else {
        Reindexed(c, c', c, c');
      }
    }
  }

  /** A removal of a present address keeps the mirror exactly when the removal record is visible
      just as the stored one is; a visible record for a hidden node crashes. */
  lemma RemoveOneExact(c: Cache, v: View, m: Member)
    requires Coherent(c) && Mirrors(c, v) && Keyed(v) && m.addr in v
    ensures var o := RemoveOne(c, m);
            && (o.Running? && Mirrors(o.cache, v - {m.addr}) <==>
                Visible(c.local, m) == Visible(c.local, v[m.addr]) && !(Visible(c.local, m) && m.addr == c.local))
            && (o == Crashed <==>
                Visible(c.local, m) && m.addr != c.local && !Visible(c.local, v[m.addr]))
            && (o != Crashed ==> Coherent(o.cache) && o.cache.local == c.local)
  {
    assert Mirrored(c, v, m.addr);
    var o := RemoveOne(c, m);
    if o.Running? {
      assert !Mirrored(o.cache, v - {m.addr}, m.addr) <==> Visible(c.local, m) != Visible(c.local, v[m.addr]);
      forall a | a != m.addr ensures Mirrored(o.cache, v - {m.addr}, a) {
        assert Mirrored(c, v, a);
      }
      if Visible(c.local, m) {
        var n := c.all[m.addr];
        var c1 := c.(all := c.all - {m.addr});
        if n.available {
          Reindexed(c, c1, c, c);
          UnlinkExact(c1, c, o.cache, n.ref);
        } else {
          Reindexed(c, o.cache, c, o.cache);
        }
      }
    }
  }

  lemma UpdateOneExact(c: Cache, v: View, m: Member)
    requires Coherent(c) && Mirrors(c, v) && Keyed(v) && m.addr in v
    ensures var o := UpdateOne(c, m);
            && (o.Running? && Mirrors(o.cache, v[m.addr := m]) <==>
                && Visible(c.local, m) == Visible(c.local, v[m.addr])
                && !(Visible(c.local, m) && m.addr == c.local && m.net != v[m.addr].net))
            && (o == Crashed <==> Visible(c.local, m) && !Visible(c.local, v[m.addr]))
            && (o != Crashed ==> Coherent(o.cache) && o.cache.local == c.local)
  {
    assert Mirrored(c, v, m.addr);
    var o := UpdateOne(c, m);
    var v' := v[m.addr := m];
    if o.Running? {
      assert !Mirrored(o.cache, v', m.addr) <==> Visible(c.local, m) != Visible(c.local, v[m.addr]);
      forall a | a != m.addr ensures Mirrored(o.cache, v', a) {
        assert Mirrored(c, v, a);
      }
      if Visible(c.local, m) { UpdateOneCoherent(c, m); }
    }
  }

  lemma UpdateOneCoherent(c: Cache, m: Member)
    requires Coherent(c) && Visible(c.local, m) && UpdateOne(c, m).Running?
    ensures Coherent(UpdateOne(c, m).cache)
  {
    var n, c' := c.all[m.addr], UpdateOne(c, m).cache;
    var c1 := c.(all := c.all[m.addr := NodeInfo(n.ref, m.net, m.available)]);
    if m.available == n.available {
      Reindexed(c, c', c, c');
    } else {
      Reindexed(c, c1, c, c);
      if m.available { LinkExact(c1, c, c', n.ref); } else { UnlinkExact(c1, c, c', n.ref); }
    }
  }

  // ---- Whole deltas ----

  /** Every removal is seen just as the record it removes, and none is the local node. */
  predicate RemovesSteady(local: LogicAddr, v: View, ms: seq<Member>) {
    ms != [] ==>
      var w, m := DropAll(v, ms[..|ms| - 1]), ms[|ms| - 1];
      && RemovesSteady(local, v, ms[..|ms| - 1])
      && m.addr in w && Visible(local, m) == Visible(local, w[m.addr]) && !(Visible(local, m) && m.addr == local)
  }

  /** Every update is seen just as the record it replaces, and the local node keeps its network
      address. */
  predicate UpdatesSteady(local: LogicAddr, v: View, ms: seq<Member>) {
    ms != [] ==>
      var w, m := PutAll(v, ms[..|ms| - 1]), ms[|ms| - 1];
      && UpdatesSteady(local, v, ms[..|ms| - 1])
      && m.addr in w && Visible(local, m) == Visible(local, w[m.addr])
      && !(Visible(local, m) && m.addr == local && m.net != w[m.addr].net)
  }

  predicate Steady(local: LogicAddr, v: View, info: MemberInfo) {
    && RemovesSteady(local, PutAll(v, info.add), info.remove)
    && UpdatesSteady(local, DropAll(PutAll(v, info.add), info.remove), info.update)
  }

  /** Removal by removal, processing goes on and the cache mirrors the view. */
  ghost predicate RemovesTracked(c: Cache, v: View, ms: seq<Member>) {
    && (ms != [] ==> RemovesTracked(c, v, ms[..|ms| - 1]))
    && RemoveMany(c, ms).Running? && Mirrors(RemoveMany(c, ms).cache, DropAll(v, ms))
  }

  ghost predicate UpdatesTracked(c: Cache, v: View, ms: seq<Member>) {
    && (ms != [] ==> UpdatesTracked(c, v, ms[..|ms| - 1]))
    && UpdateMany(c, ms).Running? && Mirrors(UpdateMany(c, ms).cache, PutAll(v, ms))
  }

  /** Record by record, processing goes on and the cache mirrors the view. */
  ghost predicate Tracked(c: Cache, v: View, info: MemberInfo) {
    var c1, v1 := AddMany(c, info.add), PutAll(v, info.add);
    && RemovesTracked(c1, v1, info.remove)
    && UpdatesTracked(RemoveMany(c1, info.remove).cache, DropAll(v1, info.remove), info.update)
  }

  lemma {:induction false} AddManyExact(c: Cache, v: View, ms: seq<Member>)
    requires Coherent(c) && Mirrors(c, v) && Keyed(v) && AddsOk(v, ms)
    ensures var c' := AddMany(c, ms);
            Coherent(c') && Mirrors(c', PutAll(v, ms)) && Keyed(PutAll(v, ms)) && c'.local == c.local
  {
    if ms != [] {
      var init, m := ms[..|ms| - 1], ms[|ms| - 1];
      AddManyExact(c, v, init);
      AddOneExact(AddMany(c, init), PutAll(v, init), m);
    }
  }

  lemma UpdatesOkInit(v: View, ms: seq<Member>)
    requires UpdatesOk(v, ms) && ms != []
    ensures ms[|ms| - 1].addr in PutAll(v, ms[..|ms| - 1])
  {
    PutAllAt(v, ms[..|ms| - 1], ms[|ms| - 1].addr);
    LastCount(ms[..|ms| - 1], ms[|ms| - 1].addr);
  }

  lemma {:induction false} RemoveManyExact(c: Cache, v: View, ms: seq<Member>)
    requires Coherent(c) && Mirrors(c, v) && Keyed(v) && RemovesOk(v, ms)
    ensures RemovesTracked(c, v, ms) <==> RemovesSteady(c.local, v, ms)
    ensures RemovesSteady(c.local, v, ms) ==>
              Coherent(RemoveMany(c, ms).cache) && RemoveMany(c, ms).cache.local == c.local
  {
    if ms != [] {
      var init, m := ms[..|ms| - 1], ms[|ms| - 1];
      RemoveManyExact(c, v, init);
      DropAllKeyed(v, init);
      if RemovesSteady(c.local, v, init) {
        RemoveOneExact(RemoveMany(c, init).cache, DropAll(v, init), m);
      }
    }
  }

  lemma {:induction false} UpdateManyExact(c: Cache, v: View, ms: seq<Member>)
    requires Coherent(c) && Mirrors(c, v) && Keyed(v) && UpdatesOk(v, ms)
    ensures UpdatesTracked(c, v, ms) <==> UpdatesSteady(c.local, v, ms)
    ensures UpdatesSteady(c.local, v, ms) ==>
              Coherent(UpdateMany(c, ms).cache) && UpdateMany(c, ms).cache.local == c.local
  {
    if ms != [] {
      var init, m := ms[..|ms| - 1], ms[|ms| - 1];
      UpdateManyExact(c, v, init);
      PutAllKeyed(v, init);
      UpdatesOkInit(v, ms);
      if UpdatesSteady(c.local, v, init) {
        UpdateOneExact(UpdateMany(c, init).cache, PutAll(v, init), m);
      }
    }
  }

  /** A well-formed delta is tracked record by record, without a crash or a stop, if and only if
      each removal and update is seen just as the record it replaces and the local node is neither
      removed nor re-addressed; and then the indexes stay exact. */
  lemma OnUpdateExact(c: Cache, v: View, info: MemberInfo)
    requires Coherent(c) && Mirrors(c, v) && Keyed(v) && WellFormed(v, info)
    ensures Tracked(c, v, info) <==> Steady(c.local, v, info)
    ensures Steady(c.local, v, info) ==>
              var o := OnUpdate(c, info);
              o.Running? && Coherent(o.cache) && o.cache.local == c.local && Mirrors(o.cache, Apply(v, info))
  {
    var c1, v1 := AddMany(c, info.add), PutAll(v, info.add);
    AddManyExact(c, v, info.add);
    RemoveManyExact(c1, v1, info.remove);
    if RemovesSteady(c.local, v1, info.remove) {
      DropAllKeyed(v1, info.remove);
      UpdateManyExact(RemoveMany(c1, info.remove).cache, DropAll(v1, info.remove), info.update);
    }
  }

  // ---- Whole deltas, when the exported flag of an address never changes ----

  /** What never changes about an address: its exported flag, and for one address, if any, its
      network address. */
  datatype Law = Law(flag: LogicAddr -> bool, kept: Option<(LogicAddr, NetAddr)>)

  predicate Obeys(law: Law, m: Member) {
    m.exported == law.flag(m.addr) && (law.kept.Some? && m.addr == law.kept.value.0 ==> m.net == law.kept.value.1)
  }

  ghost predicate Conforms(law: Law, ms: seq<Member>) {
    forall m :: m in ms ==> Obeys(law, m)
  }

  ghost predicate ViewConforms(law: Law, v: View) {
    Keyed(v) && forall a :: a in v ==> Obeys(law, v[a])
  }

  lemma SameSight(law: Law, local: LogicAddr, m: Member, n: Member)
    requires Obeys(law, m) && Obeys(law, n) && m.addr == n.addr
    ensures Visible(local, m) == Visible(local, n)
  {
  }

  lemma {:induction false} PutAllConforms(law: Law, v: View, ms: seq<Member>)
    requires ViewConforms(law, v) && Conforms(law, ms)
    ensures ViewConforms(law, PutAll(v, ms))
  {
    if ms != [] {
      assert ms[|ms| - 1] in ms;
      PutAllConforms(law, v, ms[..|ms| - 1]);
    }
  }

  lemma {:induction false} DropAllConforms(law: Law, v: View, ms: seq<Member>)
    requires ViewConforms(law, v)
    ensures ViewConforms(law, DropAll(v, ms))
  {
    if ms != [] { DropAllConforms(law, v, ms[..|ms| - 1]); }
  }

  lemma {:induction false} RemoveManyConforming(law: Law, c: Cache, v: View, ms: seq<Member>)
    requires Coherent(c) && Mirrors(c, v) && ViewConforms(law, v) && RemovesOk(v, ms) && Conforms(law, ms)
    ensures var o := RemoveMany(c, ms);
            && o != Crashed && Coherent(o.cache) && o.cache.local == c.local
            && (o.Running? <==> forall m :: m in ms ==> m.addr != c.local)
            && (o.Running? ==> Mirrors(o.cache, DropAll(v, ms)))
  {
    if ms != [] {
      var init, m := ms[..|ms| - 1], ms[|ms| - 1];
      assert ms == init + [m];
      RemoveManyConforming(law, c, v, init);
      DropAllConforms(law, v, init);
      var o := RemoveMany(c, init);
      if o.Running? {
        SameSight(law, c.local, m, DropAll(v, init)[m.addr]);
        RemoveOneExact(o.cache, DropAll(v, init), m);
      }
    }
  }

  /** The updates of the local node repeat its network address. */
  ghost predicate KeepsLocalNet(local: LogicAddr, v: View, ms: seq<Member>) {
    forall m :: m in ms && m.addr == local && local in v ==> m.net == v[local].net
  }

  lemma LocalNetStep(local: LogicAddr, v: View, ms: seq<Member>, m: Member)
    ensures KeepsLocalNet(local, v, ms + [m]) <==>
            KeepsLocalNet(local, v, ms) && (m.addr == local && local in v ==> m.net == v[local].net)
    ensures KeepsLocalNet(local, v, ms) && local in v ==>
              local in PutAll(v, ms) && PutAll(v, ms)[local].net == v[local].net
  {
    assert m in ms + [m];
    PutAllAt(v, ms, local);
    LastCount(ms, local);
    if Last(ms, local).Some? { assert Last(ms, local).value in ms; }
  }

  lemma UpdateConforming(law: Law, c: Cache, v: View, m: Member)
    requires Coherent(c) && Mirrors(c, v) && ViewConforms(law, v) && m.addr in v && Obeys(law, m)
    ensures var o := UpdateOne(c, m);
            && o != Crashed && Coherent(o.cache) && o.cache.local == c.local
            && (o.Running? <==> (m.addr == c.local ==> m.net == v[m.addr].net))
            && (o.Running? ==> Mirrors(o.cache, v[m.addr := m]))
  {
    assert v[m.addr].addr == m.addr;
    SameSight(law, c.local, m, v[m.addr]);
    UpdateOneExact(c, v, m);
    assert Mirrored(c, v, m.addr);
  }

  lemma {:induction false} UpdateManyConforming(law: Law, c: Cache, v: View, ms: seq<Member>)
    requires Coherent(c) && Mirrors(c, v) && ViewConforms(law, v) && UpdatesOk(v, ms) && Conforms(law, ms)
    ensures var o := UpdateMany(c, ms);
            && o != Crashed && Coherent(o.cache) && o.cache.local == c.local
            && (o.Running? <==> KeepsLocalNet(c.local, v, ms))
            && (o.Running? ==> Mirrors(o.cache, PutAll(v, ms)))
  {
    if ms != [] {
      var init, m := ms[..|ms| - 1], ms[|ms| - 1];
      assert ms == init + [m];
      UpdateManyConforming(law, c, v, init);
      LocalNetStep(c.local, v, init, m);
      var o := UpdateMany(c, init);
      if o.Running? {
        PutAllConforms(law, v, init);
        UpdatesOkInit(v, ms);
        UpdateConforming(law, o.cache, PutAll(v, init), m);
      }
    }
  }

  /** The delta neither removes nor re-addresses the local node. */
  ghost predicate SparesLocal(local: LogicAddr, v: View, info: MemberInfo) {
    && (forall m :: m in info.remove ==> m.addr != local)
    && KeepsLocalNet(local, DropAll(PutAll(v, info.add), info.remove), info.update)
  }

  /** A well-formed delta never crashes the cache and leaves the indexes exact; processing runs
      to the end exactly when the local node is spared, and then the cache mirrors the new view. */
  lemma OnUpdateConforming(law: Law, c: Cache, v: View, info: MemberInfo)
    requires Coherent(c) && Mirrors(c, v) && ViewConforms(law, v) && WellFormed(v, info)
    requires Conforms(law, info.add) && Conforms(law, info.remove) && Conforms(law, info.update)
    ensures var o := OnUpdate(c, info);
            && o != Crashed && Coherent(o.cache) && o.cache.local == c.local
            && (o.Running? <==> SparesLocal(c.local, v, info))
            && (o.Running? ==> Mirrors(o.cache, Apply(v, info)))
    ensures ViewConforms(law, Apply(v, info))
  {
    var v1 := PutAll(v, info.add);
    var v2 := DropAll(v1, info.remove);
    AddManyExact(c, v, info.add);
    PutAllConforms(law, v, info.add);
    var c1 := AddMany(c, info.add);
    RemoveManyConforming(law, c1, v1, info.remove);
    DropAllConforms(law, v1, info.remove);
    PutAllConforms(law, v2, info.update);
    var o := RemoveMany(c1, info.remove);
    if o.Running? { UpdateManyConforming(law, o.cache, v2, info.update); }
  }

  /** The bucket has a node of that address. */
  ghost predicate Lists(c: Cache, harbor: bool, key: nat, a: LogicAddr) {
    exists r :: r in Entries(c, harbor, key) && r.addr == a
  }

  /** What a mirror and its indexes mean to a caller: the bucket of a type (or cluster) lists,
      once each, exactly the visible available members of the view that belong to it. */
  lemma BucketIsView(c: Cache, v: View, harbor: bool, key: nat)
    requires Coherent(c) && Mirrors(c, v)
    ensures NoDup(Entries(c, harbor, key))
    ensures forall a :: Lists(c, harbor, key, a) <==>
              && a in v && Visible(c.local, v[a]) && v[a].available
              && IsHarbor(a) == harbor && Key(a) == key
  {
    assert NoDup(Entries(c, harbor, key));
    forall a
      ensures Lists(c, harbor, key, a) <==>
              && a in v && Visible(c.local, v[a]) && v[a].available
              && IsHarbor(a) == harbor && Key(a) == key
    {
      assert Mirrored(c, v, a);
      if a in c.all {
        assert Listed(c, c.all[a].ref) <==> c.all[a].available;
        assert c.all[a].ref in Entries(c, harbor, key) <==>
          Listed(c, c.all[a].ref) && IsHarbor(a) == harbor && Key(a) == key;
      }
    }
  }

  /** An exported flag that is raised later crashes the cache: the node was hidden when added. */
  lemma LateExportCrashes(local: LogicAddr, m: Member)
    requires !m.exported && !Visible(local, m)
    ensures var c := AddOne(Empty(local), m);
            UpdateOne(c, m.(exported := true)) == Crashed
  {
  }
}
