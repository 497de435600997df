/** The Redis membership source: five server-side scripts over two versioned hashes, and the
    client that polls them and emits deltas. */
module Redis {
  import opened Basics
  import opened Addr
  import opened Membership
  import opened Versioned
  import KvClient

  // ---- Server records ----

  datatype MemberRec = MemberRec(ver: nat, markdel: bool, info: Member)

  /** `Truncated` is what a heartbeat leaves of a dead record: version and deadline only. No
      script pattern matches it. */
  datatype AliveRec = AliveRec(ver: nat, dead: bool, deadline: int) | Truncated(ver: nat, deadline: int)

  /** A version of 0 stands for a version key that was never set. */
  datatype Store = Store(
    memberVer: nat, members: map<LogicAddr, MemberRec>,
    aliveVer: nat, alives: map<LogicAddr, AliveRec>)

  const EMPTY := Store(0, map[], 0, map[])

  // ---- The scripts as functions ----

  function Insert(st: Store, m: Member): Store {
    st.(memberVer := st.memberVer + 1,
        members := st.members[m.addr := MemberRec(st.memberVer + 1, false, m)])
  }

  /** The version grows even when there is nothing to delete. */
  function Remove(st: Store, a: LogicAddr): Store {
    st.(memberVer := st.memberVer + 1,
        members := if a in st.members
                   then st.members[a := MemberRec(st.memberVer + 1, true, st.members[a].info)]
                   else st.members)
  }

  predicate IsDead(st: Store, a: LogicAddr) {
    a in st.alives && st.alives[a].AliveRec? && st.alives[a].dead
  }

  function Heartbeat(st: Store, a: LogicAddr, deadline: int): Store {
    if IsDead(st, a) then
      st.(alives := st.alives[a := Truncated(st.alives[a].ver, deadline)])
    else
      st.(aliveVer := st.aliveVer + 1,
          alives := st.alives[a := AliveRec(st.aliveVer + 1, false, deadline)])
  }

  predicate TimedOut(r: AliveRec, now: int) {
    r.AliveRec? && !r.dead && now > r.deadline
  }

  function Expire(r: AliveRec, ver: nat, now: int): AliveRec {
    if TimedOut(r, now) then r.(ver := ver, dead := true) else r
  }

  function CheckTimeout(st: Store, now: int): Store {
    if exists a :: a in st.alives && TimedOut(st.alives[a], now) then
      st.(aliveVer := st.aliveVer + 1,
          alives := map a | a in st.alives :: Expire(st.alives[a], st.aliveVer + 1, now))
    else st
  }

  datatype MemberReply = MemberReply(info: Member, markdel: bool)

  datatype AliveReply = AliveReply(addr: LogicAddr, dead: bool)

  function MemberReplies(st: Store, since: nat, order: seq<LogicAddr>): seq<MemberReply>
    requires forall a :: a in order ==> a in st.members
  {
    if order == [] then []
    else
      var rest := MemberReplies(st, since, order[..|order| - 1]);
      var r := st.members[order[|order| - 1]];
      if (if since == 0 then !r.markdel else r.ver > since) then rest + [MemberReply(r.info, r.markdel)]
      else rest
  }

  function AliveReplies(st: Store, since: nat, order: seq<LogicAddr>): seq<AliveReply>
    requires forall a :: a in order ==> a in st.alives
  {
    if order == [] then []
    else
      var rest := AliveReplies(st, since, order[..|order| - 1]);
      var a := order[|order| - 1];
      var r := st.alives[a];
      if r.AliveRec? && (if since == 0 then !r.dead else r.ver > since) then rest + [AliveReply(a, r.dead)]
      else rest
  }

  /** The timeout scan over the hash, one field after the other. */
  function Scan(all: map<LogicAddr, AliveRec>, order: seq<LogicAddr>, ver: nat, now: int): map<LogicAddr, AliveRec>
    requires forall a :: a in order ==> a in all
  {
    if order == [] then all
    else
      var rest := Scan(all, order[..|order| - 1], ver, now);
      var a := order[|order| - 1];
      if TimedOut(all[a], now) then rest[a := Expire(all[a], ver, now)] else rest
  }

  predicate AnyTimedOut(all: map<LogicAddr, AliveRec>, order: seq<LogicAddr>, now: int)
    requires forall a :: a in order ==> a in all
  {
    order != [] && (AnyTimedOut(all, order[..|order| - 1], now) || TimedOut(all[order[|order| - 1]], now))
  }

  lemma {:induction false} ScanAt(all: map<LogicAddr, AliveRec>, order: seq<LogicAddr>, ver: nat, now: int, a: LogicAddr)
    requires forall x :: x in order ==> x in all
    ensures Scan(all, order, ver, now).Keys == all.Keys
    ensures a in all ==> Scan(all, order, ver, now)[a] == if a in order then Expire(all[a], ver, now) else all[a]
    ensures a in order && TimedOut(all[a], now) ==> AnyTimedOut(all, order, now)
    ensures AnyTimedOut(all, order, now) ==> exists x :: x in order && TimedOut(all[x], now)
  {
    if order != [] {
      var init, b := order[..|order| - 1], order[|order| - 1];
      ScanAt(all, init, ver, now, a);
      assert order == init + [b];
      assert b in order;
    }
  }

  lemma ScanCovers(st: Store, order: seq<LogicAddr>, now: int)
    requires KvClient.Enumerates(order, st.alives.Keys)
    ensures AnyTimedOut(st.alives, order, now) <==> exists a :: a in st.alives && TimedOut(st.alives[a], now)
    ensures Scan(st.alives, order, st.aliveVer + 1, now) == CheckTimeout(st, now).alives
  {
    var ver := st.aliveVer + 1;
    ScanAt(st.alives, order, ver, now, 0);
    forall a | a in st.alives
      ensures Scan(st.alives, order, ver, now)[a] == Expire(st.alives[a], ver, now)
      ensures TimedOut(st.alives[a], now) ==> AnyTimedOut(st.alives, order, now)
    {
      ScanAt(st.alives, order, ver, now, a);
    }
  }

  // ---- The store object ----

  class RedisStore {
    var memberVer: nat
    var members: map<LogicAddr, MemberRec>
    var aliveVer: nat
    var alives: map<LogicAddr, AliveRec>

    constructor ()
      ensures Now() == EMPTY
    {
      memberVer, members, aliveVer, alives := 0, map[], 0, map[];
    }

    ghost function Now(): Store
      reads this
    {
      Store(memberVer, members, aliveVer, alives)
    }

    /** ScriptUpdateMember; a removal carries only the key. */
    method UpdateMember(key: LogicAddr, data: Option<Member>) returns (published: Option<nat>)
      requires data.Some? ==> data.value.addr == key
      modifies this
      ensures Now() == if data.Some? then Insert(old(Now()), data.value) else Remove(old(Now()), key)
      ensures published == if data.Some? || key in old(members) then Some(memberVer) else None
    {
      var serverVer := memberVer + 1;
      memberVer := serverVer;
      published := None;
      if data.Some? {
        members := members[key := MemberRec(serverVer, false, data.value)];
        published := Some(serverVer);
      } else if key in members {
        members := members[key := MemberRec(serverVer, true, members[key].info)];
        published := Some(serverVer);
      }
    }

    /** ScriptGetMembers; `order` is the order of the hash scan. */
    method GetMembers(clientVer: nat, order: seq<LogicAddr>) returns (ver: nat, nodes: seq<MemberReply>)
      requires KvClient.Enumerates(order, members.Keys)
      ensures ver == if memberVer == 0 then clientVer else memberVer
      ensures nodes == if memberVer == 0 || memberVer == clientVer then []
                       else MemberReplies(Now(), clientVer, order)
    {
      nodes := [];
      if memberVer == 0 { return clientVer, []; }
      ver := memberVer;
      if clientVer == memberVer { return; }
      for i := 0 to |order|
        invariant nodes == MemberReplies(Now(), clientVer, order[..i])
      {
        assert order[..i + 1][..i] == order[..i];
        assert order[i] in order;
        var r := members[order[i]];
        if clientVer == 0 {
          if !r.markdel { nodes := nodes + [MemberReply(r.info, r.markdel)]; }
        } else if r.ver > clientVer {
          nodes := nodes + [MemberReply(r.info, r.markdel)];
        }
      }
      assert order[..|order|] == order;
    }

    /** ScriptHeartbeat. */
    method BeatOnce(key: LogicAddr, now: int, timeout: int) returns (published: Option<nat>)
      modifies this
      ensures Now() == Heartbeat(old(Now()), key, now + timeout)
      ensures published == if old(IsDead(Now(), key)) then None else Some(aliveVer)
    {
      var prevDead := false;
      if key in alives {
        match alives[key]
        case AliveRec(_, dead, _) => prevDead := dead;
        case Truncated(_, _) =>
      }
      if !prevDead {
        aliveVer := aliveVer + 1;
        alives := alives[key := AliveRec(aliveVer, false, now + timeout)];
        published := Some(aliveVer);
      } else {
        alives := alives[key := Truncated(alives[key].ver, now + timeout)];
        published := None;
      }
    }

    /** ScriptGetAlives. */
    method GetAlives(clientVer: nat, order: seq<LogicAddr>) returns (ver: nat, nodes: seq<AliveReply>)
      requires KvClient.Enumerates(order, alives.Keys)
      ensures ver == if aliveVer == 0 then clientVer else aliveVer
      ensures nodes == if aliveVer == 0 || aliveVer == clientVer then []
                       else AliveReplies(Now(), clientVer, order)
    {
      nodes := [];
      if aliveVer == 0 { return clientVer, []; }
      ver := aliveVer;
      if clientVer == aliveVer { return; }
      for i := 0 to |order|
        invariant nodes == AliveReplies(Now(), clientVer, order[..i])
      {
        assert order[..i + 1][..i] == order[..i];
        assert order[i] in order;
        var r := alives[order[i]];
        if r.AliveRec? {
          if clientVer == 0 {
            if !r.dead { nodes := nodes + [AliveReply(order[i], r.dead)]; }
          } else if r.ver > clientVer {
            nodes := nodes + [AliveReply(order[i], r.dead)];
          }
        }
      }
      assert order[..|order|] == order;
    }

    /** ScriptCheckTimeout: all nodes found timed out share one new version. */
    method CheckTimeouts(now: int, order: seq<LogicAddr>) returns (published: Option<nat>)
      requires KvClient.Enumerates(order, alives.Keys)
      modifies this
      ensures Now() == CheckTimeout(old(Now()), now)
      ensures published == if aliveVer == old(aliveVer) then None else Some(aliveVer)
    {
      var serverVer := aliveVer + 1;
      var change := false;
      var all := alives;
      for i := 0 to |order|
        invariant memberVer == old(memberVer) && members == old(members)
        invariant change <==> AnyTimedOut(all, order[..i], now)
        invariant aliveVer == if change then serverVer else old(aliveVer)
        invariant alives == Scan(all, order[..i], serverVer, now)
      {
        assert order[..i + 1][..i] == order[..i];
        assert order[i] in order;
        var r := all[order[i]];
        if r.AliveRec? && !r.dead && now > r.deadline {
          if !change {
            change := true;
            aliveVer := serverVer;
          }
          alives := alives[order[i] := AliveRec(serverVer, true, r.deadline)];
        }
      }
      assert order[..|order|] == order;
      ScanCovers(old(Now()), order, now);
      published := if change then Some(serverVer) else None;
    }
  }

  // ---- The client ----

  datatype ClientState = ClientState(memberVer: nat, aliveVer: nat, node: KvClient.State)

  const FRESH := ClientState(0, 0, KvClient.State(map[], {}))

  /** One reply entry of getMembers; records whose address does not parse are skipped. */
  function MemberStep(s: KvClient.State, info: MemberInfo, r: MemberReply): (KvClient.State, MemberInfo) {
    var n := r.info;
    if !Decodable(n.addr) then (s, info)
    else if r.markdel then
      if n.addr in s.members then
        (s.(members := s.members - {n.addr}),
         info.(remove := info.remove + [Shown(n, n.addr in s.alive)]))
      else (s, info)
    else
      var nn := Shown(n, n.addr in s.alive);
      var s' := s.(members := s.members[n.addr := n]);
      if n.addr in s.members then (s', info.(update := info.update + [nn]))
      else (s', info.(add := info.add + [nn]))
  }

  function TakeMembers(s: KvClient.State, rs: seq<MemberReply>): (KvClient.State, MemberInfo) {
    if rs == [] then (s, NO_CHANGE)
    else
      var (s1, info) := TakeMembers(s, rs[..|rs| - 1]);
      MemberStep(s1, info, rs[|rs| - 1])
  }

  function AliveStep(s: KvClient.State, update: seq<Member>, r: AliveReply): (KvClient.State, seq<Member>) {
    var a := r.addr;
    if r.dead then
      (s.(alive := s.alive - {a}),
       if a in s.members then update + [s.members[a].(available := false)] else update)
    else if a in s.alive then (s, update)
    else
      (s.(alive := s.alive + {a}),
       if a in s.members && s.members[a].available then update + [s.members[a].(available := true)] else update)
  }

  function TakeAlives(s: KvClient.State, rs: seq<AliveReply>): (KvClient.State, seq<Member>) {
    if rs == [] then (s, [])
    else
      var (s1, update) := TakeAlives(s, rs[..|rs| - 1]);
      AliveStep(s1, update, rs[|rs| - 1])
  }

  class RedisClient {
    var memberVersion: nat
    var aliveVersion: nat
    var members: View
    var alive: set<LogicAddr>

    constructor ()
      ensures Now() == FRESH
    {
      memberVersion, aliveVersion, members, alive := 0, 0, map[], {};
    }

    ghost function Now(): ClientState
      reads this
    {
      ClientState(memberVersion, aliveVersion, KvClient.State(members, alive))
    }

    /** getMembers, given the script's reply. */
    method OnMembers(version: nat, nodes: seq<MemberReply>) returns (info: MemberInfo)
      modifies this
      ensures version == old(memberVersion) ==> Now() == old(Now()) && info == NO_CHANGE
      ensures version != old(memberVersion) ==>
                var (s, delta) := TakeMembers(old(Now()).node, nodes);
                Now() == old(Now()).(memberVer := version, node := s) && info == delta
    {
      info := NO_CHANGE;
      if version == memberVersion { return; }
      memberVersion := version;
      for i := 0 to |nodes|
        invariant memberVersion == version && aliveVersion == old(aliveVersion)
        invariant (KvClient.State(members, alive), info) == TakeMembers(old(Now()).node, nodes[..i])
      {
        assert nodes[..i + 1][..i] == nodes[..i];
        var n := nodes[i].info;
        if !Decodable(n.addr) {
        } else if nodes[i].markdel {
          if n.addr in members {
            info := info.(remove := info.remove + [Shown(n, n.addr in alive)]);
            members := members - {n.addr};
          }
        } else {
          var nn := Shown(n, n.addr in alive);
          if n.addr in members {
            info := info.(update := info.update + [nn]);
          } else {
            info := info.(add := info.add + [nn]);
          }
          members := members[n.addr := n];
        }
      }
      assert nodes[..|nodes|] == nodes;
    }

    /** getAlives, given the script's reply. */
    method OnAlives(version: nat, nodes: seq<AliveReply>) returns (update: seq<Member>)
      modifies this
      ensures version == old(aliveVersion) ==> Now() == old(Now()) && update == []
      ensures version != old(aliveVersion) ==>
                var (s, delta) := TakeAlives(old(Now()).node, nodes);
                Now() == old(Now()).(aliveVer := version, node := s) && update == delta
    {
      update := [];
      if version == aliveVersion { return; }
      aliveVersion := version;
      for i := 0 to |nodes|
        invariant aliveVersion == version && memberVersion == old(memberVersion)
        invariant (KvClient.State(members, alive), update) == TakeAlives(old(Now()).node, nodes[..i])
      {
        assert nodes[..i + 1][..i] == nodes[..i];
        var a := nodes[i].addr;
        if nodes[i].dead {
          alive := alive - {a};
          if a in members { update := update + [members[a].(available := false)]; }
        } else if a !in alive {
          alive := alive + {a};
          if a in members && members[a].available { update := update + [members[a].(available := true)]; }
        }
      }
      assert nodes[..|nodes|] == nodes;
    }

    /** The version reset of error recovery; the tables are kept. */
    method ResetVersions()
      modifies this
      ensures Now() == old(Now()).(memberVer := 0, aliveVer := 0)
    {
      memberVersion, aliveVersion := 0, 0;
    }
  }
}
