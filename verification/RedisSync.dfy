/** The Redis protocol over whole runs: any interleaving of administrative updates, heartbeats,
    timeout scans, polls and version resets. */
module RedisSync {
  import opened Basics
  import opened Addr
  import opened Membership
  import opened Versioned
  import opened Redis
  import KvClient

  datatype System = System(store: Store, client: ClientState)

  const INITIAL := System(EMPTY, FRESH)

  datatype Step =
    | UpdateMember(member: Member)
    | RemoveMember(addr: LogicAddr)
    | KeepAlive(beat: LogicAddr, deadline: int)
    | ScanTimeouts(now: int)
    | PollMembers(memberOrder: seq<LogicAddr>)
    | PollAlives(aliveOrder: seq<LogicAddr>)
    | ResetVersions

  ghost predicate Feasible(sys: System, step: Step) {
    match step
    case PollMembers(order) => KvClient.Enumerates(order, sys.store.members.Keys)
    case PollAlives(order) => KvClient.Enumerates(order, sys.store.alives.Keys)
    case _ => true
  }

  /** One atomic step and the delta it hands to the consumer. */
  function Next(sys: System, step: Step): (System, MemberInfo)
    requires Feasible(sys, step)
  {
    var System(st, cl) := sys;
    match step
    case UpdateMember(m) => (sys.(store := Insert(st, m)), NO_CHANGE)
    case RemoveMember(a) => (sys.(store := Remove(st, a)), NO_CHANGE)
    case KeepAlive(a, deadline) => (sys.(store := Heartbeat(st, a, deadline)), NO_CHANGE)
    case ScanTimeouts(now) => (sys.(store := CheckTimeout(st, now)), NO_CHANGE)
    case PollMembers(order) =>
      if st.memberVer == 0 || st.memberVer == cl.memberVer then (sys, NO_CHANGE)
      else
        var (s, info) := TakeMembers(cl.node, MemberReplies(st, cl.memberVer, order));
        (sys.(client := cl.(memberVer := st.memberVer, node := s)), info)
    case PollAlives(order) =>
      if st.aliveVer == 0 || st.aliveVer == cl.aliveVer then (sys, NO_CHANGE)
      else
        var (s, update) := TakeAlives(cl.node, AliveReplies(st, cl.aliveVer, order));
        (sys.(client := cl.(aliveVer := st.aliveVer, node := s)), MemberInfo([], [], update))
    case ResetVersions => (sys.(client := cl.(memberVer := 0, aliveVer := 0)), NO_CHANGE)
  }

  ghost predicate FeasibleRun(sys: System, steps: seq<Step>)
    decreases |steps|
  {
    steps != [] ==> Feasible(sys, steps[0]) && FeasibleRun(Next(sys, steps[0]).0, steps[1..])
  }

  function After(sys: System, steps: seq<Step>): System
    requires FeasibleRun(sys, steps)
    decreases |steps|
  {
    if steps == [] then sys else After(Next(sys, steps[0]).0, steps[1..])
  }

  // ---- What the client should hold ----

  /** The live members whose records parse. */
  function LiveMembers(st: Store): View {
    map a | a in st.members && !st.members[a].markdel && Decodable(a) :: st.members[a].info
  }

  function LiveNodes(st: Store): set<LogicAddr> {
    set a | a in st.alives && st.alives[a].AliveRec? && !st.alives[a].dead
  }

  /** A poll starting again from version 0 is not told about tombstones. */
  predicate MissesMember(sys: System, a: LogicAddr) {
    && sys.client.memberVer == 0
    && a in sys.client.node.members && a in sys.store.members && sys.store.members[a].markdel
  }

  /** Nor is any poll told about a record a heartbeat truncated. */
  predicate MissesDeath(sys: System, a: LogicAddr) {
    && a in sys.client.node.alive && a in sys.store.alives
    && (sys.store.alives[a].Truncated? || (sys.client.aliveVer == 0 && sys.store.alives[a].dead))
  }

  // ---- The two hashes as versioned tables ----

  function MemberEntry(r: MemberRec): Entry<Member> {
    if r.markdel then Dead(r.ver) else Live(r.ver, r.info)
  }

  function AliveEntry(r: AliveRec): Entry<()> {
    match r
    case AliveRec(ver, dead, _) => if dead then Dead(ver) else Live(ver, ())
    case Truncated(_, _) => Unreadable
  }

  function MemberTable(st: Store): Versioned.Server<Member> {
    Versioned.Server(st.memberVer, map a | a in st.members && Decodable(a) :: MemberEntry(st.members[a]))
  }

  function AliveTable(st: Store): Versioned.Server<()> {
    Versioned.Server(st.aliveVer, map a | a in st.alives :: AliveEntry(st.alives[a]))
  }

  function MemberCopy(cl: ClientState): Copy<Member> {
    Copy(cl.memberVer, cl.node.members)
  }

  function AliveCopy(cl: ClientState): Copy<()> {
    Copy(cl.aliveVer, map a | a in cl.node.alive :: ())
  }

  ghost predicate StoreKeyed(st: Store) {
    forall a :: a in st.members ==> st.members[a].info.addr == a
  }

  ghost predicate MembersSynced(sys: System) {
    StoreKeyed(sys.store) && Synced(MemberCopy(sys.client), MemberTable(sys.store))
  }

  ghost predicate AlivesSynced(sys: System) {
    Synced(AliveCopy(sys.client), AliveTable(sys.store))
  }

  // ---- Scripts advance their table ----

  lemma InsertAdvances(st: Store, m: Member)
    requires ServerOk(MemberTable(st)) && StoreKeyed(st)
    ensures Advance(MemberTable(st), MemberTable(Insert(st, m))) && StoreKeyed(Insert(st, m))
  {
    var t, t' := MemberTable(st), MemberTable(Insert(st, m));
    forall a | a in t'.table ensures (a in t.table && t'.table[a] == t.table[a]) || t'.table[a].ver == t.ver + 1 {
    }
  }

  lemma RemoveAdvances(st: Store, k: LogicAddr)
    requires ServerOk(MemberTable(st)) && StoreKeyed(st)
    ensures Advance(MemberTable(st), MemberTable(Remove(st, k))) && StoreKeyed(Remove(st, k))
  {
    var t, t' := MemberTable(st), MemberTable(Remove(st, k));
    forall a | a in t'.table ensures a in t.table && (t'.table[a] == t.table[a] || t'.table[a].ver == t.ver + 1) {
    }
  }

  lemma HeartbeatAdvances(st: Store, k: LogicAddr, deadline: int)
    requires ServerOk(AliveTable(st))
    ensures Advance(AliveTable(st), AliveTable(Heartbeat(st, k, deadline)))
  {
    var t, t' := AliveTable(st), AliveTable(Heartbeat(st, k, deadline));
    forall a | a in t'.table
      ensures || (a in t.table && t'.table[a] == t.table[a])
              || t'.table[a] == Live(t.ver + 1, ())
              || (a in t.table && t.table[a].Dead? && t'.table[a].Unreadable?)
    {
    }
  }

  lemma CheckTimeoutAdvances(st: Store, now: int)
    requires ServerOk(AliveTable(st))
    ensures Advance(AliveTable(st), AliveTable(CheckTimeout(st, now)))
  {
    var t, t' := AliveTable(st), AliveTable(CheckTimeout(st, now));
    forall a | a in t'.table ensures a in t.table && (t'.table[a] == t.table[a] || t'.table[a] == Dead(t.ver + 1)) {
    }
  }

  // ---- The client's loops compute a poll ----

  function MemberNews(rs: seq<MemberReply>, a: LogicAddr): Option<MemberReply> {
    if rs == [] then None
    else if rs[|rs| - 1].info.addr == a then Some(rs[|rs| - 1])
    else MemberNews(rs[..|rs| - 1], a)
  }

  lemma {:induction false} MemberRepliesAt(st: Store, since: nat, order: seq<LogicAddr>, a: LogicAddr)
    requires StoreKeyed(st)
    requires forall x :: x in order ==> x in st.members
    ensures MemberNews(MemberReplies(st, since, order), a) ==
            if a in order && (if since == 0 then !st.members[a].markdel else st.members[a].ver > since)
            then Some(MemberReply(st.members[a].info, st.members[a].markdel)) else None
  {
    if order != [] {
      var init, b := order[..|order| - 1], order[|order| - 1];
      KvClient.Split(order, a);
      MemberRepliesAt(st, since, init, a);
      var rest, all := MemberReplies(st, since, init), MemberReplies(st, since, order);
      if |all| > |rest| { assert all[..|all| - 1] == rest; }
    }
  }

  lemma {:induction false} TakeMembersAt(s: KvClient.State, rs: seq<MemberReply>, a: LogicAddr)
    ensures var s' := TakeMembers(s, rs).0;
            var news := MemberNews(rs, a);
            Cell(s'.members, a) ==
            if news.Some? && Decodable(a) then (if news.value.markdel then None else Some(news.value.info))
            else Cell(s.members, a)
  {
    if rs != [] { TakeMembersAt(s, rs[..|rs| - 1], a); }
  }

  lemma MembersPolled(sys: System, order: seq<LogicAddr>)
    requires MembersSynced(sys) && Feasible(sys, PollMembers(order))
    ensures var sys' := Next(sys, PollMembers(order)).0;
            && MemberCopy(sys'.client) == Poll(MemberCopy(sys.client), MemberTable(sys.store))
            && sys'.store == sys.store && AliveCopy(sys'.client) == AliveCopy(sys.client)
  {
    var copy, t := MemberCopy(sys.client), MemberTable(sys.store);
    if !UpToDate(copy, t) {
      var s' := Next(sys, PollMembers(order)).0.client.node;
      TakeMembersKeepsAlive(sys.client.node, MemberReplies(sys.store, copy.ver, order));
      forall a ensures Cell(s'.members, a) == Cell(Fetched(copy, t), a) {
        MemberRepliesAt(sys.store, copy.ver, order, a);
        TakeMembersAt(sys.client.node, MemberReplies(sys.store, copy.ver, order), a);
      }
      CellsDetermine(s'.members, Fetched(copy, t));
    }
  }

  function AliveNews(rs: seq<AliveReply>, a: LogicAddr): Option<AliveReply> {
    if rs == [] then None
    else if rs[|rs| - 1].addr == a then Some(rs[|rs| - 1])
    else AliveNews(rs[..|rs| - 1], a)
  }

  lemma {:induction false} AliveRepliesAt(st: Store, since: nat, order: seq<LogicAddr>, a: LogicAddr)
    requires forall x :: x in order ==> x in st.alives
    ensures AliveNews(AliveReplies(st, since, order), a) ==
            if a in order && st.alives[a].AliveRec? &&
               (if since == 0 then !st.alives[a].dead else st.alives[a].ver > since)
            then Some(AliveReply(a, st.alives[a].dead)) else None
  {
    if order != [] {
      var init, b := order[..|order| - 1], order[|order| - 1];
      KvClient.Split(order, a);
      AliveRepliesAt(st, since, init, a);
      var rest, all := AliveReplies(st, since, init), AliveReplies(st, since, order);
      if |all| > |rest| { assert all[..|all| - 1] == rest; }
    }
  }

  lemma {:induction false} TakeAlivesAt(s: KvClient.State, rs: seq<AliveReply>, a: LogicAddr)
    ensures var s' := TakeAlives(s, rs).0;
            && s'.members == s.members
            && (a in s'.alive <==> if AliveNews(rs, a).Some? then !AliveNews(rs, a).value.dead else a in s.alive)
  {
    if rs != [] { TakeAlivesAt(s, rs[..|rs| - 1], a); }
  }

  lemma AliveFetchedAt(sys: System, order: seq<LogicAddr>, a: LogicAddr)
    requires AlivesSynced(sys) && Feasible(sys, PollAlives(order))
    ensures a in TakeAlives(sys.client.node, AliveReplies(sys.store, sys.client.aliveVer, order)).0.alive <==>
            a in Fetched(AliveCopy(sys.client), AliveTable(sys.store))
  {
    var rs := AliveReplies(sys.store, sys.client.aliveVer, order);
    AliveRepliesAt(sys.store, sys.client.aliveVer, order, a);
    TakeAlivesAt(sys.client.node, rs, a);
  }

  lemma SameItems(x: map<LogicAddr, ()>, y: map<LogicAddr, ()>)
    requires forall a :: a in x <==> a in y
    ensures x == y
  {
    forall a | a in x ensures x[a] == y[a] {
      assert x[a] == () == y[a];
    }
  }

  lemma AlivesPolled(sys: System, order: seq<LogicAddr>)
    requires AlivesSynced(sys) && Feasible(sys, PollAlives(order))
    ensures var sys' := Next(sys, PollAlives(order)).0;
            && AliveCopy(sys'.client) == Poll(AliveCopy(sys.client), AliveTable(sys.store))
            && sys'.store == sys.store && MemberCopy(sys'.client) == MemberCopy(sys.client)
  {
    var copy, t := AliveCopy(sys.client), AliveTable(sys.store);
    if !UpToDate(copy, t) {
      var sys' := Next(sys, PollAlives(order)).0;
      TakeAlivesAt(sys.client.node, AliveReplies(sys.store, copy.ver, order), 0);
      forall a ensures a in sys'.client.node.alive <==> a in Fetched(copy, t) {
        AliveFetchedAt(sys, order, a);
      }
      SameItems(AliveCopy(sys'.client).items, Fetched(copy, t));
    }
  }

  /** A tombstone reports the deleted record, as it was last shown, and only to a client that has it. */
  lemma TombstoneRecord(s: KvClient.State, info: MemberInfo, m: Member)
    requires Decodable(m.addr)
    ensures MemberStep(s, info, MemberReply(m, true)).1 ==
            info.(remove := info.remove + if m.addr in s.members then [m.(available := m.addr in s.alive && m.available)] else [])
  {
  }

  // ---- Recovery ----

  ghost predicate StoreOk(st: Store) {
    StoreKeyed(st) && ServerOk(MemberTable(st)) && ServerOk(AliveTable(st))
  }

  lemma AdvancedOk<C>(t: Versioned.Server<C>, t': Versioned.Server<C>)
    requires ServerOk(t) && Advance(t, t')
    ensures ServerOk(t')
  {
    AdvanceKeeps(Copy(0, map[]), t, t');
  }

  lemma StepStoreOk(sys: System, step: Step)
    requires StoreOk(sys.store) && Feasible(sys, step)
    ensures StoreOk(Next(sys, step).0.store)
  {
    var st, st' := sys.store, Next(sys, step).0.store;
    match step
    case UpdateMember(m) =>
      InsertAdvances(st, m);
      AdvancedOk(MemberTable(st), MemberTable(st'));
    case RemoveMember(a) =>
      RemoveAdvances(st, a);
      AdvancedOk(MemberTable(st), MemberTable(st'));
    case KeepAlive(a, d) =>
      HeartbeatAdvances(st, a, d);
      AdvancedOk(AliveTable(st), AliveTable(st'));
    case ScanTimeouts(now) =>
      CheckTimeoutAdvances(st, now);
      AdvancedOk(AliveTable(st), AliveTable(st'));
    case _ =>
  }

  lemma {:induction false} RunStoreOk(sys: System, steps: seq<Step>)
    requires StoreOk(sys.store) && FeasibleRun(sys, steps)
    ensures StoreOk(After(sys, steps).store)
    decreases |steps|
  {
    if steps != [] {
      StepStoreOk(sys, steps[0]);
      RunStoreOk(Next(sys, steps[0]).0, steps[1..]);
    }
  }

  lemma RefetchMembers(sys: System, order: seq<LogicAddr>, a: LogicAddr)
    requires StoreKeyed(sys.store) && ServerOk(MemberTable(sys.store)) && sys.client.memberVer == 0
    requires Feasible(sys, PollMembers(order))
    ensures var sys' := Next(sys, PollMembers(order)).0;
            && sys'.store == sys.store && sys'.client.aliveVer == sys.client.aliveVer
            && sys'.client.node.alive == sys.client.node.alive
            && Cell(sys'.client.node.members, a) ==
               if a in LiveMembers(sys.store) then Some(LiveMembers(sys.store)[a]) else Cell(sys.client.node.members, a)
  {
    if sys.store.memberVer == 0 {
      assert a in LiveMembers(sys.store) ==> a in MemberTable(sys.store).table;
    } else {
      var rs := MemberReplies(sys.store, 0, order);
      MemberRepliesAt(sys.store, 0, order, a);
      TakeMembersAt(sys.client.node, rs, a);
      TakeMembersKeepsAlive(sys.client.node, rs);
    }
  }

  lemma RefetchAlives(sys: System, order: seq<LogicAddr>, a: LogicAddr)
    requires ServerOk(AliveTable(sys.store)) && sys.client.aliveVer == 0
    requires Feasible(sys, PollAlives(order))
    ensures var node := Next(sys, PollAlives(order)).0.client.node;
            && node.members == sys.client.node.members
            && (a in node.alive <==> a in LiveNodes(sys.store) || a in sys.client.node.alive)
  {
    if sys.store.aliveVer == 0 {
      assert a in LiveNodes(sys.store) ==> a in AliveTable(sys.store).table;
    } else {
      AliveRepliesAt(sys.store, 0, order, a);
      TakeAlivesAt(sys.client.node, AliveReplies(sys.store, 0, order), a);
    }
  }

  /** Whatever a client holds, forgetting its versions and polling twice brings in every live record
      and every live node, and takes nothing away. */
  lemma RecoveryExact(sys: System, m: seq<LogicAddr>, h: seq<LogicAddr>, a: LogicAddr)
    requires StoreOk(sys.store)
    requires KvClient.Enumerates(m, sys.store.members.Keys) && KvClient.Enumerates(h, sys.store.alives.Keys)
    ensures FeasibleRun(sys, [ResetVersions, PollMembers(m), PollAlives(h)])
    ensures var node := After(sys, [ResetVersions, PollMembers(m), PollAlives(h)]).client.node;
            && Cell(node.members, a) ==
               (if a in LiveMembers(sys.store) then Some(LiveMembers(sys.store)[a]) else Cell(sys.client.node.members, a))
            && (a in node.alive <==> a in LiveNodes(sys.store) || a in sys.client.node.alive)
  {
    var sys1 := Next(sys, ResetVersions).0;
    var sys2 := Next(sys1, PollMembers(m)).0;
    RefetchMembers(sys1, m, a);
    RefetchAlives(sys2, h, a);
    RunOfThree(sys, ResetVersions, PollMembers(m), PollAlives(h));
  }

  lemma Prepended(sys: System, step: Step, rest: seq<Step>)
    requires Feasible(sys, step) && FeasibleRun(Next(sys, step).0, rest)
    ensures FeasibleRun(sys, [step] + rest)
    ensures After(sys, [step] + rest) == After(Next(sys, step).0, rest)
  {
    assert ([step] + rest)[1..] == rest;
  }

  lemma RunOfThree(sys: System, x: Step, y: Step, z: Step)
    requires Feasible(sys, x) && Feasible(Next(sys, x).0, y) && Feasible(Next(Next(sys, x).0, y).0, z)
    ensures FeasibleRun(sys, [x, y, z])
    ensures After(sys, [x, y, z]) == Next(Next(Next(sys, x).0, y).0, z).0
  {
    var sys1 := Next(sys, x).0;
    Prepended(Next(sys1, y).0, z, []);
    Prepended(sys1, y, [z] + []);
    Prepended(sys, x, [y] + ([z] + []));
    assert [x, y, z] == [x] + ([y] + ([z] + []));
  }

  // ---- Members over every run ----

  /** After every member poll of the run the client holds exactly the live members. */
  ghost predicate MembersExact(sys: System, steps: seq<Step>)
    requires FeasibleRun(sys, steps)
    decreases |steps|
  {
    steps != [] ==>
      var sys' := Next(sys, steps[0]).0;
      && (steps[0].PollMembers? ==> sys'.client.node.members == LiveMembers(sys'.store))
      && MembersExact(sys', steps[1..])
  }

  /** No member poll of the run starts from version 0 while the client holds a removed member. */
  ghost predicate MissesNoMember(sys: System, steps: seq<Step>)
    requires FeasibleRun(sys, steps)
    decreases |steps|
  {
    steps != [] ==>
      && (steps[0].PollMembers? ==> forall a :: !MissesMember(sys, a))
      && MissesNoMember(Next(sys, steps[0]).0, steps[1..])
  }

  lemma OtherStepsKeepMembers(sys: System, step: Step)
    requires MembersSynced(sys) && Feasible(sys, step) && !step.PollMembers?
    ensures MembersSynced(Next(sys, step).0)
  {
    var sys' := Next(sys, step).0;
    match step
    case UpdateMember(m) =>
      InsertAdvances(sys.store, m);
      AdvanceKeeps(MemberCopy(sys.client), MemberTable(sys.store), MemberTable(sys'.store));
    case RemoveMember(a) =>
      RemoveAdvances(sys.store, a);
      AdvanceKeeps(MemberCopy(sys.client), MemberTable(sys.store), MemberTable(sys'.store));
    case ResetVersions => ResetKeeps(MemberCopy(sys.client), MemberTable(sys.store));
    case PollAlives(order) =>
      TakeAlivesAt(sys.client.node, AliveReplies(sys.store, sys.client.aliveVer, order), 0);
    case KeepAlive(_, _) => assert MemberTable(sys'.store) == MemberTable(sys.store);
    case ScanTimeouts(_) => assert MemberTable(sys'.store) == MemberTable(sys.store);
  }

  lemma MemberTableCurrent(st: Store)
    ensures Current(MemberTable(st)) == LiveMembers(st)
  {
  }

  lemma MissedMember(sys: System, a: LogicAddr)
    requires MembersSynced(sys)
    ensures Missed(MemberCopy(sys.client), MemberTable(sys.store), a) <==> MissesMember(sys, a)
  {
    var copy, t := MemberCopy(sys.client), MemberTable(sys.store);
    if a in copy.items { assert a in t.table; }
  }

  lemma MemberPollExact(sys: System, order: seq<LogicAddr>)
    requires MembersSynced(sys) && Feasible(sys, PollMembers(order))
    ensures var sys' := Next(sys, PollMembers(order)).0;
            && (sys'.client.node.members == LiveMembers(sys'.store) <==> forall a :: !MissesMember(sys, a))
            && ((forall a :: !MissesMember(sys, a)) ==> MembersSynced(sys'))
  {
    var copy, t := MemberCopy(sys.client), MemberTable(sys.store);
    MembersPolled(sys, order);
    PollExact(copy, t);
    MemberTableCurrent(sys.store);
    forall a ensures Missed(copy, t, a) <==> MissesMember(sys, a) {
      MissedMember(sys, a);
    }
  }

  /** For every run: all member polls are exact if and only if none of them misses a removal. */
  lemma {:induction false} MembersRunExact(sys: System, steps: seq<Step>)
    requires MembersSynced(sys) && FeasibleRun(sys, steps)
    ensures MembersExact(sys, steps) <==> MissesNoMember(sys, steps)
    decreases |steps|
  {
    if steps != [] {
      if steps[0].PollMembers? {
        MemberPollExact(sys, steps[0].memberOrder);
      } else {
        OtherStepsKeepMembers(sys, steps[0]);
      }
      var sys' := Next(sys, steps[0]).0;
      if steps[0].PollMembers? ==> forall a :: !MissesMember(sys, a) {
        MembersRunExact(sys', steps[1..]);
      }
    }
  }

  lemma InitialSynced()
    ensures MembersSynced(INITIAL) && AlivesSynced(INITIAL)
  {
  }

  /** Synced, and empty while still at version 0. */
  ghost predicate Fresh(sys: System) {
    MembersSynced(sys) && (sys.client.memberVer == 0 ==> sys.client.node.members == map[])
  }

  lemma PollStaysCurrent(sys: System, order: seq<LogicAddr>)
    requires Fresh(sys) && Feasible(sys, PollMembers(order))
    ensures var sys' := Next(sys, PollMembers(order)).0;
            Fresh(sys') && sys'.client.node.members == LiveMembers(sys'.store)
  {
    MemberPollExact(sys, order);
    MembersPolled(sys, order);
  }

  lemma OtherStepsStayCurrent(sys: System, step: Step)
    requires Fresh(sys) && Feasible(sys, step) && !step.PollMembers? && step != ResetVersions
    ensures Fresh(Next(sys, step).0)
  {
    OtherStepsKeepMembers(sys, step);
    if step.PollAlives? {
      TakeAlivesAt(sys.client.node, AliveReplies(sys.store, sys.client.aliveVer, step.aliveOrder), 0);
    }
  }

  /** Without a version reset every member poll is exact, whatever else happens. */
  lemma {:induction false} MembersWithoutReset(sys: System, steps: seq<Step>)
    requires Fresh(sys) && FeasibleRun(sys, steps) && ResetVersions !in steps
    ensures MembersExact(sys, steps)
    decreases |steps|
  {
    if steps != [] {
      if steps[0].PollMembers? {
        PollStaysCurrent(sys, steps[0].memberOrder);
      } else {
        OtherStepsStayCurrent(sys, steps[0]);
      }
      MembersWithoutReset(Next(sys, steps[0]).0, steps[1..]);
    }
  }

  /** A harbor that was just added is not among them. */
  lemma HarborMemberLost(m: Member)
    requires IsHarbor(m.addr)
    ensures m.addr in Insert(EMPTY, m).members && LiveMembers(Insert(EMPTY, m)) == map[]
  {
    DecodableExact(m.addr);
  }

  /** The live members are all live records exactly when every live record parses: harbor
      records are the ones that do not. */
  lemma LiveMembersComplete(st: Store)
    ensures LiveMembers(st).Keys == (set a | a in st.members && !st.members[a].markdel) <==>
            forall a :: a in st.members && !st.members[a].markdel ==>
              Cluster(a) != 0 && Type(a) != 0 && !IsHarbor(a)
  {
    forall a ensures Decodable(a) <==> Cluster(a) != 0 && Type(a) != 0 && !IsHarbor(a) {
      DecodableExact(a);
    }
    var all := set a | a in st.members && !st.members[a].markdel;
    if LiveMembers(st).Keys == all {
      forall a | a in all ensures Decodable(a) {
        assert a in LiveMembers(st).Keys;
      }
    }
  }

  // ---- Heartbeats over every run ----

  ghost predicate AlivesExact(sys: System, steps: seq<Step>)
    requires FeasibleRun(sys, steps)
    decreases |steps|
  {
    steps != [] ==>
      var sys' := Next(sys, steps[0]).0;
      && (steps[0].PollAlives? ==> sys'.client.node.alive == LiveNodes(sys'.store))
      && AlivesExact(sys', steps[1..])
  }

  ghost predicate MissesNoDeath(sys: System, steps: seq<Step>)
    requires FeasibleRun(sys, steps)
    decreases |steps|
  {
    steps != [] ==>
      && (steps[0].PollAlives? ==> forall a :: !MissesDeath(sys, a))
      && MissesNoDeath(Next(sys, steps[0]).0, steps[1..])
  }

  lemma {:induction false} TakeMembersKeepsAlive(s: KvClient.State, rs: seq<MemberReply>)
    ensures TakeMembers(s, rs).0.alive == s.alive
  {
    if rs != [] { TakeMembersKeepsAlive(s, rs[..|rs| - 1]); }
  }

  lemma OtherStepsKeepAlives(sys: System, step: Step)
    requires AlivesSynced(sys) && Feasible(sys, step) && !step.PollAlives?
    ensures AlivesSynced(Next(sys, step).0)
  {
    var sys' := Next(sys, step).0;
    match step
    case KeepAlive(a, deadline) =>
      HeartbeatAdvances(sys.store, a, deadline);
      AdvanceKeeps(AliveCopy(sys.client), AliveTable(sys.store), AliveTable(sys'.store));
    case ScanTimeouts(now) =>
      CheckTimeoutAdvances(sys.store, now);
      AdvanceKeeps(AliveCopy(sys.client), AliveTable(sys.store), AliveTable(sys'.store));
    case ResetVersions => ResetKeeps(AliveCopy(sys.client), AliveTable(sys.store));
    case PollMembers(order) =>
      TakeMembersKeepsAlive(sys.client.node, MemberReplies(sys.store, sys.client.memberVer, order));
    case UpdateMember(_) => assert AliveTable(sys'.store) == AliveTable(sys.store);
    case RemoveMember(_) => assert AliveTable(sys'.store) == AliveTable(sys.store);
  }

  lemma AliveItems(client: ClientState, st: Store)
    ensures AliveCopy(client).items == Current(AliveTable(st)) <==> client.node.alive == LiveNodes(st)
  {
    var items, now := AliveCopy(client).items, Current(AliveTable(st));
    assert now.Keys == LiveNodes(st) && items.Keys == client.node.alive;
    if items.Keys == now.Keys {
      assert items == now;
    }
  }

  lemma AlivePollExact(sys: System, order: seq<LogicAddr>)
    requires AlivesSynced(sys) && Feasible(sys, PollAlives(order))
    ensures var sys' := Next(sys, PollAlives(order)).0;
            && (sys'.client.node.alive == LiveNodes(sys'.store) <==> forall a :: !MissesDeath(sys, a))
            && ((forall a :: !MissesDeath(sys, a)) ==> AlivesSynced(sys'))
  {
    var copy, t := AliveCopy(sys.client), AliveTable(sys.store);
    var sys' := Next(sys, PollAlives(order)).0;
    AlivesPolled(sys, order);
    PollExact(copy, t);
    AliveItems(sys'.client, sys.store);
    forall a ensures Missed(copy, t, a) <==> MissesDeath(sys, a) {
    }
  }

  /** For every run, many nodes timed out under one version included: all heartbeat polls are
      exact if and only if none of them misses a death. */
  lemma {:induction false} AlivesRunExact(sys: System, steps: seq<Step>)
    requires AlivesSynced(sys) && FeasibleRun(sys, steps)
    ensures AlivesExact(sys, steps) <==> MissesNoDeath(sys, steps)
    decreases |steps|
  {
    if steps != [] {
      if steps[0].PollAlives? {
        AlivePollExact(sys, steps[0].aliveOrder);
      } else {
        OtherStepsKeepAlives(sys, steps[0]);
      }
      var sys' := Next(sys, steps[0]).0;
      if steps[0].PollAlives? ==> forall a :: !MissesDeath(sys, a) {
        AlivesRunExact(sys', steps[1..]);
      }
    }
  }

  /** No heartbeat of the run is for an address marked dead at that moment. */
  ghost predicate NoDeadBeats(sys: System, steps: seq<Step>)
    requires FeasibleRun(sys, steps)
    decreases |steps|
  {
    steps != [] ==>
      && (steps[0].KeepAlive? ==> !IsDead(sys.store, steps[0].beat))
      && NoDeadBeats(Next(sys, steps[0]).0, steps[1..])
  }

  ghost predicate NothingTruncated(st: Store) {
    forall a :: a in st.alives ==> st.alives[a].AliveRec?
  }

  lemma {:induction false} AlivesWithoutReset(sys: System, steps: seq<Step>)
    requires AlivesSynced(sys) && FeasibleRun(sys, steps) && NothingTruncated(sys.store)
    requires sys.client.aliveVer == 0 ==> sys.client.node.alive == {}
    requires ResetVersions !in steps && NoDeadBeats(sys, steps)
    ensures AlivesExact(sys, steps)
    decreases |steps|
  {
    if steps != [] {
      var sys' := Next(sys, steps[0]).0;
      if steps[0].PollAlives? {
        AlivePollExact(sys, steps[0].aliveOrder);
        AlivesPolled(sys, steps[0].aliveOrder);
      } else {
        OtherStepsKeepAlives(sys, steps[0]);
        if steps[0].PollMembers? {
          TakeMembersKeepsAlive(sys.client.node, MemberReplies(sys.store, sys.client.memberVer, steps[0].memberOrder));
        }
      }
      AlivesWithoutReset(sys', steps[1..]);
    }
  }

  // ---- What goes wrong otherwise ----

  lemma PrependMembers(sys: System, step: Step, rest: seq<Step>)
    requires Feasible(sys, step) && FeasibleRun(Next(sys, step).0, rest)
    requires !MembersExact(Next(sys, step).0, rest)
    ensures FeasibleRun(sys, [step] + rest) && !MembersExact(sys, [step] + rest)
  {
    assert ([step] + rest)[1..] == rest;
  }

  lemma PrependAlives(sys: System, step: Step, rest: seq<Step>)
    requires Feasible(sys, step) && FeasibleRun(Next(sys, step).0, rest)
    requires !AlivesExact(Next(sys, step).0, rest)
    ensures FeasibleRun(sys, [step] + rest) && !AlivesExact(sys, [step] + rest)
  {
    assert ([step] + rest)[1..] == rest;
  }

  /** From any state in which the client has seen a member: a reset, a removal and a refetch
      leave the member at the client. */
  lemma ResetLosesRemoval(sys: System, a: LogicAddr, order: seq<LogicAddr>)
    requires MembersSynced(sys) && a in sys.client.node.members && KvClient.Enumerates(order, sys.store.members.Keys)
    ensures var steps := [ResetVersions] + ([RemoveMember(a)] + [PollMembers(order)]);
            FeasibleRun(sys, steps) && !MembersExact(sys, steps)
  {
    assert a in MemberCopy(sys.client).items;
    var sys1 := Next(sys, ResetVersions).0;
    OtherStepsKeepMembers(sys, ResetVersions);
    var sys2 := Next(sys1, RemoveMember(a)).0;
    OtherStepsKeepMembers(sys1, RemoveMember(a));
    assert sys2.store.members.Keys == sys.store.members.Keys;
    assert MissesMember(sys2, a);
    MissedMemberStays(sys2, a, order);
    PrependMembers(sys1, RemoveMember(a), [PollMembers(order)]);
    PrependMembers(sys, ResetVersions, [RemoveMember(a)] + [PollMembers(order)]);
  }

  lemma MissedMemberStays(sys: System, a: LogicAddr, order: seq<LogicAddr>)
    requires MembersSynced(sys) && Feasible(sys, PollMembers(order)) && MissesMember(sys, a)
    ensures FeasibleRun(sys, [PollMembers(order)]) && !MembersExact(sys, [PollMembers(order)])
  {
    MemberPollExact(sys, order);
    assert [PollMembers(order)][1..] == [];
  }

  /** Recovery: a removal between the last poll and the refetch from version 0 stays unnoticed. */
  lemma RecoveryKeepsRemovedMember(m: Member)
    requires Decodable(m.addr)
    ensures var steps := [UpdateMember(m)] + ([PollMembers([m.addr])] +
                         ([ResetVersions] + ([RemoveMember(m.addr)] + [PollMembers([m.addr])])));
            FeasibleRun(INITIAL, steps) && !MembersExact(INITIAL, steps)
  {
    var sys1 := Next(INITIAL, UpdateMember(m)).0;
    InitialSynced();
    OtherStepsKeepMembers(INITIAL, UpdateMember(m));
    MemberPollExact(sys1, [m.addr]);
    MembersPolled(sys1, [m.addr]);
    var sys2 := Next(sys1, PollMembers([m.addr])).0;
    assert m.addr in LiveMembers(sys2.store);
    ResetLosesRemoval(sys2, m.addr, [m.addr]);
    var tail := [ResetVersions] + ([RemoveMember(m.addr)] + [PollMembers([m.addr])]);
    PrependMembers(sys1, PollMembers([m.addr]), tail);
    PrependMembers(INITIAL, UpdateMember(m), [PollMembers([m.addr])] + tail);
  }

  /** From any state in which the client has seen a node alive: its timeout and one more
      heartbeat leave it alive at the client. */
  lemma BeatLosesDeath(sys: System, a: LogicAddr, now: int, deadline: int, order: seq<LogicAddr>)
    requires AlivesSynced(sys) && KvClient.Enumerates(order, sys.store.alives.Keys)
    requires a in sys.client.node.alive && a in sys.store.alives && TimedOut(sys.store.alives[a], now)
    ensures var steps := [ScanTimeouts(now)] + ([KeepAlive(a, deadline)] + [PollAlives(order)]);
            FeasibleRun(sys, steps) && !AlivesExact(sys, steps)
  {
    var sys1 := Next(sys, ScanTimeouts(now)).0;
    OtherStepsKeepAlives(sys, ScanTimeouts(now));
    var sys2 := Next(sys1, KeepAlive(a, deadline)).0;
    OtherStepsKeepAlives(sys1, KeepAlive(a, deadline));
    DeadBeatTruncates(sys.store, a, now, deadline);
    assert MissesDeath(sys2, a);
    MissedDeathStays(sys2, a, order);
    PrependAlives(sys1, KeepAlive(a, deadline), [PollAlives(order)]);
    PrependAlives(sys, ScanTimeouts(now), [KeepAlive(a, deadline)] + [PollAlives(order)]);
  }

  lemma DeadBeatTruncates(st: Store, a: LogicAddr, now: int, deadline: int)
    requires a in st.alives && TimedOut(st.alives[a], now)
    ensures var st2 := Heartbeat(CheckTimeout(st, now), a, deadline);
            st2.alives.Keys == st.alives.Keys && st2.alives[a].Truncated?
  {
  }

  lemma MissedDeathStays(sys: System, a: LogicAddr, order: seq<LogicAddr>)
    requires AlivesSynced(sys) && Feasible(sys, PollAlives(order)) && MissesDeath(sys, a)
    ensures FeasibleRun(sys, [PollAlives(order)]) && !AlivesExact(sys, [PollAlives(order)])
  {
    AlivePollExact(sys, order);
    assert [PollAlives(order)][1..] == [];
  }

  /** One heartbeat for a dead node hides its death from every client that had not seen it. */
  lemma DeadBeatHidesDeath(a: LogicAddr)
    ensures var steps := [KeepAlive(a, 0)] + ([PollAlives([a])] +
                         ([ScanTimeouts(1)] + ([KeepAlive(a, 9)] + [PollAlives([a])])));
            FeasibleRun(INITIAL, steps) && !AlivesExact(INITIAL, steps)
  {
    InitialSynced();
    var sys1 := Next(INITIAL, KeepAlive(a, 0)).0;
    OtherStepsKeepAlives(INITIAL, KeepAlive(a, 0));
    AlivePollExact(sys1, [a]);
    AlivesPolled(sys1, [a]);
    var sys2 := Next(sys1, PollAlives([a])).0;
    assert a in LiveNodes(sys2.store);
    BeatLosesDeath(sys2, a, 1, 9, [a]);
    var tail := [ScanTimeouts(1)] + ([KeepAlive(a, 9)] + [PollAlives([a])]);
    PrependAlives(sys1, PollAlives([a]), tail);
    PrependAlives(INITIAL, KeepAlive(a, 0), [PollAlives([a])] + tail);
  }

  // ---- Deltas ----

  function EventOf(r: MemberReply): KvClient.ConfigEvent {
    if !Decodable(r.info.addr) then KvClient.Put(None)
    else if r.markdel then KvClient.Delete(r.info.addr)
    else KvClient.Put(Some(r.info))
  }

  function EventsOf(rs: seq<MemberReply>): (evs: seq<KvClient.ConfigEvent>)
    ensures |evs| == |rs|
  {
    seq(|rs|, i requires 0 <= i < |rs| => EventOf(rs[i]))
  }

  /** The reply loop does to members and lists what the watch-event loop does; only the
      payload of a removal differs. */
  ghost predicate SameLists(i1: MemberInfo, i2: MemberInfo, a: LogicAddr) {
    i1.add == i2.add && i1.update == i2.update && Count(i1.remove, a) == Count(i2.remove, a)
  }

  lemma ReplyIsEvent(s: KvClient.State, i1: MemberInfo, i2: MemberInfo, r: MemberReply, a: LogicAddr)
    requires Keyed(s.members) && SameLists(i1, i2, a)
    ensures var (s1, j1) := MemberStep(s, i1, r);
            var (s2, j2) := KvClient.ConfigStep(s, i2, EventOf(r));
            s1 == s2 && Keyed(s1.members) && SameLists(j1, j2, a)
  {
    var k := r.info.addr;
    if k in s.members {
      Append(i1.remove, Shown(r.info, k in s.alive), a);
      Append(i2.remove, s.members[k].(available := false), a);
    }
  }

  lemma {:induction false} RepliesAreEvents(s: KvClient.State, rs: seq<MemberReply>, a: LogicAddr)
    requires Keyed(s.members)
    ensures var (s1, i1) := TakeMembers(s, rs);
            var (s2, i2) := KvClient.ConfigBatch(s, EventsOf(rs));
            s1 == s2 && Keyed(s1.members) && SameLists(i1, i2, a)
  {
    if rs != [] {
      var init, r := rs[..|rs| - 1], rs[|rs| - 1];
      RepliesAreEvents(s, init, a);
      assert EventsOf(rs)[..|rs| - 1] == EventsOf(init);
      var (s1, i1) := TakeMembers(s, init);
      var (s2, i2) := KvClient.ConfigBatch(s, EventsOf(init));
      ReplyIsEvent(s1, i1, i2, r, a);
    }
  }

  function Times(order: seq<LogicAddr>, a: LogicAddr): nat {
    if order == [] then 0 else Times(order[..|order| - 1], a) + if order[|order| - 1] == a then 1 else 0
  }

  function ReplyTimes(rs: seq<MemberReply>, a: LogicAddr): nat {
    if rs == [] then 0 else ReplyTimes(rs[..|rs| - 1], a) + if rs[|rs| - 1].info.addr == a then 1 else 0
  }

  lemma {:induction false} TouchesBounded(rs: seq<MemberReply>, a: LogicAddr)
    ensures |KvClient.Touches(EventsOf(rs), a)| <= ReplyTimes(rs, a)
  {
    if rs != [] {
      TouchesBounded(rs[..|rs| - 1], a);
      assert EventsOf(rs)[..|rs| - 1] == EventsOf(rs[..|rs| - 1]);
    }
  }

  lemma ReplyAppended(rs: seq<MemberReply>, r: MemberReply, a: LogicAddr)
    ensures ReplyTimes(rs + [r], a) == ReplyTimes(rs, a) + if r.info.addr == a then 1 else 0
  {
    assert (rs + [r])[..|rs|] == rs;
  }

  lemma {:induction false} RepliesBounded(st: Store, since: nat, order: seq<LogicAddr>, a: LogicAddr)
    requires StoreKeyed(st) && forall x :: x in order ==> x in st.members
    ensures ReplyTimes(MemberReplies(st, since, order), a) <= Times(order, a)
  {
    if order != [] {
      var init, last := order[..|order| - 1], order[|order| - 1];
      assert forall x :: x in init ==> x in order;
      assert last in order;
      RepliesBounded(st, since, init, a);
      ReplyAppended(MemberReplies(st, since, init), MemberReply(st.members[last].info, st.members[last].markdel), a);
    }
  }

  lemma {:induction false} TimesOnce(order: seq<LogicAddr>, a: LogicAddr)
    requires forall i, j :: 0 <= i < j < |order| ==> order[i] != order[j]
    ensures Times(order, a) == if a in order then 1 else 0
  {
    if order != [] {
      KvClient.Split(order, a);
      TimesOnce(order[..|order| - 1], a);
    }
  }

  /** A reply names every address at most once. */
  lemma RepliesTouchOnce(st: Store, since: nat, order: seq<LogicAddr>, a: LogicAddr)
    requires StoreKeyed(st) && KvClient.Enumerates(order, st.members.Keys)
    ensures |KvClient.Touches(EventsOf(MemberReplies(st, since, order)), a)| <= 1
  {
    TouchesBounded(MemberReplies(st, since, order), a);
    RepliesBounded(st, since, order, a);
    TimesOnce(order, a);
  }

  lemma AtMostOneIsClean(known: bool, ops: seq<bool>)
    requires |ops| <= 1
    ensures KvClient.CleanAt(known, ops)
  {
    if |ops| == 1 { assert KvClient.Tally(ops[..0], true) == 0 && KvClient.Tally(ops[..0], false) == 0; }
  }

  lemma MembersDelta(s: KvClient.State, st: Store, since: nat, order: seq<LogicAddr>)
    requires Keyed(s.members) && StoreKeyed(st) && KvClient.Enumerates(order, st.members.Keys)
    ensures var (s', info) := TakeMembers(s, MemberReplies(st, since, order));
            && Keyed(s'.members)
            && WellFormed(KvClient.Shows(s), info) && Apply(KvClient.Shows(s), info) == KvClient.Shows(s')
  {
    var rs := MemberReplies(st, since, order);
    var v := KvClient.Shows(s);
    var (s1, i1) := TakeMembers(s, rs);
    var (s2, i2) := KvClient.ConfigBatch(s, EventsOf(rs));
    forall a ensures KvClient.CleanAt(a in s.members, KvClient.Touches(EventsOf(rs), a)) {
      RepliesTouchOnce(st, since, order, a);
      AtMostOneIsClean(a in s.members, KvClient.Touches(EventsOf(rs), a));
    }
    KvClient.ConfigBatchExact(s, EventsOf(rs));
    RepliesAreEvents(s, rs, 0);
    forall a ensures Count(i1.remove, a) == Count(i2.remove, a) {
      RepliesAreEvents(s, rs, a);
    }
    RemovedAddresses(v, i1, i2);
  }

  lemma AliveReplyDelta(v: View, s: KvClient.State, update: seq<Member>, r: AliveReply)
    requires Keyed(s.members) && PutAll(v, update) == KvClient.Shows(s)
    ensures var (s', update') := Redis.AliveStep(s, update, r);
            PutAll(v, update') == KvClient.Shows(s')
  {
    var (s', update') := Redis.AliveStep(s, update, r);
    if update' == update {
      assert KvClient.Shows(s') == KvClient.Shows(s);
    } else {
      var m := s.members[r.addr].(available := !r.dead);
      assert update' == update + [m];
      assert KvClient.Shows(s') == KvClient.Shows(s)[r.addr := m];
      KvClient.PutLast(v, update, m);
    }
  }

  lemma {:induction false} AlivesDelta(s: KvClient.State, rs: seq<AliveReply>)
    requires Keyed(s.members)
    ensures var (s', update) := TakeAlives(s, rs);
            && s'.members == s.members
            && (forall m :: m in update ==> m.addr in s.members)
            && PutAll(KvClient.Shows(s), update) == KvClient.Shows(s')
  {
    if rs != [] {
      AlivesDelta(s, rs[..|rs| - 1]);
      var (s1, update1) := TakeAlives(s, rs[..|rs| - 1]);
      AliveReplyDelta(KvClient.Shows(s), s1, update1, rs[|rs| - 1]);
    }
  }

  /** Over every run, resets and truncated records included, the consumer gets only well-formed
      deltas and its view is always the client's members joined with the client's heartbeats. */
  ghost predicate InSync(sys: System, v: View, steps: seq<Step>)
    requires FeasibleRun(sys, steps)
    decreases |steps|
  {
    && v == KvClient.Shows(sys.client.node)
    && (steps != [] ==>
          var (sys', info) := Next(sys, steps[0]);
          WellFormed(v, info) && InSync(sys', Apply(v, info), steps[1..]))
  }

  ghost predicate StaysInSync(sys: System, step: Step)
    requires Feasible(sys, step)
  {
    var (sys', info) := Next(sys, step);
    var v := KvClient.Shows(sys.client.node);
    && Keyed(sys'.client.node.members) && StoreKeyed(sys'.store)
    && WellFormed(v, info) && Apply(v, info) == KvClient.Shows(sys'.client.node)
  }

  lemma MembersInSync(sys: System, order: seq<LogicAddr>)
    requires Keyed(sys.client.node.members) && StoreKeyed(sys.store) && Feasible(sys, PollMembers(order))
    ensures StaysInSync(sys, PollMembers(order))
  {
    MembersDelta(sys.client.node, sys.store, sys.client.memberVer, order);
  }

  lemma AlivesInSync(sys: System, order: seq<LogicAddr>)
    requires Keyed(sys.client.node.members) && StoreKeyed(sys.store) && Feasible(sys, PollAlives(order))
    ensures StaysInSync(sys, PollAlives(order))
  {
    var s := sys.client.node;
    var rs := AliveReplies(sys.store, sys.client.aliveVer, order);
    AlivesDelta(s, rs);
    OnlyUpdates(KvClient.Shows(s), TakeAlives(s, rs).1);
  }

  lemma OthersInSync(sys: System, step: Step)
    requires Keyed(sys.client.node.members) && StoreKeyed(sys.store) && Feasible(sys, step)
    requires !step.PollMembers? && !step.PollAlives?
    ensures StaysInSync(sys, step)
  {
  }

  lemma StepInSync(sys: System, step: Step)
    requires Keyed(sys.client.node.members) && StoreKeyed(sys.store) && Feasible(sys, step)
    ensures StaysInSync(sys, step)
  {
    if step.PollMembers? {
      MembersInSync(sys, step.memberOrder);
    } else if step.PollAlives? {
      AlivesInSync(sys, step.aliveOrder);
    } else {
      OthersInSync(sys, step);
    }
  }

  lemma {:induction false} RunInSync(sys: System, steps: seq<Step>)
    requires Keyed(sys.client.node.members) && StoreKeyed(sys.store) && FeasibleRun(sys, steps)
    ensures InSync(sys, KvClient.Shows(sys.client.node), steps)
    decreases |steps|
  {
    if steps != [] {
      StepInSync(sys, steps[0]);
      RunInSync(Next(sys, steps[0]).0, steps[1..]);
    }
  }
}
