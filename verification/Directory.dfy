/** From the Redis server to the node cache: the chain scripts, polls, deltas, indexes. */
module Directory {
  import opened Basics
  import opened Addr
  import opened Membership
  import opened Redis
  import opened RedisSync
  import opened RedisHistory
  import opened NodeCache
  import opened Feed
  import KvClient

  /** The deltas of a run. */
  function Emitted(sys: System, steps: seq<Step>): seq<MemberInfo>
    requires FeasibleRun(sys, steps)
    decreases |steps|
  {
    if steps == [] then []
    else
      var (sys', info) := Next(sys, steps[0]);
      [info] + Emitted(sys', steps[1..])
  }

  /** They are well formed and fold to the client's members joined with its heartbeats. */
  lemma {:induction false} EmittedFold(sys: System, steps: seq<Step>)
    requires Keyed(sys.client.node.members) && StoreKeyed(sys.store) && FeasibleRun(sys, steps)
    ensures var v := KvClient.Shows(sys.client.node);
            && AllWellFormed(v, Emitted(sys, steps))
            && Fold(v, Emitted(sys, steps)) == KvClient.Shows(After(sys, steps).client.node)
    decreases |steps|
  {
    if steps != [] {
      var (sys', info) := Next(sys, steps[0]);
      StepInSync(sys, steps[0]);
      EmittedFold(sys', steps[1..]);
      assert Emitted(sys, steps)[1..] == Emitted(sys', steps[1..]);
    }
  }

  /** For every run from the empty system, resets and truncated records included: the cache tracks
      every record of every delta if and only if the deltas are steady, and then it mirrors the
      client's members joined with its heartbeats. */
  lemma CacheExact(local: LogicAddr, steps: seq<Step>)
    requires FeasibleRun(INITIAL, steps)
    ensures AllTracked(Empty(local), map[], Emitted(INITIAL, steps)) <==> AllSteady(local, map[], Emitted(INITIAL, steps))
    ensures AllSteady(local, map[], Emitted(INITIAL, steps)) ==>
              var o := FollowAll(Empty(local), Emitted(INITIAL, steps));
              && o.Running? && Coherent(o.cache) && o.cache.local == local
              && Mirrors(o.cache, KvClient.Shows(After(INITIAL, steps).client.node))
  {
    EmptyCache(local);
    assert KvClient.Shows(INITIAL.client.node) == map[];
    EmittedFold(INITIAL, steps);
    FollowExact(Empty(local), map[], Emitted(INITIAL, steps));
  }

  // ---- Runs that obey a law ----

  ghost predicate StoreConforms(law: Law, st: Store) {
    && StoreKeyed(st)
    && (forall a :: a in st.members ==> Obeys(law, st.members[a].info))
    && (law.kept.Some? && law.kept.value.0 in st.members ==> !st.members[law.kept.value.0].markdel)
  }

  /** A step writes only records that obey the law and does not remove the kept address. */
  ghost predicate StepConforms(law: Law, step: Step) {
    && (step.UpdateMember? ==> Obeys(law, step.member))
    && (law.kept.Some? ==> step != RemoveMember(law.kept.value.0))
  }

  predicate ReplyConforms(law: Law, r: MemberReply) {
    Obeys(law, r.info) && (law.kept.Some? && r.markdel ==> r.info.addr != law.kept.value.0)
  }

  lemma {:induction false} MembersConform(law: Law, s: KvClient.State, rs: seq<MemberReply>)
    requires ViewConforms(law, s.members)
    requires forall r :: r in rs ==> ReplyConforms(law, r)
    ensures var (s', info) := TakeMembers(s, rs);
            ViewConforms(law, s'.members) && InfoConforms(law, info)
  {
    if rs != [] {
      assert rs[|rs| - 1] in rs;
      MembersConform(law, s, rs[..|rs| - 1]);
    }
  }

  lemma {:induction false} RepliesConform(law: Law, st: Store, since: nat, order: seq<LogicAddr>)
    requires StoreConforms(law, st) && forall a :: a in order ==> a in st.members
    ensures forall r :: r in MemberReplies(st, since, order) ==> ReplyConforms(law, r)
  {
    if order != [] {
      KvClient.Split(order, order[|order| - 1]);
      RepliesConform(law, st, since, order[..|order| - 1]);
    }
  }

  lemma {:induction false} AlivesConform(law: Law, s: KvClient.State, rs: seq<AliveReply>)
    requires ViewConforms(law, s.members)
    ensures var (s', update) := TakeAlives(s, rs);
            s'.members == s.members && Conforms(law, update)
  {
    if rs != [] { AlivesConform(law, s, rs[..|rs| - 1]); }
  }

  lemma ConformKept(law: Law, sys: System, step: Step)
    requires Feasible(sys, step) && StepConforms(law, step)
    requires StoreConforms(law, sys.store) && ViewConforms(law, sys.client.node.members)
    ensures var (sys', info) := Next(sys, step);
            && StoreConforms(law, sys'.store) && ViewConforms(law, sys'.client.node.members)
            && InfoConforms(law, info)
  {
    match step
    case PollMembers(order) =>
      RepliesConform(law, sys.store, sys.client.memberVer, order);
      MembersConform(law, sys.client.node, MemberReplies(sys.store, sys.client.memberVer, order));
    case PollAlives(order) =>
      AlivesConform(law, sys.client.node, AliveReplies(sys.store, sys.client.aliveVer, order));
    case _ =>
  }

  lemma ShownConforms(law: Law, s: KvClient.State)
    requires ViewConforms(law, s.members)
    ensures ViewConforms(law, KvClient.Shows(s))
  {
    forall a | a in s.members ensures Obeys(law, Shown(s.members[a], a in s.alive)) {
    }
  }

  /** Over every run in which the exported flag of an address is fixed, the cache never crashes,
      its indexes stay exact, and unless the local node was removed or re-addressed it mirrors
      the client's members joined with the client's heartbeats. */
  lemma {:induction false} CacheFollows(law: Law, sys: System, c: Cache, steps: seq<Step>)
    requires FeasibleRun(sys, steps)
    requires forall step :: step in steps ==> StepConforms(law, step)
    requires StoreConforms(law, sys.store) && ViewConforms(law, sys.client.node.members)
    requires Coherent(c) && Mirrors(c, KvClient.Shows(sys.client.node))
    ensures var o := FollowAll(c, Emitted(sys, steps));
            && o != Crashed && Coherent(o.cache) && o.cache.local == c.local
            && (o.Running? ==> Mirrors(o.cache, KvClient.Shows(After(sys, steps).client.node)))
    decreases |steps|
  {
    if steps != [] {
      var (sys', info) := Next(sys, steps[0]);
      var v := KvClient.Shows(sys.client.node);
      StepInSync(sys, steps[0]);
      ConformKept(law, sys, steps[0]);
      ShownConforms(law, sys.client.node);
      OnUpdateConforming(law, c, v, info);
      assert Emitted(sys, steps)[1..] == Emitted(sys', steps[1..]);
      var o := OnUpdate(c, info);
      if o.Running? {
        CacheFollows(law, sys', o.cache, steps[1..]);
      }
    }
  }

  /** When the exported flags are fixed and no step removes or re-addresses the local node, every
      delta of the run is steady. */
  lemma {:induction false} LawfulRunSteady(law: Law, sys: System, steps: seq<Step>)
    requires FeasibleRun(sys, steps) && law.kept.Some?
    requires forall step :: step in steps ==> StepConforms(law, step)
    requires StoreConforms(law, sys.store) && ViewConforms(law, sys.client.node.members)
    ensures AllSteady(law.kept.value.0, KvClient.Shows(sys.client.node), Emitted(sys, steps))
    decreases |steps|
  {
    if steps != [] {
      var (sys', info) := Next(sys, steps[0]);
      var v := KvClient.Shows(sys.client.node);
      StepInSync(sys, steps[0]);
      ConformKept(law, sys, steps[0]);
      ShownConforms(law, sys.client.node);
      ConformingSteady(law, v, info);
      assert Emitted(sys, steps)[1..] == Emitted(sys', steps[1..]);
      LawfulRunSteady(law, sys', steps[1..]);
    }
  }

  // ---- The whole chain ----

  lemma {:induction false} AfterAppend(sys: System, steps: seq<Step>, last: Step)
    requires FeasibleRun(sys, steps + [last])
    ensures FeasibleRun(sys, steps) && Feasible(After(sys, steps), last)
    ensures After(sys, steps + [last]) == Next(After(sys, steps), last).0
    decreases |steps|
  {
    if steps == [] {
      assert steps + [last] == [last] && [last][1..] == [];
    } else {
      assert (steps + [last])[1..] == steps[1..] + [last];
      AfterAppend(Next(sys, steps[0]).0, steps[1..], last);
    }
  }

  /** Runs split like their steps. */
  lemma {:induction false} RunStaysSynced(sys: System, steps: seq<Step>)
    requires FeasibleRun(sys, steps) && MembersSynced(sys) && AlivesSynced(sys)
    requires MissesNoMember(sys, steps) && MissesNoDeath(sys, steps)
    ensures MembersSynced(After(sys, steps)) && AlivesSynced(After(sys, steps))
    decreases |steps|
  {
    if steps != [] {
      if steps[0].PollMembers? { MemberPollExact(sys, steps[0].memberOrder); } else { OtherStepsKeepMembers(sys, steps[0]); }
      if steps[0].PollAlives? { AlivePollExact(sys, steps[0].aliveOrder); } else { OtherStepsKeepAlives(sys, steps[0]); }
      RunStaysSynced(Next(sys, steps[0]).0, steps[1..]);
    }
  }

  /** After both polls the client holds the server's live tables. */
  lemma FinalPolls(steps: seq<Step>, m: seq<LogicAddr>, h: seq<LogicAddr>)
    requires FeasibleRun(INITIAL, steps + [PollMembers(m)] + [PollAlives(h)])
    requires MissesNoMember(INITIAL, steps + [PollMembers(m)] + [PollAlives(h)])
    requires MissesNoDeath(INITIAL, steps + [PollMembers(m)] + [PollAlives(h)])
    ensures var s := After(INITIAL, steps + [PollMembers(m)] + [PollAlives(h)]);
            s.client.node.members == LiveMembers(s.store) && s.client.node.alive == LiveNodes(s.store)
  {
    var run := steps + [PollMembers(m)];
    InitialSynced();
    AfterAppend(INITIAL, run, PollAlives(h));
    AfterAppend(INITIAL, steps, PollMembers(m));
    PrefixMissesNothing(INITIAL, run, PollAlives(h));
    PrefixMissesNothing(INITIAL, steps, PollMembers(m));
    RunStaysSynced(INITIAL, steps);
    BothPolled(After(INITIAL, steps), m, h);
  }

  lemma BothPolled(s: System, m: seq<LogicAddr>, h: seq<LogicAddr>)
    requires MembersSynced(s) && AlivesSynced(s) && Feasible(s, PollMembers(m)) && forall a :: !MissesMember(s, a)
    requires var s1 := Next(s, PollMembers(m)).0;
             Feasible(s1, PollAlives(h)) && forall a :: !MissesDeath(s1, a)
    ensures var s2 := Next(Next(s, PollMembers(m)).0, PollAlives(h)).0;
            s2.client.node.members == LiveMembers(s2.store) && s2.client.node.alive == LiveNodes(s2.store)
  {
    MemberPollExact(s, m);
    OtherStepsKeepAlives(s, PollMembers(m));
    MembersPolled(s, m);
    var s1 := Next(s, PollMembers(m)).0;
    AlivePollExact(s1, h);
    AlivesPolled(s1, h);
  }

  /** The visible members that are live and available on the server, have a parsable record and a
      live heartbeat, and belong to the given bucket. */
  predicate Reachable(st: Store, local: LogicAddr, harbor: bool, key: nat, a: LogicAddr) {
    && a in LiveMembers(st) && a in LiveNodes(st)
    && LiveMembers(st)[a].available && Visible(local, LiveMembers(st)[a])
    && IsHarbor(a) == harbor && Key(a) == key
  }

  /** After any run that missed nothing, emitted steady deltas and ends with a member poll and a
      heartbeat poll, every bucket of the cache lists, once each, exactly the reachable members. */
  lemma DirectoryExact(local: LogicAddr, steps: seq<Step>, m: seq<LogicAddr>, h: seq<LogicAddr>, harbor: bool, key: nat)
    requires FeasibleRun(INITIAL, steps + [PollMembers(m)] + [PollAlives(h)])
    requires MissesNoMember(INITIAL, steps + [PollMembers(m)] + [PollAlives(h)])
    requires MissesNoDeath(INITIAL, steps + [PollMembers(m)] + [PollAlives(h)])
    requires AllSteady(local, map[], Emitted(INITIAL, steps + [PollMembers(m)] + [PollAlives(h)]))
    ensures var run := steps + [PollMembers(m)] + [PollAlives(h)];
            var o := FollowAll(Empty(local), Emitted(INITIAL, run));
            && o.Running? && NoDup(Entries(o.cache, harbor, key))
            && forall a :: Lists(o.cache, harbor, key, a) <==>
                 Reachable(After(INITIAL, run).store, local, harbor, key, a)
  {
    var run := steps + [PollMembers(m)] + [PollAlives(h)];
    CacheExact(local, run);
    FinalPolls(steps, m, h);
    BucketIsView(FollowAll(Empty(local), Emitted(INITIAL, run)).cache,
                 KvClient.Shows(After(INITIAL, run).client.node), harbor, key);
  }

  /** The last write about an address made it an available member that the node can see. */
  ghost predicate Configured(steps: seq<Step>, local: LogicAddr, a: LogicAddr) {
    Decodable(a) && exists m :: Written(steps, a, m) && m.available && Visible(local, m)
  }

  lemma ConfiguredExact(steps: seq<Step>, local: LogicAddr, a: LogicAddr)
    requires FeasibleRun(INITIAL, steps)
    ensures var live := LiveMembers(After(INITIAL, steps).store);
            Configured(steps, local, a) <==> a in live && live[a].available && Visible(local, live[a])
  {
    var live := LiveMembers(After(INITIAL, steps).store);
    if a in live {
      LiveMemberByHistory(steps, a, live[a]);
    }
    if Configured(steps, local, a) {
      var m :| Written(steps, a, m) && m.available && Visible(local, m);
      LiveMemberByHistory(steps, a, m);
    }
  }

  /** The same, told from the history alone: a member is listed in the bucket of its address if and
      only if the last write about it made it available and visible, its last heartbeat did not
      come after a death, and no scan since then came after the deadline. */
  lemma ListedByHistory(local: LogicAddr, steps: seq<Step>, m: seq<LogicAddr>, h: seq<LogicAddr>, a: LogicAddr)
    requires FeasibleRun(INITIAL, steps + [PollMembers(m)] + [PollAlives(h)])
    requires MissesNoMember(INITIAL, steps + [PollMembers(m)] + [PollAlives(h)])
    requires MissesNoDeath(INITIAL, steps + [PollMembers(m)] + [PollAlives(h)])
    requires AllSteady(local, map[], Emitted(INITIAL, steps + [PollMembers(m)] + [PollAlives(h)]))
    ensures var o := FollowAll(Empty(local), Emitted(INITIAL, steps + [PollMembers(m)] + [PollAlives(h)]));
            o.Running? && (Lists(o.cache, IsHarbor(a), Key(a), a) <==> Configured(steps, local, a) && Lives(steps, a))
  {
    DirectoryExact(local, steps, m, h, IsHarbor(a), Key(a));
    PollsKeepStore(steps, m, h);
    ConfiguredExact(steps, local, a);
    LiveNodeByHistory(steps, a);
  }

  lemma PollsKeepStore(steps: seq<Step>, m: seq<LogicAddr>, h: seq<LogicAddr>)
    requires FeasibleRun(INITIAL, steps + [PollMembers(m)] + [PollAlives(h)])
    ensures FeasibleRun(INITIAL, steps)
    ensures After(INITIAL, steps + [PollMembers(m)] + [PollAlives(h)]).store == After(INITIAL, steps).store
  {
    AfterAppend(INITIAL, steps + [PollMembers(m)], PollAlives(h));
    AfterAppend(INITIAL, steps, PollMembers(m));
  }

  lemma {:induction false} PrefixMissesNothing(sys: System, steps: seq<Step>, last: Step)
    requires FeasibleRun(sys, steps + [last]) && FeasibleRun(sys, steps)
    requires MissesNoMember(sys, steps + [last]) && MissesNoDeath(sys, steps + [last])
    ensures MissesNoMember(sys, steps) && MissesNoDeath(sys, steps)
    ensures Feasible(After(sys, steps), last)
    ensures last.PollMembers? ==> forall a :: !MissesMember(After(sys, steps), a)
    ensures last.PollAlives? ==> forall a :: !MissesDeath(After(sys, steps), a)
    decreases |steps|
  {
    if steps == [] {
      assert steps + [last] == [last];
    } else {
      assert (steps + [last])[1..] == steps[1..] + [last];
      PrefixMissesNothing(Next(sys, steps[0]).0, steps[1..], last);
    }
  }
}
