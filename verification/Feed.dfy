/** The node cache fed with a sequence of membership deltas, wherever they come from. */
module Feed {
  import opened Basics
  import opened Addr
  import opened Membership
  import opened NodeCache

  /** The cache consumes deltas; it stops for good when told to. */
  function FollowAll(c: Cache, infos: seq<MemberInfo>): Outcome
    decreases |infos|
  {
    if infos == [] then Running(c)
    else
      var o := OnUpdate(c, infos[0]);
      if o.Running? then FollowAll(o.cache, infos[1..]) else o
  }

  predicate AllSteady(local: LogicAddr, v: View, infos: seq<MemberInfo>)
    decreases |infos|
  {
    infos != [] ==> Steady(local, v, infos[0]) && AllSteady(local, Apply(v, infos[0]), infos[1..])
  }

  /** Every delta is tracked record by record. */
  ghost predicate AllTracked(c: Cache, v: View, infos: seq<MemberInfo>)
    decreases |infos|
  {
    infos != [] ==>
      && Tracked(c, v, infos[0]) && OnUpdate(c, infos[0]).Running?
      && AllTracked(OnUpdate(c, infos[0]).cache, Apply(v, infos[0]), infos[1..])
  }

  lemma ApplyKeyed(v: View, info: MemberInfo)
    requires Keyed(v)
    ensures Keyed(Apply(v, info))
  {
    PutAllKeyed(v, info.add);
    DropAllKeyed(PutAll(v, info.add), info.remove);
    PutAllKeyed(DropAll(PutAll(v, info.add), info.remove), info.update);
  }

  /** For every sequence of well-formed deltas: the cache tracks all of them if and only if every
      removal and update is seen just as the record it replaces and the local node is spared; and
      then it ends up mirroring the folded view with exact indexes. */
  lemma {:induction false} FollowExact(c: Cache, v: View, infos: seq<MemberInfo>)
    requires Coherent(c) && Mirrors(c, v) && Keyed(v) && AllWellFormed(v, infos)
    ensures AllTracked(c, v, infos) <==> AllSteady(c.local, v, infos)
    ensures AllSteady(c.local, v, infos) ==>
              var o := FollowAll(c, infos);
              o.Running? && Coherent(o.cache) && o.cache.local == c.local && Mirrors(o.cache, Fold(v, infos))
    decreases |infos|
  {
    if infos != [] {
      OnUpdateExact(c, v, infos[0]);
      ApplyKeyed(v, infos[0]);
      if Steady(c.local, v, infos[0]) {
        FollowExact(OnUpdate(c, infos[0]).cache, Apply(v, infos[0]), infos[1..]);
      }
    }
  }

  lemma EmptyCache(local: LogicAddr)
    ensures Coherent(Empty(local)) && Mirrors(Empty(local), map[])
  {
    forall harbor: bool, key: nat ensures Entries(Empty(local), harbor, key) == [] {
    }
    forall a ensures Mirrored(Empty(local), map[], a) {
    }
  }

  // ---- Deltas that obey a law ----

  /** Every record obeys the law, and the kept address is not removed. */
  ghost predicate InfoConforms(law: Law, info: MemberInfo) {
    && Conforms(law, info.add) && Conforms(law, info.remove) && Conforms(law, info.update)
    && (law.kept.Some? ==> forall m :: m in info.remove ==> m.addr != law.kept.value.0)
  }

  lemma {:induction false} RemovesConform(law: Law, v: View, ms: seq<Member>)
    requires ViewConforms(law, v) && Conforms(law, ms) && RemovesOk(v, ms) && law.kept.Some?
    requires forall m :: m in ms ==> m.addr != law.kept.value.0
    ensures RemovesSteady(law.kept.value.0, v, ms)
  {
    if ms != [] {
      var init, m := ms[..|ms| - 1], ms[|ms| - 1];
      assert m in ms;
      RemovesConform(law, v, init);
      DropAllConforms(law, v, init);
      SameSight(law, law.kept.value.0, m, DropAll(v, init)[m.addr]);
    }
  }

  lemma {:induction false} UpdatesConform(law: Law, v: View, ms: seq<Member>)
    requires ViewConforms(law, v) && Conforms(law, ms) && UpdatesOk(v, ms) && law.kept.Some?
    ensures UpdatesSteady(law.kept.value.0, v, ms)
  {
    if ms != [] {
      var init, m := ms[..|ms| - 1], ms[|ms| - 1];
      assert m in ms;
      UpdatesConform(law, v, init);
      PutAllConforms(law, v, init);
      UpdatesOkInit(v, ms);
      SameSight(law, law.kept.value.0, m, PutAll(v, init)[m.addr]);
    }
  }

  /** A law that keeps the local node makes every well-formed delta steady. */
  lemma ConformingSteady(law: Law, v: View, info: MemberInfo)
    requires ViewConforms(law, v) && InfoConforms(law, info) && WellFormed(v, info) && law.kept.Some?
    ensures Steady(law.kept.value.0, v, info)
  {
    var v1 := PutAll(v, info.add);
    PutAllConforms(law, v, info.add);
    RemovesConform(law, v1, info.remove);
    DropAllConforms(law, v1, info.remove);
    UpdatesConform(law, DropAll(v1, info.remove), info.update);
  }
}
