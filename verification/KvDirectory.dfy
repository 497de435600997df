/** From the etcd and NATS clients to the node cache. */
module KvDirectory {
  import opened Basics
  import opened Addr
  import opened Membership
  import opened KvClient
  import opened NodeCache
  import opened Feed

  const NOTHING_YET := State(map[], {})

  function After(b: Backend, s: State, inputs: seq<Input>): State
    requires FeasibleRun(b, s, inputs)
    decreases |inputs|
  {
    if inputs == [] then s else After(b, Step(b, s, inputs[0]).0, inputs[1..])
  }

  /** The deltas of a run. */
  function Emitted(b: Backend, s: State, inputs: seq<Input>): seq<MemberInfo>
    requires FeasibleRun(b, s, inputs)
    decreases |inputs|
  {
    if inputs == [] then []
    else
      var (s', info) := Step(b, s, inputs[0]);
      [info] + Emitted(b, s', inputs[1..])
  }

  lemma {:induction false} EmittedFold(b: Backend, s: State, inputs: seq<Input>)
    requires Keyed(s.members) && FeasibleRun(b, s, inputs) && CleanRun(b, s, inputs)
    ensures AllWellFormed(Shows(s), Emitted(b, s, inputs))
    ensures Fold(Shows(s), Emitted(b, s, inputs)) == Shows(After(b, s, inputs))
    decreases |inputs|
  {
    if inputs != [] {
      var (s', info) := Step(b, s, inputs[0]);
      StepExact(b, s, inputs[0]);
      EmittedFold(b, s', inputs[1..]);
      assert Emitted(b, s, inputs)[1..] == Emitted(b, s', inputs[1..]);
    }
  }

  /** For every run of either client whose config batches are clean: the cache tracks every record
      of every delta if and only if the deltas are steady. */
  lemma CacheExact(b: Backend, local: LogicAddr, inputs: seq<Input>)
    requires FeasibleRun(b, NOTHING_YET, inputs) && CleanRun(b, NOTHING_YET, inputs)
    ensures var infos := Emitted(b, NOTHING_YET, inputs);
            AllTracked(Empty(local), map[], infos) <==> AllSteady(local, map[], infos)
    ensures AllSteady(local, map[], Emitted(b, NOTHING_YET, inputs)) ==>
              var o := FollowAll(Empty(local), Emitted(b, NOTHING_YET, inputs));
              && o.Running? && Coherent(o.cache) && o.cache.local == local
              && Mirrors(o.cache, Shows(After(b, NOTHING_YET, inputs)))
  {
    EmptyCache(local);
    assert Shows(NOTHING_YET) == map[];
    EmittedFold(b, NOTHING_YET, inputs);
    FollowExact(Empty(local), map[], Emitted(b, NOTHING_YET, inputs));
  }

  /** The visible members that are configured as available and have a heartbeat, in a bucket. */
  predicate Reachable(s: State, local: LogicAddr, harbor: bool, key: nat, a: LogicAddr) {
    && a in s.members && a in s.alive
    && s.members[a].available && Visible(local, s.members[a])
    && IsHarbor(a) == harbor && Key(a) == key
  }

  /** After any clean run with steady deltas, every bucket of the cache lists, once each, exactly the
      reachable members. */
  lemma DirectoryExact(b: Backend, local: LogicAddr, inputs: seq<Input>, harbor: bool, key: nat)
    requires FeasibleRun(b, NOTHING_YET, inputs) && CleanRun(b, NOTHING_YET, inputs)
    requires AllSteady(local, map[], Emitted(b, NOTHING_YET, inputs))
    ensures var o := FollowAll(Empty(local), Emitted(b, NOTHING_YET, inputs));
            && o.Running? && NoDup(Entries(o.cache, harbor, key))
            && forall a :: Lists(o.cache, harbor, key, a) <==>
                 Reachable(After(b, NOTHING_YET, inputs), local, harbor, key, a)
  {
    CacheExact(b, local, inputs);
    BucketIsView(FollowAll(Empty(local), Emitted(b, NOTHING_YET, inputs)).cache,
                 Shows(After(b, NOTHING_YET, inputs)), harbor, key);
  }

  /** NATS hands over one entry at a time, so only steadiness is left as a condition. */
  lemma NatsDirectoryExact(local: LogicAddr, inputs: seq<Input>, harbor: bool, key: nat)
    requires FeasibleRun(Nats, NOTHING_YET, inputs)
    requires forall input :: input in inputs && input.ConfigEvents? ==> |input.config| <= 1
    requires AllSteady(local, map[], Emitted(Nats, NOTHING_YET, inputs))
    ensures var o := FollowAll(Empty(local), Emitted(Nats, NOTHING_YET, inputs));
            && o.Running? && NoDup(Entries(o.cache, harbor, key))
            && forall a :: Lists(o.cache, harbor, key, a) <==>
                 Reachable(After(Nats, NOTHING_YET, inputs), local, harbor, key, a)
  {
    NatsRunClean(NOTHING_YET, inputs);
    DirectoryExact(Nats, local, inputs, harbor, key);
  }
}
