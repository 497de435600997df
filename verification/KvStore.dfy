/** What the etcd and NATS clients hold, told from the two buckets they watch: a configuration
    bucket and a heartbeat bucket. */
module KvStore {
  import opened Basics
  import opened Addr
  import opened Membership
  import opened KvClient
  import opened NodeCache
  import opened Feed
  import KvDirectory

  /** The parsable records and the heartbeats in the store. */
  datatype Buckets = Buckets(config: View, beats: set<LogicAddr>)

  // ---- What an input says about one address ----

  /** Event `i` is the last one about a key. */
  predicate LastBeatEvent(evs: seq<AliveEvent>, i: int, k: LogicAddr) {
    0 <= i < |evs| && evs[i].key == k && forall j :: i < j < |evs| ==> evs[j].key != k
  }

  predicate NoBeatEvent(evs: seq<AliveEvent>, k: LogicAddr) {
    forall i :: 0 <= i < |evs| ==> evs[i].key != k
  }

  /** The key is in the bucket afterwards: the last event about it was a heartbeat, or nothing was
      said and it was there. */
  ghost predicate BeatsAt(before: bool, evs: seq<AliveEvent>, k: LogicAddr, now: bool) {
    && (NoBeatEvent(evs, k) ==> now == before)
    && (forall i :: LastBeatEvent(evs, i, k) ==> now == evs[i].Beat?)
  }

  predicate About(ev: ConfigEvent, a: LogicAddr) {
    match ev
    case Put(None) => false
    case Put(Some(n)) => n.addr == a
    case Delete(k) => k == a
  }

  predicate LastConfigEvent(evs: seq<ConfigEvent>, i: int, a: LogicAddr) {
    0 <= i < |evs| && About(evs[i], a) && forall j :: i < j < |evs| ==> !About(evs[j], a)
  }

  predicate NoConfigEvent(evs: seq<ConfigEvent>, a: LogicAddr) {
    forall i :: 0 <= i < |evs| ==> !About(evs[i], a)
  }

  /** The record afterwards: what the last parsable event about the address wrote, or what was there. */
  ghost predicate WritesAt(before: Option<Member>, evs: seq<ConfigEvent>, a: LogicAddr, now: Option<Member>) {
    && (NoConfigEvent(evs, a) ==> now == before)
    && (forall i :: LastConfigEvent(evs, i, a) ==> now == if evs[i].Put? then evs[i].value else None)
  }

  predicate EntryOf(e: Option<Member>, a: LogicAddr) {
    e.Some? && e.value.addr == a
  }

  predicate LastEntry(entries: seq<Option<Member>>, i: int, a: LogicAddr) {
    0 <= i < |entries| && EntryOf(entries[i], a) && forall j :: i < j < |entries| ==> !EntryOf(entries[j], a)
  }

  predicate NoEntry(entries: seq<Option<Member>>, a: LogicAddr) {
    forall i :: 0 <= i < |entries| ==> !EntryOf(entries[i], a)
  }

  /** The record in a full listing: its last parsable entry for the address, or none. */
  ghost predicate EntriesAt(entries: seq<Option<Member>>, a: LogicAddr, now: Option<Member>) {
    && (NoEntry(entries, a) ==> now == None)
    && (forall i :: LastEntry(entries, i, a) ==> now == entries[i])
  }

  /** How the buckets changed, as far as an input tells. */
  ghost predicate Reports(b: Buckets, input: Input, b': Buckets) {
    match input
    case MemberSnapshot(entries, _, _) =>
      b'.beats == b.beats && forall a :: EntriesAt(entries, a, Cell(b'.config, a))
    case AliveSnapshot(keys, _, _) => b'.config == b.config && b'.beats == keys
    case ConfigEvents(evs) =>
      b'.beats == b.beats && forall a :: WritesAt(Cell(b.config, a), evs, a, Cell(b'.config, a))
    case AliveEvents(evs) =>
      b'.config == b.config && forall k :: BeatsAt(k in b.beats, evs, k, k in b'.beats)
  }

  // ---- The client does what the input says ----

  lemma BeatsExtend(before: bool, evs: seq<AliveEvent>, ev: AliveEvent, k: LogicAddr, was: bool, now: bool)
    requires BeatsAt(before, evs, k, was) && now == if ev.key == k then ev.Beat? else was
    ensures BeatsAt(before, evs + [ev], k, now)
  {
    var all := evs + [ev];
    if ev.key == k {
      assert all[|evs|] == ev;
    } else {
      forall i | LastBeatEvent(all, i, k) ensures LastBeatEvent(evs, i, k) && all[i] == evs[i] {
        assert all[|evs|] == ev;
        forall j | i < j < |evs| ensures evs[j].key != k {
          assert all[j] == evs[j];
        }
      }
      if NoBeatEvent(all, k) {
        forall i | 0 <= i < |evs| ensures evs[i].key != k {
          assert all[i] == evs[i];
        }
      }
    }
  }

  lemma WritesExtend(before: Option<Member>, evs: seq<ConfigEvent>, ev: ConfigEvent, a: LogicAddr,
                     was: Option<Member>, now: Option<Member>)
    requires WritesAt(before, evs, a, was)
    requires now == if !About(ev, a) then was else if ev.Put? then ev.value else None
    ensures WritesAt(before, evs + [ev], a, now)
  {
    var all := evs + [ev];
    assert all[|evs|] == ev;
    if !About(ev, a) {
      forall i | LastConfigEvent(all, i, a) ensures LastConfigEvent(evs, i, a) && all[i] == evs[i] {
        forall j | i < j < |evs| ensures !About(evs[j], a) {
          assert all[j] == evs[j];
        }
      }
      if NoConfigEvent(all, a) {
        forall i | 0 <= i < |evs| ensures !About(evs[i], a) {
          assert all[i] == evs[i];
        }
      }
    }
  }

  lemma EntriesExtend(entries: seq<Option<Member>>, e: Option<Member>, a: LogicAddr, was: Option<Member>, now: Option<Member>)
    requires EntriesAt(entries, a, was) && now == if EntryOf(e, a) then e else was
    ensures EntriesAt(entries + [e], a, now)
  {
    var all := entries + [e];
    assert all[|entries|] == e;
    if !EntryOf(e, a) {
      forall i | LastEntry(all, i, a) ensures LastEntry(entries, i, a) && all[i] == entries[i] {
        forall j | i < j < |entries| ensures !EntryOf(entries[j], a) {
          assert all[j] == entries[j];
        }
      }
      if NoEntry(all, a) {
        forall i | 0 <= i < |entries| ensures !EntryOf(entries[i], a) {
          assert all[i] == entries[i];
        }
      }
    }
  }

  /** One heartbeat event. */
  lemma AliveStepAt(s: State, update: seq<Member>, ev: AliveEvent, k: LogicAddr)
    ensures var s' := AliveStep(s, update, ev).0;
            s'.members == s.members && (k in s'.alive <==> if ev.key == k then ev.Beat? else k in s.alive)
  {
  }

  /** One config event. */
  lemma ConfigStepAt(s: State, info: MemberInfo, ev: ConfigEvent, a: LogicAddr)
    ensures var s' := ConfigStep(s, info, ev).0;
            && s'.alive == s.alive
            && Cell(s'.members, a) == if !About(ev, a) then Cell(s.members, a) else if ev.Put? then ev.value else None
  {
  }

  lemma AliveBatchStep(s: State, evs: seq<AliveEvent>, ev: AliveEvent, k: LogicAddr)
    ensures var s1, s2 := AliveBatch(s, evs).0, AliveBatch(s, evs + [ev]).0;
            s2.members == s1.members && (k in s2.alive <==> if ev.key == k then ev.Beat? else k in s1.alive)
  {
    assert (evs + [ev])[..|evs|] == evs;
    var (s1, update) := AliveBatch(s, evs);
    AliveStepAt(s1, update, ev, k);
  }

  lemma ConfigBatchStep(s: State, evs: seq<ConfigEvent>, ev: ConfigEvent, a: LogicAddr)
    ensures var s1, s2 := ConfigBatch(s, evs).0, ConfigBatch(s, evs + [ev]).0;
            && s2.alive == s1.alive
            && Cell(s2.members, a) == if !About(ev, a) then Cell(s1.members, a) else if ev.Put? then ev.value else None
  {
    assert (evs + [ev])[..|evs|] == evs;
    var (s1, info) := ConfigBatch(s, evs);
    ConfigStepAt(s1, info, ev, a);
  }

  lemma DecodedStep(entries: seq<Option<Member>>, e: Option<Member>, a: LogicAddr)
    ensures Cell(Decoded(entries + [e]), a) == if EntryOf(e, a) then e else Cell(Decoded(entries), a)
  {
    assert (entries + [e])[..|entries|] == entries;
  }

  /** After any batch of heartbeat events, a key is alive exactly when the last event about it was a
      heartbeat, or none was about it and it was alive. */
  lemma {:induction false} AliveBatchAt(s: State, evs: seq<AliveEvent>, k: LogicAddr)
    ensures BeatsAt(k in s.alive, evs, k, k in AliveBatch(s, evs).0.alive)
    ensures AliveBatch(s, evs).0.members == s.members
  {
    if evs == [] {
      assert forall i :: !LastBeatEvent(evs, i, k);
    } else {
      var init, ev := evs[..|evs| - 1], evs[|evs| - 1];
      assert evs == init + [ev];
      AliveBatchAt(s, init, k);
      AliveBatchStep(s, init, ev, k);
      BeatsExtend(k in s.alive, init, ev, k, k in AliveBatch(s, init).0.alive, k in AliveBatch(s, init + [ev]).0.alive);
    }
  }

  /** After any batch of config events, a record is what the last parsable event about it wrote. */
  lemma {:induction false} ConfigBatchAt(s: State, evs: seq<ConfigEvent>, a: LogicAddr)
    ensures WritesAt(Cell(s.members, a), evs, a, Cell(ConfigBatch(s, evs).0.members, a))
    ensures ConfigBatch(s, evs).0.alive == s.alive
  {
    if evs == [] {
      assert forall i :: !LastConfigEvent(evs, i, a);
    } else {
      var init, ev := evs[..|evs| - 1], evs[|evs| - 1];
      assert evs == init + [ev];
      ConfigBatchAt(s, init, a);
      ConfigBatchStep(s, init, ev, a);
      WritesExtend(Cell(s.members, a), init, ev, a,
                   Cell(ConfigBatch(s, init).0.members, a), Cell(ConfigBatch(s, init + [ev]).0.members, a));
    }
  }

  /** A listing is decoded to its last parsable entry for every address. */
  lemma {:induction false} DecodedAt(entries: seq<Option<Member>>, a: LogicAddr)
    ensures EntriesAt(entries, a, Cell(Decoded(entries), a))
  {
    if entries == [] {
      assert forall i :: !LastEntry(entries, i, a);
    } else {
      var init, e := entries[..|entries| - 1], entries[|entries| - 1];
      assert entries == init + [e];
      DecodedAt(init, a);
      DecodedStep(init, e, a);
      EntriesExtend(init, e, a, Cell(Decoded(init), a), Cell(Decoded(init + [e]), a));
    }
  }

  // ---- An input determines the buckets ----

  lemma {:induction false} LastBeatExists(evs: seq<AliveEvent>, k: LogicAddr)
    ensures NoBeatEvent(evs, k) || exists i :: LastBeatEvent(evs, i, k)
  {
    if evs != [] {
      var init, n := evs[..|evs| - 1], |evs| - 1;
      if evs[n].key == k {
        assert LastBeatEvent(evs, n, k);
      } else {
        LastBeatExists(init, k);
        if i :| LastBeatEvent(init, i, k) { assert LastBeatEvent(evs, i, k); }
      }
    }
  }

  lemma {:induction false} LastConfigExists(evs: seq<ConfigEvent>, a: LogicAddr)
    ensures NoConfigEvent(evs, a) || exists i :: LastConfigEvent(evs, i, a)
  {
    if evs != [] {
      var init, n := evs[..|evs| - 1], |evs| - 1;
      if About(evs[n], a) {
        assert LastConfigEvent(evs, n, a);
      } else {
        LastConfigExists(init, a);
        if i :| LastConfigEvent(init, i, a) { assert LastConfigEvent(evs, i, a); }
      }
    }
  }

  lemma {:induction false} LastEntryExists(entries: seq<Option<Member>>, a: LogicAddr)
    ensures NoEntry(entries, a) || exists i :: LastEntry(entries, i, a)
  {
    if entries != [] {
      var init, n := entries[..|entries| - 1], |entries| - 1;
      if EntryOf(entries[n], a) {
        assert LastEntry(entries, n, a);
      } else {
        LastEntryExists(init, a);
        if i :| LastEntry(init, i, a) { assert LastEntry(entries, i, a); }
      }
    }
  }

  // ---- The client is the store ----

  function Holds(s: State): Buckets {
    Buckets(s.members, s.alive)
  }

  lemma SnapshotHeld(entries: seq<Option<Member>>, config: View)
    requires forall a :: EntriesAt(entries, a, Cell(config, a))
    ensures Decoded(entries) == config
  {
    forall a ensures Cell(Decoded(entries), a) == Cell(config, a) {
      assert EntriesAt(entries, a, Cell(config, a));
      DecodedAt(entries, a);
      LastEntryExists(entries, a);
    }
    CellsDetermine(Decoded(entries), config);
  }

  lemma ConfigHeld(s: State, evs: seq<ConfigEvent>, config: View)
    requires forall a :: WritesAt(Cell(s.members, a), evs, a, Cell(config, a))
    ensures ConfigBatch(s, evs).0 == s.(members := config)
  {
    ConfigBatchAt(s, evs, 0);
    var got := ConfigBatch(s, evs).0.members;
    forall a ensures Cell(got, a) == Cell(config, a) {
      assert WritesAt(Cell(s.members, a), evs, a, Cell(config, a));
      ConfigBatchAt(s, evs, a);
      LastConfigExists(evs, a);
    }
    CellsDetermine(got, config);
  }

  lemma BeatsHeld(s: State, evs: seq<AliveEvent>, beats: set<LogicAddr>)
    requires forall k :: BeatsAt(k in s.alive, evs, k, k in beats)
    ensures AliveBatch(s, evs).0 == s.(alive := beats)
  {
    AliveBatchAt(s, evs, 0);
    var got := AliveBatch(s, evs).0.alive;
    forall k ensures k in got <==> k in beats {
      assert BeatsAt(k in s.alive, evs, k, k in beats);
      AliveBatchAt(s, evs, k);
      LastBeatExists(evs, k);
    }
    assert got == beats;
  }

  lemma StepHeld(b: Backend, s: State, input: Input, after: Buckets)
    requires Feasible(s, input) && Reports(Holds(s), input, after)
    ensures Holds(Step(b, s, input).0) == after
  {
    match input
    case MemberSnapshot(entries, _, _) => SnapshotHeld(entries, after.config);
    case AliveSnapshot(_, _, _) =>
    case ConfigEvents(evs) => ConfigHeld(s, evs, after.config);
    case AliveEvents(evs) => BeatsHeld(s, evs, after.beats);
  }

  /** The contents of the buckets at every moment of a run. */
  ghost predicate Watched(buckets: seq<Buckets>, inputs: seq<Input>) {
    && |buckets| == |inputs| + 1
    && forall i :: 0 <= i < |inputs| ==> Reports(buckets[i], inputs[i], buckets[i + 1])
  }

  /** Over every interleaving of listings and watch events on both buckets, the client's members and
      heartbeats are exactly the contents of the buckets after every input. */
  lemma {:induction false} StoreFollowed(b: Backend, s: State, inputs: seq<Input>, buckets: seq<Buckets>)
    requires FeasibleRun(b, s, inputs) && Watched(buckets, inputs) && buckets[0] == Holds(s)
    ensures Holds(KvDirectory.After(b, s, inputs)) == buckets[|inputs|]
    decreases |inputs|
  {
    if inputs != [] {
      StepHeld(b, s, inputs[0], buckets[1]);
      forall i | 0 <= i < |inputs[1..]| ensures Reports(buckets[1..][i], inputs[1..][i], buckets[1..][i + 1]) {
        assert Reports(buckets[i + 1], inputs[i + 1], buckets[i + 2]);
      }
      StoreFollowed(b, Step(b, s, inputs[0]).0, inputs[1..], buckets[1..]);
    }
  }

  /** A deletion reports the deleted record as unavailable, and only if there was one. */
  lemma DeletedRecord(s: State, info: MemberInfo, k: LogicAddr)
    ensures ConfigStep(s, info, Delete(k)).1 ==
            info.(remove := info.remove + match Cell(s.members, k)
                                          case None => []
                                          case Some(m) => [m.(available := false)])
  {
  }

  /** A removal carries the record that was configured; it is unavailable, except that etcd listings
      report it as it was last shown. */
  lemma {:induction false} RemovedRecords(b: Backend, s: State, cur: View, order: seq<LogicAddr>, m: Member)
    requires forall a :: a in order ==> a in s.members
    ensures m in SnapshotRemoves(b, s, cur, order) <==>
            exists a :: a in order && a !in cur
                        && m == s.members[a].(available := b.Etcd? && a in s.alive && s.members[a].available)
  {
    if order != [] {
      var init, x := order[..|order| - 1], order[|order| - 1];
      RemovedRecords(b, s, cur, init, m);
      assert order == init + [x];
    }
  }

  /** From the buckets to the node cache: after any clean run with steady deltas, every bucket of
      the cache lists, once each, exactly the visible members that the configuration bucket has as
      available and the heartbeat bucket has at all. */
  lemma DirectoryExact(b: Backend, local: LogicAddr, inputs: seq<Input>, buckets: seq<Buckets>, harbor: bool, key: nat)
    requires FeasibleRun(b, KvDirectory.NOTHING_YET, inputs) && CleanRun(b, KvDirectory.NOTHING_YET, inputs)
    requires AllSteady(local, map[], KvDirectory.Emitted(b, KvDirectory.NOTHING_YET, inputs))
    requires Watched(buckets, inputs) && buckets[0] == Buckets(map[], {})
    ensures var o := FollowAll(Empty(local), KvDirectory.Emitted(b, KvDirectory.NOTHING_YET, inputs));
            var now := buckets[|inputs|];
            && o.Running? && NoDup(Entries(o.cache, harbor, key))
            && forall a :: Lists(o.cache, harbor, key, a) <==>
                 && a in now.config && now.config[a].available && a in now.beats
                 && Visible(local, now.config[a]) && IsHarbor(a) == harbor && Key(a) == key
  {
    KvDirectory.DirectoryExact(b, local, inputs, harbor, key);
    StoreFollowed(b, KvDirectory.NOTHING_YET, inputs, buckets);
  }
}
