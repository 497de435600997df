/** The membership clients that watch a key-value store (etcd and NATS JetStream): full
    snapshots and watch events on a configuration bucket and on a heartbeat bucket are
    turned into deltas. The delta arithmetic is the same in both; etcd delivers events in
    batches, NATS one at a time. */
module KvClient {
  import opened Basics
  import opened Addr
  import opened Membership

  /** The two stores differ in the availability they print on a snapshot removal. */
  datatype Backend = Etcd | Nats

  datatype State = State(members: View, alive: set<LogicAddr>)

  /** A put carries None when its value does not unmarshal; a removal carries only its key. */
  datatype ConfigEvent = Put(value: Option<Member>) | Delete(key: LogicAddr)

  datatype AliveEvent = Beat(key: LogicAddr) | Gone(key: LogicAddr)

  function Shows(s: State): View {
    Join(s.members, s.alive)
  }

  // ---- Watch events ----

  function ConfigStep(s: State, info: MemberInfo, ev: ConfigEvent): (State, MemberInfo) {
    match ev
    case Put(None) => (s, info)
    case Put(Some(n)) =>
      var nn := Shown(n, n.addr in s.alive);
      var s' := s.(members := s.members[n.addr := n]);
      if n.addr in s.members then (s', info.(update := info.update + [nn]))
      else (s', info.(add := info.add + [nn]))
    case Delete(k) =>
      if k in s.members then
        (s.(members := s.members - {k}),
         info.(remove := info.remove + [s.members[k].(available := false)]))
      else (s, info)
  }

  function ConfigBatch(s: State, evs: seq<ConfigEvent>): (State, MemberInfo) {
    if evs == [] then (s, NO_CHANGE)
    else
      var (s1, info) := ConfigBatch(s, evs[..|evs| - 1]);
      ConfigStep(s1, info, evs[|evs| - 1])
  }

  function AliveStep(s: State, update: seq<Member>, ev: AliveEvent): (State, seq<Member>) {
    match ev
    case Beat(k) =>
      if k in s.alive then (s, update)
      else
        (s.(alive := s.alive + {k}),
         if k in s.members && s.members[k].available then update + [s.members[k].(available := true)]
         else update)
    case Gone(k) =>
      if k !in s.alive then (s, update)
      else
        (s.(alive := s.alive - {k}),
         if k in s.members then update + [s.members[k].(available := false)] else update)
  }

  function AliveBatch(s: State, evs: seq<AliveEvent>): (State, seq<Member>) {
    if evs == [] then (s, [])
    else
      var (s1, update) := AliveBatch(s, evs[..|evs| - 1]);
      AliveStep(s1, update, evs[|evs| - 1])
  }

  // ---- Snapshots; an order is the order in which a Go map is ranged over ----

  ghost predicate Enumerates(order: seq<LogicAddr>, keys: set<LogicAddr>) {
    && (forall i, j :: 0 <= i < j < |order| ==> order[i] != order[j])
    && (forall a :: a in order <==> a in keys)
  }

  /** The members of a snapshot: entries that do not unmarshal are skipped. */
  function Decoded(entries: seq<Option<Member>>): View {
    if entries == [] then map[]
    else
      var v := Decoded(entries[..|entries| - 1]);
      match entries[|entries| - 1]
      case None => v
      case Some(n) => v[n.addr := n]
  }

  function SnapshotRemoves(b: Backend, s: State, cur: View, order: seq<LogicAddr>): seq<Member>
    requires forall a :: a in order ==> a in s.members
  {
    if order == [] then []
    else
      var a := order[|order| - 1];
      var rest := SnapshotRemoves(b, s, cur, order[..|order| - 1]);
      if a in cur then rest
      else rest + [if b.Etcd? then Shown(s.members[a], a in s.alive) else s.members[a].(available := false)]
  }

  function SnapshotPuts(s: State, cur: View, order: seq<LogicAddr>, known: bool): seq<Member>
    requires forall a :: a in order ==> a in cur
  {
    if order == [] then []
    else
      var a := order[|order| - 1];
      var rest := SnapshotPuts(s, cur, order[..|order| - 1], known);
      if (a in s.members) == known then rest + [Shown(cur[a], a in s.alive)] else rest
  }

  function SnapshotInfo(b: Backend, s: State, cur: View, oldOrder: seq<LogicAddr>, curOrder: seq<LogicAddr>): MemberInfo
    requires forall a :: a in oldOrder ==> a in s.members
    requires forall a :: a in curOrder ==> a in cur
  {
    MemberInfo(SnapshotPuts(s, cur, curOrder, false),
               SnapshotRemoves(b, s, cur, oldOrder),
               SnapshotPuts(s, cur, curOrder, true))
  }

  function AliveSnapshotNew(s: State, order: seq<LogicAddr>): seq<Member> {
    if order == [] then []
    else
      var a := order[|order| - 1];
      var rest := AliveSnapshotNew(s, order[..|order| - 1]);
      if a !in s.alive && a in s.members && s.members[a].available
      then rest + [s.members[a].(available := true)] else rest
  }

  function AliveSnapshotGone(s: State, cur: set<LogicAddr>, order: seq<LogicAddr>): seq<Member> {
    if order == [] then []
    else
      var a := order[|order| - 1];
      var rest := AliveSnapshotGone(s, cur, order[..|order| - 1]);
      if a !in cur && a in s.members then rest + [s.members[a].(available := false)] else rest
  }

  function AliveSnapshotInfo(s: State, cur: set<LogicAddr>, curOrder: seq<LogicAddr>, oldOrder: seq<LogicAddr>): seq<Member> {
    AliveSnapshotNew(s, curOrder) + AliveSnapshotGone(s, cur, oldOrder)
  }

  // ---- The client object ----

  class Client {
    const backend: Backend
    var members: View
    var alive: set<LogicAddr>

    constructor (backend: Backend)
      ensures this.backend == backend && Now() == State(map[], {})
    {
      this.backend := backend;
      members, alive := map[], {};
    }

    ghost function Now(): State
      reads this
    {
      State(members, alive)
    }

    /** getMembers: a full snapshot of the configuration bucket. */
    method GetMembers(entries: seq<Option<Member>>, oldOrder: seq<LogicAddr>, curOrder: seq<LogicAddr>)
      returns (info: MemberInfo)
      requires Enumerates(oldOrder, members.Keys)
      requires Enumerates(curOrder, Decoded(entries).Keys)
      modifies this
      ensures Now() == old(Now()).(members := Decoded(entries))
      ensures info == SnapshotInfo(backend, old(Now()), Decoded(entries), oldOrder, curOrder)
    {
      var cur: View := map[];
      for i := 0 to |entries|
        invariant cur == Decoded(entries[..i])
        invariant members == old(members) && alive == old(alive)
      {
        assert entries[..i + 1][..i] == entries[..i];
        if entries[i].Some? { cur := cur[entries[i].value.addr := entries[i].value]; }
      }
      assert entries[..|entries|] == entries;
      info := NO_CHANGE;
      ghost var s := Now();
      for i := 0 to |oldOrder|
        invariant Now() == s
        invariant info == NO_CHANGE.(remove := SnapshotRemoves(backend, s, cur, oldOrder[..i]))
      {
        assert oldOrder[..i + 1][..i] == oldOrder[..i];
        var a := oldOrder[i];
        assert a in oldOrder;
        if a !in cur {
          var shown := match backend case Etcd => Shown(members[a], a in alive) case Nats => members[a].(available := false);
          info := info.(remove := info.remove + [shown]);
        }
      }
      assert oldOrder[..|oldOrder|] == oldOrder;
      for i := 0 to |curOrder|
        invariant Now() == s
        invariant info.remove == SnapshotRemoves(backend, s, cur, oldOrder)
        invariant info.add == SnapshotPuts(s, cur, curOrder[..i], false)
        invariant info.update == SnapshotPuts(s, cur, curOrder[..i], true)
      {
        assert curOrder[..i + 1][..i] == curOrder[..i];
        var a := curOrder[i];
        assert a in curOrder;
        var nn := Shown(cur[a], a in alive);
        if a in members {
          info := info.(update := info.update + [nn]);
        } else {
          info := info.(add := info.add + [nn]);
        }
      }
      assert curOrder[..|curOrder|] == curOrder;
      members := cur;
    }

    /** getAlives: a full snapshot of the heartbeat bucket. */
    method GetAlives(keys: set<LogicAddr>, curOrder: seq<LogicAddr>, oldOrder: seq<LogicAddr>)
      returns (update: seq<Member>)
      requires Enumerates(curOrder, keys) && Enumerates(oldOrder, alive)
      modifies this
      ensures Now() == old(Now()).(alive := keys)
      ensures update == AliveSnapshotInfo(old(Now()), keys, curOrder, oldOrder)
    {
      ghost var s := Now();
      var newly: seq<Member> := [];
      for i := 0 to |curOrder|
        invariant Now() == s && newly == AliveSnapshotNew(s, curOrder[..i])
      {
        assert curOrder[..i + 1][..i] == curOrder[..i];
        var a := curOrder[i];
        if a !in alive && a in members && members[a].available {
          newly := newly + [members[a].(available := true)];
        }
      }
      assert curOrder[..|curOrder|] == curOrder;
      var gone: seq<Member> := [];
      for i := 0 to |oldOrder|
        invariant Now() == s && gone == AliveSnapshotGone(s, keys, oldOrder[..i])
      {
        assert oldOrder[..i + 1][..i] == oldOrder[..i];
        var a := oldOrder[i];
        if a !in keys && a in members {
          gone := gone + [members[a].(available := false)];
        }
      }
      assert oldOrder[..|oldOrder|] == oldOrder;
      update := newly + gone;
      alive := keys;
    }

    /** handleConfigEvents; handleConfigEntry is the case of one event. */
    method HandleConfigEvents(evs: seq<ConfigEvent>) returns (info: MemberInfo)
      modifies this
      ensures (Now(), info) == ConfigBatch(old(Now()), evs)
    {
      info := NO_CHANGE;
      for i := 0 to |evs|
        invariant (Now(), info) == ConfigBatch(old(Now()), evs[..i])
      {
        assert evs[..i + 1][..i] == evs[..i];
        match evs[i]
        case Put(None) =>
        case Put(Some(n)) =>
          var nn := Shown(n, n.addr in alive);
          if n.addr in members {
            info := info.(update := info.update + [nn]);
          } else {
            info := info.(add := info.add + [nn]);
          }
          members := members[n.addr := n];
        case Delete(k) =>
          if k in members {
            info := info.(remove := info.remove + [members[k].(available := false)]);
            members := members - {k};
          }
      }
      assert evs[..|evs|] == evs;
    }

    /** handleAliveEvents; handleAliveEntry is the case of one event. */
    method HandleAliveEvents(evs: seq<AliveEvent>) returns (update: seq<Member>)
      modifies this
      ensures (Now(), update) == AliveBatch(old(Now()), evs)
    {
      update := [];
      for i := 0 to |evs|
        invariant (Now(), update) == AliveBatch(old(Now()), evs[..i])
      {
        assert evs[..i + 1][..i] == evs[..i];
        match evs[i]
        case Beat(k) =>
          if k !in alive {
            alive := alive + {k};
            if k in members && members[k].available {
              update := update + [members[k].(available := true)];
            }
          }
        case Gone(k) =>
          if k in alive {
            alive := alive - {k};
            if k in members {
              update := update + [members[k].(available := false)];
            }
          }
      }
      assert evs[..|evs|] == evs;
    }
  }

  // ---- Heartbeat deltas are always exact ----

  /** An iteration order is its initial part and its last element. */
  lemma Split(order: seq<LogicAddr>, a: LogicAddr)
    requires order != []
    ensures a in order <==> a in order[..|order| - 1] || a == order[|order| - 1]
    ensures forall x :: x in order[..|order| - 1] ==> x in order
  {
    assert order == order[..|order| - 1] + [order[|order| - 1]];
  }

  lemma PutLast(v: View, ms: seq<Member>, m: Member)
    ensures PutAll(v, ms + [m]) == PutAll(v, ms)[m.addr := m]
  {
    assert (ms + [m])[..|ms|] == ms;
  }

  lemma AliveStepExact(v: View, s: State, update: seq<Member>, ev: AliveEvent)
    requires Keyed(s.members) && PutAll(v, update) == Shows(s)
    ensures var (s', update') := AliveStep(s, update, ev);
            PutAll(v, update') == Shows(s')
  {
    var (s', update') := AliveStep(s, update, ev);
    var k := ev.key;
    if update' == update {
      assert Shows(s') == Shows(s);
    } else {
      var m := s.members[k].(available := ev.Beat?);
      assert update' == update + [m];
      assert Shows(s') == Shows(s)[k := m];
      PutLast(v, update, m);
    }
  }

  lemma {:induction false} AliveBatchExact(s: State, evs: seq<AliveEvent>)
    requires Keyed(s.members)
    ensures var (s', update) := AliveBatch(s, evs);
            && s'.members == s.members
            && (forall m :: m in update ==> m.addr in s.members)
            && PutAll(Shows(s), update) == Shows(s')
  {
    if evs != [] {
      var init := evs[..|evs| - 1];
      AliveBatchExact(s, init);
      var (s1, update1) := AliveBatch(s, init);
      AliveStepExact(Shows(s), s1, update1, evs[|evs| - 1]);
    }
  }

  /** Every address of the list was already processed, so later entries of `order` cannot name it. */
  lemma {:induction false} AliveNewAt(s: State, order: seq<LogicAddr>, a: LogicAddr)
    requires Keyed(s.members)
    requires forall i, j :: 0 <= i < j < |order| ==> order[i] != order[j]
    ensures Last(AliveSnapshotNew(s, order), a) ==
            if a in order && a !in s.alive && a in s.members && s.members[a].available
            then Some(s.members[a].(available := true)) else None
  {
    if order != [] {
      var init, b := order[..|order| - 1], order[|order| - 1];
      Split(order, a);
      AliveNewAt(s, init, a);
      var rest := AliveSnapshotNew(s, init);
      if b !in s.alive && b in s.members && s.members[b].available {
        assert AliveSnapshotNew(s, order) == rest + [s.members[b].(available := true)];
        Append(rest, s.members[b].(available := true), a);
      } else {
        assert AliveSnapshotNew(s, order) == rest;
      }
    }
  }

  lemma {:induction false} AliveGoneAt(s: State, cur: set<LogicAddr>, order: seq<LogicAddr>, a: LogicAddr)
    requires Keyed(s.members)
    ensures Last(AliveSnapshotGone(s, cur, order), a) ==
            if a in order && a !in cur && a in s.members then Some(s.members[a].(available := false)) else None
  {
    if order != [] {
      var init, b := order[..|order| - 1], order[|order| - 1];
      Split(order, a);
      AliveGoneAt(s, cur, init, a);
      var rest := AliveSnapshotGone(s, cur, init);
      if b !in cur && b in s.members {
        assert AliveSnapshotGone(s, cur, order) == rest + [s.members[b].(available := false)];
        Append(rest, s.members[b].(available := false), a);
      } else {
        assert AliveSnapshotGone(s, cur, order) == rest;
      }
    }
  }

  lemma {:induction false} LastConcat(xs: seq<Member>, ys: seq<Member>, a: LogicAddr)
    ensures Last(xs + ys, a) == if Last(ys, a).Some? then Last(ys, a) else Last(xs, a)
  {
    if ys == [] {
      assert xs + ys == xs;
    } else {
      assert (xs + ys)[..|xs + ys| - 1] == xs + ys[..|ys| - 1];
      LastConcat(xs, ys[..|ys| - 1], a);
    }
  }

  lemma AliveSnapshotExact(s: State, cur: set<LogicAddr>, curOrder: seq<LogicAddr>, oldOrder: seq<LogicAddr>)
    requires Keyed(s.members)
    requires Enumerates(curOrder, cur) && Enumerates(oldOrder, s.alive)
    ensures var update := AliveSnapshotInfo(s, cur, curOrder, oldOrder);
            && WellFormed(Shows(s), MemberInfo([], [], update))
            && Apply(Shows(s), MemberInfo([], [], update)) == Shows(s.(alive := cur))
  {
    var update := AliveSnapshotInfo(s, cur, curOrder, oldOrder);
    var s' := s.(alive := cur);
    forall a
      ensures Cell(PutAll(Shows(s), update), a) == Cell(Shows(s'), a)
      ensures Count(update, a) > 0 ==> a in Shows(s)
    {
      AliveNewAt(s, curOrder, a);
      AliveGoneAt(s, cur, oldOrder, a);
      LastConcat(AliveSnapshotNew(s, curOrder), AliveSnapshotGone(s, cur, oldOrder), a);
      LastCount(update, a);
      PutAllAt(Shows(s), update, a);
    }
    CellsDetermine(PutAll(Shows(s), update), Shows(s'));
    UpdatesOkExact(Shows(s), update);
  }

  // ---- Configuration snapshots are always exact ----

  lemma {:induction false} DecodedKeyed(entries: seq<Option<Member>>)
    ensures Keyed(Decoded(entries))
  {
    if entries != [] { DecodedKeyed(entries[..|entries| - 1]); }
  }

  lemma {:induction false} RemovesAt(b: Backend, s: State, cur: View, order: seq<LogicAddr>, a: LogicAddr)
    requires Keyed(s.members)
    requires forall x :: x in order ==> x in s.members
    requires forall i, j :: 0 <= i < j < |order| ==> order[i] != order[j]
    ensures Count(SnapshotRemoves(b, s, cur, order), a) == if a in order && a !in cur then 1 else 0
  {
    if order != [] {
      var init, x := order[..|order| - 1], order[|order| - 1];
      Split(order, a);
      RemovesAt(b, s, cur, init, a);
      var rest := SnapshotRemoves(b, s, cur, init);
      var m := if b.Etcd? then Shown(s.members[x], x in s.alive) else s.members[x].(available := false);
      if x in cur {
        assert SnapshotRemoves(b, s, cur, order) == rest;
      } else {
        assert SnapshotRemoves(b, s, cur, order) == rest + [m];
        Append(rest, m, a);
      }
    }
  }

  lemma {:induction false} PutsAt(s: State, cur: View, order: seq<LogicAddr>, known: bool, a: LogicAddr)
    requires Keyed(cur)
    requires forall x :: x in order ==> x in cur
    requires forall i, j :: 0 <= i < j < |order| ==> order[i] != order[j]
    ensures Count(SnapshotPuts(s, cur, order, known), a) == if a in order && (a in s.members) == known then 1 else 0
    ensures Last(SnapshotPuts(s, cur, order, known), a) ==
            if a in order && (a in s.members) == known then Some(Shown(cur[a], a in s.alive)) else None
  {
    if order != [] {
      var init, x := order[..|order| - 1], order[|order| - 1];
      Split(order, a);
      PutsAt(s, cur, init, known, a);
      var rest, nn := SnapshotPuts(s, cur, init, known), Shown(cur[x], x in s.alive);
      if (x in s.members) == known {
        assert SnapshotPuts(s, cur, order, known) == rest + [nn];
        Append(rest, nn, a);
      } else {
        assert SnapshotPuts(s, cur, order, known) == rest;
      }
    }
  }

  lemma SnapshotCell(b: Backend, s: State, cur: View, oldOrder: seq<LogicAddr>, curOrder: seq<LogicAddr>, a: LogicAddr)
    requires Keyed(s.members) && Keyed(cur)
    requires Enumerates(oldOrder, s.members.Keys) && Enumerates(curOrder, cur.Keys)
    ensures var info := SnapshotInfo(b, s, cur, oldOrder, curOrder);
            && CellOk(a in Shows(s), Count(info.add, a), Count(info.remove, a), Count(info.update, a))
            && Cell(Apply(Shows(s), info), a) == Cell(Shows(s.(members := cur)), a)
  {
    RemovesAt(b, s, cur, oldOrder, a);
    PutsAt(s, cur, curOrder, false, a);
    PutsAt(s, cur, curOrder, true, a);
    ApplyAt(Shows(s), SnapshotInfo(b, s, cur, oldOrder, curOrder), a);
  }

  /** The delta of a snapshot takes the old join to the new one. */
  lemma SnapshotApplied(b: Backend, s: State, cur: View, oldOrder: seq<LogicAddr>, curOrder: seq<LogicAddr>)
    requires Keyed(s.members) && Keyed(cur)
    requires Enumerates(oldOrder, s.members.Keys) && Enumerates(curOrder, cur.Keys)
    ensures Apply(Shows(s), SnapshotInfo(b, s, cur, oldOrder, curOrder)) == Shows(s.(members := cur))
  {
    var info := SnapshotInfo(b, s, cur, oldOrder, curOrder);
    forall a ensures Cell(Apply(Shows(s), info), a) == Cell(Shows(s.(members := cur)), a) {
      SnapshotCell(b, s, cur, oldOrder, curOrder, a);
    }
    CellsDetermine(Apply(Shows(s), info), Shows(s.(members := cur)));
  }

  lemma SnapshotWellFormed(b: Backend, s: State, cur: View, oldOrder: seq<LogicAddr>, curOrder: seq<LogicAddr>)
    requires Keyed(s.members) && Keyed(cur)
    requires Enumerates(oldOrder, s.members.Keys) && Enumerates(curOrder, cur.Keys)
    ensures WellFormed(Shows(s), SnapshotInfo(b, s, cur, oldOrder, curOrder))
  {
    var info := SnapshotInfo(b, s, cur, oldOrder, curOrder);
    forall a ensures CellOk(a in Shows(s), Count(info.add, a), Count(info.remove, a), Count(info.update, a)) {
      SnapshotCell(b, s, cur, oldOrder, curOrder, a);
    }
    WellFormedExact(Shows(s), info);
  }

  // ---- Configuration batches: exact for the batches below, and only for them ----

  /** The events of a batch that touch one address: true for a put, false for a removal. */
  function Touches(evs: seq<ConfigEvent>, a: LogicAddr): seq<bool> {
    if evs == [] then []
    else
      var rest := Touches(evs[..|evs| - 1], a);
      match evs[|evs| - 1]
      case Put(None) => rest
      case Put(Some(n)) => if n.addr == a then rest + [true] else rest
      case Delete(k) => if k == a then rest + [false] else rest
  }

  function Tally(ops: seq<bool>, op: bool): nat {
    if ops == [] then 0
    else Tally(ops[..|ops| - 1], op) + if ops[|ops| - 1] == op then 1 else 0
  }

  predicate RemovalsFirst(ops: seq<bool>) {
    forall i, j :: 0 <= i < j < |ops| ==> !(ops[i] && !ops[j])
  }

  /** For a known address: no mixture of puts and removals. For an unknown one: at most one
      put, or no removal after a put. */
  predicate CleanAt(known: bool, ops: seq<bool>) {
    if known then Tally(ops, true) == 0 || Tally(ops, false) == 0
    else Tally(ops, true) <= 1 || RemovalsFirst(ops)
  }

  ghost predicate CleanBatch(s: State, evs: seq<ConfigEvent>) {
    forall a :: CleanAt(a in s.members, Touches(evs, a))
  }

  datatype Mentions = Mentions(adds: nat, removes: nat, updates: nat, known: bool)

  /** How often an address is mentioned in the three lists, from its own events alone. */
  function Track(known: bool, ops: seq<bool>): Mentions {
    if ops == [] then Mentions(0, 0, 0, known)
    else
      var m := Track(known, ops[..|ops| - 1]);
      if ops[|ops| - 1] then
        if m.known then m.(updates := m.updates + 1) else m.(adds := m.adds + 1, known := true)
      else if m.known then m.(removes := m.removes + 1, known := false) else m
  }

  predicate Accepts(known: bool, m: Mentions) {
    CellOk(known, m.adds, m.removes, m.updates)
  }

  lemma {:induction false} TrackBalance(known: bool, ops: seq<bool>)
    ensures var m := Track(known, ops);
            && m.removes + (if m.known then 1 else 0) == m.adds + (if known then 1 else 0)
            && m.adds + m.updates == Tally(ops, true)
            && m.removes <= Tally(ops, false)
            && (m.removes == 0 && !m.known ==> m.updates == 0)
  {
    if ops != [] { TrackBalance(known, ops[..|ops| - 1]); }
  }

  lemma {:induction false} TrackKnown(ops: seq<bool>)
    ensures Accepts(true, Track(true, ops)) <==> CleanAt(true, ops)
    ensures Track(true, ops).removes > 0 <==> Tally(ops, false) > 0
  {
    if ops != [] {
      TrackKnown(ops[..|ops| - 1]);
      TrackBalance(true, ops);
      TrackBalance(true, ops[..|ops| - 1]);
    }
  }

  lemma {:induction false} TallyMember(ops: seq<bool>, op: bool)
    ensures Tally(ops, op) > 0 <==> op in ops
  {
    if ops != [] {
      TallyMember(ops[..|ops| - 1], op);
      assert ops == ops[..|ops| - 1] + [ops[|ops| - 1]];
    }
  }

  /** Appending a removal keeps `RemovalsFirst` only when there was no put. */
  lemma RemovalsFirstStep(ops: seq<bool>)
    requires ops != []
    ensures RemovalsFirst(ops) <==>
            RemovalsFirst(ops[..|ops| - 1]) && (ops[|ops| - 1] || Tally(ops[..|ops| - 1], true) == 0)
  {
    var init := ops[..|ops| - 1];
    TallyMember(init, true);
    assert ops == init + [ops[|ops| - 1]];
    assert true in init ==> exists i :: 0 <= i < |init| && init[i];
  }

  lemma {:induction false} TrackUnknown(ops: seq<bool>)
    ensures Accepts(false, Track(false, ops)) <==> CleanAt(false, ops)
    ensures Track(false, ops).removes == 0 <==> RemovalsFirst(ops)
    ensures Tally(ops, true) == 0 ==> !Track(false, ops).known
    ensures Tally(ops, true) > 0 ==> Track(false, ops).adds > 0
  {
    if ops != [] {
      TrackUnknown(ops[..|ops| - 1]);
      TrackBalance(false, ops);
      TrackBalance(false, ops[..|ops| - 1]);
      RemovalsFirstStep(ops);
    }
  }

  lemma TrackAppend(known: bool, ops: seq<bool>, op: bool)
    ensures var m := Track(known, ops);
            Track(known, ops + [op]) ==
            if op then
              if m.known then m.(updates := m.updates + 1) else m.(adds := m.adds + 1, known := true)
            else if m.known then m.(removes := m.removes + 1, known := false) else m
  {
    assert (ops + [op])[..|ops|] == ops;
  }

  /** The last mention of a known, never removed address carries its current record. */
  ghost predicate Latest(s: State, s': State, info: MemberInfo, a: LogicAddr) {
    Count(info.remove, a) == 0 && a in s'.members ==>
      Some(Shown(s'.members[a], a in s.alive)) ==
        if Count(info.update, a) > 0 then Last(info.update, a)
        else if Count(info.add, a) > 0 then Last(info.add, a)
        else Cell(Shows(s), a)
  }

  function Mentioned(s: State, info: MemberInfo, a: LogicAddr): Mentions {
    Mentions(Count(info.add, a), Count(info.remove, a), Count(info.update, a), a in s.members)
  }

  lemma PutAt(s: State, s1: State, info: MemberInfo, n: Member, ops: seq<bool>)
    requires s1.alive == s.alive && Latest(s, s1, info, n.addr)
    requires Track(n.addr in s.members, ops) == Mentioned(s1, info, n.addr)
    ensures var (s', info') := ConfigStep(s1, info, Put(Some(n)));
            && Latest(s, s', info', n.addr)
            && Track(n.addr in s.members, ops + [true]) == Mentioned(s', info', n.addr)
  {
    var nn := Shown(n, n.addr in s1.alive);
    TrackAppend(n.addr in s.members, ops, true);
    TrackBalance(n.addr in s.members, ops);
    Append(info.update, nn, n.addr);
    Append(info.add, nn, n.addr);
  }

  /** Lists that say the same about an address keep the latest record in place. */
  lemma SameMentions(s: State, s1: State, info: MemberInfo, s': State, info': MemberInfo, a: LogicAddr)
    requires Latest(s, s1, info, a) && Cell(s1.members, a) == Cell(s'.members, a)
    requires Count(info.add, a) == Count(info'.add, a) && Last(info.add, a) == Last(info'.add, a)
    requires Count(info.update, a) == Count(info'.update, a) && Last(info.update, a) == Last(info'.update, a)
    requires Count(info.remove, a) == Count(info'.remove, a)
    ensures Latest(s, s', info', a) && Mentioned(s', info', a) == Mentioned(s1, info, a)
  {
  }

  lemma PutElsewhere(s: State, s1: State, info: MemberInfo, n: Member, a: LogicAddr)
    requires n.addr != a && Latest(s, s1, info, a)
    ensures var (s', info') := ConfigStep(s1, info, Put(Some(n)));
            && Latest(s, s', info', a) && Mentioned(s', info', a) == Mentioned(s1, info, a)
  {
    var (s', info') := ConfigStep(s1, info, Put(Some(n)));
    var nn := Shown(n, n.addr in s1.alive);
    if n.addr in s1.members { Append(info.update, nn, a); } else { Append(info.add, nn, a); }
    SameMentions(s, s1, info, s', info', a);
  }

  lemma DeleteAt(s: State, s1: State, info: MemberInfo, k: LogicAddr, ops: seq<bool>, a: LogicAddr)
    requires Keyed(s1.members) && s1.alive == s.alive && Latest(s, s1, info, a)
    requires Track(a in s.members, ops) == Mentioned(s1, info, a)
    ensures var (s', info') := ConfigStep(s1, info, Delete(k));
            && Keyed(s'.members) && s'.alive == s.alive && Latest(s, s', info', a)
            && Track(a in s.members, if k == a then ops + [false] else ops) == Mentioned(s', info', a)
  {
    if k in s1.members { Append(info.remove, s1.members[k].(available := false), a); }
    TrackAppend(a in s.members, ops, false);
  }

  /** What a batch says about one address is what the address's own events say. */
  lemma {:induction false} BatchAt(s: State, evs: seq<ConfigEvent>, a: LogicAddr)
    requires Keyed(s.members)
    ensures var (s', info) := ConfigBatch(s, evs);
            && Keyed(s'.members) && s'.alive == s.alive && Latest(s, s', info, a)
            && Track(a in s.members, Touches(evs, a)) == Mentioned(s', info, a)
  {
    if evs != [] {
      var init := evs[..|evs| - 1];
      BatchAt(s, init, a);
      var (s1, info1) := ConfigBatch(s, init);
      match evs[|evs| - 1]
      case Put(None) =>
      case Put(Some(n)) =>
        if n.addr == a { PutAt(s, s1, info1, n, Touches(init, a)); } else { PutElsewhere(s, s1, info1, n, a); }
      case Delete(k) => DeleteAt(s, s1, info1, k, Touches(init, a), a);
    }
  }

  /** A batch gives a well-formed delta exactly when it is clean, and then the delta takes the
      consumer from the old join to the new one. */
  lemma ConfigBatchExact(s: State, evs: seq<ConfigEvent>)
    requires Keyed(s.members)
    ensures var (s', info) := ConfigBatch(s, evs);
            && Keyed(s'.members) && s'.alive == s.alive
            && (WellFormed(Shows(s), info) <==> CleanBatch(s, evs))
            && (CleanBatch(s, evs) ==> Apply(Shows(s), info) == Shows(s'))
  {
    var (s', info) := ConfigBatch(s, evs);
    WellFormedExact(Shows(s), info);
    forall a
      ensures CellOk(a in Shows(s), Count(info.add, a), Count(info.remove, a), Count(info.update, a))
              <==> CleanAt(a in s.members, Touches(evs, a))
    {
      BatchAt(s, evs, a);
      if a in s.members { TrackKnown(Touches(evs, a)); } else { TrackUnknown(Touches(evs, a)); }
    }
    BatchAt(s, evs, 0);
    if CleanBatch(s, evs) {
      forall a ensures Cell(Apply(Shows(s), info), a) == Cell(Shows(s'), a) {
        assert CleanAt(a in s.members, Touches(evs, a));
        BatchAt(s, evs, a);
        TrackBalance(a in s.members, Touches(evs, a));
        ApplyAt(Shows(s), info, a);
      }
      CellsDetermine(Apply(Shows(s), info), Shows(s'));
    }
  }

  /** One event is always clean, whatever it is. */
  lemma SingleEventClean(s: State, evs: seq<ConfigEvent>)
    requires |evs| <= 1
    ensures CleanBatch(s, evs)
  {
    forall a ensures CleanAt(a in s.members, Touches(evs, a)) {
      if |evs| == 1 {
        assert Touches(evs[..0], a) == [];
        var ops := Touches(evs, a);
        if |ops| == 1 { assert Tally(ops[..0], true) == 0 && Tally(ops[..0], false) == 0; }
      }
    }
  }

  // ---- Runs ----

  datatype Input =
    | MemberSnapshot(entries: seq<Option<Member>>, oldMembers: seq<LogicAddr>, curMembers: seq<LogicAddr>)
    | AliveSnapshot(keys: set<LogicAddr>, curAlive: seq<LogicAddr>, oldAlive: seq<LogicAddr>)
    | ConfigEvents(config: seq<ConfigEvent>)
    | AliveEvents(beats: seq<AliveEvent>)

  /** The iteration orders of an input enumerate the maps they range over. */
  ghost predicate Feasible(s: State, input: Input) {
    match input
    case MemberSnapshot(entries, old_, cur) => Enumerates(old_, s.members.Keys) && Enumerates(cur, Decoded(entries).Keys)
    case AliveSnapshot(keys, cur, old_) => Enumerates(cur, keys) && Enumerates(old_, s.alive)
    case _ => true
  }

  function Step(b: Backend, s: State, input: Input): (State, MemberInfo)
    requires Feasible(s, input)
  {
    match input
    case MemberSnapshot(entries, old_, cur) =>
      (s.(members := Decoded(entries)), SnapshotInfo(b, s, Decoded(entries), old_, cur))
    case AliveSnapshot(keys, cur, old_) =>
      (s.(alive := keys), MemberInfo([], [], AliveSnapshotInfo(s, keys, cur, old_)))
    case ConfigEvents(evs) => ConfigBatch(s, evs)
    case AliveEvents(evs) =>
      var (s', update) := AliveBatch(s, evs);
      (s', MemberInfo([], [], update))
  }

  ghost predicate FeasibleRun(b: Backend, s: State, inputs: seq<Input>)
    decreases |inputs|
  {
    inputs != [] ==> Feasible(s, inputs[0]) && FeasibleRun(b, Step(b, s, inputs[0]).0, inputs[1..])
  }

  /** The consumer is never handed an ill-formed delta, and after every input its view is the
      join of the client's members and heartbeats. */
  ghost predicate InSync(b: Backend, s: State, v: View, inputs: seq<Input>)
    requires FeasibleRun(b, s, inputs)
    decreases |inputs|
  {
    && v == Shows(s)
    && (inputs != [] ==>
          var (s', info) := Step(b, s, inputs[0]);
          WellFormed(v, info) && InSync(b, s', Apply(v, info), inputs[1..]))
  }

  ghost predicate CleanRun(b: Backend, s: State, inputs: seq<Input>)
    requires FeasibleRun(b, s, inputs)
    decreases |inputs|
  {
    inputs != [] ==>
      && (inputs[0].ConfigEvents? ==> CleanBatch(s, inputs[0].config))
      && CleanRun(b, Step(b, s, inputs[0]).0, inputs[1..])
  }

  lemma StepExact(b: Backend, s: State, input: Input)
    requires Keyed(s.members) && Feasible(s, input)
    ensures var (s', info) := Step(b, s, input);
            && Keyed(s'.members)
            && (WellFormed(Shows(s), info) <==> (input.ConfigEvents? ==> CleanBatch(s, input.config)))
            && (WellFormed(Shows(s), info) ==> Apply(Shows(s), info) == Shows(s'))
  {
    match input
    case MemberSnapshot(entries, old_, cur) =>
      DecodedKeyed(entries);
      SnapshotApplied(b, s, Decoded(entries), old_, cur);
      SnapshotWellFormed(b, s, Decoded(entries), old_, cur);
    case AliveSnapshot(keys, cur, old_) =>
      AliveSnapshotExact(s, keys, cur, old_);
    case ConfigEvents(evs) =>
      ConfigBatchExact(s, evs);
    case AliveEvents(evs) =>
      AliveBatchExact(s, evs);
      OnlyUpdates(Shows(s), AliveBatch(s, evs).1);
  }

  /** Over every run the consumer's view stays exact if and only if every configuration batch
      of the run is clean. */
  lemma {:induction false} RunExact(b: Backend, s: State, inputs: seq<Input>)
    requires Keyed(s.members) && FeasibleRun(b, s, inputs)
    ensures InSync(b, s, Shows(s), inputs) <==> CleanRun(b, s, inputs)
    decreases |inputs|
  {
    if inputs != [] {
      StepExact(b, s, inputs[0]);
      var (s', info) := Step(b, s, inputs[0]);
      RunExact(b, s', inputs[1..]);
    }
  }

  /** NATS hands over one entry at a time, so its runs need no condition at all. */
  lemma {:induction false} NatsRunExact(s: State, inputs: seq<Input>)
    requires Keyed(s.members) && FeasibleRun(Nats, s, inputs)
    requires forall input :: input in inputs && input.ConfigEvents? ==> |input.config| <= 1
    ensures InSync(Nats, s, Shows(s), inputs)
    decreases |inputs|
  {
    NatsRunClean(s, inputs);
    RunExact(Nats, s, inputs);
  }

  lemma {:induction false} NatsRunClean(s: State, inputs: seq<Input>)
    requires FeasibleRun(Nats, s, inputs)
    requires forall input :: input in inputs && input.ConfigEvents? ==> |input.config| <= 1
    ensures CleanRun(Nats, s, inputs)
    decreases |inputs|
  {
    if inputs != [] {
      if inputs[0].ConfigEvents? { SingleEventClean(s, inputs[0].config); }
      NatsRunClean(Step(Nats, s, inputs[0]).0, inputs[1..]);
    }
  }

  /** An etcd batch that removes a member and puts it back loses it at the consumer. */
  lemma BatchLosesMember(n: Member)
    ensures var s := State(map[n.addr := n], {});
            var (s', info) := ConfigBatch(s, [Delete(n.addr), Put(Some(n))]);
            && n.addr in s'.members
            && n.addr !in Apply(Shows(s), info)
            && !WellFormed(Shows(s), info)
  {
    var s := State(map[n.addr := n], {});
    var evs := [Delete(n.addr), Put(Some(n))];
    assert evs[..1] == [Delete(n.addr)] && evs[..1][..0] == [];
    assert ConfigBatch(s, evs[..1][..0]) == (s, NO_CHANGE);
    assert ConfigBatch(s, evs[..1]) == ConfigStep(s, NO_CHANGE, Delete(n.addr));
    Append([], n.(available := false), n.addr);
    Append([], Shown(n, false), n.addr);
    var (s', info) := ConfigBatch(s, evs);
    ApplyAt(Shows(s), info, n.addr);
    WellFormedExact(Shows(s), info);
    assert !CellOk(n.addr in Shows(s), Count(info.add, n.addr), Count(info.remove, n.addr), Count(info.update, n.addr));
  }
}
