/** Membership records, the deltas a membership source emits, and what they mean to a
    consumer that keeps its own view of the cluster. */
module Membership {
  import opened Basics
  import opened Addr

  type NetAddr = string

  datatype Member = Member(addr: LogicAddr, net: NetAddr, exported: bool, available: bool)

  datatype MemberInfo = MemberInfo(add: seq<Member>, remove: seq<Member>, update: seq<Member>)

  const NO_CHANGE := MemberInfo([], [], [])

  type View = map<LogicAddr, Member>

  ghost predicate Keyed(v: View) {
    forall a :: a in v ==> v[a].addr == a
  }

  /** What the consumer is told about a configured member. */
  function Shown(m: Member, alive: bool): Member {
    m.(available := alive && m.available)
  }

  /** Configured members joined with heartbeats. */
  function Join(members: View, alive: set<LogicAddr>): View {
    map a | a in members :: Shown(members[a], a in alive)
  }

  // ---- Applying a delta: all additions, then all removals, then all updates ----

  function PutAll(v: View, ms: seq<Member>): View {
    if ms == [] then v
    else
      var last := ms[|ms| - 1];
      PutAll(v, ms[..|ms| - 1])[last.addr := last]
  }

  function DropAll(v: View, ms: seq<Member>): View {
    if ms == [] then v
    else DropAll(v, ms[..|ms| - 1]) - {ms[|ms| - 1].addr}
  }

  function Apply(v: View, info: MemberInfo): View {
    PutAll(DropAll(PutAll(v, info.add), info.remove), info.update)
  }

  // ---- Well-formed deltas ----

  predicate AddsOk(v: View, ms: seq<Member>) {
    ms != [] ==>
      AddsOk(v, ms[..|ms| - 1]) && ms[|ms| - 1].addr !in PutAll(v, ms[..|ms| - 1])
  }

  predicate RemovesOk(v: View, ms: seq<Member>) {
    ms != [] ==>
      RemovesOk(v, ms[..|ms| - 1]) && ms[|ms| - 1].addr in DropAll(v, ms[..|ms| - 1])
  }

  predicate UpdatesOk(v: View, ms: seq<Member>) {
    ms != [] ==> UpdatesOk(v, ms[..|ms| - 1]) && ms[|ms| - 1].addr in v
  }

  /** Every addition names an absent address, every removal and update a present one,
      at the moment the consumer reaches it. */
  predicate WellFormed(v: View, info: MemberInfo) {
    && AddsOk(v, info.add)
    && RemovesOk(PutAll(v, info.add), info.remove)
    && UpdatesOk(DropAll(PutAll(v, info.add), info.remove), info.update)
  }

  // ---- One address at a time ----

  function Count(ms: seq<Member>, a: LogicAddr): nat {
    if ms == [] then 0
    else Count(ms[..|ms| - 1], a) + if ms[|ms| - 1].addr == a then 1 else 0
  }

  function Last(ms: seq<Member>, a: LogicAddr): (r: Option<Member>)
    ensures r.Some? ==> r.value.addr == a && r.value in ms
  {
    if ms == [] then None
    else if ms[|ms| - 1].addr == a then Some(ms[|ms| - 1])
    else Last(ms[..|ms| - 1], a)
  }

  function Cell(v: View, a: LogicAddr): Option<Member> {
    if a in v then Some(v[a]) else None
  }

  lemma {:induction false} LastCount(ms: seq<Member>, a: LogicAddr)
    ensures Last(ms, a).Some? <==> Count(ms, a) > 0
  {
    if ms != [] { LastCount(ms[..|ms| - 1], a); }
  }

  lemma Append(ms: seq<Member>, m: Member, a: LogicAddr)
    ensures Count(ms + [m], a) == Count(ms, a) + if m.addr == a then 1 else 0
    ensures Last(ms + [m], a) == if m.addr == a then Some(m) else Last(ms, a)
  {
    assert (ms + [m])[..|ms|] == ms;
  }

  lemma {:induction false} PutAllAt(v: View, ms: seq<Member>, a: LogicAddr)
    ensures Cell(PutAll(v, ms), a) == if Count(ms, a) > 0 then Last(ms, a) else Cell(v, a)
  {
    if ms != [] {
      PutAllAt(v, ms[..|ms| - 1], a);
      LastCount(ms[..|ms| - 1], a);
    }
  }

  lemma {:induction false} DropAllAt(v: View, ms: seq<Member>, a: LogicAddr)
    ensures Cell(DropAll(v, ms), a) == if Count(ms, a) > 0 then None else Cell(v, a)
  {
    if ms != [] { DropAllAt(v, ms[..|ms| - 1], a); }
  }

  /** The effect of a delta on one address. */
  lemma ApplyAt(v: View, info: MemberInfo, a: LogicAddr)
    ensures Cell(Apply(v, info), a) ==
            if Count(info.update, a) > 0 then Last(info.update, a)
            else if Count(info.remove, a) > 0 then None
            else if Count(info.add, a) > 0 then Last(info.add, a)
            else Cell(v, a)
  {
    PutAllAt(v, info.add, a);
    DropAllAt(PutAll(v, info.add), info.remove, a);
    PutAllAt(DropAll(PutAll(v, info.add), info.remove), info.update, a);
  }

  lemma CellsDetermine(v: View, w: View)
    requires forall a :: Cell(v, a) == Cell(w, a)
    ensures v == w
  {
    forall a ensures a in v <==> a in w {
      assert Cell(v, a) == Cell(w, a);
    }
    forall a | a in v ensures v[a] == w[a] {
      assert Cell(v, a) == Cell(w, a);
    }
  }

  predicate AddCellOk(present: bool, adds: nat) {
    adds <= 1 && (adds == 1 ==> !present)
  }

  predicate RemoveCellOk(present: bool, removes: nat) {
    removes <= 1 && (removes == 1 ==> present)
  }

  /** Well-formedness of a delta at one address, from how often it is mentioned. */
  predicate CellOk(present: bool, adds: nat, removes: nat, updates: nat) {
    && AddCellOk(present, adds)
    && RemoveCellOk(present || adds > 0, removes)
    && (updates > 0 ==> (present || adds > 0) && removes == 0)
  }

  lemma {:induction false} AddsOkExact(v: View, ms: seq<Member>)
    ensures AddsOk(v, ms) <==> forall a :: AddCellOk(a in v, Count(ms, a))
  {
    if ms != [] {
      var init, b := ms[..|ms| - 1], ms[|ms| - 1].addr;
      AddsOkExact(v, init);
      PutAllAt(v, init, b);
      LastCount(init, b);
      if AddsOk(v, ms) {
        forall a ensures AddCellOk(a in v, Count(ms, a)) {
          assert AddCellOk(a in v, Count(init, a));
        }
      } else if AddsOk(v, init) {
        assert !AddCellOk(b in v, Count(ms, b));
      } else {
        var a :| !AddCellOk(a in v, Count(init, a));
        assert !AddCellOk(a in v, Count(ms, a));
      }
    }
  }

  lemma {:induction false} RemovesOkExact(v: View, ms: seq<Member>)
    ensures RemovesOk(v, ms) <==> forall a :: RemoveCellOk(a in v, Count(ms, a))
  {
    if ms != [] {
      var init, b := ms[..|ms| - 1], ms[|ms| - 1].addr;
      RemovesOkExact(v, init);
      DropAllAt(v, init, b);
      if RemovesOk(v, ms) {
        forall a ensures RemoveCellOk(a in v, Count(ms, a)) {
          assert RemoveCellOk(a in v, Count(init, a));
        }
      } else if RemovesOk(v, init) {
        assert !RemoveCellOk(b in v, Count(ms, b));
      } else {
        var a :| !RemoveCellOk(a in v, Count(init, a));
        assert !RemoveCellOk(a in v, Count(ms, a));
      }
    }
  }

  lemma {:induction false} UpdatesOkExact(v: View, ms: seq<Member>)
    ensures UpdatesOk(v, ms) <==> forall a :: Count(ms, a) > 0 ==> a in v
  {
    if ms != [] {
      var init, b := ms[..|ms| - 1], ms[|ms| - 1].addr;
      UpdatesOkExact(v, init);
      assert Count(ms, b) > 0;
      forall a ensures Count(init, a) > 0 ==> Count(ms, a) > 0 {
      }
    }
  }

  /** A delta is well formed exactly when it is at every address. */
  lemma WellFormedExact(v: View, info: MemberInfo)
    ensures WellFormed(v, info) <==>
            forall a :: CellOk(a in v, Count(info.add, a), Count(info.remove, a), Count(info.update, a))
  {
    var v1 := PutAll(v, info.add);
    var v2 := DropAll(v1, info.remove);
    AddsOkExact(v, info.add);
    RemovesOkExact(v1, info.remove);
    UpdatesOkExact(v2, info.update);
    forall a
      ensures a in v1 <==> a in v || Count(info.add, a) > 0
      ensures a in v2 <==> a in v1 && Count(info.remove, a) == 0
    {
      PutAllAt(v, info.add, a);
      LastCount(info.add, a);
      DropAllAt(v1, info.remove, a);
    }
    if WellFormed(v, info) {
      forall a ensures CellOk(a in v, Count(info.add, a), Count(info.remove, a), Count(info.update, a)) {
        assert AddCellOk(a in v, Count(info.add, a));
        assert RemoveCellOk(a in v1, Count(info.remove, a));
      }
    } else if !AddsOk(v, info.add) {
      var a :| !AddCellOk(a in v, Count(info.add, a));
      assert !CellOk(a in v, Count(info.add, a), Count(info.remove, a), Count(info.update, a));
    } else if !RemovesOk(v1, info.remove) {
      var a :| !RemoveCellOk(a in v1, Count(info.remove, a));
      assert !CellOk(a in v, Count(info.add, a), Count(info.remove, a), Count(info.update, a));
    } else {
      var a :| Count(info.update, a) > 0 && a !in v2;
      assert !CellOk(a in v, Count(info.add, a), Count(info.remove, a), Count(info.update, a));
    }
  }

  /** Only the addresses of removals matter. */
  lemma RemovedAddresses(v: View, i1: MemberInfo, i2: MemberInfo)
    requires i1.add == i2.add && i1.update == i2.update
    requires forall a :: Count(i1.remove, a) == Count(i2.remove, a)
    ensures WellFormed(v, i2) ==> WellFormed(v, i1)
    ensures Apply(v, i1) == Apply(v, i2)
  {
    WellFormedExact(v, i1);
    WellFormedExact(v, i2);
    forall a ensures Cell(Apply(v, i1), a) == Cell(Apply(v, i2), a) {
      ApplyAt(v, i1, a);
      ApplyAt(v, i2, a);
    }
    CellsDetermine(Apply(v, i1), Apply(v, i2));
    if WellFormed(v, i2) {
      forall a ensures CellOk(a in v, Count(i1.add, a), Count(i1.remove, a), Count(i1.update, a)) {
        assert CellOk(a in v, Count(i2.add, a), Count(i2.remove, a), Count(i2.update, a));
      }
    }
  }

  /** A delta that only updates present addresses is well formed. */
  lemma OnlyUpdates(v: View, update: seq<Member>)
    requires forall m :: m in update ==> m.addr in v
    ensures WellFormed(v, MemberInfo([], [], update))
    ensures Apply(v, MemberInfo([], [], update)) == PutAll(v, update)
  {
    UpdatesOkExact(v, update);
    forall a | Count(update, a) > 0 ensures a in v {
      LastCount(update, a);
      assert Last(update, a).value in update;
    }
  }

  // ---- Sequences of deltas ----

  function Fold(v: View, infos: seq<MemberInfo>): View
    decreases |infos|
  {
    if infos == [] then v else Fold(Apply(v, infos[0]), infos[1..])
  }

  predicate AllWellFormed(v: View, infos: seq<MemberInfo>)
    decreases |infos|
  {
    infos != [] ==> WellFormed(v, infos[0]) && AllWellFormed(Apply(v, infos[0]), infos[1..])
  }

  lemma {:induction false} PutAllKeyed(v: View, ms: seq<Member>)
    requires Keyed(v)
    ensures Keyed(PutAll(v, ms))
  {
    if ms != [] { PutAllKeyed(v, ms[..|ms| - 1]); }
  }

  lemma {:induction false} DropAllKeyed(v: View, ms: seq<Member>)
    requires Keyed(v)
    ensures Keyed(DropAll(v, ms))
  {
    if ms != [] { DropAllKeyed(v, ms[..|ms| - 1]); }
  }
}
