/** The example membership client: it compares each full, address-sorted snapshot with the
    previous one by a two-index walk and reports the difference. */
module Diff {
  import opened Basics
  import opened Addr
  import opened Membership

  /** In address order; an address may occur more than once. */
  predicate Sorted(ms: seq<Member>) {
    forall i, j :: 0 <= i < j < |ms| ==> ms[i].addr <= ms[j].addr
  }

  /** No address occurs twice. */
  ghost predicate Unique(ms: seq<Member>) {
    forall a :: Count(ms, a) <= 1
  }

  /** The comparison the walk makes; the export flag is not part of it. */
  predicate Same(m: Member, n: Member) {
    m.net == n.net && m.available == n.available
  }

  function Excess(x: nat, y: nat): nat {
    if x > y then x - y else 0
  }

  /** What a delta must say of one address whose record went from `was` to `now`. */
  predicate Reported(was: Option<Member>, now: Option<Member>, info: MemberInfo, a: LogicAddr) {
    && Count(info.add, a) == (if was.None? && now.Some? then 1 else 0)
    && Count(info.remove, a) == (if was.Some? && now.None? then 1 else 0)
    && Count(info.update, a) == (if was.Some? && now.Some? && !Same(was.value, now.value) then 1 else 0)
    && (Count(info.add, a) > 0 ==> Last(info.add, a) == now)
    && (Count(info.update, a) > 0 ==> Last(info.update, a) == now)
  }

  /** How often an address is reported when the lists may repeat it; exactly what is reported when
      neither does. */
  predicate Counted(ls: seq<Member>, us: seq<Member>, info: MemberInfo, a: LogicAddr) {
    && Count(info.add, a) == Excess(Count(us, a), Count(ls, a))
    && Count(info.remove, a) == Excess(Count(ls, a), Count(us, a))
    && (Count(ls, a) <= 1 && Count(us, a) <= 1 ==> Reported(Last(ls, a), Last(us, a), info, a))
  }

  ghost predicate DiffOf(locals: seq<Member>, updates: seq<Member>, info: MemberInfo) {
    forall a :: Counted(locals, updates, info, a)
  }

  /** The records before position `i` of one list come no later than what is left of the other. */
  predicate Before(ms: seq<Member>, i: nat, ns: seq<Member>, k: nat)
    requires i <= |ms| && k <= |ns|
  {
    k < |ns| ==> forall x :: 0 <= x < i ==> ms[x].addr <= ns[k].addr
  }

  /** Of the next address of `ns`, the walk has not passed more records in `ms` than in `ns`. */
  predicate Level(ms: seq<Member>, i: nat, ns: seq<Member>, k: nat)
    requires i <= |ms| && k <= |ns|
  {
    k < |ns| ==> Count(ms[..i], ns[k].addr) <= Count(ns[..k], ns[k].addr)
  }

  lemma {:induction false} Absent(ms: seq<Member>, a: LogicAddr)
    requires forall i :: 0 <= i < |ms| ==> ms[i].addr != a
    ensures Last(ms, a) == None && Count(ms, a) == 0
  {
    if ms != [] {
      Absent(ms[..|ms| - 1], a);
    }
  }

  lemma Advance(ms: seq<Member>, k: nat, a: LogicAddr)
    requires k < |ms|
    ensures Count(ms[..k + 1], a) == Count(ms[..k], a) + if ms[k].addr == a then 1 else 0
    ensures Last(ms[..k + 1], a) == if ms[k].addr == a then Some(ms[k]) else Last(ms[..k], a)
  {
    assert ms[..k + 1] == ms[..k] + [ms[k]];
    Append(ms[..k], ms[k], a);
  }

  lemma StepAdd(locals: seq<Member>, j: nat, updates: seq<Member>, i: nat, info: MemberInfo)
    requires j <= |locals| && i < |updates| && DiffOf(locals[..j], updates[..i], info) && Level(locals, j, updates, i)
    ensures DiffOf(locals[..j], updates[..i + 1], info.(add := info.add + [updates[i]]))
  {
    var next := info.(add := info.add + [updates[i]]);
    var ls, us, us' := locals[..j], updates[..i], updates[..i + 1];
    forall a ensures Counted(ls, us', next, a) {
      assert Counted(ls, us, info, a);
      Advance(updates, i, a);
      Append(info.add, updates[i], a);
      LastCount(ls, a);
      LastCount(us, a);
    }
  }

  lemma StepRemove(locals: seq<Member>, j: nat, updates: seq<Member>, i: nat, info: MemberInfo)
    requires j < |locals| && i <= |updates| && DiffOf(locals[..j], updates[..i], info) && Level(updates, i, locals, j)
    ensures DiffOf(locals[..j + 1], updates[..i], info.(remove := info.remove + [locals[j]]))
  {
    var next := info.(remove := info.remove + [locals[j]]);
    var ls, us, ls' := locals[..j], updates[..i], locals[..j + 1];
    forall a ensures Counted(ls', us, next, a) {
      assert Counted(ls, us, info, a);
      Advance(locals, j, a);
      Append(info.remove, locals[j], a);
      LastCount(ls, a);
      LastCount(us, a);
    }
  }

  lemma StepBoth(locals: seq<Member>, j: nat, updates: seq<Member>, i: nat, info: MemberInfo)
    requires j < |locals| && i < |updates| && locals[j].addr == updates[i].addr
    requires DiffOf(locals[..j], updates[..i], info) && Level(locals, j, updates, i) && Level(updates, i, locals, j)
    ensures DiffOf(locals[..j + 1], updates[..i + 1],
                   if Same(locals[j], updates[i]) then info else info.(update := info.update + [updates[i]]))
  {
    var next := if Same(locals[j], updates[i]) then info else info.(update := info.update + [updates[i]]);
    var ls, us, ls', us' := locals[..j], updates[..i], locals[..j + 1], updates[..i + 1];
    forall a ensures Counted(ls', us', next, a) {
      assert Counted(ls, us, info, a);
      Advance(locals, j, a);
      Advance(updates, i, a);
      Append(info.update, updates[i], a);
      LastCount(ls, a);
      LastCount(us, a);
    }
  }

  /** What passing one record of `ms` does to the position of the walk. */
  lemma Passed(ms: seq<Member>, i: nat, ns: seq<Member>, k: nat)
    requires Sorted(ms) && i < |ms| && k <= |ns| && Before(ns, k, ms, i) && Level(ns, k, ms, i)
    requires Before(ms, i, ns, k) && Level(ms, i, ns, k)
    requires k < |ns| ==> ms[i].addr < ns[k].addr
    ensures Before(ns, k, ms, i + 1) && Level(ns, k, ms, i + 1)
    ensures Before(ms, i + 1, ns, k) && Level(ms, i + 1, ns, k)
  {
    if k < |ns| {
      Advance(ms, i, ns[k].addr);
    }
    if i + 1 < |ms| {
      Advance(ms, i, ms[i + 1].addr);
      if ms[i + 1].addr != ms[i].addr {
        Absent(ns[..k], ms[i + 1].addr);
      }
    }
  }

  lemma PassedPair(ms: seq<Member>, i: nat, ns: seq<Member>, k: nat)
    requires Sorted(ms) && Sorted(ns) && i < |ms| && k < |ns| && ms[i].addr == ns[k].addr
    requires Before(ns, k, ms, i) && Level(ns, k, ms, i) && Before(ms, i, ns, k) && Level(ms, i, ns, k)
    ensures Before(ns, k + 1, ms, i + 1) && Level(ns, k + 1, ms, i + 1)
  {
    if i + 1 < |ms| {
      Advance(ms, i, ms[i + 1].addr);
      Advance(ns, k, ms[i + 1].addr);
      if ms[i + 1].addr != ms[i].addr {
        Absent(ns[..k], ms[i + 1].addr);
      }
    }
  }

  lemma {:induction false} RestAdded(locals: seq<Member>, updates: seq<Member>, i: nat, info: MemberInfo)
    requires Sorted(updates) && i <= |updates| && DiffOf(locals, updates[..i], info)
    requires Before(locals, |locals|, updates, i) && Level(locals, |locals|, updates, i)
    ensures DiffOf(locals, updates, info.(add := info.add + updates[i..]))
    decreases |updates| - i
  {
    assert locals[..|locals|] == locals;
    if i == |updates| {
      assert updates[..i] == updates && info.add + updates[i..] == info.add;
    } else {
      StepAdd(locals, |locals|, updates, i, info);
      Passed(updates, i, locals, |locals|);
      RestAdded(locals, updates, i + 1, info.(add := info.add + [updates[i]]));
      assert info.add + updates[i..] == info.add + [updates[i]] + updates[i + 1..];
    }
  }

  lemma {:induction false} RestRemoved(locals: seq<Member>, j: nat, updates: seq<Member>, info: MemberInfo)
    requires Sorted(locals) && j <= |locals| && DiffOf(locals[..j], updates, info)
    requires Before(updates, |updates|, locals, j) && Level(updates, |updates|, locals, j)
    ensures DiffOf(locals, updates, info.(remove := info.remove + locals[j..]))
    decreases |locals| - j
  {
    assert updates[..|updates|] == updates;
    if j == |locals| {
      assert locals[..j] == locals && info.remove + locals[j..] == info.remove;
    } else {
      StepRemove(locals, j, updates, |updates|, info);
      Passed(locals, j, updates, |updates|);
      RestRemoved(locals, j + 1, updates, info.(remove := info.remove + [locals[j]]));
      assert info.remove + locals[j..] == info.remove + [locals[j]] + locals[j + 1..];
    }
  }

  /** The walk over the previous and the new snapshot. */
  method Walk(locals: seq<Member>, updates: seq<Member>) returns (info: MemberInfo)
    requires Sorted(locals) && Sorted(updates)
    ensures DiffOf(locals, updates, info)
  {
    info := NO_CHANGE;
    var i, j := 0, 0;
    while i < |updates| && j < |locals|
      invariant i <= |updates| && j <= |locals|
      invariant Before(updates, i, locals, j) && Level(updates, i, locals, j)
      invariant Before(locals, j, updates, i) && Level(locals, j, updates, i)
      invariant DiffOf(locals[..j], updates[..i], info)
      decreases |updates| - i + |locals| - j
    {
      var nodej := locals[j];
      var nodei := updates[i];
      if nodei.addr == nodej.addr {
        StepBoth(locals, j, updates, i, info);
        PassedPair(updates, i, locals, j);
        PassedPair(locals, j, updates, i);
        if nodei.net != nodej.net || nodei.available != nodej.available {
          info := info.(update := info.update + [nodei]);
        }
        i := i + 1;
        j := j + 1;
      } else if nodei.addr > nodej.addr {
        StepRemove(locals, j, updates, i, info);
        Passed(locals, j, updates, i);
        info := info.(remove := info.remove + [nodej]);
        j := j + 1;
      } else {
        StepAdd(locals, j, updates, i, info);
        Passed(updates, i, locals, j);
        info := info.(add := info.add + [nodei]);
        i := i + 1;
      }
    }
    if i < |updates| {
      assert locals[..j] == locals;
      RestAdded(locals, updates, i, info);
      assert info.remove + locals[j..] == info.remove;
    } else {
      assert updates[..i] == updates;
      RestRemoved(locals, j, updates, info);
      assert info.add + updates[i..] == info.add;
    }
    info := info.(add := info.add + updates[i..]);
    info := info.(remove := info.remove + locals[j..]);
  }

  // ---- A snapshot as it arrives ----

  /** The records whose address parses. */
  function Parsed(ms: seq<Member>, parses: LogicAddr -> bool): (r: seq<Member>)
    ensures forall m :: m in r ==> m in ms
  {
    if ms == [] then []
    else
      var init, m := Parsed(ms[..|ms| - 1], parses), ms[|ms| - 1];
      if parses(m.addr) then init + [m] else init
  }

  function Insert(ms: seq<Member>, m: Member): (r: seq<Member>)
    ensures forall x :: x in r ==> x == m || x in ms
  {
    if ms == [] || ms[|ms| - 1].addr < m.addr then ms + [m]
    else Insert(ms[..|ms| - 1], m) + [ms[|ms| - 1]]
  }

  /** The list in address order. */
  function Arranged(ms: seq<Member>): seq<Member> {
    if ms == [] then [] else Insert(Arranged(ms[..|ms| - 1]), ms[|ms| - 1])
  }

  lemma {:induction false} InsertSorted(ms: seq<Member>, m: Member)
    requires Sorted(ms)
    ensures Sorted(Insert(ms, m))
  {
    if ms != [] && ms[|ms| - 1].addr >= m.addr {
      var init, last := ms[..|ms| - 1], ms[|ms| - 1];
      InsertSorted(init, m);
      var r := Insert(init, m);
      forall i | 0 <= i < |r| ensures r[i].addr <= last.addr {
        assert r[i] in r;
      }
    }
  }

  lemma {:induction false} InsertAt(ms: seq<Member>, m: Member, a: LogicAddr)
    ensures Count(Insert(ms, m), a) == Count(ms, a) + if m.addr == a then 1 else 0
    ensures Count(Insert(ms, m), a) <= 1 ==> Last(Insert(ms, m), a) == if m.addr == a then Some(m) else Last(ms, a)
  {
    LastCount(ms, a);
    if ms == [] || ms[|ms| - 1].addr < m.addr {
      Append(ms, m, a);
    } else {
      InsertAt(ms[..|ms| - 1], m, a);
      Append(Insert(ms[..|ms| - 1], m), ms[|ms| - 1], a);
    }
  }

  /** Sorting yields a sorted list that names every address as often, and has the same record
      where an address occurs once. */
  lemma {:induction false} ArrangedExact(ms: seq<Member>, a: LogicAddr)
    ensures Sorted(Arranged(ms)) && Count(Arranged(ms), a) == Count(ms, a)
    ensures Count(ms, a) <= 1 ==> Last(Arranged(ms), a) == Last(ms, a)
  {
    if ms != [] {
      var init, m := ms[..|ms| - 1], ms[|ms| - 1];
      ArrangedExact(init, a);
      InsertSorted(Arranged(init), m);
      InsertAt(Arranged(init), m, a);
    }
  }

  lemma {:induction false} ParsedExact(ms: seq<Member>, parses: LogicAddr -> bool, a: LogicAddr)
    ensures Count(Parsed(ms, parses), a) == if parses(a) then Count(ms, a) else 0
    ensures Last(Parsed(ms, parses), a) == if parses(a) then Last(ms, a) else None
  {
    if ms != [] {
      var init, m := ms[..|ms| - 1], ms[|ms| - 1];
      ParsedExact(init, parses, a);
      Append(Parsed(init, parses), m, a);
    }
  }

  /** The list kept for a packet has exactly its parsable records, address by address. */
  predicate Keeps(nodes: seq<Member>, packet: seq<Member>, a: LogicAddr) {
    && Count(nodes, a) == (if Decodable(a) then Count(packet, a) else 0)
    && (Count(nodes, a) <= 1 ==> Last(nodes, a) == if Decodable(a) then Last(packet, a) else None)
  }

  class Client {
    var nodes: seq<Member>

    constructor ()
      ensures Sorted(nodes) && nodes == []
    {
      nodes := [];
    }

    /** A full snapshot arrived: drop what does not parse, sort, compare, keep. */
    method OnSnapshot(packet: seq<Member>) returns (info: MemberInfo)
      requires Sorted(nodes)
      modifies this
      ensures Sorted(nodes) && DiffOf(old(nodes), nodes, info)
      ensures forall a :: Keeps(nodes, packet, a)
    {
      var updates := Arranged(Parsed(packet, Decodable));
      ArrangedExact(Parsed(packet, Decodable), 0);
      forall a ensures Keeps(updates, packet, a) {
        ParsedExact(packet, Decodable, a);
        ArrangedExact(Parsed(packet, Decodable), a);
      }
      info := Walk(nodes, updates);
      nodes := updates;
    }
  }

  // ---- What the delta means to its consumer ----

  function Table(ms: seq<Member>): View {
    PutAll(map[], ms)
  }

  lemma TableAt(ms: seq<Member>, a: LogicAddr)
    ensures Cell(Table(ms), a) == Last(ms, a)
  {
    PutAllAt(map[], ms, a);
    LastCount(ms, a);
  }

  /** Two records that a consumer cannot tell apart except by the export flag. */
  predicate Alike(x: Option<Member>, y: Option<Member>) {
    && x.Some? == y.Some?
    && (x.Some? ==> x.value.addr == y.value.addr && x.value.net == y.value.net && x.value.available == y.value.available)
  }

  /** A view agrees with a list on address, net address and availability. */
  ghost predicate Agrees(v: View, ms: seq<Member>) {
    forall a :: Alike(Cell(v, a), Last(ms, a))
  }

  /** The three lists mention pairwise different addresses, each at most once. */
  ghost predicate PairwiseDisjoint(info: MemberInfo) {
    forall a :: Count(info.add, a) + Count(info.remove, a) + Count(info.update, a) <= 1
  }

  lemma UniqueReported(locals: seq<Member>, updates: seq<Member>, info: MemberInfo, a: LogicAddr)
    requires DiffOf(locals, updates, info) && Unique(locals) && Unique(updates)
    ensures Reported(Last(locals, a), Last(updates, a), info, a)
  {
    assert Counted(locals, updates, info, a);
  }

  lemma Disjoint(locals: seq<Member>, updates: seq<Member>, info: MemberInfo)
    requires DiffOf(locals, updates, info) && Unique(locals) && Unique(updates)
    ensures PairwiseDisjoint(info)
  {
    forall a ensures Count(info.add, a) + Count(info.remove, a) + Count(info.update, a) <= 1 {
      UniqueReported(locals, updates, info, a);
    }
  }

  /** A record that did not change is not reported. */
  lemma UnchangedSilent(locals: seq<Member>, updates: seq<Member>, info: MemberInfo, a: LogicAddr)
    requires DiffOf(locals, updates, info) && Unique(locals) && Unique(updates) && Alike(Last(locals, a), Last(updates, a))
    ensures Count(info.add, a) == Count(info.remove, a) == Count(info.update, a) == 0
  {
    UniqueReported(locals, updates, info, a);
  }

  lemma ApplyCell(v: View, locals: seq<Member>, updates: seq<Member>, info: MemberInfo, a: LogicAddr)
    requires DiffOf(locals, updates, info) && Unique(locals) && Unique(updates) && Alike(Cell(v, a), Last(locals, a))
    ensures CellOk(a in v, Count(info.add, a), Count(info.remove, a), Count(info.update, a))
    ensures Cell(Apply(v, info), a) == if Alike(Cell(v, a), Last(updates, a)) then Cell(v, a) else Last(updates, a)
  {
    UniqueReported(locals, updates, info, a);
    ApplyAt(v, info, a);
  }

  /** For a consumer that agrees with the previous snapshot, the delta leaves it in agreement with
      the new one when no address occurs twice there. */
  lemma StepAgrees(v: View, locals: seq<Member>, updates: seq<Member>, info: MemberInfo)
    requires Agrees(v, locals) && DiffOf(locals, updates, info) && Unique(locals) && Unique(updates)
    ensures WellFormed(v, info) && Agrees(Apply(v, info), updates)
  {
    WellFormedExact(v, info);
    forall a
      ensures CellOk(a in v, Count(info.add, a), Count(info.remove, a), Count(info.update, a))
      ensures Alike(Cell(Apply(v, info), a), Last(updates, a))
    {
      assert Alike(Cell(v, a), Last(locals, a));
      ApplyCell(v, locals, updates, info, a);
    }
  }

  /** The delta is well formed if and only if no address occurs twice in the new snapshot. */
  lemma StepWellFormed(v: View, locals: seq<Member>, updates: seq<Member>, info: MemberInfo)
    requires Agrees(v, locals) && DiffOf(locals, updates, info) && Unique(locals)
    ensures WellFormed(v, info) <==> Unique(updates)
  {
    if Unique(updates) {
      StepAgrees(v, locals, updates, info);
    } else {
      var a :| Count(updates, a) > 1;
      WellFormedExact(v, info);
      LastCount(locals, a);
      assert Alike(Cell(v, a), Last(locals, a)) && Counted(locals, updates, info, a);
      assert !CellOk(a in v, Count(info.add, a), Count(info.remove, a), Count(info.update, a));
    }
  }

  /** The address kept its net address and availability but is now exported differently. */
  predicate ExportFlipped(v: View, updates: seq<Member>, a: LogicAddr) {
    Alike(Cell(v, a), Last(updates, a)) && Cell(v, a) != Last(updates, a)
  }

  /** The consumer ends with exactly the new list if and only if no address changed its export
      flag alone. */
  lemma StepExact(v: View, locals: seq<Member>, updates: seq<Member>, info: MemberInfo)
    requires Agrees(v, locals) && DiffOf(locals, updates, info) && Unique(locals) && Unique(updates)
    ensures Apply(v, info) == Table(updates) <==> forall a :: !ExportFlipped(v, updates, a)
  {
    var w := Apply(v, info);
    forall a
      ensures Cell(w, a) == if Alike(Cell(v, a), Last(updates, a)) then Cell(v, a) else Last(updates, a)
      ensures Cell(Table(updates), a) == Last(updates, a)
    {
      assert Alike(Cell(v, a), Last(locals, a));
      ApplyCell(v, locals, updates, info, a);
      TableAt(updates, a);
    }
    if forall a :: !ExportFlipped(v, updates, a) {
      forall a ensures Cell(w, a) == Cell(Table(updates), a) {
        assert !ExportFlipped(v, updates, a);
      }
      CellsDetermine(w, Table(updates));
    } else {
      var a :| ExportFlipped(v, updates, a);
      assert Cell(w, a) != Cell(Table(updates), a);
    }
  }

  lemma OneUnique(m: Member)
    ensures Unique([m])
    ensures Last([m], m.addr) == Some(m) && forall a :: a != m.addr ==> Last([m], a) == None
  {
    forall a ensures Count([m], a) <= 1 && Last([m], a) == if m.addr == a then Some(m) else None {
      Append([], m, a);
      assert [] + [m] == [m];
    }
  }

  /** A snapshot that only flips an export flag is reported as no change. */
  lemma ExportChangeLost(a: LogicAddr, net: NetAddr, info: MemberInfo)
    requires DiffOf([Member(a, net, false, true)], [Member(a, net, true, true)], info)
    ensures var was := [Member(a, net, false, true)];
            Apply(Table(was), info) == Table(was) != Table([Member(a, net, true, true)])
  {
    var m, n := Member(a, net, false, true), Member(a, net, true, true);
    var was, now := [m], [n];
    OneUnique(m);
    OneUnique(n);
    forall b ensures Cell(Apply(Table(was), info), b) == Cell(Table(was), b) {
      TableAt(was, b);
      ApplyCell(Table(was), was, now, info, b);
    }
    CellsDetermine(Apply(Table(was), info), Table(was));
    TableAt(was, a);
    TableAt(now, a);
  }

  /** A packet that repeats an address makes the client add it twice. */
  lemma RepeatedAddress(m: Member, info: MemberInfo)
    requires DiffOf([], [m, m], info)
    ensures Count(info.add, m.addr) == 2 && !WellFormed(map[], info)
  {
    var updates := [m, m];
    OneUnique(m);
    Append([m], m, m.addr);
    LastCount([m], m.addr);
    assert [m] + [m] == updates;
    assert Counted([], updates, info, m.addr);
    WellFormedExact(map[], info);
    assert !CellOk(false, Count(info.add, m.addr), Count(info.remove, m.addr), Count(info.update, m.addr));
  }

  // ---- Whole runs ----

  /** Each delta is the difference between consecutive snapshots. */
  ghost predicate Deltas(first: seq<Member>, snaps: seq<seq<Member>>, infos: seq<MemberInfo>)
    decreases |snaps|
  {
    && |snaps| == |infos|
    && (snaps != [] ==> DiffOf(first, snaps[0], infos[0]) && Deltas(snaps[0], snaps[1..], infos[1..]))
  }

  ghost predicate AllUnique(snaps: seq<seq<Member>>) {
    forall i :: 0 <= i < |snaps| ==> Unique(snaps[i])
  }

  /** After any number of snapshots without repeated addresses, the consumer that started in
      agreement agrees with the last one. */
  lemma {:induction false} RunAgrees(v: View, first: seq<Member>, snaps: seq<seq<Member>>, infos: seq<MemberInfo>)
    requires Agrees(v, first) && Unique(first) && Deltas(first, snaps, infos) && AllUnique(snaps)
    ensures Agrees(Fold(v, infos), if snaps == [] then first else snaps[|snaps| - 1])
    decreases |snaps|
  {
    if snaps != [] {
      StepAgrees(v, first, snaps[0], infos[0]);
      RunAgrees(Apply(v, infos[0]), snaps[0], snaps[1..], infos[1..]);
    }
  }

  /** Over every run, all deltas are well formed if and only if no snapshot repeats an address. */
  lemma {:induction false} RunExact(v: View, first: seq<Member>, snaps: seq<seq<Member>>, infos: seq<MemberInfo>)
    requires Agrees(v, first) && Unique(first) && Deltas(first, snaps, infos)
    ensures AllWellFormed(v, infos) <==> AllUnique(snaps)
    decreases |snaps|
  {
    if snaps != [] {
      StepWellFormed(v, first, snaps[0], infos[0]);
      if Unique(snaps[0]) {
        StepAgrees(v, first, snaps[0], infos[0]);
        RunExact(Apply(v, infos[0]), snaps[0], snaps[1..], infos[1..]);
        assert AllUnique(snaps) <==> AllUnique(snaps[1..]) by {
          forall i | 0 < i < |snaps| ensures snaps[i] == snaps[1..][i - 1] {
          }
        }
      }
    }
  }
}
