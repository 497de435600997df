/** What the Redis store holds, told from the history of a run and not from its own records. */
module RedisHistory {
  import opened Basics
  import opened Addr
  import opened Membership
  import opened Versioned
  import opened Redis
  import opened RedisSync
  import KvClient

  // ---- Heartbeats and timeouts ----

  /** A scan declares a live node dead exactly when the clock has passed its deadline. */
  lemma TimeoutExact(st: Store, a: LogicAddr, now: int)
    requires a in st.alives && st.alives[a].AliveRec? && !st.alives[a].dead
    ensures var d := st.alives[a].deadline;
            a in CheckTimeout(st, now).alives
            && CheckTimeout(st, now).alives[a] == if now > d then AliveRec(st.aliveVer + 1, true, d) else st.alives[a]
  {
  }

  /** It touches nothing else. */
  lemma TimeoutSpares(st: Store, a: LogicAddr, now: int)
    requires a !in st.alives || st.alives[a].Truncated? || st.alives[a].dead
    ensures a in CheckTimeout(st, now).alives <==> a in st.alives
    ensures a in st.alives ==> CheckTimeout(st, now).alives[a] == st.alives[a]
  {
  }

  predicate NoBeat(steps: seq<Step>, a: LogicAddr) {
    forall i :: 0 <= i < |steps| && steps[i].KeepAlive? ==> steps[i].beat != a
  }

  /** Some scan of the run came after the deadline. */
  predicate Overdue(steps: seq<Step>, d: int) {
    exists i :: 0 <= i < |steps| && steps[i].ScanTimeouts? && steps[i].now > d
  }

  /** The node has a readable record with this deadline. */
  predicate Recorded(st: Store, a: LogicAddr, d: int) {
    a in st.alives && st.alives[a].AliveRec? && st.alives[a].deadline == d
  }

  lemma SilentStep(sys: System, a: LogicAddr, d: int, step: Step)
    requires Recorded(sys.store, a, d) && Feasible(sys, step) && (step.KeepAlive? ==> step.beat != a)
    ensures var st := Next(sys, step).0.store;
            && Recorded(st, a, d)
            && (st.alives[a].dead <==> sys.store.alives[a].dead || (step.ScanTimeouts? && step.now > d))
  {
    if step.ScanTimeouts? {
      if sys.store.alives[a].dead {
        TimeoutSpares(sys.store, a, step.now);
      } else {
        TimeoutExact(sys.store, a, step.now);
      }
    }
  }

  lemma {:induction false} Silence(sys: System, a: LogicAddr, d: int, steps: seq<Step>)
    requires Recorded(sys.store, a, d) && FeasibleRun(sys, steps) && NoBeat(steps, a)
    ensures var st := After(sys, steps).store;
            Recorded(st, a, d) && (st.alives[a].dead <==> sys.store.alives[a].dead || Overdue(steps, d))
    decreases |steps|
  {
    if steps != [] {
      var rest := steps[1..];
      SilentStep(sys, a, d, steps[0]);
      Silence(Next(sys, steps[0]).0, a, d, rest);
      OverdueStep(steps, d);
    }
  }

  lemma OverdueStep(steps: seq<Step>, d: int)
    requires steps != []
    ensures Overdue(steps, d) <==> (steps[0].ScanTimeouts? && steps[0].now > d) || Overdue(steps[1..], d)
  {
    if Overdue(steps[1..], d) {
      var i :| 0 <= i < |steps[1..]| && steps[1..][i].ScanTimeouts? && steps[1..][i].now > d;
      assert steps[i + 1] == steps[1..][i];
    }
    if Overdue(steps, d) {
      var i :| 0 <= i < |steps| && steps[i].ScanTimeouts? && steps[i].now > d;
      if i > 0 { assert steps[1..][i - 1] == steps[i]; }
    }
  }

  /** After a heartbeat of a node that is not dead, and any steps without another one: the node is
      alive on the server if and only if no scan among them came after the deadline. */
  lemma BeatThenSilence(sys: System, a: LogicAddr, d: int, steps: seq<Step>)
    requires !IsDead(sys.store, a) && NoBeat(steps, a)
    requires FeasibleRun(Next(sys, KeepAlive(a, d)).0, steps)
    ensures a in LiveNodes(After(Next(sys, KeepAlive(a, d)).0, steps).store) <==> !Overdue(steps, d)
  {
    Silence(Next(sys, KeepAlive(a, d)).0, a, d, steps);
  }

  /** A heartbeat of a dead node does not bring it back, it only records the deadline, and the next
      one does. */
  lemma BeatsOfTheDead(sys: System, a: LogicAddr, d: int, d': int)
    requires IsDead(sys.store, a)
    ensures var sys1 := Next(sys, KeepAlive(a, d)).0;
            && a !in LiveNodes(sys1.store) && a in LiveNodes(Next(sys1, KeepAlive(a, d')).0.store)
            && sys1.store == sys.store.(alives := sys.store.alives[a := Truncated(sys.store.alives[a].ver, d)])
  {
  }

  /** A node that never sent a heartbeat is not alive. */
  lemma {:induction false} NeverBeaten(sys: System, a: LogicAddr, steps: seq<Step>)
    requires a !in sys.store.alives && FeasibleRun(sys, steps) && NoBeat(steps, a)
    ensures a !in After(sys, steps).store.alives && a !in LiveNodes(After(sys, steps).store)
    decreases |steps|
  {
    if steps != [] {
      if steps[0].ScanTimeouts? {
        TimeoutSpares(sys.store, a, steps[0].now);
      }
      NeverBeaten(Next(sys, steps[0]).0, a, steps[1..]);
    }
  }

  // ---- Members ----

  predicate About(step: Step, a: LogicAddr) {
    (step.UpdateMember? && step.member.addr == a) || step == RemoveMember(a)
  }

  predicate NoneAbout(steps: seq<Step>, a: LogicAddr) {
    forall i :: 0 <= i < |steps| ==> !About(steps[i], a)
  }

  lemma {:induction false} MemberUntouched(sys: System, a: LogicAddr, steps: seq<Step>)
    requires FeasibleRun(sys, steps) && NoneAbout(steps, a)
    ensures var st := After(sys, steps).store;
            (a in st.members <==> a in sys.store.members) && (a in st.members ==> st.members[a] == sys.store.members[a])
    decreases |steps|
  {
    if steps != [] {
      assert !About(steps[0], a);
      MemberUntouched(Next(sys, steps[0]).0, a, steps[1..]);
    }
  }

  /** The last write wins: after an update and any steps about other members, the server has exactly
      the record that was written, and it is live if its address parses. */
  lemma UpdateLasts(sys: System, m: Member, steps: seq<Step>)
    requires FeasibleRun(Next(sys, UpdateMember(m)).0, steps) && NoneAbout(steps, m.addr)
    ensures var st := After(Next(sys, UpdateMember(m)).0, steps).store;
            && m.addr in st.members && st.members[m.addr].info == m && !st.members[m.addr].markdel
            && (m.addr in LiveMembers(st) <==> Decodable(m.addr))
            && (m.addr in LiveMembers(st) ==> LiveMembers(st)[m.addr] == m)
  {
    MemberUntouched(Next(sys, UpdateMember(m)).0, m.addr, steps);
  }

  /** After a removal and any steps about other members, the member is not live. */
  lemma RemovalLasts(sys: System, a: LogicAddr, steps: seq<Step>)
    requires FeasibleRun(Next(sys, RemoveMember(a)).0, steps) && NoneAbout(steps, a)
    ensures a !in LiveMembers(After(Next(sys, RemoveMember(a)).0, steps).store)
  {
    MemberUntouched(Next(sys, RemoveMember(a)).0, a, steps);
  }

  /** A member that was never written is not live. */
  lemma NeverWritten(a: LogicAddr, steps: seq<Step>)
    requires FeasibleRun(INITIAL, steps) && NoneAbout(steps, a)
    ensures a !in LiveMembers(After(INITIAL, steps).store)
  {
    MemberUntouched(INITIAL, a, steps);
  }

  // ---- Positions in a run ----

  lemma {:induction false} SplitRun(sys: System, steps: seq<Step>, k: nat)
    requires FeasibleRun(sys, steps) && k <= |steps|
    ensures FeasibleRun(sys, steps[..k]) && FeasibleRun(After(sys, steps[..k]), steps[k..])
    ensures After(sys, steps) == After(After(sys, steps[..k]), steps[k..])
    decreases k
  {
    if k == 0 {
      assert steps[..0] == [] && steps[0..] == steps;
    } else {
      assert steps[..k][1..] == steps[1..][..k - 1] && steps[1..][k - 1..] == steps[k..];
      SplitRun(Next(sys, steps[0]).0, steps[1..], k - 1);
    }
  }

  /** Step `i` is the last one about a member. */
  predicate LastWrite(steps: seq<Step>, i: int, a: LogicAddr) {
    0 <= i < |steps| && About(steps[i], a) && NoneAbout(steps[i + 1..], a)
  }

  /** Step `j` is the last heartbeat of a node. */
  predicate LastBeat(steps: seq<Step>, j: int, a: LogicAddr) {
    0 <= j < |steps| && steps[j].KeepAlive? && steps[j].beat == a && NoBeat(steps[j + 1..], a)
  }

  lemma LastWriteDecides(steps: seq<Step>, i: int, a: LogicAddr)
    requires FeasibleRun(INITIAL, steps) && LastWrite(steps, i, a)
    ensures var live := LiveMembers(After(INITIAL, steps).store);
            && (a in live <==> steps[i].UpdateMember? && Decodable(a))
            && (a in live ==> live[a] == steps[i].member)
  {
    SplitRun(INITIAL, steps, i);
    var sys := After(INITIAL, steps[..i]);
    assert steps[i..][0] == steps[i] && steps[i..][1..] == steps[i + 1..];
    if steps[i].UpdateMember? {
      UpdateLasts(sys, steps[i].member, steps[i + 1..]);
    } else {
      RemovalLasts(sys, a, steps[i + 1..]);
    }
  }

  lemma {:induction false} LastWriteExists(steps: seq<Step>, a: LogicAddr) returns (i: int)
    requires !NoneAbout(steps, a)
    ensures LastWrite(steps, i, a)
    decreases |steps|
  {
    var n := |steps| - 1;
    if About(steps[n], a) {
      i := n;
    } else {
      assert steps == steps[..n] + [steps[n]];
      i := LastWriteExists(steps[..n], a);
      assert steps[i + 1..] == steps[..n][i + 1..] + [steps[n]];
    }
  }

  /** The history of the writes about an address ends with this record. */
  ghost predicate Written(steps: seq<Step>, a: LogicAddr, m: Member) {
    exists i :: LastWrite(steps, i, a) && steps[i] == UpdateMember(m)
  }

  /** Over every run from the start, a record is live on the server if and only if it was the last
      one written for its address, and the address parses. */
  lemma LiveMemberByHistory(steps: seq<Step>, a: LogicAddr, m: Member)
    requires FeasibleRun(INITIAL, steps)
    ensures var live := LiveMembers(After(INITIAL, steps).store);
            a in live && live[a] == m <==> Written(steps, a, m) && Decodable(a)
  {
    if NoneAbout(steps, a) {
      NeverWritten(a, steps);
    } else {
      var i := LastWriteExists(steps, a);
      LastWriteDecides(steps, i, a);
    }
    if Written(steps, a, m) {
      var k :| LastWrite(steps, k, a) && steps[k] == UpdateMember(m);
      LastWriteDecides(steps, k, a);
    }
  }

  /** The history of a node's heartbeats ends with a death: its last heartbeat did not come after
      one, and some scan since then came after the deadline. */
  ghost predicate Died(steps: seq<Step>, a: LogicAddr)
    decreases |steps|
  {
    exists j :: LastBeat(steps, j, a) && !Died(steps[..j], a) && Overdue(steps[j + 1..], steps[j].deadline)
  }

  /** It ends with the node alive: the last heartbeat did not come after a death, and no scan since
      then came after the deadline. */
  ghost predicate Lives(steps: seq<Step>, a: LogicAddr) {
    exists j :: LastBeat(steps, j, a) && !Died(steps[..j], a) && !Overdue(steps[j + 1..], steps[j].deadline)
  }

  lemma {:induction false} LastBeatExists(steps: seq<Step>, a: LogicAddr) returns (j: int)
    requires !NoBeat(steps, a)
    ensures LastBeat(steps, j, a)
    decreases |steps|
  {
    var n := |steps| - 1;
    if steps[n].KeepAlive? && steps[n].beat == a {
      j := n;
    } else {
      assert steps == steps[..n] + [steps[n]];
      j := LastBeatExists(steps[..n], a);
      assert steps[j + 1..] == steps[..n][j + 1..] + [steps[n]];
    }
  }

  lemma NoLaterBeat(steps: seq<Step>, j: int, k: int, a: LogicAddr)
    requires LastBeat(steps, j, a) && j < k < |steps|
    ensures !(steps[k].KeepAlive? && steps[k].beat == a)
  {
    assert steps[j + 1..][k - j - 1] == steps[k];
  }

  lemma LastBeatUnique(steps: seq<Step>, i: int, j: int, a: LogicAddr)
    requires LastBeat(steps, i, a) && LastBeat(steps, j, a)
    ensures i == j
  {
    if i < j {
      NoLaterBeat(steps, i, j, a);
    } else if j < i {
      NoLaterBeat(steps, j, i, a);
    }
  }

  lemma {:induction false} StaysTruncated(sys: System, a: LogicAddr, steps: seq<Step>)
    requires a in sys.store.alives && sys.store.alives[a].Truncated? && FeasibleRun(sys, steps) && NoBeat(steps, a)
    ensures var st := After(sys, steps).store;
            a in st.alives && st.alives[a].Truncated?
    decreases |steps|
  {
    if steps != [] {
      if steps[0].ScanTimeouts? {
        TimeoutSpares(sys.store, a, steps[0].now);
      }
      StaysTruncated(Next(sys, steps[0]).0, a, steps[1..]);
    }
  }

  /** What a heartbeat and the silence after it leave on the server. */
  lemma LastBeatDecides(sys: System, a: LogicAddr, d: int, steps: seq<Step>)
    requires FeasibleRun(Next(sys, KeepAlive(a, d)).0, steps) && NoBeat(steps, a)
    ensures var st := After(Next(sys, KeepAlive(a, d)).0, steps).store;
            && (IsDead(st, a) <==> !IsDead(sys.store, a) && Overdue(steps, d))
            && (a in LiveNodes(st) <==> !IsDead(sys.store, a) && !Overdue(steps, d))
  {
    var sys1 := Next(sys, KeepAlive(a, d)).0;
    if IsDead(sys.store, a) {
      StaysTruncated(sys1, a, steps);
    } else {
      Silence(sys1, a, d, steps);
    }
  }

  /** Over every run from the start, the history alone decides which nodes are dead and which are
      alive on the server. */
  lemma {:induction false} LiveNodeByHistory(steps: seq<Step>, a: LogicAddr)
    requires FeasibleRun(INITIAL, steps)
    ensures IsDead(After(INITIAL, steps).store, a) <==> Died(steps, a)
    ensures a in LiveNodes(After(INITIAL, steps).store) <==> Lives(steps, a)
    decreases |steps|
  {
    if NoBeat(steps, a) {
      NeverBeaten(INITIAL, a, steps);
      assert forall j :: !LastBeat(steps, j, a);
    } else {
      var j := LastBeatExists(steps, a);
      SplitRun(INITIAL, steps, j);
      LiveNodeByHistory(steps[..j], a);
      assert steps[j..][0] == steps[j] && steps[j..][1..] == steps[j + 1..];
      LastBeatDecides(After(INITIAL, steps[..j]), a, steps[j].deadline, steps[j + 1..]);
      OnlyLastBeat(steps, j, a);
    }
  }

  lemma OnlyLastBeat(steps: seq<Step>, j: int, a: LogicAddr)
    requires LastBeat(steps, j, a)
    ensures Died(steps, a) <==> !Died(steps[..j], a) && Overdue(steps[j + 1..], steps[j].deadline)
    ensures Lives(steps, a) <==> !Died(steps[..j], a) && !Overdue(steps[j + 1..], steps[j].deadline)
  {
    if Died(steps, a) {
      var i :| LastBeat(steps, i, a) && !Died(steps[..i], a) && Overdue(steps[i + 1..], steps[i].deadline);
      LastBeatUnique(steps, i, j, a);
    }
    if Lives(steps, a) {
      var i :| LastBeat(steps, i, a) && !Died(steps[..i], a) && !Overdue(steps[i + 1..], steps[i].deadline);
      LastBeatUnique(steps, i, j, a);
    }
  }
}
