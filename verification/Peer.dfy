/** One remote peer as its node object sees it: the socket, the queue of messages waiting for a
    connection, and the dials and retries under way. Every region under the node's lock is one
    atomic step. */
module Peer {
  import opened Basics

  type Conn = nat
  type Msg = nat
  type Ctx = nat

  /** The zero time is earlier than every clock value. */
  datatype Deadline = Zero | At(time: int)

  datatype Pending = Pending(msg: Msg, deadline: Deadline, ctx: Option<Ctx>)

  /** Clock and finished contexts at the moment of a step, and whether the socket's own queue
      takes a message then. */
  datatype Env = Env(now: int, done: set<Ctx>, takes: bool)

  datatype State = State(socket: Option<Conn>, pending: seq<Pending>, dials: nat, retries: nat, running: bool)

  const IDLE := State(None, [], 0, 0, true)

  /** What a step did with messages. */
  datatype Effect = Effect(accepted: seq<Pending>, handed: seq<Pending>, dropped: seq<Pending>)

  const NOTHING := Effect([], [], [])

  // ---- Expiry ----

  predicate Passed(now: int, d: Deadline) {
    match d
    case Zero => true
    case At(t) => now > t
  }

  /** The removal test of removeFailedMsg. */
  predicate Failed(p: Pending, removeZero: bool, env: Env) {
    if p.ctx.Some? then p.ctx.value in env.done
    else (p.deadline.Zero? && removeZero) || Passed(env.now, p.deadline)
  }

  /** The test applied to each message when a connection is established. */
  predicate Deliverable(p: Pending, env: Env) {
    if p.ctx.Some? then p.ctx.value !in env.done
    else p.deadline.Zero? || env.now < p.deadline.time
  }

  /** Messages without a deadline count as expired even when the flag says to keep them. */
  lemma RemoveZeroIrrelevant(p: Pending, removeZero: bool, env: Env)
    ensures Failed(p, removeZero, env) == Failed(p, true, env)
  {
  }

  function Filter(q: seq<Pending>, keep: Pending -> bool): seq<Pending> {
    if q == [] then []
    else
      var rest := Filter(q[..|q| - 1], keep);
      if keep(q[|q| - 1]) then rest + [q[|q| - 1]] else rest
  }

  function Survivors(q: seq<Pending>, removeZero: bool, env: Env): seq<Pending> {
    Filter(q, p => !Failed(p, removeZero, env))
  }

  function Failures(q: seq<Pending>, removeZero: bool, env: Env): seq<Pending> {
    Filter(q, p => Failed(p, removeZero, env))
  }

  function Delivered(q: seq<Pending>, env: Env): seq<Pending> {
    Filter(q, p => Deliverable(p, env))
  }

  function Undelivered(q: seq<Pending>, env: Env): seq<Pending> {
    Filter(q, p => !Deliverable(p, env))
  }

  // ---- Steps ----

  datatype SendResult = Sent | SocketRefused | Queued | QueueFull

  function Establish(s: State, conn: Conn, env: Env): (State, Effect) {
    (s.(socket := Some(conn), pending := []),
     Effect([], Delivered(s.pending, env), Undelivered(s.pending, env)))
  }

  function Enqueue(s: State, m: Pending): State {
    var q := s.pending + [m];
    s.(pending := q, dials := if |q| == 1 then s.dials + 1 else s.dials)
  }

  /** sendMessage and sendMessageWithContext. */
  function Send(s: State, m: Pending, max: nat, env: Env): (State, Effect, SendResult) {
    if s.socket.Some? then if env.takes then (s, Effect([m], [m], []), Sent) else (s, NOTHING, SocketRefused)
    else if |s.pending| < max then (Enqueue(s, m), Effect([m], [], []), Queued)
    else if m.ctx.None? && m.deadline.Zero? then (s, NOTHING, QueueFull)
    else
      var s1 := s.(pending := Survivors(s.pending, true, env));
      var gone := Failures(s.pending, true, env);
      if |s1.pending| >= max then (s1, Effect([], [], gone), QueueFull)
      else (Enqueue(s1, m), Effect([m], [], gone), Queued)
  }

  function DialError(s: State, env: Env): (State, Effect)
    requires s.dials > 0
  {
    var s1 := s.(dials := s.dials - 1);
    if s.socket.Some? then (s1, NOTHING)
    else
      var q := Survivors(s.pending, false, env);
      (s1.(pending := q, retries := if |q| > 0 then s.retries + 1 else s.retries),
       Effect([], [], Failures(s.pending, false, env)))
  }

  function DialOk(s: State, conn: Conn, env: Env): (State, Effect)
    requires s.dials > 0
  {
    var s1 := s.(dials := s.dials - 1);
    if s.socket.Some? then (s1, NOTHING) else Establish(s1, conn, env)
  }

  /** The tie-break: with messages waiting, the smaller address refuses. With none waiting, a
      second connection is refused. */
  predicate Refuses(s: State, selfSmaller: bool) {
    if s.pending != [] then selfSmaller else s.socket.Some?
  }

  /** The accepting branch of onNewConnection; `replied` is whether the reply could be written. */
  function Accept(s: State, selfSmaller: bool, conn: Conn, replied: bool, env: Env): (State, Effect) {
    if Refuses(s, selfSmaller) || !replied then (s, NOTHING) else Establish(s, conn, env)
  }

  datatype Event =
    | SendMsg(m: Pending, sendEnv: Env)
    | DialFails(failEnv: Env)
    | DialSucceeds(dialed: Conn, dialEnv: Env)
    | Incoming(selfSmaller: bool, conn: Conn, replied: bool, acceptEnv: Env)
    | RetryFires
    | SocketGone
    | Stop
    | DialAbandoned

  /** A dial can only report back while one is under way, and is abandoned only after a stop. */
  predicate Enabled(s: State, ev: Event) {
    match ev
    case DialFails(_) => s.dials > 0 && s.running
    case DialSucceeds(_, _) => s.dials > 0 && s.running
    case RetryFires => s.retries > 0
    case DialAbandoned => s.dials > 0 && !s.running
    case _ => true
  }

  function Step(s: State, ev: Event, max: nat): (State, Effect)
    requires Enabled(s, ev)
  {
    match ev
    case SendMsg(m, env) =>
      var (s', e, _) := Send(s, m, max, env);
      (s', e)
    case DialFails(env) => DialError(s, env)
    case DialSucceeds(conn, env) => DialOk(s, conn, env)
    case Incoming(smaller, conn, replied, env) => Accept(s, smaller, conn, replied, env)
    case RetryFires => (s.(retries := s.retries - 1, dials := s.dials + 1), NOTHING)
    case SocketGone => (s.(socket := None), NOTHING)
    case Stop => (s.(running := false), NOTHING)
    case DialAbandoned => (s.(dials := s.dials - 1), NOTHING)
  }

  // ---- The node object ----

  class Node {
    const max: nat
    var socket: Option<Conn>
    var pendingMsg: seq<Pending>
    var dials: nat
    var retries: nat
    var running: bool

    constructor (max: nat)
      ensures this.max == max && Now() == IDLE
    {
      this.max := max;
      socket, pendingMsg, dials, retries, running := None, [], 0, 0, true;
    }

    ghost function Now(): State
      reads this
    {
      State(socket, pendingMsg, dials, retries, running)
    }

    /** onEstablish: the queue is drained front to back. */
    method OnEstablish(conn: Conn, env: Env) returns (handed: seq<Pending>, dropped: seq<Pending>)
      modifies this`socket, this`pendingMsg
      ensures (Now(), Effect([], handed, dropped)) == Establish(old(Now()), conn, env)
    {
      socket := Some(conn);
      handed, dropped := [], [];
      ghost var q, i := pendingMsg, 0;
      while pendingMsg != []
        invariant 0 <= i <= |q| && pendingMsg == q[i..] && socket == Some(conn)
        invariant handed == Delivered(q[..i], env) && dropped == Undelivered(q[..i], env)
        decreases |pendingMsg|
      {
        var msg := pendingMsg[0];
        pendingMsg := pendingMsg[1..];
        assert q[..i + 1][..i] == q[..i];
        if msg.ctx.Some? {
          if msg.ctx.value !in env.done { handed := handed + [msg]; } else { dropped := dropped + [msg]; }
        } else if msg.deadline.Zero? || env.now < msg.deadline.time {
          handed := handed + [msg];
        } else {
          dropped := dropped + [msg];
        }
        i := i + 1;
      }
      assert q[..i] == q;
    }

    /** removeFailedMsg: one pass that unlinks elements in place. */
    method RemoveFailedMsg(removeZero: bool, env: Env) returns (dropped: seq<Pending>)
      modifies this`pendingMsg
      ensures pendingMsg == Survivors(old(pendingMsg), removeZero, env)
      ensures dropped == Failures(old(pendingMsg), removeZero, env)
    {
      dropped := [];
      var i := 0;
      ghost var q, j := pendingMsg, 0;
      while i < |pendingMsg|
        invariant 0 <= i <= |pendingMsg| && 0 <= j <= |q|
        invariant pendingMsg[..i] == Survivors(q[..j], removeZero, env)
        invariant dropped == Failures(q[..j], removeZero, env)
        invariant pendingMsg[i..] == q[j..]
        decreases |pendingMsg| - i
      {
        var m := pendingMsg[i];
        assert m == q[j] && q[..j + 1][..j] == q[..j];
        var remove := false;
        if m.ctx.Some? {
          if m.ctx.value in env.done { remove := true; }
        } else if (m.deadline.Zero? && removeZero) || Passed(env.now, m.deadline) {
          remove := true;
        }
        if remove {
          pendingMsg := pendingMsg[..i] + pendingMsg[i + 1..];
          dropped := dropped + [m];
        } else {
          assert pendingMsg[..i + 1] == pendingMsg[..i] + [m];
          i := i + 1;
        }
        j := j + 1;
      }
      assert q[..j] == q && pendingMsg[..i] == pendingMsg;
    }

    /** sendMessage (no context) and sendMessageWithContext. */
    method SendMessage(m: Pending, env: Env) returns (result: SendResult, dropped: seq<Pending>)
      modifies this
      ensures var (s, e, r) := Send(old(Now()), m, max, env);
              Now() == s && result == r && dropped == e.dropped
    {
      dropped := [];
      if socket.Some? { return if env.takes then Sent else SocketRefused, []; }
      if |pendingMsg| >= max {
        if m.ctx.None? && m.deadline.Zero? { return QueueFull, []; }
        dropped := RemoveFailedMsg(true, env);
        if |pendingMsg| >= max { return QueueFull, dropped; }
      }
      pendingMsg := pendingMsg + [m];
      if |pendingMsg| == 1 { dials := dials + 1; }
      result := Queued;
    }

    method OnDialError(env: Env) returns (dropped: seq<Pending>)
      requires dials > 0
      modifies this
      ensures (Now(), Effect([], [], dropped)) == DialError(old(Now()), env)
    {
      dials := dials - 1;
      dropped := [];
      if socket.None? {
        dropped := RemoveFailedMsg(false, env);
        if |pendingMsg| > 0 { retries := retries + 1; }
      }
    }

    method OnDialOk(conn: Conn, env: Env) returns (kept: bool, handed: seq<Pending>, dropped: seq<Pending>)
      requires dials > 0
      modifies this
      ensures (Now(), Effect([], handed, dropped)) == DialOk(old(Now()), conn, env)
      ensures kept <==> old(socket).None?
    {
      dials := dials - 1;
      if socket.Some? { return false, [], []; }
      handed, dropped := OnEstablish(conn, env);
      kept := true;
    }

    method OnNewConnection(selfSmaller: bool, conn: Conn, replied: bool, env: Env)
      returns (accepted: bool, handed: seq<Pending>, dropped: seq<Pending>)
      modifies this
      ensures (Now(), Effect([], handed, dropped)) == Accept(old(Now()), selfSmaller, conn, replied, env)
      ensures accepted <==> !Refuses(old(Now()), selfSmaller) && replied
    {
      handed, dropped := [], [];
      if |pendingMsg| != 0 {
        if selfSmaller { return false, [], []; }
      } else if socket.Some? {
        return false, [], [];
      }
      if !replied { return false, [], []; }
      handed, dropped := OnEstablish(conn, env);
      accepted := true;
    }
  }

  // ---- Invariant ----

  /** A live socket means an empty queue; the queue respects its limit; a running node with
      messages waiting is dialing or will dial again. */
  ghost predicate Inv(s: State, max: nat) {
    && (s.socket.Some? ==> s.pending == [])
    && |s.pending| <= max
    && (s.running && s.pending != [] ==> s.dials + s.retries > 0)
  }

  predicate Establishes(s: State, ev: Event) {
    match ev
    case DialSucceeds(_, _) => s.socket.None?
    case Incoming(smaller, _, replied, _) => !Refuses(s, smaller) && replied
    case _ => false
  }

  lemma {:induction false} FilterShrinks(q: seq<Pending>, keep: Pending -> bool)
    ensures |Filter(q, keep)| <= |q|
  {
    if q != [] { FilterShrinks(q[..|q| - 1], keep); }
  }

  /** Every step keeps the invariant, and a connection is never established over a live one. */
  lemma StepInv(s: State, ev: Event, max: nat)
    requires Inv(s, max) && Enabled(s, ev)
    ensures Inv(Step(s, ev, max).0, max)
    ensures Establishes(s, ev) ==> s.socket.None? && Step(s, ev, max).0.socket.Some?
  {
    match ev
    case SendMsg(m, env) => FilterShrinks(s.pending, p => !Failed(p, true, env));
    case DialFails(env) => FilterShrinks(s.pending, p => !Failed(p, false, env));
    case _ =>
  }

  // ---- Conservation and order over every run ----

  predicate Picks(at: seq<nat>, xs: seq<Pending>, ys: seq<Pending>) {
    && |at| == |xs|
    && (forall i :: 0 <= i < |at| ==> at[i] < |ys| && xs[i] == ys[at[i]])
    && (forall i, j :: 0 <= i < j < |at| ==> at[i] < at[j])
  }

  /** `xs` can be read off `ys` from left to right. */
  ghost predicate InOrder(xs: seq<Pending>, ys: seq<Pending>) {
    exists at: seq<nat> :: Picks(at, xs, ys)
  }

  lemma InOrderRefl(xs: seq<Pending>)
    ensures InOrder(xs, xs)
  {
    assert Picks(seq(|xs|, i => i), xs, xs);
  }

  lemma InOrderTrans(xs: seq<Pending>, ys: seq<Pending>, zs: seq<Pending>)
    requires InOrder(xs, ys) && InOrder(ys, zs)
    ensures InOrder(xs, zs)
  {
    var f: seq<nat> :| Picks(f, xs, ys);
    var g: seq<nat> :| Picks(g, ys, zs);
    assert Picks(seq(|f|, i requires 0 <= i < |f| => g[f[i]]), xs, zs);
  }

  lemma InOrderAppend(xs: seq<Pending>, ys: seq<Pending>, y: Pending)
    requires InOrder(xs, ys)
    ensures InOrder(xs + [y], ys + [y]) && InOrder(xs, ys + [y])
  {
    var f: seq<nat> :| Picks(f, xs, ys);
    assert Picks(f + [|ys|], xs + [y], ys + [y]);
    assert Picks(f, xs, ys + [y]);
  }

  lemma {:induction false} InOrderPrefix(a: seq<Pending>, xs: seq<Pending>, ys: seq<Pending>)
    requires InOrder(xs, ys)
    ensures InOrder(a + xs, a + ys)
  {
    var f: seq<nat> :| Picks(f, xs, ys);
    var g := seq(|a| + |xs|, i requires 0 <= i < |a| + |xs| => if i < |a| then i else |a| + f[i - |a|]);
    assert Picks(g, a + xs, a + ys);
  }

  lemma {:induction false} FilterInOrder(q: seq<Pending>, keep: Pending -> bool)
    ensures InOrder(Filter(q, keep), q)
  {
    if q == [] {
      InOrderRefl(q);
    } else {
      var init, last := q[..|q| - 1], q[|q| - 1];
      FilterInOrder(init, keep);
      InOrderAppend(Filter(init, keep), init, last);
      assert q == init + [last];
    }
  }

  lemma {:induction false} FilterSplits(q: seq<Pending>, keep: Pending -> bool, drop: Pending -> bool)
    requires forall p :: keep(p) == !drop(p)
    ensures multiset(q) == multiset(Filter(q, keep)) + multiset(Filter(q, drop))
  {
    if q != [] {
      var init, last := q[..|q| - 1], q[|q| - 1];
      FilterSplits(init, keep, drop);
      assert q == init + [last];
    }
  }

  lemma {:induction false} FilterAll(q: seq<Pending>, keep: Pending -> bool)
    ensures forall p :: p in Filter(q, keep) ==> keep(p)
  {
    if q != [] { FilterAll(q[..|q| - 1], keep); }
  }

  datatype History = History(accepted: seq<Pending>, handed: seq<Pending>, dropped: seq<Pending>)

  function Record(h: History, e: Effect): History {
    History(h.accepted + e.accepted, h.handed + e.handed, h.dropped + e.dropped)
  }

  /** Every accepted message is exactly one of waiting, handed to a socket, or dropped, and the
      messages handed over followed by those still waiting are in the order of acceptance. */
  ghost predicate Conserved(s: State, h: History) {
    && multiset(h.accepted) == multiset(h.handed) + multiset(s.pending) + multiset(h.dropped)
    && InOrder(h.handed + s.pending, h.accepted)
  }

  /** Replacing the queue by its survivors, or handing it over, keeps the account. */
  lemma FilteredConserved(s: State, h: History, keep: Pending -> bool, drop: Pending -> bool)
    requires Conserved(s, h) && forall p :: keep(p) == !drop(p)
    ensures var kept, gone := Filter(s.pending, keep), Filter(s.pending, drop);
            && multiset(h.accepted) == multiset(h.handed) + multiset(kept) + multiset(h.dropped + gone)
            && multiset(h.accepted) == multiset(h.handed + kept) + multiset(h.dropped + gone)
            && InOrder(h.handed + kept, h.accepted)
  {
    var kept := Filter(s.pending, keep);
    FilterSplits(s.pending, keep, drop);
    FilterInOrder(s.pending, keep);
    InOrderPrefix(h.handed, kept, s.pending);
    InOrderTrans(h.handed + kept, h.handed + s.pending, h.accepted);
  }

  lemma EstablishConserves(s: State, h: History, conn: Conn, env: Env)
    requires Conserved(s, h)
    ensures var (s', e) := Establish(s, conn, env);
            Conserved(s', Record(h, e))
  {
    FilteredConserved(s, h, p => Deliverable(p, env), p => !Deliverable(p, env));
    var (s', e) := Establish(s, conn, env);
    var h' := Record(h, e);
    assert h'.handed + s'.pending == h'.handed;
    assert h'.accepted == h.accepted;
  }

  lemma EnqueueConserves(s: State, h: History, m: Pending)
    requires Conserved(s, h)
    ensures Conserved(Enqueue(s, m), Record(h, Effect([m], [], [])))
  {
    InOrderAppend(h.handed + s.pending, h.accepted, m);
    assert h.handed + s.pending + [m] == h.handed + (s.pending + [m]);
    assert h.handed + [] == h.handed && h.dropped + [] == h.dropped;
  }

  lemma PurgeConserves(s: State, h: History, removeZero: bool, env: Env)
    requires Conserved(s, h)
    ensures Conserved(s.(pending := Survivors(s.pending, removeZero, env)),
                      Record(h, Effect([], [], Failures(s.pending, removeZero, env))))
  {
    FilteredConserved(s, h, p => !Failed(p, removeZero, env), p => Failed(p, removeZero, env));
    assert h.handed + [] == h.handed && h.accepted + [] == h.accepted;
  }

  lemma SendConserves(s: State, h: History, m: Pending, max: nat, env: Env)
    requires Conserved(s, h) && (s.socket.Some? ==> s.pending == [])
    ensures var (s', e, _) := Send(s, m, max, env);
            Conserved(s', Record(h, e))
  {
    var (s', e, _) := Send(s, m, max, env);
    var h' := Record(h, e);
    if s.socket.Some? && !env.takes {
      RecordNothing(h);
    } else if s.socket.Some? {
      InOrderAppend(h.handed + s.pending, h.accepted, m);
      assert h.handed + s.pending + [m] == h'.handed + s'.pending;
      assert h'.dropped == h.dropped;
    } else if |s.pending| < max {
      EnqueueConserves(s, h, m);
    } else if m.ctx.None? && m.deadline.Zero? {
      RecordNothing(h);
    } else {
      PurgeConserves(s, h, true, env);
      var s1 := s.(pending := Survivors(s.pending, true, env));
      var h1 := Record(h, Effect([], [], Failures(s.pending, true, env)));
      if |s1.pending| < max {
        EnqueueConserves(s1, h1, m);
        assert Record(h1, Effect([m], [], [])) == h';
      }
    }
  }

  lemma RecordNothing(h: History)
    ensures Record(h, NOTHING) == h
  {
  }

  lemma StepConserves(s: State, h: History, ev: Event, max: nat)
    requires Inv(s, max) && Enabled(s, ev) && Conserved(s, h)
    ensures var (s', e) := Step(s, ev, max);
            Conserved(s', Record(h, e))
  {
    RecordNothing(h);
    match ev
    case SendMsg(m, env) => SendConserves(s, h, m, max, env);
    case DialFails(env) => PurgeConserves(s, h, false, env);
    case DialSucceeds(conn, env) => EstablishConserves(s.(dials := s.dials - 1), h, conn, env);
    case Incoming(_, conn, _, env) => EstablishConserves(s, h, conn, env);
    case _ =>
  }

  function EnvOf(ev: Event): Env {
    match ev
    case SendMsg(_, env) => env
    case DialFails(env) => env
    case DialSucceeds(_, env) => env
    case Incoming(_, _, _, env) => env
    case _ => Env(0, {}, true)
  }

  /** A message is dropped only when, at that moment, its context was finished or its deadline
      reached; a message without a deadline only by a purge. */
  predicate Droppable(p: Pending, env: Env) {
    if p.ctx.Some? then p.ctx.value in env.done
    else p.deadline.Zero? || env.now >= p.deadline.time
  }

  lemma StepDropsFailed(s: State, ev: Event, max: nat)
    requires Enabled(s, ev)
    ensures forall p :: p in Step(s, ev, max).1.dropped ==> Droppable(p, EnvOf(ev))
    ensures forall p :: p in Step(s, ev, max).1.dropped && p.deadline.Zero? && p.ctx.None? ==> ev.SendMsg? || ev.DialFails?
  {
    match ev
    case SendMsg(m, env) => FilterAll(s.pending, p => Failed(p, true, env));
    case DialFails(env) => FilterAll(s.pending, p => Failed(p, false, env));
    case DialSucceeds(_, env) => FilterAll(s.pending, p => !Deliverable(p, env));
    case Incoming(_, _, _, env) => FilterAll(s.pending, p => !Deliverable(p, env));
    case _ =>
  }

  ghost predicate EnabledRun(s: State, evs: seq<Event>, max: nat)
    decreases |evs|
  {
    evs != [] ==> Enabled(s, evs[0]) && EnabledRun(Step(s, evs[0], max).0, evs[1..], max)
  }

  function Run(s: State, h: History, evs: seq<Event>, max: nat): (State, History)
    requires EnabledRun(s, evs, max)
    decreases |evs|
  {
    if evs == [] then (s, h)
    else
      var (s', e) := Step(s, evs[0], max);
      Run(s', Record(h, e), evs[1..], max)
  }

  /** In every reachable state the invariant holds and every message is accounted for. */
  lemma {:induction false} RunSafe(s: State, h: History, evs: seq<Event>, max: nat)
    requires EnabledRun(s, evs, max) && Inv(s, max) && Conserved(s, h)
    ensures var (s', h') := Run(s, h, evs, max);
            Inv(s', max) && Conserved(s', h')
    decreases |evs|
  {
    if evs != [] {
      StepInv(s, evs[0], max);
      StepConserves(s, h, evs[0], max);
      var (s', e) := Step(s, evs[0], max);
      RunSafe(s', Record(h, e), evs[1..], max);
    }
  }

  lemma IdleSafe(max: nat)
    ensures Inv(IDLE, max) && Conserved(IDLE, History([], [], []))
  {
    InOrderRefl([]);
    assert IDLE.pending + [] == [];
  }

  // ---- What happens to each message, on its own fields ----

  /** How often a message occurs in the part of a queue that is kept. */
  lemma {:induction false} FilterCount(q: seq<Pending>, keep: Pending -> bool, p: Pending)
    ensures multiset(Filter(q, keep))[p] == if keep(p) then multiset(q)[p] else 0
  {
    if q != [] {
      var init, last := q[..|q| - 1], q[|q| - 1];
      assert q == init + [last];
      FilterCount(init, keep, p);
    }
  }

  lemma {:induction false} FilterSame(q: seq<Pending>, keep: Pending -> bool, keep': Pending -> bool)
    requires forall p :: keep(p) == keep'(p)
    ensures Filter(q, keep) == Filter(q, keep')
  {
    if q != [] { FilterSame(q[..|q| - 1], keep, keep'); }
  }

  /** When a connection is established: a queued message is handed over, as often as it is queued,
      if and only if its context is not finished, or it has no context and no deadline, or it has no
      context and its deadline is still to come. Everything else is dropped, nothing stays. */
  lemma EstablishExact(s: State, ev: Event, max: nat, p: Pending)
    requires Enabled(s, ev) && Establishes(s, ev)
    ensures var (s', e) := Step(s, ev, max);
            var wanted := match p
                          case Pending(_, _, Some(c)) => c !in EnvOf(ev).done
                          case Pending(_, Zero, None) => true
                          case Pending(_, At(t), None) => EnvOf(ev).now < t;
            && s'.pending == [] && e.accepted == []
            && multiset(e.handed)[p] == (if wanted then multiset(s.pending)[p] else 0)
            && multiset(e.dropped)[p] == (if wanted then 0 else multiset(s.pending)[p])
  {
    var env := EnvOf(ev);
    FilterCount(s.pending, x => Deliverable(x, env), p);
    FilterCount(s.pending, x => !Deliverable(x, env), p);
  }

  /** Only establishing a connection, or sending on one, hands messages to a socket. */
  lemma NothingElseHanded(s: State, ev: Event, max: nat)
    requires Enabled(s, ev) && !Establishes(s, ev) && Step(s, ev, max).1.handed != []
    ensures ev.SendMsg? && s.socket.Some? && Step(s, ev, max).1.handed == [ev.m]
  {
  }

  /** Retries, closed sockets, a stop and abandoned dials move no message; they keep the queue, and
      each changes one thing: a retry becomes a dial, the socket goes, the node stops, a dial ends. */
  lemma QuietExact(s: State, ev: Event, max: nat)
    requires Enabled(s, ev) && (ev.RetryFires? || ev.SocketGone? || ev.Stop? || ev.DialAbandoned?)
    ensures var (s', e) := Step(s, ev, max);
            && e == Effect([], [], []) && s'.pending == s.pending
            && s'.socket == (if ev.SocketGone? then None else s.socket)
            && s'.running == (s.running && !ev.Stop?)
            && s'.dials + s'.retries == s.dials + s.retries - (if ev.DialAbandoned? then 1 else 0)
            && s'.retries == s.retries - (if ev.RetryFires? then 1 else 0)
  {
  }

  /** The purge keeps a message if and only if its context is not finished, or it has no context and
      a deadline the clock has not passed. */
  lemma PurgeExact(q: seq<Pending>, removeZero: bool, env: Env, p: Pending)
    ensures var kept := match p
                        case Pending(_, _, Some(c)) => c !in env.done
                        case Pending(_, Zero, None) => false
                        case Pending(_, At(t), None) => env.now <= t;
            && multiset(Survivors(q, removeZero, env))[p] == (if kept then multiset(q)[p] else 0)
            && multiset(Failures(q, removeZero, env))[p] == (if kept then 0 else multiset(q)[p])
  {
    FilterCount(q, x => !Failed(x, removeZero, env), p);
    FilterCount(q, x => Failed(x, removeZero, env), p);
  }

  /** A failed dial without a connection purges the queue and schedules a retry exactly when
      something is left. */
  lemma DialFailsExact(s: State, env: Env, max: nat)
    requires Enabled(s, DialFails(env))
    ensures var (s', e) := Step(s, DialFails(env), max);
            && s'.dials == s.dials - 1 && s'.socket == s.socket && e.handed == [] && e.accepted == []
            && (s.socket.Some? ==> s'.pending == s.pending && s'.retries == s.retries && e.dropped == [])
            && (s.socket.None? ==>
                  && s'.pending == Survivors(s.pending, true, env) && e.dropped == Failures(s.pending, true, env)
                  && s'.retries == s.retries + if s'.pending != [] then 1 else 0)
  {
    FilterSame(s.pending, p => !Failed(p, false, env), p => !Failed(p, true, env));
    FilterSame(s.pending, p => Failed(p, false, env), p => Failed(p, true, env));
  }

  /** The result of a send says what happened: handed to the socket; refused by it; queued, with a
      dial for the only message; or turned away because the queue is full, which for a message
      without deadline and context means full as it is and for others full after a purge. */
  lemma SendExact(s: State, m: Pending, max: nat, env: Env)
    ensures var (s', e, r) := Send(s, m, max, env);
            var low := m.ctx == None && m.deadline == Zero;
            var left := if |s.pending| < max || low then s.pending else Survivors(s.pending, true, env);
            && (r == Sent <==> s.socket.Some? && env.takes)
            && (r == SocketRefused <==> s.socket.Some? && !env.takes)
            && (r == Queued <==> s.socket.None? && |left| < max)
            && (r == Sent || r == SocketRefused ==> s' == s && e.dropped == [])
            && (r == Sent ==> e.handed == [m] && e.accepted == [m])
            && (r == Queued ==> e.handed == [] && e.accepted == [m] && s'.pending == left + [m] && s'.retries == s.retries
                                && s'.dials == s.dials + if left == [] then 1 else 0)
            && (r == SocketRefused || r == QueueFull ==> e.accepted == [] && e.handed == [])
            && (r == QueueFull ==> s' == s.(pending := left))
  {
  }
}
