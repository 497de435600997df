/** Synchronous RPC calls. Each call borrows a one-element channel from a pool and registers it
    under its sequence number; the response handler removes the registration and then writes
    the channel. Steps of any number of calls and handlers interleave freely. */
module SyncCall {
  import opened Basics

  type CallId = nat
  type ChanId = nat

  /** A buffered channel holds at most one response, named by the call it answers. `owner` is
      the call that borrowed the channel last. */
  datatype Chan = Chan(buffer: Option<CallId>, owner: CallId)

  /** Trying: the request has not left this node. OnWire: it has, but the send has not yet
      returned. Awaiting: the send succeeded. */
  datatype Phase = Trying | OnWire | Awaiting | Over

  datatype Handler = Idle | Taken | Written

  datatype Call = Call(chan: ChanId, phase: Phase, handler: Handler, got: Option<CallId>)

  datatype State = State(chans: map<ChanId, Chan>, pool: set<ChanId>, pending: map<CallId, ChanId>, calls: map<CallId, Call>)

  const START := State(map[], {}, map[], map[])

  datatype Op = Transmit | SendReturns | SendFails | FailsLate | Respond | Write | Receive | Cancel

  datatype Step = Begin(k: CallId, chan: ChanId) | At(k: CallId, op: Op)

  // ---- Steps on one call with its registration, its buffer and its place in the pool ----

  datatype Slot = Slot(c: Call, listed: bool, buffer: Option<CallId>, pooled: bool)

  /** A handler finds a call only through its registration, and only after the request left. */
  predicate Can(sl: Slot, op: Op) {
    match op
    case Transmit => sl.c.phase == Trying
    case SendReturns => sl.c.phase == OnWire
    case SendFails => sl.c.phase == Trying
    case FailsLate => sl.c.phase == OnWire
    case Respond => sl.listed && sl.c.phase != Trying
    case Write => sl.c.handler == Taken && sl.buffer == None
    case Receive => sl.c.phase == Awaiting && sl.buffer.Some?
    case Cancel => sl.c.phase == Awaiting
  }

  function Act(k: CallId, sl: Slot, op: Op): Slot
    requires Can(sl, op)
  {
    var c := sl.c;
    match op
    case Transmit => sl.(c := c.(phase := OnWire))
    case SendReturns => sl.(c := c.(phase := Awaiting))
    // a failed send, retried no further: Delete, then Put
    case SendFails => sl.(c := c.(phase := Over), listed := false, pooled := true)
    case FailsLate => sl.(c := c.(phase := Over), listed := false, pooled := true)
    case Respond => sl.(c := c.(handler := Taken), listed := false)
    case Write => sl.(c := c.(handler := Written), buffer := Some(k))
    case Receive => sl.(c := c.(phase := Over, got := sl.buffer), buffer := None, pooled := true)
    // the context ended first: Put only if the registration was still there
    case Cancel => sl.(c := c.(phase := Over), listed := false, pooled := sl.pooled || sl.listed)
  }

  predicate Known(s: State, k: CallId) {
    k in s.calls && s.calls[k].chan in s.chans
  }

  function SlotOf(s: State, k: CallId): Slot
    requires Known(s, k)
  {
    var c := s.calls[k];
    Slot(c, k in s.pending, s.chans[c.chan].buffer, c.chan in s.pool)
  }

  function Store(s: State, k: CallId, sl: Slot): State
    requires Known(s, k) && (sl.listed ==> k in s.pending)
  {
    var x := s.calls[k].chan;
    State(s.chans[x := s.chans[x].(buffer := sl.buffer)],
          if sl.pooled then s.pool + {x} else s.pool - {x},
          if sl.listed then s.pending else s.pending - {k},
          s.calls[k := sl.c])
  }

  predicate Enabled(s: State, step: Step) {
    match step
    case Begin(k, x) => k !in s.calls && (x in s.pool || x !in s.chans)
    case At(k, op) => Known(s, k) && Can(SlotOf(s, k), op)
  }

  function Next(s: State, step: Step): State
    requires Enabled(s, step)
  {
    match step
    case Begin(k, x) =>
      State(s.chans[x := Chan(if x in s.chans then s.chans[x].buffer else None, k)],
            s.pool - {x}, s.pending[k := x], s.calls[k := Call(x, Trying, Idle, None)])
    case At(k, op) => Store(s, k, Act(k, SlotOf(s, k), op))
  }

  /** A send that reports failure although the request left does so before a handler has
      picked up the response. */
  predicate Honest(s: State, step: Step) {
    step.At? && step.op == FailsLate ==> step.k in s.pending
  }

  // ---- Invariant ----

  /** The call or its handler may still touch the channel. */
  predicate Attached(sl: Slot) {
    sl.c.phase != Over || sl.c.handler == Taken
  }

  predicate SlotInv(k: CallId, sl: Slot) {
    && (sl.listed ==> sl.c.phase != Over && sl.c.handler == Idle)
    && (sl.c.phase == Trying ==> sl.listed)
    && (sl.c.phase != Over && sl.c.handler == Idle ==> sl.listed)
    && (sl.c.phase != Over ==> sl.buffer == if sl.c.handler == Written then Some(k) else None)
    && (sl.c.handler == Taken ==> sl.buffer == None)
    && (Attached(sl) ==> !sl.pooled)
    && (sl.c.got.Some? ==> sl.c.got == Some(k) && sl.c.handler == Written)
  }

  ghost predicate CallInv(s: State, k: CallId) {
    && Known(s, k)
    && CallSlotInv(s, k)
    && (k in s.pending ==> s.pending[k] == s.calls[k].chan)
  }

  /** The part about the buffer concerns a call only while it is attached. */
  ghost predicate CallSlotInv(s: State, k: CallId)
    requires Known(s, k)
  {
    var sl := SlotOf(s, k);
    if Attached(sl) then SlotInv(k, sl) && s.chans[sl.c.chan].owner == k
    else !sl.listed && (sl.c.got.Some? ==> sl.c.got == Some(k))
  }

  ghost predicate Inv(s: State) {
    && (forall k :: k in s.pending ==> k in s.calls)
    && (forall x :: x in s.pool ==> x in s.chans && s.chans[x].buffer == None)
    && (forall k :: k in s.calls ==> CallInv(s, k))
  }

  lemma ActKeeps(k: CallId, sl: Slot, op: Op)
    requires SlotInv(k, sl) && Attached(sl) && Can(sl, op) && (op == FailsLate ==> sl.listed)
    ensures var sl' := Act(k, sl, op);
            && (Attached(sl') ==> SlotInv(k, sl'))
            && (!Attached(sl') ==> !sl'.listed && (sl'.c.got.Some? ==> sl'.c.got == Some(k)))
            && (sl'.pooled ==> sl'.buffer == None)
            && (sl'.listed ==> sl.listed) && sl'.c.chan == sl.c.chan
  {
  }

  lemma CanMeansAttached(s: State, k: CallId, op: Op)
    requires CallInv(s, k) && Can(SlotOf(s, k), op)
    ensures Attached(SlotOf(s, k))
  {
  }

  lemma Untouched(s: State, k: CallId, sl: Slot, j: CallId)
    requires CallInv(s, k) && CallInv(s, j) && j != k && Attached(SlotOf(s, k))
    requires sl.c.chan == s.calls[k].chan && (sl.listed ==> k in s.pending)
    ensures CallInv(Store(s, k, sl), j)
  {
    var s' := Store(s, k, sl);
    if s.calls[j].chan == s.calls[k].chan {
      assert !Attached(SlotOf(s, j));
      assert SlotOf(s', j).c == SlotOf(s, j).c && SlotOf(s', j).listed == SlotOf(s, j).listed;
    } else {
      assert SlotOf(s', j) == SlotOf(s, j);
    }
  }

  lemma AtKeeps(s: State, k: CallId, op: Op)
    requires Inv(s) && Enabled(s, At(k, op)) && Honest(s, At(k, op))
    ensures Inv(Next(s, At(k, op)))
  {
    assert CallInv(s, k);
    CanMeansAttached(s, k, op);
    var sl := Act(k, SlotOf(s, k), op);
    ActKeeps(k, SlotOf(s, k), op);
    var s' := Store(s, k, sl);
    forall j | j in s'.calls ensures CallInv(s', j) {
      if j == k {
        assert SlotOf(s', k) == sl;
      } else {
        assert CallInv(s, j);
        Untouched(s, k, sl, j);
      }
    }
  }

  lemma BeginKeeps(s: State, k: CallId, x: ChanId)
    requires Inv(s) && Enabled(s, Begin(k, x))
    ensures Inv(Next(s, Begin(k, x)))
  {
    var s' := Next(s, Begin(k, x));
    forall j | j in s'.calls ensures CallInv(s', j) {
      if j != k {
        assert CallInv(s, j);
        assert SlotOf(s', j).c == SlotOf(s, j).c && SlotOf(s', j).listed == SlotOf(s, j).listed;
        if s.calls[j].chan == x { assert !Attached(SlotOf(s, j)); } else { assert SlotOf(s', j) == SlotOf(s, j); }
      }
    }
  }

  // ---- Every run ----

  ghost predicate EnabledRun(s: State, steps: seq<Step>)
    decreases |steps|
  {
    steps != [] ==> Enabled(s, steps[0]) && EnabledRun(Next(s, steps[0]), steps[1..])
  }

  function After(s: State, steps: seq<Step>): State
    requires EnabledRun(s, steps)
    decreases |steps|
  {
    if steps == [] then s else After(Next(s, steps[0]), steps[1..])
  }

  ghost predicate HonestRun(s: State, steps: seq<Step>)
    requires EnabledRun(s, steps)
    decreases |steps|
  {
    steps != [] ==> Honest(s, steps[0]) && HonestRun(Next(s, steps[0]), steps[1..])
  }

  lemma {:induction false} RunKeeps(s: State, steps: seq<Step>)
    requires Inv(s) && EnabledRun(s, steps) && HonestRun(s, steps)
    ensures Inv(After(s, steps))
    decreases |steps|
  {
    if steps != [] {
      match steps[0] {
        case Begin(k, x) => BeginKeeps(s, k, x);
        case At(k, op) => AtKeeps(s, k, op);
      }
      RunKeeps(Next(s, steps[0]), steps[1..]);
    }
  }

  /** For every interleaving: pooled channels are empty and unreachable from the pending map, a
      handler that holds a registration can always write, and a call only ever receives the
      response to its own request. */
  lemma ChannelsExact(steps: seq<Step>)
    requires EnabledRun(START, steps) && HonestRun(START, steps)
    ensures var s := After(START, steps);
            && (forall x :: x in s.pool ==> x in s.chans && s.chans[x].buffer == None)
            && (forall k :: k in s.pending ==> s.pending[k] !in s.pool)
            && (forall k :: k in s.calls && s.calls[k].handler == Taken ==> Enabled(s, At(k, Write)))
            && (forall k :: k in s.calls && s.calls[k].got.Some? ==> s.calls[k].got == Some(k))
  {
    RunKeeps(START, steps);
    var s := After(START, steps);
    forall k | k in s.calls
      ensures k in s.pending ==> s.pending[k] !in s.pool
      ensures s.calls[k].handler == Taken ==> Enabled(s, At(k, Write))
      ensures s.calls[k].got.Some? ==> s.calls[k].got == Some(k)
    {
      assert CallInv(s, k);
    }
  }

  // ---- A call gets its response ----

  /** Whenever a caller can take a response, what it takes is the response to its own request. */
  lemma ReceiveExact(steps: seq<Step>, k: CallId)
    requires EnabledRun(START, steps) && HonestRun(START, steps) && Enabled(After(START, steps), At(k, Receive))
    ensures var s := Next(After(START, steps), At(k, Receive));
            k in s.calls && s.calls[k].phase == Over && s.calls[k].got == Some(k)
  {
    RunKeeps(START, steps);
    assert CallInv(After(START, steps), k);
  }

  /** A response that was written stays receivable until the caller is done: at once if the send
      has returned, otherwise as soon as it does. */
  lemma WrittenReceivable(steps: seq<Step>, k: CallId)
    requires EnabledRun(START, steps) && HonestRun(START, steps) && k in After(START, steps).calls
    ensures var s := After(START, steps);
            s.calls[k].handler == Written && s.calls[k].phase != Over ==>
              && (s.calls[k].phase == Awaiting ==> Enabled(s, At(k, Receive)))
              && (s.calls[k].phase != Awaiting ==>
                    Enabled(s, At(k, SendReturns)) && Enabled(Next(s, At(k, SendReturns)), At(k, Receive)))
  {
    RunKeeps(START, steps);
    var s := After(START, steps);
    assert CallInv(s, k);
    if s.calls[k].handler == Written && s.calls[k].phase == OnWire {
      var s' := Next(s, At(k, SendReturns));
      assert SlotOf(s', k).buffer == SlotOf(s, k).buffer;
    }
  }

  /** How a call ended, told from the run: with its own response exactly when it received, and
      otherwise because it was cancelled or its send failed. */
  predicate Explained(s: State, steps: seq<Step>, k: CallId) {
    k in s.calls ==>
      && (s.calls[k].phase == Over ==>
            At(k, Receive) in steps || At(k, Cancel) in steps || At(k, SendFails) in steps || At(k, FailsLate) in steps)
      && (s.calls[k].got == Some(k) <==> At(k, Receive) in steps)
      && (At(k, Receive) in steps ==> s.calls[k].phase == Over)
  }

  lemma StepExplained(s: State, step: Step, done: seq<Step>, k: CallId)
    requires Inv(s) && Enabled(s, step) && Honest(s, step) && Explained(s, done, k)
    requires k !in s.calls ==> At(k, Receive) !in done
    ensures Explained(Next(s, step), done + [step], k)
    ensures k !in Next(s, step).calls ==> At(k, Receive) !in done + [step]
  {
    var s' := Next(s, step);
    forall op: Op ensures At(k, op) in done + [step] <==> At(k, op) in done || step == At(k, op) {
    }
    if step.At? && step.k == k {
      assert CallInv(s, k);
      CanMeansAttached(s, k, step.op);
    }
  }

  lemma {:induction false} RunExplained(s: State, steps: seq<Step>, done: seq<Step>, k: CallId)
    requires Inv(s) && EnabledRun(s, steps) && HonestRun(s, steps) && Explained(s, done, k)
    requires k !in s.calls ==> At(k, Receive) !in done
    ensures Explained(After(s, steps), done + steps, k)
    decreases |steps|
  {
    if steps == [] {
      assert done + steps == done;
    } else {
      match steps[0] {
        case Begin(j, x) => BeginKeeps(s, j, x);
        case At(j, op) => AtKeeps(s, j, op);
      }
      StepExplained(s, steps[0], done, k);
      RunExplained(Next(s, steps[0]), steps[1..], done + [steps[0]], k);
      assert done + [steps[0]] + steps[1..] == done + steps;
    }
  }

  /** Over every run: a call that is over has its own response, or was cancelled, or its send
      failed; and it has its response exactly when it received one. */
  lemma CallsEnd(steps: seq<Step>, k: CallId)
    requires EnabledRun(START, steps) && HonestRun(START, steps)
    ensures Explained(After(START, steps), steps, k)
  {
    RunExplained(START, steps, [], k);
    assert [] + steps == steps;
  }

  /** Nothing is stuck: a call that is not over can always go on by itself, unless it waits for a
      response that is still to come, and a handler that took a registration can always write. */
  lemma NeverStuck(steps: seq<Step>, k: CallId)
    requires EnabledRun(START, steps) && HonestRun(START, steps) && k in After(START, steps).calls
    ensures var s := After(START, steps);
            match s.calls[k].phase
            case Trying => Enabled(s, At(k, Transmit))
            case OnWire => Enabled(s, At(k, SendReturns))
            case Awaiting =>
              match s.calls[k].handler {
                case Idle => Enabled(s, At(k, Respond))
                case Taken => Enabled(s, At(k, Write))
                case Written => Enabled(s, At(k, Receive))
              }
            case Over => true
  {
    RunKeeps(START, steps);
    assert CallInv(After(START, steps), k);
  }

  /** When a call ends, its channel goes back to the pool exactly when it is empty and no handler
      can still write to it. */
  lemma PoolExact(s: State, k: CallId, op: Op)
    requires Inv(s) && Enabled(s, At(k, op)) && Honest(s, At(k, op))
    requires Next(s, At(k, op)).calls[k].phase == Over && s.calls[k].phase != Over
    ensures var s' := Next(s, At(k, op));
            s'.calls[k].chan in s'.pool <==> s'.chans[s'.calls[k].chan].buffer == None && s'.calls[k].handler != Taken
  {
    assert CallInv(s, k);
  }

  // ---- The condition on late failures is exact ----

  predicate Confused(s: State, j: CallId) {
    j in s.calls && s.calls[j].got.Some? && s.calls[j].got != Some(j)
  }

  ghost predicate LeadsAstray(s: State, steps: seq<Step>, j: CallId) {
    EnabledRun(s, steps) && HonestRun(s, steps) && Confused(After(s, steps), j)
  }

  lemma Prepend(s: State, step: Step, rest: seq<Step>, j: CallId)
    requires Enabled(s, step) && Honest(s, step) && LeadsAstray(Next(s, step), rest, j)
    ensures LeadsAstray(s, [step] + rest, j)
  {
    assert ([step] + rest)[1..] == rest;
  }

  /** A pooled channel with a stale response hands it to the next call. */
  lemma StaleResponse(s: State, x: ChanId, k: CallId, j: CallId) returns (steps: seq<Step>)
    requires x in s.pool && x in s.chans && s.chans[x].buffer == Some(k) && j !in s.calls && j != k
    ensures LeadsAstray(s, steps, j)
  {
    var s1 := Next(s, Begin(j, x));
    var s2 := Next(s1, At(j, Transmit));
    var s3 := Next(s2, At(j, SendReturns));
    assert SlotOf(s3, j).buffer == Some(k);
    var s4 := Next(s3, At(j, Receive));
    assert LeadsAstray(s4, [], j);
    Prepend(s3, At(j, Receive), [], j);
    Prepend(s2, At(j, SendReturns), [At(j, Receive)] + [], j);
    Prepend(s1, At(j, Transmit), [At(j, SendReturns)] + ([At(j, Receive)] + []), j);
    Prepend(s, Begin(j, x), [At(j, Transmit)] + ([At(j, SendReturns)] + ([At(j, Receive)] + [])), j);
    steps := [Begin(j, x)] + ([At(j, Transmit)] + ([At(j, SendReturns)] + ([At(j, Receive)] + [])));
  }

  lemma LateFailureLeadsAstray(s: State, k: CallId, j: CallId) returns (steps: seq<Step>)
    requires Inv(s) && Enabled(s, At(k, FailsLate)) && k !in s.pending && j !in s.calls
    ensures LeadsAstray(Next(s, At(k, FailsLate)), steps, j)
  {
    assert CallInv(s, k);
    var s1 := Next(s, At(k, FailsLate));
    var x := s.calls[k].chan;
    if s.calls[k].handler == Written {
      steps := StaleResponse(s1, x, k, j);
    } else {
      var s2 := Next(s1, At(k, Write));
      var rest := StaleResponse(s2, x, k, j);
      Prepend(s1, At(k, Write), rest, j);
      steps := [At(k, Write)] + rest;
    }
  }

  lemma NeverConfused(s: State, steps: seq<Step>, j: CallId)
    requires Inv(s)
    ensures !LeadsAstray(s, steps, j)
  {
    if EnabledRun(s, steps) && HonestRun(s, steps) && j in After(s, steps).calls {
      RunKeeps(s, steps);
      assert CallInv(After(s, steps), j);
    }
  }

  /** A send that fails after the request left is harmless for every continuation if and only if
      the registration was still there; `j` is any call not yet made. */
  lemma LateFailureExact(s: State, k: CallId, j: CallId)
    requires Inv(s) && Enabled(s, At(k, FailsLate)) && j !in s.calls
    ensures (forall steps :: !LeadsAstray(Next(s, At(k, FailsLate)), steps, j)) <==> k in s.pending
  {
    if k in s.pending {
      AtKeeps(s, k, FailsLate);
      forall steps ensures !LeadsAstray(Next(s, At(k, FailsLate)), steps, j) {
        NeverConfused(Next(s, At(k, FailsLate)), steps, j);
      }
    } else {
      var steps := LateFailureLeadsAstray(s, k, j);
    }
  }

  lemma Extend(s: State, step: Step, rest: seq<Step>)
    requires Enabled(s, step) && Honest(s, step) && EnabledRun(Next(s, step), rest) && HonestRun(Next(s, step), rest)
    ensures EnabledRun(s, [step] + rest) && HonestRun(s, [step] + rest)
    ensures After(s, [step] + rest) == After(Next(s, step), rest)
  {
    assert ([step] + rest)[1..] == rest;
  }

  /** With a channel that may report failure after the request left, the harmful case arises: the
      request leaves, the response is taken, and the send still has not returned. */
  lemma LateFailureArises(k: CallId, x: ChanId)
    ensures var steps := [Begin(k, x)] + ([At(k, Transmit)] + ([At(k, Respond)] + []));
            && EnabledRun(START, steps) && HonestRun(START, steps)
            && var s := After(START, steps);
               Inv(s) && Enabled(s, At(k, FailsLate)) && k !in s.pending
  {
    var a, b, c := Begin(k, x), At(k, Transmit), At(k, Respond);
    var s1 := Next(START, a);
    var s2 := Next(s1, b);
    var s3 := Next(s2, c);
    assert s3.calls[k].phase == OnWire && k !in s3.pending;
    Extend(s2, c, []);
    Extend(s1, b, [c] + []);
    Extend(START, a, [b] + ([c] + []));
    RunKeeps(START, [a] + ([b] + ([c] + [])));
  }
}
