/** Asynchronous RPC calls. The caller, the timer and the response handler of a call race over
    its entry in the pending map (an atomic load-and-delete) and over the `fired` flag of a
    pooled context (a compare-and-swap). Every atomic operation is one step, and steps of any
    number of calls interleave freely. */
module AsyncCall {

  /** A call is named by its sequence number. */
  type CallId = nat
  type CtxId = nat

  /** `owner` is the call whose callback, request and timer the context currently holds. */
  datatype Context = Context(fired: bool, owner: CallId)

  /** Progress of AsyncCall itself. `took`: it removed the pending entry after a failed send;
      `stopped`: it also stopped the timer. */
  datatype Caller =
    | Requesting
    | Failing
    | Unlisted
    | Racing(took: bool, stopped: bool)
    | Notifying(took: bool, stopped: bool)
    | Returned(failed: bool)

  datatype Timer = Armed | Fired | Holding | Winning | Over | Halted

  datatype Responder = Waiting | Taken | Stopping(inTime: bool) | Deciding(inTime: bool) | Losing(inTime: bool) | Finished

  datatype Winner = NoOne | ByTimer | ByResponse | ByError

  datatype Call = Call(ctx: CtxId, caller: Caller, timer: Timer, resp: Responder,
                       winner: Winner, callbacks: nat, inbound: nat)

  datatype State = State(ctxs: map<CtxId, Context>, pool: set<CtxId>, pending: map<CallId, CtxId>, calls: map<CallId, Call>)

  const START := State(map[], {}, map[], map[])

  datatype CallerOp = SendOk | SendFails | Unlist | StopTimer | Swap | Notify

  datatype TimerOp = Fire | Take | Swap | Deliver

  datatype RespOp = Respond | Stop | Swap | Deliver | Quit

  datatype Step =
    | Begin(k: CallId, ctx: CtxId)
    | AtCaller(k: CallId, cop: CallerOp)
    | AtTimer(k: CallId, top: TimerOp)
    | AtResponse(k: CallId, rop: RespOp)

  predicate CallerCan(c: Call, op: CallerOp) {
    match op
    case SendOk => c.caller == Requesting
    case SendFails => c.caller == Requesting
    case Unlist => c.caller == Failing
    case StopTimer => c.caller == Unlisted
    case Swap => c.caller.Racing?
    case Notify => c.caller.Notifying?
  }

  predicate TimerCan(c: Call, op: TimerOp) {
    match op
    case Fire => c.timer == Armed
    case Take => c.timer == Fired
    case Swap => c.timer == Holding
    case Deliver => c.timer == Winning
  }

  /** A response finds the call only through its pending entry. */
  predicate RespCan(c: Call, listed: bool, op: RespOp) {
    match op
    case Respond => listed && c.resp == Waiting
    case Stop => c.resp == Taken
    case Swap => c.resp.Stopping?
    case Deliver => c.resp.Deciding?
    case Quit => c.resp.Losing?
  }

  predicate Known(s: State, k: CallId) {
    k in s.calls && s.calls[k].ctx in s.ctxs && s.ctxs[s.calls[k].ctx].owner in s.calls
  }

  predicate Enabled(s: State, step: Step) {
    match step
    case Begin(k, x) => k !in s.calls && (x in s.pool || x !in s.ctxs)
    case AtCaller(k, op) => Known(s, k) && CallerCan(s.calls[k], op)
    case AtTimer(k, op) => Known(s, k) && TimerCan(s.calls[k], op)
    case AtResponse(k, op) => Known(s, k) && RespCan(s.calls[k], k in s.pending, op)
  }

  function Set(s: State, k: CallId, c: Call): State {
    s.(calls := s.calls[k := c])
  }

  /** Removing the pending entry of a call. */
  function Unlisting(s: State, k: CallId): State {
    s.(pending := s.pending - {k})
  }

  /** timer.Stop on the timer stored in a context: true exactly when it had not fired. */
  predicate StopsInTime(s: State, x: CtxId)
    requires x in s.ctxs && s.ctxs[x].owner in s.calls
  {
    s.calls[s.ctxs[x].owner].timer == Armed
  }

  function Stopped(s: State, x: CtxId): State
    requires x in s.ctxs && s.ctxs[x].owner in s.calls
  {
    var o := s.ctxs[x].owner;
    if s.calls[o].timer == Armed then Set(s, o, s.calls[o].(timer := Halted)) else s
  }

  function Put(s: State, x: CtxId, really: bool): State {
    if really then s.(pool := s.pool + {x}) else s
  }

  /** The winner runs the inbound interceptors and the callback stored in the context. */
  function Delivered(s: State, x: CtxId): State
    requires x in s.ctxs && s.ctxs[x].owner in s.calls
  {
    var o := s.ctxs[x].owner;
    Set(s, o, s.calls[o].(callbacks := s.calls[o].callbacks + 1, inbound := s.calls[o].inbound + 1))
  }

  function Fires(s: State, x: CtxId): State
    requires x in s.ctxs
  {
    s.(ctxs := s.ctxs[x := s.ctxs[x].(fired := true)])
  }

  /** AsyncCall after the request was handed to the channel. */
  function CallerNext(s: State, k: CallId, op: CallerOp): State
    requires Known(s, k) && CallerCan(s.calls[k], op)
  {
    var c := s.calls[k];
    var x := c.ctx;
    match op
    case SendOk => Set(s, k, c.(caller := Returned(false)))
    case SendFails => Set(s, k, c.(caller := Failing))
    case Unlist =>
      if k in s.pending then Set(Unlisting(s, k), k, c.(caller := Unlisted))
      else Set(s, k, c.(caller := Racing(false, false)))
    case StopTimer =>
      var s' := Stopped(s, x);
      Set(s', k, s'.calls[k].(caller := Racing(true, StopsInTime(s, x))))
    case Swap =>
      if s.ctxs[x].fired then Set(s, k, c.(caller := Returned(true)))
      else Set(Fires(s, x), k, c.(caller := Notifying(c.caller.took, c.caller.stopped), winner := ByError))
    case Notify =>
      Put(Set(s, k, c.(caller := Returned(true), inbound := c.inbound + 1)), x, c.caller.stopped)
  }

  /** The timer function. */
  function TimerNext(s: State, k: CallId, op: TimerOp): State
    requires Known(s, k) && TimerCan(s.calls[k], op)
  {
    var c := s.calls[k];
    var x := c.ctx;
    match op
    case Fire => Set(s, k, c.(timer := Fired))
    case Take =>
      if k in s.pending then Set(Unlisting(s, k), k, c.(timer := Holding)) else Set(s, k, c.(timer := Over))
    case Swap =>
      if s.ctxs[x].fired then Set(s, k, c.(timer := Over))
      else Set(Fires(s, x), k, c.(timer := Winning, winner := ByTimer))
    case Deliver =>
      var s' := Delivered(s, x);
      Put(Set(s', k, s'.calls[k].(timer := Over)), x, true)
  }

  /** OnMessage for a response to the call. */
  function RespNext(s: State, k: CallId, op: RespOp): State
    requires Known(s, k) && RespCan(s.calls[k], k in s.pending, op)
  {
    var c := s.calls[k];
    var x := c.ctx;
    match op
    case Respond => Set(Unlisting(s, k), k, c.(resp := Taken))
    case Stop =>
      var s' := Stopped(s, x);
      Set(s', k, s'.calls[k].(resp := Stopping(StopsInTime(s, x))))
    case Swap =>
      if s.ctxs[x].fired then Set(s, k, c.(resp := Losing(c.resp.inTime)))
      else Set(Fires(s, x), k, c.(resp := Deciding(c.resp.inTime), winner := ByResponse))
    case Deliver =>
      var s' := Delivered(s, x);
      Put(Set(s', k, s'.calls[k].(resp := Finished)), x, c.resp.inTime)
    case Quit => Put(Set(s, k, c.(resp := Finished)), x, c.resp.inTime)
  }

  function Next(s: State, step: Step): State
    requires Enabled(s, step)
  {
    match step
    case Begin(k, x) =>
      State(s.ctxs[x := Context(false, k)], s.pool - {x}, s.pending[k := x],
            s.calls[k := Call(x, Requesting, Armed, Waiting, NoOne, 0, 0)])
    case AtCaller(k, op) => CallerNext(s, k, op)
    case AtTimer(k, op) => TimerNext(s, k, op)
    case AtResponse(k, op) => RespNext(s, k, op)
  }

  /** AsyncCall is past its last look at the flag of its context. */
  predicate PastFlag(c: Call) {
    c.caller.Returned? || c.caller.Notifying?
  }

  /** A context may be recycled only after the AsyncCall it last served is past the flag. */
  predicate Recycles(s: State, step: Step) {
    step.Begin? && step.ctx in s.ctxs ==>
      s.ctxs[step.ctx].owner in s.calls && PastFlag(s.calls[s.ctxs[step.ctx].owner])
  }

  // ---- Invariant, one call at a time ----

  predicate TimerHolds(c: Call) { c.timer == Holding || c.timer == Winning }

  predicate RespHolds(c: Call) { c.resp.Taken? || c.resp.Stopping? || c.resp.Deciding? || c.resp.Losing? }

  predicate CallerHolds(c: Call) {
    match c.caller
    case Unlisted => true
    case Racing(took, _) => took
    case Notifying(took, _) => took
    case _ => false
  }

  /** A call with its pending entry, its flag and whether its context lies in the pool. */
  datatype Slot = Slot(c: Call, listed: bool, fired: bool, pooled: bool)

  /** The pending entry is still there, or some thread of the call removed it and is at work. */
  predicate Held(sl: Slot) {
    sl.listed || TimerHolds(sl.c) || RespHolds(sl.c) || CallerHolds(sl.c)
  }

  /** Some thread of the call may still touch its context. */
  predicate Live(sl: Slot) {
    Held(sl) || !PastFlag(sl.c)
  }

  predicate Exclusive(sl: Slot) {
    var c := sl.c;
    && (sl.listed ==> !TimerHolds(c) && !RespHolds(c) && !CallerHolds(c))
    && !(TimerHolds(c) && RespHolds(c)) && !(TimerHolds(c) && CallerHolds(c)) && !(RespHolds(c) && CallerHolds(c))
    && ((c.caller.Racing? || c.caller.Notifying?) && c.caller.stopped ==> c.caller.took)
    && (sl.listed ==> !c.caller.Racing? && !c.caller.Notifying? && c.caller != Returned(true))
    && (c.timer == Armed ==> sl.listed || c.resp.Taken? || c.caller == Unlisted)
    && (sl.listed || c.resp.Taken? || c.caller == Unlisted ==> c.timer != Halted)
    && (c.resp.Stopping? || c.resp.Deciding? || c.resp.Losing? ==> (c.resp.inTime <==> c.timer == Halted))
    && ((c.caller.Racing? || c.caller.Notifying?) && c.caller.took ==> (c.caller.stopped <==> c.timer == Halted))
  }

  /** Who won, and how far the winner got, determines what was called. */
  predicate Tally(sl: Slot) {
    var c := sl.c;
    match c.winner
    case NoOne =>
      && c.callbacks == 0 && c.inbound == 0
      && c.timer != Winning && (c.resp == Waiting || c.resp.Taken? || c.resp.Stopping?)
      && !c.caller.Notifying? && c.caller != Returned(true)
      && Held(sl)
    case ByTimer =>
      && (c.timer == Winning || c.timer == Over)
      && c.callbacks == c.inbound == (if c.timer == Winning then 0 else 1)
      && !c.resp.Deciding? && !c.caller.Notifying? && !sl.listed
    case ByResponse =>
      && (c.resp.Deciding? || c.resp == Finished)
      && c.callbacks == c.inbound == (if c.resp.Deciding? then 0 else 1)
      && c.timer != Winning && !c.caller.Notifying? && !sl.listed
    case ByError =>
      && (c.caller.Notifying? || c.caller == Returned(true))
      && c.callbacks == 0 && c.inbound == (if c.caller.Notifying? then 0 else 1)
      && c.timer != Winning && !c.resp.Deciding? && !sl.listed
  }

  predicate SlotInv(sl: Slot) {
    && Exclusive(sl) && Tally(sl)
    && (Live(sl) ==> (sl.fired <==> sl.c.winner != NoOne))
    && (Held(sl) ==> !sl.pooled)
  }

  // ---- Steps on one slot ----

  function CallerSlot(sl: Slot, op: CallerOp): Slot
    requires CallerCan(sl.c, op)
  {
    var c := sl.c;
    match op
    case SendOk => sl.(c := c.(caller := Returned(false)))
    case SendFails => sl.(c := c.(caller := Failing))
    case Unlist =>
      if sl.listed then sl.(listed := false, c := c.(caller := Unlisted))
      else sl.(c := c.(caller := Racing(false, false)))
    case StopTimer =>
      sl.(c := c.(caller := Racing(true, c.timer == Armed), timer := if c.timer == Armed then Halted else c.timer))
    case Swap =>
      if sl.fired then sl.(c := c.(caller := Returned(true)))
      else sl.(fired := true, c := c.(caller := Notifying(c.caller.took, c.caller.stopped), winner := ByError))
    case Notify =>
      sl.(c := c.(caller := Returned(true), inbound := c.inbound + 1), pooled := sl.pooled || c.caller.stopped)
  }

  function TimerSlot(sl: Slot, op: TimerOp): Slot
    requires TimerCan(sl.c, op)
  {
    var c := sl.c;
    match op
    case Fire => sl.(c := c.(timer := Fired))
    case Take =>
      if sl.listed then sl.(listed := false, c := c.(timer := Holding)) else sl.(c := c.(timer := Over))
    case Swap =>
      if sl.fired then sl.(c := c.(timer := Over))
      else sl.(fired := true, c := c.(timer := Winning, winner := ByTimer))
    case Deliver =>
      sl.(c := c.(timer := Over, callbacks := c.callbacks + 1, inbound := c.inbound + 1), pooled := true)
  }

  function RespSlot(sl: Slot, op: RespOp): Slot
    requires RespCan(sl.c, sl.listed, op)
  {
    var c := sl.c;
    match op
    case Respond => sl.(listed := false, c := c.(resp := Taken))
    case Stop =>
      sl.(c := c.(resp := Stopping(c.timer == Armed), timer := if c.timer == Armed then Halted else c.timer))
    case Swap =>
      if sl.fired then sl.(c := c.(resp := Losing(c.resp.inTime)))
      else sl.(fired := true, c := c.(resp := Deciding(c.resp.inTime), winner := ByResponse))
    case Deliver =>
      sl.(c := c.(resp := Finished, callbacks := c.callbacks + 1, inbound := c.inbound + 1),
          pooled := sl.pooled || c.resp.inTime)
    case Quit => sl.(c := c.(resp := Finished), pooled := sl.pooled || c.resp.inTime)
  }

  lemma CallerSlotKeeps(sl: Slot, op: CallerOp)
    requires SlotInv(sl) && CallerCan(sl.c, op)
    ensures SlotInv(CallerSlot(sl, op))
    ensures Live(sl) || (op == Notify && !sl.c.caller.stopped)
    ensures Live(CallerSlot(sl, op)) ==> Live(sl)
  {
  }

  lemma TimerSlotKeeps(sl: Slot, op: TimerOp)
    requires SlotInv(sl) && TimerCan(sl.c, op)
    ensures SlotInv(TimerSlot(sl, op))
    ensures Live(sl) || op == Take
    ensures Live(TimerSlot(sl, op)) ==> Live(sl)
  {
  }

  lemma RespSlotKeeps(sl: Slot, op: RespOp)
    requires SlotInv(sl) && RespCan(sl.c, sl.listed, op)
    ensures SlotInv(RespSlot(sl, op)) && Live(sl)
  {
  }

  // ---- From slots to the whole state ----

  function SlotOf(s: State, k: CallId): Slot
    requires Known(s, k)
  {
    var c := s.calls[k];
    Slot(c, k in s.pending, s.ctxs[c.ctx].fired, c.ctx in s.pool)
  }

  ghost predicate CallInv(s: State, k: CallId) {
    && Known(s, k)
    && SlotInv(SlotOf(s, k))
    && (k in s.pending ==> s.pending[k] == s.calls[k].ctx)
    && (Live(SlotOf(s, k)) ==> s.ctxs[s.calls[k].ctx].owner == k)
  }

  ghost predicate Inv(s: State) {
    Wired(s) && forall k :: k in s.calls ==> CallInv(s, k)
  }

  /** The state after one slot changed. */
  function Write(s: State, k: CallId, sl: Slot): State
    requires Known(s, k) && (sl.listed ==> k in s.pending)
  {
    var x := s.calls[k].ctx;
    State(s.ctxs[x := s.ctxs[x].(fired := sl.fired)],
          if sl.pooled then s.pool + {x} else s.pool - {x},
          if sl.listed then s.pending else s.pending - {k},
          s.calls[k := sl.c])
  }

  /** Another call is not affected: a context serves at most one live call. */
  lemma Untouched(s: State, k: CallId, sl: Slot, j: CallId)
    requires CallInv(s, k) && CallInv(s, j) && j != k
    requires sl.c.ctx == s.calls[k].ctx && (sl.listed ==> k in s.pending)
    requires !Live(SlotOf(s, k)) ==> sl.fired == SlotOf(s, k).fired && sl.pooled == SlotOf(s, k).pooled
    ensures CallInv(Write(s, k, sl), j)
  {
    var s' := Write(s, k, sl);
    if s.calls[j].ctx == s.calls[k].ctx {
      assert Live(SlotOf(s, k)) ==> !Live(SlotOf(s, j));
      assert SlotOf(s', j).c == SlotOf(s, j).c && SlotOf(s', j).listed == SlotOf(s, j).listed;
    } else {
      assert SlotOf(s', j) == SlotOf(s, j);
    }
  }

  lemma Rewritten(s: State, k: CallId, sl: Slot)
    requires CallInv(s, k) && SlotInv(sl)
    requires sl.c.ctx == s.calls[k].ctx && (sl.listed ==> k in s.pending)
    requires Live(sl) ==> Live(SlotOf(s, k))
    ensures CallInv(Write(s, k, sl), k)
  {
    assert SlotOf(Write(s, k, sl), k) == sl;
  }

  /** The parts of the invariant that relate contexts, pool and pending map. */
  ghost predicate Wired(s: State) {
    && (forall k :: k in s.pending ==> k in s.calls)
    && (forall x :: x in s.pool ==> x in s.ctxs)
    && (forall x :: x in s.ctxs ==> s.ctxs[x].owner in s.calls && s.calls[s.ctxs[x].owner].ctx == x)
  }

  lemma WriteWired(s: State, k: CallId, sl: Slot)
    requires Wired(s) && Known(s, k) && sl.c.ctx == s.calls[k].ctx && (sl.listed ==> k in s.pending)
    ensures Wired(Write(s, k, sl))
  {
  }

  lemma WriteKeeps(s: State, k: CallId, sl: Slot)
    requires Inv(s) && CallInv(s, k) && SlotInv(sl)
    requires sl.c.ctx == s.calls[k].ctx && (sl.listed ==> k in s.pending)
    requires Live(sl) ==> Live(SlotOf(s, k))
    requires !Live(SlotOf(s, k)) ==> sl.fired == SlotOf(s, k).fired && sl.pooled == SlotOf(s, k).pooled
    ensures Inv(Write(s, k, sl))
  {
    var s' := Write(s, k, sl);
    WriteWired(s, k, sl);
    forall j | j in s'.calls ensures CallInv(s', j) {
      if j == k {
        Rewritten(s, k, sl);
      } else {
        assert CallInv(s, j);
        Untouched(s, k, sl, j);
      }
    }
  }

  lemma CallerIsSlot(s: State, k: CallId, op: CallerOp)
    requires Known(s, k) && CallerCan(s.calls[k], op)
    requires s.ctxs[s.calls[k].ctx].owner == k || (op == Notify && !s.calls[k].caller.stopped)
    ensures CallerNext(s, k, op) == Write(s, k, CallerSlot(SlotOf(s, k), op))
  {
  }

  lemma TimerIsSlot(s: State, k: CallId, op: TimerOp)
    requires Known(s, k) && TimerCan(s.calls[k], op) && (s.ctxs[s.calls[k].ctx].owner == k || op == Take)
    ensures TimerNext(s, k, op) == Write(s, k, TimerSlot(SlotOf(s, k), op))
  {
  }

  lemma RespIsSlot(s: State, k: CallId, op: RespOp)
    requires Known(s, k) && RespCan(s.calls[k], k in s.pending, op) && s.ctxs[s.calls[k].ctx].owner == k
    ensures RespNext(s, k, op) == Write(s, k, RespSlot(SlotOf(s, k), op))
  {
  }

  lemma BeginKeeps(s: State, k: CallId, x: CtxId)
    requires Inv(s) && Enabled(s, Begin(k, x)) && Recycles(s, Begin(k, x))
    ensures Inv(Next(s, Begin(k, x)))
  {
    var s' := Next(s, Begin(k, x));
    BeginWired(s, k, x);
    forall j | j in s'.calls ensures CallInv(s', j) {
      if j == k {
        NewCallFits(s, k, x);
      } else {
        EarlierCallKept(s, k, x, j);
      }
    }
  }

  lemma BeginWired(s: State, k: CallId, x: CtxId)
    requires Wired(s) && Enabled(s, Begin(k, x))
    ensures Wired(Next(s, Begin(k, x)))
  {
  }

  lemma NewCallFits(s: State, k: CallId, x: CtxId)
    requires Enabled(s, Begin(k, x))
    ensures CallInv(Next(s, Begin(k, x)), k)
  {
  }

  lemma EarlierCallKept(s: State, k: CallId, x: CtxId, j: CallId)
    requires Inv(s) && Enabled(s, Begin(k, x)) && Recycles(s, Begin(k, x)) && j in s.calls && j != k
    ensures CallInv(Next(s, Begin(k, x)), j)
  {
    var s' := Next(s, Begin(k, x));
    assert CallInv(s, j);
    assert SlotOf(s', j).c == SlotOf(s, j).c && SlotOf(s', j).listed == SlotOf(s, j).listed;
    if s.calls[j].ctx == x { assert !Live(SlotOf(s, j)); } else { assert SlotOf(s', j) == SlotOf(s, j); }
  }

  lemma StepKeeps(s: State, step: Step)
    requires Inv(s) && Enabled(s, step) && Recycles(s, step)
    ensures Inv(Next(s, step))
  {
    match step
    case Begin(k, x) => BeginKeeps(s, k, x);
    case AtCaller(k, op) =>
      assert CallInv(s, k);
      CallerSlotKeeps(SlotOf(s, k), op);
      CallerIsSlot(s, k, op);
      WriteKeeps(s, k, CallerSlot(SlotOf(s, k), op));
    case AtTimer(k, op) =>
      assert CallInv(s, k);
      TimerSlotKeeps(SlotOf(s, k), op);
      TimerIsSlot(s, k, op);
      WriteKeeps(s, k, TimerSlot(SlotOf(s, k), op));
    case AtResponse(k, op) =>
      assert CallInv(s, k);
      RespSlotKeeps(SlotOf(s, k), op);
      RespIsSlot(s, k, op);
      WriteKeeps(s, k, RespSlot(SlotOf(s, k), op));
  }

  // ---- Every run ----

  ghost predicate EnabledRun(s: State, steps: seq<Step>)
    decreases |steps|
  {
    steps != [] ==> Enabled(s, steps[0]) && EnabledRun(Next(s, steps[0]), steps[1..])
  }

  function After(s: State, steps: seq<Step>): State
    requires EnabledRun(s, steps)
    decreases |steps|
  {
    if steps == [] then s else After(Next(s, steps[0]), steps[1..])
  }

  ghost predicate CarefulRun(s: State, steps: seq<Step>)
    requires EnabledRun(s, steps)
    decreases |steps|
  {
    steps != [] ==> Recycles(s, steps[0]) && CarefulRun(Next(s, steps[0]), steps[1..])
  }

  lemma {:induction false} RunKeeps(s: State, steps: seq<Step>)
    requires Inv(s) && EnabledRun(s, steps) && CarefulRun(s, steps)
    ensures Inv(After(s, steps))
    decreases |steps|
  {
    if steps != [] {
      StepKeeps(s, steps[0]);
      RunKeeps(Next(s, steps[0]), steps[1..]);
    }
  }

  /** All threads of the call have come to an end. */
  predicate Complete(s: State, k: CallId) {
    && k in s.calls && k !in s.pending && s.calls[k].caller.Returned?
    && (s.calls[k].timer == Over || s.calls[k].timer == Halted)
    && (s.calls[k].resp == Waiting || s.calls[k].resp == Finished)
  }

  /** For every interleaving: no call ever runs its callback or its inbound interceptors twice;
      a complete call has run the interceptors exactly once; and if its send succeeded exactly
      one of response and timeout has reached the callback. */
  lemma CallsExact(steps: seq<Step>, k: CallId)
    requires EnabledRun(START, steps) && CarefulRun(START, steps) && k in After(START, steps).calls
    ensures var s := After(START, steps);
            var c := s.calls[k];
            && c.callbacks <= 1 && c.inbound <= 1
            && (Complete(s, k) ==>
                  && c.inbound == 1
                  && (c.callbacks == 1 <==> c.winner == ByTimer || c.winner == ByResponse)
                  && (c.callbacks == 0 <==> c.winner == ByError)
                  && (!c.caller.failed ==> c.callbacks == 1))
  {
    RunKeeps(START, steps);
    var s := After(START, steps);
    assert CallInv(s, k);
  }

  // ---- Every call comes to an end ----

  /** What the threads of a call still have to do. */
  function Work(c: Call): nat {
    (match c.caller
     case Requesting => 5
     case Failing => 4
     case Unlisted => 3
     case Racing(_, _) => 2
     case Notifying(_, _) => 1
     case Returned(_) => 0) +
    (match c.timer
     case Armed => 4
     case Fired => 3
     case Holding => 2
     case Winning => 1
     case Over => 0
     case Halted => 0) +
    (match c.resp
     case Waiting => 4
     case Taken => 3
     case Stopping(_) => 2
     case Deciding(_) => 1
     case Losing(_) => 1
     case Finished => 0)
  }

  /** A step of a thread of the call itself. */
  function Todo(s: State, k: CallId): Step
    requires k in s.calls
  {
    var c := s.calls[k];
    match c.caller
    case Requesting => AtCaller(k, SendOk)
    case Failing => AtCaller(k, Unlist)
    case Unlisted => AtCaller(k, StopTimer)
    case Racing(_, _) => AtCaller(k, CallerOp.Swap)
    case Notifying(_, _) => AtCaller(k, Notify)
    case Returned(_) =>
      match c.timer {
        case Armed => AtTimer(k, Fire)
        case Fired => AtTimer(k, Take)
        case Holding => AtTimer(k, TimerOp.Swap)
        case Winning => AtTimer(k, TimerOp.Deliver)
        case _ =>
          match c.resp {
            case Taken => AtResponse(k, Stop)
            case Stopping(_) => AtResponse(k, RespOp.Swap)
            case Deciding(_) => AtResponse(k, RespOp.Deliver)
            case Losing(_) => AtResponse(k, Quit)
            case _ => AtResponse(k, Respond)
          }
      }
  }

  lemma TodoEnabled(s: State, k: CallId)
    requires Known(s, k) && SlotInv(SlotOf(s, k)) && !Complete(s, k)
    ensures Enabled(s, Todo(s, k))
  {
  }

  /** A call that is not complete can always take a step of its own. */
  lemma NeverStuck(steps: seq<Step>, k: CallId)
    requires EnabledRun(START, steps) && CarefulRun(START, steps) && k in After(START, steps).calls
    ensures var s := After(START, steps);
            !Complete(s, k) ==> Enabled(s, Todo(s, k))
  {
    RunKeeps(START, steps);
    var s := After(START, steps);
    assert CallInv(s, k);
    if !Complete(s, k) {
      TodoEnabled(s, k);
    }
  }

  lemma CallerSpends(sl: Slot, op: CallerOp)
    requires CallerCan(sl.c, op)
    ensures Work(CallerSlot(sl, op).c) < Work(sl.c) <= 13
  {
  }

  lemma TimerSpends(sl: Slot, op: TimerOp)
    requires TimerCan(sl.c, op)
    ensures Work(TimerSlot(sl, op).c) < Work(sl.c) <= 13
  {
  }

  lemma RespSpends(sl: Slot, op: RespOp)
    requires RespCan(sl.c, sl.listed, op)
    ensures Work(RespSlot(sl, op).c) < Work(sl.c) <= 13
  {
  }

  /** The state after a step of call `j`, as far as calls are concerned. */
  ghost predicate OnlyCall(s: State, s': State, j: CallId, c: Call) {
    j in s.calls && s'.calls == s.calls[j := c]
  }

  lemma StepTouchesOne(s: State, step: Step)
    requires Inv(s) && Enabled(s, step) && !step.Begin?
    ensures exists c :: OnlyCall(s, Next(s, step), step.k, c) && Work(c) < Work(s.calls[step.k]) <= 13
  {
    var sl := SlotOf(s, step.k);
    assert CallInv(s, step.k);
    match step
    case AtCaller(j, op) =>
      CallerSlotKeeps(sl, op);
      CallerIsSlot(s, j, op);
      CallerSpends(sl, op);
      assert OnlyCall(s, Next(s, step), j, CallerSlot(sl, op).c);
    case AtTimer(j, op) =>
      TimerSlotKeeps(sl, op);
      TimerIsSlot(s, j, op);
      TimerSpends(sl, op);
      assert OnlyCall(s, Next(s, step), j, TimerSlot(sl, op).c);
    case AtResponse(j, op) =>
      RespSlotKeeps(sl, op);
      RespIsSlot(s, j, op);
      RespSpends(sl, op);
      assert OnlyCall(s, Next(s, step), j, RespSlot(sl, op).c);
  }

  /** Each of its steps leaves a call less to do, and steps of other calls leave it untouched: after
      at most thirteen steps of its own a call is complete. */
  lemma StepSpends(s: State, step: Step, k: CallId)
    requires Inv(s) && Enabled(s, step) && k in s.calls
    ensures var s' := Next(s, step);
            && k in s'.calls
            && (step.k == k ==> Work(s'.calls[k]) < Work(s.calls[k]) <= 13)
            && (step.k != k ==> s'.calls[k] == s.calls[k])
  {
    if !step.Begin? {
      StepTouchesOne(s, step);
    }
  }

  /** A context is put back only while no one else can reach it, so the pool never hands one
      context to two live calls. */
  lemma ContextsExclusive(steps: seq<Step>, j: CallId, k: CallId)
    requires EnabledRun(START, steps) && CarefulRun(START, steps)
    requires j in After(START, steps).calls && k in After(START, steps).calls && j != k
    requires After(START, steps).calls[j].ctx == After(START, steps).calls[k].ctx
    ensures var s := After(START, steps);
            && Known(s, j) && Known(s, k)
            && !(Live(SlotOf(s, j)) && Live(SlotOf(s, k)))
            && (s.calls[j].ctx in s.pool ==> !Held(SlotOf(s, j)) && !Held(SlotOf(s, k)))
  {
    RunKeeps(START, steps);
    var s := After(START, steps);
    assert CallInv(s, j) && CallInv(s, k);
  }

  /** A call that ends puts its context back exactly when its timer can no longer touch it: the
      timer itself ended the call, or the thread that ended it had stopped the timer in time. */
  lemma PoolExact(s: State, k: CallId, step: Step)
    requires Inv(s) && Enabled(s, step) && k in s.calls
    ensures step == AtTimer(k, TimerOp.Deliver) ==> s.calls[k].ctx in Next(s, step).pool
    ensures step == AtResponse(k, RespOp.Deliver) || step == AtResponse(k, Quit) ==>
              (s.calls[k].ctx in Next(s, step).pool <==> s.calls[k].timer == Halted)
    ensures step == AtCaller(k, Notify) && s.calls[k].caller.took ==>
              (s.calls[k].ctx in Next(s, step).pool <==> s.calls[k].timer == Halted)
  {
    assert CallInv(s, k);
    match step
    case Begin(_, _) =>
    case AtCaller(j, op) => if j == k && op == Notify && s.calls[k].caller.took { CallerIsSlot(s, k, op); }
    case AtTimer(j, op) => if j == k && op == TimerOp.Deliver { TimerIsSlot(s, k, op); }
    case AtResponse(j, op) => if j == k { RespIsSlot(s, k, op); }
  }

  // ---- The recycling condition is exact ----

  predicate SomeoneTwice(s: State, k: CallId) {
    k in s.calls && s.calls[k].inbound > 1
  }

  ghost predicate LeadsTwice(s: State, steps: seq<Step>, k: CallId) {
    EnabledRun(s, steps) && CarefulRun(s, steps) && SomeoneTwice(After(s, steps), k)
  }

  lemma Prepend(s: State, step: Step, rest: seq<Step>, k: CallId)
    requires Enabled(s, step) && Recycles(s, step) && LeadsTwice(Next(s, step), rest, k)
    ensures LeadsTwice(s, [step] + rest, k)
  {
    assert ([step] + rest)[1..] == rest;
  }

  /** A caller that lost its race finds the flag of the recycled context clear, wins it, and
      runs the inbound interceptors a second time. */
  lemma StolenFlag(s: State, o: CallId) returns (steps: seq<Step>)
    requires Known(s, o) && s.calls[o].inbound == 1 && s.calls[o].caller == Racing(false, false)
    requires !s.ctxs[s.calls[o].ctx].fired
    ensures LeadsTwice(s, steps, o)
  {
    var s1 := Next(s, AtCaller(o, CallerOp.Swap));
    assert Known(s1, o) && s1.calls[o].caller == Notifying(false, false);
    var s2 := Next(s1, AtCaller(o, Notify));
    assert LeadsTwice(s2, [], o);
    Prepend(s1, AtCaller(o, Notify), [], o);
    Prepend(s, AtCaller(o, CallerOp.Swap), [AtCaller(o, Notify)] + [], o);
    steps := [AtCaller(o, CallerOp.Swap)] + ([AtCaller(o, Notify)] + []);
  }

  lemma StolenLater(s: State, o: CallId) returns (steps: seq<Step>)
    requires Known(s, o) && s.calls[o].inbound == 1 && o !in s.pending
    requires !s.ctxs[s.calls[o].ctx].fired
    requires s.calls[o].caller == Requesting || s.calls[o].caller == Failing || s.calls[o].caller == Racing(false, false)
    ensures LeadsTwice(s, steps, o)
  {
    if s.calls[o].caller == Racing(false, false) {
      steps := StolenFlag(s, o);
    } else if s.calls[o].caller == Failing {
      var s1 := Next(s, AtCaller(o, Unlist));
      var rest := StolenFlag(s1, o);
      Prepend(s, AtCaller(o, Unlist), rest, o);
      steps := [AtCaller(o, Unlist)] + rest;
    } else {
      var s1 := Next(s, AtCaller(o, SendFails));
      var s2 := Next(s1, AtCaller(o, Unlist));
      var rest := StolenFlag(s2, o);
      Prepend(s1, AtCaller(o, Unlist), rest, o);
      Prepend(s, AtCaller(o, SendFails), [AtCaller(o, Unlist)] + rest, o);
      steps := [AtCaller(o, SendFails)] + ([AtCaller(o, Unlist)] + rest);
    }
  }

  lemma NeverTwice(s: State, steps: seq<Step>, j: CallId)
    requires Inv(s)
    ensures !LeadsTwice(s, steps, j)
  {
    if EnabledRun(s, steps) && CarefulRun(s, steps) && j in After(s, steps).calls {
      RunKeeps(s, steps);
      var s' := After(s, steps);
      assert CallInv(s', j);
      assert Tally(SlotOf(s', j));
    }
  }

  /** A pooled context whose last call is not past the flag: that call was won and delivered. */
  lemma PooledOwner(s: State, x: CtxId)
    requires Inv(s) && x in s.pool && !PastFlag(s.calls[s.ctxs[x].owner])
    ensures var o := s.ctxs[x].owner;
            && Known(s, o) && s.calls[o].inbound == 1 && o !in s.pending && s.calls[o].ctx == x
            && (s.calls[o].caller == Requesting || s.calls[o].caller == Failing || s.calls[o].caller == Racing(false, false))
  {
    var o := s.ctxs[x].owner;
    assert CallInv(s, o);
    var sl := SlotOf(s, o);
    assert sl.pooled && !Held(sl) && Tally(sl) && Exclusive(sl);
  }

  lemma UnsafeRecycle(s: State, k: CallId, x: CtxId) returns (steps: seq<Step>)
    requires Inv(s) && Enabled(s, Begin(k, x)) && x in s.pool && !Recycles(s, Begin(k, x))
    ensures LeadsTwice(Next(s, Begin(k, x)), steps, s.ctxs[x].owner)
  {
    PooledOwner(s, x);
    steps := StolenLater(Next(s, Begin(k, x)), s.ctxs[x].owner);
  }

  /** Handing out a pooled context is safe for every continuation if and only if the call it
      last served is past the flag. */
  lemma RecycleExact(s: State, k: CallId, x: CtxId)
    requires Inv(s) && Enabled(s, Begin(k, x)) && x in s.pool
    ensures (forall steps, j :: !LeadsTwice(Next(s, Begin(k, x)), steps, j)) <==> Recycles(s, Begin(k, x))
  {
    if Recycles(s, Begin(k, x)) {
      BeginKeeps(s, k, x);
      forall steps, j ensures !LeadsTwice(Next(s, Begin(k, x)), steps, j) {
        NeverTwice(Next(s, Begin(k, x)), steps, j);
      }
    } else {
      var steps := UnsafeRecycle(s, k, x);
    }
  }

  lemma Extend(s: State, step: Step, rest: seq<Step>)
    requires Enabled(s, step) && Recycles(s, step) && EnabledRun(Next(s, step), rest) && CarefulRun(Next(s, step), rest)
    ensures EnabledRun(s, [step] + rest) && CarefulRun(s, [step] + rest)
    ensures After(s, [step] + rest) == After(Next(s, step), rest)
  {
    assert ([step] + rest)[1..] == rest;
  }

  /** The hazard is real: a timeout can put the context back while its AsyncCall still sends. */
  lemma HazardArises(k: CallId, x: CtxId)
    ensures var steps := [Begin(k, x)] + ([AtTimer(k, Fire)] + ([AtTimer(k, Take)] +
                         ([AtTimer(k, TimerOp.Swap)] + ([AtTimer(k, TimerOp.Deliver)] + []))));
            && EnabledRun(START, steps) && CarefulRun(START, steps)
            && var s := After(START, steps);
               && Known(s, k) && s.calls[k].ctx == x && x in s.pool
               && s.ctxs[x].owner == k && s.calls[k].caller == Requesting
  {
    var a, b, c, d, e := Begin(k, x), AtTimer(k, Fire), AtTimer(k, Take), AtTimer(k, TimerOp.Swap), AtTimer(k, TimerOp.Deliver);
    var s1 := Next(START, a);
    var s2 := Next(s1, b);
    var s3 := Next(s2, c);
    var s4 := Next(s3, d);
    assert s4.calls[k].timer == Winning && s4.ctxs[x] == Context(true, k);
    Extend(s4, e, []);
    Extend(s3, d, [e] + []);
    Extend(s2, c, [d] + ([e] + []));
    Extend(s1, b, [c] + ([d] + ([e] + [])));
    Extend(START, a, [b] + ([c] + ([d] + ([e] + []))));
  }
}
