/** RPC requests on the serving side: interceptors, the counter of pending responses that a
    graceful stop waits for, and the reply guarded by a compare-and-swap. User code may keep the
    replyer and use it at any time, from any goroutine, any number of times. */
module RpcServer {

  type ReqId = nat

  /** Intercepting: user interceptors run. Counting: the counting interceptor has added one but
      not yet registered the hook that takes it back. InMethod: the method runs. */
  datatype Phase = Intercepting | Counting | InMethod | Over

  /** The one successful reply: flag won, hooks run, response handed to the channel. */
  datatype Answer = Open | Won | Hooked | Sent

  datatype Req = Req(oneway: bool, phase: Phase, counted: bool, hook: bool, answer: Answer, released: bool, responses: nat)

  datatype State = State(reqs: map<ReqId, Req>, counter: int)

  const START := State(map[], 0)

  datatype Step =
    /** Accepted for interception, or turned down at once (stopped, unknown method, bad argument). */
    | Arrive(r: ReqId, oneway: bool, admitted: bool)
    /** A user interceptor says no or panics; nothing is counted. */
    | Veto(r: ReqId)
    | Count(r: ReqId)
    | AddHook(r: ReqId)
    /** The method returns or panics. */
    | MethodEnds(r: ReqId)
    /** Reply or Error, by anyone; only the first wins the flag. */
    | TryReply(r: ReqId)
    | RunHooks(r: ReqId)
    | SendResponse(r: ReqId)

  predicate Enabled(s: State, step: Step) {
    match step
    case Arrive(r, _, _) => r !in s.reqs
    case Veto(r) => r in s.reqs && s.reqs[r].phase == Intercepting
    case Count(r) => r in s.reqs && s.reqs[r].phase == Intercepting
    case AddHook(r) => r in s.reqs && s.reqs[r].phase == Counting
    case MethodEnds(r) => r in s.reqs && s.reqs[r].phase == InMethod
    case TryReply(r) => r in s.reqs
    case RunHooks(r) => r in s.reqs && s.reqs[r].answer == Won
    case SendResponse(r) => r in s.reqs && s.reqs[r].answer == Hooked
  }

  function Set(s: State, r: ReqId, q: Req): State {
    s.(reqs := s.reqs[r := q])
  }

  function Next(s: State, step: Step): State
    requires Enabled(s, step)
  {
    match step
    case Arrive(r, oneway, admitted) =>
      Set(s, r, Req(oneway, if admitted then Intercepting else Over, false, false, Open, false, 0))
    case Veto(r) => Set(s, r, s.reqs[r].(phase := Over))
    case Count(r) => Set(s, r, s.reqs[r].(phase := Counting, counted := true)).(counter := s.counter + 1)
    case AddHook(r) => Set(s, r, s.reqs[r].(phase := InMethod, hook := true))
    case MethodEnds(r) => Set(s, r, s.reqs[r].(phase := Over))
    case TryReply(r) => if s.reqs[r].answer == Open then Set(s, r, s.reqs[r].(answer := Won)) else s
    case RunHooks(r) =>
      var q := s.reqs[r];
      if q.hook then Set(s, r, q.(answer := Hooked, released := true)).(counter := s.counter - 1)
      else Set(s, r, q.(answer := Hooked))
    case SendResponse(r) =>
      var q := s.reqs[r];
      Set(s, r, q.(answer := Sent, responses := if q.oneway then q.responses else q.responses + 1))
  }

  // ---- Invariant ----

  predicate ReqInv(q: Req) {
    && (q.hook ==> q.counted)
    && (q.counted && !q.hook <==> q.phase == Counting)
    && (q.phase == Intercepting ==> !q.counted)
    && (q.released ==> q.hook && (q.answer == Hooked || q.answer == Sent))
    && q.responses == if q.answer == Sent && !q.oneway then 1 else 0
  }

  /** Requests whose count has not been taken back. */
  function Outstanding(s: State): set<ReqId> {
    set r | r in s.reqs && s.reqs[r].counted && !s.reqs[r].released
  }

  /** Counted requests that have not been answered. */
  function Unanswered(s: State): set<ReqId> {
    set r | r in s.reqs && s.reqs[r].counted && (s.reqs[r].answer == Open || s.reqs[r].answer == Won)
  }

  ghost predicate Inv(s: State) {
    && (forall r :: r in s.reqs ==> ReqInv(s.reqs[r]))
    && s.counter == |Outstanding(s)|
  }

  predicate Owes(q: Req) {
    q.counted && !q.released
  }

  lemma SetOwes(s: State, r: ReqId, q: Req, counter: int)
    ensures |Outstanding(Set(s, r, q).(counter := counter))| ==
            |Outstanding(s)| + (if Owes(q) then 1 else 0) - (if r in s.reqs && Owes(s.reqs[r]) then 1 else 0)
  {
    var u, u' := Outstanding(s), Outstanding(Set(s, r, q).(counter := counter));
    assert u' - {r} == u - {r};
    assert |u'| == |u' - {r}| + (if r in u' then 1 else 0);
    assert |u| == |u - {r}| + (if r in u then 1 else 0);
  }

  lemma StepInv(s: State, step: Step)
    requires Inv(s) && Enabled(s, step)
    ensures Inv(Next(s, step))
  {
    var s' := Next(s, step);
    if s' != s {
      assert s' == Set(s, step.r, s'.reqs[step.r]).(counter := s'.counter);
      SetOwes(s, step.r, s'.reqs[step.r], s'.counter);
      if step.r in s.reqs { assert ReqInv(s.reqs[step.r]); }
    }
  }

  ghost predicate EnabledRun(s: State, steps: seq<Step>)
    decreases |steps|
  {
    steps != [] ==> Enabled(s, steps[0]) && EnabledRun(Next(s, steps[0]), steps[1..])
  }

  function After(s: State, steps: seq<Step>): State
    requires EnabledRun(s, steps)
    decreases |steps|
  {
    if steps == [] then s else After(Next(s, steps[0]), steps[1..])
  }

  lemma {:induction false} RunInv(s: State, steps: seq<Step>)
    requires Inv(s) && EnabledRun(s, steps)
    ensures Inv(After(s, steps))
    decreases |steps|
  {
    if steps != [] {
      StepInv(s, steps[0]);
      RunInv(Next(s, steps[0]), steps[1..]);
    }
  }

  /** Over every run, panics and repeated replies included: the counter is never negative, no
      request gets two responses, a oneway request gets none, and an answer is counted down at
      most once. */
  lemma RunSafe(steps: seq<Step>, r: ReqId)
    requires EnabledRun(START, steps)
    ensures After(START, steps).counter >= 0
    ensures r in After(START, steps).reqs ==>
              var q := After(START, steps).reqs[r];
              && q.responses <= 1 && (q.oneway ==> q.responses == 0)
              && (!q.oneway && q.answer == Sent ==> q.responses == 1)
  {
    assert Outstanding(START) == {};
    RunInv(START, steps);
  }

  // ---- When the counter is exact ----

  /** The counting interceptor runs to its end before the answer's hooks do. */
  predicate Punctual(s: State, step: Step)
    requires Enabled(s, step)
  {
    match step
    case Count(r) => s.reqs[r].answer == Open || s.reqs[r].answer == Won
    case RunHooks(r) => s.reqs[r].phase != Counting
    case _ => true
  }

  predicate Exact(s: State) {
    s.counter == |Unanswered(s)|
  }

  predicate Waits(q: Req) {
    q.counted && (q.answer == Open || q.answer == Won)
  }

  /** Changing one request changes the number of unanswered ones by at most one. */
  lemma SetCounts(s: State, r: ReqId, q: Req, counter: int)
    ensures |Unanswered(Set(s, r, q).(counter := counter))| ==
            |Unanswered(s)| + (if Waits(q) then 1 else 0) - (if r in s.reqs && Waits(s.reqs[r]) then 1 else 0)
  {
    var u, u' := Unanswered(s), Unanswered(Set(s, r, q).(counter := counter));
    assert u' - {r} == u - {r};
    assert |u'| == |u' - {r}| + (if r in u' then 1 else 0);
    assert |u| == |u - {r}| + (if r in u then 1 else 0);
  }

  /** From an exact counter, a step leaves it exact if and only if the step is punctual. */
  lemma StepExact(s: State, step: Step)
    requires Inv(s) && Exact(s) && Enabled(s, step)
    ensures Exact(Next(s, step)) <==> Punctual(s, step)
  {
    var s' := Next(s, step);
    if s' != s {
      assert s' == Set(s, step.r, s'.reqs[step.r]).(counter := s'.counter);
      SetCounts(s, step.r, s'.reqs[step.r], s'.counter);
      if step.r in s.reqs { assert ReqInv(s.reqs[step.r]); }
    }
  }

  ghost predicate AlwaysExact(s: State, steps: seq<Step>)
    requires EnabledRun(s, steps)
    decreases |steps|
  {
    Exact(s) && (steps != [] ==> AlwaysExact(Next(s, steps[0]), steps[1..]))
  }

  ghost predicate PunctualRun(s: State, steps: seq<Step>)
    requires EnabledRun(s, steps)
    decreases |steps|
  {
    steps != [] ==> Punctual(s, steps[0]) && PunctualRun(Next(s, steps[0]), steps[1..])
  }

  /** For every run: the counter equals the number of counted, unanswered requests at all times if
      and only if no answer overtakes the counting interceptor. */
  lemma {:induction false} RunExact(s: State, steps: seq<Step>)
    requires Inv(s) && Exact(s) && EnabledRun(s, steps)
    ensures AlwaysExact(s, steps) <==> PunctualRun(s, steps)
    decreases |steps|
  {
    if steps != [] {
      StepExact(s, steps[0]);
      StepInv(s, steps[0]);
      if Punctual(s, steps[0]) {
        RunExact(Next(s, steps[0]), steps[1..]);
      } else {
        assert !Exact(Next(s, steps[0]));
      }
    }
  }

  lemma StartExact()
    ensures Inv(START) && Exact(START)
  {
    assert Outstanding(START) == {} && Unanswered(START) == {};
  }

  /** Counted, answered, and never to be counted down again. */
  predicate Leaked(s: State, r: ReqId) {
    r in s.reqs && s.reqs[r].counted && !s.reqs[r].released && (s.reqs[r].answer == Hooked || s.reqs[r].answer == Sent)
  }

  /** An interceptor that replies and then lets the request pass leaves the counter one too high
      for good: a graceful stop waits forever. */
  lemma {:induction false} LeakStays(s: State, steps: seq<Step>, r: ReqId)
    requires Inv(s) && EnabledRun(s, steps) && Leaked(s, r)
    ensures After(s, steps).counter > 0
    decreases |steps|
  {
    if steps == [] {
      assert r in Outstanding(s);
      assert Outstanding(s) != {};
    } else {
      StepInv(s, steps[0]);
      LeakStays(Next(s, steps[0]), steps[1..], r);
    }
  }

  lemma Extend(s: State, step: Step, rest: seq<Step>)
    requires Enabled(s, step) && EnabledRun(Next(s, step), rest)
    ensures EnabledRun(s, [step] + rest) && After(s, [step] + rest) == After(Next(s, step), rest)
  {
    assert ([step] + rest)[1..] == rest;
  }

  /** The leak arises: an interceptor answers the request and lets it through to the counting one. */
  lemma LeakArises(r: ReqId)
    ensures var steps := [Arrive(r, false, true)] + ([TryReply(r)] + ([RunHooks(r)] + ([Count(r)] + [])));
            EnabledRun(START, steps) && Inv(After(START, steps)) && Leaked(After(START, steps), r)
  {
    var a, b, c, d := Arrive(r, false, true), TryReply(r), RunHooks(r), Count(r);
    var s1 := Next(START, a);
    var s2 := Next(s1, b);
    var s3 := Next(s2, c);
    Extend(s3, d, []);
    Extend(s2, c, [d] + []);
    Extend(s1, b, [c] + ([d] + []));
    Extend(START, a, [b] + ([c] + ([d] + [])));
    StartExact();
    RunInv(START, [a] + ([b] + ([c] + ([d] + []))));
  }

  /** The first reply to a request wins, its hooks and its response follow, and exactly one response
      goes out for a two-way request and none for a oneway one; later replies change nothing. */
  lemma ReplyDelivers(s: State, r: ReqId)
    requires Inv(s) && r in s.reqs && s.reqs[r].answer == Open
    ensures var s1 := Next(s, TryReply(r));
            && Enabled(s1, RunHooks(r)) && Next(s1, TryReply(r)) == s1
            && var s2 := Next(s1, RunHooks(r));
            && Enabled(s2, SendResponse(r)) && Next(s2, TryReply(r)) == s2
            && var s3 := Next(s2, SendResponse(r));
            && Next(s3, TryReply(r)) == s3
            && s3.reqs[r].responses == (if s.reqs[r].oneway then 0 else 1)
            && s3.counter == (if s.reqs[r].hook then s.counter - 1 else s.counter)
  {
    assert ReqInv(s.reqs[r]);
  }

  /** A reply under way can always go on. */
  lemma ReplyNeverStuck(steps: seq<Step>, r: ReqId)
    requires EnabledRun(START, steps) && r in After(START, steps).reqs
    ensures var s := After(START, steps);
            match s.reqs[r].answer
            case Open => Next(s, TryReply(r)).reqs[r].answer == Won
            case Won => Enabled(s, RunHooks(r)) && Next(s, RunHooks(r)).reqs[r].answer == Hooked
            case Hooked => Enabled(s, SendResponse(r)) && Next(s, SendResponse(r)).reqs[r].answer == Sent
            case Sent => s.reqs[r].responses == if s.reqs[r].oneway then 0 else 1
  {
    StartExact();
    RunInv(START, steps);
  }

  /** A request that was turned down at once or vetoed is never counted and never reaches its method,
      whatever follows. */
  lemma {:induction false} RefusedStays(s: State, steps: seq<Step>, r: ReqId)
    requires EnabledRun(s, steps) && r in s.reqs && s.reqs[r].phase == Over && !s.reqs[r].counted
    ensures var s' := After(s, steps);
            r in s'.reqs && s'.reqs[r].phase == Over && !s'.reqs[r].counted
    decreases |steps|
  {
    if steps != [] {
      RefusedStays(Next(s, steps[0]), steps[1..], r);
    }
  }

  /** That is where such a request starts, and where a veto leads from interception. */
  lemma RefusedNeverRuns(s: State, first: Step, steps: seq<Step>, r: ReqId)
    requires Inv(s) && Enabled(s, first) && EnabledRun(Next(s, first), steps)
    requires (first.Arrive? && first.r == r && !first.admitted) || first == Veto(r)
    ensures var s' := After(Next(s, first), steps);
            r in s'.reqs && s'.reqs[r].phase == Over && !s'.reqs[r].counted
  {
    RefusedStays(Next(s, first), steps, r);
  }
}
