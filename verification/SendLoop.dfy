/** The send loop of a socket: it gathers encoded messages in a buffer and writes the buffer out
    when it is large enough or when no more messages are queued. */
module SendLoop {
  import opened Bytes

  /** What a write did: everything, or a prefix before the connection failed. */
  datatype Outcome = Whole | Cut(written: nat)

  /** `taken` are the messages already encoded, `wire` the bytes handed to the connection, `up`
      whether the loop is still running. */
  datatype Loop<M> = Loop(queue: seq<M>, taken: seq<M>, buf: seq<Byte>, total: nat, wire: seq<Byte>, up: bool)

  datatype Act<M> = Push(message: M) | Take(outcome: Outcome) | Die(outcomes: seq<Outcome>)

  function Fresh<M>(): Loop<M> {
    Loop([], [], [], 0, [], true)
  }

  /** Everything the codec produces for these messages, in order. */
  function Encoded<M>(ms: seq<M>, encode: M -> seq<Byte>): seq<Byte> {
    if ms == [] then [] else Encoded(ms[..|ms| - 1], encode) + encode(ms[|ms| - 1])
  }

  function Write<M>(l: Loop<M>, outcome: Outcome): Loop<M> {
    match outcome
    case Whole => l.(wire := l.wire + l.buf, buf := [], total := 0)
    case Cut(n) => l.(wire := l.wire + l.buf[..if n < |l.buf| then n else |l.buf|], up := false)
  }

  function Gather<M>(l: Loop<M>, encode: M -> seq<Byte>): (r: Loop<M>)
    requires l.queue != []
    ensures |r.queue| < |l.queue|
  {
    var bytes := encode(l.queue[0]);
    l.(queue := l.queue[1..], taken := l.taken + [l.queue[0]], buf := l.buf + bytes, total := l.total + |bytes|)
  }

  /** One round of the running loop. */
  function TakeOne<M>(l: Loop<M>, outcome: Outcome, batch: nat, encode: M -> seq<Byte>): Loop<M> {
    if !l.up || l.queue == [] then l
    else
      var g := Gather(l, encode);
      if g.total >= batch || (g.total > 0 && g.queue == []) then Write(g, outcome) else g
  }

  /** The outcome of the next write; the environment may leave the list short. */
  function Next(outcomes: seq<Outcome>): Outcome {
    if outcomes == [] then Whole else outcomes[0]
  }

  function Later(outcomes: seq<Outcome>): seq<Outcome> {
    if outcomes == [] then [] else outcomes[1..]
  }

  /** After the socket was closed: encode what is queued, write, stop. */
  function Drain<M>(l: Loop<M>, outcomes: seq<Outcome>, batch: nat, encode: M -> seq<Byte>): Loop<M>
    decreases |l.queue|
  {
    if !l.up then l
    else if l.queue == [] then
      (if l.total > 0 then Write(l, Next(outcomes)) else l).(up := false)
    else
      var g := Gather(l, encode);
      if g.total >= batch then Drain(Write(g, Next(outcomes)), Later(outcomes), batch, encode)
      else Drain(g, outcomes, batch, encode)
  }

  function Step<M>(l: Loop<M>, a: Act<M>, batch: nat, encode: M -> seq<Byte>): Loop<M> {
    match a
    case Push(m) => l.(queue := l.queue + [m])
    case Take(outcome) => TakeOne(l, outcome, batch, encode)
    case Die(outcomes) => Drain(l, outcomes, batch, encode)
  }

  /** Every message the loop was ever given and has not forgotten. */
  function Known<M>(l: Loop<M>): seq<M> { l.taken + l.queue }

  function New<M>(a: Act<M>): seq<M> {
    if a.Push? then [a.message] else []
  }

  function Run<M>(l: Loop<M>, acts: seq<Act<M>>, batch: nat, encode: M -> seq<Byte>): Loop<M>
    decreases |acts|
  {
    if acts == [] then l else Run(Step(l, acts[0], batch, encode), acts[1..], batch, encode)
  }

  function Pushed<M>(acts: seq<Act<M>>): seq<M> {
    if acts == [] then []
    else New(acts[0]) + Pushed(acts[1..])
  }

  /** The loop has written a prefix of what it took; while running it holds the rest. */
  ghost predicate Inv<M(!new)>(l: Loop<M>, encode: M -> seq<Byte>) {
    && l.wire <= Encoded(l.taken, encode)
    && (l.up ==> l.total == |l.buf| && l.wire + l.buf == Encoded(l.taken, encode))
  }

  /** A running loop never waits for messages while it holds bytes. */
  predicate Prompt<M>(l: Loop<M>) {
    l.up && l.queue == [] ==> l.buf == []
  }

  lemma WriteKeeps<M(!new)>(l: Loop<M>, outcome: Outcome, encode: M -> seq<Byte>)
    requires l.up && Inv(l, encode)
    ensures Inv(Write(l, outcome), encode)
    ensures Write(l, outcome).taken == l.taken && Write(l, outcome).queue == l.queue
  {
    match outcome
    case Whole =>
      assert l.wire + l.buf + [] == Encoded(l.taken, encode);
    case Cut(n) =>
      var k := if n < |l.buf| then n else |l.buf|;
      assert l.wire + l.buf == (l.wire + l.buf[..k]) + l.buf[k..];
  }

  lemma GatherKeeps<M(!new)>(l: Loop<M>, encode: M -> seq<Byte>)
    requires l.up && Inv(l, encode) && l.queue != []
    ensures Inv(Gather(l, encode), encode)
    ensures Gather(l, encode).taken + Gather(l, encode).queue == l.taken + l.queue
  {
    var g := Gather(l, encode);
    assert g.taken[..|g.taken| - 1] == l.taken;
    assert l.wire + (l.buf + encode(l.queue[0])) == (l.wire + l.buf) + encode(l.queue[0]);
  }

  lemma {:induction false} DrainKeeps<M(!new)>(l: Loop<M>, outcomes: seq<Outcome>, batch: nat, encode: M -> seq<Byte>)
    requires Inv(l, encode)
    ensures var d := Drain(l, outcomes, batch, encode);
            Inv(d, encode) && !d.up && d.taken + d.queue == l.taken + l.queue
    decreases |l.queue|
  {
    if l.up {
      if l.queue == [] {
        if l.total > 0 {
          WriteKeeps(l, Next(outcomes), encode);
        }
      } else {
        var g := Gather(l, encode);
        GatherKeeps(l, encode);
        if g.total >= batch {
          WriteKeeps(g, Next(outcomes), encode);
          DrainKeeps(Write(g, Next(outcomes)), Later(outcomes), batch, encode);
        } else {
          DrainKeeps(g, outcomes, batch, encode);
        }
      }
    }
  }

  /** When no write fails, closing the socket still sends everything that was queued. */
  lemma {:induction false} DrainDelivers<M(!new)>(l: Loop<M>, outcomes: seq<Outcome>, batch: nat, encode: M -> seq<Byte>)
    requires l.up && Inv(l, encode) && forall i :: 0 <= i < |outcomes| ==> outcomes[i] == Whole
    ensures var d := Drain(l, outcomes, batch, encode);
            d.queue == [] && d.wire == Encoded(l.taken + l.queue, encode)
    decreases |l.queue|
  {
    if l.queue == [] {
      assert l.taken + l.queue == l.taken;
      assert l.total == 0 ==> l.wire + l.buf == l.wire;
    } else {
      var g := Gather(l, encode);
      GatherKeeps(l, encode);
      if g.total >= batch {
        WriteKeeps(g, Whole, encode);
        DrainDelivers(Write(g, Whole), Later(outcomes), batch, encode);
      } else {
        DrainDelivers(g, outcomes, batch, encode);
      }
    }
  }

  lemma StepKeeps<M(!new)>(l: Loop<M>, a: Act<M>, batch: nat, encode: M -> seq<Byte>)
    requires Inv(l, encode) && Prompt(l)
    ensures var s := Step(l, a, batch, encode);
            && Inv(s, encode) && Prompt(s)
            && Known(s) == Known(l) + New(a)
  {
    match a
    case Push(m) =>
      assert l.taken + (l.queue + [m]) == l.taken + l.queue + [m];
    case Take(outcome) =>
      assert l.taken + l.queue + [] == l.taken + l.queue;
      if l.up && l.queue != [] {
        GatherKeeps(l, encode);
        WriteKeeps(Gather(l, encode), outcome, encode);
      }
    case Die(outcomes) =>
      assert l.taken + l.queue + [] == l.taken + l.queue;
      DrainKeeps(l, outcomes, batch, encode);
  }

  lemma Joined<M>(a: seq<M>, b: seq<M>, c: seq<M>)
    ensures a + b + c == a + (b + c)
  {
  }

  lemma {:induction false} RunKeeps<M(!new)>(l: Loop<M>, acts: seq<Act<M>>, batch: nat, encode: M -> seq<Byte>)
    requires Inv(l, encode) && Prompt(l)
    ensures var s := Run(l, acts, batch, encode);
            Inv(s, encode) && Prompt(s) && Known(s) == Known(l) + Pushed(acts)
    decreases |acts|
  {
    if acts == [] {
      assert Known(l) + [] == Known(l);
    } else {
      var s := Step(l, acts[0], batch, encode);
      StepKeeps(l, acts[0], batch, encode);
      RunKeeps(s, acts[1..], batch, encode);
      Joined(Known(l), New(acts[0]), Pushed(acts[1..]));
    }
  }

  /** Every run of a new loop, for every batch size: messages are encoded in the order they were
      pushed, the bytes on the wire are a prefix of their encodings, and whenever the queue of a
      running loop is empty every byte of every message pushed so far has been written. */
  lemma RunExact<M(!new)>(acts: seq<Act<M>>, batch: nat, encode: M -> seq<Byte>)
    ensures var s := Run(Fresh(), acts, batch, encode);
            && s.taken + s.queue == Pushed(acts)
            && s.wire <= Encoded(s.taken, encode)
            && (s.up && s.queue == [] ==> s.buf == [] && s.wire == Encoded(Pushed(acts), encode))
  {
    var s := Run(Fresh(), acts, batch, encode);
    RunKeeps(Fresh(), acts, batch, encode);
    assert Known(Fresh<M>()) + Pushed(acts) == Pushed(acts);
    if s.up && s.queue == [] {
      assert s.wire + s.buf == s.wire;
      assert s.taken + s.queue == s.taken;
    }
  }

  /** When a round of the running loop writes: if the bytes held, with the new message's, reach the
      batch size, or if nothing more is queued; then it writes everything it holds. Otherwise it
      writes nothing. */
  lemma BatchExact<M(!new)>(l: Loop<M>, batch: nat, encode: M -> seq<Byte>)
    requires l.up && l.queue != [] && Inv(l, encode)
    ensures var held := l.buf + encode(l.queue[0]);
            var r := TakeOne(l, Whole, batch, encode);
            && r.up && r.queue == l.queue[1..] && r.taken == l.taken + [l.queue[0]]
            && (if |held| >= batch || (|l.queue| == 1 && held != []) then r.wire == l.wire + held && r.buf == []
                else r.wire == l.wire && r.buf == held)
  {
  }

  /** The running loop. Its fields hold what `Loop` describes; `Now` is that description. */
  class Sender<M(!new)> {
    var queue: seq<M>
    var buf: seq<Byte>
    var total: nat
    var wire: seq<Byte>
    var up: bool
    ghost var taken: seq<M>
    const batch: nat
    const encode: M -> seq<Byte>

    constructor (batch: nat, encode: M -> seq<Byte>)
      ensures Now() == Fresh() && this.batch == batch && this.encode == encode
    {
      queue, buf, total, wire, up, taken := [], [], 0, [], true, [];
      this.batch, this.encode := batch, encode;
    }

    ghost function Now(): Loop<M>
      reads this
    {
      Loop(queue, taken, buf, total, wire, up)
    }

    method Send(m: M)
      modifies this
      ensures Now() == Step(old(Now()), Push(m), batch, encode)
    {
      queue := queue + [m];
    }

    method Flush(outcome: Outcome) returns (ok: bool)
      modifies this
      ensures Now() == Write(old(Now()), outcome) && ok == outcome.Whole?
    {
      match outcome {
        case Whole =>
          wire := wire + buf;
          buf, total := [], 0;
          ok := true;
        case Cut(n) =>
          wire := wire + buf[..if n < |buf| then n else |buf|];
          up := false;
          ok := false;
      }
    }

    method Encode()
      requires queue != []
      modifies this
      ensures Now() == Gather(old(Now()), encode)
    {
      var o := queue[0];
      queue := queue[1..];
      taken := taken + [o];
      var before := |buf|;
      buf := buf + encode(o);
      total := total + |buf| - before;
    }

    /** The branch that received a message. */
    method OnMessage(outcome: Outcome)
      modifies this
      ensures Now() == Step(old(Now()), Take(outcome), batch, encode)
    {
      if up && queue != [] {
        Encode();
        if total >= batch || (total > 0 && queue == []) {
          var _ := Flush(outcome);
        }
      }
    }

    /** The branch that saw the socket closed. */
    method OnDie(outcomes: seq<Outcome>)
      modifies this
      ensures Now() == Step(old(Now()), Die(outcomes), batch, encode)
    {
      var left := outcomes;
      while up && queue != []
        invariant Drain(Now(), left, batch, encode) == Drain(old(Now()), outcomes, batch, encode)
        decreases |queue|, up
      {
        Encode();
        if total >= batch {
          var _ := Flush(Next(left));
          left := Later(left);
        }
      }
      if up {
        if total > 0 {
          var _ := Flush(Next(left));
        }
        up := false;
      }
    }
  }
}
