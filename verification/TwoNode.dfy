/** Two nodes that may dial each other at any moment. Both ends run the peer steps; a dial is a
    flight between them: under way, then answered or rejected by the other end, then reported
    back to the dialer. No established connection closes. */
module TwoNode {
  import opened Basics
  import opened Peer

  /** The two ends, by the order of their logical addresses. */
  datatype Side = Small | Large

  datatype Phase = Dialing | Answered | Rejected

  datatype Flight = Flight(dialer: Side, phase: Phase)

  /** `accepted` and `refused` record, in order, the dials each end let through or turned away;
      `torn` records that an answered dial was closed by its own dialer. */
  datatype System = System(
    small: State, large: State, flights: map<Conn, Flight>, next: Conn,
    accepted: seq<(Conn, Side)>, refused: seq<(Conn, Side)>, torn: bool)

  const START := System(IDLE, IDLE, map[], 0, [], [], false)

  datatype Move =
    | SendAt(side: Side, m: Pending, env: Env)
    | Redial(side: Side)
    | ConnectFails(conn: Conn, env: Env)
    | Arrive(conn: Conn, replied: bool, env: Env)
    | Report(conn: Conn, env: Env)

  function End(sys: System, side: Side): State {
    if side == Small then sys.small else sys.large
  }

  function SetEnd(sys: System, side: Side, s: State): System {
    if side == Small then sys.(small := s) else sys.(large := s)
  }

  function Other(side: Side): Side {
    if side == Small then Large else Small
  }

  predicate Enabled(sys: System, mv: Move) {
    match mv
    case SendAt(_, _, _) => true
    case Redial(side) => End(sys, side).retries > 0
    case ConnectFails(c, _) =>
      c in sys.flights && sys.flights[c].phase == Dialing && End(sys, sys.flights[c].dialer).dials > 0
    case Arrive(c, _, _) => c in sys.flights && sys.flights[c].phase == Dialing
    case Report(c, _) =>
      c in sys.flights && sys.flights[c].phase != Dialing && End(sys, sys.flights[c].dialer).dials > 0
  }

  /** A dial that was just started becomes a flight. */
  function Launch(sys: System, side: Side, before: State): System {
    if End(sys, side).dials > before.dials
    then sys.(flights := sys.flights[sys.next := Flight(side, Dialing)], next := sys.next + 1)
    else sys
  }

  function Next(sys: System, mv: Move, max: nat): System
    requires Enabled(sys, mv)
  {
    match mv
    case SendAt(side, m, env) =>
      Launch(SetEnd(sys, side, Send(End(sys, side), m, max, env).0), side, End(sys, side))
    case Redial(side) =>
      var s := End(sys, side);
      Launch(SetEnd(sys, side, s.(retries := s.retries - 1, dials := s.dials + 1)), side, s)
    case ConnectFails(c, env) =>
      var side := sys.flights[c].dialer;
      SetEnd(sys.(flights := sys.flights - {c}), side, DialError(End(sys, side), env).0)
    case Arrive(c, replied, env) =>
      var dialer := sys.flights[c].dialer;
      var at := Other(dialer);
      var s := End(sys, at);
      if Refuses(s, at == Small) then
        sys.(flights := sys.flights[c := Flight(dialer, Rejected)], refused := sys.refused + [(c, dialer)])
      else if !replied then sys.(flights := sys.flights[c := Flight(dialer, Rejected)])
      else
        SetEnd(sys.(flights := sys.flights[c := Flight(dialer, Answered)], accepted := sys.accepted + [(c, dialer)]),
               at, Accept(s, at == Small, c, true, env).0)
    case Report(c, env) =>
      var Flight(side, phase) := sys.flights[c];
      var sys1 := sys.(flights := sys.flights - {c});
      var s := End(sys, side);
      if phase == Rejected then SetEnd(sys1, side, DialError(s, env).0)
      else SetEnd(sys1.(torn := sys.torn || s.socket.Some?), side, DialOk(s, c, env).0)
  }

  /** A full queue whose every message has expired is emptied to make room: the only way to have
      a second dial under way. */
  predicate PurgesAll(s: State, m: Pending, max: nat, env: Env) {
    && s.socket.None? && s.pending != [] && |s.pending| >= max
    && !(m.ctx.None? && m.deadline.Zero?)
    && Survivors(s.pending, true, env) == []
  }

  predicate Ordinary(sys: System, mv: Move, max: nat) {
    mv.SendAt? && mv.side == Small ==> !PurgesAll(sys.small, mv.m, max, mv.env)
  }

  // ---- Invariant ----

  function By(flights: map<Conn, Flight>, side: Side): set<Conn> {
    set c | c in flights && flights[c].dialer == side
  }

  function FlightsOf(sys: System, side: Side): set<Conn> {
    By(sys.flights, side)
  }

  ghost predicate NoneAnsweredBut(sys: System, c: Option<Conn>) {
    forall x :: x in sys.flights && sys.flights[x].phase == Answered ==> c == Some(x)
  }

  /** The dialer `dialer` of the one accepted connection either holds it or is about to be told. */
  ghost predicate Linked(sys: System, c: Conn, dialer: Side) {
    && End(sys, Other(dialer)).socket == Some(c)
    && NoneAnsweredBut(sys, Some(c))
    && (if c in sys.flights
        then sys.flights[c] == Flight(dialer, Answered) && End(sys, dialer).socket.None?
        else End(sys, dialer).socket == Some(c))
    && (dialer == Large ==> sys.small.dials + sys.small.retries == 0)
  }

  ghost predicate LinkInv(sys: System) {
    if sys.accepted == []
    then sys.small.socket.None? && sys.large.socket.None? && NoneAnsweredBut(sys, None)
    else |sys.accepted| == 1 && Linked(sys, sys.accepted[0].0, sys.accepted[0].1)
  }

  ghost predicate EndInv(s: State, max: nat, flights: set<Conn>) {
    Peer.Inv(s, max) && s.running && s.dials == |flights|
  }

  /** The smaller end has at most one dial or retry outstanding, and only while messages wait. */
  predicate SmallInv(s: State) {
    s.dials + s.retries <= 1 && (s.dials + s.retries == 1 ==> s.pending != [])
  }

  ghost predicate Inv(sys: System, max: nat) {
    && EndInv(sys.small, max, FlightsOf(sys, Small))
    && EndInv(sys.large, max, FlightsOf(sys, Large))
    && SmallInv(sys.small)
    && (forall c :: c in sys.flights ==> c < sys.next)
    && (forall p :: p in sys.accepted ==> p.0 < sys.next)
    && LinkInv(sys)
    && (forall p :: p in sys.refused ==> p.1 == Large)
    && !sys.torn
  }

  lemma RemovedFlight(flights: map<Conn, Flight>, c: Conn, side: Side)
    requires c in flights
    ensures |By(flights - {c}, side)| == |By(flights, side)| - if flights[c].dialer == side then 1 else 0
  {
    if flights[c].dialer == side {
      assert By(flights, side) == By(flights - {c}, side) + {c};
    } else {
      assert By(flights, side) == By(flights - {c}, side);
    }
  }

  lemma AddedFlight(flights: map<Conn, Flight>, c: Conn, dialer: Side, side: Side)
    requires c !in flights
    ensures |By(flights[c := Flight(dialer, Dialing)], side)| == |By(flights, side)| + if dialer == side then 1 else 0
  {
    var flights' := flights[c := Flight(dialer, Dialing)];
    assert flights' - {c} == flights;
    RemovedFlight(flights', c, side);
  }

  lemma MovedFlight(flights: map<Conn, Flight>, c: Conn, phase: Phase, side: Side)
    requires c in flights
    ensures By(flights[c := Flight(flights[c].dialer, phase)], side) == By(flights, side)
  {
  }

  /** A flight can always report: its dialer still counts it. */
  lemma FlightCounted(sys: System, c: Conn, max: nat)
    requires Inv(sys, max) && c in sys.flights
    ensures End(sys, sys.flights[c].dialer).dials > 0
  {
    assert c in FlightsOf(sys, sys.flights[c].dialer);
    if FlightsOf(sys, sys.flights[c].dialer) == {} { assert false; }
  }

  lemma SendCounted(sys: System, side: Side, m: Pending, env: Env, max: nat)
    requires EndInv(End(sys, side), max, FlightsOf(sys, side)) && (forall c :: c in sys.flights ==> c < sys.next)
    ensures var sys' := Next(sys, SendAt(side, m, env), max);
            && EndInv(End(sys', side), max, FlightsOf(sys', side))
            && End(sys', Other(side)) == End(sys, Other(side)) && |FlightsOf(sys', Other(side))| == |FlightsOf(sys, Other(side))|
  {
    var sys' := Next(sys, SendAt(side, m, env), max);
    Peer.StepInv(End(sys, side), SendMsg(m, env), max);
    if sys'.next > sys.next {
      AddedFlight(sys.flights, sys.next, side, Small);
      AddedFlight(sys.flights, sys.next, side, Large);
    } else {
      assert sys'.flights == sys.flights;
    }
  }

  /** A send changes no socket, and starts at most one flight. */
  lemma SendShape(sys: System, side: Side, m: Pending, env: Env, max: nat)
    ensures var sys' := Next(sys, SendAt(side, m, env), max);
            && sys'.small.socket == sys.small.socket && sys'.large.socket == sys.large.socket
            && sys'.accepted == sys.accepted && sys'.refused == sys.refused && sys'.torn == sys.torn
            && (sys' == SetEnd(sys, side, End(sys', side))
                || sys' == SetEnd(sys, side, End(sys', side)).(
                             flights := sys.flights[sys.next := Flight(side, Dialing)], next := sys.next + 1))
            && (side == Small && sys.small.socket.Some? ==> sys'.small == sys.small)
  {
  }

  lemma SendSmall(sys: System, side: Side, m: Pending, env: Env, max: nat)
    requires Ordinary(sys, SendAt(side, m, env), max) && SmallInv(sys.small)
    ensures SmallInv(Next(sys, SendAt(side, m, env), max).small)
  {
  }

  lemma NewFlightLinked(sys: System, sys': System, side: Side)
    requires LinkInv(sys) && forall p :: p in sys.accepted ==> p.0 < sys.next
    requires sys'.small.socket == sys.small.socket && sys'.large.socket == sys.large.socket && sys'.accepted == sys.accepted
    requires sys'.flights == sys.flights || sys'.flights == sys.flights[sys.next := Flight(side, Dialing)]
    requires sys.small.socket.Some? ==> sys'.small == sys.small
    ensures LinkInv(sys')
  {
    if sys.accepted != [] {
      assert Linked(sys, sys.accepted[0].0, sys.accepted[0].1);
    }
  }

  lemma SendKeeps(sys: System, side: Side, m: Pending, env: Env, max: nat)
    requires Inv(sys, max) && Ordinary(sys, SendAt(side, m, env), max)
    ensures Inv(Next(sys, SendAt(side, m, env), max), max)
  {
    var sys' := Next(sys, SendAt(side, m, env), max);
    SendCounted(sys, side, m, env, max);
    SendShape(sys, side, m, env, max);
    SendSmall(sys, side, m, env, max);
    NewFlightLinked(sys, sys', side);
  }

  lemma RedialKeeps(sys: System, side: Side, max: nat)
    requires Inv(sys, max) && Enabled(sys, Redial(side))
    ensures Inv(Next(sys, Redial(side), max), max)
  {
    var sys' := Next(sys, Redial(side), max);
    AddedFlight(sys.flights, sys.next, side, Small);
    AddedFlight(sys.flights, sys.next, side, Large);
  }

  lemma DialErrorKeeps(s: State, env: Env, max: nat)
    requires Peer.Inv(s, max) && s.dials > 0 && s.running
    ensures var s' := DialError(s, env).0;
            && Peer.Inv(s', max) && s'.running && s'.socket == s.socket && s'.dials == s.dials - 1
            && (SmallInv(s) ==> SmallInv(s'))
            && s'.dials + s'.retries <= s.dials + s.retries
  {
    Peer.StepInv(s, DialFails(env), max);
  }

  lemma ConnectFailsKeeps(sys: System, c: Conn, env: Env, max: nat)
    requires Inv(sys, max) && Enabled(sys, ConnectFails(c, env))
    ensures Inv(Next(sys, ConnectFails(c, env), max), max)
  {
    var side := sys.flights[c].dialer;
    var sys' := Next(sys, ConnectFails(c, env), max);
    DialErrorKeeps(End(sys, side), env, max);
    RemovedFlight(sys.flights, c, Small);
    RemovedFlight(sys.flights, c, Large);
  }

  lemma RejectedReportKeeps(sys: System, c: Conn, env: Env, max: nat)
    requires Inv(sys, max) && Enabled(sys, Report(c, env)) && sys.flights[c].phase == Rejected
    ensures Inv(Next(sys, Report(c, env), max), max)
  {
    var side := sys.flights[c].dialer;
    var sys' := Next(sys, Report(c, env), max);
    DialErrorKeeps(End(sys, side), env, max);
    RemovedFlight(sys.flights, c, Small);
    RemovedFlight(sys.flights, c, Large);
  }

  /** An answered dial finds its dialer without a connection, so it is never torn down. */
  lemma AnsweredReportKeeps(sys: System, c: Conn, env: Env, max: nat)
    requires Inv(sys, max) && Enabled(sys, Report(c, env)) && sys.flights[c].phase == Answered
    ensures Inv(Next(sys, Report(c, env), max), max)
    ensures End(sys, sys.flights[c].dialer).socket.None?
  {
    var side := sys.flights[c].dialer;
    var sys' := Next(sys, Report(c, env), max);
    assert Linked(sys, c, side);
    Peer.StepInv(End(sys, side), DialSucceeds(c, env), max);
    RemovedFlight(sys.flights, c, Small);
    RemovedFlight(sys.flights, c, Large);
  }

  lemma RejectKeeps(sys: System, c: Conn, refused: seq<(Conn, Side)>, max: nat)
    requires Inv(sys, max) && c in sys.flights && sys.flights[c].phase == Dialing
    requires forall p :: p in refused ==> p.1 == Large
    ensures Inv(sys.(flights := sys.flights[c := Flight(sys.flights[c].dialer, Rejected)], refused := refused), max)
  {
    MovedFlight(sys.flights, c, Rejected, Small);
    MovedFlight(sys.flights, c, Rejected, Large);
  }

  lemma AnswerKeeps(sys: System, c: Conn, env: Env, max: nat)
    requires Inv(sys, max) && c in sys.flights && sys.flights[c].phase == Dialing && sys.accepted == []
    requires var at := Other(sys.flights[c].dialer);
             !Refuses(End(sys, at), at == Small)
    ensures Inv(Next(sys, Arrive(c, true, env), max), max)
  {
    var at := Other(sys.flights[c].dialer);
    FlightCounted(sys, c, max);
    MovedFlight(sys.flights, c, Answered, Small);
    MovedFlight(sys.flights, c, Answered, Large);
    Peer.StepInv(End(sys, at), Incoming(at == Small, c, true, env), max);
  }

  /** The larger end never refuses, and nothing is accepted once a connection exists. */
  lemma Verdict(sys: System, c: Conn, max: nat)
    requires Inv(sys, max) && c in sys.flights && sys.flights[c].phase == Dialing
    ensures var at := Other(sys.flights[c].dialer);
            && (at == Large ==> !Refuses(sys.large, false))
            && (sys.accepted != [] ==> at == Small && Refuses(sys.small, true))
  {
    if sys.flights[c].dialer == Small {
      SmallDialAlone(sys, c, max);
    } else if sys.accepted != [] && sys.accepted[0].0 in sys.flights {
      FlightCounted(sys, sys.accepted[0].0, max);
    }
  }

  lemma ArriveKeeps(sys: System, c: Conn, replied: bool, env: Env, max: nat)
    requires Inv(sys, max) && Enabled(sys, Arrive(c, replied, env))
    ensures Inv(Next(sys, Arrive(c, replied, env), max), max)
  {
    var dialer := sys.flights[c].dialer;
    var at := Other(dialer);
    Verdict(sys, c, max);
    if Refuses(End(sys, at), at == Small) {
      RejectKeeps(sys, c, sys.refused + [(c, dialer)], max);
    } else if !replied {
      RejectKeeps(sys, c, sys.refused, max);
    } else {
      AnswerKeeps(sys, c, env, max);
    }
  }

  /** While the smaller end dials, no connection exists except one it is dialing itself. */
  lemma SmallDialAlone(sys: System, c: Conn, max: nat)
    requires Inv(sys, max) && c in sys.flights && sys.flights[c] == Flight(Small, Dialing)
    ensures sys.accepted == []
  {
    FlightCounted(sys, c, max);
    if sys.accepted != [] {
      var d, dialer := sys.accepted[0].0, sys.accepted[0].1;
      assert Linked(sys, d, dialer);
      if dialer == Small && d in sys.flights {
        assert {c, d} <= FlightsOf(sys, Small);
        CardinalityAtLeast(FlightsOf(sys, Small), c, d);
      }
    }
  }

  lemma CardinalityAtLeast(s: set<Conn>, c: Conn, d: Conn)
    requires c in s && d in s && c != d
    ensures |s| >= 2
  {
    assert s == (s - {c}) + {c};
    assert d in s - {c};
    assert |s - {c}| >= 1;
  }

  lemma MoveKeeps(sys: System, mv: Move, max: nat)
    requires Inv(sys, max) && Enabled(sys, mv) && Ordinary(sys, mv, max)
    ensures Inv(Next(sys, mv, max), max)
  {
    match mv
    case SendAt(side, m, env) => SendKeeps(sys, side, m, env, max);
    case Redial(side) => RedialKeeps(sys, side, max);
    case ConnectFails(c, env) => ConnectFailsKeeps(sys, c, env, max);
    case Arrive(c, replied, env) => ArriveKeeps(sys, c, replied, env, max);
    case Report(c, env) =>
      if sys.flights[c].phase == Rejected {
        RejectedReportKeeps(sys, c, env, max);
      } else {
        AnsweredReportKeeps(sys, c, env, max);
      }
  }

  // ---- Every run ----

  ghost predicate EnabledRun(sys: System, moves: seq<Move>, max: nat)
    decreases |moves|
  {
    moves != [] ==> Enabled(sys, moves[0]) && EnabledRun(Next(sys, moves[0], max), moves[1..], max)
  }

  function After(sys: System, moves: seq<Move>, max: nat): System
    requires EnabledRun(sys, moves, max)
    decreases |moves|
  {
    if moves == [] then sys else After(Next(sys, moves[0], max), moves[1..], max)
  }

  ghost predicate OrdinaryRun(sys: System, moves: seq<Move>, max: nat)
    requires EnabledRun(sys, moves, max)
    decreases |moves|
  {
    moves != [] ==> Ordinary(sys, moves[0], max) && OrdinaryRun(Next(sys, moves[0], max), moves[1..], max)
  }

  /** The two ends never hold different connections; at most one dial is ever accepted, only
      dials of the larger end are ever refused, so crossing dials are never both accepted nor
      both refused; and no accepted connection is torn down. */
  ghost predicate Agreement(sys: System) {
    && (sys.small.socket.Some? && sys.large.socket.Some? ==> sys.small.socket == sys.large.socket)
    && |sys.accepted| <= 1
    && (forall p :: p in sys.refused ==> p.1 == Large)
    && !sys.torn
  }

  lemma StartInv(max: nat)
    ensures Inv(START, max)
  {
    assert FlightsOf(START, Small) == {} && FlightsOf(START, Large) == {};
  }

  lemma {:induction false} RunKeeps(sys: System, moves: seq<Move>, max: nat)
    requires Inv(sys, max) && EnabledRun(sys, moves, max) && OrdinaryRun(sys, moves, max)
    ensures Inv(After(sys, moves, max), max)
    decreases |moves|
  {
    if moves != [] {
      MoveKeeps(sys, moves[0], max);
      RunKeeps(Next(sys, moves[0], max), moves[1..], max);
    }
  }

  /** For every interleaving of sends, dials, failures and retries at both ends, expiring
      messages included, unless a full queue of the smaller end is purged to empty. */
  lemma RunsAgree(moves: seq<Move>, max: nat)
    requires EnabledRun(START, moves, max) && OrdinaryRun(START, moves, max)
    ensures Agreement(After(START, moves, max))
  {
    StartInv(max);
    RunKeeps(START, moves, max);
  }

  /** No end waits for nothing: whenever messages wait at an end, a flight of that end or a
      retry is outstanding. */
  lemma WaitingMeansDialing(moves: seq<Move>, max: nat, side: Side)
    requires EnabledRun(START, moves, max) && OrdinaryRun(START, moves, max)
    ensures var sys := After(START, moves, max);
            End(sys, side).pending != [] ==>
              End(sys, side).retries > 0 || exists c :: c in sys.flights && sys.flights[c].dialer == side
  {
    StartInv(max);
    RunKeeps(START, moves, max);
    var sys := After(START, moves, max);
    if End(sys, side).pending != [] && End(sys, side).retries == 0 {
      assert FlightsOf(sys, side) != {};
      var c :| c in FlightsOf(sys, side);
    }
  }

  /** Every dial that is under way can go on, and one that was answered finds its dialer without a
      connection. */
  lemma FlightsGoOn(moves: seq<Move>, max: nat, c: Conn, env: Env)
    requires EnabledRun(START, moves, max) && OrdinaryRun(START, moves, max) && c in After(START, moves, max).flights
    ensures var sys := After(START, moves, max);
            var Flight(dialer, phase) := sys.flights[c];
            && (phase == Dialing ==> Enabled(sys, Arrive(c, true, env)) && Enabled(sys, ConnectFails(c, env)))
            && (phase != Dialing ==> Enabled(sys, Report(c, env)))
            && (phase == Answered ==> End(sys, dialer).socket.None?)
  {
    StartInv(max);
    RunKeeps(START, moves, max);
    var sys := After(START, moves, max);
    FlightCounted(sys, c, max);
    if sys.flights[c].phase == Answered {
      AnsweredReportKeeps(sys, c, env, max);
    }
  }

  /** And it ends: arriving answers it or turns it away, a failure or a report ends it, and no other
      move touches it. */
  lemma FlightsEnd(sys: System, mv: Move, max: nat, c: Conn)
    requires Enabled(sys, mv) && c in sys.flights && c < sys.next
    ensures var flights := Next(sys, mv, max).flights;
            match mv
            case Arrive(d, _, _) =>
              c in flights && if c == d then flights[c].phase != Dialing && flights[c].dialer == sys.flights[c].dialer
                              else flights[c] == sys.flights[c]
            case ConnectFails(d, _) => if c == d then c !in flights else c in flights && flights[c] == sys.flights[c]
            case Report(d, _) => if c == d then c !in flights else c in flights && flights[c] == sys.flights[c]
            case _ => c in flights && flights[c] == sys.flights[c]
  {
  }

  // ---- The exception is exact ----

  predicate Disagrees(sys: System) {
    sys.small.socket.Some? && sys.large.socket.Some? && sys.small.socket != sys.large.socket
  }

  /** A continuation without further purges that ends in disagreement. */
  ghost predicate LeadsApart(sys: System, moves: seq<Move>, max: nat) {
    EnabledRun(sys, moves, max) && OrdinaryRun(sys, moves, max) && Disagrees(After(sys, moves, max))
  }

  lemma Prepend(sys: System, mv: Move, rest: seq<Move>, max: nat)
    requires Enabled(sys, mv) && Ordinary(sys, mv, max) && LeadsApart(Next(sys, mv, max), rest, max)
    ensures LeadsApart(sys, [mv] + rest, max)
  {
    assert ([mv] + rest)[1..] == rest;
  }

  /** The smaller end waits for nothing but still has the dial `y` out. */
  ghost predicate Exposed(sys: System, y: Conn) {
    && sys.small.socket.None? && sys.small.pending == []
    && y in sys.flights && sys.flights[y] == Flight(Small, Dialing)
    && sys.large.socket.None?
    && (forall c :: c in sys.flights ==> c < sys.next)
  }

  /** Then a dial of the larger end is accepted, and so is `y`. */
  lemma CrossedAccepts(sys: System, y: Conn, c: Conn, max: nat) returns (moves: seq<Move>)
    requires Exposed(sys, y) && sys.large.pending != []
    requires c in sys.flights && sys.flights[c] == Flight(Large, Dialing)
    ensures LeadsApart(sys, moves, max)
  {
    var env := Env(0, {}, true);
    var s1 := Next(sys, Arrive(c, true, env), max);
    assert s1.small.socket == Some(c) && s1.large == sys.large && s1.flights[y] == Flight(Small, Dialing);
    var s2 := Next(s1, Arrive(y, true, env), max);
    assert s2.large.socket == Some(y) && s2.small == s1.small;
    assert LeadsApart(s2, [], max);
    Prepend(s1, Arrive(y, true, env), [], max);
    Prepend(sys, Arrive(c, true, env), [Arrive(y, true, env)] + [], max);
    moves := [Arrive(c, true, env)] + ([Arrive(y, true, env)] + []);
  }

  lemma RedialCrosses(sys: System, y: Conn, max: nat) returns (moves: seq<Move>)
    requires Exposed(sys, y) && sys.large.pending != [] && sys.large.retries > 0
    ensures LeadsApart(sys, moves, max)
  {
    var s1 := Next(sys, Redial(Large), max);
    var rest := CrossedAccepts(s1, y, sys.next, max);
    Prepend(sys, Redial(Large), rest, max);
    moves := [Redial(Large)] + rest;
  }

  lemma SendCrosses(sys: System, y: Conn, max: nat) returns (moves: seq<Move>)
    requires Exposed(sys, y) && sys.large.pending == [] && max > 0
    ensures LeadsApart(sys, moves, max)
  {
    var mv := SendAt(Large, Pending(0, Zero, None), Env(0, {}, true));
    var s1 := Next(sys, mv, max);
    assert s1.large.pending == [] + [mv.m];
    var rest := CrossedAccepts(s1, y, sys.next, max);
    Prepend(sys, mv, rest, max);
    moves := [mv] + rest;
  }

  /** However the larger end stands, it can be brought to dial. */
  lemma ExposedLeadsApart(sys: System, y: Conn, max: nat) returns (moves: seq<Move>)
    requires Exposed(sys, y) && max > 0 && NoneAnsweredBut(sys, None)
    requires EndInv(sys.large, max, FlightsOf(sys, Large))
    ensures LeadsApart(sys, moves, max)
  {
    if sys.large.pending == [] {
      moves := SendCrosses(sys, y, max);
    } else if sys.large.retries > 0 {
      moves := RedialCrosses(sys, y, max);
    } else {
      assert FlightsOf(sys, Large) != {};
      var c :| c in FlightsOf(sys, Large);
      if sys.flights[c].phase == Dialing {
        moves := CrossedAccepts(sys, y, c, max);
      } else {
        var mv := Report(c, Env(0, {}, true));
        var s1 := Next(sys, mv, max);
        var rest;
        if s1.large.pending == [] {
          rest := SendCrosses(s1, y, max);
        } else {
          rest := RedialCrosses(s1, y, max);
        }
        Prepend(sys, mv, rest, max);
        moves := [mv] + rest;
      }
    }
  }

  lemma {:induction false} FilterNone(q: seq<Pending>, keep: Pending -> bool)
    requires forall p :: p in q ==> !keep(p)
    ensures Filter(q, keep) == []
  {
    if q != [] { FilterNone(q[..|q| - 1], keep); }
  }

  /** A moment at which a given message with a deadline or a context has expired. */
  function Later(m: Pending): Env {
    Env(if m.deadline.At? then m.deadline.time + 1 else 0, if m.ctx.Some? then {m.ctx.value} else {}, true)
  }

  lemma DialErrorEmpties(s: State, m: Pending)
    requires s.pending == [m] && s.socket.None? && s.dials > 0
    ensures DialError(s, Later(m)).0 == s.(pending := [], dials := s.dials - 1)
  {
    FilterNone([m], p => !Failed(p, false, Later(m)));
  }

  /** Of two dials of the smaller end, `x` fails after the only message expired. */
  lemma OneDialFails(sys: System, m: Pending, x: Conn, y: Conn, max: nat) returns (moves: seq<Move>)
    requires sys.small.pending == [m] && sys.small.socket.None? && sys.small.dials == 2
    requires x in sys.flights && sys.flights[x].dialer == Small && x != y
    requires y in sys.flights && sys.flights[y] == Flight(Small, Dialing)
    requires sys.large.socket.None? && (forall c :: c in sys.flights ==> c < sys.next)
    requires max > 0 && NoneAnsweredBut(sys, None) && EndInv(sys.large, max, FlightsOf(sys, Large))
    ensures LeadsApart(sys, moves, max)
  {
    var mv := if sys.flights[x].phase == Dialing then ConnectFails(x, Later(m)) else Report(x, Later(m));
    DialErrorEmpties(sys.small, m);
    var s1 := Next(sys, mv, max);
    RemovedFlight(sys.flights, x, Large);
    var rest := ExposedLeadsApart(s1, y, max);
    Prepend(sys, mv, rest, max);
    moves := [mv] + rest;
  }

  /** What the purge does: the queue holds only the new message, and a new dial is out. */
  lemma PurgeDials(sys: System, m: Pending, env: Env, max: nat)
    requires PurgesAll(sys.small, m, max, env) && max > 0
    ensures var sys1 := Next(sys, SendAt(Small, m, env), max);
            && sys1.small == sys.small.(pending := [m], dials := sys.small.dials + 1)
            && sys1 == sys.(small := sys1.small, flights := sys.flights[sys.next := Flight(Small, Dialing)], next := sys.next + 1)
  {
    assert [] + [m] == [m];
  }

  /** Before any connection exists, a purge that empties the smaller end's queue always opens a
      way to disagreement. */
  lemma EarlyPurgeLeadsApart(sys: System, m: Pending, env: Env, max: nat) returns (moves: seq<Move>)
    requires Inv(sys, max) && sys.accepted == [] && PurgesAll(sys.small, m, max, env)
    ensures LeadsApart(Next(sys, SendAt(Small, m, env), max), moves, max)
  {
    var sys1 := Next(sys, SendAt(Small, m, env), max);
    var y := sys.next;
    PurgeDials(sys, m, env, max);
    AddedFlight(sys.flights, sys.next, Small, Large);
    if sys.small.retries == 1 {
      var s2 := Next(sys1, Redial(Small), max);
      AddedFlight(sys1.flights, sys1.next, Small, Large);
      var rest := OneDialFails(s2, m, sys1.next, y, max);
      Prepend(sys1, Redial(Small), rest, max);
      moves := [Redial(Small)] + rest;
    } else {
      assert FlightsOf(sys, Small) != {};
      var x :| x in FlightsOf(sys, Small);
      moves := OneDialFails(sys1, m, x, y, max);
    }
  }

  // ---- A purge after the larger end accepted a connection that its dialer does not know yet ----

  /** The larger end holds `c`, and the smaller end, its message expired, lets a dial `d` in. */
  lemma LateAccept(sys: System, m: Pending, y: Conn, d: Conn, c: Conn, max: nat) returns (moves: seq<Move>)
    requires sys.small.pending == [m] && sys.small.socket.None? && sys.small.dials > 0
    requires y in sys.flights && sys.flights[y] == Flight(Small, Dialing)
    requires d in sys.flights && sys.flights[d] == Flight(Large, Dialing)
    requires sys.large.socket == Some(c) && c != d
    ensures LeadsApart(sys, moves, max)
  {
    var fails, arrives := ConnectFails(y, Later(m)), Arrive(d, true, Env(0, {}, true));
    DialErrorEmpties(sys.small, m);
    var s1 := Next(sys, fails, max);
    var s2 := Next(s1, arrives, max);
    assert s2.small.socket == Some(d) && s2.large == sys.large;
    assert LeadsApart(s2, [], max);
    Prepend(s1, arrives, [], max);
    Prepend(sys, fails, [arrives] + [], max);
    moves := [fails] + ([arrives] + []);
  }

  /** The larger end is dialing or will dial again. */
  ghost predicate LargeDials(sys: System) {
    sys.large.retries > 0 || exists d :: d in sys.flights && sys.flights[d] == Flight(Large, Dialing)
  }

  /** With a connection accepted, only a dialer that has not been told yet can still purge. */
  lemma AcceptedPurge(sys: System, m: Pending, env: Env, max: nat)
    requires Inv(sys, max) && sys.accepted != [] && PurgesAll(sys.small, m, max, env)
    ensures var c := sys.accepted[0].0;
            && sys.large.socket == Some(c) && sys.large.pending == []
            && c in sys.flights && sys.flights[c] == Flight(Small, Answered) && NoneAnsweredBut(sys, Some(c))
  {
    assert Linked(sys, sys.accepted[0].0, sys.accepted[0].1);
  }

  lemma LatePurgeLeadsApart(sys: System, m: Pending, env: Env, max: nat) returns (moves: seq<Move>)
    requires Inv(sys, max) && sys.accepted != [] && PurgesAll(sys.small, m, max, env) && LargeDials(sys)
    ensures LeadsApart(Next(sys, SendAt(Small, m, env), max), moves, max)
  {
    var c := sys.accepted[0].0;
    var sys1 := Next(sys, SendAt(Small, m, env), max);
    AcceptedPurge(sys, m, env, max);
    PurgeDials(sys, m, env, max);
    if sys.large.retries > 0 {
      var s2 := Next(sys1, Redial(Large), max);
      var rest := LateAccept(s2, m, sys.next, sys1.next, c, max);
      Prepend(sys1, Redial(Large), rest, max);
      moves := [Redial(Large)] + rest;
    } else {
      var d :| d in sys.flights && sys.flights[d] == Flight(Large, Dialing);
      moves := LateAccept(sys1, m, sys.next, d, c, max);
    }
  }

  /** The larger end holds `c` and is done dialing; nothing but `c` can still be answered. */
  ghost predicate Settled(sys: System, c: Conn) {
    && sys.large.socket == Some(c) && sys.large.pending == [] && sys.large.retries == 0
    && (sys.small.socket.Some? ==> sys.small.socket == Some(c))
    && (forall x :: x in sys.flights && sys.flights[x].dialer == Large ==> sys.flights[x].phase == Rejected)
    && NoneAnsweredBut(sys, Some(c))
  }

  /** No move ends it, further purges included. */
  lemma SettledKept(sys: System, mv: Move, c: Conn, max: nat)
    requires Settled(sys, c) && Enabled(sys, mv)
    ensures Settled(Next(sys, mv, max), c)
  {
    match mv
    case SendAt(side, m, env) =>
    case Redial(side) =>
    case ConnectFails(x, env) => assert sys.flights[x].dialer == Small;
    case Arrive(x, replied, env) => assert sys.flights[x].dialer == Small;
    case Report(x, env) =>
  }

  lemma {:induction false} SettledRun(sys: System, moves: seq<Move>, c: Conn, max: nat)
    requires Settled(sys, c) && EnabledRun(sys, moves, max)
    ensures Settled(After(sys, moves, max), c)
    decreases |moves|
  {
    if moves != [] {
      SettledKept(sys, moves[0], c, max);
      SettledRun(Next(sys, moves[0], max), moves[1..], c, max);
    }
  }

  // ---- The exact condition ----

  /** The send purges a full queue to empty, and either no connection was accepted yet or the
      larger end may still have a dial accepted. */
  ghost predicate Perilous(sys: System, m: Pending, env: Env, max: nat) {
    PurgesAll(sys.small, m, max, env) && (sys.accepted == [] || LargeDials(sys))
  }

  lemma PurgeLeadsApart(sys: System, m: Pending, env: Env, max: nat) returns (moves: seq<Move>)
    requires Inv(sys, max) && Perilous(sys, m, env, max)
    ensures LeadsApart(Next(sys, SendAt(Small, m, env), max), moves, max)
  {
    if sys.accepted == [] {
      moves := EarlyPurgeLeadsApart(sys, m, env, max);
    } else {
      moves := LatePurgeLeadsApart(sys, m, env, max);
    }
  }

  lemma HarmlessPurge(sys: System, m: Pending, env: Env, max: nat, moves: seq<Move>)
    requires Inv(sys, max) && PurgesAll(sys.small, m, max, env) && !Perilous(sys, m, env, max)
    ensures !LeadsApart(Next(sys, SendAt(Small, m, env), max), moves, max)
  {
    var c := sys.accepted[0].0;
    var sys1 := Next(sys, SendAt(Small, m, env), max);
    AcceptedPurge(sys, m, env, max);
    PurgeDials(sys, m, env, max);
    assert Settled(sys1, c);
    if EnabledRun(sys1, moves, max) {
      SettledRun(sys1, moves, c, max);
    }
  }

  /** In every state of the protocol, a send at the smaller end is safe for every continuation if
      and only if it does not purge a full queue to empty while no connection has been accepted or
      the larger end is still dialing. */
  lemma SendSafeExact(sys: System, m: Pending, env: Env, max: nat)
    requires Inv(sys, max)
    ensures (forall moves :: !LeadsApart(Next(sys, SendAt(Small, m, env), max), moves, max)) <==>
            !Perilous(sys, m, env, max)
  {
    var sys1 := Next(sys, SendAt(Small, m, env), max);
    if Perilous(sys, m, env, max) {
      var moves := PurgeLeadsApart(sys, m, env, max);
    } else {
      forall moves ensures !LeadsApart(sys1, moves, max) {
        if PurgesAll(sys.small, m, max, env) {
          HarmlessPurge(sys, m, env, max, moves);
        } else {
          OrdinarySendSafe(sys, m, env, max, moves);
        }
      }
    }
  }

  lemma OrdinarySendSafe(sys: System, m: Pending, env: Env, max: nat, moves: seq<Move>)
    requires Inv(sys, max) && !PurgesAll(sys.small, m, max, env)
    ensures !LeadsApart(Next(sys, SendAt(Small, m, env), max), moves, max)
  {
    var sys1 := Next(sys, SendAt(Small, m, env), max);
    MoveKeeps(sys, SendAt(Small, m, env), max);
    if EnabledRun(sys1, moves, max) && OrdinaryRun(sys1, moves, max) {
      RunKeeps(sys1, moves, max);
    }
  }

  // ---- The condition arises ----

  const EARLY := Env(0, {}, true)

  /** A message without deadline or context. */
  const PLAIN := Pending(0, Zero, None)

  function Sends(n: nat): seq<Move> {
    if n == 0 then [] else [SendAt(Small, PLAIN, EARLY)] + Sends(n - 1)
  }

  ghost predicate Waiting(s: State, n: nat) {
    s.socket.None? && |s.pending| == n && forall p :: p in s.pending ==> p == PLAIN
  }

  lemma {:induction false} SendsFill(sys: System, n: nat, max: nat)
    requires Waiting(sys.small, |sys.small.pending|) && |sys.small.pending| + n <= max
    ensures EnabledRun(sys, Sends(n), max) && OrdinaryRun(sys, Sends(n), max)
    ensures var sys' := After(sys, Sends(n), max);
            && Waiting(sys'.small, |sys.small.pending| + n) && sys'.accepted == sys.accepted && sys'.large == sys.large
            && (sys.small.pending != [] ==> sys'.flights == sys.flights)
    decreases n
  {
    if n > 0 {
      assert Sends(n)[1..] == Sends(n - 1);
      var sys1 := Next(sys, SendAt(Small, PLAIN, EARLY), max);
      assert sys1.small.pending == sys.small.pending + [PLAIN];
      SendsFill(sys1, n - 1, max);
    }
  }

  /** For every queue limit: that many sends without deadline, then one with a deadline. */
  lemma PurgeHappens(max: nat)
    requires max > 0
    ensures EnabledRun(START, Sends(max), max) && OrdinaryRun(START, Sends(max), max)
    ensures var sys := After(START, Sends(max), max);
            Inv(sys, max) && Perilous(sys, Pending(1, At(5), None), EARLY, max)
  {
    StartInv(max);
    SendsFill(START, max, max);
    RunKeeps(START, Sends(max), max);
    FullQueuePerilous(After(START, Sends(max), max), max);
  }

  lemma Extend(sys: System, mv: Move, rest: seq<Move>, max: nat)
    requires Enabled(sys, mv) && Ordinary(sys, mv, max)
    requires EnabledRun(Next(sys, mv, max), rest, max) && OrdinaryRun(Next(sys, mv, max), rest, max)
    ensures EnabledRun(sys, [mv] + rest, max) && OrdinaryRun(sys, [mv] + rest, max)
    ensures After(sys, [mv] + rest, max) == After(Next(sys, mv, max), rest, max)
  {
    assert ([mv] + rest)[1..] == rest;
  }

  lemma FullQueuePerilous(sys: System, max: nat)
    requires Waiting(sys.small, max) && max > 0
    requires sys.accepted == [] || LargeDials(sys)
    ensures Perilous(sys, Pending(1, At(5), None), EARLY, max)
  {
    FilterNone(sys.small.pending, p => !Failed(p, true, EARLY));
  }

  /** Both ends dial, and the larger accepts the dial of the smaller. */
  lemma CrossingStart(max: nat)
    requires max > 0
    ensures var a, b, c := SendAt(Large, PLAIN, EARLY), SendAt(Small, PLAIN, EARLY), Arrive(1, true, EARLY);
            && Enabled(START, a) && Ordinary(START, a, max)
            && var s1 := Next(START, a, max);
            && Enabled(s1, b) && Ordinary(s1, b, max)
            && var s2 := Next(s1, b, max);
            && Enabled(s2, c)
            && var s3 := Next(s2, c, max);
            && s3.small.pending == [PLAIN] && s3.small.socket.None? && s3.accepted == [(1, Small)]
            && 0 in s3.flights && s3.flights[0] == Flight(Large, Dialing)
  {
    assert [] + [PLAIN] == [PLAIN];
  }

  /** The other case arises too: both ends dial, the larger accepts, and the smaller, not told
      yet, fills its queue. */
  lemma LatePurgeHappens(max: nat)
    requires max > 0
    ensures var moves := [SendAt(Large, PLAIN, EARLY)] + ([SendAt(Small, PLAIN, EARLY)] + ([Arrive(1, true, EARLY)] + Sends(max - 1)));
            && EnabledRun(START, moves, max) && OrdinaryRun(START, moves, max)
            && var sys := After(START, moves, max);
               Inv(sys, max) && sys.accepted != [] && Perilous(sys, Pending(1, At(5), None), EARLY, max)
  {
    var a, b, c := SendAt(Large, PLAIN, EARLY), SendAt(Small, PLAIN, EARLY), Arrive(1, true, EARLY);
    CrossingStart(max);
    var s1 := Next(START, a, max);
    var s2 := Next(s1, b, max);
    var s3 := Next(s2, c, max);
    SendsFill(s3, max - 1, max);
    FullQueuePerilous(After(s3, Sends(max - 1), max), max);
    Extend(s2, c, Sends(max - 1), max);
    Extend(s1, b, [c] + Sends(max - 1), max);
    Extend(START, a, [b] + ([c] + Sends(max - 1)), max);
    StartInv(max);
    RunKeeps(START, [a] + ([b] + ([c] + Sends(max - 1))), max);
  }
}
