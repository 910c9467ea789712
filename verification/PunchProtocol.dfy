/** Both ends of the UDP hole punch on one network. Everything ever sent towards an end stays on
    the wire, and a delivery picks any of it: an order, a repetition or an omission is a choice of
    deliveries. Nothing else can be delivered, and an end sends data only after its punch ended. */
module PunchProtocol {
  import opened UdpPunch

  /** The connector dials (`listen` false), the listener waits (`listen` true). */
  datatype Side = Connector | Listener

  datatype Peer = Idle | Running(end: End)

  datatype World = World(
    connector: Peer,
    listener: Peer,
    toConnector: set<Datagram>,
    toListener: set<Datagram>,
    connectorGot: set<Datagram>,
    listenerGot: set<Datagram>,
    connectorData: set<Datagram>)
  {
    function Of(side: Side): Peer {
      if side.Connector? then connector else listener
    }

    /** What is on the wire towards `side`. */
    function Towards(side: Side): set<Datagram> {
      if side.Connector? then toConnector else toListener
    }
  }

  datatype Tids = Tids(connector: Tid, listener: Tid)

  datatype Step =
    | Enters(side: Side, start: nat)
    | Turns(side: Side, event: Event)
    | SendsData(side: Side, datagram: Datagram)

  const QUIET := World(Idle, Idle, {}, {}, {}, {}, {})

  function TidOf(tids: Tids, side: Side): Tid {
    if side.Connector? then tids.connector else tids.listener
  }

  predicate Possible(world: World, step: Step) {
    match step
    case Enters(side, _) => world.Of(side).Idle?
    case Turns(side, event) =>
      && world.Of(side).Running?
      && Enabled(world.Of(side).end, event)
      && (event.Received? ==> event.datagram in world.Towards(side))
    case SendsData(side, _) => world.Of(side).Running? && world.Of(side).end.Confirmed?
  }

  function Elements(sent: seq<Datagram>): set<Datagram> {
    set d | d in sent
  }

  /** `side` moves to `end` after sending `sent` and reading `got`. */
  function Move(world: World, side: Side, end: End, sent: set<Datagram>, got: set<Datagram>): World {
    if side.Connector? then
      world.(connector := Running(end),
             toListener := world.toListener + sent,
             connectorGot := world.connectorGot + got)
    else
      world.(listener := Running(end),
             toConnector := world.toConnector + sent,
             listenerGot := world.listenerGot + got)
  }

  function Apply(tids: Tids, world: World, step: Step): World
    requires Possible(world, step)
  {
    match step
    case Enters(side, start) =>
      var tid := TidOf(tids, side);
      Move(world, side, Enter(side.Listener?, tid, start), {PunchPacket(PUNCH_PROBE, tid)}, {})
    case Turns(side, event) =>
      var (end, sent) := Turn(world.Of(side).end, event);
      Move(world, side, end, Elements(sent), if event.Received? then {event.datagram} else {})
    case SendsData(side, datagram) =>
      if side.Connector?
      then world.(toListener := world.toListener + {datagram},
                  connectorData := world.connectorData + {datagram})
      else world.(toConnector := world.toConnector + {datagram})
  }

  /** Whatever was sent stays where its receiver may find it, once, again or never. */
  lemma WireKeeps(tids: Tids, world: World, step: Step)
    requires Possible(world, step)
    ensures var after := Apply(tids, world, step);
            && world.toListener <= after.toListener && world.toConnector <= after.toConnector
            && (step.SendsData? ==>
                  step.datagram in if step.side.Connector? then after.toListener else after.toConnector)
  {
  }

  // ---------------------------------------------------------------------------------------------
  // Runs
  // ---------------------------------------------------------------------------------------------

  predicate Feasible(tids: Tids, steps: seq<Step>)
    decreases |steps|, 0
  {
    steps == []
    || (&& Feasible(tids, steps[..|steps| - 1])
        && Possible(Play(tids, steps[..|steps| - 1]), steps[|steps| - 1]))
  }

  function Play(tids: Tids, steps: seq<Step>): World
    requires Feasible(tids, steps)
    decreases |steps|, 1
  {
    if steps == [] then QUIET
    else Apply(tids, Play(tids, steps[..|steps| - 1]), steps[|steps| - 1])
  }

  // ---------------------------------------------------------------------------------------------
  // The invariant
  // ---------------------------------------------------------------------------------------------

  function Probe(tid: Tid): Datagram {
    PunchPacket(PUNCH_PROBE, tid)
  }

  function Ack(tid: Tid): Datagram {
    PunchPacket(PUNCH_ACK, tid)
  }

  /** A probe of `tid`, or the answer to a probe that was received. */
  ghost predicate IsPunchTraffic(datagram: Datagram, tid: Tid, got: set<Datagram>) {
    datagram == Probe(tid) || exists t: Tid :: datagram == Ack(t) && Probe(t) in got
  }

  ghost predicate KeepsIdentity(peer: Peer, listen: bool, tid: Tid) {
    peer.Running? && peer.end.Punching? ==> peer.end.listen == listen && peer.end.tid == tid
  }

  ghost predicate Safe(tids: Tids, world: World) {
    && KeepsIdentity(world.connector, false, tids.connector)
    && KeepsIdentity(world.listener, true, tids.listener)
    && (world.connector.Running? ==> Probe(tids.connector) in world.toListener)
    // Until an end is confirmed it sends nothing but punch traffic.
    && (forall d | d in world.toListener ::
          d in world.connectorData || IsPunchTraffic(d, tids.connector, world.connectorGot))
    && (!Done(world.connector) ==> world.connectorData == {})
    && (!Done(world.listener) ==>
          forall d | d in world.toConnector :: IsPunchTraffic(d, tids.listener, world.listenerGot))
    // The connector stops on the answer to its own probe.
    && (Done(world.connector) ==>
          && world.connector.end.packet == None
          && Probe(tids.connector) in world.listenerGot
          && Ack(tids.connector) in world.connectorGot)
    // The listener stops on data, and only the connector's.
    && (Done(world.listener) ==>
          && Done(world.connector)
          && exists d :: d in world.connectorData && world.listener.end.packet == Some(Buffered(d)))
  }

  predicate Done(peer: Peer) {
    peer.Running? && peer.end.Confirmed?
  }

  // ---------------------------------------------------------------------------------------------
  // What a datagram does to the end that reads it
  // ---------------------------------------------------------------------------------------------

  lemma PacketsDiffer(t: Tid, u: Tid)
    ensures Probe(t) != Ack(u)
    ensures Ack(t) == Ack(u) ==> t == u
  {
    assert Probe(t)[3] == 0x3F && Ack(u)[3] == 0x21;
    TidIffPacket(Ack(t), PUNCH_ACK, t);
    TidIffPacket(Ack(u), PUNCH_ACK, u);
  }

  lemma AnswersProbe(end: End, now: nat, tid: Tid)
    requires end.Punching?
    ensures var next := Turn(end, Received(now, Probe(tid))).0;
            next.Punching? && next.listen == end.listen && next.tid == end.tid
    ensures Turn(end, Received(now, Probe(tid))).1 == [Ack(tid)]
  {
    PacketsDiffer(tid, end.tid);
    TidIffPacket(Probe(tid), PUNCH_ACK, end.tid);
    TidIffPacket(Probe(tid), PUNCH_PROBE, tid);
  }

  lemma ReadsAck(end: End, now: nat, t: Tid)
    requires end.Punching?
    ensures var (next, sent) := Turn(end, Received(now, Ack(t)));
            && sent == []
            && (if !end.listen && t == end.tid then next == Confirmed(None)
                else next.Punching? && next.listen == end.listen && next.tid == end.tid)
  {
    TidIffPacket(Ack(t), PUNCH_ACK, t);
    assert Ack(t)[3] == PUNCH_ACK[3] != PUNCH_PROBE[3];
  }

  /** Punch traffic never confirms an end with data; it answers probes, and it confirms a connector
      only when it is the answer to the connector's own probe. */
  lemma ReadsPunchTraffic(end: End, now: nat, datagram: Datagram, tid: Tid, got: set<Datagram>)
    requires end.Punching? && IsPunchTraffic(datagram, tid, got)
    ensures var (next, sent) := Turn(end, Received(now, datagram));
            && (next.Punching? || (next == Confirmed(None) && !end.listen && datagram == Ack(end.tid)
                                   && Probe(end.tid) in got))
            && (sent == [] || (sent == [Ack(tid)] && datagram == Probe(tid)))
            && (next.Punching? ==> next.listen == end.listen && next.tid == end.tid)
  {
    if datagram == Probe(tid) {
      AnswersProbe(end, now, tid);
    } else {
      var t: Tid :| datagram == Ack(t) && Probe(t) in got;
      ReadsAck(end, now, t);
    }
  }

  /** Whatever a listener reads, it replies only with the answer to a probe it just received, and
      stops only on a datagram, which it hands over as received. */
  lemma ListenerReads(end: End, now: nat, datagram: Datagram)
    requires end.Punching? && end.listen
    ensures var (next, sent) := Turn(end, Received(now, datagram));
            && (if next.Punching? then next.listen && next.tid == end.tid
                else next == Confirmed(Some(Buffered(datagram))))
            && (sent == [] || exists t: Tid :: sent == [Ack(t)] && datagram == Probe(t))
  {
    var data := Buffered(datagram);
    var probe := PunchTid(data, PUNCH_PROBE);
    if probe.Some? {
      TidInRange(data, PUNCH_PROBE);
      TidIffPacket(data, PUNCH_PROBE, probe.value);
      assert datagram == Probe(probe.value);
    }
  }

  /** Everything but reading a datagram keeps an end's identity and sends at most its own probe. */
  lemma OtherTurns(end: End, event: Event)
    requires Enabled(end, event) && !event.Received?
    ensures var (next, sent) := Turn(end, event);
            && (next.TimedOut? || (next.Punching? && next.listen == end.listen && next.tid == end.tid))
            && (sent == [] || sent == [Probe(end.tid)])
  {
  }

  lemma TrafficGrows(datagrams: set<Datagram>, tid: Tid, got: set<Datagram>, more: set<Datagram>)
    requires forall d | d in datagrams :: IsPunchTraffic(d, tid, got)
    ensures forall d | d in datagrams :: IsPunchTraffic(d, tid, got + more)
  {
    forall d | d in datagrams ensures IsPunchTraffic(d, tid, got + more) {
      assert IsPunchTraffic(d, tid, got);
      if d != Probe(tid) {
        var t: Tid :| d == Ack(t) && Probe(t) in got;
        assert Probe(t) in got + more;
      }
    }
  }

  // ---------------------------------------------------------------------------------------------
  // Every step is safe
  // ---------------------------------------------------------------------------------------------

  lemma EnterIsSafe(tids: Tids, world: World, step: Step)
    requires step.Enters? && Possible(world, step) && Safe(tids, world)
    ensures Safe(tids, Apply(tids, world, step))
  {
    var tid := TidOf(tids, step.side);
    assert IsPunchTraffic(Probe(tid), tid, world.connectorGot);
    assert world.connectorGot + {} == world.connectorGot && world.listenerGot + {} == world.listenerGot;
  }

  /** What the connector may do in one turn. */
  ghost predicate ConnectorMoves(tids: Tids, world: World, end: End, sent: set<Datagram>, got: set<Datagram>) {
    && (end.Punching? ==> !end.listen && end.tid == tids.connector)
    && (end.Confirmed? ==> && end.packet == None && Probe(tids.connector) in world.listenerGot
                           && Ack(tids.connector) in got)
    && forall d | d in sent :: IsPunchTraffic(d, tids.connector, got)
  }

  lemma ConnectorTurn(tids: Tids, world: World, event: Event)
    requires Possible(world, Turns(Connector, event)) && Safe(tids, world)
    ensures var (end, sent) := Turn(world.connector.end, event);
            ConnectorMoves(tids, world, end, Elements(sent), if event.Received? then {event.datagram} else {})
  {
    var end := world.connector.end;
    if event.Received? {
      assert IsPunchTraffic(event.datagram, tids.listener, world.listenerGot);
      ReadsPunchTraffic(end, event.now, event.datagram, tids.listener, world.listenerGot);
      assert IsPunchTraffic(Ack(tids.listener), tids.connector, {Probe(tids.listener)});
    } else {
      OtherTurns(end, event);
    }
  }

  lemma ConnectorMoveIsSafe(tids: Tids, world: World, end: End, sent: set<Datagram>, got: set<Datagram>)
    requires Safe(tids, world) && world.connector.Running? && world.connector.end.Punching?
    requires ConnectorMoves(tids, world, end, sent, got)
    ensures Safe(tids, Move(world, Connector, end, sent, got))
  {
    assert world.connectorData == {};
    TrafficGrows(world.toListener, tids.connector, world.connectorGot, got);
    TrafficGrows(sent, tids.connector, got, world.connectorGot);
    assert got + world.connectorGot == world.connectorGot + got;
  }

  /** What the listener may do in one turn. */
  ghost predicate ListenerMoves(tids: Tids, world: World, end: End, sent: set<Datagram>, got: set<Datagram>) {
    && (end.Punching? ==> end.listen && end.tid == tids.listener)
    && (end.Confirmed? ==> exists d :: d in world.connectorData && end.packet == Some(Buffered(d)))
    && forall d | d in sent :: IsPunchTraffic(d, tids.listener, got)
  }

  lemma ListenerTurn(tids: Tids, world: World, event: Event)
    requires Possible(world, Turns(Listener, event)) && Safe(tids, world)
    ensures var (end, sent) := Turn(world.listener.end, event);
            ListenerMoves(tids, world, end, Elements(sent), if event.Received? then {event.datagram} else {})
  {
    var end := world.listener.end;
    if event.Received? {
      var datagram := event.datagram;
      ListenerReads(end, event.now, datagram);
      var (next, sent) := Turn(end, event);
      if datagram !in world.connectorData {
        ReadsPunchTraffic(end, event.now, datagram, tids.connector, world.connectorGot);
      }
      if sent != [] {
        var t: Tid :| sent == [Ack(t)] && datagram == Probe(t);
        assert IsPunchTraffic(Ack(t), tids.listener, {datagram});
      }
    } else {
      OtherTurns(end, event);
    }
  }

  lemma ListenerMoveIsSafe(tids: Tids, world: World, end: End, sent: set<Datagram>, got: set<Datagram>)
    requires Safe(tids, world) && world.listener.Running? && world.listener.end.Punching?
    requires ListenerMoves(tids, world, end, sent, got)
    ensures Safe(tids, Move(world, Listener, end, sent, got))
  {
    TrafficGrows(world.toConnector, tids.listener, world.listenerGot, got);
    TrafficGrows(sent, tids.listener, got, world.listenerGot);
    assert got + world.listenerGot == world.listenerGot + got;
  }

  lemma DataIsSafe(tids: Tids, world: World, step: Step)
    requires step.SendsData? && Possible(world, step) && Safe(tids, world)
    ensures Safe(tids, Apply(tids, world, step))
  {
    if Done(world.listener) {
      var d :| d in world.connectorData && world.listener.end.packet == Some(Buffered(d));
      assert d in Apply(tids, world, step).connectorData;
    }
  }

  lemma StepIsSafe(tids: Tids, world: World, step: Step)
    requires Possible(world, step) && Safe(tids, world)
    ensures Safe(tids, Apply(tids, world, step))
  {
    match step {
      case Enters(_, _) => EnterIsSafe(tids, world, step);
      case SendsData(_, _) => DataIsSafe(tids, world, step);
      case Turns(side, event) =>
        var (end, sent) := Turn(world.Of(side).end, event);
        var got := if event.Received? then {event.datagram} else {};
        if side.Connector? {
          ConnectorTurn(tids, world, event);
          ConnectorMoveIsSafe(tids, world, end, Elements(sent), got);
        } else {
          ListenerTurn(tids, world, event);
          ListenerMoveIsSafe(tids, world, end, Elements(sent), got);
        }
    }
  }

  lemma {:induction false} EveryRunIsSafe(tids: Tids, steps: seq<Step>)
    requires Feasible(tids, steps)
    ensures Safe(tids, Play(tids, steps))
  {
    if steps != [] {
      EveryRunIsSafe(tids, steps[..|steps| - 1]);
      StepIsSafe(tids, Play(tids, steps[..|steps| - 1]), steps[|steps| - 1]);
    }
  }

  // ---------------------------------------------------------------------------------------------
  // What the punch promises
  // ---------------------------------------------------------------------------------------------

  /** In every run, a connector that has stopped with success did so on an acknowledgement, after the
      listener received its probe; it never takes stray data for a confirmation. */
  lemma ConnectorConfirmsRoundTrip(tids: Tids, steps: seq<Step>)
    requires Feasible(tids, steps) && Done(Play(tids, steps).connector)
    ensures var world := Play(tids, steps);
            && world.connector.end.packet == None
            && Probe(tids.connector) in world.listenerGot
            && Ack(tids.connector) in world.connectorGot
  {
    EveryRunIsSafe(tids, steps);
  }

  /** In every run, a listener that has stopped with success did so after the connector, on a datagram
      the connector sent once its own punch was confirmed. */
  lemma ListenerStopsAfterConnector(tids: Tids, steps: seq<Step>)
    requires Feasible(tids, steps) && Done(Play(tids, steps).listener)
    ensures var world := Play(tids, steps);
            && Done(world.connector) && world.connector.end.packet == None
            && exists d :: d in world.connectorData && world.listener.end.packet == Some(Buffered(d))
  {
    EveryRunIsSafe(tids, steps);
  }

  /** While the connector is probing, a listener that entered and has not timed out is still in its
      loop, and answers the connector's probe with the acknowledgement that will stop it. */
  lemma ListenerKeepsAnswering(tids: Tids, steps: seq<Step>, now: nat)
    requires Feasible(tids, steps)
    requires var world := Play(tids, steps);
             && world.connector.Running? && world.connector.end.Punching?
             && world.listener.Running? && !world.listener.end.TimedOut?
    ensures var world := Play(tids, steps);
            var answer := Turns(Listener, Received(now, Probe(tids.connector)));
            && world.listener.end.Punching?
            && Possible(world, answer)
            && Apply(tids, world, answer).listener.end.Punching?
            && Ack(tids.connector) in Apply(tids, world, answer).toConnector
  {
    EveryRunIsSafe(tids, steps);
    var world := Play(tids, steps);
    AnswersProbe(world.listener.end, now, tids.connector);
  }

  /** When an end entered its loop. */
  function EnteredAt(steps: seq<Step>, side: Side): Option<nat> {
    if steps == [] then None
    else
      var last := steps[|steps| - 1];
      if last.Enters? && last.side == side then Some(last.start) else EnteredAt(steps[..|steps| - 1], side)
  }

  /** A running end's deadline is three seconds after it entered its loop. */
  lemma {:induction false} DeadlineKept(tids: Tids, steps: seq<Step>, side: Side)
    requires Feasible(tids, steps)
    ensures var peer := Play(tids, steps).Of(side);
            && (peer.Idle? <==> EnteredAt(steps, side).None?)
            && (peer.Running? && peer.end.Punching? ==>
                  peer.end.deadline == EnteredAt(steps, side).value + 3_000_000_000)
  {
    if steps != [] {
      var init, last := steps[..|steps| - 1], steps[|steps| - 1];
      DeadlineKept(tids, init, side);
      if last.Turns? && last.side == side && !last.event.ProbeDue? {
        TurnKeepsSchedule(Play(tids, init).Of(side).end, last.event);
      }
    }
  }

  /** In every run, an end that is still in its loop times out if it sees its deadline, which it can from
      three seconds after it entered on and not before. */
  lemma RunningEndTimesOut(tids: Tids, steps: seq<Step>, side: Side, now: nat)
    requires Feasible(tids, steps)
    requires var peer := Play(tids, steps).Of(side); peer.Running? && peer.end.Punching?
    ensures EnteredAt(steps, side).Some?
    ensures var out := Turns(side, DeadlineReached(now));
            && (Possible(Play(tids, steps), out) <==> EnteredAt(steps, side).value + 3_000_000_000 <= now)
            && (Possible(Play(tids, steps), out) ==>
                  Apply(tids, Play(tids, steps), out).Of(side) == Running(TimedOut))
  {
    DeadlineKept(tids, steps, side);
  }

  lemma AppendStep(tids: Tids, steps: seq<Step>, step: Step)
    requires Feasible(tids, steps) && Possible(Play(tids, steps), step)
    ensures Feasible(tids, steps + [step])
    ensures Play(tids, steps + [step]) == Apply(tids, Play(tids, steps), step)
  {
    assert (steps + [step])[..|steps|] == steps;
  }

  lemma ConnectorCanConfirm(tids: Tids, steps: seq<Step>, now: nat) returns (more: seq<Step>)
    requires Feasible(tids, steps)
    requires var world := Play(tids, steps);
             && world.connector.Running? && world.connector.end.Punching?
             && world.listener.Running? && world.listener.end.Punching?
    ensures Feasible(tids, steps + more)
    ensures Play(tids, steps + more).connector == Running(Confirmed(None))
    ensures var listener := Play(tids, steps + more).listener; listener.Running? && listener.end.Punching?
  {
    EveryRunIsSafe(tids, steps);
    var world := Play(tids, steps);
    var answer := Turns(Listener, Received(now, Probe(tids.connector)));
    AnswersProbe(world.listener.end, now, tids.connector);
    AppendStep(tids, steps, answer);
    var confirm := Turns(Connector, Received(now, Ack(tids.connector)));
    ReadsAck(world.connector.end, now, tids.connector);
    AppendStep(tids, steps + [answer], confirm);
    more := [answer, confirm];
    assert steps + more == steps + [answer] + [confirm];
  }

  lemma ListenerCanConfirm(tids: Tids, steps: seq<Step>, now: nat, data: Datagram)
      returns (more: seq<Step>)
    requires Feasible(tids, steps)
    requires var world := Play(tids, steps);
             && world.connector == Running(Confirmed(None))
             && world.listener.Running? && world.listener.end.Punching?
    requires 0 < |data| <= RECEIVE_BUFFER
    requires PunchTid(data, PUNCH_ACK).None? && PunchTid(data, PUNCH_PROBE).None?
    ensures Feasible(tids, steps + more)
    ensures Play(tids, steps + more).connector == Running(Confirmed(None))
    ensures Play(tids, steps + more).listener == Running(Confirmed(Some(data)))
  {
    var send, deliver := SendsData(Connector, data), Turns(Listener, Received(now, data));
    AppendStep(tids, steps, send);
    AppendStep(tids, steps + [send], deliver);
    more := [send, deliver];
    assert steps + more == steps + [send] + [deliver];
  }

  lemma StepsAssociate(a: seq<Step>, b: seq<Step>, c: seq<Step>)
    ensures a + (b + c) == a + b + c
  {
  }

  /** The punch never wedges: from any reachable point where both ends are still in their loops,
      one delivery each way confirms the connector, and its first data then confirms the listener. */
  lemma PunchCanComplete(tids: Tids, steps: seq<Step>, now: nat, data: Datagram)
      returns (more: seq<Step>)
    requires Feasible(tids, steps)
    requires var world := Play(tids, steps);
             && world.connector.Running? && world.connector.end.Punching?
             && world.listener.Running? && world.listener.end.Punching?
    requires 0 < |data| <= RECEIVE_BUFFER
    requires PunchTid(data, PUNCH_ACK).None? && PunchTid(data, PUNCH_PROBE).None?
    ensures Feasible(tids, steps + more)
    ensures Play(tids, steps + more).connector == Running(Confirmed(None))
    ensures Play(tids, steps + more).listener == Running(Confirmed(Some(data)))
  {
    var first := ConnectorCanConfirm(tids, steps, now);
    var second := ListenerCanConfirm(tids, steps + first, now, data);
    more := first + second;
    StepsAssociate(steps, first, second);
  }
}
