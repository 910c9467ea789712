/** One end of the UDP hole punch: the packet format, the loop, and when it sends probes. Instants and
    durations are in nanoseconds. */
module UdpPunch {
  import opened Arithmetic

  datatype Option<+T> = None | Some(value: T)

  type Byte = b: int | 0 <= b < 256
  type Datagram = seq<Byte>

  const TID_LIMIT := 0x1_0000_0000_0000_0000
  type Tid = t: nat | t < TID_LIMIT

  // ---------------------------------------------------------------------------------------------
  // The packet format
  // ---------------------------------------------------------------------------------------------

  const PUNCH_PROBE: Datagram := [0x52, 0x44, 0x50, 0x3F] // RDP?
  const PUNCH_ACK: Datagram := [0x52, 0x44, 0x50, 0x21] // RDP!
  const PUNCH_PACKET_LEN := 12
  const RECEIVE_BUFFER := 1500

  function ToLeBytes(value: nat, count: nat): (r: Datagram)
    ensures |r| == count
  {
    if count == 0 then [] else [value % 256] + ToLeBytes(value / 256, count - 1)
  }

  function FromLeBytes(bytes: Datagram): nat {
    if bytes == [] then 0 else bytes[0] + 256 * FromLeBytes(bytes[1..])
  }

  function Pow256(count: nat): nat {
    if count == 0 then 1 else 256 * Pow256(count - 1)
  }

  function PunchPacket(tag: Datagram, tid: Tid): Datagram
    requires |tag| == 4
  {
    tag + ToLeBytes(tid, 8)
  }

  function PunchTid(packet: Datagram, tag: Datagram): Option<nat>
    requires |tag| == 4
  {
    if |packet| != PUNCH_PACKET_LEN || packet[..4] != tag then None else Some(FromLeBytes(packet[4..]))
  }

  lemma {:induction false} LeBytesRoundTrip(value: nat, count: nat)
    requires value < Pow256(count)
    ensures FromLeBytes(ToLeBytes(value, count)) == value
  {
    if count != 0 {
      LeBytesRoundTrip(value / 256, count - 1);
      assert ToLeBytes(value, count)[1..] == ToLeBytes(value / 256, count - 1);
    }
  }

  lemma {:induction false} LeBytesUnique(bytes: Datagram)
    ensures FromLeBytes(bytes) < Pow256(|bytes|)
    ensures ToLeBytes(FromLeBytes(bytes), |bytes|) == bytes
  {
    if bytes != [] {
      var rest := FromLeBytes(bytes[1..]);
      LeBytesUnique(bytes[1..]);
      DivModUnique(bytes[0] + 256 * rest, 256, rest, bytes[0]);
      assert bytes == [bytes[0]] + bytes[1..];
    }
  }

  lemma DivTwice(a: nat, p: nat)
    requires p > 0
    ensures a / 256 / p == a / (256 * p)
  {
    var q, r := a / 256 / p, a / 256 % p;
    assert a / 256 == q * p + r;
    assert a == 256 * (q * p + r) + a % 256;
    assert 256 * (q * p) == q * (256 * p);
    assert 256 * r + a % 256 < 256 * p;
    DivModUnique(a, 256 * p, q, 256 * r + a % 256);
  }

  lemma {:induction false} LeByteAt(value: nat, count: nat, k: nat)
    requires k < count
    ensures Pow256(k) > 0 && ToLeBytes(value, count)[k] == value / Pow256(k) % 256
    decreases k
  {
    if k > 0 {
      LeByteAt(value / 256, count - 1, k - 1);
      DivTwice(value, Pow256(k - 1));
    }
  }

  /** A packet is its tag and then the id, least significant byte first. */
  lemma PacketBytes(tag: Datagram, tid: Tid, k: nat)
    requires |tag| == 4 && k < 8
    ensures |PunchPacket(tag, tid)| == 12 && PunchPacket(tag, tid)[..4] == tag
    ensures Pow256(k) > 0 && PunchPacket(tag, tid)[4 + k] == tid / Pow256(k) % 256
  {
    LeByteAt(tid, 8, k);
  }

  lemma Pow256Of8()
    ensures Pow256(8) == TID_LIMIT
  {
    assert Pow256(4) == 0x1_0000_0000;
    assert Pow256(6) == 0x1_0000_0000_0000;
  }

  /** A packet reads back as a tag's transaction id exactly when it is that tag's packet for it. */
  lemma TidIffPacket(packet: Datagram, tag: Datagram, tid: Tid)
    requires |tag| == 4
    ensures PunchTid(packet, tag) == Some(tid) <==> packet == PunchPacket(tag, tid)
  {
    Pow256Of8();
    LeBytesRoundTrip(tid, 8);
    var made := PunchPacket(tag, tid);
    assert made[..4] == tag && made[4..] == ToLeBytes(tid, 8);
    if PunchTid(packet, tag) == Some(tid) {
      LeBytesUnique(packet[4..]);
      assert packet == packet[..4] + packet[4..];
    }
  }

  lemma TidInRange(packet: Datagram, tag: Datagram)
    requires |tag| == 4
    ensures PunchTid(packet, tag).Some? ==> PunchTid(packet, tag).value < TID_LIMIT
  {
    if PunchTid(packet, tag).Some? {
      Pow256Of8();
      LeBytesUnique(packet[4..]);
    }
  }

  // ---------------------------------------------------------------------------------------------
  // One end of the punch
  // ---------------------------------------------------------------------------------------------

  const MILLISECOND := 1_000_000
  const FIRST_INTERVAL := 20 * MILLISECOND
  const MAX_INTERVAL := 200 * MILLISECOND
  const MAX_TIME := 3_000 * MILLISECOND

  /** What one arm of the loop's `select!` sees. `sent` is the clock after a probe went out. */
  datatype Event =
    | DeadlineReached(now: nat)
    | ProbeDue(now: nat, sent: nat)
    | ReceiveFailed(now: nat)
    | Received(now: nat, datagram: Datagram)

  /** The loop's variables, or how it ended. */
  datatype End =
    | Punching(
        listen: bool,
        tid: Tid,
        retryInterval: nat,
        nextProbe: nat,
        deadline: nat,
        probesSent: nat,
        probesSeen: nat,
        acked: bool,
        recvErrors: nat)
    | Confirmed(packet: Option<Datagram>)
    | TimedOut

  /** The loop as it is entered, one probe already sent at some instant up to `start`. */
  function Enter(listen: bool, tid: Tid, start: nat): End {
    Punching(listen, tid, FIRST_INTERVAL, start + FIRST_INTERVAL, start + MAX_TIME, 1, 0, false, 0)
  }

  predicate Enabled(end: End, event: Event) {
    end.Punching?
    && match event
       case DeadlineReached(now) => end.deadline <= now
       case ProbeDue(now, sent) => end.nextProbe <= now <= sent
       case ReceiveFailed(_) => true
       case Received(_, _) => true
  }

  /** A datagram longer than the buffer is cut to it. */
  function Buffered(datagram: Datagram): Datagram {
    if |datagram| <= RECEIVE_BUFFER then datagram else datagram[..RECEIVE_BUFFER]
  }

  function NextInterval(interval: nat): nat {
    if interval * 3 / 2 < MAX_INTERVAL then interval * 3 / 2 else MAX_INTERVAL
  }

  /** The loop after a datagram, and what it sends in reply. */
  function OnDatagram(end: End, data: Datagram): (End, seq<Datagram>)
    requires end.Punching?
  {
    var ack, probe := PunchTid(data, PUNCH_ACK), PunchTid(data, PUNCH_PROBE);
    if ack == Some(end.tid) then
      (if end.listen then end.(acked := true) else Confirmed(None), [])
    else if probe.Some? then
      TidInRange(data, PUNCH_PROBE);
      (end.(probesSeen := end.probesSeen + 1), [PunchPacket(PUNCH_ACK, probe.value)])
    else if ack.None? && |data| > 0 then
      (Confirmed(Some(data)), [])
    else
      (end, [])
  }

  function Turn(end: End, event: Event): (End, seq<Datagram>)
    requires Enabled(end, event)
  {
    match event
    case DeadlineReached(_) => (TimedOut, [])
    case ProbeDue(_, sent) =>
      var interval := NextInterval(end.retryInterval);
      (end.(retryInterval := interval, nextProbe := sent + interval, probesSent := end.probesSent + 1),
       [PunchPacket(PUNCH_PROBE, end.tid)])
    case ReceiveFailed(_) => (end.(recvErrors := end.recvErrors + 1), [])
    case Received(_, datagram) => OnDatagram(end, Buffered(datagram))
  }

  /** The arms of the loop, as the program executes them. */
  method Select(end: End, event: Event) returns (next: End, sent: seq<Datagram>)
    requires Enabled(end, event)
    ensures (next, sent) == Turn(end, event)
  {
    var retryInterval, nextProbe, probesSent := end.retryInterval, end.nextProbe, end.probesSent;
    var probesSeen, acked, recvErrors := end.probesSeen, end.acked, end.recvErrors;
    sent := [];
    match event {
      case DeadlineReached(_) =>
        return TimedOut, sent;
      case ProbeDue(_, instant) =>
        sent := [PunchPacket(PUNCH_PROBE, end.tid)];
        probesSent := probesSent + 1;
        retryInterval := NextInterval(retryInterval);
        nextProbe := instant + retryInterval;
      case ReceiveFailed(_) =>
        recvErrors := recvErrors + 1;
      case Received(_, datagram) =>
        var data := Buffered(datagram);
        var ack := PunchTid(data, PUNCH_ACK);
        if ack == Some(end.tid) {
          if !end.listen {
            return Confirmed(None), sent;
          }
          acked := true;
        } else {
          var probe := PunchTid(data, PUNCH_PROBE);
          if probe.Some? {
            TidInRange(data, PUNCH_PROBE);
            probesSeen := probesSeen + 1;
            sent := [PunchPacket(PUNCH_ACK, probe.value)];
          } else if ack.None? && |data| > 0 {
            return Confirmed(Some(data)), sent;
          }
        }
    }
    next := Punching(end.listen, end.tid, retryInterval, nextProbe, end.deadline,
                     probesSent, probesSeen, acked, recvErrors);
  }

  // ---------------------------------------------------------------------------------------------
  // The probe schedule, whatever the peer sends
  // ---------------------------------------------------------------------------------------------

  function Clock(event: Event): nat {
    if event.ProbeDue? then event.sent else event.now
  }

  function LastOf(trace: seq<Event>): Event
    requires trace != []
  {
    trace[|trace| - 1]
  }

  function InitOf(trace: seq<Event>): seq<Event>
    requires trace != []
  {
    trace[..|trace| - 1]
  }

  /** The events one end's loop can go through: each enabled in turn, on a clock that never runs
      backwards. The peer and the network choose everything else. */
  predicate Feasible(listen: bool, tid: Tid, start: nat, trace: seq<Event>)
    decreases |trace|, 0
  {
    trace == []
    || (&& Feasible(listen, tid, start, InitOf(trace))
        && Enabled(Punch(listen, tid, start, InitOf(trace)), LastOf(trace))
        && (if InitOf(trace) == [] then start else Clock(LastOf(InitOf(trace)))) <= LastOf(trace).now)
  }

  function Punch(listen: bool, tid: Tid, start: nat, trace: seq<Event>): End
    requires Feasible(listen, tid, start, trace)
    decreases |trace|, 1
  {
    if trace == [] then Enter(listen, tid, start)
    else Turn(Punch(listen, tid, start, InitOf(trace)), LastOf(trace)).0
  }

  // ---------------------------------------------------------------------------------------------
  // How a loop ends, and what it counts and answers
  // ---------------------------------------------------------------------------------------------

  /** The first 1500 bytes of a datagram. */
  predicate IsRead(datagram: Datagram, data: Datagram) {
    data == if |datagram| > 1500 then datagram[..1500] else datagram
  }

  /** An event that ends the loop of an end, and how. */
  ghost predicate Ends(listen: bool, tid: Tid, event: Event, how: End) {
    match event
    case DeadlineReached(_) => how == TimedOut
    case ProbeDue(_, _) => false
    case ReceiveFailed(_) => false
    case Received(_, datagram) =>
      exists data: Datagram | IsRead(datagram, data) ::
        if data == PunchPacket(PUNCH_ACK, tid) then !listen && how == Confirmed(None)
        else && how == Confirmed(Some(data)) && data != []
             && forall t: Tid :: data != PunchPacket(PUNCH_ACK, t) && data != PunchPacket(PUNCH_PROBE, t)
  }

  lemma NoTid(data: Datagram, tag: Datagram)
    requires |tag| == 4
    ensures PunchTid(data, tag).None? <==> forall t: Tid :: data != PunchPacket(tag, t)
  {
    forall t: Tid ensures PunchTid(data, tag) == Some(t) <==> data == PunchPacket(tag, t) {
      TidIffPacket(data, tag, t);
    }
    if PunchTid(data, tag).Some? {
      TidInRange(data, tag);
      TidIffPacket(data, tag, PunchTid(data, tag).value);
    }
  }

  lemma TurnEnds(end: End, event: Event, how: End)
    requires Enabled(end, event) && !how.Punching?
    ensures Turn(end, event).0 == how <==> Ends(end.listen, end.tid, event, how)
  {
    if event.Received? {
      var data := Buffered(event.datagram);
      assert IsRead(event.datagram, data);
      TidIffPacket(data, PUNCH_ACK, end.tid);
      NoTid(data, PUNCH_ACK);
      NoTid(data, PUNCH_PROBE);
    }
  }

  /** In every trace: a loop has timed out exactly if its last event is the deadline; has confirmed
      without data exactly if it is a connector's and the last event is the answer to its own probe; and
      has confirmed with data exactly if its last event is that data, cut to 1500 bytes, which is neither
      empty nor a probe nor an answer. */
  lemma LoopEndsIff(listen: bool, tid: Tid, start: nat, trace: seq<Event>, how: End)
    requires Feasible(listen, tid, start, trace) && !how.Punching?
    ensures Punch(listen, tid, start, trace) == how <==> trace != [] && Ends(listen, tid, LastOf(trace), how)
  {
    if trace != [] {
      ScheduleInvariant(listen, tid, start, InitOf(trace));
      TurnEnds(Punch(listen, tid, start, InitOf(trace)), LastOf(trace), how);
    }
  }

  /** In particular, the deadline ends the loop, and nothing else makes it time out. */
  lemma TimesOutIff(listen: bool, tid: Tid, start: nat, trace: seq<Event>)
    requires Feasible(listen, tid, start, trace)
    ensures Punch(listen, tid, start, trace) == TimedOut <==> trace != [] && LastOf(trace).DeadlineReached?
  {
    LoopEndsIff(listen, tid, start, trace, TimedOut);
  }

  ghost predicate IsProbeEvent(event: Event) {
    event.Received? && exists t: Tid :: IsRead(event.datagram, PunchPacket(PUNCH_PROBE, t))
  }

  predicate IsOwnAckEvent(event: Event, tid: Tid) {
    event.Received? && IsRead(event.datagram, PunchPacket(PUNCH_ACK, tid))
  }

  ghost function ProbesIn(trace: seq<Event>): nat {
    if trace == [] then 0 else ProbesIn(InitOf(trace)) + if IsProbeEvent(LastOf(trace)) then 1 else 0
  }

  function FailuresIn(trace: seq<Event>): nat {
    if trace == [] then 0 else FailuresIn(InitOf(trace)) + if LastOf(trace).ReceiveFailed? then 1 else 0
  }

  predicate OwnAckIn(trace: seq<Event>, tid: Tid) {
    trace != [] && (OwnAckIn(InitOf(trace), tid) || IsOwnAckEvent(LastOf(trace), tid))
  }

  lemma TurnCounts(end: End, event: Event)
    requires Enabled(end, event) && Turn(end, event).0.Punching?
    ensures var next := Turn(end, event).0;
            && next.probesSeen == end.probesSeen + (if IsProbeEvent(event) then 1 else 0)
            && next.recvErrors == end.recvErrors + (if event.ReceiveFailed? then 1 else 0)
            && (next.acked <==> end.acked || IsOwnAckEvent(event, end.tid))
  {
    if event.Received? {
      var data := Buffered(event.datagram);
      TidIffPacket(data, PUNCH_ACK, end.tid);
      NoTid(data, PUNCH_PROBE);
      TagsDiffer(data, PUNCH_ACK, PUNCH_PROBE);
    }
  }

  /** While the loop runs, it has counted the probes it received, the failed receives and its own timed
      probes, and has noted whether its own probe was answered. */
  lemma {:induction false} LoopCounts(listen: bool, tid: Tid, start: nat, trace: seq<Event>)
    requires Feasible(listen, tid, start, trace) && Punch(listen, tid, start, trace).Punching?
    ensures var end := Punch(listen, tid, start, trace);
            && end.probesSent == 1 + TimedProbes(trace)
            && end.probesSeen == ProbesIn(trace) && end.recvErrors == FailuresIn(trace)
            && (end.acked <==> OwnAckIn(trace, tid))
  {
    ScheduleInvariant(listen, tid, start, trace);
    if trace != [] {
      LoopCounts(listen, tid, start, InitOf(trace));
      ScheduleInvariant(listen, tid, start, InitOf(trace));
      TurnCounts(Punch(listen, tid, start, InitOf(trace)), LastOf(trace));
    }
  }

  /** What one event makes an end send: a timed probe its probe, a peer's probe the answer to it, and
      nothing else anything. */
  lemma SendsIff(end: End, event: Event, datagram: Datagram)
    requires Enabled(end, event)
    ensures datagram in Turn(end, event).1
       <==> || (event.ProbeDue? && datagram == PunchPacket(PUNCH_PROBE, end.tid))
            || (event.Received? && exists t: Tid ::
                  && IsRead(event.datagram, PunchPacket(PUNCH_PROBE, t))
                  && datagram == PunchPacket(PUNCH_ACK, t))
    ensures |Turn(end, event).1| <= 1
  {
    if event.Received? {
      var data := Buffered(event.datagram);
      var probe := PunchTid(data, PUNCH_PROBE);
      forall t: Tid ensures probe == Some(t) <==> data == PunchPacket(PUNCH_PROBE, t) {
        TidIffPacket(data, PUNCH_PROBE, t);
      }
      TidIffPacket(data, PUNCH_ACK, end.tid);
      TagsDiffer(data, PUNCH_ACK, PUNCH_PROBE);
      if probe.Some? {
        TidInRange(data, PUNCH_PROBE);
        assert IsRead(event.datagram, PunchPacket(PUNCH_PROBE, probe.value));
      }
    }
  }

  lemma TagsDiffer(data: Datagram, tag: Datagram, other: Datagram)
    requires |tag| == 4 && |other| == 4 && tag != other
    ensures PunchTid(data, tag).None? || PunchTid(data, other).None?
  {
  }

  /** The interval in force after `k` timed probes. */
  function Interval(k: nat): nat {
    if k == 0 then FIRST_INTERVAL else NextInterval(Interval(k - 1))
  }

  /** The earliest offset from the start at which timed probe `k` (from 1) can fire. */
  function Earliest(k: nat): nat {
    if k == 0 then 0 else Earliest(k - 1) + Interval(k - 1)
  }

  function TimedProbes(trace: seq<Event>): nat {
    if trace == [] then 0
    else TimedProbes(InitOf(trace)) + if LastOf(trace).ProbeDue? then 1 else 0
  }

  /** Timed probes that fired at an instant no later than `limit`. */
  function TimedProbesBy(trace: seq<Event>, limit: nat): nat {
    if trace == [] then 0
    else TimedProbesBy(InitOf(trace), limit)
         + if LastOf(trace).ProbeDue? && LastOf(trace).now <= limit then 1 else 0
  }

  lemma {:induction false} IntervalBounds(k: nat)
    ensures 20_000_000 <= Interval(k) <= 200_000_000
    ensures Interval(k) <= Interval(k + 1)
    ensures k >= 6 ==> Interval(k) == 200_000_000
  {
    if k > 0 {
      IntervalBounds(k - 1);
    }
    if k == 6 {
      FirstIntervals();
    }
  }

  lemma FirstIntervals()
    ensures Interval(6) == 200_000_000
  {
    assert Interval(2) == 45_000_000;
    assert Interval(4) == 101_250_000;
  }

  /** Only a timed probe touches the schedule; nothing else the loop sees can. */
  lemma TurnKeepsSchedule(end: End, event: Event)
    requires Enabled(end, event) && !event.ProbeDue?
    ensures var next := Turn(end, event).0;
            next.Punching?
            ==> && next.listen == end.listen && next.tid == end.tid && next.deadline == end.deadline
                && next.retryInterval == end.retryInterval && next.nextProbe == end.nextProbe
                && next.probesSent == end.probesSent
  {
  }

  ghost predicate OnSchedule(end: End, listen: bool, tid: Tid, start: nat, probes: nat) {
    end.Punching?
    ==> && end.listen == listen && end.tid == tid && end.deadline == start + MAX_TIME
        && end.retryInterval == Interval(probes)
        && end.probesSent == probes + 1
        && start + Earliest(probes + 1) <= end.nextProbe
  }

  lemma ProbeKeepsSchedule(end: End, event: Event, listen: bool, tid: Tid, start: nat, probes: nat)
    requires Enabled(end, event) && event.ProbeDue? && OnSchedule(end, listen, tid, start, probes)
    ensures OnSchedule(Turn(end, event).0, listen, tid, start, probes + 1)
  {
    assert Interval(probes + 1) == NextInterval(Interval(probes));
    assert Earliest(probes + 2) == Earliest(probes + 1) + Interval(probes + 1);
  }

  /** The interval depends on the number of timed probes alone, and the next probe is never due
      before the schedule allows. */
  lemma {:induction false} ScheduleInvariant(listen: bool, tid: Tid, start: nat, trace: seq<Event>)
    requires Feasible(listen, tid, start, trace)
    ensures OnSchedule(Punch(listen, tid, start, trace), listen, tid, start, TimedProbes(trace))
  {
    if trace == [] {
      assert Earliest(1) == Earliest(0) + Interval(0);
    } else {
      ScheduleInvariant(listen, tid, start, InitOf(trace));
      var before := Punch(listen, tid, start, InitOf(trace));
      if LastOf(trace).ProbeDue? {
        ProbeKeepsSchedule(before, LastOf(trace), listen, tid, start, TimedProbes(InitOf(trace)));
      } else {
        TurnKeepsSchedule(before, LastOf(trace));
      }
    }
  }

  lemma EarliestAroundDeadline()
    ensures Earliest(18) <= MAX_TIME < Earliest(19)
  {
    assert Interval(1) == 30_000_000;
    assert Interval(2) == 45_000_000;
    assert Interval(3) == 67_500_000;
    assert Interval(4) == 101_250_000;
    assert Interval(5) == 151_875_000;
    assert Interval(6) == MAX_INTERVAL;
    assert Earliest(3) == 95_000_000;
    assert Earliest(6) == 415_625_000;
    EarliestAtMaximum(6, 12);
    EarliestAtMaximum(6, 13);
  }

  lemma {:induction false} EarliestAtMaximum(k: nat, n: nat)
    requires Interval(k) == MAX_INTERVAL
    ensures Interval(k + n) == MAX_INTERVAL
    ensures Earliest(k + n) == Earliest(k) + n * MAX_INTERVAL
  {
    if n > 0 {
      EarliestAtMaximum(k, n - 1);
    }
  }

  lemma {:induction false} EarliestMonotone(k: nat, n: nat)
    requires k <= n
    ensures Earliest(k) <= Earliest(n)
  {
    if k < n {
      EarliestMonotone(k, n - 1);
    }
  }

  lemma FewFitBeforeDeadline(k: nat)
    requires Earliest(k) <= MAX_TIME
    ensures k <= 18
  {
    if k >= 19 {
      EarliestAroundDeadline();
      EarliestMonotone(19, k);
    }
  }

  /** Whatever the peer sends, at most 18 timed probes - 19 with the initial one - fire at instants
      no later than the deadline. */
  lemma {:induction false} ProbesByDeadline(listen: bool, tid: Tid, start: nat, trace: seq<Event>)
    requires Feasible(listen, tid, start, trace)
    ensures TimedProbesBy(trace, start + MAX_TIME) <= TimedProbes(trace)
    ensures TimedProbesBy(trace, start + MAX_TIME) <= 18
  {
    if trace != [] {
      ProbesByDeadline(listen, tid, start, InitOf(trace));
      if LastOf(trace).ProbeDue? && LastOf(trace).now <= start + MAX_TIME {
        ScheduleInvariant(listen, tid, start, InitOf(trace));
        FewFitBeforeDeadline(TimedProbes(InitOf(trace)) + 1);
      }
    }
  }

  /** A loop that sees nothing but its first `k` timed probes, each the moment it is due. */
  function Punctual(start: nat, k: nat): seq<Event> {
    if k == 0 then []
    else Punctual(start, k - 1) + [ProbeDue(start + Earliest(k), start + Earliest(k))]
  }

  lemma {:induction false} PunctualRuns(listen: bool, tid: Tid, start: nat, k: nat)
    ensures Feasible(listen, tid, start, Punctual(start, k)) && TimedProbes(Punctual(start, k)) == k
    ensures var end := Punch(listen, tid, start, Punctual(start, k));
            end.Punching? && end.nextProbe == start + Earliest(k + 1)
    ensures k > 0 ==> Clock(LastOf(Punctual(start, k))) == start + Earliest(k)
  {
    assert Earliest(k + 1) == Earliest(k) + Interval(k);
    if k > 0 {
      var before, trace := Punctual(start, k - 1), Punctual(start, k);
      PunctualRuns(listen, tid, start, k - 1);
      ScheduleInvariant(listen, tid, start, before);
      assert InitOf(trace) == before;
      EarliestMonotone(k - 1, k);
    }
  }

  lemma {:induction false} PunctualCount(start: nat, k: nat, limit: nat)
    requires start + Earliest(k) <= limit
    ensures TimedProbesBy(Punctual(start, k), limit) == k
  {
    if k > 0 {
      EarliestMonotone(k - 1, k);
      PunctualCount(start, k - 1, limit);
      assert InitOf(Punctual(start, k)) == Punctual(start, k - 1);
    }
  }

  /** The bound is reached: a loop that hears nothing, and whose timers fire on time, sends any number
      of timed probes up to eighteen by its deadline. */
  lemma UpToEighteenFit(listen: bool, tid: Tid, start: nat, k: nat)
    requires k <= 18
    ensures Feasible(listen, tid, start, Punctual(start, k))
    ensures TimedProbesBy(Punctual(start, k), start + MAX_TIME) == k
  {
    PunctualRuns(listen, tid, start, k);
    FitBeforeDeadline(k);
    PunctualCount(start, k, start + MAX_TIME);
  }

  lemma FitBeforeDeadline(k: nat)
    requires k <= 18
    ensures Earliest(k) <= MAX_TIME
  {
    EarliestAroundDeadline();
    EarliestMonotone(k, 18);
  }

  lemma AfterProbe(listen: bool, tid: Tid, start: nat, trace: seq<Event>)
    requires Feasible(listen, tid, start, trace) && trace != [] && LastOf(trace).ProbeDue?
    ensures var end := Punch(listen, tid, start, trace);
            end.Punching? && end.nextProbe == LastOf(trace).sent + Interval(TimedProbes(trace))
    ensures LastOf(trace).now <= LastOf(trace).sent
    ensures Punch(listen, tid, start, InitOf(trace)).Punching?
    ensures Punch(listen, tid, start, InitOf(trace)).nextProbe <= LastOf(trace).now
  {
    ScheduleInvariant(listen, tid, start, InitOf(trace));
    assert Interval(TimedProbes(trace)) == NextInterval(Interval(TimedProbes(InitOf(trace))));
  }

  /** Consecutive timed probes are at least the interval then in force apart. */
  lemma ProbesApart(listen: bool, tid: Tid, start: nat, trace: seq<Event>, i: nat, j: nat)
    requires Feasible(listen, tid, start, trace)
    requires i < j < |trace| && trace[i].ProbeDue? && trace[j].ProbeDue?
    requires TimedProbes(trace[..j]) == TimedProbes(trace[..i]) + 1
    ensures trace[i].now + Interval(TimedProbes(trace[..j])) <= trace[j].now
  {
    AroundProbe(listen, tid, start, trace, i);
    AroundProbe(listen, tid, start, trace, j);
    NextProbeKept(listen, tid, start, trace, i + 1, j);
  }

  lemma AroundProbe(listen: bool, tid: Tid, start: nat, trace: seq<Event>, i: nat)
    requires Feasible(listen, tid, start, trace) && i < |trace| && trace[i].ProbeDue?
    ensures Feasible(listen, tid, start, trace[..i]) && Feasible(listen, tid, start, trace[..i + 1])
    ensures Punch(listen, tid, start, trace[..i]).Punching? && Punch(listen, tid, start, trace[..i + 1]).Punching?
    ensures Punch(listen, tid, start, trace[..i]).nextProbe <= trace[i].now
    ensures Punch(listen, tid, start, trace[..i + 1]).nextProbe >= trace[i].now + Interval(TimedProbes(trace[..i + 1]))
    ensures TimedProbes(trace[..i + 1]) == TimedProbes(trace[..i]) + 1
  {
    PrefixFeasible(listen, tid, start, trace, i + 1);
    assert InitOf(trace[..i + 1]) == trace[..i] && LastOf(trace[..i + 1]) == trace[i];
    AfterProbe(listen, tid, start, trace[..i + 1]);
  }

  lemma {:induction false} PrefixFeasible(listen: bool, tid: Tid, start: nat, trace: seq<Event>, n: nat)
    requires Feasible(listen, tid, start, trace) && n <= |trace|
    ensures Feasible(listen, tid, start, trace[..n])
    decreases |trace| - n
  {
    if n == |trace| {
      assert trace[..n] == trace;
    } else {
      PrefixFeasible(listen, tid, start, trace, n + 1);
      assert InitOf(trace[..n + 1]) == trace[..n];
    }
  }

  lemma {:induction false} TimedProbesMonotone(trace: seq<Event>, i: nat, j: nat)
    requires i <= j <= |trace|
    ensures TimedProbes(trace[..i]) <= TimedProbes(trace[..j])
  {
    if i < j {
      TimedProbesMonotone(trace, i, j - 1);
      assert InitOf(trace[..j]) == trace[..j - 1];
    }
  }

  /** Only a timed probe moves the next one. */
  lemma {:induction false} NextProbeKept(listen: bool, tid: Tid, start: nat, trace: seq<Event>, i: nat, j: nat)
    requires i <= j <= |trace| && Feasible(listen, tid, start, trace)
    requires Feasible(listen, tid, start, trace[..i]) && Feasible(listen, tid, start, trace[..j])
    requires TimedProbes(trace[..i]) == TimedProbes(trace[..j])
    requires Punch(listen, tid, start, trace[..j]).Punching?
    ensures Punch(listen, tid, start, trace[..i]).Punching?
    ensures Punch(listen, tid, start, trace[..i]).nextProbe == Punch(listen, tid, start, trace[..j]).nextProbe
    decreases j - i
  {
    if i < j {
      assert InitOf(trace[..j]) == trace[..j - 1];
      TimedProbesMonotone(trace, i, j - 1);
      PrefixFeasible(listen, tid, start, trace, j - 1);
      TurnKeepsSchedule(Punch(listen, tid, start, trace[..j - 1]), LastOf(trace[..j]));
      NextProbeKept(listen, tid, start, trace, i, j - 1);
    }
  }
}
