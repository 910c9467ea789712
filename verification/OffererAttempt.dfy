/** A connection attempt told from beginning to end, as the program reads, without guards and handles:
    what it returns for every sequence of replies that its awaits can have. The machine of
    `OffererOwnership`, which moves the guards, is proved to return the same. */
module OffererAttempt {
  import opened OffererOwnership

  // ---------------------------------------------------------------------------------------------
  // The story of an attempt
  // ---------------------------------------------------------------------------------------------

  /** What an attempt has come to: an await, a race that WebRTC takes part in or not, or a result. */
  datatype Outcome = Waiting | Racing(webrtc: bool) | Ended(result: Result)

  /** An await that has no reply yet, or was cancelled. */
  predicate Stops(replies: seq<Reply>) {
    replies == [] || replies[0].Cancel?
  }

  function Stopped(replies: seq<Reply>): Outcome {
    if replies == [] then Waiting else Ended(Cancelled)
  }

  /** A relay runs over a WebSocket if the program is set to use them. */
  function RelayConn(setup: Setup): Path {
    if setup.useWs then Relayed("WebSocket") else Relayed("Relay")
  }

  /** A relay is asked for, and then secured; either can fail. */
  function Relay(link: Link, replies: seq<Reply>): Outcome {
    if Stops(replies) then Stopped(replies)
    else if replies[0].Fail? then Ended(Failed)
    else Secured(link, replies[1..])
  }

  function Secured(link: Link, replies: seq<Reply>): Outcome {
    if Stops(replies) then Stopped(replies)
    else if replies[0].Fail? then Ended(Failed)
    else Ended(Connected(link))
  }

  /** The race in `connect`. A failed race, and under force-relay any winner but WebRTC, gives way to a
      relay, if there is a server for it. */
  function Race(setup: Setup, webrtc: bool, replies: seq<Reply>): Outcome {
    if replies == [] then Racing(webrtc)
    else if replies[0].Cancel? then Ended(Cancelled)
    else if replies[0].Won? && (replies[0].path.WebRtc? || !setup.forceRelay) then
      Winner(setup, replies[0].path, replies[1..])
    else if setup.relayServer then
      Relay(Link(RelayConn(setup), OtherLabel("Relay"), false), replies[1..])
    else Ended(Failed)
  }

  /** The winner is secured and returned. If that fails for WebRTC, a relay is asked for instead. A
      secured WebRTC path is returned as direct only if it was found not relayed twice. */
  function Winner(setup: Setup, path: Path, replies: seq<Reply>): Outcome {
    if Stops(replies) then Stopped(replies)
    else if replies[0].Fail? then
      if path.WebRtc? && setup.relayServer then
        Relay(Link(RelayConn(setup), OtherLabel("Relay"), false), replies[1..])
      else Ended(Failed)
    else match path
      case Direct(transport) => Ended(Connected(Link(path, OtherLabel(transport), true)))
      case Relayed(transport) => Ended(Connected(Link(path, OtherLabel(transport), false)))
      case WebRtc(relayed) => Checking(path, relayed == Some(false), replies[1..])
  }

  function Checking(path: Path, direct: bool, replies: seq<Reply>): Outcome {
    if Stops(replies) then Stopped(replies)
    else Ended(Connected(Link(path, WebRtcLabel, direct && replies[0] == Checked(Some(false)))))
  }

  /** The race of a round that the peer turned into a relay, in which a relay takes part. */
  function RelayRound(setup: Setup, webrtc: bool, replies: seq<Reply>): Outcome {
    if replies == [] then Racing(webrtc)
    else if replies[0].Cancel? then Ended(Cancelled)
    else if replies[0].Won? then RelayWinner(setup, replies[0].path, replies[1..])
    else Ended(Failed)
  }

  function RelayWinner(setup: Setup, path: Path, replies: seq<Reply>): Outcome {
    if Stops(replies) then Stopped(replies)
    else if replies[0].Fail? then
      if path.WebRtc? then
        Relay(Link(RelayConn(setup), OtherLabel(if setup.useWs then "WebSocket" else "Relay"), false), replies[1..])
      else Ended(Failed)
    else match path
      case Direct(transport) => Ended(Connected(Link(path, OtherLabel(transport), true)))
      case Relayed(transport) => Ended(Connected(Link(path, OtherLabel(transport), false)))
      case WebRtc(relayed) => Ended(Connected(Link(path, WebRtcLabel, relayed == Some(false))))
  }

  /** The peer was punched. An answer to the offer is set up, and WebRTC takes part in the race if that
      worked; without an address for the peer there is no race. */
  function AfterPunch(setup: Setup, offered: bool, answer: bool, port: bool, replies: seq<Reply>): Outcome {
    if Stops(replies) then Stopped(replies)
    else if offered && answer then
      var rest := replies[1..];
      if Stops(rest) then Stopped(rest) else ToRace(setup, !rest[0].Fail?, port, rest[1..])
    else ToRace(setup, false, port, replies[1..])
  }

  function ToRace(setup: Setup, webrtc: bool, port: bool, replies: seq<Reply>): Outcome {
    if !port then Ended(Failed)
    else if Stops(replies) then Stopped(replies)
    else Race(setup, webrtc, replies[1..])
  }

  /** The peer asked for a relay instead. */
  function AfterRelayOffer(setup: Setup, offered: bool, answer: bool, replies: seq<Reply>): Outcome {
    if Stops(replies) then Stopped(replies)
    else if offered && answer then
      var rest := replies[1..];
      if Stops(rest) then Stopped(rest) else RelayRound(setup, !rest[0].Fail?, rest[1..])
    else RelayRound(setup, false, replies[1..])
  }

  /** The request to punch is sent up to three times; candidates that come in between do not count. */
  function PunchRequests(setup: Setup, offered: bool, tries: nat, replies: seq<Reply>): Outcome
    decreases |replies|
  {
    if Stops(replies) then Stopped(replies)
    else match replies[0]
      case Timeout => if tries < 2 then Ended(Failed) else PunchRequests(setup, offered, tries - 1, replies[1..])
      case Candidate => PunchRequests(setup, offered, tries, replies[1..])
      case Punched(answer, port) => AfterPunch(setup, offered, answer, port, replies[1..])
      case RelayOffered(answer) => AfterRelayOffer(setup, offered, answer, replies[1..])
      case _ => Ended(Failed)
  }

  function NatTest(setup: Setup, offered: bool, replies: seq<Reply>): Outcome {
    if Stops(replies) then Stopped(replies) else PunchRequests(setup, offered, 3, replies[1..])
  }

  /** A connection to the rendezvous server without an offer: a legacy server may still want keys. */
  function Plain(setup: Setup, replies: seq<Reply>): Outcome {
    if Stops(replies) then Stopped(replies)
    else if replies[0].Fail? then Ended(Failed)
    else if !setup.legacySecure then NatTest(setup, false, replies[1..])
    else
      var rest := replies[1..];
      if Stops(rest) then Stopped(rest)
      else if rest[0].Fail? then Ended(Failed)
      else NatTest(setup, false, rest[1..])
  }

  /** An attempt with an offer exchanges keys first; if that fails it drops the offer and connects again. */
  function Attempt(setup: Setup, replies: seq<Reply>): Outcome {
    if !setup.hasOffer then Plain(setup, replies)
    else if Stops(replies) then Stopped(replies)
    else if replies[0].Fail? then Ended(Failed)
    else
      var rest := replies[1..];
      if Stops(rest) then Stopped(rest)
      else if rest[0].Fail? then Plain(setup, rest[1..])
      else NatTest(setup, true, rest[1..])
  }

  // ---------------------------------------------------------------------------------------------
  // The machine follows the story
  // ---------------------------------------------------------------------------------------------

  predicate CanContinue(setup: Setup, state: State, replies: seq<Reply>)
    decreases |replies|
  {
    replies == []
    || (Enabled(setup, state, replies[0]) && CanContinue(setup, Step(setup, state, replies[0]), replies[1..]))
  }

  /** The machine run on from a state. */
  function Continue(setup: Setup, state: State, replies: seq<Reply>): State
    requires CanContinue(setup, state, replies)
    decreases |replies|
  {
    if replies == [] then state else Continue(setup, Step(setup, state, replies[0]), replies[1..])
  }

  predicate AtRace(state: State) {
    state.At? && (state.point.ConnectRace? || state.point.RelayRace?)
  }

  /** The machine is where the story is: at an await, at a race with the offerer in it or not, or at its
      end. */
  predicate Agrees(state: State, outcome: Outcome) {
    match outcome
    case Waiting => state.At? && !AtRace(state)
    case Racing(webrtc) => AtRace(state) && (Kept in state.handles.live <==> webrtc)
    case Ended(result) => state.Exited? && state.result == result
  }

  lemma StopsAgrees(setup: Setup, state: State, replies: seq<Reply>)
    requires CanContinue(setup, state, replies) && Stops(replies) && state.At? && !AtRace(state)
    ensures Agrees(Continue(setup, state, replies), Stopped(replies))
  {
    if replies != [] {
      EndIsLast(setup, Step(setup, state, replies[0]), replies[1..]);
    }
  }

  /** Nothing follows the end. */
  lemma EndIsLast(setup: Setup, state: State, replies: seq<Reply>)
    requires CanContinue(setup, state, replies) && state.Exited?
    ensures replies == [] && Continue(setup, state, replies) == state
  {
  }

  predicate IsSecuring(point: Point) {
    point.ConnectFallbackSecure? || point.RelayFallbackSecure?
  }

  /** The relay that a fallback is securing. */
  function FallbackLink(setup: Setup, point: Point): Link {
    if point.ConnectFallbackSecure? || point.ConnectFallback? then RequestedRelay(setup) else Raced(RelayPath(setup))
  }

  lemma SecuringAgrees(setup: Setup, point: Point, h: Handles, replies: seq<Reply>)
    requires IsSecuring(point) && CanContinue(setup, At(point, None, h), replies)
    ensures Agrees(Continue(setup, At(point, None, h), replies), Secured(FallbackLink(setup, point), replies))
  {
    var state := At(point, None, h);
    if Stops(replies) {
      StopsAgrees(setup, state, replies);
    } else {
      EndIsLast(setup, Step(setup, state, replies[0]), replies[1..]);
    }
  }

  lemma FallbackAgrees(setup: Setup, point: Point, h: Handles, replies: seq<Reply>)
    requires (point.ConnectFallback? || point.RelayFallback?) && CanContinue(setup, At(point, None, h), replies)
    ensures Agrees(Continue(setup, At(point, None, h), replies), Relay(FallbackLink(setup, point), replies))
  {
    var state := At(point, None, h);
    if Stops(replies) {
      StopsAgrees(setup, state, replies);
    } else if replies[0].Fail? {
      EndIsLast(setup, Step(setup, state, replies[0]), replies[1..]);
    } else {
      var next := if point.ConnectFallback? then ConnectFallbackSecure else RelayFallbackSecure;
      assert Step(setup, state, replies[0]) == At(next, None, h);
      SecuringAgrees(setup, next, h, replies[1..]);
    }
  }

  lemma RelaySecuredAgrees(setup: Setup, h: Handles, replies: seq<Reply>)
    requires CanContinue(setup, At(ConnectSecure, Some(RequestedRelay(setup)), h), replies)
    ensures Agrees(Continue(setup, At(ConnectSecure, Some(RequestedRelay(setup)), h), replies),
                   Secured(RequestedRelay(setup), replies))
  {
    var state := At(ConnectSecure, Some(RequestedRelay(setup)), h);
    if Stops(replies) {
      StopsAgrees(setup, state, replies);
    } else {
      EndIsLast(setup, Step(setup, state, replies[0]), replies[1..]);
    }
  }

  lemma RelayAgrees(setup: Setup, h: Handles, replies: seq<Reply>)
    requires CanContinue(setup, At(ConnectRelay, None, h), replies)
    ensures Agrees(Continue(setup, At(ConnectRelay, None, h), replies), Relay(RequestedRelay(setup), replies))
  {
    var state := At(ConnectRelay, None, h);
    if Stops(replies) {
      StopsAgrees(setup, state, replies);
    } else if replies[0].Fail? {
      EndIsLast(setup, Step(setup, state, replies[0]), replies[1..]);
    } else {
      RelaySecuredAgrees(setup, h, replies[1..]);
    }
  }

  lemma CheckingAgrees(setup: Setup, path: Path, h: Handles, replies: seq<Reply>)
    requires path.WebRtc? && CanContinue(setup, At(ConnectCheck, Some(Raced(path)), h), replies)
    ensures Agrees(Continue(setup, At(ConnectCheck, Some(Raced(path)), h), replies),
                   Checking(path, path.relayed == Some(false), replies))
  {
    var state := At(ConnectCheck, Some(Raced(path)), h);
    if Stops(replies) {
      StopsAgrees(setup, state, replies);
    } else {
      EndIsLast(setup, Step(setup, state, replies[0]), replies[1..]);
    }
  }

  lemma WinnerAgrees(setup: Setup, path: Path, h: Handles, replies: seq<Reply>)
    requires CanContinue(setup, At(ConnectSecure, Some(Raced(path)), h), replies)
    ensures Agrees(Continue(setup, At(ConnectSecure, Some(Raced(path)), h), replies), Winner(setup, path, replies))
  {
    var state := At(ConnectSecure, Some(Raced(path)), h);
    if Stops(replies) {
      StopsAgrees(setup, state, replies);
    } else if replies[0].Fail? && path.WebRtc? && setup.relayServer {
      FallbackAgrees(setup, ConnectFallback, Close(h, Kept), replies[1..]);
    } else if !replies[0].Fail? && path.WebRtc? {
      CheckingAgrees(setup, path, h, replies[1..]);
    } else {
      EndIsLast(setup, Step(setup, state, replies[0]), replies[1..]);
    }
  }

  lemma RaceAgrees(setup: Setup, h: Handles, replies: seq<Reply>)
    requires CanContinue(setup, At(ConnectRace, None, h), replies)
    ensures Agrees(Continue(setup, At(ConnectRace, None, h), replies), Race(setup, Kept in h.live, replies))
  {
    var state := At(ConnectRace, None, h);
    if replies != [] {
      var next := Step(setup, state, replies[0]);
      if !replies[0].Cancel? && replies[0].Won? && (replies[0].path.WebRtc? || !setup.forceRelay) {
        WinnerAgrees(setup, replies[0].path, h, replies[1..]);
      } else if !replies[0].Cancel? && setup.relayServer {
        RelayAgrees(setup, h, replies[1..]);
      } else {
        EndIsLast(setup, next, replies[1..]);
      }
    }
  }

  lemma RelayWinnerAgrees(setup: Setup, path: Path, h: Handles, replies: seq<Reply>)
    requires CanContinue(setup, At(RelaySecure, Some(Raced(path)), h), replies)
    ensures Agrees(Continue(setup, At(RelaySecure, Some(Raced(path)), h), replies), RelayWinner(setup, path, replies))
  {
    var state := At(RelaySecure, Some(Raced(path)), h);
    if Stops(replies) {
      StopsAgrees(setup, state, replies);
    } else if replies[0].Fail? && path.WebRtc? {
      FallbackAgrees(setup, RelayFallback, Close(h, Kept), replies[1..]);
    } else {
      EndIsLast(setup, Step(setup, state, replies[0]), replies[1..]);
    }
  }

  lemma RelayRoundAgrees(setup: Setup, h: Handles, replies: seq<Reply>)
    requires CanContinue(setup, At(RelayRace, None, h), replies)
    ensures Agrees(Continue(setup, At(RelayRace, None, h), replies), RelayRound(setup, Kept in h.live, replies))
  {
    var state := At(RelayRace, None, h);
    if replies != [] {
      if replies[0].Won? {
        RelayWinnerAgrees(setup, replies[0].path, h, replies[1..]);
      } else {
        EndIsLast(setup, Step(setup, state, replies[0]), replies[1..]);
      }
    }
  }

  /** Nothing is held but the offer, if there is one. */
  predicate HoldsOffer(h: Handles, offered: bool) {
    h.live == if offered then {Offerer} else {}
  }

  /** Nothing is held but the adopted offerer, if it was. */
  predicate HoldsAdopted(h: Handles, webrtc: bool) {
    h.live == if webrtc then {Kept} else {}
  }

  lemma NatTypeAgrees(setup: Setup, h: Handles, webrtc: bool, replies: seq<Reply>)
    requires HoldsAdopted(h, webrtc) && CanContinue(setup, At(ConnectNatType, None, h), replies)
    ensures Agrees(Continue(setup, At(ConnectNatType, None, h), replies), ToRace(setup, webrtc, true, replies))
  {
    var state := At(ConnectNatType, None, h);
    if Stops(replies) {
      StopsAgrees(setup, state, replies);
    } else {
      RaceAgrees(setup, h, replies[1..]);
    }
  }

  /** What follows the setup of the punch path, given what it left in the variables. */
  lemma AfterSetupAgrees(setup: Setup, h: Handles, webrtc: bool, port: bool, replies: seq<Reply>)
    requires h.live == (if webrtc then {ForConnect} else {}) || (!webrtc && h.live == {Offerer})
    requires CanContinue(setup, AfterPunchedSetup(h, port), replies)
    ensures Agrees(Continue(setup, AfterPunchedSetup(h, port), replies), ToRace(setup, webrtc, port, replies))
  {
    var after := Move(Close(h, Offerer), ForConnect, Kept);
    if port {
      assert HoldsAdopted(after, webrtc);
      NatTypeAgrees(setup, after, webrtc, replies);
    } else {
      EndIsLast(setup, AfterPunchedSetup(h, port), replies);
    }
  }

  lemma PunchedSetupAgrees(setup: Setup, h: Handles, port: bool, replies: seq<Reply>)
    requires h.live == {Setting} && CanContinue(setup, At(PunchedSetup(port), None, h), replies)
    ensures Agrees(Continue(setup, At(PunchedSetup(port), None, h), replies),
                   if Stops(replies) then Stopped(replies) else ToRace(setup, !replies[0].Fail?, port, replies[1..]))
  {
    var state := At(PunchedSetup(port), None, h);
    if Stops(replies) {
      StopsAgrees(setup, state, replies);
    } else {
      var after := AfterSetupAwait(h, replies[0]);
      assert after.live == if replies[0].Fail? then {} else {ForConnect};
      AfterSetupAgrees(setup, after, !replies[0].Fail?, port, replies[1..]);
    }
  }

  lemma PunchedAgrees(setup: Setup, h: Handles, offered: bool, answer: bool, port: bool, replies: seq<Reply>)
    requires HoldsOffer(h, offered) && CanContinue(setup, At(PunchedSockets(answer, port), None, h), replies)
    ensures Agrees(Continue(setup, At(PunchedSockets(answer, port), None, h), replies),
                   AfterPunch(setup, offered, answer, port, replies))
  {
    var state := At(PunchedSockets(answer, port), None, h);
    if Stops(replies) {
      StopsAgrees(setup, state, replies);
    } else if offered && answer {
      assert Move(h, Offerer, Setting).live == {Setting};
      PunchedSetupAgrees(setup, Move(h, Offerer, Setting), port, replies[1..]);
    } else {
      AfterSetupAgrees(setup, h, false, port, replies[1..]);
    }
  }

  lemma AfterRelaySetupAgrees(setup: Setup, h: Handles, webrtc: bool, replies: seq<Reply>)
    requires h.live == (if webrtc then {ForConnect} else {}) || (!webrtc && h.live == {Offerer})
    requires CanContinue(setup, AfterRelaySetup(h), replies)
    ensures Agrees(Continue(setup, AfterRelaySetup(h), replies), RelayRound(setup, webrtc, replies))
  {
    var after := Move(Close(h, Offerer), ForConnect, Kept);
    assert HoldsAdopted(after, webrtc);
    RelayRoundAgrees(setup, after, replies);
  }

  lemma RelaySetupAgrees(setup: Setup, h: Handles, replies: seq<Reply>)
    requires h.live == {Setting} && CanContinue(setup, At(RelaySetup, None, h), replies)
    ensures Agrees(Continue(setup, At(RelaySetup, None, h), replies),
                   if Stops(replies) then Stopped(replies) else RelayRound(setup, !replies[0].Fail?, replies[1..]))
  {
    var state := At(RelaySetup, None, h);
    if Stops(replies) {
      StopsAgrees(setup, state, replies);
    } else {
      var after := AfterSetupAwait(h, replies[0]);
      assert after.live == if replies[0].Fail? then {} else {ForConnect};
      AfterRelaySetupAgrees(setup, after, !replies[0].Fail?, replies[1..]);
    }
  }

  lemma RelayOfferAgrees(setup: Setup, h: Handles, offered: bool, answer: bool, replies: seq<Reply>)
    requires HoldsOffer(h, offered) && CanContinue(setup, At(RelaySockets(answer), None, h), replies)
    ensures Agrees(Continue(setup, At(RelaySockets(answer), None, h), replies),
                   AfterRelayOffer(setup, offered, answer, replies))
  {
    var state := At(RelaySockets(answer), None, h);
    if Stops(replies) {
      StopsAgrees(setup, state, replies);
    } else if offered && answer {
      assert Move(h, Offerer, Setting).live == {Setting};
      RelaySetupAgrees(setup, Move(h, Offerer, Setting), replies[1..]);
    } else {
      AfterRelaySetupAgrees(setup, h, false, replies[1..]);
    }
  }

  lemma {:induction false} PunchingAgrees(setup: Setup, h: Handles, offered: bool, attempt: nat, replies: seq<Reply>)
    requires 1 <= attempt <= 3 && HoldsOffer(h, offered)
    requires CanContinue(setup, At(Punching(attempt), None, h), replies)
    ensures Agrees(Continue(setup, At(Punching(attempt), None, h), replies),
                   PunchRequests(setup, offered, 4 - attempt, replies))
    decreases |replies|
  {
    var state := At(Punching(attempt), None, h);
    if Stops(replies) {
      StopsAgrees(setup, state, replies);
    } else {
      var reply := replies[0];
      if reply.Timeout? && attempt < 3 {
        PunchingAgrees(setup, h, offered, attempt + 1, replies[1..]);
      } else if reply.Candidate? {
        PunchingAgrees(setup, h, offered, attempt, replies[1..]);
      } else if reply.Punched? {
        PunchedAgrees(setup, h, offered, reply.answer, reply.port, replies[1..]);
      } else if reply.RelayOffered? {
        RelayOfferAgrees(setup, h, offered, reply.answer, replies[1..]);
      } else {
        EndIsLast(setup, Step(setup, state, reply), replies[1..]);
      }
    }
  }

  lemma NatTestAgrees(setup: Setup, h: Handles, offered: bool, replies: seq<Reply>)
    requires HoldsOffer(h, offered) && CanContinue(setup, At(NatTestWait, None, h), replies)
    ensures Agrees(Continue(setup, At(NatTestWait, None, h), replies), NatTest(setup, offered, replies))
  {
    var state := At(NatTestWait, None, h);
    if Stops(replies) {
      StopsAgrees(setup, state, replies);
    } else {
      PunchingAgrees(setup, h, offered, 1, replies[1..]);
    }
  }

  lemma LegacyAgrees(setup: Setup, h: Handles, replies: seq<Reply>)
    requires h.live == {} && CanContinue(setup, At(LegacyKeyExchange, None, h), replies)
    ensures Agrees(Continue(setup, At(LegacyKeyExchange, None, h), replies),
                   if Stops(replies) then Stopped(replies)
                   else if replies[0].Fail? then Ended(Failed) else NatTest(setup, false, replies[1..]))
  {
    var state := At(LegacyKeyExchange, None, h);
    if Stops(replies) {
      StopsAgrees(setup, state, replies);
    } else if replies[0].Fail? {
      EndIsLast(setup, Step(setup, state, replies[0]), replies[1..]);
    } else {
      NatTestAgrees(setup, h, false, replies[1..]);
    }
  }

  lemma PlainAgrees(setup: Setup, point: Point, h: Handles, replies: seq<Reply>)
    requires h.live == {} && (point.Rendezvous? || point.Reconnect?)
    requires CanContinue(setup, At(point, None, h), replies)
    ensures Agrees(Continue(setup, At(point, None, h), replies), Plain(setup, replies))
  {
    var state := At(point, None, h);
    if Stops(replies) {
      StopsAgrees(setup, state, replies);
    } else if replies[0].Fail? {
      EndIsLast(setup, Step(setup, state, replies[0]), replies[1..]);
    } else if setup.legacySecure {
      LegacyAgrees(setup, h, replies[1..]);
    } else {
      NatTestAgrees(setup, h, false, replies[1..]);
    }
  }

  lemma KeyExchangeAgrees(setup: Setup, h: Handles, replies: seq<Reply>)
    requires HoldsOffer(h, true) && CanContinue(setup, At(KeyExchange, None, h), replies)
    ensures Agrees(Continue(setup, At(KeyExchange, None, h), replies),
                   if Stops(replies) then Stopped(replies)
                   else if replies[0].Fail? then Plain(setup, replies[1..]) else NatTest(setup, true, replies[1..]))
  {
    var state := At(KeyExchange, None, h);
    if Stops(replies) {
      StopsAgrees(setup, state, replies);
    } else if replies[0].Fail? {
      assert Close(h, Offerer).live == {};
      PlainAgrees(setup, Reconnect, Close(h, Offerer), replies[1..]);
    } else {
      NatTestAgrees(setup, h, true, replies[1..]);
    }
  }

  lemma BeginAgrees(setup: Setup, replies: seq<Reply>)
    requires CanContinue(setup, Begin(setup), replies)
    ensures Agrees(Continue(setup, Begin(setup), replies), Attempt(setup, replies))
  {
    var h := Begin(setup).handles;
    if !setup.hasOffer {
      PlainAgrees(setup, Rendezvous, h, replies);
    } else if Stops(replies) {
      StopsAgrees(setup, Begin(setup), replies);
    } else if replies[0].Fail? {
      EndIsLast(setup, Step(setup, Begin(setup), replies[0]), replies[1..]);
    } else {
      KeyExchangeAgrees(setup, h, replies[1..]);
    }
  }

  lemma {:induction false} PrefixFeasible(setup: Setup, replies: seq<Reply>, n: nat)
    requires Feasible(setup, replies) && n <= |replies|
    ensures Feasible(setup, replies[..n])
    decreases |replies| - n
  {
    if n == |replies| {
      assert replies[..n] == replies;
    } else {
      PrefixFeasible(setup, replies, n + 1);
      assert replies[..n + 1][..n] == replies[..n];
    }
  }

  lemma NextReply(setup: Setup, replies: seq<Reply>, n: nat)
    requires Feasible(setup, replies) && n < |replies|
    ensures Feasible(setup, replies[..n]) && Enabled(setup, Run(setup, replies[..n]), replies[n])
    ensures Feasible(setup, replies[..n + 1])
    ensures Run(setup, replies[..n + 1]) == Step(setup, Run(setup, replies[..n]), replies[n])
  {
    PrefixFeasible(setup, replies, n);
    PrefixFeasible(setup, replies, n + 1);
    assert replies[..n + 1][..n] == replies[..n];
  }

  lemma ContinueStep(setup: Setup, state: State, replies: seq<Reply>)
    requires replies != [] && Enabled(setup, state, replies[0])
    requires CanContinue(setup, Step(setup, state, replies[0]), replies[1..])
    ensures CanContinue(setup, state, replies)
    ensures Continue(setup, state, replies) == Continue(setup, Step(setup, state, replies[0]), replies[1..])
  {
  }

  /** A run is its beginning, continued. */
  lemma {:induction false} RunContinues(setup: Setup, replies: seq<Reply>, n: nat)
    requires Feasible(setup, replies) && n <= |replies|
    ensures Feasible(setup, replies[..n]) && CanContinue(setup, Run(setup, replies[..n]), replies[n..])
    ensures Continue(setup, Run(setup, replies[..n]), replies[n..]) == Run(setup, replies)
    decreases |replies| - n
  {
    if n == |replies| {
      assert replies[..n] == replies && replies[n..] == [];
    } else {
      NextReply(setup, replies, n);
      RunContinues(setup, replies, n + 1);
      assert replies[n..][1..] == replies[n + 1..] && replies[n..][0] == replies[n];
      ContinueStep(setup, Run(setup, replies[..n]), replies[n..]);
    }
  }

  // ---------------------------------------------------------------------------------------------
  // What every attempt returns
  // ---------------------------------------------------------------------------------------------

  /** For every sequence of replies, the attempt that moves the guards ends exactly when, and returns
      exactly what, the story says; and at a race the offerer takes part exactly if the story says so:
      there was an offer, the keys were exchanged, the peer answered, and the answer could be set up. */
  lemma AttemptFollowsStory(setup: Setup, replies: seq<Reply>)
    requires Feasible(setup, replies)
    ensures Agrees(Run(setup, replies), Attempt(setup, replies))
  {
    RunContinues(setup, replies, 0);
    assert replies[..0] == [] && replies[0..] == replies;
    assert Run(setup, []) == Begin(setup);
    BeginAgrees(setup, replies);
  }

  /** The race in `connect` gives way to a relay exactly if it failed, or a relay is forced and the winner
      is not WebRTC, and there is a server for it. Without one it ends in failure in the same cases. In all
      others the winner goes on to its handshake. */
  lemma RelayRequestedIff(setup: Setup, replies: seq<Reply>, reply: Reply)
    requires Feasible(setup, replies + [reply]) && Feasible(setup, replies) && !reply.Cancel?
    requires Run(setup, replies).At? && Run(setup, replies).point == ConnectRace
    ensures var after := Run(setup, replies + [reply]);
            var lost := reply.Fail? || (setup.forceRelay && !reply.path.WebRtc?);
            && (after.At? && after.point == ConnectRelay <==> lost && setup.relayServer)
            && (after.Exited? <==> lost && !setup.relayServer)
            && (!lost ==> && after.At? && after.point == ConnectSecure
                          && after.link.Some? && after.link.value.conn == reply.path)
  {
    assert (replies + [reply])[..|replies|] == replies;
  }

  /** A direct winner that is not overridden and whose handshake succeeds is what the attempt returns. */
  lemma DirectWinnerReturned(setup: Setup, replies: seq<Reply>, transport: string)
    requires Feasible(setup, replies) && Run(setup, replies).At? && Run(setup, replies).point == ConnectRace
    requires !setup.forceRelay
    ensures var won := replies + [Won(Direct(transport))] + [Done];
            && Feasible(setup, won)
            && Run(setup, won).Exited?
            && Run(setup, won).result == Connected(Link(Direct(transport), OtherLabel(transport), true))
  {
    AppendReply(setup, replies, Won(Direct(transport)));
    AppendReply(setup, replies + [Won(Direct(transport))], Done);
  }
}
