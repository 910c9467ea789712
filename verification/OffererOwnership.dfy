/** Who owns the WebRTC offerer's peer connection while a connection attempt runs.

    The attempt is a state machine whose points are the awaits of `_start_inner` and `connect`; the
    code between two awaits is one step. What an await brings is chosen freely among the replies it
    can have, and at every await the whole attempt may instead be cancelled, which drops whatever
    is in scope. Dropping an armed guard closes the peer connection; dropping a bare stream handle
    does not, so a handle that is neither guarded nor returned would be leaked. */
module OffererOwnership {

  datatype Option<+T> = None | Some(value: T)

  /** What the caller's settings and the rendezvous exchange fix for the whole attempt. */
  datatype Setup = Setup(hasOffer: bool, legacySecure: bool, forceRelay: bool, relayServer: bool, useWs: bool)

  /** The path a connection really takes. A WebRTC path records what `is_relayed` answered. */
  datatype Path = Direct(transport: string) | Relayed(transport: string) | WebRtc(relayed: Option<bool>)

  datatype Label = WebRtcLabel | OtherLabel(transport: string)

  function LabelOf(path: Path): Label {
    match path
    case Direct(transport) => OtherLabel(transport)
    case Relayed(transport) => OtherLabel(transport)
    case WebRtc(_) => WebRtcLabel
  }

  function UnwrapOr(answer: Option<bool>, default: bool): bool {
    if answer.Some? then answer.value else default
  }

  /** The flag a racing future reports beside its connection. */
  function ReportedDirect(path: Path): bool {
    match path
    case Direct(_) => true
    case Relayed(_) => false
    case WebRtc(relayed) => !UnwrapOr(relayed, true)
  }

  /** A connection with the label and the flag the program keeps beside it. */
  datatype Link = Link(conn: Path, typ: Label, direct: bool)

  /** What a racing future resolves to. */
  function Raced(path: Path): Link {
    Link(path, LabelOf(path), ReportedDirect(path))
  }

  /** The variables that can hold a handle on the peer connection: the guard in `webrtc_offerer`, the
      guard taken out for the setup awaits, the bare stream in `webrtc_for_connect`, and the guard
      kept across a race and what follows it. */
  datatype Variable = Offerer | Setting | ForConnect | Kept

  /** Which variables hold a live handle, and how often the peer connection was closed. */
  datatype Handles = Handles(live: set<Variable>, closes: nat)

  function One(condition: bool): nat {
    if condition then 1 else 0
  }

  /** The variable is dropped and its handle closed, if it holds one: an armed guard going out of
      scope, or an explicit close. */
  function Close(h: Handles, v: Variable): Handles {
    Handles(h.live - {v}, h.closes + One(v in h.live))
  }

  /** The handle moves from one variable to another. */
  function Move(h: Handles, source: Variable, target: Variable): Handles {
    if source in h.live then h.(live := h.live - {source} + {target}) else h
  }

  /** `into_inner` on the kept guard, its result dropped: the connection alone owns the stream. */
  function Disarm(h: Handles): Handles {
    h.(live := h.live - {Kept})
  }

  /** Guards that would close the peer connection if the attempt were dropped now. */
  function Armed(h: Handles): nat {
    One(Offerer in h.live) + One(Setting in h.live) + One(Kept in h.live)
  }

  /** The closes in all once every variable has gone out of scope: each armed guard closes, the bare
      handle closes nothing. */
  function DropAll(h: Handles): nat {
    h.closes + Armed(h)
  }

  /** The awaits of the signalling phase, of `connect`, and of a round the peer turned into a relay. */
  datatype Point =
    | Rendezvous
    | KeyExchange
    | Reconnect
    | LegacyKeyExchange
    | NatTestWait
    | Punching(attempt: nat)
    | PunchedSockets(answer: bool, port: bool)
    | PunchedSetup(port: bool)
    | ConnectNatType
    | ConnectRace
    | ConnectRelay
    | ConnectSecure
    | ConnectFallback
    | ConnectFallbackSecure
    | ConnectCheck
    | RelaySockets(answer: bool)
    | RelaySetup
    | RelayRace
    | RelaySecure
    | RelayFallback
    | RelayFallbackSecure

  datatype Result = Connected(link: Link) | Failed | Cancelled

  /** An attempt at an await, with the connection it has so far, or at its end. */
  datatype State =
    | At(point: Point, link: Option<Link>, handles: Handles)
    | Exited(result: Result, closes: nat)

  /** What an await can bring. */
  datatype Reply =
    | Done
    | Fail
    | Timeout
    | Candidate
    | Punched(answer: bool, port: bool)
    | RelayOffered(answer: bool)
    | Won(path: Path)
    | Checked(relayed: Option<bool>)
    | Cancel

  function Begin(setup: Setup): State {
    At(Rendezvous, None, Handles(if setup.hasOffer then {Offerer} else {}, 0))
  }

  function Exit(result: Result, h: Handles): State {
    Exited(result, DropAll(h))
  }

  predicate HoldsLink(point: Point) {
    point.ConnectSecure? || point.ConnectCheck? || point.RelaySecure?
  }

  /** The replies each await can have, besides being cancelled. WebRTC can only win a race the
      offerer was entered in. */
  predicate CanReply(setup: Setup, point: Point, h: Handles, reply: Reply) {
    match point
    case Punching(_) =>
      reply.Fail? || reply.Timeout? || reply.Candidate? || reply.Punched? || reply.RelayOffered?
    case NatTestWait => reply.Done?
    case PunchedSockets(_, _) => reply.Done?
    case RelaySockets(_) => reply.Done?
    case ConnectNatType => reply.Done?
    case ConnectRace =>
      reply.Fail? || (reply.Won? && (reply.path.Direct? || (reply.path.WebRtc? && Kept in h.live)))
    case RelayRace =>
      reply.Fail?
      || (reply.Won? && (|| reply.path == Direct("IPv6")
                         || reply.path == RelayPath(setup)
                         || (reply.path.WebRtc? && Kept in h.live)))
    case ConnectCheck => reply.Checked?
    case _ => reply.Done? || reply.Fail?
  }

  predicate Enabled(setup: Setup, state: State, reply: Reply) {
    && state.At?
    && (HoldsLink(state.point) ==> state.link.Some?)
    && (reply.Cancel? || CanReply(setup, state.point, state.handles, reply))
  }

  // ---------------------------------------------------------------------------------------------
  // The code between awaits
  // ---------------------------------------------------------------------------------------------

  /** The path of a relay, whichever part of the program asks for it. */
  function RelayPath(setup: Setup): Path {
    Relayed(if setup.useWs then "WebSocket" else "Relay")
  }

  /** A relay that `connect` asked for, with the label it is given there. */
  function RequestedRelay(setup: Setup): Link {
    Link(RelayPath(setup), OtherLabel("Relay"), false)
  }

  /** An await whose failure ends the attempt. */
  function ProceedTo(h: Handles, reply: Reply, next: Point, link: Option<Link>): State {
    if reply.Fail? then Exit(Failed, h) else At(next, link, h)
  }

  /** With no key exchange done yet, a token or switch code still asks for one. */
  function AfterPlainConnect(setup: Setup, h: Handles, reply: Reply): State {
    ProceedTo(h, reply, if setup.legacySecure then LegacyKeyExchange else NatTestWait, None)
  }

  /** After the setup of the punch path: whatever was not adopted is dropped, an attempt without a
      peer address ends here, and `connect` puts the adopted stream back under a guard at once. */
  function AfterPunchedSetup(h: Handles, port: bool): State {
    var h := Close(h, Offerer);
    if port then At(ConnectNatType, None, Move(h, ForConnect, Kept)) else Exit(Failed, Close(h, ForConnect))
  }

  /** After the setup of the relay path. */
  function AfterRelaySetup(h: Handles): State {
    At(RelayRace, None, Move(Close(h, Offerer), ForConnect, Kept))
  }

  /** Set up on the guard's borrowed stream; the stream is adopted only if that worked. */
  function AfterSetupAwait(h: Handles, reply: Reply): Handles {
    if reply.Fail? then Close(h, Setting) else Move(h, Setting, ForConnect)
  }

  function OnPunching(h: Handles, attempt: nat, reply: Reply): State {
    match reply
    case Timeout => if attempt < 3 then At(Punching(attempt + 1), None, h) else AfterPunchedSetup(h, false)
    case Candidate => At(Punching(attempt), None, h)
    case Punched(answer, port) => At(PunchedSockets(answer, port), None, h)
    case RelayOffered(answer) => At(RelaySockets(answer), None, h)
    case _ => Exit(Failed, h)
  }

  /** The relay overrides a failed race, and under force-relay every winner but WebRTC. */
  function AfterConnectRace(setup: Setup, h: Handles, reply: Reply): State {
    if reply.Won? && (!setup.forceRelay || LabelOf(reply.path) == WebRtcLabel) then
      At(ConnectSecure, Some(Raced(reply.path)), h)
    else if setup.relayServer then At(ConnectRelay, None, h)
    else Exit(Failed, h)
  }

  function AfterConnectSecure(setup: Setup, h: Handles, link: Link, reply: Reply): State {
    if reply.Fail? then
      if link.typ == WebRtcLabel && setup.relayServer then At(ConnectFallback, None, Close(h, Kept))
      else Exit(Failed, h)
    else
      if link.typ == WebRtcLabel then At(ConnectCheck, Some(link), h) else Exit(Connected(link), h)
  }

  function AfterCheck(h: Handles, link: Link, relayed: Option<bool>): State {
    Exit(Connected(if UnwrapOr(relayed, true) then link.(direct := false) else link), Disarm(h))
  }

  function AfterRelayRace(h: Handles, reply: Reply): State {
    if reply.Won? then At(RelaySecure, Some(Raced(reply.path)), h) else Exit(Failed, h)
  }

  function AfterRelaySecure(h: Handles, link: Link, reply: Reply): State {
    if reply.Fail? then
      if link.typ == WebRtcLabel then At(RelayFallback, None, Close(h, Kept)) else Exit(Failed, h)
    else
      Exit(Connected(link), if link.typ == WebRtcLabel then Disarm(h) else h)
  }

  function AfterFallback(h: Handles, link: Link, reply: Reply): State {
    Exit(if reply.Fail? then Failed else Connected(link), h)
  }

  function Step(setup: Setup, state: State, reply: Reply): State
    requires Enabled(setup, state, reply)
  {
    var h := state.handles;
    if reply.Cancel? then Exit(Cancelled, h) else
    match state.point
    case Rendezvous =>
      if Offerer in h.live then ProceedTo(h, reply, KeyExchange, None) else AfterPlainConnect(setup, h, reply)
    case KeyExchange =>
      if reply.Fail? then At(Reconnect, None, Close(h, Offerer)) else At(NatTestWait, None, h)
    case Reconnect => AfterPlainConnect(setup, h, reply)
    case LegacyKeyExchange => ProceedTo(h, reply, NatTestWait, None)
    case NatTestWait => At(Punching(1), None, h)
    case Punching(attempt) => OnPunching(h, attempt, reply)
    case PunchedSockets(answer, port) =>
      if answer && Offerer in h.live then At(PunchedSetup(port), None, Move(h, Offerer, Setting))
      else AfterPunchedSetup(h, port)
    case PunchedSetup(port) => AfterPunchedSetup(AfterSetupAwait(h, reply), port)
    case ConnectNatType => At(ConnectRace, None, h)
    case ConnectRace => AfterConnectRace(setup, h, reply)
    case ConnectRelay => ProceedTo(h, reply, ConnectSecure, Some(RequestedRelay(setup)))
    case ConnectSecure => AfterConnectSecure(setup, h, state.link.value, reply)
    case ConnectFallback => ProceedTo(h, reply, ConnectFallbackSecure, None)
    case ConnectFallbackSecure => AfterFallback(h, RequestedRelay(setup), reply)
    case ConnectCheck => AfterCheck(h, state.link.value, reply.relayed)
    case RelaySockets(answer) =>
      if answer && Offerer in h.live then At(RelaySetup, None, Move(h, Offerer, Setting)) else AfterRelaySetup(h)
    case RelaySetup => AfterRelaySetup(AfterSetupAwait(h, reply))
    case RelayRace => AfterRelayRace(h, reply)
    case RelaySecure => AfterRelaySecure(h, state.link.value, reply)
    case RelayFallback => ProceedTo(h, reply, RelayFallbackSecure, None)
    case RelayFallbackSecure => AfterFallback(h, Raced(RelayPath(setup)), reply)
  }

  // ---------------------------------------------------------------------------------------------
  // Runs
  // ---------------------------------------------------------------------------------------------

  predicate Feasible(setup: Setup, replies: seq<Reply>)
    decreases |replies|, 0
  {
    replies == []
    || (&& Feasible(setup, replies[..|replies| - 1])
        && Enabled(setup, Run(setup, replies[..|replies| - 1]), replies[|replies| - 1]))
  }

  function Run(setup: Setup, replies: seq<Reply>): State
    requires Feasible(setup, replies)
    decreases |replies|, 1
  {
    if replies == [] then Begin(setup)
    else Step(setup, Run(setup, replies[..|replies| - 1]), replies[|replies| - 1])
  }

  // ---------------------------------------------------------------------------------------------
  // The invariant
  // ---------------------------------------------------------------------------------------------

  /** A path with evidence that no relay carries it. */
  predicate IsDirectPath(path: Path) {
    path.Direct? || path == WebRtc(Some(false))
  }

  /** The flag claims directness only with evidence, and WebRTC is told from everything else. */
  predicate Truthful(link: Link) {
    (link.direct ==> IsDirectPath(link.conn)) && (link.typ == WebRtcLabel <==> link.conn.WebRtc?)
  }

  /** A connection that may be returned: a WebRTC one still has its guard. */
  predicate Sound(link: Link, h: Handles) {
    Truthful(link) && (link.conn.WebRtc? ==> Kept in h.live)
  }

  function Total(h: Handles): nat {
    Armed(h) + One(ForConnect in h.live) + h.closes
  }

  predicate IsOfferer(result: Result) {
    result.Connected? && result.link.conn.WebRtc?
  }

  predicate ConservedAt(setup: Setup, point: Point, link: Option<Link>, h: Handles) {
    && Total(h) == One(setup.hasOffer) && ForConnect !in h.live
    && (HoldsLink(point) ==> link.Some?)
    && (link.Some? ==> Sound(link.value, h))
    && (point.ConnectCheck? ==> link.value.conn.WebRtc?)
  }

  predicate ConservedExit(setup: Setup, result: Result, closes: nat) {
    && closes + One(IsOfferer(result)) == One(setup.hasOffer)
    && (result.Connected? ==> Truthful(result.link))
  }

  /** At every await the peer connection is held by exactly one guard, or was closed exactly once,
      and is never reachable only through a bare handle. On exit nothing is left armed, and it was
      closed once or is what is returned. */
  predicate Conserved(setup: Setup, state: State) {
    if state.At? then ConservedAt(setup, state.point, state.link, state.handles)
    else ConservedExit(setup, state.result, state.closes)
  }

  predicate InSignalling(point: Point) {
    point.Rendezvous? || point.KeyExchange? || point.Reconnect? || point.LegacyKeyExchange?
    || point.NatTestWait? || point.Punching?
  }

  predicate InSetup(point: Point) {
    point.PunchedSockets? || point.PunchedSetup? || point.ConnectNatType? || point.ConnectRace?
  }

  predicate InRelay(point: Point) {
    point.RelaySockets? || point.RelaySetup? || point.RelayRace? || point.RelaySecure?
    || point.RelayFallback? || point.RelayFallbackSecure?
  }

  lemma SignallingConserves(setup: Setup, state: State, reply: Reply)
    requires Conserved(setup, state) && Enabled(setup, state, reply) && !reply.Cancel?
    requires InSignalling(state.point)
    ensures Conserved(setup, Step(setup, state, reply))
  {
  }

  lemma SetupConserves(setup: Setup, state: State, reply: Reply)
    requires Conserved(setup, state) && Enabled(setup, state, reply) && !reply.Cancel?
    requires InSetup(state.point)
    ensures Conserved(setup, Step(setup, state, reply))
  {
  }

  lemma ConnectingConserves(setup: Setup, state: State, reply: Reply)
    requires Conserved(setup, state) && Enabled(setup, state, reply) && !reply.Cancel?
    requires !InSignalling(state.point) && !InSetup(state.point) && !InRelay(state.point)
    ensures Conserved(setup, Step(setup, state, reply))
  {
  }

  lemma RelayConserves(setup: Setup, state: State, reply: Reply)
    requires Conserved(setup, state) && Enabled(setup, state, reply) && !reply.Cancel?
    requires InRelay(state.point)
    ensures Conserved(setup, Step(setup, state, reply))
  {
  }

  lemma StepConserves(setup: Setup, state: State, reply: Reply)
    requires Conserved(setup, state) && Enabled(setup, state, reply)
    ensures Conserved(setup, Step(setup, state, reply))
  {
    if reply.Cancel? {
    } else if InSignalling(state.point) {
      SignallingConserves(setup, state, reply);
    } else if InSetup(state.point) {
      SetupConserves(setup, state, reply);
    } else if InRelay(state.point) {
      RelayConserves(setup, state, reply);
    } else {
      ConnectingConserves(setup, state, reply);
    }
  }

  lemma {:induction false} RunConserves(setup: Setup, replies: seq<Reply>)
    requires Feasible(setup, replies)
    ensures Conserved(setup, Run(setup, replies))
  {
    if replies != [] {
      RunConserves(setup, replies[..|replies| - 1]);
      StepConserves(setup, Run(setup, replies[..|replies| - 1]), replies[|replies| - 1]);
    }
  }

  // ---------------------------------------------------------------------------------------------
  // What every attempt guarantees
  // ---------------------------------------------------------------------------------------------

  /** While the attempt runs, exactly one guard would close the peer connection, or it has been
      closed exactly once; it is never left to a bare handle at an await. */
  lemma OpenMeansGuarded(setup: Setup, replies: seq<Reply>)
    requires Feasible(setup, replies) && Run(setup, replies).At?
    ensures var h := Run(setup, replies).handles;
            Armed(h) + h.closes == (if setup.hasOffer then 1 else 0) && ForConnect !in h.live
  {
    RunConserves(setup, replies);
  }

  /** However the attempt ends - success, error, or cancellation at any await - the peer connection
      has been closed exactly once, unless it is the returned transport, and then never. With no
      offerer, nothing is closed and nothing WebRTC is returned. */
  lemma OffererConservation(setup: Setup, replies: seq<Reply>)
    requires Feasible(setup, replies) && Run(setup, replies).Exited?
    ensures Run(setup, replies).closes + (if IsOfferer(Run(setup, replies).result) then 1 else 0)
         == if setup.hasOffer then 1 else 0
  {
    RunConserves(setup, replies);
  }

  /** Cancelling at any await of any run closes the peer connection if it was still open. */
  lemma CancellationCloses(setup: Setup, replies: seq<Reply>)
    requires Feasible(setup, replies) && Run(setup, replies).At?
    ensures Feasible(setup, replies + [Cancel])
    ensures Run(setup, replies + [Cancel]) == Exited(Cancelled, if setup.hasOffer then 1 else 0)
  {
    var cancelled := replies + [Cancel];
    assert cancelled[..|cancelled| - 1] == replies;
    RunConserves(setup, replies);
  }

  /** A direct WebRTC connection leaves an attempt in one of two places: where `connect` asked once more,
      after the handshake, whether it is relayed, and was told that it is not; or after the handshake of
      a relay round, which does not ask again. */
  predicate AnsweredNotRelayed(state: State, reply: Reply) {
    && state.At?
    && if state.point.ConnectCheck? then reply == Checked(Some(false)) else state.point.RelaySecure? && reply.Done?
  }

  lemma LastAnswer(setup: Setup, state: State, reply: Reply)
    requires Conserved(setup, state) && Enabled(setup, state, reply)
    requires Step(setup, state, reply).Exited? && Step(setup, state, reply).result.Connected?
    requires var link := Step(setup, state, reply).result.link; link.direct && link.conn.WebRtc?
    ensures AnsweredNotRelayed(state, reply)
  {
  }

  /** In every run that returns a connection, the direct flag is set only for a path known not to be
      relayed - also after a relay replaced a failed handshake; for WebRTC that is the answer given in the
      race and, on the way through `connect`, the answer to the check after the handshake as well. The
      label says WebRTC exactly for a WebRTC path. */
  lemma DirectFlagIsTruthful(setup: Setup, replies: seq<Reply>)
    requires Feasible(setup, replies)
    requires Run(setup, replies).Exited? && Run(setup, replies).result.Connected?
    ensures Truthful(Run(setup, replies).result.link)
    ensures var link := Run(setup, replies).result.link;
            link.direct && link.conn.WebRtc? ==>
              && replies != []
              && AnsweredNotRelayed(Run(setup, replies[..|replies| - 1]), replies[|replies| - 1])
  {
    RunConserves(setup, replies);
    var link := Run(setup, replies).result.link;
    if link.direct && link.conn.WebRtc? {
      RunConserves(setup, replies[..|replies| - 1]);
      LastAnswer(setup, Run(setup, replies[..|replies| - 1]), replies[|replies| - 1]);
    }
  }

  // ---------------------------------------------------------------------------------------------
  // Which label a connection is returned under
  // ---------------------------------------------------------------------------------------------

  predicate NamesPath(link: Link) {
    link.typ == LabelOf(link.conn)
  }

  /** The awaits of the two relay requests in `connect`. */
  predicate RequestsRelay(state: State) {
    state.At? && (state.point.ConnectRelay? || state.point.ConnectFallback?)
  }

  /** The run got past one of those requests. */
  predicate RelayRequested(setup: Setup, replies: seq<Reply>)
    requires Feasible(setup, replies)
  {
    replies != []
    && (|| RelayRequested(setup, replies[..|replies| - 1])
        || RequestsRelay(Run(setup, replies[..|replies| - 1])))
  }

  /** Before a request in `connect`, labels name their paths; after one, its relay is all there is. */
  predicate Labelled(setup: Setup, state: State, requested: bool) {
    match state
    case At(point, link, _) =>
      if requested then
        point.ConnectFallbackSecure? || (point.ConnectSecure? && link == Some(RequestedRelay(setup)))
      else
        !point.ConnectFallbackSecure? && (link.Some? ==> NamesPath(link.value))
    case Exited(result, _) =>
      result.Connected? ==> if requested then result.link == RequestedRelay(setup) else NamesPath(result.link)
  }

  lemma StepLabels(setup: Setup, state: State, requested: bool, reply: Reply)
    requires Labelled(setup, state, requested) && Enabled(setup, state, reply)
    ensures Labelled(setup, Step(setup, state, reply), requested || RequestsRelay(state))
  {
  }

  lemma {:induction false} RunLabels(setup: Setup, replies: seq<Reply>)
    requires Feasible(setup, replies)
    ensures Labelled(setup, Run(setup, replies), RelayRequested(setup, replies))
  {
    if replies != [] {
      var init := replies[..|replies| - 1];
      RunLabels(setup, init);
      StepLabels(setup, Run(setup, init), RelayRequested(setup, init), replies[|replies| - 1]);
    }
  }

  /** In every run that returns a connection, the label names its path if and only if it is not a relay
      that `connect` asked for over a WebSocket; such a relay is called `Relay`. */
  lemma LabelNamesPathIff(setup: Setup, replies: seq<Reply>)
    requires Feasible(setup, replies)
    requires Run(setup, replies).Exited? && Run(setup, replies).result.Connected?
    ensures NamesPath(Run(setup, replies).result.link) <==> !(setup.useWs && RelayRequested(setup, replies))
  {
    RunLabels(setup, replies);
    assert NamesPath(RequestedRelay(setup)) <==> !setup.useWs by {
      assert "WebSocket"[0] == 'W' && "Relay"[0] == 'R';
    }
  }

  lemma AppendReply(setup: Setup, replies: seq<Reply>, reply: Reply)
    requires Feasible(setup, replies) && Enabled(setup, Run(setup, replies), reply)
    ensures Feasible(setup, replies + [reply])
    ensures Run(setup, replies + [reply]) == Step(setup, Run(setup, replies), reply)
  {
    assert (replies + [reply])[..|replies|] == replies;
  }

  /** Replies that lead an attempt without an offerer through the rendezvous to its punch. */
  function ToThePunch(): seq<Reply> {
    [Done] + [Done]
  }

  /** And from there to its race. */
  function ToTheRace(): seq<Reply> {
    ToThePunch() + [Punched(false, true)] + [Done] + [Done]
  }

  lemma ReachesThePunch(setup: Setup)
    requires !setup.hasOffer && !setup.legacySecure
    ensures Feasible(setup, ToThePunch())
    ensures Run(setup, ToThePunch()) == At(Punching(1), None, Handles({}, 0))
  {
    assert [] + [Done] == [Done];
    AppendReply(setup, [], Done);
    AppendReply(setup, [Done], Done);
  }

  lemma PunchSteps(setup: Setup, h: Handles)
    requires h.live == {}
    ensures var punched := At(PunchedSockets(false, true), None, h);
            && Step(setup, At(Punching(1), None, h), Punched(false, true)) == punched
            && Step(setup, punched, Done) == At(ConnectNatType, None, h)
            && Step(setup, At(ConnectNatType, None, h), Done) == At(ConnectRace, None, h)
  {
    assert Close(h, Offerer) == h;
  }

  lemma PunchReachesTheRace(setup: Setup, replies: seq<Reply>, h: Handles)
    requires h.live == {} && Feasible(setup, replies) && Run(setup, replies) == At(Punching(1), None, h)
    ensures Feasible(setup, replies + [Punched(false, true)] + [Done] + [Done])
    ensures Run(setup, replies + [Punched(false, true)] + [Done] + [Done]) == At(ConnectRace, None, h)
  {
    PunchSteps(setup, h);
    var punched := replies + [Punched(false, true)];
    AppendReply(setup, replies, Punched(false, true));
    AppendReply(setup, punched, Done);
    AppendReply(setup, punched + [Done], Done);
  }

  /** A relay over a WebSocket is returned as `Relay` by an attempt that was punched, found no direct
      path, and asked for a relay. */
  lemma WebSocketCalledRelay(setup: Setup)
    requires !setup.hasOffer && !setup.legacySecure && setup.useWs && setup.forceRelay && setup.relayServer
    ensures var replies := ToTheRace() + [Fail] + [Done] + [Done];
            && Feasible(setup, replies)
            && Run(setup, replies) == Exited(Connected(Link(Relayed("WebSocket"), OtherLabel("Relay"), false)), 0)
            && !NamesPath(Run(setup, replies).result.link)
  {
    var race := ToTheRace();
    ReachesThePunch(setup);
    PunchReachesTheRace(setup, ToThePunch(), Handles({}, 0));
    AppendReply(setup, race, Fail);
    AppendReply(setup, race + [Fail], Done);
    AppendReply(setup, race + [Fail] + [Done], Done);
    assert "WebSocket"[0] == 'W' && "Relay"[0] == 'R';
  }
}
