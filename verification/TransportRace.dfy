/** The race between the WebRTC attempt and the other transports, preferring direct paths.

    A run is a schedule of events in the order the `select!` loop processes them: an attempt
    finishing, or the preference window elapsing. Which ready arm is taken, and how late, is left
    open: any order of events with non-decreasing clock readings is a schedule, as long as every
    event is one the loop could see at that point. */
module TransportRace {

  datatype Option<+T> = None | Some(value: T)

  type Error = string

  /** A connection and what the caller's `is_p2p` test says about it. */
  datatype Conn = Conn(name: string, direct: bool)

  datatype Outcome = Ok(conn: Conn) | Err(error: Error)

  /** Attempts are numbered; the WebRTC attempt is number 0. */
  type Attempt = nat

  const WEBRTC: Attempt := 0

  datatype Event =
    | Finished(now: nat, attempt: Attempt, outcome: Outcome)
    | WindowElapsed(now: nat)

  /** The loop's variables. `others` is the set a pending `select_ok` still polls. */
  datatype Race =
    | Racing(
        webrtcPending: bool,
        others: Option<set<Attempt>>,
        held: Option<Conn>,
        webrtcErr: Option<Error>,
        othersErr: Option<Error>,
        windowStarted: bool,
        deadline: nat)
    | Returned(outcome: Outcome)

  // ---------------------------------------------------------------------------------------------
  // The arms of the loop
  // ---------------------------------------------------------------------------------------------

  function Start(others: set<Attempt>): Race {
    Racing(true, Some(others), None, None, None, false, 0)
  }

  function Hold(race: Race, conn: Conn, now: nat, window: nat): Race
    requires race.Racing?
  {
    if race.held.None?
    then race.(held := Some(conn), deadline := now + window, windowStarted := true)
    else race
  }

  function OnWebrtc(race: Race, now: nat, outcome: Outcome, window: nat): Race
    requires race.Racing?
  {
    var race := race.(webrtcPending := false);
    match outcome
    case Ok(conn) =>
      if conn.direct || race.others.None? then Returned(Ok(conn)) else Hold(race, conn, now, window)
    case Err(e) =>
      if race.others.None? && race.held.Some? then Returned(Ok(race.held.value))
      else if race.othersErr.Some? then Returned(Err(e))
      else if race.others.None? then Returned(Err("WebRTC failed: " + e))
      else race.(webrtcErr := Some(e))
  }

  /** The other leg resolved: to a connection with `rest` still unfinished, or to an error. */
  function OnOthers(race: Race, now: nat, outcome: Outcome, rest: set<Attempt>, window: nat): Race
    requires race.Racing?
  {
    var race := race.(others := None);
    match outcome
    case Ok(conn) =>
      if conn.direct then Returned(Ok(conn))
      else if !race.webrtcPending && rest == {} then Returned(Ok(conn))
      else
        var holding := Hold(race, conn, now, window);
        if rest != {} then holding.(others := Some(rest)) else holding
    case Err(e) =>
      if race.webrtcErr.Some? || !race.webrtcPending then
        if race.held.Some? then Returned(Ok(race.held.value)) else Returned(Err(e))
      else race.(othersErr := Some(e))
  }

  function OnWindow(race: Race): Race
    requires race.Racing?
  {
    if race.held.Some? then Returned(Ok(race.held.value)) else race.(windowStarted := false)
  }

  predicate Enabled(race: Race, event: Event) {
    race.Racing?
    && match event
       case Finished(_, attempt, _) =>
         if attempt == WEBRTC then race.webrtcPending
         else race.others.Some? && attempt in race.others.value
       case WindowElapsed(now) => race.windowStarted && race.deadline <= now
  }

  /** `select_ok` swallows a failure while other attempts are left; it resolves on the first
      success, or on the last failure. */
  function Step(race: Race, event: Event, window: nat): Race
    requires Enabled(race, event)
  {
    match event
    case Finished(now, attempt, outcome) =>
      if attempt == WEBRTC then OnWebrtc(race, now, outcome, window)
      else
        var rest := race.others.value - {attempt};
        if outcome.Err? && rest != {} then race.(others := Some(rest))
        else OnOthers(race, now, outcome, rest, window)
    case WindowElapsed(now) => OnWindow(race)
  }

  // ---------------------------------------------------------------------------------------------
  // Runs
  // ---------------------------------------------------------------------------------------------

  function Last(schedule: seq<Event>): Event
    requires schedule != []
  {
    schedule[|schedule| - 1]
  }

  function Init(schedule: seq<Event>): seq<Event>
    requires schedule != []
  {
    schedule[..|schedule| - 1]
  }

  /** Every event was possible when the loop processed it, and the clock never ran backwards. */
  predicate Feasible(others: set<Attempt>, window: nat, schedule: seq<Event>)
    decreases |schedule|, 0
  {
    schedule == []
    || (&& Feasible(others, window, Init(schedule))
        && Enabled(Run(others, window, Init(schedule)), Last(schedule))
        && (Init(schedule) != [] ==> Last(Init(schedule)).now <= Last(schedule).now))
  }

  function Run(others: set<Attempt>, window: nat, schedule: seq<Event>): Race
    requires Feasible(others, window, schedule)
    decreases |schedule|, 1
  {
    if schedule == [] then Start(others)
    else Step(Run(others, window, Init(schedule)), Last(schedule), window)
  }

  // ---------------------------------------------------------------------------------------------
  // What a schedule says on its own
  // ---------------------------------------------------------------------------------------------

  /** The attempts that have finished. */
  function Done(schedule: seq<Event>): set<Attempt> {
    if schedule == [] then {}
    else Done(Init(schedule)) + (if Last(schedule).Finished? then {Last(schedule).attempt} else {})
  }

  predicate IsRelay(event: Event) {
    event.Finished? && event.outcome.Ok? && !event.outcome.conn.direct
  }

  /** The first event that brought a relayed connection. */
  function FirstRelay(schedule: seq<Event>): (r: Option<Event>)
    ensures r.Some? ==> IsRelay(r.value) && r.value in schedule
  {
    if schedule == [] then None
    else
      var earlier := FirstRelay(Init(schedule));
      if earlier.Some? then earlier
      else if IsRelay(Last(schedule)) then Some(Last(schedule)) else None
  }

  function Fallback(schedule: seq<Event>, otherwise: Outcome): Outcome {
    if FirstRelay(schedule).Some? then FirstRelay(schedule).value.outcome else otherwise
  }

  /** The rule the race implements, read off the schedule: a direct connection is taken at once;
      the window and a final failure fall back on the first relay; a final success is taken. */
  function Verdict(others: set<Attempt>, schedule: seq<Event>): Option<Outcome> {
    if schedule == [] then None
    else match Last(schedule)
         case Finished(_, _, outcome) =>
           if outcome.Ok? && outcome.conn.direct then Some(outcome)
           else if Done(schedule) != others + {WEBRTC} then None
           else if outcome.Ok? then Some(outcome)
           else Some(Fallback(schedule, outcome))
         case WindowElapsed(_) => Some(Fallback(schedule, Err("")))
  }

  // ---------------------------------------------------------------------------------------------
  // The invariant of the loop
  // ---------------------------------------------------------------------------------------------

  /** What the variables mean while the race is on. */
  ghost predicate Consistent(others: set<Attempt>, window: nat, schedule: seq<Event>, race: Race) {
    race.Racing?
    ==>
    var left, relay := others - Done(schedule), FirstRelay(schedule);
    && Done(schedule) <= others + {WEBRTC}
    && Done(schedule) != others + {WEBRTC}
    && (race.webrtcPending <==> WEBRTC !in Done(schedule))
    && race.others == (if left == {} then None else Some(left))
    && race.held == (if relay.Some? then Some(relay.value.outcome.conn) else None)
    && (race.windowStarted <==> relay.Some?)
    && (relay.Some? ==> race.deadline == relay.value.now + window)
    && (race.webrtcErr.Some? ==> !race.webrtcPending)
    && (race.othersErr.Some? ==> race.others.None?)
    && (race.others.None? && race.held.None? ==> race.othersErr.Some?)
  }

  lemma StartConsistent(others: set<Attempt>, window: nat)
    requires others != {} && WEBRTC !in others
    ensures Consistent(others, window, [], Start(others))
  {
    assert others - {} == others;
    assert WEBRTC in others + {WEBRTC};
  }

  /** One event keeps the meaning of the variables, and returns exactly the verdict. */
  lemma StepConsistent(others: set<Attempt>, window: nat, schedule: seq<Event>, race: Race)
    requires schedule != [] && others != {} && WEBRTC !in others
    requires Consistent(others, window, Init(schedule), race) && Enabled(race, Last(schedule))
    ensures Consistent(others, window, schedule, Step(race, Last(schedule), window))
    ensures Verdict(others, schedule)
         == match Step(race, Last(schedule), window) { case Returned(o) => Some(o) case Racing(_,_,_,_,_,_,_) => None }
  {
    var event, before := Last(schedule), Init(schedule);
    if event.Finished? {
      assert Done(schedule) == Done(before) + {event.attempt};
      assert others - Done(schedule) == (others - Done(before)) - {event.attempt};
      DoneIff(others, schedule);
      if event.attempt == WEBRTC {
        assert others - Done(schedule) == others - Done(before);
      }
    }
  }

  lemma DoneIff(others: set<Attempt>, schedule: seq<Event>)
    requires Done(schedule) <= others + {WEBRTC}
    ensures Done(schedule) == others + {WEBRTC} <==> WEBRTC in Done(schedule) && others - Done(schedule) == {}
  {
    forall a | a in others && others - Done(schedule) == {} ensures a in Done(schedule) {
      assert a in Done(schedule) || a in others - Done(schedule);
    }
  }

  /** In every run the variables mean what they should, and the race has returned exactly when the
      rule says so, with exactly the outcome the rule names. */
  lemma {:induction false} RunFollowsVerdict(others: set<Attempt>, window: nat, schedule: seq<Event>)
    requires others != {} && WEBRTC !in others && Feasible(others, window, schedule)
    ensures var race := Run(others, window, schedule);
            && Consistent(others, window, schedule, race)
            && (race.Racing? <==> Verdict(others, schedule).None?)
            && (race.Returned? ==> Verdict(others, schedule) == Some(race.outcome))
  {
    if schedule == [] {
      StartConsistent(others, window);
    } else {
      RunFollowsVerdict(others, window, Init(schedule));
      StepConsistent(others, window, schedule, Run(others, window, Init(schedule)));
    }
  }

  // ---------------------------------------------------------------------------------------------
  // What the race promises
  // ---------------------------------------------------------------------------------------------

  /** A relayed connection is returned only once every attempt has finished, or once the full
      window has passed since the first relayed result - and then it is that first result. */
  lemma RelayWaits(others: set<Attempt>, window: nat, schedule: seq<Event>)
    requires others != {} && WEBRTC !in others && Feasible(others, window, schedule)
    requires var race := Run(others, window, schedule);
             race.Returned? && race.outcome.Ok? && !race.outcome.conn.direct
    ensures || Done(schedule) == others + {WEBRTC}
            || (&& Last(schedule).WindowElapsed?
                && FirstRelay(schedule).Some?
                && FirstRelay(schedule).value.now + window <= Last(schedule).now
                && Run(others, window, schedule).outcome == FirstRelay(schedule).value.outcome)
  {
    RunFollowsVerdict(others, window, schedule);
    RunFollowsVerdict(others, window, Init(schedule));
  }

  /** While the race is on, the window is open exactly when a relayed result has arrived, and runs
      from the first such result: later ones never restart it. */
  lemma WindowRunsFromFirstRelay(others: set<Attempt>, window: nat, schedule: seq<Event>)
    requires others != {} && WEBRTC !in others && Feasible(others, window, schedule)
    requires Run(others, window, schedule).Racing?
    ensures var race := Run(others, window, schedule);
            && (race.windowStarted <==> race.held.Some?)
            && (race.windowStarted <==> FirstRelay(schedule).Some?)
            && (race.windowStarted ==> race.held == Some(FirstRelay(schedule).value.outcome.conn)
                                       && race.deadline == FirstRelay(schedule).value.now + window)
  {
    RunFollowsVerdict(others, window, schedule);
  }

  /** While the race is on, the window can elapse exactly if a relayed result has arrived, and from the
      instant of the first one plus the window on. */
  lemma WindowElapsesIff(others: set<Attempt>, window: nat, schedule: seq<Event>, now: nat)
    requires others != {} && WEBRTC !in others && Feasible(others, window, schedule)
    requires Run(others, window, schedule).Racing?
    ensures Enabled(Run(others, window, schedule), WindowElapsed(now))
       <==> FirstRelay(schedule).Some? && FirstRelay(schedule).value.now + window <= now
  {
    RunFollowsVerdict(others, window, schedule);
  }

  predicate IsDirect(event: Event) {
    event.Finished? && event.outcome.Ok? && event.outcome.conn.direct
  }

  /** While the race is on, no direct result has been processed and the window has not elapsed. */
  lemma {:induction false} RacingEvents(others: set<Attempt>, window: nat, schedule: seq<Event>)
    requires others != {} && WEBRTC !in others && Feasible(others, window, schedule)
    requires Run(others, window, schedule).Racing?
    ensures forall i | 0 <= i < |schedule| :: schedule[i].Finished? && !IsDirect(schedule[i])
  {
    if schedule != [] {
      RunFollowsVerdict(others, window, schedule);
      RacingEvents(others, window, Init(schedule));
      forall i | 0 <= i < |schedule| ensures schedule[i].Finished? && !IsDirect(schedule[i]) {
        assert i < |schedule| - 1 ==> schedule[i] == Init(schedule)[i];
      }
    }
  }

  /** Every event but the last was processed with the race still on afterwards. */
  lemma EarlierEvents(others: set<Attempt>, window: nat, schedule: seq<Event>)
    requires others != {} && WEBRTC !in others && Feasible(others, window, schedule)
    ensures forall i | 0 <= i < |schedule| - 1 :: schedule[i].Finished? && !IsDirect(schedule[i])
  {
    if schedule != [] {
      RacingEvents(others, window, Init(schedule));
      forall i | 0 <= i < |schedule| - 1 ensures schedule[i].Finished? && !IsDirect(schedule[i]) {
        assert schedule[i] == Init(schedule)[i];
      }
    }
  }

  /** A direct result ends the race the moment it is processed, and is what the race returns. */
  lemma DirectWinsAtOnce(others: set<Attempt>, window: nat, schedule: seq<Event>, i: nat)
    requires others != {} && WEBRTC !in others && Feasible(others, window, schedule)
    requires i < |schedule| && IsDirect(schedule[i])
    ensures i == |schedule| - 1
    ensures Run(others, window, schedule) == Returned(schedule[i].outcome)
  {
    EarlierEvents(others, window, schedule);
    RunFollowsVerdict(others, window, schedule);
  }

  lemma {:induction false} NoRelay(schedule: seq<Event>)
    ensures FirstRelay(schedule).None? <==> forall i | 0 <= i < |schedule| :: !IsRelay(schedule[i])
  {
    if schedule != [] {
      NoRelay(Init(schedule));
      forall i | 0 <= i < |schedule| - 1 ensures schedule[i] == Init(schedule)[i] {}
      assert Last(schedule) == schedule[|schedule| - 1];
      if FirstRelay(schedule).None? {
        forall i | 0 <= i < |schedule| ensures !IsRelay(schedule[i]) {
          assert i < |schedule| - 1 ==> !IsRelay(Init(schedule)[i]);
        }
      }
    }
  }

  predicate Failed(event: Event) {
    event.Finished? && event.outcome.Err?
  }

  /** The race fails exactly when every attempt has failed, and reports the last failure as is. */
  lemma FailsIffAllFailed(others: set<Attempt>, window: nat, schedule: seq<Event>)
    requires others != {} && WEBRTC !in others && Feasible(others, window, schedule)
    ensures var race := Run(others, window, schedule);
            && (race.Returned? && race.outcome.Err?
                <==> Done(schedule) == others + {WEBRTC}
                     && forall i | 0 <= i < |schedule| :: Failed(schedule[i]))
            && (race.Returned? && race.outcome.Err? ==> race.outcome == Last(schedule).outcome)
  {
    RunFollowsVerdict(others, window, schedule);
    NoRelay(schedule);
    EarlierEvents(others, window, schedule);
    if schedule != [] {
      RunFollowsVerdict(others, window, Init(schedule));
    }
  }

  /** The loop cannot block for ever: while the race is on some attempt is unfinished, and the arm
      that waits for it is enabled whatever it brings. */
  lemma NeverStuck(others: set<Attempt>, window: nat, schedule: seq<Event>)
      returns (attempt: Attempt)
    requires others != {} && WEBRTC !in others && Feasible(others, window, schedule)
    requires Run(others, window, schedule).Racing?
    ensures attempt in others + {WEBRTC} - Done(schedule)
    ensures forall now, outcome ::
              Enabled(Run(others, window, schedule), Finished(now, attempt, outcome))
  {
    RunFollowsVerdict(others, window, schedule);
    var left := others + {WEBRTC} - Done(schedule);
    assert Done(schedule) + left == others + {WEBRTC};
    assert left == {} ==> Done(schedule) + left == Done(schedule);
    var unfinished :| unfinished in left;
    attempt := unfinished;
    assert attempt != WEBRTC ==> attempt in others - Done(schedule);
  }

  /** Every event but a last one uses up an attempt, so a run processes no more events than there
      are attempts. */
  lemma {:induction false} RunIsBounded(others: set<Attempt>, window: nat, schedule: seq<Event>)
    requires others != {} && WEBRTC !in others && Feasible(others, window, schedule)
    ensures |schedule| <= |others| + 1
    ensures Run(others, window, schedule).Racing? ==> |schedule| == |Done(schedule)| <= |others|
  {
    RunFollowsVerdict(others, window, schedule);
    if schedule != [] {
      RunFollowsVerdict(others, window, Init(schedule));
      RunIsBounded(others, window, Init(schedule));
      if Run(others, window, schedule).Racing? {
        assert Done(schedule) == Done(Init(schedule)) + {Last(schedule).attempt};
        ProperSubsetIsSmaller(Done(schedule), others + {WEBRTC});
      }
    }
  }

  lemma ProperSubsetIsSmaller(a: set<Attempt>, b: set<Attempt>)
    requires a <= b && a != b
    ensures |a| < |b|
  {
    assert a + (b - a) == b && (b - a == {} ==> a + (b - a) == a);
    var x :| x in b - a;
    assert a <= b - {x};
    SubsetIsNoLarger(a, b - {x});
  }

  lemma {:induction false} SubsetIsNoLarger(a: set<Attempt>, b: set<Attempt>)
    requires a <= b
    ensures |a| <= |b|
  {
    if a != {} {
      var x :| x in a;
      SubsetIsNoLarger(a - {x}, b - {x});
    }
  }

  // ---------------------------------------------------------------------------------------------
  // The loop itself
  // ---------------------------------------------------------------------------------------------

  /** One turn of the loop: the arm that is taken updates the loop's variables, or returns. */
  method Select(race: Race, event: Event, window: nat) returns (next: Race)
    requires Enabled(race, event)
    ensures next == Step(race, event, window)
  {
    var Racing(webrtcPending, others, held, webrtcErr, othersErr, windowStarted, deadline) := race;
    var result: Option<Outcome> := None;
    match event {
      case Finished(now, attempt, outcome) =>
        if attempt == WEBRTC {
          webrtcPending := false;
          match outcome {
            case Ok(conn) =>
              if conn.direct || others.None? {
                result := Some(Ok(conn));
              } else if held.None? {
                held, deadline, windowStarted := Some(conn), now + window, true;
              }
            case Err(e) =>
              if others.None? && held.Some? {
                result := Some(Ok(held.value));
              } else if othersErr.Some? {
                result := Some(Err(e));
              } else if others.None? {
                result := Some(Err("WebRTC failed: " + e));
              } else {
                webrtcErr := Some(e);
              }
          }
        } else {
          var unfinished := others.value - {attempt};
          if outcome.Err? && unfinished != {} {
            others := Some(unfinished);
          } else {
            others := None;
            match outcome {
              case Ok(conn) =>
                if conn.direct || (!webrtcPending && unfinished == {}) {
                  result := Some(Ok(conn));
                } else {
                  if held.None? {
                    held, deadline, windowStarted := Some(conn), now + window, true;
                  }
                  if unfinished != {} {
                    others := Some(unfinished);
                  }
                }
              case Err(e) =>
                if webrtcErr.Some? || !webrtcPending {
                  result := if held.Some? then Some(Ok(held.value)) else Some(Err(e));
                } else {
                  othersErr := Some(e);
                }
            }
          }
        }
      case WindowElapsed(now) =>
        if held.Some? {
          result := Some(Ok(held.value));
        } else {
          windowStarted := false;
        }
    }
    next := if result.Some? then Returned(result.value)
            else Racing(webrtcPending, others, held, webrtcErr, othersErr, windowStarted, deadline);
  }

  /** The race over the events of any feasible schedule. It returns nothing when the schedule ends
      while the race is still on. */
  method RaceTransports(others: set<Attempt>, window: nat, schedule: seq<Event>)
      returns (result: Option<Outcome>)
    requires others != {} && WEBRTC !in others && Feasible(others, window, schedule)
    ensures result == Verdict(others, schedule)
  {
    RunFollowsVerdict(others, window, schedule);
    var race := Start(others);
    for i := 0 to |schedule|
      invariant Feasible(others, window, schedule[..i])
      invariant race == Run(others, window, schedule[..i])
    {
      PrefixFeasible(others, window, schedule, i + 1);
      assert Init(schedule[..i + 1]) == schedule[..i];
      race := Select(race, schedule[i], window);
    }
    assert schedule[..|schedule|] == schedule;
    result := match race { case Returned(outcome) => Some(outcome) case Racing(_,_,_,_,_,_,_) => None };
  }

  lemma {:induction false} PrefixFeasible(others: set<Attempt>, window: nat, schedule: seq<Event>, n: nat)
    requires Feasible(others, window, schedule) && n <= |schedule|
    ensures Feasible(others, window, schedule[..n])
    decreases |schedule| - n
  {
    if n == |schedule| {
      assert schedule[..n] == schedule;
    } else {
      PrefixFeasible(others, window, schedule, n + 1);
      assert Init(schedule[..n + 1]) == schedule[..n];
    }
  }
}
