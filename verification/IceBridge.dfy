/** The bridge that sends local ICE candidates to the peer and sends each again after a delay. A
    candidate is known by its number in the stream of local candidates. */
module IceBridge {

  const RESEND_DELAY: nat := 400

  /** A candidate that was sent at an instant, in milliseconds, and waits to be sent again. */
  datatype Entry = Entry(at: nat, id: nat)

  /** A look at an entry, and the clock at that look. */
  datatype Visit = Visit(entry: Entry, now: nat)

  predicate Due(visit: Visit) {
    visit.now - visit.entry.at >= RESEND_DELAY
  }

  // ---------------------------------------------------------------------------------------------
  // Taking an element out
  // ---------------------------------------------------------------------------------------------

  /** Puts the last element in the place of the one that is taken out. */
  function SwapRemove<T>(s: seq<T>, i: nat): (r: seq<T>)
    requires i < |s|
    ensures |r| == |s| - 1 && r[..i] == s[..i]
  {
    s[i := s[|s| - 1]][..|s| - 1]
  }

  lemma CutOut<T>(s: seq<T>, i: nat)
    requires i < |s|
    ensures multiset(s) == multiset(s[..i]) + multiset{s[i]} + multiset(s[i + 1..])
  {
    assert s == s[..i] + [s[i]] + s[i + 1..];
  }

  /** Only the element asked for is gone. */
  lemma SwapRemoveTakesOne<T>(s: seq<T>, i: nat)
    requires i < |s|
    ensures multiset(SwapRemove(s, i)) + multiset{s[i]} == multiset(s)
  {
    var last := |s| - 1;
    assert s == s[..last] + [s[last]];
    if i < last {
      var init, rest := s[..last], SwapRemove(s, i);
      CutOut(init, i);
      CutOut(rest, i);
      assert rest[..i] == init[..i] && rest[i + 1..] == init[i + 1..] && rest[i] == s[last];
    } else {
      assert SwapRemove(s, i) == s[..last];
    }
  }

  function Ids(entries: seq<Entry>): (ids: seq<nat>)
    ensures |ids| == |entries|
  {
    seq(|entries|, i requires 0 <= i < |entries| => entries[i].id)
  }

  lemma IdsMore(entries: seq<Entry>, entry: Entry)
    ensures Ids(entries + [entry]) == Ids(entries) + [entry.id]
  {
  }

  lemma IdsSwapRemove(entries: seq<Entry>, i: nat)
    requires i < |entries|
    ensures Ids(SwapRemove(entries, i)) == SwapRemove(Ids(entries), i)
  {
  }

  // ---------------------------------------------------------------------------------------------
  // The account
  // ---------------------------------------------------------------------------------------------

  /** Every candidate received is owed two copies: those sent, and one more if it waits or if its first
      copy could not be sent. */
  predicate BalancedFor(attempts: seq<nat>, pending: seq<Entry>, lost: seq<nat>, received: nat, id: nat) {
    var missing := multiset(Ids(pending))[id] + multiset(lost)[id];
    missing <= 1 && multiset(attempts)[id] + missing == if id < received then 2 else 0
  }

  ghost predicate Balanced(attempts: seq<nat>, pending: seq<Entry>, lost: seq<nat>, received: nat) {
    forall id: nat :: BalancedFor(attempts, pending, lost, received, id)
  }

  /** So each candidate is sent once, or once more, and nothing else is sent. */
  lemma SentOnceOrTwice(attempts: seq<nat>, pending: seq<Entry>, lost: seq<nat>, received: nat, id: nat)
    requires Balanced(attempts, pending, lost, received)
    ensures id < received ==> 1 <= multiset(attempts)[id] <= 2
    ensures id < received ==> (multiset(attempts)[id] == 1 <==> multiset(Ids(pending))[id] + multiset(lost)[id] == 1)
    ensures id >= received ==> multiset(attempts)[id] == 0
  {
    assert BalancedFor(attempts, pending, lost, received, id);
  }

  lemma BalancedReceive(attempts: seq<nat>, pending: seq<Entry>, received: nat, at: nat)
    requires Balanced(attempts, pending, [], received)
    ensures Balanced(attempts + [received], pending + [Entry(at, received)], [], received + 1)
    ensures Balanced(attempts + [received], pending, [received], received + 1)
  {
    var sent, after := attempts + [received], received + 1;
    forall id: nat
      ensures BalancedFor(sent, pending + [Entry(at, received)], [], after, id)
      ensures BalancedFor(sent, pending, [received], after, id)
    {
      assert BalancedFor(attempts, pending, [], received, id);
      IdsMore(pending, Entry(at, received));
    }
  }

  lemma BalancedResend(attempts: seq<nat>, pending: seq<Entry>, received: nat, i: nat)
    requires Balanced(attempts, pending, [], received) && i < |pending|
    ensures Balanced(attempts + [pending[i].id], SwapRemove(pending, i), [], received)
  {
    forall id: nat ensures BalancedFor(attempts + [pending[i].id], SwapRemove(pending, i), [], received, id) {
      assert BalancedFor(attempts, pending, [], received, id);
      IdsSwapRemove(pending, i);
      SwapRemoveTakesOne(Ids(pending), i);
    }
  }

  // ---------------------------------------------------------------------------------------------
  // What a sweep looks at
  // ---------------------------------------------------------------------------------------------

  function Entries(visits: seq<Visit>): seq<Entry> {
    seq(|visits|, i requires 0 <= i < |visits| => visits[i].entry)
  }

  /** Of the entries looked at, those found due, or those found not due. */
  function Found(visits: seq<Visit>, due: bool): seq<Entry> {
    if visits == [] then []
    else
      var last := visits[|visits| - 1];
      Found(visits[..|visits| - 1], due) + (if Due(last) == due then [last.entry] else [])
  }

  lemma OneMoreVisit(visits: seq<Visit>, visit: Visit)
    ensures Entries(visits + [visit]) == Entries(visits) + [visit.entry]
    ensures Found(visits + [visit], Due(visit)) == Found(visits, Due(visit)) + [visit.entry]
    ensures Found(visits + [visit], !Due(visit)) == Found(visits, !Due(visit))
  {
    assert (visits + [visit])[..|visits|] == visits;
  }

  lemma OneMore<T>(s: seq<T>, y: T, x: T)
    ensures multiset(s + [y])[x] == multiset(s)[x] + (if y == x then 1 else 0)
  {
  }

  /** What a sweep has done with one entry when it is at `i`: what it found due is taken out, what it
      found not due stands before `i`, and it looked at nothing else. */
  predicate SweptFor(before: seq<Entry>, pending: seq<Entry>, i: nat, visits: seq<Visit>, e: Entry) {
    && i <= |pending|
    && multiset(pending)[e] + multiset(Found(visits, true))[e] == multiset(before)[e]
    && multiset(pending[..i])[e] == multiset(Found(visits, false))[e]
    && multiset(Found(visits, true))[e] + multiset(Found(visits, false))[e] == multiset(Entries(visits))[e]
  }

  ghost predicate Swept(before: seq<Entry>, pending: seq<Entry>, i: nat, visits: seq<Visit>) {
    forall e :: SweptFor(before, pending, i, visits, e)
  }

  lemma SweepTakes(before: seq<Entry>, pending: seq<Entry>, i: nat, visits: seq<Visit>, now: nat)
    requires Swept(before, pending, i, visits) && i < |pending| && Due(Visit(pending[i], now))
    ensures Swept(before, SwapRemove(pending, i), i, visits + [Visit(pending[i], now)])
  {
    var visit := Visit(pending[i], now);
    OneMoreVisit(visits, visit);
    forall e ensures SweptFor(before, SwapRemove(pending, i), i, visits + [visit], e) {
      assert SweptFor(before, pending, i, visits, e);
      SwapRemoveTakesOne(pending, i);
      OneMore(Found(visits, true), pending[i], e);
      OneMore(Entries(visits), pending[i], e);
    }
  }

  lemma SweepKeeps(before: seq<Entry>, pending: seq<Entry>, i: nat, visits: seq<Visit>, now: nat)
    requires Swept(before, pending, i, visits) && i < |pending| && !Due(Visit(pending[i], now))
    ensures Swept(before, pending, i + 1, visits + [Visit(pending[i], now)])
  {
    var visit := Visit(pending[i], now);
    OneMoreVisit(visits, visit);
    var after := i + 1;
    forall e ensures SweptFor(before, pending, after, visits + [visit], e) {
      assert SweptFor(before, pending, i, visits, e);
      assert pending[..after] == pending[..i] + [pending[i]];
      OneMore(pending[..i], pending[i], e);
      OneMore(Found(visits, false), pending[i], e);
      OneMore(Entries(visits), pending[i], e);
    }
  }

  /** Each look read the clock anew. */
  ghost predicate Timed(visits: seq<Visit>, clock: nat -> nat, reading: nat) {
    forall k: nat | k < |visits| :: visits[k].now == clock(reading + k)
  }

  lemma TimedMore(visits: seq<Visit>, clock: nat -> nat, reading: nat, entry: Entry)
    requires Timed(visits, clock, reading)
    ensures Timed(visits + [Visit(entry, clock(reading + |visits|))], clock, reading)
  {
  }

  /** How far a sweep has come, and what it has sent. */
  ghost predicate Sweeping(before: seq<Entry>, sent: seq<nat>, pending: seq<Entry>, attempts: seq<nat>,
                           i: nat, visits: seq<Visit>) {
    && Swept(before, pending, i, visits)
    && i <= |pending| && |pending| - i + |visits| == |before|
    && attempts == sent + Ids(Found(visits, true))
  }

  lemma SweepingTakes(before: seq<Entry>, sent: seq<nat>, pending: seq<Entry>, attempts: seq<nat>,
                      i: nat, visits: seq<Visit>, now: nat)
    requires Sweeping(before, sent, pending, attempts, i, visits)
    requires i < |pending| && Due(Visit(pending[i], now))
    ensures Sweeping(before, sent, SwapRemove(pending, i), attempts + [pending[i].id],
                     i, visits + [Visit(pending[i], now)])
  {
    SweepTakes(before, pending, i, visits, now);
    OneMoreVisit(visits, Visit(pending[i], now));
    IdsMore(Found(visits, true), pending[i]);
  }

  lemma SweepingKeeps(before: seq<Entry>, sent: seq<nat>, pending: seq<Entry>, attempts: seq<nat>,
                      i: nat, visits: seq<Visit>, now: nat)
    requires Sweeping(before, sent, pending, attempts, i, visits)
    requires i < |pending| && !Due(Visit(pending[i], now))
    ensures Sweeping(before, sent, pending, attempts, i + 1, visits + [Visit(pending[i], now)])
  {
    SweepKeeps(before, pending, i, visits, now);
    OneMoreVisit(visits, Visit(pending[i], now));
  }

  /** A sweep that reached the end looked at each entry once, and what is left is what it found not
      due. */
  lemma SweepEnds(before: seq<Entry>, pending: seq<Entry>, visits: seq<Visit>)
    requires Swept(before, pending, |pending|, visits)
    ensures multiset(Entries(visits)) == multiset(before)
    ensures multiset(pending) == multiset(Found(visits, false))
  {
    assert pending[..|pending|] == pending;
    forall e
      ensures multiset(Entries(visits))[e] == multiset(before)[e]
      ensures multiset(pending)[e] == multiset(Found(visits, false))[e]
    {
      assert SweptFor(before, pending, |pending|, visits, e);
    }
  }

  predicate AllDue(visits: seq<Visit>) {
    forall k | 0 <= k < |visits| :: Due(visits[k])
  }

  lemma {:induction false} NoneKept(visits: seq<Visit>)
    requires AllDue(visits)
    ensures Found(visits, false) == []
    decreases |visits|
  {
    if visits != [] {
      NoneKept(visits[..|visits| - 1]);
    }
  }

  /** Each of the first `n` candidates was sent twice. */
  ghost predicate SentTwice(attempts: seq<nat>, n: nat) {
    forall id: nat | id < n :: multiset(attempts)[id] == 2
  }

  /** If it found every entry due, each candidate received has now been sent exactly twice. */
  lemma AllDueMeansTwice(attempts: seq<nat>, pending: seq<Entry>, received: nat, visits: seq<Visit>)
    requires Balanced(attempts, pending, [], received) && multiset(pending) == multiset(Found(visits, false))
    requires AllDue(visits)
    ensures pending == [] && SentTwice(attempts, received)
  {
    NoneKept(visits);
    assert |multiset(pending)| == 0;
    forall id: nat | id < received ensures multiset(attempts)[id] == 2 {
      SentOnceOrTwice(attempts, pending, [], received, id);
    }
  }

  lemma SweepFinishes(before: seq<Entry>, attempts: seq<nat>, pending: seq<Entry>, received: nat, visits: seq<Visit>)
    requires Swept(before, pending, |pending|, visits) && Balanced(attempts, pending, [], received)
    ensures multiset(Entries(visits)) == multiset(before)
    ensures multiset(pending) == multiset(Found(visits, false))
    ensures AllDue(visits) ==> SentTwice(attempts, received)
  {
    SweepEnds(before, pending, visits);
    if AllDue(visits) {
      AllDueMeansTwice(attempts, pending, received, visits);
    }
  }

  // ---------------------------------------------------------------------------------------------
  // The bridge
  // ---------------------------------------------------------------------------------------------

  /** Whether an attempt to send succeeds, by its number, and what the clock shows, by the number of
      the reading: both come from outside. */
  type SendOk = nat -> bool
  type Clock = nat -> nat

  class Bridge {
    const sendOk: SendOk
    const clock: Clock
    var pending: seq<Entry>
    var attempts: seq<nat>
    var received: nat
    var readings: nat
    var alive: bool
    ghost var lost: seq<nat>

    ghost predicate Valid()
      reads this
    {
      Balanced(attempts, pending, lost, received) && (alive ==> lost == [])
    }

    constructor (sendOk: SendOk, clock: Clock)
      ensures Valid() && alive && pending == [] && attempts == [] && received == 0
    {
      this.sendOk, this.clock := sendOk, clock;
      pending, attempts, received, readings, alive, lost := [], [], 0, 0, true, [];
    }

    /** Sends the next local candidate at once, and keeps it for later; a failure ends the bridge. */
    method Forward()
      requires Valid() && alive
      modifies this
      ensures Valid() && received == old(received) + 1
      ensures attempts == old(attempts) + [old(received)]
      ensures alive <==> sendOk(|old(attempts)|)
      ensures alive ==> pending == old(pending) + [Entry(clock(old(readings)), old(received))]
      ensures !alive ==> pending == old(pending)
      ensures readings == old(readings) + if alive then 1 else 0
    {
      BalancedReceive(attempts, pending, received, clock(readings));
      var id := received;
      received := received + 1;
      attempts := attempts + [id];
      if !sendOk(|attempts| - 1) {
        alive, lost := false, [id];
        return;
      }
      pending := pending + [Entry(clock(readings), id)];
      readings := readings + 1;
    }

    /** Empties the channel of local candidates. */
    method Drain(available: nat)
      requires Valid() && alive
      modifies this
      ensures Valid() && |old(attempts)| <= |attempts|
      ensures received == old(received) + |attempts| - |old(attempts)|
      ensures attempts[..|old(attempts)|] == old(attempts)
      ensures forall k | |old(attempts)| <= k < |attempts| :: attempts[k] == old(received) + k - |old(attempts)|
      ensures alive ==> received == old(received) + available
    {
      for n := 0 to available
        invariant Valid() && alive && |attempts| == |old(attempts)| + n && received == old(received) + n
        invariant attempts[..|old(attempts)|] == old(attempts)
        invariant forall k | |old(attempts)| <= k < |attempts| :: attempts[k] == old(received) + k - |old(attempts)|
      {
        Forward();
        if !alive {
          return;
        }
      }
    }

    /** Reads the clock. */
    method Now() returns (now: nat)
      requires Valid()
      modifies `readings
      ensures Valid() && readings == old(readings) + 1 && now == clock(old(readings))
    {
      now := clock(readings);
      readings := readings + 1;
    }

    /** Takes a waiting entry out and sends it again. */
    method Resend(i: nat)
      requires Valid() && alive && i < |pending|
      modifies `pending, `attempts, `alive
      ensures Valid()
      ensures pending == SwapRemove(old(pending), i) && attempts == old(attempts) + [old(pending)[i].id]
      ensures alive <==> sendOk(|old(attempts)|)
    {
      BalancedResend(attempts, pending, received, i);
      var entry := pending[i];
      pending := SwapRemove(pending, i);
      attempts := attempts + [entry.id];
      alive := sendOk(|attempts| - 1);
    }

    /** One look of a sweep, at the entry that stands at `i`. */
    method Look(i: nat, ghost before: seq<Entry>, ghost sent: seq<nat>, ghost visits: seq<Visit>)
      returns (next: nat, ghost visit: Visit)
      requires Valid() && alive && i < |pending| && Sweeping(before, sent, pending, attempts, i, visits)
      modifies `pending, `attempts, `alive, `readings
      ensures Valid() && Sweeping(before, sent, pending, attempts, next, visits + [visit])
      ensures visit == Visit(old(pending)[i], clock(old(readings))) && readings == old(readings) + 1
      ensures |pending| - next == |old(pending)| - i - 1
      ensures next == if visit.now >= visit.entry.at + 400 then i else i + 1
      ensures !alive ==> Due(visit) && !sendOk(|attempts| - 1)
    {
      next := i;
      var entry := pending[i];
      var now := Now();
      visit := Visit(entry, now);
      if now - entry.at >= RESEND_DELAY {
        SweepingTakes(before, sent, pending, attempts, i, visits, now);
        Resend(i);
      } else {
        SweepingKeeps(before, sent, pending, attempts, i, visits, now);
        next := i + 1;
      }
    }

    /** Looks at every waiting entry once, with a fresh reading of the clock, and takes out and sends
        again exactly those it finds due; a failure ends the bridge. */
    method Sweep() returns (ghost visits: seq<Visit>)
      requires Valid() && alive
      modifies `pending, `attempts, `alive, `readings
      ensures Valid()
      ensures attempts == old(attempts) + Ids(Found(visits, true))
      ensures |visits| <= |old(pending)| && Timed(visits, clock, old(readings))
      ensures alive ==> multiset(Entries(visits)) == multiset(old(pending))
      ensures alive ==> multiset(pending) == multiset(Found(visits, false))
      ensures alive && AllDue(visits) ==> SentTwice(attempts, received)
      ensures !alive ==> visits != [] && Due(visits[|visits| - 1]) && !sendOk(|attempts| - 1)
    {
      var i: nat := 0;
      visits := [];
      while i < |pending|
        invariant Valid() && alive
        invariant Sweeping(old(pending), old(attempts), pending, attempts, i, visits)
        invariant readings == old(readings) + |visits| && Timed(visits, clock, old(readings))
        decreases |pending| - i
      {
        TimedMore(visits, clock, old(readings), pending[i]);
        ghost var visit;
        i, visit := Look(i, old(pending), old(attempts), visits);
        visits := visits + [visit];
        if !alive {
          return;
        }
      }
      SweepFinishes(old(pending), attempts, pending, received, visits);
    }

    /** Rounds of the bridge's loop, each with the candidates that wait for it; it may be stopped after
        any of them. */
    method Loop(rounds: seq<nat>)
      requires Valid() && alive && received == 0 && attempts == []
      modifies this
      ensures Valid()
      ensures forall id: nat :: id < received ==> 1 <= multiset(attempts)[id] <= 2
      ensures forall id: nat :: id >= received ==> multiset(attempts)[id] == 0
    {
      for n := 0 to |rounds|
        invariant Valid()
      {
        if !alive {
          break;
        }
        Drain(rounds[n]);
        if !alive {
          break;
        }
        ghost var visits := Sweep();
      }
      forall id: nat
        ensures id < received ==> 1 <= multiset(attempts)[id] <= 2
        ensures id >= received ==> multiset(attempts)[id] == 0
      {
        SentOnceOrTwice(attempts, pending, lost, received, id);
      }
    }
  }
}
