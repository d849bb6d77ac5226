/**
 How often an object can be retrieved: exactly which states allow one more retrieval, and a
 discipline of the callers and the database under which each object is retrieved at most once.
 */
module Web5ConnectUses {
  import opened Wrappers
  import opened TtlCache
  import opened Web5Connect
  import opened Web5ConnectOnce

  // ---------------------------------------------------------------- one more retrieval

  /** Some way to go on without setting the key again hands its object out once more. */
  ghost predicate CanBeRetrieved(s: Exchange, key: string) {
    exists events: seq<Event> ::
      Timely(s.clock, events) && Sets(events, key) == 0
      && Retrievals(RunEvents(s, events).retrieved, key) > Retrievals(s.retrieved, key)
  }

  /** Before the expiry the row is still in the table, or in the hands of a caller that has not been resumed. */
  predicate WithinReach(s: Exchange, key: string) {
    key in s.arrived && s.clock < s.arrived[key].expiry && (key in s.db.table || Found(s.db.pending, key) > 0)
  }

  ghost predicate OutOfReach(s: Exchange, key: string) {
    LifeOf(s, key) && key in s.arrived && !WithinReach(s, key)
  }

  lemma {:induction false} SomeoneFound(ops: seq<DbOp>, key: string) returns (at: nat)
    requires Found(ops, key) > 0
    ensures at < |ops| && ops[at].Fetched? && ops[at].key == key && ops[at].answer.Some?
  {
    at := |ops| - 1;
    if FoundWeight(ops[at], key) == 0 {
      at := SomeoneFound(ops[..at], key);
    }
  }

  lemma {:induction false} NobodyFound(ops: seq<DbOp>, key: string)
    requires forall i :: 0 <= i < |ops| && ops[i].Fetched? && ops[i].key == key ==> ops[i].answer.None?
    ensures Found(ops, key) == 0
  {
    if ops != [] {
      NobodyFound(ops[..|ops| - 1], key);
    }
  }

  lemma LandingReachesNothing(s: Exchange, at: nat, key: string)
    requires OutOfReach(s, key) && at < |s.db.pending|
    ensures var t := LandAt(s, at);
            key in t.arrived && t.arrived[key] == s.arrived[key] && !WithinReach(t, key) && t.retrieved == s.retrieved
  {
    var op := s.db.pending[at];
    CountMember(s.db.pending, at, key);
    CountWithout(s.db.pending, at, key);
    if op.Read? {
      CountSnoc(Without(s.db.pending, at), Fetched(op.key, Lookup(s.db.table, op.key)), key);
    }
  }

  lemma ResumingReachesNothing(s: Exchange, at: nat, key: string, now: int)
    requires OutOfReach(s, key) && s.clock <= now && at < |s.db.pending| && s.db.pending[at].Fetched?
    ensures var t := ResumeAt(s, at, now).(clock := now);
            !WithinReach(t, key) && Retrievals(t.retrieved, key) == Retrievals(s.retrieved, key)
  {
    var op, rest := s.db.pending[at], Without(s.db.pending, at);
    CountMember(s.db.pending, at, key);
    CountWithout(s.db.pending, at, key);
    assert Fits(op, key, Arrived(s, key), Spent(s, key), s.clock);
    if op.answer.None? {
      assert ResumeAt(s, at, now).db.pending == rest;
    } else {
      CountSnoc(rest, Delete(op.key), key);
      assert ResumeAt(s, at, now).db.pending == rest + [Delete(op.key)];
      if Answer(op, now).Some? {
        RetrievalsSnoc(s.retrieved, Retrieval(op.key, Answer(op, now).value, now), key);
      }
    }
  }

  lemma IssuingReachesNothing(s: Exchange, op: DbOp, key: string)
    requires OutOfReach(s, key) && !op.Fetched?
    ensures !WithinReach(Issue(s, op), key)
  {
    CountSnoc(s.db.pending, op, key);
  }

  lemma OutOfReachStep(s: Exchange, event: Event, key: string)
    requires OutOfReach(s, key) && s.clock <= event.now && !(event.Set? && event.key == key)
    ensures var t := After(s, event);
            OutOfReach(t, key) && Retrievals(t.retrieved, key) == Retrievals(s.retrieved, key)
  {
    StepKeepsLife(s, event, key);
    match event
    case Set(now, k, value) => IssuingReachesNothing(s, Insert(k, Row(value, Expiry(now, TTL_IN_SECONDS))), key);
    case Poll(_, k) => IssuingReachesNothing(s, Read(k), key);
    case Tick(now) => IssuingReachesNothing(s, CleanUp(now), key);
    case Land(_, at) => if at < |s.db.pending| { LandingReachesNothing(s, at, key); }
    case Resume(now, at) =>
      if at < |s.db.pending| && s.db.pending[at].Fetched? { ResumingReachesNothing(s, at, key, now); }
    case Fail(_, at) => if at < |s.db.pending| { CountWithout(s.db.pending, at, key); }
  }

  lemma {:induction false} OutOfReachStays(s: Exchange, events: seq<Event>, key: string)
    requires OutOfReach(s, key) && Timely(s.clock, events) && Sets(events, key) == 0
    ensures var t := RunEvents(s, events);
            OutOfReach(t, key) && Retrievals(t.retrieved, key) == Retrievals(s.retrieved, key)
    ensures RunEvents(s, events).clock == if events == [] then s.clock else events[|events| - 1].now
  {
    if events != [] {
      var n := |events| - 1;
      OutOfReachStays(s, events[..n], key);
      OutOfReachStep(RunEvents(s, events[..n]), events[n], key);
    }
  }

  lemma RunOne(s: Exchange, event: Event)
    ensures RunEvents(s, [event]) == After(s, event)
  {
    assert [event][..0] == [];
  }

  lemma {:induction false} NoSets(events: seq<Event>, key: string)
    requires forall i :: 0 <= i < |events| ==> !(events[i].Set? && events[i].key == key)
    ensures Sets(events, key) == 0
  {
    if events != [] {
      NoSets(events[..|events| - 1], key);
    }
  }

  lemma ResumeHandsOut(s: Exchange, at: nat, key: string, row: Row)
    requires at < |s.db.pending| && s.db.pending[at] == Fetched(key, Some(row)) && s.clock < row.expiry
    ensures RunEvents(s, [Resume(s.clock, at)]).retrieved == s.retrieved + [Retrieval(key, row.value, s.clock)]
  {
    RunOne(s, Resume(s.clock, at));
  }

  lemma MoreRetrieved(s: Exchange, events: seq<Event>, key: string)
    requires Timely(s.clock, events) && Sets(events, key) == 0
    requires Retrievals(RunEvents(s, events).retrieved, key) > Retrievals(s.retrieved, key)
    ensures CanBeRetrieved(s, key)
  {
  }

  lemma HandedOutIsRetrieved(s: Exchange, key: string)
    requires LifeOf(s, key) && key in s.arrived && s.clock < s.arrived[key].expiry && Found(s.db.pending, key) > 0
    ensures CanBeRetrieved(s, key)
  {
    var at := SomeoneFound(s.db.pending, key);
    var row := s.arrived[key];
    assert Fits(s.db.pending[at], key, Arrived(s, key), Spent(s, key), s.clock);
    ResumeHandsOut(s, at, key, row);
    RetrievalsSnoc(s.retrieved, Retrieval(key, row.value, s.clock), key);
    NoSets([Resume(s.clock, at)], key);
    MoreRetrieved(s, [Resume(s.clock, at)], key);
  }

  /** A new poll, carried through at once. */
  function PollNow(s: Exchange, key: string): seq<Event> {
    [Poll(s.clock, key)] + PollToTheEnd(|s.db.pending|, |s.db.pending|, s.clock)
  }

  lemma PollNowRetrieves(s: Exchange, key: string)
    requires key in s.db.table && s.clock < s.db.table[key].expiry
    ensures RunEvents(s, PollNow(s, key)).retrieved
         == s.retrieved + [Retrieval(key, s.db.table[key].value, s.clock)]
  {
    RunOne(s, Poll(s.clock, key));
    RunEventsConcat(s, [Poll(s.clock, key)], PollToTheEnd(|s.db.pending|, |s.db.pending|, s.clock));
    LiveReadRetrieves(Issue(s, Read(key)), |s.db.pending|, key, s.clock);
  }

  lemma PollNowIsQuick(s: Exchange, key: string)
    ensures Timely(s.clock, PollNow(s, key)) && Sets(PollNow(s, key), key) == 0
  {
    NoSets(PollNow(s, key), key);
  }

  lemma StoredIsRetrieved(s: Exchange, key: string)
    requires LifeOf(s, key) && key in s.arrived && s.clock < s.arrived[key].expiry && key in s.db.table
    ensures CanBeRetrieved(s, key)
  {
    var events := PollNow(s, key);
    PollNowRetrieves(s, key);
    RetrievalsSnoc(s.retrieved, Retrieval(key, s.db.table[key].value, s.clock), key);
    PollNowIsQuick(s, key);
    MoreRetrieved(s, events, key);
  }

  lemma RetrievedAgainFrom(s: Exchange, key: string)
    requires LifeOf(s, key) && key in s.arrived
    ensures CanBeRetrieved(s, key) <==> WithinReach(s, key)
  {
    if !WithinReach(s, key) {
      forall events: seq<Event> | Timely(s.clock, events) && Sets(events, key) == 0
        ensures Retrievals(RunEvents(s, events).retrieved, key) == Retrievals(s.retrieved, key)
      {
        OutOfReachStays(s, events, key);
      }
    } else if key in s.db.table {
      StoredIsRetrieved(s, key);
    } else {
      HandedOutIsRetrieved(s, key);
    }
  }

  /**
   In every state of a run that sets the key at most once, its object can still be handed out,
   a first or a further time, if and only if its 600 seconds are not over and it is in the table
   or with a caller not yet resumed.
   */
  lemma RetrievedAgainIff(clock: int, events: seq<Event>, key: string)
    requires Timely(clock, events) && Sets(events, key) <= 1
    requires key in RunEvents(Start(clock), events).arrived
    ensures var s := RunEvents(Start(clock), events);
            CanBeRetrieved(s, key) <==>
              s.clock < s.arrived[key].expiry && (key in s.db.table || Found(s.db.pending, key) > 0)
  {
    StartsAlive(clock, key);
    RunsKeepLife(Start(clock), events, key);
    RetrievedAgainFrom(RunEvents(Start(clock), events), key);
  }

  // ---------------------------------------------------------------- one poll after the other

  predicate IsPoll(op: DbOp, key: string) {
    op == Read(key) || (op.Fetched? && op.key == key)
  }

  /**
   The database completes operations in the order in which they were issued and loses no delete
   of the key; the key is polled only when the caller of the previous poll has been resumed.
   */
  predicate InTurn(s: Exchange, event: Event, key: string) {
    && (event.Land? && event.at < |s.db.pending| ==> forall j :: 0 <= j < event.at ==> s.db.pending[j].Fetched?)
    && (event.Fail? && event.at < |s.db.pending| ==> s.db.pending[event.at] != Delete(key))
    && (event.Poll? && event.key == key ==> forall j :: 0 <= j < |s.db.pending| ==> !IsPoll(s.db.pending[j], key))
  }

  ghost predicate AllInTurn(s: Exchange, events: seq<Event>, key: string) {
    forall i :: 0 <= i < |events| ==> InTurn(RunEvents(s, events[..i]), events[i], key)
  }

  /** One poll of the key at most, and no delete of the key issued after its read. */
  ghost predicate OnePoll(ops: seq<DbOp>, key: string) {
    && (forall i, j :: 0 <= i < j < |ops| && IsPoll(ops[i], key) ==> !IsPoll(ops[j], key))
    && (forall i, j :: 0 <= i < j < |ops| && ops[i] == Read(key) ==> ops[j] != Delete(key))
  }

  lemma OnePollWithout(ops: seq<DbOp>, at: nat, key: string)
    requires OnePoll(ops, key) && at < |ops|
    ensures OnePoll(Without(ops, at), key)
    ensures IsPoll(ops[at], key) ==> forall j :: 0 <= j < |ops| - 1 ==> !IsPoll(Without(ops, at)[j], key)
  {
    var rest := Without(ops, at);
    forall i | 0 <= i < |rest| ensures rest[i] == ops[if i < at then i else i + 1] {}
  }

  lemma OnePollLands(s: Exchange, at: nat, key: string)
    requires OnePoll(s.db.pending, key) && at < |s.db.pending| && s.db.pending[at].Read?
    ensures OnePoll(LandAt(s, at).db.pending, key)
  {
    OnePollWithout(s.db.pending, at, key);
    var rest := Without(s.db.pending, at);
    var found := Fetched(s.db.pending[at].key, Lookup(s.db.table, s.db.pending[at].key));
    assert LandAt(s, at).db.pending == rest + [found];
  }

  lemma OnePollResumes(s: Exchange, at: nat, key: string, now: int)
    requires OnePoll(s.db.pending, key) && at < |s.db.pending| && s.db.pending[at].Fetched?
    ensures OnePoll(ResumeAt(s, at, now).db.pending, key)
  {
    OnePollWithout(s.db.pending, at, key);
    assert Without(s.db.pending, at) + [] == Without(s.db.pending, at);
  }

  lemma OnePollStep(s: Exchange, event: Event, key: string)
    requires OnePoll(s.db.pending, key) && InTurn(s, event, key)
    ensures OnePoll(After(s, event).db.pending, key)
  {
    match event
    case Land(_, at) =>
      if at < |s.db.pending| {
        if s.db.pending[at].Read? { OnePollLands(s, at, key); } else { OnePollWithout(s.db.pending, at, key); }
      }
    case Resume(now, at) =>
      if at < |s.db.pending| && s.db.pending[at].Fetched? { OnePollResumes(s, at, key, now); }
    case Fail(_, at) => if at < |s.db.pending| { OnePollWithout(s.db.pending, at, key); }
    case _ =>
  }

  lemma InTurnIsApart(s: Exchange, event: Event, key: string)
    requires OnePoll(s.db.pending, key) && InTurn(s, event, key)
    ensures KeepsPollsApart(s, event, key)
  {
    if event.Land? && event.at < |s.db.pending| && s.db.pending[event.at] == Read(key) {
      assert IsPoll(s.db.pending[event.at], key);
      NobodyFound(s.db.pending, key);
    }
  }

  lemma AllInTurnPrefix(s: Exchange, events: seq<Event>, n: nat, key: string)
    requires n <= |events| && AllInTurn(s, events, key)
    ensures AllInTurn(s, events[..n], key)
  {
    forall i | 0 <= i < n ensures InTurn(RunEvents(s, events[..n][..i]), events[..n][i], key) {
      assert events[..n][..i] == events[..i];
    }
  }

  lemma {:induction false} InTurnKeepsOnePoll(s: Exchange, events: seq<Event>, key: string)
    requires OnePoll(s.db.pending, key) && AllInTurn(s, events, key)
    ensures OnePoll(RunEvents(s, events).db.pending, key)
  {
    if events != [] {
      var n := |events| - 1;
      AllInTurnPrefix(s, events, n, key);
      InTurnKeepsOnePoll(s, events[..n], key);
      OnePollStep(RunEvents(s, events[..n]), events[n], key);
    }
  }

  /**
   "The request ID can only be used once" when operations complete in the order in which they
   were issued, no delete fails, and no poll overtakes the caller of the one before.
   */
  lemma InTurnMeansOnce(clock: int, events: seq<Event>, key: string)
    requires Timely(clock, events) && Sets(events, key) <= 1 && AllInTurn(Start(clock), events, key)
    ensures Retrievals(RunEvents(Start(clock), events).retrieved, key) <= 1
  {
    forall i | 0 <= i < |events| ensures KeepsPollsApart(RunEvents(Start(clock), events[..i]), events[i], key) {
      AllInTurnPrefix(Start(clock), events, i, key);
      InTurnKeepsOnePoll(Start(clock), events[..i], key);
      InTurnIsApart(RunEvents(Start(clock), events[..i]), events[i], key);
    }
    RetrievedAtMostOnce(clock, events, key);
  }

  // ---------------------------------------------------------------- two polls at once

  function TwoPolls(key: string, value: string): seq<Event> {
    [Set(0, key, value), Land(0, 0), Poll(1, key), Poll(1, key)]
  }

  function BothRead(): seq<Event> {
    [Land(1, 0), Land(1, 0), Resume(1, 0)]
  }

  lemma AfterTwoPolls(key: string, value: string)
    ensures RunEvents(Start(0), TwoPolls(key, value))
         == Exchange(Db(map[key := Row(value, 600_000)], [Read(key), Read(key)]), 1, map[key := Row(value, 600_000)],
                     {}, [])
  {
    RunFour(Start(0), Set(0, key, value), Land(0, 0), Poll(1, key), Poll(1, key));
    var stored := After(After(Start(0), Set(0, key, value)), Land(0, 0));
    assert stored == Exchange(Db(map[key := Row(value, 600_000)], []), 0, map[key := Row(value, 600_000)], {}, []);
  }

  lemma RunThree(s: Exchange, a: Event, b: Event, c: Event)
    ensures RunEvents(s, [a, b, c]) == After(After(After(s, a), b), c)
  {
    RunTwo(s, a, b);
    RunOne(RunEvents(s, [a, b]), c);
    RunEventsConcat(s, [a, b], [c]);
    assert [a, b, c] == [a, b] + [c];
  }

  /** Both reads land on the row; the first caller retrieves it while the second already holds it. */
  lemma AfterBothRead(key: string, value: string)
    ensures var row := Row(value, 600_000);
            RunEvents(Start(0), TwoPolls(key, value) + BothRead())
              == Exchange(Db(map[key := row], [Fetched(key, Some(row)), Delete(key)]), 1, map[key := row], {},
                          [Retrieval(key, value, 1)])
  {
    AfterTwoPolls(key, value);
    var s := RunEvents(Start(0), TwoPolls(key, value));
    var found := Fetched(key, Some(Row(value, 600_000)));
    RunEventsConcat(Start(0), TwoPolls(key, value), BothRead());
    RunThree(s, Land(1, 0), Land(1, 0), Resume(1, 0));
    assert After(s, Land(1, 0)).db.pending == [Read(key), found];
    assert After(After(s, Land(1, 0)), Land(1, 0)).db.pending == [found, found];
  }

  /** From the start, all within a millisecond: one object, set once, is retrieved twice. */
  lemma SecondUseIsReachable(key: string, value: string)
    ensures RunEvents(Start(0), TwoPolls(key, value) + BothRead() + [Resume(1, 0)]).retrieved
         == [Retrieval(key, value, 1), Retrieval(key, value, 1)]
  {
    AfterBothRead(key, value);
    RunEventsConcat(Start(0), TwoPolls(key, value) + BothRead(), [Resume(1, 0)]);
    RunOne(RunEvents(Start(0), TwoPolls(key, value) + BothRead()), Resume(1, 0));
  }
}
