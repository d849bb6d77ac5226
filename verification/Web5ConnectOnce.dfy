/**
 One-time use over the un-awaited database: what holds of a key that is set at most once, such
 as a fresh request identifier, and how it fails when polls overlap or a key is set again.
 */
module Web5ConnectOnce {
  import opened Wrappers
  import opened TtlCache
  import opened Web5Connect

  function Sets(events: seq<Event>, key: string): nat {
    if events == [] then 0
    else
      var last := events[|events| - 1];
      Sets(events[..|events| - 1], key) + if last.Set? && last.key == key then 1 else 0
  }

  function Weight(op: DbOp, key: string): nat {
    if op.Insert? && op.key == key then 1 else 0
  }

  function PendingInserts(ops: seq<DbOp>, key: string): nat {
    if ops == [] then 0 else PendingInserts(ops[..|ops| - 1], key) + Weight(ops[|ops| - 1], key)
  }

  function FoundWeight(op: DbOp, key: string): nat {
    if op.Fetched? && op.key == key && op.answer.Some? then 1 else 0
  }

  /** Callers of `key` that have been handed a row and not been resumed yet. */
  function Found(ops: seq<DbOp>, key: string): nat {
    if ops == [] then 0 else Found(ops[..|ops| - 1], key) + FoundWeight(ops[|ops| - 1], key)
  }

  function Retrievals(rs: seq<Retrieval>, key: string): nat {
    if rs == [] then 0 else Retrievals(rs[..|rs| - 1], key) + if rs[|rs| - 1].key == key then 1 else 0
  }

  lemma CountSnoc(ops: seq<DbOp>, op: DbOp, key: string)
    ensures PendingInserts(ops + [op], key) == PendingInserts(ops, key) + Weight(op, key)
    ensures Found(ops + [op], key) == Found(ops, key) + FoundWeight(op, key)
  {
    assert (ops + [op])[..|ops + [op]| - 1] == ops;
  }

  lemma {:induction false} CountWithout(ops: seq<DbOp>, at: nat, key: string)
    requires at < |ops|
    ensures PendingInserts(Without(ops, at), key) == PendingInserts(ops, key) - Weight(ops[at], key)
    ensures Found(Without(ops, at), key) == Found(ops, key) - FoundWeight(ops[at], key)
  {
    var n := |ops| - 1;
    if at == n {
      assert Without(ops, at) == ops[..n];
    } else {
      CountWithout(ops[..n], at, key);
      assert Without(ops, at) == Without(ops[..n], at) + [ops[n]];
      CountSnoc(Without(ops[..n], at), ops[n], key);
    }
  }

  lemma {:induction false} CountMember(ops: seq<DbOp>, at: nat, key: string)
    requires at < |ops|
    ensures PendingInserts(ops, key) >= Weight(ops[at], key) && Found(ops, key) >= FoundWeight(ops[at], key)
  {
    CountWithout(ops, at, key);
  }

  // ---------------------------------------------------------------- the life of a key set once

  predicate Spent(s: Exchange, key: string) {
    key in s.arrived && (Retrievals(s.retrieved, key) >= 1 || s.clock >= s.arrived[key].expiry)
  }

  /** What may be pending, given the row that arrived for `key`, whether it is spent, and the clock. */
  predicate Fits(op: DbOp, key: string, arrived: Option<Row>, spent: bool, clock: int) {
    match op
    case Fetched(k, Some(row)) => k == key ==> arrived == Some(row)
    case Delete(k) => k == key ==> spent
    case CleanUp(before) => before <= clock
    case _ => true
  }

  ghost predicate AllFit(ops: seq<DbOp>, key: string, arrived: Option<Row>, spent: bool, clock: int) {
    forall i :: 0 <= i < |ops| ==> Fits(ops[i], key, arrived, spent, clock)
  }

  function Arrived(s: Exchange, key: string): Option<Row> {
    Lookup(s.arrived, key)
  }

  ghost predicate LifeOf(s: Exchange, key: string) {
    && PendingInserts(s.db.pending, key) + (if key in s.arrived then 1 else 0) <= 1
    && AllFit(s.db.pending, key, Arrived(s, key), Spent(s, key), s.clock)
    && (key in s.db.table ==> Arrived(s, key) == Some(s.db.table[key]))
    && (key in s.deleted ==> Spent(s, key) && key !in s.db.table)
    && (Retrievals(s.retrieved, key) >= 1 ==> key in s.arrived)
    && (key in s.arrived && s.clock < s.arrived[key].expiry && key !in s.deleted ==> key in s.db.table)
  }

  ghost predicate NeverSet(s: Exchange, key: string) {
    PendingInserts(s.db.pending, key) == 0 && key !in s.arrived
  }

  /** The pending operations keep fitting when one goes, one comes, and time passes. */
  lemma FitAfter(ops: seq<DbOp>, at: nat, key: string, arrived: Option<Row>, spent: bool, clock: int)
    requires at < |ops| && AllFit(ops, key, arrived, spent, clock)
    ensures AllFit(Without(ops, at), key, arrived, spent, clock)
  {
  }

  lemma FitMore(ops: seq<DbOp>, op: DbOp, key: string, arrived: Option<Row>, spent: bool, clock: int)
    requires AllFit(ops, key, arrived, spent, clock) && Fits(op, key, arrived, spent, clock)
    ensures AllFit(ops + [op], key, arrived, spent, clock)
  {
  }

  lemma FitLater(ops: seq<DbOp>, key: string, arrived: Option<Row>, spent: bool, clock: int,
                 arrived': Option<Row>, spent': bool, clock': int)
    requires AllFit(ops, key, arrived, spent, clock)
    requires (arrived == arrived' || arrived == None) && (spent ==> spent') && clock <= clock'
    ensures AllFit(ops, key, arrived', spent', clock')
  {
  }

  lemma LaterKeepsLife(s: Exchange, key: string, now: int)
    requires LifeOf(s, key) && s.clock <= now
    ensures LifeOf(s.(clock := now), key)
  {
    var t := s.(clock := now);
    FitLater(s.db.pending, key, Arrived(s, key), Spent(s, key), s.clock, Arrived(t, key), Spent(t, key), now);
  }

  lemma IssueKeepsLife(s: Exchange, op: DbOp, key: string)
    requires LifeOf(s, key) && Fits(op, key, Arrived(s, key), Spent(s, key), s.clock)
    requires op.Insert? && op.key == key ==> NeverSet(s, key)
    ensures LifeOf(Issue(s, op), key)
  {
    CountSnoc(s.db.pending, op, key);
    FitMore(s.db.pending, op, key, Arrived(s, key), Spent(s, key), s.clock);
  }

  lemma LandInsertKeepsLife(s: Exchange, at: nat, key: string)
    requires LifeOf(s, key) && at < |s.db.pending| && s.db.pending[at].Insert?
    ensures LifeOf(LandAt(s, at), key)
  {
    CountWithout(s.db.pending, at, key);
    CountMember(s.db.pending, at, key);
    FitAfter(s.db.pending, at, key, Arrived(s, key), Spent(s, key), s.clock);
    var t := LandAt(s, at);
    FitLater(t.db.pending, key, Arrived(s, key), Spent(s, key), s.clock, Arrived(t, key), Spent(t, key), s.clock);
  }

  lemma LandRemovalKeepsLife(s: Exchange, at: nat, key: string)
    requires LifeOf(s, key) && at < |s.db.pending| && (s.db.pending[at].Delete? || s.db.pending[at].CleanUp?)
    ensures LifeOf(LandAt(s, at), key)
  {
    assert Fits(s.db.pending[at], key, Arrived(s, key), Spent(s, key), s.clock);
    CountWithout(s.db.pending, at, key);
    FitAfter(s.db.pending, at, key, Arrived(s, key), Spent(s, key), s.clock);
  }

  lemma LandReadKeepsLife(s: Exchange, at: nat, key: string)
    requires LifeOf(s, key) && at < |s.db.pending| && s.db.pending[at].Read?
    ensures LifeOf(LandAt(s, at), key)
  {
    var rest := Without(s.db.pending, at);
    var found := Fetched(s.db.pending[at].key, Lookup(s.db.table, s.db.pending[at].key));
    CountWithout(s.db.pending, at, key);
    CountSnoc(rest, found, key);
    FitAfter(s.db.pending, at, key, Arrived(s, key), Spent(s, key), s.clock);
    FitMore(rest, found, key, Arrived(s, key), Spent(s, key), s.clock);
  }

  lemma LandKeepsLife(s: Exchange, at: nat, key: string)
    requires LifeOf(s, key) && at < |s.db.pending|
    ensures LifeOf(LandAt(s, at), key)
  {
    match s.db.pending[at]
    case Insert(_, _) => LandInsertKeepsLife(s, at, key);
    case Delete(_) => LandRemovalKeepsLife(s, at, key);
    case CleanUp(_) => LandRemovalKeepsLife(s, at, key);
    case Read(_) => LandReadKeepsLife(s, at, key);
    case Fetched(_, _) =>
  }

  lemma RetrievalsSnoc(rs: seq<Retrieval>, r: Retrieval, key: string)
    ensures Retrievals(rs + [r], key) == Retrievals(rs, key) + if r.key == key then 1 else 0
  {
    assert (rs + [r])[..|rs + [r]| - 1] == rs;
  }

  /** A caller that was handed the row either retrieves it or finds it expired: the key is spent. */
  lemma ResumeSpends(s: Exchange, at: nat, key: string)
    requires at < |s.db.pending| && s.db.pending[at].Fetched? && s.db.pending[at].answer.Some?
    requires Fits(s.db.pending[at], key, Arrived(s, key), Spent(s, key), s.clock)
    ensures var t := ResumeAt(s, at, s.clock);
            (Spent(s, key) || s.db.pending[at].key == key ==> Spent(t, key))
            && (Retrievals(t.retrieved, key) >= 1 ==> Retrievals(s.retrieved, key) >= 1 || s.db.pending[at].key == key)
  {
    var op := s.db.pending[at];
    if Answer(op, s.clock).Some? {
      RetrievalsSnoc(s.retrieved, Retrieval(op.key, Answer(op, s.clock).value, s.clock), key);
    }
  }

  lemma ResumeFoundKeepsLife(s: Exchange, at: nat, key: string)
    requires LifeOf(s, key) && at < |s.db.pending| && s.db.pending[at].Fetched? && s.db.pending[at].answer.Some?
    ensures LifeOf(ResumeAt(s, at, s.clock), key)
  {
    var op := s.db.pending[at];
    var rest, t := Without(s.db.pending, at), ResumeAt(s, at, s.clock);
    CountWithout(s.db.pending, at, key);
    CountSnoc(rest, Delete(op.key), key);
    ResumeSpends(s, at, key);
    FitAfter(s.db.pending, at, key, Arrived(s, key), Spent(s, key), s.clock);
    FitLater(rest, key, Arrived(s, key), Spent(s, key), s.clock, Arrived(t, key), Spent(t, key), s.clock);
    FitMore(rest, Delete(op.key), key, Arrived(t, key), Spent(t, key), s.clock);
    assert t.db.pending == rest + [Delete(op.key)];
  }

  lemma ResumeEmptyKeepsLife(s: Exchange, at: nat, key: string)
    requires LifeOf(s, key) && at < |s.db.pending| && s.db.pending[at].Fetched? && s.db.pending[at].answer.None?
    ensures LifeOf(ResumeAt(s, at, s.clock), key)
  {
    CountWithout(s.db.pending, at, key);
    FitAfter(s.db.pending, at, key, Arrived(s, key), Spent(s, key), s.clock);
    assert Without(s.db.pending, at) + [] == Without(s.db.pending, at);
  }

  lemma ResumeKeepsLife(s: Exchange, at: nat, key: string, now: int)
    requires LifeOf(s, key) && s.clock <= now && at < |s.db.pending| && s.db.pending[at].Fetched?
    ensures LifeOf(ResumeAt(s, at, now).(clock := now), key)
  {
    LaterKeepsLife(s, key, now);
    if s.db.pending[at].answer.Some? {
      ResumeFoundKeepsLife(s.(clock := now), at, key);
    } else {
      ResumeEmptyKeepsLife(s.(clock := now), at, key);
    }
  }

  lemma FailKeepsLife(s: Exchange, at: nat, key: string, now: int)
    requires LifeOf(s, key) && s.clock <= now && at < |s.db.pending|
    ensures LifeOf(s.(db := s.db.(pending := Without(s.db.pending, at)), clock := now), key)
  {
    LaterKeepsLife(s, key, now);
    CountWithout(s.db.pending, at, key);
    FitAfter(s.db.pending, at, key, Arrived(s, key), Spent(s.(clock := now), key), now);
  }

  lemma StepKeepsLife(s: Exchange, event: Event, key: string)
    requires LifeOf(s, key) && s.clock <= event.now
    requires event.Set? && event.key == key ==> NeverSet(s, key)
    ensures LifeOf(After(s, event), key)
  {
    LaterKeepsLife(s, key, event.now);
    var t := s.(clock := event.now);
    match event
    case Set(now, k, value) => IssueKeepsLife(t, Insert(k, Row(value, Expiry(now, TTL_IN_SECONDS))), key);
    case Poll(now, k) => IssueKeepsLife(t, Read(k), key);
    case Tick(now) => IssueKeepsLife(t, CleanUp(now), key);
    case Land(now, at) => if at < |s.db.pending| { LandKeepsLife(t, at, key); }
    case Resume(now, at) =>
      if at < |s.db.pending| && s.db.pending[at].Fetched? { ResumeKeepsLife(s, at, key, now); }
    case Fail(now, at) => if at < |s.db.pending| { FailKeepsLife(s, at, key, now); }
  }

  /** Inserts of the key that were issued and have not failed: pending, or arrived. */
  function Issued(s: Exchange, key: string): nat {
    PendingInserts(s.db.pending, key) + if key in s.arrived then 1 else 0
  }

  lemma IssueCounts(s: Exchange, op: DbOp, key: string)
    ensures Issued(Issue(s, op), key) == Issued(s, key) + Weight(op, key)
  {
    CountSnoc(s.db.pending, op, key);
  }

  /** The pending inserts once the operation at `at` has landed. */
  lemma LandedInserts(db: Db, at: nat, key: string)
    requires at < |db.pending|
    ensures PendingInserts(Landed(db, at).pending, key) == PendingInserts(db.pending, key) - Weight(db.pending[at], key)
  {
    CountWithout(db.pending, at, key);
    var op, rest := db.pending[at], Without(db.pending, at);
    if op.Read? {
      CountSnoc(rest, Fetched(op.key, Lookup(db.table, op.key)), key);
    }
  }

  lemma LandCounts(s: Exchange, at: nat, key: string)
    requires at < |s.db.pending|
    ensures Issued(LandAt(s, at), key) <= Issued(s, key)
  {
    LandedInserts(s.db, at, key);
  }

  lemma ResumeCounts(s: Exchange, at: nat, now: int, key: string)
    requires at < |s.db.pending| && s.db.pending[at].Fetched?
    ensures Issued(ResumeAt(s, at, now), key) == Issued(s, key)
  {
    var rest := Without(s.db.pending, at);
    CountWithout(s.db.pending, at, key);
    CountSnoc(rest, Delete(s.db.pending[at].key), key);
    assert rest + [] == rest;
  }

  lemma StepCountsInserts(s: Exchange, event: Event, key: string)
    ensures Issued(After(s, event), key) <= Issued(s, key) + if event.Set? && event.key == key then 1 else 0
  {
    match event
    case Set(now, k, value) => IssueCounts(s, Insert(k, Row(value, Expiry(now, TTL_IN_SECONDS))), key);
    case Poll(now, k) => IssueCounts(s, Read(k), key);
    case Tick(now) => IssueCounts(s, CleanUp(now), key);
    case Land(now, at) => if at < |s.db.pending| { LandCounts(s, at, key); }
    case Resume(now, at) =>
      if at < |s.db.pending| && s.db.pending[at].Fetched? { ResumeCounts(s, at, now, key); }
    case Fail(now, at) => if at < |s.db.pending| { CountWithout(s.db.pending, at, key); }
  }

  /** Every run that sets `key` at most once, from the start or from any state that leads such a life. */
  lemma {:induction false} RunsKeepLife(s: Exchange, events: seq<Event>, key: string)
    requires LifeOf(s, key) && Timely(s.clock, events)
    requires Sets(events, key) == 0 || (Sets(events, key) == 1 && NeverSet(s, key))
    ensures LifeOf(RunEvents(s, events), key)
    ensures RunEvents(s, events).clock == if events == [] then s.clock else events[|events| - 1].now
    ensures NeverSet(s, key) && Sets(events, key) == 0 ==> NeverSet(RunEvents(s, events), key)
  {
    if events != [] {
      var n := |events| - 1;
      RunsKeepLife(s, events[..n], key);
      var before := RunEvents(s, events[..n]);
      StepKeepsLife(before, events[n], key);
      StepCountsInserts(before, events[n], key);
    }
  }

  lemma StartsAlive(clock: int, key: string)
    ensures LifeOf(Start(clock), key) && NeverSet(Start(clock), key)
  {
  }

  // ---------------------------------------------------------------- guarantees for a key set once

  /**
   Failed polls, cleanups and failed operations never remove a live object: once its insert has
   landed, and until it has been retrieved or its 600 seconds are over, the row is there, so a
   poll that reads it now and is resumed in time returns it.
   */
  lemma LiveObjectIsThere(clock: int, events: seq<Event>, key: string)
    requires Timely(clock, events) && Sets(events, key) <= 1
    ensures var s := RunEvents(Start(clock), events);
            key in s.arrived && Retrievals(s.retrieved, key) == 0 && s.clock < s.arrived[key].expiry
            ==> Lookup(s.db.table, key) == Some(s.arrived[key])
  {
    StartsAlive(clock, key);
    RunsKeepLife(Start(clock), events, key);
  }

  lemma {:induction false} DeletedStays(s: Exchange, events: seq<Event>, key: string)
    requires key in s.deleted
    ensures key in RunEvents(s, events).deleted
  {
    if events != [] {
      DeletedStays(s, events[..|events| - 1], key);
    }
  }

  /** Once a delete of the key has landed, nothing in the rest of the run brings the row back. */
  lemma GoneForGood(clock: int, pre: seq<Event>, post: seq<Event>, key: string)
    requires Timely(clock, pre + post) && Sets(pre + post, key) <= 1
    requires key in RunEvents(Start(clock), pre).deleted
    ensures Lookup(RunEvents(Start(clock), pre + post).db.table, key) == None
  {
    StartsAlive(clock, key);
    RunsKeepLife(Start(clock), pre + post, key);
    RunEventsConcat(Start(clock), pre, post);
    DeletedStays(RunEvents(Start(clock), pre), post, key);
  }

  /**
   A read that lands before the expiry finds the object exactly when it has arrived and no delete of
   it has landed.
   */
  lemma ReadFindsUntilDelete(clock: int, events: seq<Event>, key: string)
    requires Timely(clock, events) && Sets(events, key) <= 1
    requires var s := RunEvents(Start(clock), events);
             key in s.arrived ==> s.clock < s.arrived[key].expiry
    ensures var s := RunEvents(Start(clock), events);
            Lookup(s.db.table, key).Some? <==> key in s.arrived && key !in s.deleted
  {
    StartsAlive(clock, key);
    RunsKeepLife(Start(clock), events, key);
  }

  // ---------------------------------------------------------------- at most one retrieval

  /**
   A step that keeps the polls of `key` apart: no read lands over a found answer or a pending
   delete, no delete fails.
   */
  ghost predicate KeepsPollsApart(s: Exchange, event: Event, key: string) {
    && (event.Land? && event.at < |s.db.pending| && s.db.pending[event.at] == Read(key)
        ==> Delete(key) !in s.db.pending && Found(s.db.pending, key) == 0)
    && (event.Fail? && event.at < |s.db.pending| ==> s.db.pending[event.at] != Delete(key))
  }

  ghost predicate PollsApart(s: Exchange, events: seq<Event>, key: string) {
    forall i :: 0 <= i < |events| ==> KeepsPollsApart(RunEvents(s, events[..i]), events[i], key)
  }

  ghost predicate UsedOnce(s: Exchange, key: string) {
    && Found(s.db.pending, key) + Retrievals(s.retrieved, key) <= 1
    && (Retrievals(s.retrieved, key) >= 1 ==> Delete(key) in s.db.pending || key !in s.db.table)
  }

  lemma OthersRemain(ops: seq<DbOp>, at: nat, op: DbOp)
    requires at < |ops| && op in ops && ops[at] != op
    ensures op in Without(ops, at)
  {
    var i :| 0 <= i < |ops| && ops[i] == op;
    assert Without(ops, at)[if i < at then i else i - 1] == op;
  }

  lemma LandKeepsUsedOnce(s: Exchange, at: nat, key: string)
    requires LifeOf(s, key) && UsedOnce(s, key) && at < |s.db.pending|
    requires s.db.pending[at] == Read(key) ==> Delete(key) !in s.db.pending && Found(s.db.pending, key) == 0
    ensures UsedOnce(LandAt(s, at), key)
  {
    var op := s.db.pending[at];
    CountWithout(s.db.pending, at, key);
    CountMember(s.db.pending, at, key);
    if op.Read? {
      CountSnoc(Without(s.db.pending, at), Fetched(op.key, Lookup(s.db.table, op.key)), key);
    }
    if Delete(key) in s.db.pending && op != Delete(key) {
      OthersRemain(s.db.pending, at, Delete(key));
    }
  }

  lemma ResumeKeepsUsedOnce(s: Exchange, at: nat, key: string, now: int)
    requires UsedOnce(s, key) && at < |s.db.pending| && s.db.pending[at].Fetched?
    ensures UsedOnce(ResumeAt(s, at, now), key)
  {
    var op := s.db.pending[at];
    CountWithout(s.db.pending, at, key);
    CountMember(s.db.pending, at, key);
    if Delete(key) in s.db.pending {
      OthersRemain(s.db.pending, at, Delete(key));
    }
    if op.answer.Some? {
      CountSnoc(Without(s.db.pending, at), Delete(op.key), key);
      if Answer(op, now).Some? {
        RetrievalsSnoc(s.retrieved, Retrieval(op.key, Answer(op, now).value, now), key);
      }
    } else {
      assert Without(s.db.pending, at) + [] == Without(s.db.pending, at);
    }
  }

  lemma IssueKeepsUsedOnce(s: Exchange, op: DbOp, key: string)
    requires UsedOnce(s, key) && !op.Fetched?
    ensures UsedOnce(Issue(s, op), key)
  {
    CountSnoc(s.db.pending, op, key);
  }

  lemma FailKeepsUsedOnce(s: Exchange, at: nat, key: string)
    requires UsedOnce(s, key) && at < |s.db.pending| && s.db.pending[at] != Delete(key)
    ensures UsedOnce(s.(db := s.db.(pending := Without(s.db.pending, at))), key)
  {
    CountWithout(s.db.pending, at, key);
    if Delete(key) in s.db.pending {
      OthersRemain(s.db.pending, at, Delete(key));
    }
  }

  lemma StepKeepsUsedOnce(s: Exchange, event: Event, key: string)
    requires LifeOf(s, key) && UsedOnce(s, key) && KeepsPollsApart(s, event, key)
    ensures UsedOnce(After(s, event), key)
  {
    match event
    case Set(now, k, value) => IssueKeepsUsedOnce(s, Insert(k, Row(value, Expiry(now, TTL_IN_SECONDS))), key);
    case Poll(_, k) => IssueKeepsUsedOnce(s, Read(k), key);
    case Tick(now) => IssueKeepsUsedOnce(s, CleanUp(now), key);
    case Land(_, at) => if at < |s.db.pending| { LandKeepsUsedOnce(s, at, key); }
    case Resume(now, at) =>
      if at < |s.db.pending| && s.db.pending[at].Fetched? { ResumeKeepsUsedOnce(s, at, key, now); }
    case Fail(_, at) => if at < |s.db.pending| { FailKeepsUsedOnce(s, at, key); }
  }

  lemma PollsApartPrefix(s: Exchange, events: seq<Event>, key: string)
    requires events != [] && PollsApart(s, events, key)
    ensures PollsApart(s, events[..|events| - 1], key)
    ensures KeepsPollsApart(RunEvents(s, events[..|events| - 1]), events[|events| - 1], key)
  {
    var n := |events| - 1;
    forall i | 0 <= i < n ensures KeepsPollsApart(RunEvents(s, events[..n][..i]), events[..n][i], key) {
      assert events[..n][..i] == events[..i];
    }
  }

  lemma {:induction false} RunsKeepUsedOnce(clock: int, events: seq<Event>, key: string)
    requires Timely(clock, events) && Sets(events, key) <= 1 && PollsApart(Start(clock), events, key)
    ensures UsedOnce(RunEvents(Start(clock), events), key)
  {
    if events != [] {
      var n := |events| - 1;
      PollsApartPrefix(Start(clock), events, key);
      RunsKeepUsedOnce(clock, events[..n], key);
      StartsAlive(clock, key);
      RunsKeepLife(Start(clock), events[..n], key);
      StepKeepsUsedOnce(RunEvents(Start(clock), events[..n]), events[n], key);
    }
  }

  /** The request identifier can only be used once, as long as each poll's delete lands before the next read. */
  lemma RetrievedAtMostOnce(clock: int, events: seq<Event>, key: string)
    requires Timely(clock, events) && Sets(events, key) <= 1 && PollsApart(Start(clock), events, key)
    ensures Retrievals(RunEvents(Start(clock), events).retrieved, key) <= 1
  {
    RunsKeepUsedOnce(clock, events, key);
  }

  // ---------------------------------------------------------------- where one-time use fails

  /** The pending read at `at` lands, and its caller, now last of all, is resumed at once. */
  function PollToTheEnd(at: nat, last: nat, now: int): seq<Event> {
    [Land(now, at), Resume(now, last)]
  }

  lemma LiveReadLands(s: Exchange, at: nat, key: string, now: int)
    requires at < |s.db.pending| && s.db.pending[at] == Read(key) && key in s.db.table
    ensures After(s, Land(now, at))
         == s.(db := Db(s.db.table, Without(s.db.pending, at) + [Fetched(key, Some(s.db.table[key]))]), clock := now)
  {
  }

  lemma LastResumes(s: Exchange, rest: seq<DbOp>, found: DbOp, now: int)
    requires s.db.pending == rest + [found] && found.Fetched? && found.answer.Some? && Answer(found, now).Some?
    ensures var done := After(s, Resume(now, |rest|));
            done.retrieved == s.retrieved + [Retrieval(found.key, found.answer.value.value, now)]
            && done.db == Db(s.db.table, rest + [Delete(found.key)])
  {
    assert s.db.pending[|rest|] == found;
    assert Without(rest + [found], |rest|) == rest;
  }

  /** In every state, a read that lands on a live row ends in a retrieval, no matter how many there were before. */
  lemma LiveReadRetrieves(s: Exchange, at: nat, key: string, now: int)
    requires at < |s.db.pending| && s.db.pending[at] == Read(key)
    requires key in s.db.table && now < s.db.table[key].expiry
    ensures var done := RunEvents(s, PollToTheEnd(at, |s.db.pending| - 1, now));
            done.retrieved == s.retrieved + [Retrieval(key, s.db.table[key].value, now)]
            && done.db == Db(s.db.table, Without(s.db.pending, at) + [Delete(key)])
  {
    var last := |s.db.pending| - 1;
    RunTwo(s, Land(now, at), Resume(now, last));
    LiveReadLands(s, at, key, now);
    LastResumes(After(s, Land(now, at)), Without(s.db.pending, at), Fetched(key, Some(s.db.table[key])), now);
  }

  lemma FirstOfTwo(s: Exchange, i: nat, j: nat, key: string, now: int)
    requires i < j < |s.db.pending| && s.db.pending[i] == s.db.pending[j] == Read(key)
    requires key in s.db.table && now < s.db.table[key].expiry
    ensures var between := RunEvents(s, PollToTheEnd(j, |s.db.pending| - 1, now));
            between.retrieved == s.retrieved + [Retrieval(key, s.db.table[key].value, now)]
            && between.db.table == s.db.table && |between.db.pending| == |s.db.pending|
                && between.db.pending[i] == Read(key)
  {
    LiveReadRetrieves(s, j, key, now);
  }

  /**
   So two polls in flight at once both retrieve the object, although "the request ID can only
   be used once": the delete of the first is only issued when its caller is resumed.
   */
  lemma OverlappingPollsBothRetrieve(s: Exchange, i: nat, j: nat, key: string, now: int)
    requires i < j < |s.db.pending| && s.db.pending[i] == s.db.pending[j] == Read(key)
    requires key in s.db.table && now < s.db.table[key].expiry
    ensures var last := |s.db.pending| - 1;
            var both := RunEvents(RunEvents(s, PollToTheEnd(j, last, now)), PollToTheEnd(i, last, now));
            var r := Retrieval(key, s.db.table[key].value, now);
            both.retrieved == s.retrieved + [r] + [r]
  {
    var last := |s.db.pending| - 1;
    FirstOfTwo(s, i, j, key, now);
    LiveReadRetrieves(RunEvents(s, PollToTheEnd(j, last, now)), i, key, now);
  }

  lemma RunFour(s: Exchange, a: Event, b: Event, c: Event, d: Event)
    ensures RunEvents(s, [a, b, c, d]) == After(After(After(After(s, a), b), c), d)
  {
    RunTwo(s, a, b);
    RunTwo(RunEvents(s, [a, b]), c, d);
    RunEventsConcat(s, [a, b], [c, d]);
    assert [a, b, c, d] == [a, b] + [c, d];
  }
}
