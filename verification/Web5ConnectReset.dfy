/**
 Setting a key again, as a client may with a `state` of its own choice: exactly when the new
 object is sure to be stored and to stay until it is retrieved or expires, and how it is lost
 otherwise.
 */
module Web5ConnectReset {
  import opened Wrappers
  import opened TtlCache
  import opened Web5Connect
  import opened Web5ConnectOnce
  import opened Web5ConnectUses

  /** The exchange that had the key before has ended: no row, and nothing under way that could make or remove one. */
  predicate HasEnded(s: Exchange, key: string) {
    && key !in s.db.table
    && PendingInserts(s.db.pending, key) == 0
    && Delete(key) !in s.db.pending
    && Found(s.db.pending, key) == 0
  }

  predicate NothingFails(events: seq<Event>) {
    forall i :: 0 <= i < |events| ==> !events[i].Fail?
  }

  /** The object was handed out under the key since the first `from` retrievals. */
  predicate HandedOut(retrieved: seq<Retrieval>, from: nat, key: string, value: string) {
    exists i :: from <= i < |retrieved| && retrieved[i].key == key && retrieved[i].value == value
  }

  /** Once its insert is through, and as long as it is neither handed out nor expired, the object is there. */
  predicate Kept(s: Exchange, t: Exchange, now: int, key: string, value: string) {
    var row := Row(value, now + 600_000);
    Insert(key, row) !in t.db.pending && t.clock < row.expiry && !HandedOut(t.retrieved, |s.retrieved|, key, value)
    ==> Lookup(t.db.table, key) == Some(row)
  }

  /** Setting the key now keeps every new object, however the run goes on without another set or a failing database. */
  ghost predicate SafeToSet(s: Exchange, key: string) {
    forall now: int, value: string, rest: seq<Event> ::
      s.clock <= now && Timely(now, rest) && Sets(rest, key) == 0 && NothingFails(rest)
      ==> Kept(s, RunEvents(s, [Set(now, key, value)] + rest), now, key, value)
  }

  // ---------------------------------------------------------------- a fresh start

  /** The same database with its history forgotten. */
  function Afresh(s: Exchange): Exchange {
    Exchange(s.db, s.clock, map[], {}, [])
  }

  lemma {:induction false} HistoryDoesNotMatter(s: Exchange, events: seq<Event>)
    ensures var t, u := RunEvents(s, events), RunEvents(Afresh(s), events);
            t.db == u.db && t.clock == u.clock && t.retrieved == s.retrieved + u.retrieved
  {
    if events != [] {
      HistoryDoesNotMatter(s, events[..|events| - 1]);
    }
  }

  /** Cleanups under way were issued at the present clock reading at the latest. */
  ghost predicate CleanUpsAreDue(s: Exchange) {
    forall i :: 0 <= i < |s.db.pending| && s.db.pending[i].CleanUp? ==> s.db.pending[i].before <= s.clock
  }

  lemma WithoutKeepsCleanUps(s: Exchange, at: nat)
    requires CleanUpsAreDue(s) && at < |s.db.pending|
    ensures CleanUpsAreDue(s.(db := s.db.(pending := Without(s.db.pending, at))))
  {
    forall i | 0 <= i < |s.db.pending| - 1
      ensures Without(s.db.pending, at)[i] == s.db.pending[if i < at then i else i + 1] {}
  }

  lemma CleanUpsStep(s: Exchange, event: Event)
    requires CleanUpsAreDue(s) && s.clock <= event.now
    ensures CleanUpsAreDue(After(s, event))
  {
    if (event.Land? || event.Resume? || event.Fail?) && event.at < |s.db.pending| {
      WithoutKeepsCleanUps(s, event.at);
    }
  }

  lemma {:induction false} RunsKeepCleanUps(s: Exchange, events: seq<Event>)
    requires CleanUpsAreDue(s) && Timely(s.clock, events)
    ensures CleanUpsAreDue(RunEvents(s, events))
    ensures RunEvents(s, events).clock == if events == [] then s.clock else events[|events| - 1].now
  {
    if events != [] {
      RunsKeepCleanUps(s, events[..|events| - 1]);
      CleanUpsStep(RunEvents(s, events[..|events| - 1]), events[|events| - 1]);
    }
  }

  /** An ended exchange, forgotten, is the start of a life like that of a key never set. */
  lemma EndedMeansNew(s: Exchange, key: string)
    requires CleanUpsAreDue(s) && HasEnded(s, key)
    ensures LifeOf(Afresh(s), key) && NeverSet(Afresh(s), key)
  {
    forall i | 0 <= i < |s.db.pending| ensures Fits(s.db.pending[i], key, None, false, s.clock) {
      CountMember(s.db.pending, i, key);
    }
  }

  // ---------------------------------------------------------------- kept

  /** The insert of the object is pending, or its row has arrived. */
  predicate OnItsWay(s: Exchange, key: string, row: Row) {
    Insert(key, row) in s.db.pending || Arrived(s, key) == Some(row)
  }

  lemma LandingKeepsOnItsWay(s: Exchange, at: nat, key: string, row: Row)
    requires LifeOf(s, key) && OnItsWay(s, key, row) && at < |s.db.pending|
    ensures OnItsWay(LandAt(s, at), key, row)
  {
    var op := s.db.pending[at];
    CountWithout(s.db.pending, at, key);
    CountMember(s.db.pending, at, key);
    if Insert(key, row) in s.db.pending && op != Insert(key, row) {
      OthersRemain(s.db.pending, at, Insert(key, row));
      var i :| 0 <= i < |Without(s.db.pending, at)| && Without(s.db.pending, at)[i] == Insert(key, row);
      CountMember(Without(s.db.pending, at), i, key);
    }
  }

  lemma StepKeepsOnItsWay(s: Exchange, event: Event, key: string, row: Row)
    requires LifeOf(s, key) && OnItsWay(s, key, row) && !event.Fail?
    ensures OnItsWay(After(s, event), key, row)
  {
    match event
    case Land(_, at) => if at < |s.db.pending| { LandingKeepsOnItsWay(s, at, key, row); }
    case Resume(_, at) =>
      if at < |s.db.pending| && s.db.pending[at].Fetched? && Insert(key, row) in s.db.pending {
        OthersRemain(s.db.pending, at, Insert(key, row));
      }
    case _ =>
  }

  /** Whatever is handed out under the key is the object that was set. */
  predicate OnlyThis(retrieved: seq<Retrieval>, key: string, value: string) {
    forall i :: 0 <= i < |retrieved| && retrieved[i].key == key ==> retrieved[i].value == value
  }

  /** With its insert pending no other row has arrived. */
  lemma ArrivedIsThis(s: Exchange, key: string, row: Row)
    requires LifeOf(s, key) && OnItsWay(s, key, row) && key in s.arrived
    ensures s.arrived[key] == row
  {
    if Insert(key, row) in s.db.pending {
      var i :| 0 <= i < |s.db.pending| && s.db.pending[i] == Insert(key, row);
      CountMember(s.db.pending, i, key);
      assert false;
    }
  }

  lemma StepKeepsOnlyThis(s: Exchange, event: Event, key: string, row: Row)
    requires LifeOf(s, key) && OnItsWay(s, key, row) && OnlyThis(s.retrieved, key, row.value)
    ensures OnlyThis(After(s, event).retrieved, key, row.value)
  {
    if event.Resume? && event.at < |s.db.pending| && s.db.pending[event.at].Fetched? {
      var op := s.db.pending[event.at];
      assert Fits(op, key, Arrived(s, key), Spent(s, key), s.clock);
      if op.key == key && op.answer.Some? {
        ArrivedIsThis(s, key, row);
      }
    }
  }

  lemma {:induction false} RunsKeepOnItsWay(s: Exchange, events: seq<Event>, key: string, row: Row)
    requires LifeOf(s, key) && OnItsWay(s, key, row) && OnlyThis(s.retrieved, key, row.value)
    requires Timely(s.clock, events) && Sets(events, key) == 0 && NothingFails(events)
    ensures OnItsWay(RunEvents(s, events), key, row) && OnlyThis(RunEvents(s, events).retrieved, key, row.value)
  {
    if events != [] {
      var n := |events| - 1;
      RunsKeepOnItsWay(s, events[..n], key, row);
      RunsKeepLife(s, events[..n], key);
      StepKeepsOnItsWay(RunEvents(s, events[..n]), events[n], key, row);
      StepKeepsOnlyThis(RunEvents(s, events[..n]), events[n], key, row);
    }
  }

  lemma {:induction false} NotHandedOut(retrieved: seq<Retrieval>, key: string, value: string)
    requires OnlyThis(retrieved, key, value) && !HandedOut(retrieved, 0, key, value)
    ensures Retrievals(retrieved, key) == 0
  {
    if retrieved != [] {
      NotHandedOut(retrieved[..|retrieved| - 1], key, value);
    }
  }

  /** In the life of the object itself: arrived, unspent, and so in the table. */
  lemma StillThere(t: Exchange, key: string, row: Row)
    requires LifeOf(t, key) && OnItsWay(t, key, row) && OnlyThis(t.retrieved, key, row.value)
    requires Insert(key, row) !in t.db.pending && t.clock < row.expiry && !HandedOut(t.retrieved, 0, key, row.value)
    ensures Lookup(t.db.table, key) == Some(row)
  {
    NotHandedOut(t.retrieved, key, row.value);
  }

  lemma HandedOutLater(earlier: seq<Retrieval>, later: seq<Retrieval>, key: string, value: string)
    requires HandedOut(later, 0, key, value)
    ensures HandedOut(earlier + later, |earlier|, key, value)
  {
    var i :| 0 <= i < |later| && later[i].key == key && later[i].value == value;
    assert (earlier + later)[|earlier| + i] == later[i];
  }

  lemma EndedIsKept(s: Exchange, key: string, now: int, value: string, rest: seq<Event>)
    requires CleanUpsAreDue(s) && HasEnded(s, key)
    requires s.clock <= now && Timely(now, rest) && Sets(rest, key) == 0 && NothingFails(rest)
    ensures Kept(s, RunEvents(s, [Set(now, key, value)] + rest), now, key, value)
  {
    var events, row := [Set(now, key, value)] + rest, Row(value, now + 600_000);
    var set' := After(Afresh(s), Set(now, key, value));
    EndedMeansNew(s, key);
    StepKeepsLife(Afresh(s), Set(now, key, value), key);
    assert set'.db.pending[|s.db.pending|] == Insert(key, row);
    RunOne(Afresh(s), Set(now, key, value));
    RunEventsConcat(Afresh(s), [Set(now, key, value)], rest);
    RunsKeepOnItsWay(set', rest, key, row);
    RunsKeepLife(set', rest, key);
    HistoryDoesNotMatter(s, events);
    var t, u := RunEvents(s, events), RunEvents(Afresh(s), events);
    if Insert(key, row) !in t.db.pending && t.clock < row.expiry && !HandedOut(t.retrieved, |s.retrieved|, key, value) {
      if HandedOut(u.retrieved, 0, key, value) {
        HandedOutLater(s.retrieved, u.retrieved, key, value);
      }
      StillThere(u, key, row);
    }
  }

  // ---------------------------------------------------------------- spoiled

  /** The value that a pending operation carries, if any. */
  function Carried(op: DbOp): string {
    match op
    case Insert(_, row) => row.value
    case Fetched(_, Some(row)) => row.value
    case _ => ""
  }

  /** A text longer than any value that pending operations carry. */
  function Longer(ops: seq<DbOp>): (text: string)
    ensures text != "" && forall i :: 0 <= i < |ops| ==> |Carried(ops[i])| < |text|
  {
    if ops == [] then "x" else Longer(ops[..|ops| - 1]) + Carried(ops[|ops| - 1]) + "x"
  }

  /** A value that is neither in the table nor on its way there. */
  function NewValue(s: Exchange, key: string): (value: string)
    ensures key in s.db.table ==> s.db.table[key].value != value
    ensures forall row: Row :: row.value == value ==> Insert(key, row) !in s.db.pending
    ensures forall i :: 0 <= i < |s.db.pending| ==> Carried(s.db.pending[i]) != value
  {
    Longer(s.db.pending) + if key in s.db.table then s.db.table[key].value else ""
  }

  /** One way to go on, all of it at one clock reading, that does not keep the new object. */
  lemma Spoiled(s: Exchange, t: Exchange, now: int, key: string, value: string, rest: seq<Event>)
    requires s.clock <= now && forall i :: 0 <= i < |rest| ==> rest[i].now == now && (rest[i].Land? || rest[i].Resume?)
    requires t == RunEvents(s, [Set(now, key, value)] + rest) && !Kept(s, t, now, key, value)
    ensures !SafeToSet(s, key)
  {
    NoSets(rest, key);
    assert Timely(now, rest) && NothingFails(rest);
  }

  lemma SpoiledByTwo(s: Exchange, now: int, key: string, value: string, a: Event, b: Event)
    requires s.clock <= now == a.now == b.now && (a.Land? || a.Resume?) && (b.Land? || b.Resume?)
    requires !Kept(s, After(After(After(s, Set(now, key, value)), a), b), now, key, value)
    ensures !SafeToSet(s, key)
  {
    RunThree(s, Set(now, key, value), a, b);
    assert [Set(now, key, value)] + [a, b] == [Set(now, key, value), a, b];
    Spoiled(s, After(After(After(s, Set(now, key, value)), a), b), now, key, value, [a, b]);
  }

  lemma SpoiledByThree(s: Exchange, now: int, key: string, value: string, a: Event, b: Event, c: Event)
    requires s.clock <= now == a.now == b.now == c.now
    requires (a.Land? || a.Resume?) && (b.Land? || b.Resume?) && (c.Land? || c.Resume?)
    requires !Kept(s, After(After(After(After(s, Set(now, key, value)), a), b), c), now, key, value)
    ensures !SafeToSet(s, key)
  {
    var rest := [a, b, c];
    RunFour(s, Set(now, key, value), a, b, c);
    assert [Set(now, key, value)] + rest == [Set(now, key, value), a, b, c];
    Spoiled(s, After(After(After(After(s, Set(now, key, value)), a), b), c), now, key, value, rest);
  }

  lemma SubsetOfPending(s: Exchange, at: nat, op: DbOp)
    requires at < |s.db.pending| && op !in s.db.pending
    ensures op !in Without(s.db.pending, at)
  {
  }

  /** The new insert lands at once, on a row that is there or on none. */
  lemma SetAndLand(s: Exchange, now: int, key: string, value: string)
    ensures var t := After(After(s, Set(now, key, value)), Land(now, |s.db.pending|));
            var row := Row(value, now + 600_000);
            t.db == Db(if key in s.db.table then s.db.table else s.db.table[key := row], s.db.pending)
            && t.clock == now && t.retrieved == s.retrieved
  {
    assert Without(s.db.pending + [Insert(key, Row(value, now + 600_000))], |s.db.pending|) == s.db.pending;
  }

  lemma LandLast(s: Exchange, rest: seq<DbOp>, op: DbOp, now: int)
    requires s.db.pending == rest + [op] && (op.Delete? || (op.Insert? && op.key in s.db.table))
    ensures var t := After(s, Land(now, |rest|));
            t.db == Db(if op.Delete? then s.db.table - {op.key} else s.db.table, rest)
            && t.clock == now && t.retrieved == s.retrieved
  {
    assert Without(rest + [op], |rest|) == rest;
  }

  /** A row that is still there, stale or not, makes the new insert fail. */
  lemma RowSpoils(s: Exchange, key: string)
    requires key in s.db.table
    ensures !SafeToSet(s, key)
  {
    var now, value, land := s.clock, NewValue(s, key), Land(s.clock, |s.db.pending|);
    RunTwo(s, Set(now, key, value), land);
    SetAndLand(s, now, key, value);
    Spoiled(s, After(After(s, Set(now, key, value)), land), now, key, value, [land]);
  }

  /** An insert under way can arrive first. */
  lemma InsertSpoils(s: Exchange, key: string, i: nat)
    requires key !in s.db.table && i < |s.db.pending| && s.db.pending[i].Insert? && s.db.pending[i].key == key
    ensures !SafeToSet(s, key)
  {
    var now, value, n := s.clock, NewValue(s, key), |s.db.pending|;
    var op, rest := Insert(key, Row(value, now + 600_000)), Without(s.db.pending, i);
    var first, second := Land(now, i), Land(now, n - 1);
    var t := After(After(s, Set(now, key, value)), first);
    assert Without(s.db.pending + [op], i) == rest + [op];
    LandLast(t, rest, op, now);
    SubsetOfPending(s, i, op);
    SpoiledByTwo(s, now, key, value, first, second);
  }

  /** A delete under way can land on the new row. */
  lemma DeleteSpoils(s: Exchange, key: string, i: nat)
    requires key !in s.db.table && i < |s.db.pending| && s.db.pending[i] == Delete(key)
    ensures !SafeToSet(s, key)
  {
    var now, value := s.clock, NewValue(s, key);
    var first, second := Land(now, |s.db.pending|), Land(now, i);
    SetAndLand(s, now, key, value);
    var t := After(After(s, Set(now, key, value)), first);
    SubsetOfPending(s, i, Insert(key, Row(value, now + 600_000)));
    SpoiledByTwo(s, now, key, value, first, second);
  }

  /** A caller that holds the old row issues a delete, whether it hands the old object out or finds it expired. */
  lemma CallerDeletes(s: Exchange, i: nat, now: int)
    requires i < |s.db.pending| && s.db.pending[i].Fetched? && s.db.pending[i].answer.Some?
    ensures var t := After(s, Resume(now, i));
            t.db == Db(s.db.table, Without(s.db.pending, i) + [Delete(s.db.pending[i].key)]) && t.clock == now
            && (t.retrieved == s.retrieved
                || t.retrieved == s.retrieved + [Retrieval(s.db.pending[i].key, Carried(s.db.pending[i]), now)])
  {
  }

  /** Such a delete can land on the new row. */
  lemma CallerSpoils(s: Exchange, key: string, i: nat)
    requires key !in s.db.table && i < |s.db.pending| && s.db.pending[i].Fetched? && s.db.pending[i].key == key
    requires s.db.pending[i].answer.Some?
    ensures !SafeToSet(s, key)
  {
    var now, value, n, rest := s.clock, NewValue(s, key), |s.db.pending|, Without(s.db.pending, i);
    var first, second, third := Land(now, n), Resume(now, i), Land(now, n - 1);
    SetAndLand(s, now, key, value);
    var t := After(After(s, Set(now, key, value)), first);
    CallerDeletes(t, i, now);
    LandLast(After(t, second), rest, Delete(key), now);
    SubsetOfPending(s, i, Insert(key, Row(value, now + 600_000)));
    SpoiledByThree(s, now, key, value, first, second, third);
  }

  lemma {:induction false} SomeInsert(ops: seq<DbOp>, key: string) returns (at: nat)
    requires PendingInserts(ops, key) > 0
    ensures at < |ops| && ops[at].Insert? && ops[at].key == key
  {
    at := |ops| - 1;
    if Weight(ops[at], key) == 0 {
      at := SomeInsert(ops[..at], key);
    }
  }

  lemma UnendedSpoils(s: Exchange, key: string)
    requires !HasEnded(s, key)
    ensures !SafeToSet(s, key)
  {
    if key in s.db.table {
      RowSpoils(s, key);
    } else if PendingInserts(s.db.pending, key) > 0 {
      var i := SomeInsert(s.db.pending, key);
      InsertSpoils(s, key, i);
    } else if Delete(key) in s.db.pending {
      var i :| 0 <= i < |s.db.pending| && s.db.pending[i] == Delete(key);
      DeleteSpoils(s, key, i);
    } else {
      var i := SomeoneFound(s.db.pending, key);
      CallerSpoils(s, key, i);
    }
  }

  /**
   In every reachable state, whatever was set before: setting the key is safe if and only if its
   row is gone, no insert or delete of it is under way, and no caller holds it.
   */
  lemma SafeToSetIff(clock: int, events: seq<Event>, key: string)
    requires Timely(clock, events)
    ensures var s := RunEvents(Start(clock), events);
            SafeToSet(s, key) <==> HasEnded(s, key)
  {
    RunsKeepCleanUps(Start(clock), events);
    var s := RunEvents(Start(clock), events);
    if HasEnded(s, key) {
      forall now: int, value: string, rest: seq<Event>
        | s.clock <= now && Timely(now, rest) && Sets(rest, key) == 0 && NothingFails(rest)
        ensures Kept(s, RunEvents(s, [Set(now, key, value)] + rest), now, key, value)
      {
        EndedIsKept(s, key, now, value, rest);
      }
    } else {
      UnendedSpoils(s, key);
    }
  }

  // ---------------------------------------------------------------- a run that loses the object

  function SetAnew(key: string, value: string): seq<Event> {
    [Land(1, 1), Set(2, key, value), Land(2, 1), Resume(2, 0)]
  }

  lemma AfterSetAnew(s: Exchange, found: DbOp, key: string, value: string)
    requires s.db.pending == [found, Delete(key)] && s.db.table.Keys == {key}
    requires found.Fetched? && found.key == key && found.answer.Some? && found.answer.value.expiry > 2
    ensures var t := RunEvents(s, SetAnew(key, value));
            t.db == Db(map[key := Row(value, 600_002)], [Delete(key)]) && t.clock == 2
            && t.arrived == s.arrived[key := Row(value, 600_002)]
            && t.retrieved == s.retrieved + [Retrieval(key, found.answer.value.value, 2)]
  {
    RunFour(s, Land(1, 1), Set(2, key, value), Land(2, 1), Resume(2, 0));
    var a := After(s, Land(1, 1));
    LandLast(s, [found], Delete(key), 1);
    assert a.db == Db(map[], [found]);
    SetAndLand(a, 2, key, value);
    assert Without([found], 0) == [];
  }

  lemma DeleteLandsLast(s: Exchange, key: string)
    requires s.db.pending == [Delete(key)]
    ensures var t := RunEvents(s, [Land(2, 0)]);
            t.db == Db(s.db.table - {key}, []) && t.arrived == s.arrived && t.clock == 2 && t.retrieved == s.retrieved
  {
    RunOne(s, Land(2, 0));
    LandLast(s, [], Delete(key), 2);
  }

  /**
   Within two milliseconds: two polls read the first object, one of them retrieves it and its
   delete lands; the state is set again; the other poll is resumed, and its delete lands on the
   second object, which is lost unread with all of its 600 seconds still ahead.
   */
  lemma StaleDeleteHitsNewObject(key: string, old': string, new': string)
    ensures var s := RunEvents(Start(0), TwoPolls(key, old') + BothRead() + SetAnew(key, new') + [Land(2, 0)]);
            s.arrived == map[key := Row(new', 600_002)] && s.clock == 2 && key !in s.db.table && s.db.pending == []
            && s.retrieved == [Retrieval(key, old', 1), Retrieval(key, old', 2)]
  {
    var before := TwoPolls(key, old') + BothRead();
    AfterBothRead(key, old');
    RunEventsConcat(Start(0), before, SetAnew(key, new'));
    AfterSetAnew(RunEvents(Start(0), before), Fetched(key, Some(Row(old', 600_000))), key, new');
    RunEventsConcat(Start(0), before + SetAnew(key, new'), [Land(2, 0)]);
    DeleteLandsLast(RunEvents(Start(0), before + SetAnew(key, new')), key);
  }
}
