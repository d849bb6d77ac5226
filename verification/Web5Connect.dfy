/**
 The connect server's exchange of request and response objects. Inserts and deletes are issued
 without being waited for, so between the calls and the table there is a collection of pending
 database operations, any of which may complete next.
 */
module Web5Connect {
  import opened Wrappers
  import opened TtlCache

  const TTL_IN_SECONDS := 600

  function RequestKey(requestId: string): string {
    "request:" + requestId
  }

  function ResponseKey(state: string): string {
    "response:" + state
  }

  /** Requests and responses never share a row, whatever identifiers clients choose. */
  lemma KeysAreSeparate(a: string, b: string)
    ensures RequestKey(a) != ResponseKey(b)
    ensures RequestKey(a) == RequestKey(b) ==> a == b
    ensures ResponseKey(a) == ResponseKey(b) ==> a == b
  {
    assert RequestKey(a)[2] == 'q' && ResponseKey(b)[2] == 's';
    assert RequestKey(a)[8..] == a && RequestKey(b)[8..] == b;
    assert ResponseKey(a)[9..] == a && ResponseKey(b)[9..] == b;
  }

  /** `Fetched` is a read whose answer is back, but whose caller has not been resumed yet. */
  datatype DbOp =
    | Insert(key: string, row: Row)
    | Delete(key: string)
    | Read(key: string)
    | CleanUp(before: int)
    | Fetched(key: string, answer: Option<Row>)

  datatype Db = Db(table: Table, pending: seq<DbOp>)

  function Lookup(table: Table, key: string): Option<Row> {
    if key in table then Some(table[key]) else None
  }

  function Without(items: seq<DbOp>, at: nat): seq<DbOp>
    requires at < |items|
  {
    items[..at] + items[at + 1..]
  }

  /** One pending operation reaches the database. An insert over an existing key has no effect. */
  function Landed(db: Db, at: nat): Db
    requires at < |db.pending|
  {
    var rest := Without(db.pending, at);
    match db.pending[at]
    case Insert(key, row) => Db(if key in db.table then db.table else db.table[key := row], rest)
    case Delete(key) => Db(db.table - {key}, rest)
    case CleanUp(before) => Db(CleanedUp(db.table, before), rest)
    case Read(key) => Db(db.table, rest + [Fetched(key, Lookup(db.table, key))])
    case Fetched(_, _) => db
  }

  /** What a resumed caller returns, reading the clock at `now`. */
  function Answer(op: DbOp, now: int): Option<string>
    requires op.Fetched?
  {
    if op.answer.Some? && now < op.answer.value.expiry then Some(op.answer.value.value) else None
  }

  /** A found row is deleted either way: by the cache when it has expired, by the server when it is returned. */
  function Resumed(db: Db, at: nat): Db
    requires at < |db.pending| && db.pending[at].Fetched?
  {
    var op := db.pending[at];
    Db(db.table, Without(db.pending, at) + if op.answer.Some? then [Delete(op.key)] else [])
  }

  class Web5ConnectServer {
    const baseUrl: string
    const cache: SqlTtlCache
    var pending: seq<DbOp>

    constructor (baseUrl: string, cache: SqlTtlCache)
      ensures this.baseUrl == baseUrl && this.cache == cache && pending == []
    {
      this.baseUrl, this.cache, pending := baseUrl, cache, [];
    }

    ghost function Model(): Db
      reads this, cache
    {
      Db(cache.cacheEntries, pending)
    }

    method SetWeb5ConnectRequest(now: int, requestId: string, request: string)
      returns (requestUri: string, expiresIn: int)
      modifies this`pending
      ensures pending == old(pending) + [Insert("request:" + requestId, Row(request, now + 600_000))]
      ensures requestUri == baseUrl + "/connect/authorize/" + requestId + ".jwt" && expiresIn == 600
    {
      requestUri := baseUrl + "/connect/authorize/" + requestId + ".jwt";
      CacheInsert(RequestKey(requestId), request, TTL_IN_SECONDS, now);
      expiresIn := TTL_IN_SECONDS;
    }

    method SetWeb5ConnectResponse(now: int, state: string, response: string)
      modifies this`pending
      ensures pending == old(pending) + [Insert("response:" + state, Row(response, now + 600_000))]
    {
      CacheInsert(ResponseKey(state), response, TTL_IN_SECONDS, now);
    }

    /** Computes the expiry at once; the row arrives later. */
    method CacheInsert(key: string, value: string, ttl: int, now: int)
      modifies this`pending
      ensures pending == old(pending) + [Insert(key, Row(value, now + 1000 * ttl))]
    {
      var expiry := now + ttl * 1000;
      pending := pending + [Insert(key, Row(value, expiry))];
    }

    /** The part of a get up to its await. */
    method BeginGet(key: string)
      modifies this`pending
      ensures pending == old(pending) + [Read(key)]
    {
      pending := pending + [Read(key)];
    }

    method GetWeb5ConnectRequest(requestId: string)
      modifies this`pending
      ensures pending == old(pending) + [Read("request:" + requestId)]
    {
      BeginGet(RequestKey(requestId));
    }

    method GetWeb5ConnectResponse(state: string)
      modifies this`pending
      ensures pending == old(pending) + [Read("response:" + state)]
    {
      BeginGet(ResponseKey(state));
    }

    /** The part of a get after its await: the cache's expiry check, then the server's delete of a found object. */
    method FinishGet(at: nat, now: int) returns (found: Option<string>)
      requires at < |pending| && pending[at].Fetched?
      modifies this`pending
      ensures found == Answer(old(pending)[at], now)
      ensures Model() == Resumed(old(Model()), at)
      ensures var op := old(pending)[at];
              found == (if op.answer.Some? && now < op.answer.value.expiry then Some(op.answer.value.value) else None)
              && pending == old(pending)[..at] + old(pending)[at + 1..]
                            + (if op.answer.Some? then [Delete(op.key)] else [])
    {
      var op := pending[at];
      pending := Without(pending, at);
      if op.answer.None? {
        return None;
      }
      var entry := op.answer.value;
      if now >= entry.expiry {
        pending := pending + [Delete(op.key)];
        return None;
      }
      found := Some(entry.value);
      pending := pending + [Delete(op.key)];
    }

    method BeginCleanUp(now: int)
      modifies this`pending
      ensures pending == old(pending) + [CleanUp(now)]
    {
      pending := pending + [CleanUp(now)];
    }

    method CompletePending(at: nat)
      requires at < |pending|
      modifies this`pending, cache
      ensures Model() == Landed(old(Model()), at)
      ensures var rest := old(pending)[..at] + old(pending)[at + 1..];
              match old(pending)[at]
              case Insert(key, row) =>
                pending == rest && key in cache.cacheEntries
                && (forall k :: k in cache.cacheEntries <==> k == key || k in old(cache.cacheEntries))
                && (forall k :: k in cache.cacheEntries ==>
                      cache.cacheEntries[k] == if k in old(cache.cacheEntries) then old(cache.cacheEntries)[k] else row)
              case Delete(key) => pending == rest && cache.cacheEntries == old(cache.cacheEntries) - {key}
              case CleanUp(before) =>
                pending == rest
                && (forall k :: k in cache.cacheEntries
                           <==> k in old(cache.cacheEntries) && old(cache.cacheEntries)[k].expiry >= before)
                && (forall k :: k in cache.cacheEntries ==> cache.cacheEntries[k] == old(cache.cacheEntries)[k])
              case Read(key) =>
                cache.cacheEntries == old(cache.cacheEntries)
                && pending == rest + [Fetched(key, if key in old(cache.cacheEntries)
                                                   then Some(old(cache.cacheEntries)[key]) else None)]
              case Fetched(_, _) => cache.cacheEntries == old(cache.cacheEntries) && pending == old(pending)
    {
      var op := pending[at];
      match op {
        case Insert(key, row) =>
          pending := Without(pending, at);
          var result := cache.InsertRow(key, row);
        case Delete(key) =>
          pending := Without(pending, at);
          cache.Delete(key);
        case CleanUp(before) =>
          pending := Without(pending, at);
          cache.CleanUpExpiredEntries(before);
        case Read(key) =>
          pending := Without(pending, at) + [Fetched(key, Lookup(cache.cacheEntries, key))];
        case Fetched(_, _) =>
      }
    }
  }

  // ---------------------------------------------------------------- runs

  datatype Event =
    | Set(now: int, key: string, value: string)
    | Poll(now: int, key: string)
    | Tick(now: int)
    | Land(now: int, at: nat)
    | Resume(now: int, at: nat)
    | Fail(now: int, at: nat)

  datatype Retrieval = Retrieval(key: string, value: string, at: int)

  /**
   `arrived` remembers the row of each insert that took effect, `deleted` the keys of which a
   delete has landed, and `retrieved` what callers were given.
   */
  datatype Exchange =
    Exchange(db: Db, clock: int, arrived: map<string, Row>, deleted: set<string>, retrieved: seq<Retrieval>)

  function Start(clock: int): Exchange {
    Exchange(Db(map[], []), clock, map[], {}, [])
  }

  function Issue(s: Exchange, op: DbOp): Exchange {
    s.(db := s.db.(pending := s.db.pending + [op]))
  }

  function LandAt(s: Exchange, at: nat): Exchange
    requires at < |s.db.pending|
  {
    var op := s.db.pending[at];
    s.(db := Landed(s.db, at),
       arrived := if op.Insert? && op.key !in s.db.table then s.arrived[op.key := op.row] else s.arrived,
       deleted := if op.Delete? then s.deleted + {op.key} else s.deleted)
  }

  function ResumeAt(s: Exchange, at: nat, now: int): Exchange
    requires at < |s.db.pending| && s.db.pending[at].Fetched?
  {
    var op := s.db.pending[at];
    s.(db := Resumed(s.db, at),
       retrieved := if Answer(op, now).Some? then s.retrieved + [Retrieval(op.key, Answer(op, now).value, now)]
                    else s.retrieved)
  }

  function After(s: Exchange, event: Event): Exchange {
    var t := match event
      case Set(now, key, value) => Issue(s, Insert(key, Row(value, Expiry(now, TTL_IN_SECONDS))))
      case Poll(_, key) => Issue(s, Read(key))
      case Tick(now) => Issue(s, CleanUp(now))
      case Land(_, at) => if at < |s.db.pending| then LandAt(s, at) else s
      case Resume(now, at) => if at < |s.db.pending| && s.db.pending[at].Fetched? then ResumeAt(s, at, now) else s
      case Fail(_, at) => if at < |s.db.pending| then s.(db := s.db.(pending := Without(s.db.pending, at))) else s;
    t.(clock := event.now)
  }

  /**
   One event carried out on the server object: its table, its pending operations and its answers are
   those of the run.
   */
  method Perform(server: Web5ConnectServer, event: Event, ghost s: Exchange) returns (found: Option<string>)
    requires s.db == server.Model()
    modifies server, server.cache
    ensures server.Model() == After(s, event).db
    ensures found.None? ==> After(s, event).retrieved == s.retrieved
    ensures found.Some? ==> event.Resume? && event.at < |s.db.pending| && s.db.pending[event.at].Fetched?
    ensures found.Some? ==>
              After(s, event).retrieved == s.retrieved + [Retrieval(s.db.pending[event.at].key, found.value, event.now)]
  {
    found := None;
    match event {
      case Set(now, key, value) => server.CacheInsert(key, value, TTL_IN_SECONDS, now);
      case Poll(_, key) => server.BeginGet(key);
      case Tick(now) => server.BeginCleanUp(now);
      case Land(_, at) => if at < |server.pending| { server.CompletePending(at); }
      case Resume(now, at) =>
        if at < |server.pending| && server.pending[at].Fetched? { found := server.FinishGet(at, now); }
      case Fail(_, at) => if at < |server.pending| { server.pending := Without(server.pending, at); }
    }
  }

  /** A database operation that fails is gone and has done nothing. */
  lemma FailedOperationIsGone(s: Exchange, now: int, at: nat)
    requires at < |s.db.pending|
    ensures var t := After(s, Fail(now, at));
            multiset(t.db.pending) + multiset{s.db.pending[at]} == multiset(s.db.pending)
            && t == s.(clock := now, db := s.db.(pending := t.db.pending))
  {
    assert s.db.pending == s.db.pending[..at] + [s.db.pending[at]] + s.db.pending[at + 1..];
  }

  function RunEvents(s: Exchange, events: seq<Event>): Exchange {
    if events == [] then s else After(RunEvents(s, events[..|events| - 1]), events[|events| - 1])
  }

  predicate Timely(clock: int, events: seq<Event>) {
    (forall i :: 0 <= i < |events| ==> clock <= events[i].now) &&
    (forall i, j :: 0 <= i < j < |events| ==> events[i].now <= events[j].now)
  }

  lemma {:induction false} RunEventsConcat(s: Exchange, pre: seq<Event>, post: seq<Event>)
    ensures RunEvents(s, pre + post) == RunEvents(RunEvents(s, pre), post)
  {
    if post == [] {
      assert pre + post == pre;
    } else {
      RunEventsConcat(s, pre, post[..|post| - 1]);
      assert (pre + post)[..|pre + post| - 1] == pre + post[..|post| - 1];
    }
  }

  lemma RunTwo(s: Exchange, a: Event, b: Event)
    ensures RunEvents(s, [a, b]) == After(After(s, a), b)
  {
    assert [a, b][..1] == [a] && [a][..0] == [];
    assert RunEvents(s, [a]) == After(s, a);
  }

  // ---------------------------------------------------------------- returned as stored, and in time

  /** Some event of the run set `key` to a row like this one. */
  ghost predicate WasSet(events: seq<Event>, key: string, row: Row) {
    exists k :: 0 <= k < |events| && events[k].Set? && events[k].key == key
                && row == Row(events[k].value, events[k].now + 600_000)
  }

  ghost predicate AllWereSet(s: Exchange, events: seq<Event>) {
    (forall key :: key in s.db.table ==> WasSet(events, key, s.db.table[key])) &&
    (forall op :: op in s.db.pending && op.Insert? ==> WasSet(events, op.key, op.row)) &&
    (forall op :: op in s.db.pending && op.Fetched? && op.answer.Some? ==> WasSet(events, op.key, op.answer.value))
  }

  lemma WasSetExtends(events: seq<Event>, event: Event)
    ensures forall key, row :: WasSet(events, key, row) ==> WasSet(events + [event], key, row)
    ensures event.Set? ==> WasSet(events + [event], event.key, Row(event.value, event.now + 600_000))
  {
    var all := events + [event];
    forall key, row | WasSet(events, key, row) ensures WasSet(all, key, row) {
      var k :| 0 <= k < |events| && events[k].Set? && events[k].key == key
               && row == Row(events[k].value, events[k].now + 600_000);
      assert all[k] == events[k];
    }
    assert all[|events|] == event;
  }

  lemma AllWereSetExtends(s: Exchange, events: seq<Event>, event: Event)
    requires AllWereSet(s, events)
    ensures AllWereSet(s, events + [event])
  {
    WasSetExtends(events, event);
  }

  lemma IssueKeepsAllWereSet(s: Exchange, op: DbOp, events: seq<Event>)
    requires AllWereSet(s, events) && !op.Fetched? && (op.Insert? ==> WasSet(events, op.key, op.row))
    ensures AllWereSet(Issue(s, op), events)
  {
  }

  lemma LandKeepsAllWereSet(s: Exchange, at: nat, events: seq<Event>)
    requires AllWereSet(s, events) && at < |s.db.pending|
    ensures AllWereSet(LandAt(s, at), events)
  {
    assert s.db.pending[at] in s.db.pending;
    assert forall op :: op in Without(s.db.pending, at) ==> op in s.db.pending;
  }

  lemma StepKeepsAllWereSet(s: Exchange, event: Event, events: seq<Event>)
    requires AllWereSet(s, events)
    requires event.Set? ==> WasSet(events, event.key, Row(event.value, event.now + 600_000))
    ensures AllWereSet(After(s, event), events)
  {
    match event
    case Set(now, key, value) => IssueKeepsAllWereSet(s, Insert(key, Row(value, Expiry(now, TTL_IN_SECONDS))), events);
    case Poll(_, key) => IssueKeepsAllWereSet(s, Read(key), events);
    case Tick(now) => IssueKeepsAllWereSet(s, CleanUp(now), events);
    case Land(_, at) => if at < |s.db.pending| { LandKeepsAllWereSet(s, at, events); }
    case Resume(_, at) =>
      if at < |s.db.pending| { assert forall op :: op in Without(s.db.pending, at) ==> op in s.db.pending; }
    case Fail(_, at) =>
      if at < |s.db.pending| { assert forall op :: op in Without(s.db.pending, at) ==> op in s.db.pending; }
  }

  lemma {:induction false} OnlyStoredRows(clock: int, events: seq<Event>)
    ensures AllWereSet(RunEvents(Start(clock), events), events)
  {
    if events != [] {
      var n := |events| - 1;
      OnlyStoredRows(clock, events[..n]);
      assert events == events[..n] + [events[n]];
      WasSetExtends(events[..n], events[n]);
      AllWereSetExtends(RunEvents(Start(clock), events[..n]), events[..n], events[n]);
      StepKeepsAllWereSet(RunEvents(Start(clock), events[..n]), events[n], events);
    }
  }

  /**
   Whatever the interleaving, an object is returned only as it was stored, and only at a clock
   reading before its set time plus 600 seconds.
   */
  lemma {:induction false} ReturnedAsStoredInTime(clock: int, events: seq<Event>, i: nat)
    requires i < |RunEvents(Start(clock), events).retrieved|
    ensures var r := RunEvents(Start(clock), events).retrieved[i];
            exists k :: 0 <= k < |events| && events[k].Set? && events[k].key == r.key
              && events[k].value == r.value && r.at < events[k].now + 600_000
  {
    var n := |events| - 1;
    var before := RunEvents(Start(clock), events[..n]);
    var r := RunEvents(Start(clock), events).retrieved[i];
    if i < |before.retrieved| {
      ReturnedAsStoredInTime(clock, events[..n], i);
      var k :| 0 <= k < n && events[..n][k].Set? && events[..n][k].key == r.key
               && events[..n][k].value == r.value && r.at < events[..n][k].now + 600_000;
      assert events[k] == events[..n][k];
    } else {
      OnlyStoredRows(clock, events[..n]);
      var op := before.db.pending[events[n].at];
      assert WasSet(events[..n], op.key, op.answer.value);
      var k :| 0 <= k < n && events[..n][k].Set? && events[..n][k].key == op.key
               && op.answer.value == Row(events[..n][k].value, events[..n][k].now + 600_000);
      assert events[k] == events[..n][k];
    }
  }
}
