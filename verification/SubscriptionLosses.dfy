/**
 When a subscription can be lost while the DWN still has it open: exactly which connections can
 be closed for good, which states can lose a handle by what is already under way, and which
 messages lead there.
 */
module SubscriptionLosses {
  import opened SubscriptionRuns

  // ---------------------------------------------------------------- closing for good

  ghost predicate AllAsked(s: Connection) {
    forall h: nat :: h < s.handles ==> h in s.asked
  }

  predicate NoSubscribes(events: seq<Event>) {
    forall i :: 0 <= i < |events| ==> !events[i].Subscribe?
  }

  /** Closing the connection now leaves nothing open, then or ever after, unless a new subscribe comes in. */
  ghost predicate ClosesForGood(s: Connection) {
    forall events: seq<Event> :: NoSubscribes(events) ==> AllAsked(RunEvents(After(s, CloseConnection), events))
  }

  ghost predicate OnlyClosing(s: Connection) {
    forall t :: t in s.flights ==> s.flights[t].Closing?
  }

  ghost predicate WoundDown(s: Connection) {
    s.subscriptions == map[] && OnlyClosing(s) && AllAsked(s)
  }

  lemma WoundDownStep(s: Connection, event: Event)
    requires WoundDown(s) && !event.Subscribe?
    ensures WoundDown(After(s, event))
  {
    assert Handles(s.subscriptions) == {};
    assert s.subscriptions - {if event.CloseResumes? && event.ticket in s.flights then s.flights[event.ticket].id
                              else Null}
        == map[];
  }

  lemma {:induction false} StaysWoundDown(s: Connection, events: seq<Event>)
    requires WoundDown(s) && NoSubscribes(events)
    ensures WoundDown(RunEvents(s, events))
  {
    if events != [] {
      StaysWoundDown(s, events[..|events| - 1]);
      WoundDownStep(RunEvents(s, events[..|events| - 1]), events[|events| - 1]);
    }
  }

  lemma NotForGood(s: Connection, events: seq<Event>, h: nat)
    requires NoSubscribes(events)
    requires var t := RunEvents(After(s, CloseConnection), events); h < t.handles && h !in t.asked
    ensures !ClosesForGood(s)
  {
  }

  /** A flight on its way to a handle outlives the close, and its handle is never asked to close. */
  lemma FlightOutlivesClose(s: Connection, ticket: nat)
    requires Inv(s) && ticket in s.flights && !s.flights[ticket].Closing?
    ensures !ClosesForGood(s)
  {
    var closed := After(s, CloseConnection);
    StepKeepsInv(s, CloseConnection);
    if s.flights[ticket].Opening? {
      RunSnoc(closed, [], DwnOpens(ticket));
      NotForGood(s, [] + [DwnOpens(ticket)], closed.handles);
    } else {
      NotForGood(s, [], closed.flights[ticket].handle);
    }
  }

  lemma ClosesForGoodFrom(s: Connection)
    requires Inv(s)
    ensures ClosesForGood(s) <==> OnlyClosing(s) && s.duplicates == {} && s.swept == {}
  {
    var closed := After(s, CloseConnection);
    StepKeepsInv(s, CloseConnection);
    if t :| t in s.flights && !s.flights[t].Closing? {
      FlightOutlivesClose(s, t);
    } else if h :| h in s.duplicates || h in s.swept {
      assert Settled(closed, h) && h !in closed.asked;
      NotForGood(s, [], h);
    } else {
      forall h: nat | h < closed.handles ensures h in closed.asked {
        assert Located(closed, h);
      }
      forall events: seq<Event> | NoSubscribes(events) ensures AllAsked(RunEvents(closed, events)) {
        StaysWoundDown(closed, events);
      }
    }
  }

  /**
   Closing the connection leaves nothing open, whatever was under way still comes in, if and only
   if no subscribe was waiting for the DWN or for its registration and no handle had been dropped.
   */
  lemma CloseLeavesNothingOpenIff(events: seq<Event>)
    ensures var s := RunEvents(Start(), events);
            ClosesForGood(s) <==>
              (forall t :: t in s.flights ==> s.flights[t].Closing?) && s.duplicates == {} && s.swept == {}
  {
    RunsKeepInv(events);
    ClosesForGoodFrom(RunEvents(Start(), events));
  }

  // ---------------------------------------------------------------- losing a handle by what is under way

  /** No message, and no close of the connection: the DWN answers and handlers are resumed. */
  predicate Quiet(event: Event) {
    event.DwnOpens? || event.DwnDeclines? || event.Register? || event.CloseResumes?
  }

  predicate AllQuiet(events: seq<Event>) {
    forall i :: 0 <= i < |events| ==> Quiet(events[i])
  }

  /** The last reference to the handle was dropped, or is held by a connection that is closed already. */
  ghost predicate Lost(s: Connection, handle: nat) {
    handle in s.duplicates || handle in s.swept || (s.closed && InMap(s, handle))
  }

  ghost predicate CanLose(s: Connection) {
    exists events: seq<Event>, h: nat :: AllQuiet(events) && Lost(RunEvents(s, events), h) && !Lost(s, h)
  }

  /**
   A subscribe under way is at risk when the connection is closed, its id is registered, or any
   other message under way has its id; a close under way, when its id has been registered anew.
   */
  ghost predicate AtRiskAt(s: Connection, ticket: nat)
    requires ticket in s.flights
  {
    var id := s.flights[ticket].id;
    if s.flights[ticket].Closing? then !s.closed && id in s.subscriptions && s.subscriptions[id] !in s.asked
    else s.closed || id in s.subscriptions || exists u :: u in s.flights && u != ticket && s.flights[u].id == id
  }

  ghost predicate AtRisk(s: Connection) {
    exists t :: t in s.flights && AtRiskAt(s, t)
  }

  lemma RegisterKeepsSafe(s: Connection, ticket: nat)
    requires Inv(s) && !AtRisk(s) && ticket in s.flights && s.flights[ticket].Opened?
    ensures !AtRisk(After(s, Register(ticket)))
    ensures forall h :: Lost(After(s, Register(ticket)), h) ==> Lost(s, h)
  {
    var next := After(s, Register(ticket));
    assert !AtRiskAt(s, ticket);
    forall t | t in next.flights ensures !AtRiskAt(next, t) {
      assert t in s.flights && t != ticket && !AtRiskAt(s, t) && next.flights[t] == s.flights[t];
    }
  }

  lemma CloseResumesKeepsSafe(s: Connection, ticket: nat)
    requires Inv(s) && !AtRisk(s) && ticket in s.flights && s.flights[ticket].Closing?
    ensures !AtRisk(After(s, CloseResumes(ticket)))
    ensures forall h :: Lost(After(s, CloseResumes(ticket)), h) ==> Lost(s, h)
  {
    var next := After(s, CloseResumes(ticket));
    assert !AtRiskAt(s, ticket);
    forall t | t in next.flights ensures !AtRiskAt(next, t) {
      assert t in s.flights && !AtRiskAt(s, t) && next.flights[t] == s.flights[t];
    }
    forall h | Lost(next, h) ensures Lost(s, h) {
      if next.closed && InMap(next, h) {
        var id :| id in next.subscriptions && next.subscriptions[id] == h;
        assert id in s.subscriptions && s.subscriptions[id] == h;
      }
    }
  }

  lemma DwnKeepsSafe(s: Connection, event: Event)
    requires Inv(s) && !AtRisk(s) && (event.DwnOpens? || event.DwnDeclines?)
    ensures !AtRisk(After(s, event))
    ensures forall h :: Lost(After(s, event), h) ==> Lost(s, h)
  {
    var next := After(s, event);
    forall t | t in next.flights ensures !AtRiskAt(next, t) {
      assert t in s.flights && !AtRiskAt(s, t) && next.flights[t].id == s.flights[t].id;
    }
  }

  lemma QuietKeepsSafe(s: Connection, event: Event)
    requires Inv(s) && !AtRisk(s) && Quiet(event)
    ensures !AtRisk(After(s, event)) && forall h :: Lost(After(s, event), h) ==> Lost(s, h)
  {
    match event
    case Register(t) => if t in s.flights && s.flights[t].Opened? { RegisterKeepsSafe(s, t); }
    case CloseResumes(t) => if t in s.flights && s.flights[t].Closing? { CloseResumesKeepsSafe(s, t); }
    case _ => DwnKeepsSafe(s, event);
  }

  lemma {:induction false} QuietRunsKeepSafe(s: Connection, events: seq<Event>)
    requires Inv(s) && !AtRisk(s) && AllQuiet(events)
    ensures var t := RunEvents(s, events); Inv(t) && !AtRisk(t) && forall h :: Lost(t, h) ==> Lost(s, h)
  {
    if events != [] {
      var n := |events| - 1;
      QuietRunsKeepSafe(s, events[..n]);
      StepKeepsInv(RunEvents(s, events[..n]), events[n]);
      QuietKeepsSafe(RunEvents(s, events[..n]), events[n]);
    }
  }

  lemma CanLoseBy(s: Connection, events: seq<Event>, h: nat)
    requires AllQuiet(events) && Lost(RunEvents(s, events), h) && !Lost(s, h)
    ensures CanLose(s)
  {
  }

  /** The DWN answers a waiting subscribe; an answered one stays as it is. */
  function OpenFirst(s: Connection, ticket: nat): seq<Event>
    requires ticket in s.flights
  {
    if s.flights[ticket].Opening? then [] + [DwnOpens(ticket)] else []
  }

  lemma OpenedFlight(s: Connection, ticket: nat)
    requires Inv(s) && ticket in s.flights && !s.flights[ticket].Closing?
    ensures var u := RunEvents(s, OpenFirst(s, ticket));
            && Inv(u) && u.flights.Keys == s.flights.Keys && u.flights[ticket].Opened?
            && u.flights[ticket].id == s.flights[ticket].id
            && (forall t :: t in s.flights && t != ticket ==> u.flights[t] == s.flights[t])
            && u.subscriptions == s.subscriptions && u.asked == s.asked && u.closed == s.closed
            && u.duplicates == s.duplicates && u.swept == s.swept
            && !Lost(s, u.flights[ticket].handle) && u.flights[ticket].handle !in s.asked
  {
    if s.flights[ticket].Opening? {
      RunSnoc(s, [], DwnOpens(ticket));
      StepKeepsInv(s, DwnOpens(ticket));
    }
  }

  lemma RegisterLoses(s: Connection, ticket: nat)
    requires Inv(s) && ticket in s.flights && !s.flights[ticket].Closing?
    requires s.closed || s.flights[ticket].id in s.subscriptions
    ensures CanLose(s)
  {
    OpenedFlight(s, ticket);
    var u, id := RunEvents(s, OpenFirst(s, ticket)), s.flights[ticket].id;
    RunSnoc(s, OpenFirst(s, ticket), Register(ticket));
    var v := After(u, Register(ticket));
    assert id !in s.subscriptions ==> v.subscriptions[id] == u.flights[ticket].handle;
    CanLoseBy(s, OpenFirst(s, ticket) + [Register(ticket)], u.flights[ticket].handle);
  }

  lemma {:induction false} RunConcat(s: Connection, pre: seq<Event>, post: seq<Event>)
    ensures RunEvents(s, pre + post) == RunEvents(RunEvents(s, pre), post)
  {
    if post == [] {
      assert pre + post == pre;
    } else {
      var init, last := post[..|post| - 1], post[|post| - 1];
      RunConcat(s, pre, init);
      assert post == init + [last] && pre + post == (pre + init) + [last];
      RunSnoc(s, pre + init, last);
      RunSnoc(RunEvents(s, pre), init, last);
    }
  }

  lemma LosesLater(s: Connection, events: seq<Event>)
    requires AllQuiet(events) && CanLose(RunEvents(s, events))
    requires forall h :: Lost(s, h) ==> Lost(RunEvents(s, events), h)
    ensures CanLose(s)
  {
    var t := RunEvents(s, events);
    var more, h :| AllQuiet(more) && Lost(RunEvents(t, more), h) && !Lost(t, h);
    RunConcat(s, events, more);
    CanLoseBy(s, events + more, h);
  }

  lemma RegisterKeepsOthers(s: Connection, ticket: nat, other: nat)
    requires Inv(s) && ticket in s.flights && s.flights[ticket].Opened? && s.flights[ticket].id !in s.subscriptions
    requires other in s.flights && other != ticket
    ensures var v := After(s, Register(ticket));
            && Inv(v) && other in v.flights && v.flights[other] == s.flights[other]
            && s.flights[ticket].id in v.subscriptions && v.subscriptions[s.flights[ticket].id] !in v.asked
            && v.closed == s.closed && forall h :: Lost(s, h) ==> Lost(v, h)
  {
    StepKeepsInv(s, Register(ticket));
    var v := After(s, Register(ticket));
    assert forall id :: id in s.subscriptions ==> id in v.subscriptions && v.subscriptions[id] == s.subscriptions[id];
  }

  /** The first of two subscribes with one id is registered; the second is still under way. */
  lemma FirstRegisters(s: Connection, ticket: nat, other: nat)
    requires Inv(s) && ticket in s.flights && !s.flights[ticket].Closing? && s.flights[ticket].id !in s.subscriptions
    requires other in s.flights && other != ticket
    ensures var v := RunEvents(s, OpenFirst(s, ticket) + [Register(ticket)]);
            && Inv(v) && other in v.flights && v.flights[other] == s.flights[other]
            && s.flights[ticket].id in v.subscriptions && v.subscriptions[s.flights[ticket].id] !in v.asked
            && v.closed == s.closed && forall h :: Lost(s, h) ==> Lost(v, h)
  {
    OpenedFlight(s, ticket);
    var u := RunEvents(s, OpenFirst(s, ticket));
    RunSnoc(s, OpenFirst(s, ticket), Register(ticket));
    RegisterKeepsOthers(u, ticket, other);
    assert forall h :: Lost(s, h) ==> Lost(u, h);
  }

  lemma SweepLoses(s: Connection, ticket: nat)
    requires Inv(s) && !s.closed && ticket in s.flights && s.flights[ticket].Closing?
    requires s.flights[ticket].id in s.subscriptions && s.subscriptions[s.flights[ticket].id] !in s.asked
    ensures CanLose(s)
  {
    RunSnoc(s, [], CloseResumes(ticket));
    CanLoseBy(s, [] + [CloseResumes(ticket)], s.subscriptions[s.flights[ticket].id]);
  }

  /** A delete that is still to come takes away what the subscribe registers. */
  lemma DeleteLoses(s: Connection, ticket: nat, other: nat)
    requires Inv(s) && !s.closed && ticket in s.flights && !s.flights[ticket].Closing?
    requires s.flights[ticket].id !in s.subscriptions
    requires other in s.flights && s.flights[other].Closing? && s.flights[other].id == s.flights[ticket].id
    ensures CanLose(s)
  {
    var events := OpenFirst(s, ticket) + [Register(ticket)];
    FirstRegisters(s, ticket, other);
    SweepLoses(RunEvents(s, events), other);
    LosesLater(s, events);
  }

  /** Of two subscribes under way with one id, the one registered second is dropped. */
  lemma DuplicateLoses(s: Connection, ticket: nat, other: nat)
    requires Inv(s) && ticket in s.flights && !s.flights[ticket].Closing? && s.flights[ticket].id !in s.subscriptions
    requires other in s.flights && other != ticket && !s.flights[other].Closing?
    requires s.flights[other].id == s.flights[ticket].id
    ensures CanLose(s)
  {
    var events := OpenFirst(s, ticket) + [Register(ticket)];
    FirstRegisters(s, ticket, other);
    RegisterLoses(RunEvents(s, events), other);
    LosesLater(s, events);
  }

  lemma RiskLoses(s: Connection, ticket: nat)
    requires Inv(s) && ticket in s.flights && AtRiskAt(s, ticket)
    ensures CanLose(s)
  {
    var id := s.flights[ticket].id;
    if s.flights[ticket].Closing? {
      SweepLoses(s, ticket);
    } else if s.closed || id in s.subscriptions {
      RegisterLoses(s, ticket);
    } else {
      var u :| u in s.flights && u != ticket && s.flights[u].id == id;
      if s.flights[u].Closing? {
        DeleteLoses(s, ticket, u);
      } else {
        DuplicateLoses(s, ticket, u);
      }
    }
  }

  lemma CanLoseFrom(s: Connection)
    requires Inv(s)
    ensures CanLose(s) <==> AtRisk(s)
  {
    if t :| t in s.flights && AtRiskAt(s, t) {
      RiskLoses(s, t);
    } else {
      forall events: seq<Event>, h: nat | AllQuiet(events) && Lost(RunEvents(s, events), h) ensures Lost(s, h) {
        QuietRunsKeepSafe(s, events);
      }
    }
  }

  /**
   In every reachable state, what is already under way can lose one more handle if and only if
   some message under way is at risk.
   */
  lemma CanLoseIff(events: seq<Event>)
    ensures var s := RunEvents(Start(), events);
            CanLose(s) <==> exists t :: t in s.flights && AtRiskAt(s, t)
  {
    RunsKeepInv(events);
    CanLoseFrom(RunEvents(Start(), events));
  }

  // ---------------------------------------------------------------- which messages lead there

  /**
   A subscribe that gets past the in-use test is the only message under way with its id, and the
   connection is closed only when no subscribe is under way. Closes may overlap.
   */
  ghost predicate Orderly(s: Connection, event: Event) {
    && (event.Subscribe? && event.id !in s.subscriptions
        ==> !s.closed && forall t :: t in s.flights ==> s.flights[t].id != event.id)
    && (event.CloseConnection? ==> OnlyClosing(s))
  }

  ghost predicate OrderlyRun(events: seq<Event>) {
    forall i :: 0 <= i < |events| ==> Orderly(RunEvents(Start(), events[..i]), events[i])
  }

  lemma SubscribeRisksIff(s: Connection, id: Id)
    requires Inv(s) && !AtRisk(s) && id !in s.subscriptions
    ensures AtRisk(After(s, Subscribe(id))) <==> !Orderly(s, Subscribe(id))
  {
    var next := After(s, Subscribe(id));
    assert next.flights[s.tickets] == Opening(id) && s.tickets !in s.flights;
    if Orderly(s, Subscribe(id)) {
      forall t | t in next.flights ensures !AtRiskAt(next, t) {
        if t != s.tickets {
          assert t in s.flights && !AtRiskAt(s, t) && next.flights[t] == s.flights[t];
        }
      }
    } else if u :| u in s.flights && s.flights[u].id == id {
      assert next.flights[u].id == id && AtRiskAt(next, s.tickets);
    } else {
      assert AtRiskAt(next, s.tickets);
    }
  }

  lemma UnsubscribeKeepsSafe(s: Connection, id: Id)
    requires Inv(s) && !AtRisk(s) && id in s.subscriptions
    ensures !AtRisk(After(s, Unsubscribe(id)))
  {
    var next := After(s, Unsubscribe(id));
    assert s.tickets !in s.flights;
    forall t | t in next.flights ensures !AtRiskAt(next, t) {
      if t != s.tickets {
        assert t in s.flights && !AtRiskAt(s, t) && next.flights[t] == s.flights[t];
      }
    }
  }

  lemma CloseRisksIff(s: Connection)
    requires Inv(s) && !AtRisk(s)
    ensures AtRisk(After(s, CloseConnection)) <==> !Orderly(s, CloseConnection)
  {
    var next := After(s, CloseConnection);
    if t :| t in s.flights && !s.flights[t].Closing? {
      assert AtRiskAt(next, t);
    } else {
      forall t | t in next.flights ensures !AtRiskAt(next, t) {
        assert t in s.flights;
      }
    }
  }

  lemma StepRisksIff(s: Connection, event: Event)
    requires Inv(s) && !AtRisk(s)
    ensures AtRisk(After(s, event)) <==> !Orderly(s, event)
  {
    match event
    case Subscribe(id) => if id !in s.subscriptions { SubscribeRisksIff(s, id); }
    case Unsubscribe(id) => if id in s.subscriptions { UnsubscribeKeepsSafe(s, id); }
    case CloseConnection => CloseRisksIff(s);
    case _ => QuietKeepsSafe(s, event);
  }

  lemma StepLosesNothing(s: Connection, event: Event)
    requires Inv(s) && !AtRisk(s) && Orderly(s, event) && forall h :: !Lost(s, h)
    ensures forall h :: !Lost(After(s, event), h)
  {
    if Quiet(event) {
      QuietKeepsSafe(s, event);
    } else {
      var next := After(s, event);
      forall h ensures !Lost(next, h) {
        assert !Lost(s, h) && (InMap(next, h) ==> InMap(s, h));
      }
    }
  }

  ghost predicate NeverAtRisk(events: seq<Event>) {
    !AtRisk(RunEvents(Start(), events)) && (events != [] ==> NeverAtRisk(events[..|events| - 1]))
  }

  lemma {:induction false} NeverAtRiskAt(events: seq<Event>, i: nat)
    requires NeverAtRisk(events) && i <= |events|
    ensures !AtRisk(RunEvents(Start(), events[..i]))
    decreases |events|
  {
    if i == |events| {
      assert events[..i] == events;
    } else {
      NeverAtRiskAt(events[..|events| - 1], i);
      assert events[..|events| - 1][..i] == events[..i];
    }
  }

  lemma {:induction false} SomewhereAtRisk(events: seq<Event>) returns (i: nat)
    requires !NeverAtRisk(events)
    ensures i <= |events| && AtRisk(RunEvents(Start(), events[..i]))
  {
    if AtRisk(RunEvents(Start(), events)) {
      i := |events|;
      assert events[..i] == events;
    } else {
      i := SomewhereAtRisk(events[..|events| - 1]);
      assert events[..|events| - 1][..i] == events[..i];
    }
  }

  lemma OrderlyUpToLast(events: seq<Event>)
    requires events != []
    ensures var n := |events| - 1;
            OrderlyRun(events) <==> OrderlyRun(events[..n]) && Orderly(RunEvents(Start(), events[..n]), events[n])
  {
    var n := |events| - 1;
    assert forall i :: 0 <= i < n ==> events[..n][..i] == events[..i] && events[..n][i] == events[i];
    if OrderlyRun(events[..n]) && Orderly(RunEvents(Start(), events[..n]), events[n]) {
      forall i | 0 <= i < |events| ensures Orderly(RunEvents(Start(), events[..i]), events[i]) {
        assert i < n ==> Orderly(RunEvents(Start(), events[..n][..i]), events[..n][i]);
      }
    }
  }

  lemma {:induction false} OrderlyIffNeverAtRisk(events: seq<Event>)
    ensures OrderlyRun(events) <==> NeverAtRisk(events)
    ensures OrderlyRun(events) ==> forall h :: !Lost(RunEvents(Start(), events), h)
  {
    if events != [] {
      var n := |events| - 1;
      OrderlyIffNeverAtRisk(events[..n]);
      OrderlyUpToLast(events);
      RunsKeepInv(events[..n]);
      if OrderlyRun(events[..n]) {
        StepRisksIff(RunEvents(Start(), events[..n]), events[n]);
        if OrderlyRun(events) {
          StepLosesNothing(RunEvents(Start(), events[..n]), events[n]);
        }
      }
    }
  }

  /**
   A run is orderly if and only if at no point of it can what is under way lose a handle. The
   condition is on messages alone: a client meets it by waiting for the answers to earlier
   messages with an id before it subscribes under that id, and for all subscribe answers before
   the connection is closed.
   */
  lemma OrderlyIffNothingCanBeLost(events: seq<Event>)
    ensures OrderlyRun(events) <==> forall i :: 0 <= i <= |events| ==> !CanLose(RunEvents(Start(), events[..i]))
  {
    OrderlyIffNeverAtRisk(events);
    forall i | 0 <= i <= |events|
      ensures CanLose(RunEvents(Start(), events[..i])) <==> AtRisk(RunEvents(Start(), events[..i]))
      ensures NeverAtRisk(events) ==> !AtRisk(RunEvents(Start(), events[..i]))
    {
      CanLoseIff(events[..i]);
      if NeverAtRisk(events) {
        NeverAtRiskAt(events, i);
      }
    }
    if !NeverAtRisk(events) {
      var i := SomewhereAtRisk(events);
      assert CanLose(RunEvents(Start(), events[..i]));
    }
  }

  /** In orderly runs a handle not asked to close is in flight, or in the map of an open connection. */
  lemma OrderlyRunsDropNothing(events: seq<Event>, handle: nat)
    requires OrderlyRun(events)
    requires var s := RunEvents(Start(), events); handle < s.handles && handle !in s.asked
    ensures var s := RunEvents(Start(), events);
            InFlight(s, handle) || (InMap(s, handle) && !s.closed)
  {
    OrderlyIffNeverAtRisk(events);
    RunsKeepInv(events);
    assert Located(RunEvents(Start(), events), handle) && !Lost(RunEvents(Start(), events), handle);
  }
}
