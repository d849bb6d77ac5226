/**
 Subscriptions of one connection when message handlers interleave at their awaits. A handler
 that checks, waits for the DWN and then acts may find the map changed; this module accounts for
 every subscription handle the DWN ever opened for the connection.
 */
module SubscriptionRuns {

  /** A JSON-RPC id is text, a number or null; only equality matters. */
  datatype Id = Text(text: string) | Number(number: int) | Null

  /** A handler waiting: for the DWN's reply, to be resumed with it, or for a close to finish. */
  datatype Flight = Opening(id: Id) | Opened(id: Id, handle: nat) | Closing(id: Id, handle: nat)

  /**
   Handles are numbered in the order in which the DWN opens them. `asked` are those whose close
   has been called; `duplicates` and `swept` are those whose last reference was dropped.
   */
  datatype Connection =
    Connection(subscriptions: map<Id, nat>, flights: map<nat, Flight>, tickets: nat, handles: nat,
               asked: set<nat>, duplicates: set<nat>, swept: set<nat>, closed: bool)

  datatype Event =
    | Subscribe(id: Id)        // the handler's check, up to the await on the DWN
    | DwnOpens(ticket: nat)
    | DwnDeclines(ticket: nat)
    | Register(ticket: nat)    // the handler resumed: addSubscription
    | Unsubscribe(id: Id)      // closeSubscription, up to the await on the close
    | CloseResumes(ticket: nat)
    | CloseConnection

  function Start(): Connection {
    Connection(map[], map[], 0, 0, {}, {}, {}, false)
  }

  function Fly(s: Connection, flight: Flight): Connection {
    s.(flights := s.flights[s.tickets := flight], tickets := s.tickets + 1)
  }

  function Handles(m: map<Id, nat>): set<nat> {
    set id | id in m :: m[id]
  }

  function After(s: Connection, event: Event): Connection {
    match event
    case Subscribe(id) => if id in s.subscriptions then s else Fly(s, Opening(id))
    case DwnOpens(t) =>
      if t in s.flights && s.flights[t].Opening?
      then s.(flights := s.flights[t := Opened(s.flights[t].id, s.handles)], handles := s.handles + 1) else s
    case DwnDeclines(t) =>
      if t in s.flights && s.flights[t].Opening? then s.(flights := s.flights - {t}) else s
    case Register(t) =>
      if t in s.flights && s.flights[t].Opened? then
        var rest, id, handle := s.(flights := s.flights - {t}), s.flights[t].id, s.flights[t].handle;
        if id in s.subscriptions then rest.(duplicates := s.duplicates + {handle})
        else rest.(subscriptions := s.subscriptions[id := handle])
      else s
    case Unsubscribe(id) =>
      if id in s.subscriptions
      then Fly(s, Closing(id, s.subscriptions[id])).(asked := s.asked + {s.subscriptions[id]}) else s
    case CloseResumes(t) =>
      if t in s.flights && s.flights[t].Closing? then
        var id := s.flights[t].id;
        s.(flights := s.flights - {t}, subscriptions := s.subscriptions - {id},
           swept := if id in s.subscriptions && s.subscriptions[id] !in s.asked
                    then s.swept + {s.subscriptions[id]} else s.swept)
      else s
    case CloseConnection =>
      s.(subscriptions := map[], asked := s.asked + Handles(s.subscriptions), closed := true)
  }

  function RunEvents(s: Connection, events: seq<Event>): Connection {
    if events == [] then s else After(RunEvents(s, events[..|events| - 1]), events[|events| - 1])
  }

  // ---------------------------------------------------------------- messages handled to completion

  /** A subscribe message with no other event in between: a used id is refused before the DWN hears of it. */
  lemma CompletedSubscribe(s: Connection, id: Id)
    requires s.tickets !in s.flights
    ensures var done := After(After(After(s, Subscribe(id)), DwnOpens(s.tickets)), Register(s.tickets));
            if id in s.subscriptions then done == s
            else done == s.(subscriptions := s.subscriptions[id := s.handles], handles := s.handles + 1,
                            tickets := s.tickets + 1)
  {
    if id !in s.subscriptions {
      var flights := s.flights[s.tickets := Opened(id, s.handles)];
      assert s.flights[s.tickets := Opening(id)][s.tickets := Opened(id, s.handles)] == flights;
      assert flights - {s.tickets} == s.flights;
    }
  }

  /** A subscribe message the DWN turns down leaves nothing behind. */
  lemma DeclinedSubscribe(s: Connection, id: Id)
    requires s.tickets !in s.flights
    ensures var done := After(After(s, Subscribe(id)), DwnDeclines(s.tickets));
            done == if id in s.subscriptions then s else s.(tickets := s.tickets + 1)
  {
    if id !in s.subscriptions {
      assert s.flights[s.tickets := Opening(id)] - {s.tickets} == s.flights;
    }
  }

  /** A close message with no other event in between asks the DWN once and forgets the id. */
  lemma CompletedClose(s: Connection, id: Id)
    requires s.tickets !in s.flights
    ensures var done := After(After(s, Unsubscribe(id)), CloseResumes(s.tickets));
            if id !in s.subscriptions then done == s
            else done == s.(subscriptions := s.subscriptions - {id}, asked := s.asked + {s.subscriptions[id]},
                            tickets := s.tickets + 1)
  {
    if id in s.subscriptions {
      assert s.flights[s.tickets := Closing(id, s.subscriptions[id])] - {s.tickets} == s.flights;
    }
  }

  // ---------------------------------------------------------------- where every handle is

  ghost predicate InFlight(s: Connection, handle: nat) {
    exists t :: t in s.flights && s.flights[t].Opened? && s.flights[t].handle == handle
  }

  ghost predicate InMap(s: Connection, handle: nat) {
    exists id :: id in s.subscriptions && s.subscriptions[id] == handle
  }

  /** The handle was closed or its last reference dropped. */
  predicate Settled(s: Connection, handle: nat) {
    handle in s.asked || handle in s.duplicates || handle in s.swept
  }

  ghost predicate FlightsInv(s: Connection) {
    && (forall t :: t in s.flights ==> t < s.tickets)
    && (forall t :: t in s.flights && s.flights[t].Closing? ==> s.flights[t].handle in s.asked)
    && (forall t :: t in s.flights && s.flights[t].Opened?
          ==> s.flights[t].handle < s.handles && s.flights[t].handle !in s.asked
              && s.flights[t].handle !in s.duplicates && s.flights[t].handle !in s.swept)
    && (forall t, u :: t in s.flights && u in s.flights && t != u && s.flights[t].Opened? && s.flights[u].Opened?
          ==> s.flights[t].handle != s.flights[u].handle)
    && (forall t, id :: t in s.flights && s.flights[t].Opened? && id in s.subscriptions
          ==> s.flights[t].handle != s.subscriptions[id])
  }

  ghost predicate MapInv(s: Connection) {
    && (forall id :: id in s.subscriptions
          ==> s.subscriptions[id] < s.handles && s.subscriptions[id] !in s.duplicates
              && s.subscriptions[id] !in s.swept)
    && (forall i, j :: i in s.subscriptions && j in s.subscriptions && i != j
          ==> s.subscriptions[i] != s.subscriptions[j])
    && s.duplicates !! s.swept && s.asked !! s.duplicates && s.asked !! s.swept
    && (forall h :: h in s.asked ==> h < s.handles)
    && (forall h :: h in s.duplicates ==> h < s.handles)
    && (forall h :: h in s.swept ==> h < s.handles)
  }

  ghost predicate Located(s: Connection, handle: nat) {
    Settled(s, handle) || InFlight(s, handle) || InMap(s, handle)
  }

  ghost predicate Inv(s: Connection) {
    FlightsInv(s) && MapInv(s) && forall h: nat :: h < s.handles ==> Located(s, h)
  }

  lemma FlyKeepsLocated(s: Connection, flight: Flight, handle: nat)
    requires FlightsInv(s) && Located(s, handle)
    ensures Located(Fly(s, flight), handle)
  {
    if InFlight(s, handle) {
      var t :| t in s.flights && s.flights[t].Opened? && s.flights[t].handle == handle;
      assert Fly(s, flight).flights[t] == s.flights[t];
    } else if InMap(s, handle) {
      var id :| id in s.subscriptions && s.subscriptions[id] == handle;
      assert Fly(s, flight).subscriptions[id] == handle;
    }
  }

  lemma SubscribeKeepsInv(s: Connection, id: Id)
    requires Inv(s)
    ensures Inv(After(s, Subscribe(id)))
  {
    forall h: nat | h < s.handles ensures Located(After(s, Subscribe(id)), h) {
      FlyKeepsLocated(s, Opening(id), h);
    }
  }

  lemma OpensKeepsInv(s: Connection, ticket: nat)
    requires Inv(s)
    ensures Inv(After(s, DwnOpens(ticket)))
  {
    var next := After(s, DwnOpens(ticket));
    if ticket in s.flights && s.flights[ticket].Opening? {
      forall h: nat | h < next.handles ensures Located(next, h) {
        if h == s.handles {
          assert next.flights[ticket] == Opened(s.flights[ticket].id, h);
        } else {
          assert Located(s, h);
          if InFlight(s, h) {
            var t :| t in s.flights && s.flights[t].Opened? && s.flights[t].handle == h;
            assert next.flights[t] == s.flights[t];
          } else if InMap(s, h) {
            assert InMap(next, h);
          }
        }
      }
    }
  }

  /** Landing a flight that is not `Opened` moves no handle. */
  lemma DropKeepsLocated(s: Connection, ticket: nat, handle: nat)
    requires ticket in s.flights && !s.flights[ticket].Opened? && Located(s, handle)
    ensures Located(s.(flights := s.flights - {ticket}), handle)
  {
    var next := s.(flights := s.flights - {ticket});
    if InFlight(s, handle) {
      var t :| t in s.flights && s.flights[t].Opened? && s.flights[t].handle == handle;
      assert t in next.flights && next.flights[t] == s.flights[t];
    } else if InMap(s, handle) {
      var id :| id in s.subscriptions && s.subscriptions[id] == handle;
      assert id in next.subscriptions;
    }
  }

  lemma DeclinesKeepsInv(s: Connection, ticket: nat)
    requires Inv(s)
    ensures Inv(After(s, DwnDeclines(ticket)))
  {
    if ticket in s.flights && s.flights[ticket].Opening? {
      forall h: nat | h < s.handles ensures Located(After(s, DwnDeclines(ticket)), h) {
        DropKeepsLocated(s, ticket, h);
      }
    }
  }

  lemma RegisterKeepsLocated(s: Connection, ticket: nat, handle: nat)
    requires Inv(s) && ticket in s.flights && s.flights[ticket].Opened? && Located(s, handle)
    ensures Located(After(s, Register(ticket)), handle)
  {
    var next, id := After(s, Register(ticket)), s.flights[ticket].id;
    if handle == s.flights[ticket].handle {
      assert id !in s.subscriptions ==> id in next.subscriptions && next.subscriptions[id] == handle;
    } else if InFlight(s, handle) {
      var t :| t in s.flights && s.flights[t].Opened? && s.flights[t].handle == handle;
      assert t in next.flights && next.flights[t] == s.flights[t];
    } else if InMap(s, handle) {
      var i :| i in s.subscriptions && s.subscriptions[i] == handle;
      assert i in next.subscriptions && next.subscriptions[i] == handle;
    }
  }

  lemma RegisterKeepsFlights(s: Connection, ticket: nat)
    requires Inv(s) && ticket in s.flights && s.flights[ticket].Opened?
    ensures FlightsInv(After(s, Register(ticket)))
  {
  }

  lemma RegisterKeepsMap(s: Connection, ticket: nat)
    requires Inv(s) && ticket in s.flights && s.flights[ticket].Opened?
    ensures MapInv(After(s, Register(ticket)))
  {
  }

  lemma RegisterKeepsInv(s: Connection, ticket: nat)
    requires Inv(s)
    ensures Inv(After(s, Register(ticket)))
  {
    if ticket in s.flights && s.flights[ticket].Opened? {
      RegisterKeepsFlights(s, ticket);
      RegisterKeepsMap(s, ticket);
      forall h: nat | h < s.handles ensures Located(After(s, Register(ticket)), h) {
        RegisterKeepsLocated(s, ticket, h);
      }
    }
  }

  lemma UnsubscribeKeepsInv(s: Connection, id: Id)
    requires Inv(s)
    ensures Inv(After(s, Unsubscribe(id)))
  {
    if id in s.subscriptions {
      var next := After(s, Unsubscribe(id));
      forall h: nat | h < s.handles ensures Located(next, h) {
        FlyKeepsLocated(s, Closing(id, s.subscriptions[id]), h);
        var flown := Fly(s, Closing(id, s.subscriptions[id]));
        assert next.flights == flown.flights && next.subscriptions == flown.subscriptions;
        assert InFlight(flown, h) ==> InFlight(next, h);
        assert InMap(flown, h) ==> InMap(next, h);
      }
    }
  }

  lemma CloseResumesKeepsInv(s: Connection, ticket: nat)
    requires Inv(s)
    ensures Inv(After(s, CloseResumes(ticket)))
  {
    var next := After(s, CloseResumes(ticket));
    if ticket in s.flights && s.flights[ticket].Closing? {
      var id := s.flights[ticket].id;
      forall h: nat | h < s.handles ensures Located(next, h) {
        DropKeepsLocated(s, ticket, h);
        if InFlight(s, h) {
          var t :| t in s.flights && s.flights[t].Opened? && s.flights[t].handle == h;
          assert t in next.flights && next.flights[t] == s.flights[t];
        } else if InMap(s, h) && !Settled(s, h) {
          var i :| i in s.subscriptions && s.subscriptions[i] == h;
          assert i != id ==> i in next.subscriptions && next.subscriptions[i] == h;
        }
      }
    }
  }

  lemma CloseConnectionKeepsInv(s: Connection)
    requires Inv(s)
    ensures Inv(After(s, CloseConnection))
  {
    var next := After(s, CloseConnection);
    forall h: nat | h < s.handles ensures Located(next, h) {
      assert Located(s, h);
      if InFlight(s, h) {
        assert InFlight(next, h);
      } else if InMap(s, h) {
        assert h in Handles(s.subscriptions);
      }
    }
  }

  lemma StepKeepsInv(s: Connection, event: Event)
    requires Inv(s)
    ensures Inv(After(s, event))
  {
    match event
    case Subscribe(id) => SubscribeKeepsInv(s, id);
    case DwnOpens(t) => OpensKeepsInv(s, t);
    case DwnDeclines(t) => DeclinesKeepsInv(s, t);
    case Register(t) => RegisterKeepsInv(s, t);
    case Unsubscribe(id) => UnsubscribeKeepsInv(s, id);
    case CloseResumes(t) => CloseResumesKeepsInv(s, t);
    case CloseConnection => CloseConnectionKeepsInv(s);
  }

  lemma {:induction false} RunsKeepInv(events: seq<Event>)
    ensures Inv(RunEvents(Start(), events))
  {
    if events != [] {
      RunsKeepInv(events[..|events| - 1]);
      StepKeepsInv(RunEvents(Start(), events[..|events| - 1]), events[|events| - 1]);
    }
  }

  /**
   Conservation under every interleaving: a handle the DWN opened and nobody asked to close is
   in exactly one of four places: in flight, in the map, dropped by a rejected duplicate add, or
   swept away by a delete that resumed after its id had been registered again.
   */
  lemma HandlesAreAccountedFor(events: seq<Event>, handle: nat)
    requires var s := RunEvents(Start(), events); handle < s.handles && handle !in s.asked
    ensures var s := RunEvents(Start(), events);
            && (InFlight(s, handle) || InMap(s, handle) || handle in s.duplicates || handle in s.swept)
            && !(InFlight(s, handle) && InMap(s, handle))
            && !(InFlight(s, handle) && handle in s.duplicates + s.swept)
            && !(InMap(s, handle) && handle in s.duplicates + s.swept)
            && !(handle in s.duplicates && handle in s.swept)
  {
    RunsKeepInv(events);
    assert Located(RunEvents(Start(), events), handle);
  }

  /**
   At the instant of closing nothing is left open exactly when no opened handle was in flight and
   none had been dropped.
   */
  lemma NothingOpenAtCloseIff(events: seq<Event>)
    ensures var s := RunEvents(Start(), events);
            var closed := After(s, CloseConnection);
            (forall h: nat :: h < closed.handles ==> h in closed.asked) <==>
              (forall t :: t in s.flights ==> !s.flights[t].Opened?) && s.duplicates == {} && s.swept == {}
  {
    var s := RunEvents(Start(), events);
    RunsKeepInv(events);
    StepKeepsInv(s, CloseConnection);
    var closed := After(s, CloseConnection);
    assert closed.flights == s.flights && closed.duplicates == s.duplicates && closed.swept == s.swept;
    if forall h: nat :: h < closed.handles ==> h in closed.asked {
      assert forall t :: t in s.flights && s.flights[t].Opened? ==> !Settled(closed, s.flights[t].handle);
      assert forall h :: h in s.duplicates || h in s.swept ==> Settled(closed, h) && h !in closed.asked;
    } else {
      var h: nat :| h < closed.handles && h !in closed.asked;
      assert Located(closed, h);
    }
  }

  // ---------------------------------------------------------------- how handles are lost

  /** A subscription opened while the connection closes is registered on the closed connection and never closed. */
  lemma RegisteredAfterClose(s: Connection, ticket: nat)
    requires Inv(s) && ticket in s.flights && s.flights[ticket].Opened?
    ensures var late := After(After(s, CloseConnection), Register(ticket));
            late.closed && InMap(late, s.flights[ticket].handle) && s.flights[ticket].handle !in late.asked
  {
    StepKeepsInv(s, CloseConnection);
    var closed := After(s, CloseConnection);
    var late := After(closed, Register(ticket));
    assert late.subscriptions[s.flights[ticket].id] == s.flights[ticket].handle;
    assert !Settled(closed, closed.flights[ticket].handle);
  }

  /** Two subscribe requests with one id, both past the check: the second handle to register is dropped open. */
  lemma DuplicateIsDropped(s: Connection, t: nat, u: nat)
    requires Inv(s) && t in s.flights && u in s.flights && t != u
    requires s.flights[t].Opened? && s.flights[u].Opened? && s.flights[t].id == s.flights[u].id
    ensures var late := After(After(s, Register(t)), Register(u));
            s.flights[u].handle in late.duplicates && s.flights[u].handle !in late.asked
  {
  }

  /**
   Two closes of one id in flight, and a new subscription between their ends: the second delete
   sweeps it away, open.
   */
  lemma ReRegisteredIsSwept(s: Connection, t: nat, u: nat, v: nat)
    requires Inv(s) && t in s.flights && u in s.flights && v in s.flights && t != u
    requires s.flights[t].Closing? && s.flights[u].Closing? && s.flights[v].Opened?
    requires s.flights[t].id == s.flights[u].id == s.flights[v].id
    ensures var late := After(After(After(s, CloseResumes(t)), Register(v)), CloseResumes(u));
            s.flights[v].handle in late.swept && s.flights[v].handle !in late.asked
  {
    var a := After(s, CloseResumes(t));
    var b := After(a, Register(v));
    assert b.subscriptions[s.flights[v].id] == s.flights[v].handle;
    assert !Settled(s, s.flights[v].handle);
  }

  lemma RunSnoc(s: Connection, events: seq<Event>, event: Event)
    ensures RunEvents(s, events + [event]) == After(RunEvents(s, events), event)
  {
    assert (events + [event])[..|events + [event]| - 1] == events;
  }

  /** From the start: a subscription that the DWN opens while the connection closes. */
  lemma LateRegistrationIsReachable(id: Id)
    ensures RunEvents(Start(), [] + [Subscribe(id)] + [DwnOpens(0)] + [CloseConnection] + [Register(0)])
         == Connection(map[id := 0], map[], 1, 1, {}, {}, {}, true)
  {
    var e: seq<Event> := [];
    RunSnoc(Start(), e, Subscribe(id));
    e := e + [Subscribe(id)];
    RunSnoc(Start(), e, DwnOpens(0));
    e := e + [DwnOpens(0)];
    RunSnoc(Start(), e, CloseConnection);
    assert RunEvents(Start(), e + [CloseConnection])
        == Connection(map[], map[0 := Opened(id, 0)], 1, 1, {}, {}, {}, true);
    RunSnoc(Start(), e + [CloseConnection], Register(0));
  }

  function SubscribedTwice(id: Id): seq<Event> {
    [] + [Subscribe(id)] + [Subscribe(id)] + [DwnOpens(0)] + [DwnOpens(1)]
  }

  /** From the start: two subscribes with one id, both let through. */
  lemma DuplicateIsReachable(id: Id)
    ensures RunEvents(Start(), SubscribedTwice(id) + [Register(0)] + [Register(1)])
         == Connection(map[id := 0], map[], 2, 2, {}, {1}, {}, false)
  {
    var e: seq<Event> := [];
    RunSnoc(Start(), e, Subscribe(id));
    e := e + [Subscribe(id)];
    RunSnoc(Start(), e, Subscribe(id));
    e := e + [Subscribe(id)];
    assert RunEvents(Start(), e) == Connection(map[], map[0 := Opening(id), 1 := Opening(id)], 2, 0, {}, {}, {}, false);
    RunSnoc(Start(), e, DwnOpens(0));
    RunSnoc(Start(), e + [DwnOpens(0)], DwnOpens(1));
    assert RunEvents(Start(), SubscribedTwice(id))
        == Connection(map[], map[0 := Opened(id, 0), 1 := Opened(id, 1)], 2, 2, {}, {}, {}, false);
    RunSnoc(Start(), SubscribedTwice(id), Register(0));
    RunSnoc(Start(), SubscribedTwice(id) + [Register(0)], Register(1));
  }

  /** One subscription, closed twice before the first close has finished. */
  function ClosedTwice(id: Id): seq<Event> {
    [] + [Subscribe(id)] + [DwnOpens(0)] + [Register(0)] + [Unsubscribe(id)] + [Unsubscribe(id)]
  }

  lemma AfterClosedTwice(id: Id)
    ensures RunEvents(Start(), ClosedTwice(id))
         == Connection(map[id := 0], map[1 := Closing(id, 0), 2 := Closing(id, 0)], 3, 1, {0}, {}, {}, false)
  {
    var e: seq<Event> := [];
    RunSnoc(Start(), e, Subscribe(id));
    e := e + [Subscribe(id)];
    RunSnoc(Start(), e, DwnOpens(0));
    e := e + [DwnOpens(0)];
    RunSnoc(Start(), e, Register(0));
    e := e + [Register(0)];
    assert RunEvents(Start(), e) == Connection(map[id := 0], map[], 1, 1, {}, {}, {}, false);
    RunSnoc(Start(), e, Unsubscribe(id));
    RunSnoc(Start(), e + [Unsubscribe(id)], Unsubscribe(id));
  }

  function SubscribedAgain(id: Id): seq<Event> {
    ClosedTwice(id) + [CloseResumes(1)] + [Subscribe(id)] + [DwnOpens(3)] + [Register(3)]
  }

  lemma AfterSubscribedAgain(id: Id)
    ensures RunEvents(Start(), SubscribedAgain(id))
         == Connection(map[id := 1], map[2 := Closing(id, 0)], 4, 2, {0}, {}, {}, false)
  {
    AfterClosedTwice(id);
    var e := ClosedTwice(id);
    RunSnoc(Start(), e, CloseResumes(1));
    e := e + [CloseResumes(1)];
    assert RunEvents(Start(), e) == Connection(map[], map[2 := Closing(id, 0)], 3, 1, {0}, {}, {}, false);
    RunSnoc(Start(), e, Subscribe(id));
    e := e + [Subscribe(id)];
    RunSnoc(Start(), e, DwnOpens(3));
    RunSnoc(Start(), e + [DwnOpens(3)], Register(3));
  }

  /**
   Such states are reached from the start: close, close again, subscribe again, and let the second
   close finish last.
   */
  lemma SweepIsReachable(id: Id)
    ensures RunEvents(Start(), SubscribedAgain(id) + [CloseResumes(2)])
         == Connection(map[], map[], 4, 2, {0}, {}, {1}, false)
  {
    AfterSubscribedAgain(id);
    RunSnoc(Start(), SubscribedAgain(id), CloseResumes(2));
  }
}
