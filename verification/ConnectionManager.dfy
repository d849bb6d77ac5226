/** All WebSocket connections of the server, by socket. */
module ConnectionManager {
  import opened Wrappers
  import opened JsMap
  import opened SubscriptionRuns
  import opened SocketConnection

  /** What comes in on a connection: a message for the DWN, a message that closes a subscription, or a beat. */
  datatype Input =
    | ProcessMessage(message: Message, subscriptionRequest: Option<Id>, reply: Reply)
    | CloseMessage(subscription: Option<Id>)
    | PongFrame
    | HeartbeatTimer

  class InMemoryConnectionManager {
    const dwn: Dwn
    var connections: seq<Entry<nat, SocketConnection>>

    /** The connections are distinct objects on one DWN, and no handle was opened through two of them. */
    ghost predicate Valid()
      reads this, dwn, set i | 0 <= i < |connections| :: connections[i].value
    {
      && dwn.Valid() && UniqueKeys(connections)
      && (forall i :: 0 <= i < |connections| ==> connections[i].value.dwn == dwn && connections[i].value.Valid())
      && (forall i, j :: 0 <= i < j < |connections| ==>
            connections[i].value != connections[j].value
            && connections[i].value.everOpened !! connections[j].value.everOpened)
    }

    constructor (dwn: Dwn)
      requires dwn.Valid()
      ensures Valid() && this.dwn == dwn && connections == []
    {
      this.dwn, connections := dwn, [];
    }

    method Connect(socket: nat)
      requires Valid() && !Has(connections, socket)
      modifies this`connections
      ensures Valid() && |connections| == |old(connections)| + 1
      ensures old(connections) == connections[..|old(connections)|] && connections[|old(connections)|].key == socket
      ensures fresh(connections[|old(connections)|].value) && connections[|old(connections)|].value.everOpened == {}
    {
      var connection := new SocketConnection(dwn);
      SetNew(connections, socket, connection);
      connections := Set(connections, socket, connection);
    }

    /** Whatever comes in on one connection and is handled to completion, the others keep what is theirs. */
    method Perform(n: nat, input: Input)
      requires Valid() && n < |connections|
      requires input.ProcessMessage? && input.reply.Replies? && input.reply.subscribes ==> input.message.isSubscribe
      modifies connections[n].value, dwn
      ensures Valid() && connections == old(connections)
      ensures forall h :: (h in dwn.open) != (h in old(dwn.open)) ==> h in connections[n].value.everOpened
      ensures input.ProcessMessage? || input.CloseMessage? ==>
                connections[n].value.isAlive == old(connections[n].value.isAlive)
                && connections[n].value.closed == old(connections[n].value.closed)
      ensures input.PongFrame? ==>
                connections[n].value.isAlive && connections[n].value.closed == old(connections[n].value.closed)
      ensures input.HeartbeatTimer? ==>
                !connections[n].value.isAlive
                && connections[n].value.closed
                   == (old(connections[n].value.closed) || !old(connections[n].value.isAlive))
      ensures var swept := input.HeartbeatTimer? && !old(connections[n].value.isAlive);
              (swept ==> connections[n].value.subscriptions == []
                         && dwn.open == old(dwn.open) - connections[n].value.everOpened)
              && (!swept && (input.PongFrame? || input.HeartbeatTimer?)
                  ==> connections[n].value.subscriptions == old(connections[n].value.subscriptions)
                      && dwn.open == old(dwn.open))
      ensures input.CloseMessage? && input.subscription.Some? ==>
                !Has(connections[n].value.subscriptions, input.subscription.value)
    {
      var connection := connections[n].value;
      match input {
        case ProcessMessage(message, subscriptionRequest, reply) =>
          var response := HandleDwnProcessMessage(Ws, message, subscriptionRequest, connection, reply);
        case CloseMessage(subscription) =>
          var response := HandleSubscriptionsClose(connection, subscription);
          if response == Success {
            RegisteredHandle(old(connection.subscriptions), subscription.value);
          }
        case PongFrame => connection.Pong();
        case HeartbeatTimer => connection.HeartbeatTick();
      }
      OthersStayValid(n);
    }

    /** The change of one connection, and of the DWN through it, as the others see it. */
    twostate lemma OthersStayValid(n: nat)
      requires old(Valid()) && connections == old(connections) && n < |connections|
      requires dwn.Valid() && connections[n].value.Valid()
      requires forall i :: 0 <= i < |connections| && i != n ==> unchanged(connections[i].value)
      requires old(dwn.issued) <= dwn.issued
      requires forall h :: h in connections[n].value.everOpened
                 ==> h in old(connections[n].value.everOpened) || h >= old(dwn.issued)
      requires forall h :: h in dwn.open && h !in old(dwn.open) ==> h >= old(dwn.issued)
      requires forall h :: h in old(dwn.open) && h !in dwn.open ==> h in old(connections[n].value.everOpened)
      ensures Valid()
    {
      forall i | 0 <= i < |connections| && i != n
        ensures connections[i].value.Valid() && connections[i].value.everOpened !! connections[n].value.everOpened
      {
        var other := connections[i].value;
        assert old(other.Valid()) && other.everOpened !! old(connections[n].value.everOpened);
        assert other.everOpened * dwn.open == other.everOpened * old(dwn.open);
      }
    }

    /** The entries but one, in their order, make a valid map again. */
    lemma RestIsValid(n: nat, rest: seq<Entry<nat, SocketConnection>>)
      requires Valid() && n < |connections| && rest == connections[..n] + connections[n + 1..]
      ensures UniqueKeys(rest)
      ensures forall i :: 0 <= i < |rest| ==> rest[i].value.dwn == dwn && rest[i].value.Valid()
      ensures forall i, j :: 0 <= i < j < |rest| ==>
                rest[i].value != rest[j].value && rest[i].value.everOpened !! rest[j].value.everOpened
    {
      assert forall i :: 0 <= i < |rest| ==> rest[i] == connections[if i < n then i else i + 1];
    }

    /** The socket closes: its connection is closed, and its callback removes it from the map. */
    method Disconnect(n: nat)
      requires Valid() && n < |connections|
      modifies this`connections, connections[n].value, dwn`open
      ensures Valid() && connections == old(connections)[..n] + old(connections)[n + 1..]
      ensures dwn.open == old(dwn.open) - old(connections)[n].value.everOpened
    {
      CloseOne(n, connections[n].value);
      DeleteAt(connections, n);
      RestIsValid(n, Delete(connections, connections[n].key));
      connections := Delete(connections, connections[n].key);
    }

    /**
     Every connection is closed: no handle opened through any of them stays open, and all others stay
     as they were.
     */
    method CloseAll()
      requires Valid()
      modifies this`connections, dwn`open, set i | 0 <= i < |connections| :: connections[i].value
      ensures connections == [] && dwn.open <= old(dwn.open)
      ensures forall i :: 0 <= i < |old(connections)| ==>
                old(connections)[i].value.closed && old(connections)[i].value.subscriptions == []
                && old(connections)[i].value.everOpened !! dwn.open
      ensures forall h :: h in old(dwn.open) && h !in dwn.open ==>
                exists i :: 0 <= i < |old(connections)| && h in old(connections)[i].value.everOpened
    {
      var all := connections;
      var n := 0;
      while n < |all|
        invariant 0 <= n <= |all| && connections == all && Valid() && dwn.open <= old(dwn.open)
        invariant forall i :: 0 <= i < n ==>
          all[i].value.closed && all[i].value.subscriptions == [] && all[i].value.everOpened !! dwn.open
        invariant forall h :: h in old(dwn.open) && h !in dwn.open ==>
          exists i :: 0 <= i < n && h in all[i].value.everOpened
      {
        CloseOne(n, connections[n].value);
        n := n + 1;
      }
      RunCloseCallbacks(all);
    }

    /** Each closed connection's callback removes its socket from the map. */
    method RunCloseCallbacks(all: seq<Entry<nat, SocketConnection>>)
      requires connections == all && UniqueKeys(all)
      modifies this`connections
      ensures connections == []
    {
      var n := 0;
      while n < |all|
        invariant 0 <= n <= |all| && connections == all[n..]
      {
        connections := Delete(connections, all[n].key);
        n := n + 1;
      }
    }

    method CloseOne(n: nat, connection: SocketConnection)
      requires Valid() && n < |connections| && connections[n].value == connection
      modifies connection`subscriptions, connection`closed, dwn`open
      ensures Valid() && connection.closed && connection.subscriptions == []
      ensures dwn.open == old(dwn.open) - connection.everOpened
    {
      connection.Close();
      forall i | 0 <= i < |connections| && i != n ensures connections[i].value.Valid() {
        var other := connections[i].value;
        assert other != connection && other.everOpened !! connection.everOpened;
        assert old(other.Valid());
        assert other.everOpened * dwn.open == other.everOpened * old(dwn.open);
      }
    }
  }
}
