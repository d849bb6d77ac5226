/**
 A WebSocket connection handling one message to completion before the next: its subscription
 map, the two JSON-RPC handlers that change it, its heartbeat, and the manager of all
 connections.
 */
module SocketConnection {
  import opened Wrappers
  import opened JsMap
  import opened SubscriptionRuns

  const INVALID_REQUEST := -32600
  const INVALID_PARAMS := -32602
  const INTERNAL_ERROR := -32603

  datatype ConnectionError = SubscriptionIdExists | SubscriptionIdNotFound

  datatype Transport = Http | Ws

  /** What the handlers look at in a message: its interface, its method. */
  datatype Message = Message(isRecordsWrite: bool, isSubscribe: bool)

  datatype Response = Success | Error(code: int)

  /** The DWN's answer to a message: an exception, or a reply that comes with a subscription or not. */
  datatype Reply = Throws | Replies(subscribes: bool)

  /** The DWN as far as subscriptions go: the handles that are open, out of those ever issued. */
  class Dwn {
    var open: set<nat>
    var issued: nat

    ghost predicate Valid()
      reads this
    {
      forall h :: h in open ==> h < issued
    }

    constructor ()
      ensures Valid() && open == {} && issued == 0
    {
      open, issued := {}, 0;
    }

    method OpenSubscription() returns (handle: nat)
      requires Valid()
      modifies this
      ensures Valid() && handle == old(issued) && issued == old(issued) + 1 && open == old(open) + {handle}
    {
      handle := issued;
      open, issued := open + {handle}, issued + 1;
    }

    method CloseSubscription(handle: nat)
      requires Valid()
      modifies this`open
      ensures Valid() && open == old(open) - {handle}
    {
      open := open - {handle};
    }
  }

  function HandlesIn(subscriptions: seq<Entry<Id, nat>>): set<nat> {
    set i | 0 <= i < |subscriptions| :: subscriptions[i].value
  }

  ghost predicate UniqueHandles(subscriptions: seq<Entry<Id, nat>>) {
    forall i, j :: 0 <= i < j < |subscriptions| ==> subscriptions[i].value != subscriptions[j].value
  }

  lemma SpliceHandles(subscriptions: seq<Entry<Id, nat>>, i: nat)
    requires UniqueHandles(subscriptions) && i < |subscriptions|
    ensures var rest := subscriptions[..i] + subscriptions[i + 1..];
            HandlesIn(rest) == HandlesIn(subscriptions) - {subscriptions[i].value}
  {
    var rest := subscriptions[..i] + subscriptions[i + 1..];
    forall h | h in HandlesIn(subscriptions) && h != subscriptions[i].value ensures h in HandlesIn(rest) {
      var j :| 0 <= j < |subscriptions| && subscriptions[j].value == h;
      assert rest[if j < i then j else j - 1].value == h;
    }
    forall h | h in HandlesIn(rest) ensures h in HandlesIn(subscriptions) && h != subscriptions[i].value {
      var j :| 0 <= j < |rest| && rest[j].value == h;
      assert subscriptions[if j < i then j else j + 1].value == h;
    }
  }

  lemma WithoutEntry(subscriptions: seq<Entry<Id, nat>>, i: nat)
    requires UniqueKeys(subscriptions) && UniqueHandles(subscriptions) && i < |subscriptions|
    ensures var rest := Delete(subscriptions, subscriptions[i].key);
            UniqueKeys(rest) && UniqueHandles(rest) && |rest| == |subscriptions| - 1
            && HandlesIn(rest) == HandlesIn(subscriptions) - {subscriptions[i].value}
            && !Has(rest, subscriptions[i].key)
  {
    DeleteAt(subscriptions, i);
    SpliceHandles(subscriptions, i);
  }

  lemma WithEntry(subscriptions: seq<Entry<Id, nat>>, id: Id, handle: nat)
    requires UniqueKeys(subscriptions) && UniqueHandles(subscriptions)
    requires !Has(subscriptions, id) && handle !in HandlesIn(subscriptions)
    ensures var more := Set(subscriptions, id, handle);
            UniqueKeys(more) && UniqueHandles(more) && HandlesIn(more) == HandlesIn(subscriptions) + {handle}
  {
    SetNew(subscriptions, id, handle);
    var more := subscriptions + [Entry(id, handle)];
    assert more[|subscriptions|].value == handle;
    forall h | h in HandlesIn(subscriptions) ensures h in HandlesIn(more) {
      var j :| 0 <= j < |subscriptions| && subscriptions[j].value == h;
      assert more[j].value == h;
    }
  }

  class SocketConnection {
    const dwn: Dwn
    var subscriptions: seq<Entry<Id, nat>>
    var isAlive: bool
    var closed: bool
    /** Every handle the DWN ever opened through this connection. */
    var everOpened: set<nat>

    /** Conservation: the map holds exactly the handles opened through this connection that are still open. */
    ghost predicate Valid()
      reads this, dwn
    {
      && dwn.Valid() && UniqueKeys(subscriptions) && UniqueHandles(subscriptions)
      && (forall h :: h in everOpened ==> h < dwn.issued)
      && HandlesIn(subscriptions) == everOpened * dwn.open
    }

    constructor (dwn: Dwn)
      requires dwn.Valid()
      ensures Valid() && this.dwn == dwn && subscriptions == [] && everOpened == {} && isAlive && !closed
    {
      this.dwn := dwn;
      subscriptions, everOpened, isAlive, closed := [], {}, true, false;
    }

    function HasSubscription(id: Id): bool
      reads this
    {
      Has(subscriptions, id)
    }

    method AddSubscription(id: Id, handle: nat) returns (r: Result<(), ConnectionError>)
      modifies this`subscriptions
      ensures r.Err? <==> Has(old(subscriptions), id)
      ensures subscriptions == if r.Err? then old(subscriptions) else Set(old(subscriptions), id, handle)
    {
      if Has(subscriptions, id) {
        return Err(SubscriptionIdExists);
      }
      subscriptions := Set(subscriptions, id, handle);
      return Ok(());
    }

    method CloseSubscription(id: Id) returns (r: Result<(), ConnectionError>)
      requires Valid()
      modifies this`subscriptions, dwn`open
      ensures Valid() && (r.Ok? <==> Has(old(subscriptions), id)) && (r.Err? ==> r.error == SubscriptionIdNotFound)
      ensures r.Err? ==> subscriptions == old(subscriptions) && dwn.open == old(dwn.open)
      ensures r.Ok? ==> !Has(subscriptions, id) && subscriptions == Delete(old(subscriptions), id)
                        && Get(old(subscriptions), id).Some?
                        && dwn.open == old(dwn.open) - {Get(old(subscriptions), id).value}
    {
      if !Has(subscriptions, id) {
        return Err(SubscriptionIdNotFound);
      }
      GetSomeIff(subscriptions, id);
      var handle := Get(subscriptions, id).value;
      ghost var i :| 0 <= i < |subscriptions| && subscriptions[i] == Entry(id, handle);
      WithoutEntry(subscriptions, i);
      dwn.CloseSubscription(handle);
      subscriptions := Delete(subscriptions, id);
      return Ok(());
    }

    /** Asks every subscription to close while walking over the map and deleting from it. */
    method Close()
      requires Valid()
      modifies this`subscriptions, this`closed, dwn`open
      ensures Valid() && subscriptions == [] && closed
      ensures dwn.open == old(dwn.open) - everOpened
    {
      ghost var wasOpen := dwn.open;
      while subscriptions != []
        invariant Valid() && dwn.open <= wasOpen && wasOpen - dwn.open <= everOpened
        decreases |subscriptions|
      {
        var entry := subscriptions[0];
        assert entry.value in HandlesIn(subscriptions);
        WithoutEntry(subscriptions, 0);
        dwn.CloseSubscription(entry.value);
        subscriptions := Delete(subscriptions, entry.key);
      }
      assert HandlesIn(subscriptions) == {};
      forall h | h in dwn.open ensures h !in everOpened {
        assert h !in everOpened * dwn.open;
      }
      assert dwn.open == wasOpen - everOpened;
      closed := true;
    }

    method Pong()
      modifies this`isAlive
      ensures isAlive
    {
      isAlive := true;
    }

    /** One tick of the heartbeat interval. */
    method HeartbeatTick()
      requires Valid()
      modifies this`isAlive, this`subscriptions, this`closed, dwn`open
      ensures Valid() && !isAlive && closed == (old(closed) || !old(isAlive))
      ensures !old(isAlive) ==> subscriptions == [] && dwn.open == old(dwn.open) - everOpened
      ensures old(isAlive) ==> subscriptions == old(subscriptions) && dwn.open == old(dwn.open)
    {
      if isAlive == false {
        Close();
      }
      isAlive := false;
    }
  }

  /**
   The subscription part of the request context: only `rpc.subscribe.` methods carrying a subscribe
   message have one.
   */
  function SubscriptionRequest(method': string, subscription: Option<Id>, message: Message): (request: Option<Id>)
    ensures request.Some? <==> |method'| >= 14 && method'[..14] == "rpc.subscribe."
                               && subscription.Some? && message.isSubscribe
    ensures request.Some? ==> request == subscription
  {
    if "rpc.subscribe." <= method' && subscription.Some? && message.isSubscribe then subscription else None
  }

  /** The messages that reach the DWN, in terms of the four early returns of the handler. */
  predicate ReachesDwn(transport: Transport, message: Message, subscriptionRequest: Option<Id>, idInUse: bool) {
    && !(transport != Http && message.isRecordsWrite)
    && !(message.isSubscribe && subscriptionRequest.None?)
    && !(transport != Ws && subscriptionRequest.Some?)
    && !(subscriptionRequest.Some? && idInUse)
  }

  /** A subscribe message gets to the DWN over a WebSocket alone, under a subscribe method, with an id not in use. */
  lemma SubscribesOnlyOverWs(transport: Transport, method': string, subscription: Option<Id>, message: Message,
                             idInUse: bool)
    requires message.isSubscribe && !message.isRecordsWrite
    ensures ReachesDwn(transport, message, SubscriptionRequest(method', subscription, message), idInUse)
       <==> transport == Ws && "rpc.subscribe." <= method' && subscription.Some? && !idInUse
  {
  }

  /** The DWN gives out a subscription only for a subscribe message; WebSocket requests come with their connection. */
  method HandleDwnProcessMessage(transport: Transport, message: Message, subscriptionRequest: Option<Id>,
                                 connection: SocketConnection?, reply: Reply)
    returns (response: Response)
    requires transport == Ws <==> connection != null
    requires connection != null ==> connection.Valid()
    requires reply.Replies? && reply.subscribes ==> message.isSubscribe
    modifies if connection == null then {} else {connection, connection.dwn}
    ensures connection != null ==> connection.Valid() && old(connection.everOpened) <= connection.everOpened
    ensures var idInUse := connection != null && subscriptionRequest.Some?
                           && Has(old(connection.subscriptions), subscriptionRequest.value);
            (response == Success <==> ReachesDwn(transport, message, subscriptionRequest, idInUse) && reply.Replies?)
            && (response == Error(INTERNAL_ERROR)
                <==> ReachesDwn(transport, message, subscriptionRequest, idInUse) && reply.Throws?)
            && response in {Success, Error(INVALID_REQUEST), Error(INVALID_PARAMS), Error(INTERNAL_ERROR)}
            && (response == Error(INVALID_REQUEST)
                <==> !(transport != Http && message.isRecordsWrite) && message.isSubscribe && subscriptionRequest.None?)
    ensures var writeOverWs := transport != Http && message.isRecordsWrite;
            var withoutContext := message.isSubscribe && subscriptionRequest.None?;
            var overHttp := transport != Ws && subscriptionRequest.Some?;
            var idInUse := connection != null && subscriptionRequest.Some?
                           && exists e <- old(connection.subscriptions) :: e.key == subscriptionRequest.value;
            var refused := writeOverWs || withoutContext || overHttp || idInUse;
            (response == Error(-32602) <==> writeOverWs || (!withoutContext && (overHttp || idInUse)))
            && (response == Error(-32600) <==> !writeOverWs && withoutContext)
            && (response == Error(-32603) <==> !refused && reply.Throws?)
            && (response == Success <==> !refused && reply.Replies?)
    ensures connection != null ==>
              if response == Success && subscriptionRequest.Some? && reply.subscribes
              then connection.subscriptions
                     == Set(old(connection.subscriptions), subscriptionRequest.value, old(connection.dwn.issued))
                   && connection.everOpened == old(connection.everOpened) + {old(connection.dwn.issued)}
                   && connection.dwn.open == old(connection.dwn.open) + {old(connection.dwn.issued)}
                   && connection.dwn.issued == old(connection.dwn.issued) + 1
              else connection.subscriptions == old(connection.subscriptions)
                   && connection.everOpened == old(connection.everOpened)
                       && connection.dwn.open == old(connection.dwn.open)
                   && connection.dwn.issued == old(connection.dwn.issued)
    ensures connection != null
            ==> connection.closed == old(connection.closed) && connection.isAlive == old(connection.isAlive)
  {
    if transport != Http && message.isRecordsWrite {
      return Error(INVALID_PARAMS);
    }
    if message.isSubscribe && subscriptionRequest.None? {
      return Error(INVALID_REQUEST);
    }
    if transport != Ws && subscriptionRequest.Some? {
      return Error(INVALID_PARAMS);
    }
    if subscriptionRequest.Some? && connection != null && connection.HasSubscription(subscriptionRequest.value) {
      return Error(INVALID_PARAMS);
    }
    if reply.Throws? {
      return Error(INTERNAL_ERROR);
    }
    if subscriptionRequest.Some? && reply.subscribes {
      var handle := connection.dwn.OpenSubscription();
      connection.everOpened := connection.everOpened + {handle};
      assert handle !in HandlesIn(connection.subscriptions);
      WithEntry(connection.subscriptions, subscriptionRequest.value, handle);
      var added := connection.AddSubscription(subscriptionRequest.value, handle);
      if added.Err? {
        return Error(INTERNAL_ERROR);
      }
    }
    return Success;
  }

  /** A registered handle was opened through the connection. */
  lemma RegisteredHandle(subscriptions: seq<Entry<Id, nat>>, id: Id)
    requires Get(subscriptions, id).Some?
    ensures Get(subscriptions, id).value in HandlesIn(subscriptions)
  {
    GetSomeIff(subscriptions, id);
    var i :| 0 <= i < |subscriptions| && subscriptions[i] == Entry(id, Get(subscriptions, id).value);
    assert subscriptions[i].value in HandlesIn(subscriptions);
  }

  method HandleSubscriptionsClose(connection: SocketConnection?, subscription: Option<Id>) returns (response: Response)
    requires connection != null ==> connection.Valid()
    modifies if connection == null then {} else {connection, connection.dwn}
    ensures connection != null ==> connection.Valid() && connection.everOpened == old(connection.everOpened)
    ensures response == Error(INVALID_REQUEST) <==> connection == null || subscription.None?
    ensures connection != null ==> connection.dwn.issued == old(connection.dwn.issued)
    ensures connection != null
            ==> connection.closed == old(connection.closed) && connection.isAlive == old(connection.isAlive)
    ensures connection != null && response != Success ==> connection.dwn.open == old(connection.dwn.open)
    ensures response == Success ==>
              Get(old(connection.subscriptions), subscription.value).Some?
              && connection.dwn.open
                 == old(connection.dwn.open) - {Get(old(connection.subscriptions), subscription.value).value}
    ensures connection != null && subscription.Some? ==>
              (response == Success <==> Has(old(connection.subscriptions), subscription.value))
              && (response == Error(INVALID_PARAMS) <==> !Has(old(connection.subscriptions), subscription.value))
              && !Has(connection.subscriptions, subscription.value)
              && connection.subscriptions == if response == Success
                  then Delete(old(connection.subscriptions), subscription.value)
                                             else old(connection.subscriptions)
  {
    if connection == null {
      return Error(INVALID_REQUEST);
    }
    if subscription.None? {
      return Error(INVALID_REQUEST);
    }
    var r := connection.CloseSubscription(subscription.value);
    if r.Ok? {
      response := Success;
    } else {
      response := if r.error == SubscriptionIdNotFound then Error(INVALID_PARAMS) else Error(INTERNAL_ERROR);
    }
  }
}
