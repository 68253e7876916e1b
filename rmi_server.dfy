/**
 * The remote-callback server: an ordered list of subscriber callbacks, and a
 * fan-out that hands every regular payload to each subscription in turn. A
 * callback that fails (its remote call throws) is reported and skipped; the
 * remaining subscribers are still called.
 */
module Rmi {
  import opened GeneralUtils
  import opened Seqs

  /** A remote callback reference; two references to the same remote object are equal. */
  datatype Subscriber = Subscriber(ref: nat)

  /** One successful callback: `to` received `payload`. */
  datatype Delivery = Delivery(to: Subscriber, payload: seq<Byte>)

  /**
   * The subscriptions whose callback succeeds, in list order; a subscriber
   * listed twice is reached twice.
   */
  function Reached(clients: seq<Subscriber>, unreachable: set<Subscriber>): (r: seq<Subscriber>)
    ensures |r| <= |clients|
    ensures forall k :: 0 <= k < |r| ==> r[k] in clients && r[k] !in unreachable
  {
    if |clients| == 0 then []
    else (if clients[0] in unreachable then [] else [clients[0]]) + Reached(clients[1..], unreachable)
  }

  /**
   * A reachable subscriber receives one copy per subscription, an unreachable
   * one none; so a subscriber is reached exactly when it is subscribed and
   * reachable.
   */
  lemma {:induction false} ReachedOncePerSubscription(clients: seq<Subscriber>, unreachable: set<Subscriber>, x: Subscriber)
    ensures multiset(Reached(clients, unreachable))[x] == if x in unreachable then 0 else multiset(clients)[x]
    ensures x in Reached(clients, unreachable) <==> x in clients && x !in unreachable
    decreases |clients|
  {
    if |clients| > 0 {
      ReachedOncePerSubscription(clients[1..], unreachable, x);
      assert clients == [clients[0]] + clients[1..];
    }
  }

  /** Reaching the subscribers of a list extended by one. */
  lemma {:induction false} ReachedSnoc(clients: seq<Subscriber>, x: Subscriber, unreachable: set<Subscriber>)
    ensures Reached(clients + [x], unreachable) == Reached(clients, unreachable) + (if x in unreachable then [] else [x])
    decreases |clients|
  {
    if |clients| == 0 {
      assert clients + [x] == [x];
    } else {
      assert (clients + [x])[0] == clients[0] && (clients + [x])[1..] == clients[1..] + [x];
      ReachedSnoc(clients[1..], x, unreachable);
    }
  }

  class RmiServer {
    /** The subscriber callbacks, in subscription order; duplicates allowed. */
    var clients: seq<Subscriber>

    constructor ()
      ensures |clients| == 0
    {
      clients := [];
    }

    /** Appends a callback; a subscriber may be listed more than once. */
    method Subscribe(subscriber: Subscriber)
      modifies this
      ensures clients == old(clients) + [subscriber]
    {
      clients := clients + [subscriber];
    }

    /** Removes the first subscription equal to `subscriber`; unknown subscribers change nothing. */
    method Unsubscribe(subscriber: Subscriber)
      modifies this
      ensures clients == RemoveFirst(old(clients), subscriber)
    {
      clients := RemoveFirst(clients, subscriber);
    }

    /**
     * Calls every subscription in list order with `data`; the calls to the
     * callbacks in `unreachable` fail and are skipped. Returns the callbacks
     * attempted and the deliveries made.
     */
    method NotifyClients(data: seq<Byte>, unreachable: set<Subscriber>) returns (attempted: seq<Subscriber>, deliveries: seq<Delivery>)
      ensures attempted == clients
      ensures |deliveries| == |Reached(clients, unreachable)|
      ensures forall k :: 0 <= k < |deliveries| ==> deliveries[k] == Delivery(Reached(clients, unreachable)[k], data)
    {
      attempted := [];
      deliveries := [];
      for i := 0 to |clients|
        invariant attempted == clients[..i]
        invariant |deliveries| == |Reached(clients[..i], unreachable)|
        invariant forall k :: 0 <= k < |deliveries| ==> deliveries[k] == Delivery(Reached(clients[..i], unreachable)[k], data)
      {
        var client := clients[i];
        assert clients[..i + 1] == clients[..i] + [client];
        ReachedSnoc(clients[..i], client, unreachable);
        attempted := attempted + [client];
        if client !in unreachable {
          deliveries := deliveries + [Delivery(client, data)];
        }
      }
      assert clients[..|clients|] == clients;
    }

    /**
     * A payload from a peer: only a REGULAR payload is fanned out; control,
     * unknown and short payloads reach no one. The subscriber list is never
     * changed, not even by a disconnect frame.
     */
    method SendMessage(data: seq<Byte>, unreachable: set<Subscriber>) returns (attempted: seq<Subscriber>, deliveries: seq<Delivery>)
      ensures |data| < 2 || data[0] == CONTROL_CHARACTER ==> attempted == [] && |deliveries| == 0
      ensures |data| >= 2 && data[0] != CONTROL_CHARACTER ==>
        attempted == clients && |deliveries| == |Reached(clients, unreachable)|
        && forall k :: 0 <= k < |deliveries| ==> deliveries[k] == Delivery(Reached(clients, unreachable)[k], data)
    {
      attempted, deliveries := [], [];
      if CheckCommand(data) == REGULAR {
        attempted, deliveries := NotifyClients(data, unreachable);
      }
    }
  }

  /** Subscribing and then unsubscribing a new callback restores the list. */
  lemma SubscribeThenUnsubscribe(clients: seq<Subscriber>, s: Subscriber)
    requires s !in clients
    ensures RemoveFirst(clients + [s], s) == clients
  {
    assert IndexOf(clients + [s], s) == |clients| by {
      assert (clients + [s])[|clients|] == s;
      assert forall j :: 0 <= j < |clients| ==> (clients + [s])[j] == clients[j];
    }
    assert (clients + [s])[..|clients|] == clients;
  }

  /** Unsubscribing takes away one subscription of that callback and leaves every other count alone. */
  lemma UnsubscribeDropsOneSubscription(clients: seq<Subscriber>, s: Subscriber)
    ensures s in clients ==> multiset(RemoveFirst(clients, s)) == multiset(clients) - multiset{s}
    ensures s !in clients ==> RemoveFirst(clients, s) == clients
  {
    RemoveFirstMultiset(clients, s);
  }
}
