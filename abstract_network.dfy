/**
 * The transport base shared by every substrate: consumer fan-out with
 * suppression of repeated messages, the system notice for failures, the
 * shutdown guard, restart, and the registry of transport instances.
 */
module Networks {
  import opened Wrappers
  import opened Seqs
  import opened GeneralUtils
  import opened Messages

  /** Identity of a subscribed consumer (consumers are compared by reference). */
  type ConsumerId = nat

  /** The transport kinds a registry can be asked for. */
  datatype NetworkTypes = NONE | DUMMY | SOCKET | UDP | BROADCAST | MULTICAST | RMI | REST | SOAP

  /** Kinds the registry constructs and keeps; every other kind falls back to a fresh socket transport. */
  predicate Registered(t: NetworkTypes)
  {
    t == DUMMY || t == SOCKET || t == UDP || t == BROADCAST || t == MULTICAST || t == RMI
  }

  /** A call into the substrate-specific start or stop of a transport. */
  datatype LifecycleCall = Start | Stop

  /** One delivery of a message to one consumer. */
  datatype Delivery = Delivery(consumer: ConsumerId, message: Message)

  /** Advice appended to every failure notice. */
  const RESTART_ADVICE: string := "Please restart the application"

  /**
   * The text of the notice for a failure with message `exMessage`: the message,
   * a '.' unless it already ends with one, then the restart advice.
   */
  function RestartNotice(exMessage: string): (r: string)
    ensures exMessage <= r
    ensures |r| == |exMessage| + |RESTART_ADVICE| + (if exMessage != [] && exMessage[|exMessage| - 1] == '.' then 0 else 1)
    ensures r[|r| - |RESTART_ADVICE|..] == RESTART_ADVICE
    ensures r[|r| - |RESTART_ADVICE| - 1] == '.'
  {
    exMessage + (if exMessage != [] && exMessage[|exMessage| - 1] == '.' then "" else ".") + RESTART_ADVICE
  }

  /** Text of the notice that a connection was lost. */
  const CONNECTION_LOST_TEXT: string := "Connection lost. Type connect to reestablish a connection"

  /** Text of the notice that a connection to `ip` was established. */
  function EstablishedNotice(ip: string): (r: string)
    ensures "Connection to " + ip <= r
    ensures |r| == |"Connection to "| + |ip| + |" successful established. Type disconnect to close the connection"|
  {
    "Connection to " + ip + " successful established. Type disconnect to close the connection"
  }

  /**
   * The duplicate filter of notifyNetworkConsumer: a null message is dropped,
   * and so is a message from a non-system user that equals the last one delivered.
   */
  predicate Suppressed(lastMessage: Option<Message>, message: Option<Message>)
  {
    message.None? || (Equals(message.value, lastMessage) && !IsSystem(message.value.user))
  }

  /** The last-delivered message after a notification. */
  function NextLastMessage(lastMessage: Option<Message>, message: Option<Message>): Option<Message>
  {
    if Suppressed(lastMessage, message) then lastMessage else message
  }

  /** A notice from the system user is never suppressed. */
  lemma SystemMessagesAreDelivered(lastMessage: Option<Message>, m: Message)
    requires IsSystem(m.user)
    ensures !Suppressed(lastMessage, Some(m))
    ensures NextLastMessage(lastMessage, Some(m)) == Some(m)
  {
  }

  /** Right after a delivery, a non-system message equal to it is not delivered again. */
  lemma NoImmediateRedelivery(lastMessage: Option<Message>, m: Message, again: Message)
    requires !Suppressed(lastMessage, Some(m))
    requires !IsSystem(again.user) && Equals(again, Some(m))
    ensures Suppressed(NextLastMessage(lastMessage, Some(m)), Some(again))
  {
  }

  /**
   * "hi" at 0 ms is delivered; "HI" from the same user at 5000 ms is dropped;
   * "hi" at 20000 ms is delivered again (compared with the last delivered, "hi" at 0 ms).
   */
  lemma DuplicateSuppressionScenario(u: User)
    requires !IsSystem(u)
    ensures var a, b, c := BuildMessage(u, "hi", 0), BuildMessage(u, "HI", 5000), BuildMessage(u, "hi", 20000);
      var last1 := NextLastMessage(None, Some(a));
      var last2 := NextLastMessage(last1, Some(b));
      && !Suppressed(None, Some(a)) && last1 == Some(a)
      && Suppressed(last1, Some(b)) && last2 == Some(a)
      && !Suppressed(last2, Some(c))
  {
    assert JavaText.UpperCase("hi") == "HI" == JavaText.UpperCase("HI");
  }

  /** A transport instance: the state its abstract base class keeps. */
  class Network {
    /** Which concrete transport this instance is. */
    const kind: NetworkTypes
    /** Subscribed consumers, in subscription order; duplicates allowed. */
    var networkConsumer: seq<ConsumerId>
    /** Set while a shutdown sequence runs. */
    var isShuttingDown: bool
    /** The last message delivered, used to drop repeats. */
    var lastMessage: Option<Message>

    constructor (kind: NetworkTypes)
      ensures this.kind == kind
      ensures networkConsumer == [] && !isShuttingDown && lastMessage == None
    {
      this.kind := kind;
      networkConsumer := [];
      isShuttingDown := false;
      lastMessage := None;
    }

    /** Appends a consumer; subscribing twice makes it receive every message twice. */
    method Subscribe(subscriber: ConsumerId)
      modifies this
      ensures networkConsumer == old(networkConsumer) + [subscriber]
      ensures isShuttingDown == old(isShuttingDown) && lastMessage == old(lastMessage)
    {
      networkConsumer := networkConsumer + [subscriber];
    }

    /** Removes the first occurrence of the consumer only; the others keep their order. */
    method Unsubscribe(subscriber: ConsumerId)
      modifies this
      ensures networkConsumer == RemoveFirst(old(networkConsumer), subscriber)
      ensures isShuttingDown == old(isShuttingDown) && lastMessage == old(lastMessage)
    {
      networkConsumer := RemoveFirst(networkConsumer, subscriber);
    }

    /**
     * Delivers `message` (None stands for null) to every consumer in list
     * order and records it as the last message, unless it is suppressed.
     */
    method NotifyNetworkConsumer(message: Option<Message>) returns (deliveries: seq<Delivery>)
      modifies this
      ensures networkConsumer == old(networkConsumer) && isShuttingDown == old(isShuttingDown)
      ensures lastMessage == NextLastMessage(old(lastMessage), message)
      ensures Suppressed(old(lastMessage), message) ==> deliveries == []
      ensures !Suppressed(old(lastMessage), message) ==>
        |deliveries| == |networkConsumer| &&
        forall i :: 0 <= i < |deliveries| ==> deliveries[i] == Delivery(networkConsumer[i], message.value)
    {
      deliveries := [];
      if message.None? || (Equals(message.value, lastMessage) && !IsSystem(message.value.user)) {
        return;
      }
      lastMessage := message;
      var consumers := networkConsumer;
      for i := 0 to |consumers|
        invariant |deliveries| == i
        invariant forall j :: 0 <= j < i ==> deliveries[j] == Delivery(consumers[j], message.value)
      {
        deliveries := deliveries + [Delivery(consumers[i], message.value)];
      }
    }

    /** Turns a failure into a system notice and pushes it to every consumer. */
    method ExceptionOccurred(exMessage: string, now: Long) returns (deliveries: seq<Delivery>)
      modifies this
      ensures networkConsumer == old(networkConsumer) && isShuttingDown == old(isShuttingDown)
      ensures lastMessage == Some(BuildSystemMessage(RestartNotice(exMessage), now))
      ensures |deliveries| == |networkConsumer|
      ensures forall i :: 0 <= i < |deliveries| ==>
        deliveries[i] == Delivery(networkConsumer[i], BuildSystemMessage(RestartNotice(exMessage), now))
    {
      var notice := BuildSystemMessage(RestartNotice(exMessage), now);
      SystemMessagesAreDelivered(lastMessage, notice);
      deliveries := NotifyNetworkConsumer(Some(notice));
    }

    /** Announces a connection to `ip` to every consumer as a system notice. */
    method ConnectionEstablished(ip: string, now: Long) returns (deliveries: seq<Delivery>)
      modifies this
      ensures networkConsumer == old(networkConsumer) && isShuttingDown == old(isShuttingDown)
      ensures lastMessage == Some(BuildSystemMessage(EstablishedNotice(ip), now))
      ensures |deliveries| == |networkConsumer|
      ensures forall i :: 0 <= i < |deliveries| ==>
        deliveries[i] == Delivery(networkConsumer[i], BuildSystemMessage(EstablishedNotice(ip), now))
    {
      var notice := BuildSystemMessage(EstablishedNotice(ip), now);
      SystemMessagesAreDelivered(lastMessage, notice);
      deliveries := NotifyNetworkConsumer(Some(notice));
    }

    /** Announces the loss of the connection to every consumer as a system notice. */
    method ConnectionLost(now: Long) returns (deliveries: seq<Delivery>)
      modifies this
      ensures networkConsumer == old(networkConsumer) && isShuttingDown == old(isShuttingDown)
      ensures lastMessage == Some(BuildSystemMessage(CONNECTION_LOST_TEXT, now))
      ensures |deliveries| == |networkConsumer|
      ensures forall i :: 0 <= i < |deliveries| ==>
        deliveries[i] == Delivery(networkConsumer[i], BuildSystemMessage(CONNECTION_LOST_TEXT, now))
    {
      var notice := BuildSystemMessage(CONNECTION_LOST_TEXT, now);
      SystemMessagesAreDelivered(lastMessage, notice);
      deliveries := NotifyNetworkConsumer(Some(notice));
    }

    /**
     * The shutdown guard: a call made while a sequence is running returns
     * false and leaves the flag alone; otherwise the flag is raised for the
     * grace period, lowered again, and the call returns true.
     */
    method ShutdownSequence() returns (ok: bool)
      modifies this
      ensures ok == !old(isShuttingDown)
      ensures isShuttingDown == old(isShuttingDown)
      ensures networkConsumer == old(networkConsumer) && lastMessage == old(lastMessage)
    {
      if isShuttingDown {
        return false;
      }
      isShuttingDown := true;
      // The grace period elapses here.
      isShuttingDown := false;
      ok := true;
    }

    /**
     * Restart: stop, then start again only if the shutdown sequence ran. The
     * concrete stop may announce the loss of the connection
     * (`stopReportsLoss`), and the concrete start may announce a connection to
     * a host (`startReportsHost`); each announcement is a system notice to the
     * consumers and replaces the last message.
     */
    method Restart(stopReportsLoss: bool, startReportsHost: Option<string>, now: Long) returns (calls: seq<LifecycleCall>)
      modifies this
      ensures calls == if old(isShuttingDown) then [Stop] else [Stop, Start]
      ensures isShuttingDown == old(isShuttingDown) && networkConsumer == old(networkConsumer)
      ensures lastMessage ==
        if !old(isShuttingDown) && startReportsHost.Some? then Some(BuildSystemMessage(EstablishedNotice(startReportsHost.value), now))
        else if stopReportsLoss then Some(BuildSystemMessage(CONNECTION_LOST_TEXT, now))
        else old(lastMessage)
    {
      calls := [Stop];
      if stopReportsLoss {
        var _ := ConnectionLost(now);
      }
      var ok := ShutdownSequence();
      if ok {
        calls := calls + [Start];
        if startReportsHost.Some? {
          var _ := ConnectionEstablished(startReportsHost.value, now);
        }
      }
    }
  }

  /** The table of transport instances, one per registered kind. */
  class NetworkRegistry {
    var networks: map<NetworkTypes, Network>

    /** Every registered instance is of the kind it is registered under. */
    ghost predicate Valid()
      reads this
    {
      forall t :: t in networks ==> Registered(t) && networks[t].kind == t
    }

    constructor ()
      ensures Valid() && networks == map[]
    {
      networks := map[];
    }

    /**
     * getNetwork: fills in an instance for every registered kind that has
     * none yet, keeps the instances already there, and returns the one for
     * `t`; an unregistered kind gets a new socket transport that is not kept.
     */
    method GetNetwork(t: NetworkTypes) returns (n: Network)
      requires Valid()
      modifies this
      ensures Valid()
      ensures forall k :: k in networks <==> Registered(k)
      ensures forall k :: k in old(networks) ==> networks[k] == old(networks[k])
      ensures forall k :: k in networks && k !in old(networks) ==> fresh(networks[k])
      ensures Registered(t) ==> n == networks[t] && n.kind == t
      ensures Registered(t) && t in old(networks) ==> n == old(networks[t])
      ensures !Registered(t) ==> fresh(n) && n.kind == SOCKET && n !in networks.Values
    {
      var kinds := [DUMMY, SOCKET, UDP, BROADCAST, MULTICAST, RMI];
      ghost var before := networks;
      for i := 0 to |kinds|
        invariant forall k :: k in networks <==> k in before || k in kinds[..i]
        invariant forall k :: k in before ==> networks[k] == before[k]
        invariant forall k :: k in networks && k !in before ==> fresh(networks[k])
        invariant forall k :: k in networks ==> Registered(k) && networks[k].kind == k
      {
        var created := new Network(kinds[i]);
        if kinds[i] !in networks {
          networks := networks[kinds[i] := created];
        }
      }
      assert kinds[..|kinds|] == kinds;
      assert forall k :: Registered(k) ==> k in kinds;
      if t in networks {
        n := networks[t];
      } else {
        n := new Network(SOCKET);
      }
    }
  }
}
