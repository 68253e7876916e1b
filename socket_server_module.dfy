/**
 * The server side of the stream transport: a list of connected clients, each
 * with a connection flag and a liveness record. Clients are added when
 * accepted, evicted when a write to them fails, swept when idle and all
 * dropped on shutdown. Socket writes are an oracle that may fail; threads
 * run to completion one after another.
 */
module SocketServer {
  import opened Wrappers
  import opened Seqs
  import opened GeneralUtils
  import opened Liveness
  import opened Networks

  /** What a write to one client did. */
  datatype SendOutcome = Skipped | Written(bytes: seq<Byte>) | Failed

  /** Whether a control frame asks the client to disconnect: only its second byte is read. */
  predicate DisconnectRequested(command: seq<Byte>)
  {
    |command| > 1 && command[1] == DISCONNECT_CHARACTER
  }

  /**
   * For frames that start with the control byte, which are the only ones the
   * client hands to its command handler, a disconnect request is exactly a
   * frame the classifier calls DISCONNECT; the connect frame is not one.
   */
  lemma DisconnectRequestedAgreesWithClassifier(command: seq<Byte>)
    requires |command| > 0 && command[0] == CONTROL_CHARACTER
    ensures DisconnectRequested(command) <==> CheckCommand(command) == DISCONNECT
    ensures !DisconnectRequested(CONNECT_SEQUENCE) && DisconnectRequested(DISCONNECT_SEQUENCE)
  {
  }

  /** A connected peer of the stream server. */
  class Client {
    /** Liveness of the peer, refreshed whenever it sends data. */
    const container: ClientTimestampContainer
    /** Connection state; the receive loop runs while it is set. */
    var connected: bool

    /** A client for a peer accepted at `now`; not yet connected. */
    constructor (address: SocketAddress, now: Long)
      ensures !connected && fresh(container)
      ensures container.address == Some(address) && container.lastActivity == now
    {
      container := new ClientTimestampContainer(address, now);
      connected := false;
    }

    /** The peer has been idle for longer than the inactivity time at `now`. */
    function IsInactive(now: Long): (r: bool)
      reads container
      ensures container.lastActivity <= LONG_MAX - INACTIVITY_TIME ==>
        (r <==> now - container.lastActivity > INACTIVITY_TIME)
    {
      container.IsDead(now)
    }

    /** Marks the client connected; the receive loop is started only when it was not connected. */
    method Connect() returns (loopStarted: bool)
      modifies this
      ensures connected
      ensures loopStarted == !old(connected)
    {
      if connected {
        return false;
      }
      connected := true;
      loopStarted := true;
    }

    /** Marks the client disconnected; a second call has no further effect. */
    method Disconnect()
      modifies this
      ensures !connected
    {
      if !connected {
        return;
      }
      connected := false;
    }

    /**
     * A write of `data`: nothing is written to a client that is not connected;
     * otherwise the write happens, or fails when `writeFails`.
     */
    function Send(data: seq<Byte>, writeFails: bool): (o: SendOutcome)
      reads this
      ensures o == Skipped <==> !connected
      ensures o == Failed <==> connected && writeFails
      ensures o.Written? <==> connected && !writeFails
      ensures o.Written? ==> o.bytes == data
    {
      if !connected then Skipped
      else if writeFails then Failed
      else Written(data)
    }

    /** A control frame from the peer: a disconnect request clears the connection flag, anything else is ignored. */
    method HandleCommand(command: seq<Byte>)
      modifies this
      ensures connected == (old(connected) && !DisconnectRequested(command))
    {
      if |command| > 1 {
        if command[1] == DISCONNECT_CHARACTER {
          connected := false;
        }
      }
    }

    /**
     * One turn of the receive loop with `data` available at `now`: activity is
     * refreshed, a frame starting with the control byte is handled as a command
     * and anything else is returned to be decoded and broadcast.
     */
    method Receive(data: seq<Byte>, now: Long) returns (toBroadcast: Option<seq<Byte>>)
      modifies this, container
      ensures |data| == 0 ==> toBroadcast == None && connected == old(connected) && container.lastActivity == old(container.lastActivity)
      ensures |data| > 0 ==> container.lastActivity == now
      ensures |data| > 0 && now <= LONG_MAX - INACTIVITY_TIME ==> !IsInactive(now)
      ensures |data| > 0 && data[0] == CONTROL_CHARACTER ==>
        toBroadcast == None && connected == (old(connected) && !DisconnectRequested(data))
      ensures |data| > 0 && data[0] != CONTROL_CHARACTER ==> toBroadcast == Some(data) && connected == old(connected)
    {
      toBroadcast := None;
      if |data| > 0 {
        container.UpdateActivity(now);
        if data[0] == CONTROL_CHARACTER {
          HandleCommand(data);
        } else {
          toBroadcast := Some(data);
        }
      }
    }
  }

  /** The connection flag of each client, in list order. */
  function ConnectedFlags(cs: seq<Client>): (r: seq<bool>)
    reads cs
    ensures |r| == |cs| && forall j :: 0 <= j < |cs| ==> r[j] == cs[j].connected
  {
    if |cs| == 0 then [] else [cs[0].connected] + ConnectedFlags(cs[1..])
  }

  /** For each client, whether it is still active at `now`. */
  function ActiveFlags(cs: seq<Client>, now: Long): (r: seq<bool>)
    reads set c | c in cs :: c.container
    ensures |r| == |cs| && forall j :: 0 <= j < |cs| ==> r[j] == !cs[j].IsInactive(now)
  {
    if |cs| == 0 then [] else [!cs[0].IsInactive(now)] + ActiveFlags(cs[1..], now)
  }

  /** For each client, whether a broadcast keeps it: all but the connected ones whose write fails. */
  function BroadcastKeeps(cs: seq<Client>, connected: seq<bool>, unreachable: set<Client>): (keep: seq<bool>)
    requires |connected| == |cs|
    ensures |keep| == |cs|
    ensures forall j :: 0 <= j < |cs| ==> (keep[j] <==> !(connected[j] && cs[j] in unreachable))
  {
    if |cs| == 0 then [] else [!(connected[0] && cs[0] in unreachable)] + BroadcastKeeps(cs[1..], connected[1..], unreachable)
  }

  /** For each client, whether a broadcast writes to it: connected and reachable. */
  function BroadcastWrites(cs: seq<Client>, connected: seq<bool>, unreachable: set<Client>): (writes: seq<bool>)
    requires |connected| == |cs|
    ensures |writes| == |cs|
    ensures forall j :: 0 <= j < |cs| ==> (writes[j] <==> connected[j] && cs[j] !in unreachable)
  {
    if |cs| == 0 then [] else [connected[0] && cs[0] !in unreachable] + BroadcastWrites(cs[1..], connected[1..], unreachable)
  }

  /**
   * After a broadcast every client of the old list is in exactly one state:
   * written to, skipped because it was not connected, or evicted because its
   * write failed.
   */
  lemma BroadcastPartition(cs: seq<Client>, connected: seq<bool>, unreachable: set<Client>, j: nat)
    requires |connected| == |cs| && Distinct(cs) && j < |cs|
    ensures cs[j] in Select(cs, BroadcastWrites(cs, connected, unreachable)) <==> connected[j] && cs[j] !in unreachable
    ensures cs[j] !in Select(cs, BroadcastKeeps(cs, connected, unreachable)) <==> connected[j] && cs[j] in unreachable
  {
    SelectMembership(cs, BroadcastWrites(cs, connected, unreachable), j);
    SelectMembership(cs, BroadcastKeeps(cs, connected, unreachable), j);
  }

  /** The sweep of idle clients keeps exactly the active ones and removes as many as are inactive. */
  lemma SweepKeepsExactlyActive(cs: seq<Client>, active: seq<bool>, j: nat)
    requires |active| == |cs| && Distinct(cs) && j < |cs|
    ensures cs[j] in Select(cs, active) <==> active[j]
    ensures |cs| - |Select(cs, active)| == |cs| - CountTrue(active)
  {
    SelectMembership(cs, active, j);
    SelectLength(cs, active);
  }

  class SocketServerModule {
    /** Whether the configuration enables the server. */
    const serverEnabled: bool
    /** The transport this module belongs to. */
    const network: Network
    /** Set while the server accepts clients. */
    var alive: bool
    /** The connected clients, in the order they were accepted. */
    var connectedClients: seq<Client>

    /** A client object appears at most once in the list. */
    ghost predicate Valid()
      reads this
    {
      Distinct(connectedClients)
    }

    constructor (network: Network, serverEnabled: bool)
      ensures Valid()
      ensures this.network == network && this.serverEnabled == serverEnabled
      ensures !alive && |connectedClients| == 0
    {
      this.network := network;
      this.serverEnabled := serverEnabled;
      alive := false;
      connectedClients := [];
    }

    /**
     * Starts the server: nothing happens when it is disabled or already alive;
     * otherwise it becomes alive unless binding the server socket fails.
     */
    method Start(bindFails: bool) returns (started: bool)
      modifies this
      ensures started <==> serverEnabled && !old(alive) && !bindFails
      ensures alive == (old(alive) || started)
      ensures connectedClients == old(connectedClients)
    {
      if !serverEnabled || alive {
        return false;
      }
      if bindFails {
        return false;
      }
      alive := true;
      started := true;
    }

    /** Accepts a peer at `now` while the server is enabled and alive: a new connected client is appended. */
    method AcceptClient(address: SocketAddress, now: Long) returns (c: Client?)
      requires Valid()
      modifies this
      ensures Valid() && alive == old(alive)
      ensures !serverEnabled || !alive ==> c == null && connectedClients == old(connectedClients)
      ensures serverEnabled && alive ==>
        c != null && fresh(c) && c.connected && c.container.address == Some(address)
        && connectedClients == old(connectedClients) + [c]
    {
      if !serverEnabled || !alive {
        return null;
      }
      c := new Client(address, now);
      var _ := c.Connect();
      connectedClients := connectedClients + [c];
    }

    /** Removes `c` from the list (identity) and disconnects it. */
    method Drop(c: Client)
      modifies this, c
      ensures !c.connected
      ensures connectedClients == RemoveFirst(old(connectedClients), c)
      ensures alive == old(alive)
    {
      connectedClients := RemoveFirst(connectedClients, c);
      c.Disconnect();
    }

    /**
     * One eviction during a walk over `snapshot`: the list is the selection
     * `mask` of the snapshot, and the client at position `i`, still selected,
     * is removed from the list (identity) and disconnected.
     */
    method EvictAt(snapshot: seq<Client>, ghost mask: seq<bool>, i: nat)
      requires Distinct(snapshot) && |mask| == |snapshot| && i < |snapshot| && mask[i]
      requires connectedClients == Select(snapshot, mask)
      modifies this, snapshot[i]
      ensures connectedClients == Select(snapshot, mask[i := false])
      ensures |connectedClients| == |old(connectedClients)| - 1
      ensures !snapshot[i].connected && alive == old(alive)
      ensures forall j :: 0 <= j < |snapshot| && j != i ==> snapshot[j].connected == old(snapshot[j].connected)
    {
      SelectClear(snapshot, mask, i);
      SelectMembership(snapshot, mask, i);
      RemoveFirstLength(connectedClients, snapshot[i]);
      Drop(snapshot[i]);
    }

    /**
     * Sends the encoded message `payload` to every client of the list. A
     * connected client whose write fails (it is in `unreachable`) is removed
     * and disconnected; the others are still served. Returns the clients
     * written to, in order.
     */
    method Broadcast(payload: seq<Byte>, unreachable: set<Client>) returns (written: seq<Client>)
      requires Valid()
      modifies this, connectedClients
      ensures Valid() && alive == old(alive)
      ensures connectedClients ==
        Select(old(connectedClients), BroadcastKeeps(old(connectedClients), old(ConnectedFlags(connectedClients)), unreachable))
      ensures written ==
        Select(old(connectedClients), BroadcastWrites(old(connectedClients), old(ConnectedFlags(connectedClients)), unreachable))
      ensures forall j :: 0 <= j < |old(connectedClients)| ==>
        old(connectedClients)[j].connected == (old(connectedClients[j].connected) && old(connectedClients)[j] !in unreachable)
    {
      var snapshot := connectedClients;
      ghost var flags := ConnectedFlags(snapshot);
      ghost var keeps := BroadcastKeeps(snapshot, flags, unreachable);
      ghost var writes := BroadcastWrites(snapshot, flags, unreachable);
      ghost var kept := seq(|snapshot|, j => true);
      ghost var served := seq(|snapshot|, j => false);
      SelectAll(snapshot, kept);
      SelectNone(snapshot, served);
      written := [];
      for i := 0 to |snapshot|
        invariant Distinct(snapshot) && alive == old(alive)
        invariant |kept| == |served| == |snapshot|
        invariant forall j :: 0 <= j < |snapshot| ==> kept[j] == (i <= j || keeps[j])
        invariant forall j :: 0 <= j < |snapshot| ==> served[j] == (j < i && writes[j])
        invariant connectedClients == Select(snapshot, kept)
        invariant written == Select(snapshot, served)
        invariant forall j :: 0 <= j < |snapshot| ==> snapshot[j].connected == (flags[j] && kept[j])
      {
        var c := snapshot[i];
        var outcome := c.Send(payload, c in unreachable);
        if outcome.Written? {
          SelectSetLast(snapshot, served, i);
          written := written + [c];
          served := served[i := true];
        } else if outcome == Failed {
          EvictAt(snapshot, kept, i);
          kept := kept[i := false];
        }
      }
      assert kept == keeps && served == writes;
      SelectDistinct(snapshot, keeps);
    }

    /**
     * Disconnects and removes every client inactive at `now`, walking a
     * snapshot of the list; the active ones stay in order. Returns how many
     * clients were removed.
     */
    method CleanDeadClients(now: Long) returns (cleaned: nat)
      requires Valid()
      modifies this, connectedClients
      ensures Valid() && alive == old(alive)
      ensures connectedClients == Select(old(connectedClients), old(ActiveFlags(connectedClients, now)))
      ensures cleaned == |old(connectedClients)| - |connectedClients|
      ensures forall j :: 0 <= j < |old(connectedClients)| ==>
        old(connectedClients)[j].connected == (old(connectedClients[j].connected) && !old(connectedClients[j].IsInactive(now)))
    {
      var snapshot := connectedClients;
      ghost var active := ActiveFlags(snapshot, now);
      ghost var flags := ConnectedFlags(snapshot);
      ghost var kept := seq(|snapshot|, j => true);
      SelectAll(snapshot, kept);
      cleaned := 0;
      for i := 0 to |snapshot|
        invariant Distinct(snapshot) && alive == old(alive)
        invariant |kept| == |snapshot|
        invariant forall j :: 0 <= j < |snapshot| ==> kept[j] == (i <= j || active[j])
        invariant connectedClients == Select(snapshot, kept)
        invariant cleaned + |connectedClients| == |snapshot|
        invariant forall j :: 0 <= j < |snapshot| ==> snapshot[j].connected == (flags[j] && kept[j])
      {
        var c := snapshot[i];
        if c.IsInactive(now) {
          EvictAt(snapshot, kept, i);
          kept := kept[i := false];
          cleaned := cleaned + 1;
        }
      }
      assert kept == active;
      SelectDistinct(snapshot, active);
    }

    /**
     * The shutdown run by a stop: when the transport's shutdown sequence is
     * granted, every client is disconnected and removed and the server is no
     * longer alive; otherwise nothing changes.
     */
    method Shutdown() returns (ok: bool)
      requires Valid()
      modifies this, network, connectedClients
      ensures Valid()
      ensures ok == !old(network.isShuttingDown)
      ensures network.isShuttingDown == old(network.isShuttingDown)
      ensures network.networkConsumer == old(network.networkConsumer) && network.lastMessage == old(network.lastMessage)
      ensures ok ==> connectedClients == [] && !alive
      ensures ok ==> forall j :: 0 <= j < |old(connectedClients)| ==> !old(connectedClients)[j].connected
      ensures !ok ==> connectedClients == old(connectedClients) && alive == old(alive)
      ensures !ok ==> forall j :: 0 <= j < |old(connectedClients)| ==>
        old(connectedClients)[j].connected == old(connectedClients[j].connected)
    {
      ok := network.ShutdownSequence();
      if ok {
        var snapshot := connectedClients;
        ghost var kept := seq(|snapshot|, j => true);
        SelectAll(snapshot, kept);
        for i := 0 to |snapshot|
          invariant Distinct(snapshot)
          invariant |kept| == |snapshot|
          invariant forall j :: 0 <= j < |snapshot| ==> kept[j] == (i <= j)
          invariant connectedClients == Select(snapshot, kept)
          invariant forall j :: 0 <= j < i ==> !snapshot[j].connected
          invariant network.isShuttingDown == old(network.isShuttingDown)
          invariant network.networkConsumer == old(network.networkConsumer) && network.lastMessage == old(network.lastMessage)
        {
          EvictAt(snapshot, kept, i);
          kept := kept[i := false];
        }
        SelectNone(snapshot, kept);
        alive := false;
      }
    }

    /**
     * Stops the server: nothing happens when it is disabled or not alive;
     * otherwise it runs the shutdown, with that method's outcome.
     */
    method Stop() returns (shutdownRan: bool, ok: bool)
      requires Valid()
      modifies this, network, connectedClients
      ensures Valid()
      ensures shutdownRan <==> serverEnabled && old(alive)
      ensures !shutdownRan ==> !ok && connectedClients == old(connectedClients) && alive == old(alive)
      ensures !shutdownRan ==> network.isShuttingDown == old(network.isShuttingDown)
      ensures !shutdownRan ==> forall j :: 0 <= j < |old(connectedClients)| ==> old(connectedClients)[j].connected == old(connectedClients[j].connected)
      ensures shutdownRan ==> ok == !old(network.isShuttingDown)
      ensures network.networkConsumer == old(network.networkConsumer) && network.lastMessage == old(network.lastMessage)
      ensures shutdownRan && ok ==> connectedClients == [] && !alive
      ensures shutdownRan && ok ==> forall j :: 0 <= j < |old(connectedClients)| ==> !old(connectedClients)[j].connected
      ensures shutdownRan && !ok ==> connectedClients == old(connectedClients) && alive == old(alive)
      ensures shutdownRan && !ok ==> forall j :: 0 <= j < |old(connectedClients)| ==>
        old(connectedClients)[j].connected == old(connectedClients[j].connected)
    {
      if !serverEnabled || !alive {
        return false, false;
      }
      shutdownRan := true;
      ok := Shutdown();
    }
  }
}
