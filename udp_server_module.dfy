/**
 * The server side of the raw datagram transport: a table of peers, each a
 * liveness record, kept up to date from received control frames, refreshed
 * on every datagram from a known peer and swept of idle peers; regular data
 * is sent on to every peer in the table.
 */
module UdpServer {
  import opened Wrappers
  import opened Seqs
  import opened GeneralUtils
  import opened Liveness

  /** A snapshot of one liveness record. */
  datatype PeerRecord = PeerRecord(address: SocketAddress, lastActivity: Long)

  /** One outgoing datagram. */
  datatype Datagram = Datagram(payload: seq<Byte>, destination: SocketAddress)

  // ------------------------------------------------------------------
  // The peer table as a value

  /** Index of the first record for address `a`, or `|table|` when there is none. */
  function FirstWithAddress(table: seq<PeerRecord>, a: SocketAddress): (k: nat)
    ensures k <= |table|
    ensures k < |table| ==> table[k].address == a
    ensures forall j :: 0 <= j < k ==> table[j].address != a
  {
    if |table| == 0 then 0
    else if table[0].address == a then 0
    else 1 + FirstWithAddress(table[1..], a)
  }

  /** Whether some record has address `a` (List.contains with address equality). */
  predicate HasAddress(table: seq<PeerRecord>, a: SocketAddress)
  {
    exists j :: 0 <= j < |table| && table[j].address == a
  }

  lemma FirstWithAddressFound(table: seq<PeerRecord>, a: SocketAddress)
    ensures FirstWithAddress(table, a) < |table| <==> HasAddress(table, a)
  {
  }

  /** Sets the first record for `a` to activity `now`; a table without `a` is unchanged. */
  function Refresh(table: seq<PeerRecord>, a: SocketAddress, now: Long): seq<PeerRecord>
  {
    var k := FirstWithAddress(table, a);
    if k < |table| then table[k := PeerRecord(a, now)] else table
  }

  /** Removes the first record for `a` (List.remove with address equality). */
  function RemoveFirstAddress(table: seq<PeerRecord>, a: SocketAddress): seq<PeerRecord>
  {
    var k := FirstWithAddress(table, a);
    if k < |table| then table[..k] + table[k + 1..] else table
  }

  /** The effect of a control frame from `a` on the table. */
  function ApplyCommand(table: seq<PeerRecord>, command: CommandSequence, a: SocketAddress, now: Long): seq<PeerRecord>
  {
    match command
    case CONNECT => table + [PeerRecord(a, now)]
    case DISCONNECT => RemoveFirstAddress(table, a)
    case _ => table
  }

  /** The table after a datagram from `sender`: refresh first, then the control frame if it is one. */
  function AfterDatagram(table: seq<PeerRecord>, sender: SocketAddress, data: seq<Byte>, now: Long): seq<PeerRecord>
  {
    var refreshed := Refresh(table, sender, now);
    var command := CheckCommand(data);
    if command == REGULAR then refreshed else ApplyCommand(refreshed, command, sender, now)
  }

  /** The records for address `a`, in table order. */
  function RecordsOf(table: seq<PeerRecord>, a: SocketAddress): seq<PeerRecord>
  {
    if |table| == 0 then []
    else (if table[0].address == a then [table[0]] else []) + RecordsOf(table[1..], a)
  }

  lemma {:induction false} RecordsOfConcat(s: seq<PeerRecord>, t: seq<PeerRecord>, a: SocketAddress)
    ensures RecordsOf(s + t, a) == RecordsOf(s, a) + RecordsOf(t, a)
    decreases |s|
  {
    if |s| > 0 {
      assert (s + t)[0] == s[0] && (s + t)[1..] == s[1..] + t;
      RecordsOfConcat(s[1..], t, a);
    } else {
      assert s + t == t;
    }
  }

  /** The addresses of a table, in order. */
  function Addresses(table: seq<PeerRecord>): (r: seq<SocketAddress>)
    ensures |r| == |table| && forall i :: 0 <= i < |table| ==> r[i] == table[i].address
  {
    if |table| == 0 then [] else [table[0].address] + Addresses(table[1..])
  }

  /** A CONNECT appends a record even for a known address, so the table can hold duplicates. */
  lemma {:induction false} ConnectAppends(table: seq<PeerRecord>, a: SocketAddress, now: Long)
    ensures ApplyCommand(table, CONNECT, a, now) == table + [PeerRecord(a, now)]
    ensures RecordsOf(ApplyCommand(table, CONNECT, a, now), a) == RecordsOf(table, a) + [PeerRecord(a, now)]
    ensures forall b :: b != a ==> RecordsOf(ApplyCommand(table, CONNECT, a, now), b) == RecordsOf(table, b)
  {
    RecordsOfConcat(table, [PeerRecord(a, now)], a);
    forall b | b != a
      ensures RecordsOf(table + [PeerRecord(a, now)], b) == RecordsOf(table, b)
    {
      RecordsOfConcat(table, [PeerRecord(a, now)], b);
    }
  }

  /**
   * A DISCONNECT drops the first record for the sender only: its other records
   * stay, as do the records of every other address, in order.
   */
  lemma {:induction false} DisconnectRemovesFirstOnly(table: seq<PeerRecord>, a: SocketAddress, now: Long)
    ensures var r := ApplyCommand(table, DISCONNECT, a, now);
      && (HasAddress(table, a) ==> RecordsOf(table, a) == [table[FirstWithAddress(table, a)]] + RecordsOf(r, a))
      && (!HasAddress(table, a) ==> r == table)
      && forall b :: b != a ==> RecordsOf(r, b) == RecordsOf(table, b)
    decreases |table|
  {
    if |table| > 0 && table[0].address != a {
      var rest := RemoveFirstAddress(table[1..], a);
      DisconnectRemovesFirstOnly(table[1..], a, now);
      var k := FirstWithAddress(table, a);
      if k < |table| {
        assert FirstWithAddress(table[1..], a) == k - 1;
        assert table[..k] + table[k + 1..] == [table[0]] + (table[1..][..k - 1] + table[1..][k..]);
        assert HasAddress(table[1..], a) by { assert table[1..][k - 1].address == a; }
      } else {
        assert !HasAddress(table[1..], a) by { FirstWithAddressFound(table[1..], a); }
      }
      var r := RemoveFirstAddress(table, a);
      assert r == [table[0]] + rest;
      assert r[0] == table[0] && r[1..] == rest;
    } else if |table| > 0 {
      assert FirstWithAddress(table, a) == 0;
      assert RemoveFirstAddress(table, a) == table[1..];
      assert HasAddress(table, a);
    }
  }

  /** A frame that is neither CONNECT nor DISCONNECT leaves the table as it is. */
  lemma UnknownLeavesTable(table: seq<PeerRecord>, a: SocketAddress, now: Long)
    ensures ApplyCommand(table, UNKNOWN, a, now) == table
  {
  }

  /**
   * Refreshing keeps every address in place; the first record of the sender
   * gets activity `now` and is alive at that instant; all other records are unchanged.
   */
  lemma RefreshKeepsAddresses(table: seq<PeerRecord>, a: SocketAddress, now: Long)
    ensures var r := Refresh(table, a, now);
      && Addresses(r) == Addresses(table)
      && (HasAddress(table, a) ==>
            (var k := FirstWithAddress(table, a);
             r[k].lastActivity == now && (now <= LONG_MAX - INACTIVITY_TIME ==> !IsDeadAt(r[k].lastActivity, now))
             && forall j :: 0 <= j < |table| && j != k ==> r[j] == table[j]))
      && (!HasAddress(table, a) ==> r == table)
  {
  }

  /** Regular data from a peer never changes which addresses are in the table. */
  lemma RegularDataKeepsMembership(table: seq<PeerRecord>, sender: SocketAddress, data: seq<Byte>, now: Long)
    requires CheckCommand(data) == REGULAR
    ensures Addresses(AfterDatagram(table, sender, data, now)) == Addresses(table)
  {
    RefreshKeepsAddresses(table, sender, now);
  }

  /** Regular data goes to every record in order, origin included, when the transport is alive. */
  function Rebroadcast(table: seq<PeerRecord>, data: seq<Byte>, alive: bool): (sends: seq<Datagram>)
    ensures !alive ==> |sends| == 0
    ensures alive ==> |sends| == |table|
    ensures alive ==> forall i :: 0 <= i < |table| ==> sends[i] == Datagram(data, table[i].address)
  {
    if !alive || |table| == 0 then [] else [Datagram(data, table[0].address)] + Rebroadcast(table[1..], data, alive)
  }

  // ------------------------------------------------------------------
  // The sweep of idle peers

  /** Number of dead records in `table` at `now`. */
  function CountDead(table: seq<PeerRecord>, now: Long): nat
  {
    if |table| == 0 then 0
    else (if IsDeadAt(table[0].lastActivity, now) then 1 else 0) + CountDead(table[1..], now)
  }

  lemma {:induction false} CountDeadConcat(s: seq<PeerRecord>, t: seq<PeerRecord>, now: Long)
    ensures CountDead(s + t, now) == CountDead(s, now) + CountDead(t, now)
    decreases |s|
  {
    if |s| > 0 {
      assert (s + t)[0] == s[0] && (s + t)[1..] == s[1..] + t;
      CountDeadConcat(s[1..], t, now);
    } else {
      assert s + t == t;
    }
  }

  /** The intended sweep: exactly the live records, in their order. */
  function LiveRecords(table: seq<PeerRecord>, now: Long): seq<PeerRecord>
  {
    if |table| == 0 then []
    else (if IsDeadAt(table[0].lastActivity, now) then [] else [table[0]]) + LiveRecords(table[1..], now)
  }

  lemma {:induction false} LiveRecordsSnoc(table: seq<PeerRecord>, p: PeerRecord, now: Long)
    ensures LiveRecords(table + [p], now) == LiveRecords(table, now) + (if IsDeadAt(p.lastActivity, now) then [] else [p])
    decreases |table|
  {
    if |table| == 0 {
      assert table + [p] == [p];
    } else {
      assert (table + [p])[0] == table[0] && (table + [p])[1..] == table[1..] + [p];
      LiveRecordsSnoc(table[1..], p, now);
    }
  }

  /**
   * The intended sweep keeps every live record and no dead one, and the
   * number of records it drops is the number of dead ones.
   */
  lemma {:induction false} LiveRecordsAreExactlyTheLiveOnes(table: seq<PeerRecord>, now: Long)
    ensures var r := LiveRecords(table, now);
      && (forall i :: 0 <= i < |r| ==> r[i] in table && !IsDeadAt(r[i].lastActivity, now))
      && (forall i :: 0 <= i < |table| && !IsDeadAt(table[i].lastActivity, now) ==> table[i] in r)
      && |table| - |r| == CountDead(table, now)
    decreases |table|
  {
    if |table| > 0 {
      LiveRecordsAreExactlyTheLiveOnes(table[1..], now);
      forall i | 0 <= i < |table| && !IsDeadAt(table[i].lastActivity, now)
        ensures table[i] in LiveRecords(table, now)
      {
        if i > 0 {
          assert table[i] == table[1..][i - 1];
        }
      }
    }
  }

  /**
   * The sweep as cleanDeadClients performs it: every dead record of the
   * snapshot `pending` removes, from the current table, the FIRST record with
   * the same address (container equality compares addresses only).
   */
  function SweepAsWritten(pending: seq<PeerRecord>, table: seq<PeerRecord>, now: Long): seq<PeerRecord>
    decreases |pending|
  {
    if |pending| == 0 then table
    else
      var next := if IsDeadAt(pending[0].lastActivity, now) then RemoveFirstAddress(table, pending[0].address) else table;
      SweepAsWritten(pending[1..], next, now)
  }

  /** No address occurs twice in the table. */
  predicate DistinctAddresses(table: seq<PeerRecord>)
  {
    forall i, j :: 0 <= i < j < |table| ==> table[i].address != table[j].address
  }

  lemma {:induction false} FirstWithAddressAfterPrefix(kept: seq<PeerRecord>, rest: seq<PeerRecord>, a: SocketAddress)
    requires forall i :: 0 <= i < |kept| ==> kept[i].address != a
    requires |rest| > 0 && rest[0].address == a
    ensures FirstWithAddress(kept + rest, a) == |kept|
    decreases |kept|
  {
    if |kept| > 0 {
      assert (kept + rest)[1..] == kept[1..] + rest;
      FirstWithAddressAfterPrefix(kept[1..], rest, a);
    }
  }

  /** Dropping one record keeps addresses distinct, and that record's address was not among the earlier ones. */
  lemma DistinctAddressesDrop(kept: seq<PeerRecord>, p: PeerRecord, rest: seq<PeerRecord>)
    requires DistinctAddresses(kept + [p] + rest)
    ensures DistinctAddresses(kept + rest)
    ensures forall i :: 0 <= i < |kept| ==> kept[i].address != p.address
  {
    var all := kept + [p] + rest;
    forall i | 0 <= i < |kept| ensures kept[i].address != p.address {
      assert all[i] == kept[i] && all[|kept|] == p;
    }
    forall i, j | 0 <= i < j < |kept + rest|
      ensures (kept + rest)[i].address != (kept + rest)[j].address
    {
      var i', j' := if i < |kept| then i else i + 1, if j < |kept| then j else j + 1;
      assert (kept + rest)[i] == all[i'] && (kept + rest)[j] == all[j'];
    }
  }

  /** One step of the sweep on a dead record that comes right after `kept`. */
  lemma SweepDeadStep(kept: seq<PeerRecord>, p: PeerRecord, rest: seq<PeerRecord>)
    requires forall i :: 0 <= i < |kept| ==> kept[i].address != p.address
    ensures RemoveFirstAddress(kept + [p] + rest, p.address) == kept + rest
  {
    var all := kept + [p] + rest;
    assert all == kept + ([p] + rest);
    FirstWithAddressAfterPrefix(kept, [p] + rest, p.address);
    assert all[..|kept|] == kept && all[|kept| + 1..] == rest;
  }

  /**
   * With distinct addresses the sweep as written removes exactly the dead
   * records: after the records `kept` so far, the sweep of `pending` leaves
   * `kept` followed by the live records of `pending`.
   */
  lemma {:induction false} SweepAsWrittenWithDistinctAddresses(kept: seq<PeerRecord>, pending: seq<PeerRecord>, now: Long)
    requires DistinctAddresses(kept + pending)
    ensures SweepAsWritten(pending, kept + pending, now) == kept + LiveRecords(pending, now)
    decreases |pending|
  {
    if |pending| == 0 {
      assert kept + pending == kept + LiveRecords(pending, now);
    } else {
      var p, rest := pending[0], pending[1..];
      SweepUnfold(pending, kept + pending, now);
      assert kept + pending == kept + [p] + rest;
      if IsDeadAt(p.lastActivity, now) {
        DistinctAddressesDrop(kept, p, rest);
        SweepDeadStep(kept, p, rest);
        SweepAsWrittenWithDistinctAddresses(kept, rest, now);
        assert [] + LiveRecords(rest, now) == LiveRecords(rest, now);
      } else {
        SweepAsWrittenWithDistinctAddresses(kept + [p], rest, now);
        assert (kept + [p]) + LiveRecords(rest, now) == kept + ([p] + LiveRecords(rest, now));
      }
    }
  }

  /** One step of the sweep as written and of the intended sweep. */
  lemma SweepUnfold(pending: seq<PeerRecord>, table: seq<PeerRecord>, now: Long)
    requires |pending| > 0
    ensures SweepAsWritten(pending, table, now) ==
      SweepAsWritten(pending[1..], if IsDeadAt(pending[0].lastActivity, now) then RemoveFirstAddress(table, pending[0].address) else table, now)
    ensures LiveRecords(pending, now) == (if IsDeadAt(pending[0].lastActivity, now) then [] else [pending[0]]) + LiveRecords(pending[1..], now)
  {
  }

  /** Corollary: on a table without duplicate addresses the sweep as written is the intended one. */
  lemma SweepAsWrittenIsLiveRecords(table: seq<PeerRecord>, now: Long)
    requires DistinctAddresses(table)
    ensures SweepAsWritten(table, table, now) == LiveRecords(table, now)
  {
    assert [] + table == table;
    SweepAsWrittenWithDistinctAddresses([], table, now);
  }

  /**
   * With a duplicate address the sweep as written drops the live record and
   * keeps the dead one: peer A connects twice at 0, sends data at 400000 (its
   * first record is refreshed), and the sweep runs at 400001.
   */
  lemma SweepAsWrittenDropsLivePeer()
    ensures var a := SocketAddress("10.0.0.1", 9292);
      var t1 := AfterDatagram([], a, CONNECT_SEQUENCE, 0);
      var t2 := AfterDatagram(t1, a, CONNECT_SEQUENCE, 0);
      var t3 := AfterDatagram(t2, a, [72, 105], 400000);
      && t3 == [PeerRecord(a, 400000), PeerRecord(a, 0)]
      && SweepAsWritten(t3, t3, 400001) == [PeerRecord(a, 0)]
      && LiveRecords(t3, 400001) == [PeerRecord(a, 400000)]
  {
    var a := SocketAddress("10.0.0.1", 9292);
    var t2 := [PeerRecord(a, 0), PeerRecord(a, 0)];
    assert AfterDatagram([], a, CONNECT_SEQUENCE, 0) == [PeerRecord(a, 0)];
    assert AfterDatagram([PeerRecord(a, 0)], a, CONNECT_SEQUENCE, 0) == t2;
    var t3 := [PeerRecord(a, 400000), PeerRecord(a, 0)];
    assert Refresh(t2, a, 400000) == t3;
    assert AfterDatagram(t2, a, [72, 105], 400000) == t3;
    assert RemoveFirstAddress(t3, a) == [PeerRecord(a, 0)];
    assert SweepAsWritten(t3[1..], t3, 400001) == [PeerRecord(a, 0)];
    assert !IsDeadAt(400000, 400001) && IsDeadAt(0, 400001);
    assert t3[1..] == [PeerRecord(a, 0)] && t3[1..][1..] == [];
    assert LiveRecords(t3[1..], 400001) == [];
  }

  // ------------------------------------------------------------------
  // The module state

  /** The records the table's containers hold, in order. */
  function TableOf(cs: seq<ClientTimestampContainer>): (r: seq<PeerRecord>)
    requires forall i :: 0 <= i < |cs| ==> cs[i].address.Some?
    reads cs
    ensures |r| == |cs|
    ensures forall i :: 0 <= i < |cs| ==> r[i] == PeerRecord(cs[i].address.value, cs[i].lastActivity)
  {
    if |cs| == 0 then [] else TableOf(cs[..|cs| - 1]) + [PeerRecord(cs[|cs| - 1].address.value, cs[|cs| - 1].lastActivity)]
  }

  class UdpServerModule {
    /** The peer table: one container per CONNECT received, in arrival order. */
    var clients: seq<ClientTimestampContainer>

    /** Every container in the table has an address and appears once. */
    ghost predicate Valid()
      reads this
    {
      (forall i :: 0 <= i < |clients| ==> clients[i].address.Some?) && Distinct(clients)
    }

    /** The table as values. */
    function Table(): seq<PeerRecord>
      requires Valid()
      reads this, clients
    {
      TableOf(clients)
    }

    constructor ()
      ensures Valid() && Table() == []
    {
      clients := [];
    }

    /** Position of the first container whose address equals `a`, or `|clients|`. */
    method FindFirst(a: SocketAddress) returns (k: nat)
      requires Valid()
      ensures k == FirstWithAddress(Table(), a)
    {
      ghost var table := Table();
      k := 0;
      while k < |clients| && clients[k].address != Some(a)
        invariant k <= |clients|
        invariant forall j :: 0 <= j < k ==> table[j].address != a
      {
        k := k + 1;
      }
      FirstIsUnique(table, a, k);
    }

    /**
     * handleDataIn: while the transport is alive, one datagram carrying `data`
     * to every table entry in order, origin included. A send to an address in
     * `unreachable` fails; the failure is swallowed and the rest are still sent.
     */
    method HandleDataIn(data: seq<Byte>, networkAlive: bool, unreachable: set<SocketAddress>)
      returns (attempted: seq<Datagram>, delivered: seq<Datagram>)
      requires Valid()
      ensures attempted == Rebroadcast(Table(), data, networkAlive)
      ensures forall i :: 0 <= i < |delivered| ==> delivered[i] in attempted && delivered[i].destination !in unreachable
      ensures forall i :: 0 <= i < |attempted| && attempted[i].destination !in unreachable ==> attempted[i] in delivered
    {
      attempted, delivered := [], [];
      if !networkAlive {
        return;
      }
      ghost var table := Table();
      for i := 0 to |clients|
        invariant |attempted| == i
        invariant forall j :: 0 <= j < i ==> attempted[j] == Datagram(data, table[j].address)
        invariant forall j :: 0 <= j < |delivered| ==> delivered[j] in attempted && delivered[j].destination !in unreachable
        invariant forall j :: 0 <= j < i && attempted[j].destination !in unreachable ==> attempted[j] in delivered
      {
        var packet := Datagram(data, clients[i].address.value);
        attempted := attempted + [packet];
        if packet.destination !in unreachable {
          delivered := delivered + [packet];
        }
      }
    }

    /**
     * One turn of the receive loop: a datagram `data` from `sender` at `now`.
     * A known sender's first record is refreshed; regular data is rebroadcast,
     * anything else is handled as a control frame.
     */
    method Receive(sender: SocketAddress, data: seq<Byte>, now: Long, networkAlive: bool, unreachable: set<SocketAddress>)
      returns (attempted: seq<Datagram>, delivered: seq<Datagram>)
      requires Valid()
      modifies this, clients
      ensures Valid()
      ensures Table() == AfterDatagram(old(Table()), sender, data, now)
      ensures attempted == if CheckCommand(data) == REGULAR then Rebroadcast(Table(), data, networkAlive) else []
      ensures forall i :: 0 <= i < |delivered| ==> delivered[i] in attempted && delivered[i].destination !in unreachable
      ensures forall i :: 0 <= i < |attempted| && attempted[i].destination !in unreachable ==> attempted[i] in delivered
    {
      Touch(sender, now);
      var command := CheckCommand(data);
      if command == REGULAR {
        attempted, delivered := HandleDataIn(data, networkAlive, unreachable);
      } else {
        attempted, delivered := [], [];
        // The container built for the sender; only a CONNECT keeps it.
        var connection := new ClientTimestampContainer(sender, now);
        HandleCommand(command, connection);
      }
    }

    /** Refreshes the first container with address `a`, when there is one, to activity `now`. */
    method Touch(a: SocketAddress, now: Long)
      requires Valid()
      modifies clients
      ensures Valid() && Table() == Refresh(old(Table()), a, now)
    {
      var k := FindFirst(a);
      if k < |clients| {
        RefreshAt(k, a, now);
      }
    }

    /** Refreshes the container at `k`, the first one with address `a`, to activity `now`. */
    method RefreshAt(k: nat, a: SocketAddress, now: Long)
      requires Valid() && k < |clients| && k == FirstWithAddress(Table(), a)
      modifies clients[k]
      ensures Valid() && Table() == Refresh(old(Table()), a, now)
    {
      ghost var table := Table();
      clients[k].UpdateActivity(now);
      forall j | 0 <= j < |clients|
        ensures Table()[j] == Refresh(table, a, now)[j]
      {
        if j != k {
          assert clients[j] != clients[k];
        }
      }
    }

    /** handleCommand: CONNECT appends the container, DISCONNECT removes the first with its address. */
    method HandleCommand(command: CommandSequence, client: ClientTimestampContainer)
      requires Valid() && client.address.Some? && client !in clients
      modifies this
      ensures Valid()
      ensures Table() == ApplyCommand(old(Table()), command, client.address.value, client.lastActivity)
    {
      match command
      case CONNECT =>
        clients := clients + [client];
        assert Table() == old(Table()) + [PeerRecord(client.address.value, client.lastActivity)];
      case DISCONNECT =>
        RemoveFirstWith(client.address.value);
      case _ =>
    }

    /** Drops the first container with address `a` (List.remove with container equality). */
    method RemoveFirstWith(a: SocketAddress)
      requires Valid()
      modifies this
      ensures Valid() && Table() == RemoveFirstAddress(old(Table()), a)
    {
      var k := FindFirst(a);
      if k < |clients| {
        RemoveAt(k);
      }
    }

    /** Drops the container at position `k`. */
    method RemoveAt(k: nat)
      requires Valid() && k < |clients|
      modifies this
      ensures Valid()
      ensures clients == old(clients[..k] + clients[k + 1..])
      ensures Table() == old(Table()[..k] + Table()[k + 1..])
    {
      ghost var table := Table();
      clients := clients[..k] + clients[k + 1..];
      assert Table() == table[..k] + table[k + 1..] by {
        forall j | 0 <= j < |clients| ensures Table()[j] == (table[..k] + table[k + 1..])[j] {
          if j >= k { assert clients[j] == old(clients)[j + 1]; }
        }
      }
    }

    /**
     * Removes the first container with the address of `c` when `c` is dead at
     * `now`; `c` is the container at position `i` of the snapshot `pending`
     * being swept, so the sweep of the rest of the snapshot carries on from here.
     */
    method SweepOne(c: ClientTimestampContainer, ghost pending: seq<PeerRecord>, ghost i: nat, now: Long) returns (dead: bool)
      requires Valid() && c.address.Some?
      requires i < |pending| && pending[i] == PeerRecord(c.address.value, c.lastActivity)
      modifies this
      ensures Valid()
      ensures dead == IsDeadAt(c.lastActivity, now)
      ensures Table() == if dead then RemoveFirstAddress(old(Table()), c.address.value) else old(Table())
      ensures SweepAsWritten(pending[i + 1..], Table(), now) == SweepAsWritten(pending[i..], old(Table()), now)
    {
      SweepStepFacts(pending, i, now);
      dead := c.IsDead(now);
      if dead {
        RemoveFirstWith(c.address.value);
      }
    }

    /**
     * cleanDeadClients at `now`: walks a snapshot of the table and, for each
     * dead container in it, removes the first container with that address;
     * returns how many dead containers the snapshot held.
     */
    method CleanDeadClients(now: Long) returns (cleaned: nat)
      requires Valid()
      modifies this
      ensures Valid()
      ensures Table() == SweepAsWritten(old(Table()), old(Table()), now)
      ensures cleaned == CountDead(old(Table()), now)
    {
      var snapshot := clients;
      ghost var pending := Table();
      cleaned := 0;
      for i := 0 to |snapshot|
        invariant Valid()
        invariant forall j :: 0 <= j < |snapshot| ==> snapshot[j].address.Some?
        invariant |pending| == |snapshot|
        invariant forall j :: 0 <= j < |snapshot| ==> pending[j] == PeerRecord(snapshot[j].address.value, snapshot[j].lastActivity)
        invariant SweepAsWritten(pending[i..], Table(), now) == SweepAsWritten(pending, pending, now)
        invariant cleaned == CountDead(pending[..i], now)
      {
        SweepStepFacts(pending, i, now);
        var dead := SweepOne(snapshot[i], pending, i, now);
        if dead {
          cleaned := cleaned + 1;
        }
      }
      assert pending[..|snapshot|] == pending;
    }

    /**
     * The sweep as evidently intended: each dead container is removed itself
     * rather than the first container with its address, so exactly the live
     * records stay, in order.
     */
    method CleanDeadClientsCorrected(now: Long) returns (cleaned: nat)
      requires Valid()
      modifies this
      ensures Valid()
      ensures Table() == LiveRecords(old(Table()), now)
      ensures cleaned == CountDead(old(Table()), now)
    {
      var kept;
      kept, cleaned := LiveContainers(clients, now);
      clients := kept;
    }
  }

  /** The containers of `cs` alive at `now`, in order, and how many are dead. */
  method LiveContainers(cs: seq<ClientTimestampContainer>, now: Long) returns (kept: seq<ClientTimestampContainer>, cleaned: nat)
    requires forall i :: 0 <= i < |cs| ==> cs[i].address.Some?
    requires Distinct(cs)
    ensures forall j :: 0 <= j < |kept| ==> kept[j].address.Some?
    ensures Distinct(kept)
    ensures TableOf(kept) == LiveRecords(TableOf(cs), now)
    ensures cleaned == CountDead(TableOf(cs), now)
  {
    ghost var table := TableOf(cs);
    kept := [];
    cleaned := 0;
    for i := 0 to |cs|
      invariant forall j :: 0 <= j < |kept| ==> kept[j].address.Some?
      invariant DrawnFrom(kept, cs, i)
      invariant TableOf(kept) == LiveRecords(table[..i], now)
      invariant cleaned == CountDead(table[..i], now)
    {
      var c := cs[i];
      FilterStepFacts(table, i, now);
      DrawnFromNext(kept, cs, i);
      if c.IsDead(now) {
        cleaned := cleaned + 1;
      } else {
        TableOfSnoc(kept, c);
        kept := kept + [c];
      }
    }
    assert table[..|cs|] == table;
  }

  /** `kept` has no duplicates and holds only elements of the first `i` of `cs`. */
  ghost predicate DrawnFrom<T>(kept: seq<T>, cs: seq<T>, i: nat)
  {
    i <= |cs| && Distinct(kept) && forall j :: 0 <= j < |kept| ==> kept[j] in cs[..i]
  }

  lemma DrawnFromNext<T>(kept: seq<T>, cs: seq<T>, i: nat)
    requires DrawnFrom(kept, cs, i) && Distinct(cs) && i < |cs|
    ensures DrawnFrom(kept, cs, i + 1) && DrawnFrom(kept + [cs[i]], cs, i + 1)
  {
    assert cs[..i + 1] == cs[..i] + [cs[i]];
    assert cs[i] !in cs[..i];
  }

  /** Unfolds one step of the intended sweep and of the dead count at position `i`. */
  lemma FilterStepFacts(table: seq<PeerRecord>, i: nat, now: Long)
    requires i < |table|
    ensures LiveRecords(table[..i + 1], now) == LiveRecords(table[..i], now) + (if IsDeadAt(table[i].lastActivity, now) then [] else [table[i]])
    ensures CountDead(table[..i + 1], now) == CountDead(table[..i], now) + (if IsDeadAt(table[i].lastActivity, now) then 1 else 0)
  {
    assert table[..i + 1] == table[..i] + [table[i]];
    LiveRecordsSnoc(table[..i], table[i], now);
    CountDeadConcat(table[..i], [table[i]], now);
    assert CountDead([table[i]], now) == (if IsDeadAt(table[i].lastActivity, now) then 1 else 0) + CountDead([table[i]][1..], now);
  }

  lemma TableOfSnoc(cs: seq<ClientTimestampContainer>, c: ClientTimestampContainer)
    requires forall i :: 0 <= i < |cs| ==> cs[i].address.Some?
    requires c.address.Some?
    ensures TableOf(cs + [c]) == TableOf(cs) + [PeerRecord(c.address.value, c.lastActivity)]
  {
    assert (cs + [c])[..|cs|] == cs;
  }

  /** Unfolds one step of the sweep and of the dead count at position `i`. */
  lemma SweepStepFacts(pending: seq<PeerRecord>, i: nat, now: Long)
    requires i < |pending|
    ensures forall table :: (SweepAsWritten(pending[i..], table, now) ==
      SweepAsWritten(pending[i + 1..], if IsDeadAt(pending[i].lastActivity, now) then RemoveFirstAddress(table, pending[i].address) else table, now))
    ensures CountDead(pending[..i + 1], now) == CountDead(pending[..i], now) + (if IsDeadAt(pending[i].lastActivity, now) then 1 else 0)
  {
    assert pending[i..][0] == pending[i] && pending[i..][1..] == pending[i + 1..];
    assert pending[..i + 1] == pending[..i] + [pending[i]];
    CountDeadConcat(pending[..i], [pending[i]], now);
    assert CountDead([pending[i]], now) == (if IsDeadAt(pending[i].lastActivity, now) then 1 else 0) + CountDead([pending[i]][1..], now);
  }

  /** The index a search stops at is the first one with the address. */
  lemma FirstIsUnique(table: seq<PeerRecord>, a: SocketAddress, k: nat)
    requires k <= |table|
    requires k < |table| ==> table[k].address == a
    requires forall j :: 0 <= j < k ==> table[j].address != a
    ensures k == FirstWithAddress(table, a)
  {
  }
}
