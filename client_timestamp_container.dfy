/**
 * Peer liveness: a record of an endpoint address and the instant of its last
 * activity. The clock is an explicit `now` parameter.
 */
module Liveness {
  import opened Wrappers
  import opened GeneralUtils

  /** A network endpoint (an InetSocketAddress); equal when host and port are equal. */
  datatype SocketAddress = SocketAddress(host: string, port: nat)

  /** A peer that has been idle longer than five minutes is dead. */
  const INACTIVITY_TIME: Long := 5 * MINUTES

  /**
   * The dead test on a last-activity instant: the deadline, last activity
   * plus INACTIVITY_TIME computed in 64-bit arithmetic, lies before `now`.
   */
  predicate IsDeadAt(lastActivity: Long, now: Long)
  {
    WrapLong(lastActivity + INACTIVITY_TIME) < now
  }

  /** Away from the top of the `long` range, a peer is dead once strictly more than INACTIVITY_TIME has passed. */
  lemma DeadAfterInactivityTime(lastActivity: Long, now: Long)
    requires lastActivity <= LONG_MAX - INACTIVITY_TIME
    ensures IsDeadAt(lastActivity, now) <==> now - lastActivity > INACTIVITY_TIME
  {
  }

  /**
   * Within INACTIVITY_TIME of the largest `long` the deadline wraps to a
   * negative instant, so a record is dead at the very instant of its activity.
   */
  lemma DeadlineWrapsNearLongMax(lastActivity: Long)
    requires lastActivity > LONG_MAX - INACTIVITY_TIME
    ensures IsDeadAt(lastActivity, lastActivity)
  {
    WrapLongAboveMax(lastActivity + INACTIVITY_TIME);
  }

  /** At exactly INACTIVITY_TIME after the last activity a peer is still alive; one millisecond later it is dead. */
  lemma DeadBoundary(lastActivity: Long)
    requires lastActivity + INACTIVITY_TIME + 1 <= LONG_MAX
    ensures INACTIVITY_TIME == 300000
    ensures !IsDeadAt(lastActivity, lastActivity)
    ensures !IsDeadAt(lastActivity, lastActivity + 299999)
    ensures !IsDeadAt(lastActivity, lastActivity + 300000)
    ensures IsDeadAt(lastActivity, lastActivity + 300001)
  {
  }

  /** Once dead, a record stays dead as the clock advances, until its activity is refreshed. */
  lemma DeadStaysDead(lastActivity: Long, now: Long, later: Long)
    requires IsDeadAt(lastActivity, now) && now <= later
    ensures IsDeadAt(lastActivity, later)
  {
  }

  class ClientTimestampContainer {
    /** Address of the peer; None for the empty container. */
    const address: Option<SocketAddress>
    /** Instant of the peer's last activity. */
    var lastActivity: Long

    /** The empty container: no address, last activity at instant 0. */
    constructor Empty()
      ensures address == None && lastActivity == 0
    {
      address := None;
      lastActivity := 0;
    }

    /** A container for `address` created at `now`: it is not dead at that instant. */
    constructor (address: SocketAddress, now: Long)
      ensures this.address == Some(address) && lastActivity == now
      ensures now <= LONG_MAX - INACTIVITY_TIME ==> !IsDead(now)
    {
      this.address := Some(address);
      lastActivity := now;
    }

    /** Records activity at `now`; the address is a constant and does not change. */
    method UpdateActivity(now: Long)
      modifies this
      ensures lastActivity == now
      ensures now <= LONG_MAX - INACTIVITY_TIME ==> !IsDead(now)
      ensures old(lastActivity) <= now ==> old(lastActivity) <= lastActivity
    {
      lastActivity := now;
    }

    function GetAddress(): (a: Option<SocketAddress>)
      ensures a == address
    {
      address
    }

    function GetLastActivity(): (t: Long)
      reads this
      ensures t == lastActivity
    {
      lastActivity
    }

    /** True once the peer has been idle for more than INACTIVITY_TIME at `now`. */
    predicate IsDead(now: Long)
      reads this
    {
      IsDeadAt(lastActivity, now)
    }

    /**
     * Container equality: `another` is a container (not null) with an equal
     * address. The last activity plays no part. The receiver must have an
     * address (the empty container would throw on the comparison).
     */
    function Equals(another: ClientTimestampContainer?): (r: bool)
      requires address.Some?
      ensures r <==> another != null && another.address == address
    {
      another != null && another.address.Some? && address.value == another.address.value
    }
  }

  /** Two containers for one address are equal whatever their activity; the comparison is symmetric. */
  lemma EqualsIgnoresActivity(a: ClientTimestampContainer, b: ClientTimestampContainer)
    requires a.address.Some? && b.address.Some?
    ensures a.Equals(b) <==> a.address == b.address
    ensures a.Equals(b) == b.Equals(a)
  {
  }
}
