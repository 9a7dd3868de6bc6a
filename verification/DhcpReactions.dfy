/** What the DHCP client does on each of its timers and on every message: the message it sends, field by field, and the
    state and timers it is left with. */
module DhcpReactions {
  import opened Options
  import opened DhcpMessages
  import opened DhcpClientModel

  /** A DISCOVER asks for nothing in particular. */
  function DiscoverBy(c: Client, xid: nat): Msg {
    Msg(BootRequest, Discover, xid, c.mac, 0, 0, 0, 0, 0.0, 0.0, 0.0)
  }

  /** The fields of a REQUEST that RFC 2131, section 4.3.6, table 4, is about. */
  function RequestBy(c: Client, xid: nat, ciaddr: Addr, requestedIp: Addr, serverId: Addr): Msg {
    Msg(BootRequest, Request, xid, c.mac, ciaddr, 0, requestedIp, serverId, 0.0, 0.0, 0.0)
  }

  /** Waiting for offers: no timer is pending but the timeout after a minute. */
  function Searching(c: Client, now: real, xid: nat): Client {
    c.(state := Selecting, xid := xid, t1 := None, t2 := None, leaseEnd := None, to := Some(now + 60.0),
       toKind := WaitOffer)
  }

  /** Waiting for an ACK in a state, for a minute. */
  function Asking(c: Client, state: State, now: real, xid: nat): Client {
    c.(state := state, xid := xid, to := Some(now + 60.0), toKind := WaitAck)
  }

  // ---------- Timers ----------

  /** A client that starts with a lease asks for its address again as the requested one; without a lease it searches. */
  lemma StartSends(c: Client, now: real, xid: nat)
    ensures var d := c.(start := None, socket := true);
            OnTimer(c, StartTimer, now, xid)
            == if c.lease.Some? then
                 Done(Asking(d, Rebooting, now, xid), Some(RequestBy(c, xid, 0, c.lease.value.ip, 0)))
               else Done(Searching(d, now, xid), Some(DiscoverBy(c, xid)))
  {
  }

  /** A client that renews or rebinds its lease asks with its address as its own, and names neither a requested one nor
      a server; T2 ends the timers of the lease. */
  lemma RenewalSends(c: Client, now: real, xid: nat)
    requires c.socket && c.lease.Some?
    ensures OnTimer(c, T1Timer, now, xid)
            == Done(Asking(c.(t1 := None), Renewing, now, xid), Some(RequestBy(c, xid, c.lease.value.ip, 0, 0)))
    ensures OnTimer(c, T2Timer, now, xid)
            == if c.state == Renewing then
                 Done(Asking(c.(t1 := None, t2 := None, leaseEnd := None), Rebinding, now, xid),
                      Some(RequestBy(c, xid, c.lease.value.ip, 0, 0)))
               else Failed(T2InWrongState)
  {
  }

  /** A timeout and the lease's end start the search anew, the second without the address. */
  lemma TimeoutSearches(c: Client, now: real, xid: nat)
    requires c.socket
    ensures OnTimer(c, ToTimer, now, xid) == Done(Searching(c, now, xid), Some(DiscoverBy(c, xid)))
    ensures OnTimer(c, LeaseTimer, now, xid)
            == Done(Searching(c.(addr := 0), now, xid), Some(DiscoverBy(c, xid)))
  {
  }

  // ---------- Messages ----------

  predicate IsFor(c: Client, m: Msg) {
    m.op == BootReply && m.xid == c.xid
  }

  /** An offer that is awaited is accepted: the client asks its server for its address. An offer of no address makes it
      ask for the address it had before, if any. */
  lemma OfferIsTaken(c: Client, m: Msg, now: real, xid: nat)
    requires IsFor(c, m) && c.state == Selecting && m.kind == Offer && c.socket
    ensures m.yiaddr != 0 ==>
              OnMessage(c, m, now, xid)
              == Done(Asking(c.(lease := Some(ClientLease(m.yiaddr, c.mac, m.serverId, 0.0, 0.0, 0.0))),
                             Requesting, now, xid),
                      Some(RequestBy(c, xid, 0, m.yiaddr, m.serverId)))
    ensures m.yiaddr == 0 ==>
              OnMessage(c, m, now, xid)
              == if c.lease.None? then Failed(NoLease)
                 else Done(Asking(c, Requesting, now, xid),
                           Some(RequestBy(c, xid, 0, c.lease.value.ip, c.lease.value.serverId)))
  {
  }

  /** The lease with the times that an ACK gives it, if it confirms an address. */
  function Timed(lease: ClientLease, m: Msg): ClientLease {
    if m.yiaddr == 0 then lease
    else ClientLease(lease.ip, lease.mac, lease.serverId, m.leaseTime, m.renewalTime, m.rebindTime)
  }

  /** An ACK that is awaited binds the client to the address of its lease, with the times of the ACK. */
  lemma AckBinds(c: Client, m: Msg, now: real, xid: nat)
    requires IsFor(c, m) && m.kind == Ack && c.state in {Requesting, Renewing, Rebinding, Rebooting}
    ensures OnMessage(c, m, now, xid)
            == if c.lease.None? then Failed(NoLease)
               else
                 var l := Timed(c.lease.value, m);
                 Done(c.(state := Bound, addr := l.ip, to := None, t1 := Some(now + l.renewalTime),
                         t2 := Some(now + l.rebindTime), leaseEnd := Some(now + l.leaseTime), lease := Some(l)),
                      None)
  {
  }

  /** A NAK that is awaited starts the search anew, without the address if the lease was to be extended. */
  lemma NakSearches(c: Client, m: Msg, now: real, xid: nat)
    requires IsFor(c, m) && m.kind == Nak && c.socket
    requires c.state in {Requesting, Renewing, Rebinding, Rebooting}
    ensures var addr := if c.state == Renewing || c.state == Rebinding then 0 else c.addr;
            OnMessage(c, m, now, xid) == Done(Searching(c.(addr := addr), now, xid), Some(DiscoverBy(c, xid)))
  {
  }

  /** Whether a message is one that the client waits for. */
  predicate Awaited(c: Client, m: Msg) {
    IsFor(c, m) && if m.kind == Offer then c.state == Selecting
                   else (m.kind == Ack || m.kind == Nak) && c.state in {Requesting, Renewing, Rebinding, Rebooting}
  }

  /** Any other message changes nothing, unless it comes in a state without messages. */
  lemma OthersAreDropped(c: Client, m: Msg, now: real, xid: nat)
    requires !Awaited(c, m)
    ensures OnMessage(c, m, now, xid)
            == if IsFor(c, m) && c.state in {Idle, InitReboot} then Failed(UnknownState) else Done(c, None)
  {
  }

  // ---------- The node and its interface ----------

  /** A node that comes up starts its client at the first moment that is neither past nor before the configured one;
      that the interface has an address is an error. */
  lemma StartIsScheduled(c: Client, startTime: real, now: real)
    ensures var o := OnStart(c, startTime, now);
            if c.addr != 0 then o == Failed(HasAddress)
            else
              && o.Done? && o.sent.None? && o.c.start.Some? && o.c == c.(up := true, start := o.c.start)
              && now <= o.c.start.value && startTime <= o.c.start.value && o.c.start.value in {now, startTime}
  {
  }

  /** A node that is down leaves the client without a timer, and nothing changes until it comes up: timers, messages and
      changes of the interface are ignored. */
  lemma DownIsSilent(c: Client, a: Arrival, n: Notice, now: real, xid: nat)
    ensures var d := c.(up := false, start := None, to := None, t1 := None, t2 := None, leaseEnd := None);
            && Stopped(c) == d
            && OnArrival(d, a, now, xid) == OnNotice(d, n, now, xid) == Done(d, None)
  {
  }

  /** While the node is up, an association of its own interface starts the search anew, another's is ignored, and the
      removal of the interface is an error. */
  lemma ChangesAreNoticed(c: Client, now: real, xid: nat)
    requires c.up && c.socket
    ensures OnNotice(c, LinkAssociated(true), now, xid) == Done(Searching(c, now, xid), Some(DiscoverBy(c, xid)))
    ensures OnNotice(c, LinkAssociated(false), now, xid) == Done(c, None)
    ensures OnNotice(c, InterfaceDeleted, now, xid) == Failed(InterfaceGone)
  {
  }
}
