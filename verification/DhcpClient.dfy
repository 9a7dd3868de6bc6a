/** The DHCP client of inet/src/applications/dhcp/DHCPClient.cc: its handlers as functions of the client's state,
    and the class that computes them field by field. Every handler draws at most one transaction id; the id drawn
    and the time are parameters. */
module DhcpClientModel {
  import opened Options
  import opened DhcpMessages

  datatype State =
    Idle | Init | InitReboot | Rebooting | Selecting | Requesting | Bound | Renewing | Rebinding

  datatype Wait = WaitOffer | WaitAck

  datatype Timer = StartTimer | ToTimer | T1Timer | T2Timer | LeaseTimer

  datatype ClientLease =
    ClientLease(ip: Addr, mac: Mac, serverId: Addr, leaseTime: real, renewalTime: real, rebindTime: real)

  /** mac is the hardware address the client sends. Timers hold the time they fire at; addr is the address configured on
      the interface, 0 if there is none; socket says whether the socket has its output gate, which it gets when DHCP
      starts and never loses. */
  datatype Client = Client(mac: Mac, up: bool, socket: bool, state: State, xid: nat, lease: Option<ClientLease>,
                           addr: Addr, start: Option<real>, to: Option<real>, toKind: Wait, t1: Option<real>,
                           t2: Option<real>, leaseEnd: Option<real>)

  function Fresh(mac: Mac): Client {
    Client(mac, false, false, Idle, 0, None, 0, None, None, WaitOffer, None, None, None)
  }

  /** What stops the simulation: the errors a client raises itself, a lease that is not there, and sending through a
      socket that has no output gate yet. */
  datatype Error =
    | T2InWrongState | InvalidState | UnknownState | HasAddress | UnexpectedPacket | InterfaceGone
    | NoLease | SocketNotReady

  datatype Outcome = Done(c: Client, sent: Option<Msg>) | Failed(error: Error)

  const RESPONSE_TIMEOUT := 60.0

  function Cancelled(c: Client): Client {
    c.(t1 := None, t2 := None, to := None, leaseEnd := None)
  }

  function Await(c: Client, kind: Wait, now: real): Client {
    c.(to := Some(now + RESPONSE_TIMEOUT), toKind := kind)
  }

  function DiscoverFrom(c: Client, xid: nat): Msg {
    Plain(BootRequest, Discover, xid, c.mac)
  }

  /** RFC 2131, section 4.3.6, table 4. */
  function RequestFrom(c: Client, xid: nat): Msg
    requires c.lease.Some?
  {
    var m := Plain(BootRequest, Request, xid, c.mac);
    var lease := c.lease.value;
    match c.state
    case InitReboot => m.(requestedIp := lease.ip)
    case Requesting => m.(serverId := lease.serverId, requestedIp := lease.ip)
    case _ => m.(ciaddr := lease.ip)
  }

  predicate Requests(s: State) {
    s == InitReboot || s == Requesting || s == Renewing || s == Rebinding
  }

  /** sendRequest */
  function AfterRequest(c: Client, xid: nat): Outcome {
    if !Requests(c.state) then Failed(InvalidState)
    else if c.lease.None? then Failed(NoLease)
    else if !c.socket then Failed(SocketNotReady)
    else Done(c.(xid := xid), Some(RequestFrom(c, xid)))
  }

  /** initClient */
  function AfterInit(c: Client, now: real, xid: nat): Outcome {
    if !c.socket then Failed(SocketNotReady)
    else Done(Await(Cancelled(c), WaitOffer, now).(xid := xid, state := Selecting), Some(DiscoverFrom(c, xid)))
  }

  /** Waits for an ACK, then goes on in another state; what sendRequest sent stays sent. */
  function Then(o: Outcome, kind: Wait, now: real, state: State): Outcome {
    match o
    case Done(c, sent) => Done(Await(c, kind, now).(state := state), sent)
    case Failed(_) => o
  }

  /** initRebootedClient */
  function AfterReboot(c: Client, now: real, xid: nat): Outcome {
    Then(AfterRequest(c, xid), WaitAck, now, Rebooting)
  }

  /** recordOffer */
  function RecordOffer(c: Client, m: Msg): Client {
    if m.yiaddr == 0 then c else c.(lease := Some(ClientLease(m.yiaddr, c.mac, m.serverId, 0.0, 0.0, 0.0)))
  }

  /** recordLease; the address in the ACK is not compared with the one in the lease. */
  function RecordLease(lease: ClientLease, m: Msg): ClientLease {
    if m.yiaddr == 0 then lease
    else lease.(leaseTime := m.leaseTime, renewalTime := m.renewalTime, rebindTime := m.rebindTime)
  }

  /** unboundLease; the lease itself is kept. */
  function Unbound(c: Client): Client {
    Cancelled(c).(addr := 0)
  }

  /** handleDHCPACK with scheduleTimerT1, scheduleTimerT2 and bindLease, and the move to BOUND. */
  function HandleAck(c: Client, m: Msg, now: real): Outcome {
    if c.lease.None? then Failed(NoLease)
    else
      var lease := RecordLease(c.lease.value, m);
      Done(c.(lease := Some(lease), to := None, t1 := Some(now + lease.renewalTime), t2 := Some(now + lease.rebindTime),
              leaseEnd := Some(now + lease.leaseTime), addr := lease.ip, state := Bound), None)
  }

  function TimerOf(c: Client, timer: Timer): Option<real> {
    match timer
    case StartTimer => c.start
    case ToTimer => c.to
    case T1Timer => c.t1
    case T2Timer => c.t2
    case LeaseTimer => c.leaseEnd
  }

  /** A timer that has fired is no longer scheduled. */
  function Fired(c: Client, timer: Timer): Client {
    match timer
    case StartTimer => c.(start := None)
    case ToTimer => c.(to := None)
    case T1Timer => c.(t1 := None)
    case T2Timer => c.(t2 := None)
    case LeaseTimer => c.(leaseEnd := None)
  }

  /** handleTimer */
  function OnTimer(c0: Client, timer: Timer, now: real, xid: nat): Outcome {
    var c := Fired(c0, timer);
    match timer
    case StartTimer =>
      if c.lease.Some? then AfterReboot(c.(socket := true, state := InitReboot), now, xid)
      else AfterInit(c.(socket := true, state := Init), now, xid)
    case ToTimer => AfterInit(c, now, xid)
    case T1Timer => AfterRequest(Await(c.(state := Renewing), WaitAck, now), xid)
    case T2Timer =>
      if c.state == Renewing then Then(AfterRequest(Cancelled(c.(state := Rebinding)), xid), WaitAck, now, Rebinding)
      else Failed(T2InWrongState)
    case LeaseTimer => AfterInit(Unbound(c).(state := Init), now, xid)
  }

  /** The states in which an ACK or a NAK is acted upon. */
  predicate AwaitsAck(s: State) {
    s == Requesting || s == Renewing || s == Rebinding || s == Rebooting
  }

  /** handleDHCPMessage */
  function OnMessage(c: Client, m: Msg, now: real, xid: nat): Outcome {
    if m.op != BootReply || m.xid != c.xid then Done(c, None)
    else if c.state == Idle || c.state == InitReboot then Failed(UnknownState)
    else if c.state == Selecting && m.kind == Offer then
      AfterRequest(RecordOffer(Await(c, WaitAck, now).(state := Requesting), m), xid)
    else if AwaitsAck(c.state) && m.kind == Ack then HandleAck(c, m, now)
    else if AwaitsAck(c.state) && m.kind == Nak then
      AfterInit(if c.state == Renewing || c.state == Rebinding then Unbound(c) else c, now, xid)
    else Done(c, None)
  }

  /** startApp, when the node comes up; startTime is the configured time of the first start. */
  function OnStart(c: Client, startTime: real, now: real): Outcome {
    if c.addr != 0 then Failed(HasAddress)
    else Done(c.(start := Some(if startTime < now then now else startTime), up := true), None)
  }

  /** stopApp, when the node goes down or crashes. */
  function Stopped(c: Client): Client {
    Cancelled(c).(start := None, up := false)
  }

  /** initialize, at time 0, on an interface that has no address: only on a node that is up does the client read the
      hardware address of its interface; else it keeps the unspecified one for good. */
  function Initialized(hardware: Mac, nodeUp: bool, startTime: real): Client {
    if nodeUp then OnStart(Fresh(hardware), startTime, 0.0).c else Fresh(0)
  }

  /** While its node is down, a client ignores whatever reaches it. */
  function WhileUp(c: Client, o: Outcome): Outcome {
    if c.up then o else Done(c, None)
  }

  /** What can be handed to the module: one of its timers, a DHCP message, or any other packet, such as the indication
      of an ICMP error. */
  datatype Arrival = SelfMessage(timer: Timer) | Packet(m: Msg) | OtherPacket

  /** handleMessage */
  function OnArrival(c: Client, a: Arrival, now: real, xid: nat): Outcome {
    WhileUp(c,
      match a
      case SelfMessage(timer) => OnTimer(c, timer, now, xid)
      case Packet(m) => OnMessage(c, m, now, xid)
      case OtherPacket => Failed(UnexpectedPacket))
  }

  /** own says whether the associated interface is the client's; while its node is down it has none. */
  datatype Notice = LinkAssociated(own: bool) | InterfaceDeleted

  /** receiveChangeNotification */
  function OnNotice(c: Client, n: Notice, now: real, xid: nat): Outcome {
    WhileUp(c,
      match n
      case LinkAssociated(own) => if own then AfterInit(c, now, xid) else Done(c, None)
      case InterfaceDeleted => Failed(InterfaceGone))
  }

  /** What a handler of the class reports: the message sent, or what stopped the simulation. */
  datatype Report = Sent(m: Option<Msg>) | Stop(error: Error)

  ghost predicate Agrees(c: Client, r: Report, o: Outcome) {
    match o
    case Done(c', sent) => c == c' && r == Sent(sent)
    case Failed(e) => r == Stop(e)
  }

  class DhcpClient {
    const mac: Mac
    var up: bool
    var socket: bool
    var state: State
    var xid: nat
    var lease: Option<ClientLease>
    var addr: Addr
    var start: Option<real>
    var to: Option<real>
    var toKind: Wait
    var t1: Option<real>
    var t2: Option<real>
    var leaseEnd: Option<real>

    ghost function View(): Client
      reads this
    {
      Client(mac, up, socket, state, xid, lease, addr, start, to, toKind, t1, t2, leaseEnd)
    }

    constructor (hardware: Mac, nodeUp: bool, startTime: real)
      ensures View() == Initialized(hardware, nodeUp, startTime)
    {
      mac := 0;
      up, socket, state, xid, lease, addr := nodeUp, false, Idle, 0, None, 0;
      start, to, toKind, t1, t2, leaseEnd := None, None, WaitOffer, None, None, None;
      if nodeUp {
        mac := hardware;
        start := Some(if startTime < 0.0 then 0.0 else startTime);
      }
    }

    method CancelTimers()
      modifies this
      ensures View() == Cancelled(old(View()))
    {
      t1, t2, to, leaseEnd := None, None, None, None;
    }

    /** scheduleTimerTO */
    method ScheduleTimerTO(kind: Wait, now: real)
      modifies this
      ensures View() == Await(old(View()), kind, now)
    {
      to := None;
      toKind := kind;
      to := Some(now + RESPONSE_TIMEOUT);
    }

    method SendRequest(nextXid: nat) returns (r: Report)
      modifies this
      ensures Agrees(View(), r, AfterRequest(old(View()), nextXid))
    {
      xid := nextXid;
      var m := Plain(BootRequest, Request, xid, mac);
      if !Requests(state) {
        return Stop(InvalidState);
      }
      if lease.None? {
        return Stop(NoLease);
      }
      if !socket {
        return Stop(SocketNotReady);
      }
      if state == InitReboot {
        m := m.(requestedIp := lease.value.ip);
      } else if state == Requesting {
        m := m.(serverId := lease.value.serverId, requestedIp := lease.value.ip);
      } else {
        m := m.(ciaddr := lease.value.ip);
      }
      r := Sent(Some(m));
    }

    method InitClient(now: real, nextXid: nat) returns (r: Report)
      modifies this
      ensures Agrees(View(), r, AfterInit(old(View()), now, nextXid))
    {
      CancelTimers();
      xid := nextXid;
      if !socket {
        return Stop(SocketNotReady);
      }
      r := Sent(Some(Plain(BootRequest, Discover, xid, mac)));
      ScheduleTimerTO(WaitOffer, now);
      state := Selecting;
    }

    method InitRebootedClient(now: real, nextXid: nat) returns (r: Report)
      modifies this
      ensures Agrees(View(), r, AfterReboot(old(View()), now, nextXid))
    {
      r := SendRequest(nextXid);
      if r.Sent? {
        ScheduleTimerTO(WaitAck, now);
        state := Rebooting;
      }
    }

    method UnboundLease()
      modifies this
      ensures View() == Unbound(old(View()))
    {
      CancelTimers();
      addr := 0;
    }

    method HandleDHCPACK(m: Msg, now: real) returns (r: Report)
      modifies this
      ensures Agrees(View(), r, HandleAck(old(View()), m, now))
    {
      if lease.None? {
        return Stop(NoLease);
      }
      if m.yiaddr != 0 {
        lease := Some(lease.value.(leaseTime := m.leaseTime, renewalTime := m.renewalTime, rebindTime := m.rebindTime));
      }
      to := None;
      t1 := Some(now + lease.value.renewalTime);
      t2 := Some(now + lease.value.rebindTime);
      addr := lease.value.ip;
      leaseEnd := Some(now + lease.value.leaseTime);
      state := Bound;
      r := Sent(None);
    }

    method HandleTimer(timer: Timer, now: real, nextXid: nat) returns (r: Report)
      modifies this
      ensures Agrees(View(), r, OnTimer(old(View()), timer, now, nextXid))
    {
      hide AfterInit, AfterReboot, RequestFrom;
      match timer {
        case StartTimer =>
          start := None;
          socket := true;   // openSocket
          if lease.Some? {
            state := InitReboot;
            r := InitRebootedClient(now, nextXid);
          } else {
            state := Init;
            r := InitClient(now, nextXid);
          }
        case ToTimer =>
          to := None;
          r := InitClient(now, nextXid);
        case T1Timer =>
          t1 := None;
          state := Renewing;
          ScheduleTimerTO(WaitAck, now);
          r := SendRequest(nextXid);
        case T2Timer =>
          t2 := None;
          if state == Renewing {
            state := Rebinding;
            CancelTimers();
            r := SendRequest(nextXid);
            if r.Sent? {
              ScheduleTimerTO(WaitAck, now);
            }
          } else {
            r := Stop(T2InWrongState);
          }
        case LeaseTimer =>
          leaseEnd := None;
          UnboundLease();
          state := Init;
          r := InitClient(now, nextXid);
      }
    }

    method HandleDHCPMessage(m: Msg, now: real, nextXid: nat) returns (r: Report)
      modifies this
      ensures Agrees(View(), r, OnMessage(old(View()), m, now, nextXid))
    {
      hide AfterRequest, AfterInit, HandleAck;
      r := Sent(None);
      if m.op != BootReply {
        return;
      }
      if m.xid != xid {
        return;
      }
      match state {
        case Init =>
        case Selecting =>
          if m.kind == Offer {
            ScheduleTimerTO(WaitAck, now);
            state := Requesting;
            if m.yiaddr != 0 {
              lease := Some(ClientLease(m.yiaddr, mac, m.serverId, 0.0, 0.0, 0.0));
            }
            r := SendRequest(nextXid);
          }
        case Requesting =>
          if m.kind == Ack {
            r := HandleDHCPACK(m, now);
          } else if m.kind == Nak {
            r := InitClient(now, nextXid);
          }
        case Bound =>
        case Renewing =>
          if m.kind == Ack {
            r := HandleDHCPACK(m, now);
          } else if m.kind == Nak {
            UnboundLease();
            r := InitClient(now, nextXid);
          }
        case Rebinding =>
          if m.kind == Nak {
            UnboundLease();
            r := InitClient(now, nextXid);
          } else if m.kind == Ack {
            r := HandleDHCPACK(m, now);
          }
        case Rebooting =>
          if m.kind == Ack {
            r := HandleDHCPACK(m, now);
          } else if m.kind == Nak {
            r := InitClient(now, nextXid);
          }
        case _ =>
          r := Stop(UnknownState);
      }
    }

    method HandleMessage(a: Arrival, now: real, nextXid: nat) returns (r: Report)
      modifies this
      ensures Agrees(View(), r, OnArrival(old(View()), a, now, nextXid))
    {
      hide OnTimer, OnMessage;
      if !up {
        return Sent(None);
      }
      match a {
        case SelfMessage(timer) => r := HandleTimer(timer, now, nextXid);
        case Packet(m) => r := HandleDHCPMessage(m, now, nextXid);
        case OtherPacket => r := Stop(UnexpectedPacket);
      }
    }

    method ReceiveChangeNotification(n: Notice, now: real, nextXid: nat) returns (r: Report)
      modifies this
      ensures Agrees(View(), r, OnNotice(old(View()), n, now, nextXid))
    {
      hide AfterInit;
      r := Sent(None);
      match n {
        case LinkAssociated(own) =>
          if up && own {
            r := InitClient(now, nextXid);
          }
        case InterfaceDeleted =>
          if up {
            r := Stop(InterfaceGone);
          }
      }
    }

    method StartApp(startTime: real, now: real) returns (r: Report)
      modifies this
      ensures Agrees(View(), r, OnStart(old(View()), startTime, now))
    {
      if addr != 0 {
        return Stop(HasAddress);
      }
      start := Some(if startTime < now then now else startTime);
      up := true;
      r := Sent(None);
    }

    method StopApp()
      modifies this
      ensures View() == Stopped(old(View()))
    {
      CancelTimers();
      start := None;
      up := false;
    }
  }
}
