/** One DHCP server that stays up, any number of clients and a network that loses, duplicates and reorders messages.
    Every handler of either side is a step; time plays no part: a pending timer may fire whenever it likes. */
module DhcpSystem {
  import opened Options
  import opened DhcpMessages
  import opened DhcpServerModel
  import opened DhcpClientModel

  /** A client goes by the hardware address of its interface, which need not be the one it sends. net holds everything
      ever sent, so that any message may arrive late, again or never; owner says under which hardware address a
      transaction id was drawn. */
  datatype Sys = Sys(table: LeaseTable, clients: map<Mac, Client>, net: set<Msg>, owner: map<nat, Mac>)

  datatype Event =
    | AtServer(m: Msg, now: real)
    | AtClient(id: Mac, m: Msg, now: real, xid: nat)
    | Strayed(id: Mac)
    | Timeout(id: Mac, timer: Timer, now: real, xid: nat)
    | Associated(id: Mac, now: real, xid: nat)
    | Deleted(id: Mac)
    | Started(id: Mac, startTime: real, now: real)
    | Halted(id: Mac)
    | Deconfigured(id: Mac)

  /** The server has an address, and 0 is not in its pool. */
  predicate Sane(cfg: Config) {
    cfg.serverIp != 0 && forall i | 0 <= i < cfg.maxClients :: PoolAddress(cfg, i) != 0
  }

  /** A client that has just been initialized, on a node that is up or down; a start that is pending may as well have
      been the configured one. */
  predicate Untouched(id: Mac, c: Client) {
    c == Initialized(id, c.up, if c.start.Some? then c.start.value else 0.0)
  }

  lemma InitializedIsUntouched(id: Mac, up: bool, startTime: real)
    ensures Untouched(id, Initialized(id, up, startTime))
  {
  }

  /** Hardware addresses are not 0, and every client has just been initialized. */
  predicate Initial(s: Sys) {
    && s.table == map[] && s.net == {} && s.owner == map[]
    && forall id | id in s.clients :: id != 0 && Untouched(id, s.clients[id])
  }

  function Sending(net: set<Msg>, m: Option<Msg>): set<Msg> {
    if m.None? then net else net + {m.value}
  }

  /** The handler of a client that an event runs, if the event can happen now. */
  function Handler(s: Sys, e: Event): Option<Outcome>
    requires !e.AtServer? && e.id in s.clients
  {
    var c := s.clients[e.id];
    match e
    case AtClient(_, m, now, xid) => if m in s.net then Some(WhileUp(c, OnMessage(c, m, now, xid))) else None
    case Strayed(_) => Some(WhileUp(c, Failed(UnexpectedPacket)))
    case Timeout(_, timer, now, xid) =>
      if c.up && TimerOf(c, timer).Some? then Some(OnTimer(c, timer, now, xid)) else None
    case Associated(_, now, xid) => Some(WhileUp(c, AfterInit(c, now, xid)))
    case Deleted(_) => Some(WhileUp(c, Failed(InterfaceGone)))
    case Started(_, startTime, now) => if c.up then None else Some(OnStart(c, startTime, now))
    case Halted(_) => if c.up then Some(Done(Stopped(c), None)) else None
    case Deconfigured(_) => if c.up then None else Some(Done(c.(addr := 0), None))
  }

  /** Transaction ids are drawn fresh and are not 0. */
  function Drawn(s: Sys, e: Event): map<nat, Mac>
    requires !e.AtServer? && e.id in s.clients
  {
    if e.AtClient? || e.Timeout? || e.Associated? then s.owner[e.xid := s.clients[e.id].mac] else s.owner
  }

  predicate DrawsFresh(s: Sys, e: Event) {
    e.AtClient? || e.Timeout? || e.Associated? ==> e.xid != 0 && e.xid !in s.owner
  }

  ghost predicate ServerStep(cfg: Config, s: Sys, m: Msg, now: real, s': Sys) {
    && m in s.net
    && var r := React(cfg, s.table, m, now);
       s' == s.(table := r.table, net := Sending(s.net, r.reply))
  }

  predicate ClientStep(s: Sys, e: Event, s': Sys)
    requires !e.AtServer?
  {
    && e.id in s.clients && DrawsFresh(s, e)
    && var h := Handler(s, e);
       && h.Some? && h.value.Done?
       && s' == s.(clients := s.clients[e.id := h.value.c], net := Sending(s.net, h.value.sent), owner := Drawn(s, e))
  }

  ghost predicate Step(cfg: Config, s: Sys, e: Event, s': Sys) {
    if e.AtServer? then ServerStep(cfg, s, e.m, e.now, s') else ClientStep(s, e, s')
  }

  /** ss[i] is the state after the first i events. */
  ghost predicate Run(cfg: Config, ss: seq<Sys>, es: seq<Event>) {
    |ss| == |es| + 1 && Initial(ss[0]) && forall i | 0 <= i < |es| :: Step(cfg, ss[i], es[i], ss[i + 1])
  }

  // ---------- The invariant ----------

  predicate Holds(table: LeaseTable, ip: Addr, mac: Mac) {
    ip in table && table[ip].mac == mac && ip != 0
  }

  ghost predicate TableOk(table: LeaseTable) {
    && (forall ip | ip in table :: table[ip].ip == ip && ip != 0 && table[ip].leased)
    && (forall a, b | a in table && b in table && table[a].mac == table[b].mac :: a == b)
  }

  predicate RequestOk(cfg: Config, table: LeaseTable, m: Msg) {
    || (m.kind == Discover && m.requestedIp == 0)
    || (m.kind == Request && m.serverId == cfg.serverIp && Holds(table, m.requestedIp, m.chaddr))
    || (m.kind == Request && m.serverId == 0 && m.ciaddr == 0 && Holds(table, m.requestedIp, m.chaddr))
    || (m.kind == Request && m.serverId == 0 && Holds(table, m.ciaddr, m.chaddr))
  }

  predicate ReplyOk(cfg: Config, table: LeaseTable, m: Msg) {
    (m.kind == Offer || m.kind == Ack) && m.serverId == cfg.serverIp && Holds(table, m.yiaddr, m.chaddr)
  }

  predicate MsgOk(cfg: Config, table: LeaseTable, owner: map<nat, Mac>, m: Msg) {
    && m.xid in owner && owner[m.xid] == m.chaddr
    && (if m.op == BootRequest then RequestOk(cfg, table, m) else ReplyOk(cfg, table, m))
  }

  /** The states in which a client works on a lease it has. */
  predicate HasLease(c: Client) {
    AwaitsAck(c.state) || c.state == Bound || c.t1.Some? || c.t2.Some? || c.leaseEnd.Some? || c.addr != 0
  }

  predicate LeaseOk(cfg: Config, table: LeaseTable, mac: Mac, lease: Option<ClientLease>) {
    lease.Some? ==> Holds(table, lease.value.ip, mac) && lease.value.serverId == cfg.serverIp
  }

  predicate ClientOk(cfg: Config, table: LeaseTable, owner: map<nat, Mac>, c: Client) {
    && (c.xid == 0 || (c.xid in owner && owner[c.xid] == c.mac))
    && (c.state == Idle ==> c.xid == 0) && c.state != InitReboot
    && (!c.socket ==> c.state == Idle && c.lease.None? && c.to.None?)
    && (HasLease(c) ==> c.lease.Some?)
    && LeaseOk(cfg, table, c.mac, c.lease)
    && (c.addr != 0 ==> c.addr == c.lease.value.ip)
  }

  ghost predicate Inv(cfg: Config, s: Sys) {
    && TableOk(s.table)
    && 0 !in s.owner
    && (forall m | m in s.net :: MsgOk(cfg, s.table, s.owner, m))
    && (forall id | id in s.clients :: ClientOk(cfg, s.table, s.owner, s.clients[id]))
  }

  /** No entry loses its client. */
  predicate Keeps(table: LeaseTable, table': LeaseTable) {
    forall ip | ip in table :: ip in table' && table'[ip].mac == table[ip].mac
  }

  // ---------- The server's part ----------

  lemma {:induction false} FreshFromPool(cfg: Config, table: LeaseTable, i: nat)
    requires Sane(cfg) && TableOk(table)
    ensures var a := FromPool(cfg, table, i);
            if a.ip.None? then a.table == table && forall k | i <= k < cfg.maxClients :: PoolAddress(cfg, k) in table
            else a.ip.value !in table && a.ip.value != 0 && a.table == table[a.ip.value := NewLease(a.ip.value)]
                 && exists k :: i <= k < cfg.maxClients && a.ip.value == PoolAddress(cfg, k)
    decreases cfg.maxClients - i
  {
    if i < cfg.maxClients {
      FreshFromPool(cfg, table, i + 1);
    }
  }

  /** A DISCOVER without a requested address is answered with the client's own address, the one it has in the
      table or an unused one. */
  lemma DiscoverReaction(cfg: Config, table: LeaseTable, m: Msg, now: real)
    requires Sane(cfg) && TableOk(table) && m.requestedIp == 0
    ensures var r := OnDiscover(cfg, table, m, now);
            && TableOk(r.table) && Keeps(table, r.table)
            && (r.reply.Some? ==> ReplyOk(cfg, r.table, r.reply.value) && r.reply.value.xid == m.xid
                                  && r.reply.value.chaddr == m.chaddr && r.reply.value.op == BootReply)
  {
    FreshFromPool(cfg, table, 0);
  }

  /** A REQUEST for the address the client has in the table is acknowledged, whatever of its three forms it takes. */
  lemma RequestReaction(cfg: Config, table: LeaseTable, m: Msg, now: real)
    requires Sane(cfg) && TableOk(table) && m.kind == Request && RequestOk(cfg, table, m)
    ensures var r := OnRequest(cfg, table, m, now);
            && TableOk(r.table) && Keeps(table, r.table)
            && r.reply.Some? && r.reply.value.kind == Ack && r.reply.value.op == BootReply
            && ReplyOk(cfg, r.table, r.reply.value)
            && r.reply.value.xid == m.xid && r.reply.value.chaddr == m.chaddr
  {
  }

  lemma StillHolds(table: LeaseTable, table': LeaseTable, ip: Addr, mac: Mac)
    requires Keeps(table, table') && Holds(table, ip, mac)
    ensures Holds(table', ip, mac)
  {
  }

  lemma MsgStays(cfg: Config, table: LeaseTable, table': LeaseTable, owner: map<nat, Mac>, owner': map<nat, Mac>,
                 m: Msg)
    requires MsgOk(cfg, table, owner, m) && Keeps(table, table')
    requires forall x | x in owner :: x in owner' && owner'[x] == owner[x]
    ensures MsgOk(cfg, table', owner', m)
  {
  }

  lemma ClientStays(cfg: Config, table: LeaseTable, table': LeaseTable, owner: map<nat, Mac>, owner': map<nat, Mac>,
                    c: Client)
    requires ClientOk(cfg, table, owner, c) && Keeps(table, table')
    requires forall x | x in owner :: x in owner' && owner'[x] == owner[x]
    ensures ClientOk(cfg, table', owner', c)
  {
  }

  lemma KeepsItself(table: LeaseTable)
    ensures Keeps(table, table)
  {
  }

  /** What React does with a message of the network. */
  lemma ServerReaction(cfg: Config, table: LeaseTable, owner: map<nat, Mac>, m: Msg, now: real)
    requires Sane(cfg) && TableOk(table) && MsgOk(cfg, table, owner, m)
    ensures var r := React(cfg, table, m, now);
            && TableOk(r.table) && Keeps(table, r.table)
            && (r.reply.Some? ==> MsgOk(cfg, r.table, owner, r.reply.value))
  {
    hide OnDiscover, OnRequest, TableOk, Keeps;
    KeepsItself(table);
    if m.op == BootRequest && m.kind == Discover {
      DiscoverReaction(cfg, table, m, now);
    } else if m.op == BootRequest && m.kind == Request {
      RequestReaction(cfg, table, m, now);
    }
  }

  lemma ServerKeepsInv(cfg: Config, s: Sys, m: Msg, now: real, s': Sys)
    requires Sane(cfg) && Inv(cfg, s) && ServerStep(cfg, s, m, now, s')
    ensures Inv(cfg, s')
  {
    hide React, TableOk, MsgOk, ClientOk, Keeps;
    ServerReaction(cfg, s.table, s.owner, m, now);
    forall x | x in s.net
      ensures MsgOk(cfg, s'.table, s'.owner, x)
    {
      MsgStays(cfg, s.table, s'.table, s.owner, s'.owner, x);
    }
    forall id | id in s.clients
      ensures ClientOk(cfg, s'.table, s'.owner, s.clients[id])
    {
      ClientStays(cfg, s.table, s'.table, s.owner, s'.owner, s.clients[id]);
    }
  }

  // ---------- The clients' part ----------

  /** A handler that ends well leaves the client and its message as they should be; one that fails has a reason. */
  ghost predicate OutcomeOk(cfg: Config, table: LeaseTable, owner: map<nat, Mac>, mac: Mac, o: Outcome,
                            failure: Option<Error>)
  {
    match o
    case Done(c, sent) =>
      && failure.None? && c.mac == mac && ClientOk(cfg, table, owner, c)
      && (sent.Some? ==> MsgOk(cfg, table, owner, sent.value))
    case Failed(e) => failure == Some(e)
  }

  /** Of the timers only T2 can fail a client. */
  function TimerFailure(c: Client, timer: Timer): Option<Error> {
    if timer == T2Timer && c.state != Renewing then Some(T2InWrongState) else None
  }

  /** The reason for which the handler of an event fails, if it does. */
  function Failure(c: Client, e: Event): Option<Error> {
    match e
    case Timeout(_, timer, _, _) => TimerFailure(c, timer)
    case Strayed(_) => if c.up then Some(UnexpectedPacket) else None
    case Associated(_, _, _) => if c.up && !c.socket then Some(SocketNotReady) else None
    case Deleted(_) => if c.up then Some(InterfaceGone) else None
    case Started(_, _, _) => if c.addr == 0 then None else Some(HasAddress)
    case _ => None
  }

  lemma RequestIsOk(cfg: Config, table: LeaseTable, owner: map<nat, Mac>, c: Client, xid: nat)
    requires LeaseOk(cfg, table, c.mac, c.lease) && c.lease.Some? && xid in owner && owner[xid] == c.mac
    ensures MsgOk(cfg, table, owner, RequestFrom(c, xid))
  {
  }

  lemma InitIsOk(cfg: Config, table: LeaseTable, owner: map<nat, Mac>, c: Client, now: real, xid: nat)
    requires LeaseOk(cfg, table, c.mac, c.lease) && xid in owner && owner[xid] == c.mac && c.socket
    requires c.addr != 0 ==> c.lease.Some? && c.addr == c.lease.value.ip
    ensures OutcomeOk(cfg, table, owner, c.mac, AfterInit(c, now, xid), None)
  {
    hide LeaseOk;
  }

  lemma TimerOutcome(cfg: Config, table: LeaseTable, owner: map<nat, Mac>, c: Client, timer: Timer, now: real, xid: nat)
    requires ClientOk(cfg, table, owner, c) && xid in owner && owner[xid] == c.mac
    requires TimerOf(c, timer).Some?
    ensures OutcomeOk(cfg, table, owner, c.mac, OnTimer(c, timer, now, xid), TimerFailure(c, timer))
  {
    hide LeaseOk, MsgOk, AfterInit;
    var f := Fired(c, timer);
    var started := f.(socket := true);
    InitIsOk(cfg, table, owner, started.(state := Init), now, xid);
    if c.socket {
      InitIsOk(cfg, table, owner, f, now, xid);
      InitIsOk(cfg, table, owner, Unbound(f).(state := Init), now, xid);
    }
    if c.lease.Some? {
      RequestIsOk(cfg, table, owner, started.(state := InitReboot), xid);
      RequestIsOk(cfg, table, owner, Await(f.(state := Renewing), WaitAck, now), xid);
      RequestIsOk(cfg, table, owner, Cancelled(f.(state := Rebinding)), xid);
    }
  }

  /** The address in a reply to this client is the one it has, so that taking over the offer or the ACK of an old
      exchange changes nothing. */
  lemma MessageOutcome(cfg: Config, table: LeaseTable, owner: map<nat, Mac>, c: Client, m: Msg, now: real, xid: nat)
    requires TableOk(table) && 0 !in owner
    requires ClientOk(cfg, table, owner, c) && MsgOk(cfg, table, owner, m) && xid in owner && owner[xid] == c.mac
    ensures OutcomeOk(cfg, table, owner, c.mac, OnMessage(c, m, now, xid), None)
  {
  }

  lemma HandlerOutcome(cfg: Config, s: Sys, e: Event)
    requires Inv(cfg, s) && !e.AtServer? && e.id in s.clients && DrawsFresh(s, e)
    requires Handler(s, e).Some?
    ensures OutcomeOk(cfg, s.table, Drawn(s, e), s.clients[e.id].mac, Handler(s, e).value, Failure(s.clients[e.id], e))
  {
    hide OnTimer, OnMessage, MsgOk, TableOk;
    var c := s.clients[e.id];
    KeepsItself(s.table);
    ClientStays(cfg, s.table, s.table, s.owner, Drawn(s, e), c);
    match e {
      case AtClient(_, m, now, xid) =>
        MsgStays(cfg, s.table, s.table, s.owner, Drawn(s, e), m);
        MessageOutcome(cfg, s.table, Drawn(s, e), c, m, now, xid);
      case Timeout(_, timer, now, xid) =>
        TimerOutcome(cfg, s.table, Drawn(s, e), c, timer, now, xid);
      case _ =>
        OtherOutcome(cfg, s, e);
    }
  }

  lemma OtherOutcome(cfg: Config, s: Sys, e: Event)
    requires Inv(cfg, s) && !e.AtServer? && e.id in s.clients && DrawsFresh(s, e)
    requires !e.AtClient? && !e.Timeout? && Handler(s, e).Some?
    ensures OutcomeOk(cfg, s.table, Drawn(s, e), s.clients[e.id].mac, Handler(s, e).value, Failure(s.clients[e.id], e))
  {
    hide TableOk;
  }

  lemma ClientKeepsInv(cfg: Config, s: Sys, e: Event, s': Sys)
    requires Inv(cfg, s) && !e.AtServer? && ClientStep(s, e, s')
    ensures Inv(cfg, s')
  {
    hide Handler, TableOk, MsgOk, ClientOk, Keeps;
    HandlerOutcome(cfg, s, e);
    KeepsItself(s.table);
    forall x | x in s.net
      ensures MsgOk(cfg, s'.table, s'.owner, x)
    {
      MsgStays(cfg, s.table, s'.table, s.owner, s'.owner, x);
    }
    forall id | id in s.clients
      ensures ClientOk(cfg, s'.table, s'.owner, s.clients[id])
    {
      ClientStays(cfg, s.table, s'.table, s.owner, s'.owner, s.clients[id]);
    }
  }
}
