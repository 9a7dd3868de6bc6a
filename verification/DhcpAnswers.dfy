/** What the DHCP server answers to every message, in terms of the configured range, its table and the message alone. */
module DhcpAnswers {
  import opened Options
  import opened DhcpMessages
  import opened DhcpServerModel

  /** Entries are listed under their own addresses, as getAvailableLease makes them. */
  predicate Keyed(table: LeaseTable) {
    forall a | a in table :: table[a].ip == a
  }

  // ---------- The pool ----------

  /** How far an address lies behind the first one of the range, past the largest address if need be. */
  function Offset(cfg: Config, a: Addr): nat {
    if a >= cfg.start then a - cfg.start else 0x1_0000_0000 - cfg.start + a
  }

  predicate InPool(cfg: Config, a: Addr) {
    Offset(cfg, a) < cfg.maxClients
  }

  predicate IsFree(table: LeaseTable, a: Addr) {
    a !in table || !table[a].leased
  }

  /** The free address of the pool that comes first. */
  predicate FirstFree(cfg: Config, table: LeaseTable, a: Addr) {
    InPool(cfg, a) && IsFree(table, a) && forall b: Addr | IsFree(table, b) :: Offset(cfg, a) <= Offset(cfg, b)
  }

  /** A range that does not go past the largest address is an interval, in its usual order. */
  lemma PoolIsInterval(cfg: Config)
    requires cfg.start + cfg.maxClients <= 0x1_0000_0000
    ensures forall a: Addr :: InPool(cfg, a) <==> cfg.start <= a < cfg.start + cfg.maxClients
    ensures forall a: Addr, b: Addr | InPool(cfg, a) && InPool(cfg, b) :: Offset(cfg, a) <= Offset(cfg, b) <==> a <= b
  {
  }

  lemma OffsetOfPool(cfg: Config, i: nat)
    requires i < 0x1_0000_0000
    ensures Offset(cfg, PoolAddress(cfg, i)) == i
    ensures forall a: Addr | Offset(cfg, a) == i :: a == PoolAddress(cfg, i)
  {
  }

  /** The search from the i-th address on, when the earlier ones are taken. */
  lemma {:induction false} PoolSearch(cfg: Config, table: LeaseTable, i: nat)
    requires forall a: Addr | IsFree(table, a) :: Offset(cfg, a) >= i
    ensures var r := FromPool(cfg, table, i);
            && (r.ip.None? ==> r.table == table && forall a: Addr | InPool(cfg, a) :: !IsFree(table, a))
            && (r.ip.Some? ==> FirstFree(cfg, table, r.ip.value)
                               && r.table == if r.ip.value in table then table
                                             else table[r.ip.value := NewLease(r.ip.value)])
    decreases cfg.maxClients - i
  {
    if i < cfg.maxClients {
      if i >= 0x1_0000_0000 {
        AllTaken(cfg, table, i);
      } else {
        OffsetOfPool(cfg, i);
      }
      if !IsFree(table, PoolAddress(cfg, i)) {
        PoolSearch(cfg, table, i + 1);
      }
    }
  }

  lemma AllTaken(cfg: Config, table: LeaseTable, i: nat)
    requires i >= 0x1_0000_0000 && forall a: Addr | IsFree(table, a) :: Offset(cfg, a) >= i
    ensures forall a: Addr :: !IsFree(table, a) && Offset(cfg, a) < i
  {
  }

  /** getAvailableLease hands out the address that is requested, its entry overwritten if it is leased, and without such
      a request the first address of the range that is free. */
  lemma AvailableIsFirstFree(cfg: Config, table: LeaseTable, requested: Addr)
    ensures var r := AvailableLease(cfg, table, requested);
            && (r.ip.None? <==> requested == 0 && forall a: Addr | InPool(cfg, a) :: !IsFree(table, a))
            && (r.ip.Some? ==>
                 && (if requested == 0 then FirstFree(cfg, table, r.ip.value) else r.ip.value == requested)
                 && r.table == if r.ip.value in table && !table[r.ip.value].leased then table
                               else table[r.ip.value := Lease(r.ip.value, 0, 0, false, 0.0)])
            && (r.ip.None? ==> r.table == table)
  {
    PoolSearch(cfg, table, 0);
  }

  // ---------- DISCOVER ----------

  predicate IsDiscover(m: Msg) {
    m.op == BootRequest && m.kind == Discover
  }

  /** The offer of an address to the client that sent m. */
  function OfferTo(cfg: Config, m: Msg, a: Addr): Msg {
    Msg(BootReply, Offer, m.xid, m.chaddr, 0, a, 0, cfg.serverIp, cfg.leaseTime, cfg.leaseTime * 0.5,
        cfg.leaseTime * 0.875)
  }

  /** An unknown client that asks for no address is offered the first free address of the range, and that is its then;
      it gets no offer if and only if the whole range is leased. */
  lemma UnknownIsOffered(cfg: Config, table: LeaseTable, m: Msg, now: real)
    requires Keyed(table) && IsDiscover(m) && m.requestedIp == 0
    requires forall a | a in table :: table[a].mac != m.chaddr
    ensures var r := React(cfg, table, m, now);
            && (r.reply.None? <==> forall a: Addr | InPool(cfg, a) :: !IsFree(table, a))
            && (r.reply.None? ==> r.table == table)
            && (r.reply.Some? ==>
                 var a := r.reply.value.yiaddr;
                 && FirstFree(cfg, table, a) && r.reply == Some(OfferTo(cfg, m, a))
                 && r.table == table[a := Lease(a, m.chaddr, m.xid, true, now)])
  {
    AvailableIsFirstFree(cfg, table, 0);
    hide FromPool, InPool, IsFree, FirstFree;
  }

  /** The same for a range that does not go past the largest address. */
  lemma UnknownIsOfferedLeast(cfg: Config, table: LeaseTable, m: Msg, now: real)
    requires Keyed(table) && IsDiscover(m) && m.requestedIp == 0 && cfg.start + cfg.maxClients <= 0x1_0000_0000
    requires forall a | a in table :: table[a].mac != m.chaddr
    ensures var reply := React(cfg, table, m, now).reply;
            && (reply.None? <==> forall a: Addr | cfg.start <= a < cfg.start + cfg.maxClients :: !IsFree(table, a))
            && (reply.Some? ==>
                 var a := reply.value.yiaddr;
                 && reply.value.kind == Offer && reply.value.chaddr == m.chaddr
                 && cfg.start <= a < cfg.start + cfg.maxClients && IsFree(table, a)
                 && forall b: Addr | cfg.start <= b < a :: !IsFree(table, b))
  {
    UnknownIsOffered(cfg, table, m, now);
    PoolIsInterval(cfg);
    hide React, IsFree, Offset;
    var reply := React(cfg, table, m, now).reply;
    if reply.Some? {
      var a := reply.value.yiaddr;
      forall b: Addr | cfg.start <= b < a
        ensures !IsFree(table, b)
      {
        assert InPool(cfg, b);
      }
    }
  }

  /** A known client is offered its own address, whatever it asks for, and an unknown one the address it asks for. */
  lemma KnownOrAsking(cfg: Config, table: LeaseTable, m: Msg, now: real, a: Addr)
    requires Keyed(table) && IsDiscover(m)
    requires if exists b :: b in table && table[b].mac == m.chaddr then IsFirstOf(table, m.chaddr, a)
             else a == m.requestedIp != 0
    ensures var r := React(cfg, table, m, now);
            && r.reply == Some(OfferTo(cfg, m, a))
            && a in r.table && r.table == table[a := r.table[a]]
            && r.table[a].ip == a && r.table[a].mac == m.chaddr && r.table[a].xid == m.xid
            && r.table[a].leaseTime == now
  {
    AvailableIsFirstFree(cfg, table, m.requestedIp);
    hide FromPool, InPool, IsFree, FirstFree;
  }

  // ---------- REQUEST ----------

  predicate IsRequest(m: Msg) {
    m.op == BootRequest && m.kind == Request
  }

  /** A REQUEST is refused if it takes an offer of this server for another address than the client's, or extends the
      lease of an address without an entry. */
  ghost predicate Refused(cfg: Config, table: LeaseTable, m: Msg) {
    if m.serverId == cfg.serverIp then !IsFirstOf(table, m.chaddr, m.requestedIp)
    else m.ciaddr != 0 && m.ciaddr !in table
  }

  /** It gets no answer if it asks for an address that the client remembers and the server does not. */
  predicate Ignored(cfg: Config, table: LeaseTable, m: Msg) {
    m.serverId != cfg.serverIp && m.ciaddr == 0 && m.requestedIp !in table
  }

  /** The address a REQUEST is for. */
  function Wanted(cfg: Config, m: Msg): Addr {
    if m.serverId == cfg.serverIp || m.ciaddr == 0 then m.requestedIp else m.ciaddr
  }

  lemma SameMasked(cfg: Config)
    ensures forall x: Addr :: MaskedEqual(x, x, cfg.subnetMask)
  {
  }

  /** Every REQUEST is refused, ignored or acknowledged. An acknowledgement goes to the client that the address is
      listed for, be it the one that asks or not. */
  lemma RequestIsAnswered(cfg: Config, table: LeaseTable, m: Msg, now: real)
    requires Keyed(table) && IsRequest(m)
    ensures var r := React(cfg, table, m, now);
            var a := Wanted(cfg, m);
            if Refused(cfg, table, m) then
              && r.table == table
              && r.reply == Some(Msg(BootReply, Nak, m.xid, m.chaddr, 0, 0, 0, cfg.serverIp, 0.0, 0.0, 0.0))
            else if Ignored(cfg, table, m) then r == Reaction(table, None)
            else
              && a in table && r.table == table[a := Lease(a, table[a].mac, m.xid, true, now)]
              && r.reply == Some(Msg(BootReply, Ack, m.xid, table[a].mac, a, a, 0, cfg.serverIp, cfg.leaseTime,
                                     cfg.leaseTime * 0.5, cfg.leaseTime * 0.875))
  {
    hide MaskedEqual;
    assert forall x: Addr :: MaskedEqual(x, x, cfg.subnetMask) by { SameMasked(cfg); }
    if IsFirstOf(table, m.chaddr, m.requestedIp) {
      FirstIsUnique(table, m.chaddr, m.requestedIp);
    }
  }

  /** Anything else gets no answer. */
  lemma OthersAreIgnored(cfg: Config, table: LeaseTable, m: Msg, now: real)
    requires !IsDiscover(m) && !IsRequest(m)
    ensures React(cfg, table, m, now) == Reaction(table, None)
  {
  }

  /** Entries stay under their own addresses. */
  lemma StaysKeyed(cfg: Config, table: LeaseTable, m: Msg, now: real)
    requires Keyed(table)
    ensures Keyed(React(cfg, table, m, now).table)
  {
    AvailableIsFirstFree(cfg, table, m.requestedIp);
    hide FromPool, InPool, IsFree, FirstFree, AvailableLease;
  }
}
