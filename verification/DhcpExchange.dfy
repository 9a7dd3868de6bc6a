/** One exchange of DISCOVER, OFFER, REQUEST and ACK that nothing disturbs, and what a DISCOVER does to the table. */
module DhcpExchange {
  import opened Options
  import opened DhcpMessages
  import opened DhcpServerModel
  import opened DhcpClientModel
  import opened DhcpSystem

  /** A DISCOVER is left without an offer only if the client is unknown and the whole pool is in the table. */
  lemma OfferedUnlessExhausted(cfg: Config, table: LeaseTable, m: Msg, now: real)
    requires Sane(cfg) && TableOk(table) && m.requestedIp == 0
    ensures OnDiscover(cfg, table, m, now).reply.None?
            <==> (LeaseByMac(table, m.chaddr).None?
                  && forall k | 0 <= k < cfg.maxClients :: PoolAddress(cfg, k) in table)
  {
    FreshFromPool(cfg, table, 0);
  }

  lemma RepliesWithOffer(cfg: Config, table: LeaseTable, m: Msg, now: real)
    requires OnDiscover(cfg, table, m, now).reply.Some?
    ensures OnDiscover(cfg, table, m, now).reply.value.kind == Offer
  {
  }

  /** If DISCOVER, OFFER, REQUEST and ACK all get through, the client ends up bound to the address it was offered,
      and the table has that address down as its. */
  lemma ExchangeBinds(cfg: Config, table: LeaseTable, c0: Client, now: real, x1: nat, x2: nat, x3: nat)
    requires Sane(cfg) && TableOk(table)
    requires c0.socket && OnDiscover(cfg, table, DiscoverFrom(c0, x1), now).reply.Some?
    ensures var c1 := AfterInit(c0, now, x1);
            var r1 := React(cfg, table, c1.sent.value, now);
            && r1.reply.Some?
            && var c2 := OnMessage(c1.c, r1.reply.value, now, x2);
            && c2.Done? && c2.sent.Some?
            && var r2 := React(cfg, r1.table, c2.sent.value, now);
            && r2.reply.Some?
            && var c3 := OnMessage(c2.c, r2.reply.value, now, x3);
            && c3.Done? && c3.c.state == Bound && c3.c.addr == r1.reply.value.yiaddr
            && Holds(r2.table, c3.c.addr, c0.mac)
  {
    hide OnDiscover, OnRequest, TableOk;
    var m := DiscoverFrom(c0, x1);
    DiscoverReaction(cfg, table, m, now);
    var r1 := React(cfg, table, m, now);
    assert r1.reply.value.kind == Offer by { RepliesWithOffer(cfg, table, m, now); }
    var c2 := OnMessage(AfterInit(c0, now, x1).c, r1.reply.value, now, x2);
    RequestReaction(cfg, r1.table, c2.sent.value, now);
    var r2 := React(cfg, r1.table, c2.sent.value, now);
    StillHolds(r1.table, r2.table, r1.reply.value.yiaddr, c0.mac);
  }

  /** A DISCOVER leaves every address with its owner if and only if the client is known, asks for no address, or
      asks for one that is not in the table. */
  lemma DiscoverKeepsOwners(cfg: Config, table: LeaseTable, m: Msg, now: real)
    requires Sane(cfg) && TableOk(table)
    ensures Keeps(table, OnDiscover(cfg, table, m, now).table)
            <==> (LeaseByMac(table, m.chaddr).Some? || m.requestedIp == 0 || m.requestedIp !in table)
  {
    if m.requestedIp == 0 {
      DiscoverReaction(cfg, table, m, now);
    }
  }
}
