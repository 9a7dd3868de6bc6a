/** How two DHCP clients come to share an address: both nodes are down at initialization, so that neither client reads
    the hardware address of its interface, and both start later. */
module DhcpSharing {
  import opened Options
  import opened DhcpMessages
  import opened DhcpServerModel
  import opened DhcpClientModel
  import opened DhcpSystem
  import opened DhcpExchange
  import opened DhcpRuns

  /** A run leads from s0 to s. */
  ghost predicate Reaches(cfg: Config, s0: Sys, s: Sys) {
    exists ss, es :: Run(cfg, ss, es) && ss[0] == s0 && ss[|es|] == s
  }

  lemma ReachesOn(cfg: Config, s0: Sys, s: Sys, e: Event, s': Sys)
    requires Reaches(cfg, s0, s) && Step(cfg, s, e, s')
    ensures Reaches(cfg, s0, s')
  {
    hide Initial, Step;
    var ss, es :| Run(cfg, ss, es) && ss[0] == s0 && ss[|es|] == s;
    var ss', es' := ss + [s'], es + [e];
    forall i | 0 <= i < |es'|
      ensures Step(cfg, ss'[i], es'[i], ss'[i + 1])
    {
      assert i < |es| ==> Step(cfg, ss[i], es[i], ss[i + 1]);
    }
    assert Run(cfg, ss', es');
  }

  lemma ReachesKeepsInv(cfg: Config, s0: Sys, s: Sys)
    requires Sane(cfg) && Reaches(cfg, s0, s)
    ensures Inv(cfg, s)
  {
    var ss, es :| Run(cfg, ss, es) && ss[0] == s0 && ss[|es|] == s;
    RunKeepsInv(cfg, ss, es, |es|);
  }

  lemma {:induction false} UnusedXid(s: set<nat>) returns (xid: nat)
    ensures xid > 0 && forall x | x in s :: x < xid
  {
    if s == {} {
      xid := 1;
    } else {
      var x: nat :| x in s;
      xid := UnusedXid(s - {x});
      if xid <= x {
        xid := x + 1;
      }
      assert forall y | y in s :: y == x || y in s - {x};
    }
  }

  /** What a handler that ends well leaves. */
  function AfterEvent(s: Sys, e: Event, o: Outcome): Sys
    requires !e.AtServer? && e.id in s.clients && o.Done?
  {
    s.(clients := s.clients[e.id := o.c], net := Sending(s.net, o.sent), owner := Drawn(s, e))
  }

  /** A client that has never started DHCP, on a node that is down, starts: it sends a DISCOVER. */
  lemma Discovering(cfg: Config, s0: Sys, s: Sys, id: Mac, now: real, xid: nat) returns (c: Client, s': Sys)
    requires Reaches(cfg, s0, s) && id in s.clients && xid != 0 && xid !in s.owner
    requires s.clients[id] == Fresh(s.clients[id].mac)
    ensures Reaches(cfg, s0, s') && c.up && c.socket && c.mac == s.clients[id].mac
    ensures s' == s.(clients := s.clients[id := AfterInit(c, now, xid).c],
                     net := s.net + {DiscoverFrom(c, xid)}, owner := s.owner[xid := c.mac])
  {
    hide Reaches;
    var c0 := s.clients[id];
    var e1 := Started(id, now, now);
    var s1 := AfterEvent(s, e1, OnStart(c0, now, now));
    ReachesOn(cfg, s0, s, e1, s1);
    c := c0.(up := true, socket := true, state := Init);
    var e2 := Timeout(id, StartTimer, now, xid);
    assert OnTimer(s1.clients[id], StartTimer, now, xid) == AfterInit(c, now, xid);
    s' := AfterEvent(s1, e2, AfterInit(c, now, xid));
    ReachesOn(cfg, s0, s1, e2, s');
  }

  /** The server gets a message and answers it, and the client gets the answer. */
  lemma Answered(cfg: Config, s0: Sys, s: Sys, id: Mac, m: Msg, now: real, xid: nat) returns (s': Sys)
    requires Reaches(cfg, s0, s) && id in s.clients && s.clients[id].up && m in s.net
    requires xid != 0 && xid !in s.owner
    requires React(cfg, s.table, m, now).reply.Some?
    requires OnMessage(s.clients[id], React(cfg, s.table, m, now).reply.value, now, xid).Done?
    ensures Reaches(cfg, s0, s')
    ensures var r := React(cfg, s.table, m, now);
            var o := OnMessage(s.clients[id], r.reply.value, now, xid);
            && s' == Sys(r.table, s.clients[id := o.c], Sending(s.net + {r.reply.value}, o.sent),
                         s.owner[xid := s.clients[id].mac])
            && (o.sent.Some? ==> o.sent.value in s'.net)
  {
    hide Reaches, React, OnMessage;
    var r := React(cfg, s.table, m, now);
    var s1 := s.(table := r.table, net := s.net + {r.reply.value});
    ReachesOn(cfg, s0, s, AtServer(m, now), s1);
    var e := AtClient(id, r.reply.value, now, xid);
    s' := AfterEvent(s1, e, OnMessage(s.clients[id], r.reply.value, now, xid));
    ReachesOn(cfg, s0, s1, e, s');
  }

  lemma Discovers(c: Client, now: real, xid: nat)
    requires c.socket
    ensures var o := AfterInit(c, now, xid); o.Done? && o.c.up == c.up && o.sent == Some(DiscoverFrom(c, xid))
  {
  }

  lemma StaysUp(c: Client, m: Msg, now: real, xid: nat)
    ensures var o := OnMessage(c, m, now, xid); o.Done? ==> o.c.up == c.up
  {
  }

  lemma IsOffered(cfg: Config, s0: Sys, s: Sys, c: Client, now: real, xid: nat)
    requires Sane(cfg) && Reaches(cfg, s0, s)
    requires LeaseByMac(s.table, c.mac).Some? || exists k :: 0 <= k < cfg.maxClients && PoolAddress(cfg, k) !in s.table
    ensures TableOk(s.table) && OnDiscover(cfg, s.table, DiscoverFrom(c, xid), now).reply.Some?
  {
    ReachesKeepsInv(cfg, s0, s);
    hide Reaches, Sane, ClientOk, MsgOk, LeaseByMac, OnDiscover, PoolAddress;
    OfferedUnlessExhausted(cfg, s.table, DiscoverFrom(c, xid), now);
  }

  /** A client that starts and whose four messages all get through ends up bound. */
  lemma StartsAndBinds(cfg: Config, s0: Sys, s: Sys, id: Mac, now: real) returns (s': Sys)
    requires Sane(cfg) && Reaches(cfg, s0, s) && id in s.clients && s.clients[id] == Fresh(s.clients[id].mac)
    requires LeaseByMac(s.table, s.clients[id].mac).Some?
             || exists k :: 0 <= k < cfg.maxClients && PoolAddress(cfg, k) !in s.table
    ensures Reaches(cfg, s0, s') && s'.clients.Keys == s.clients.Keys
    ensures forall x | x in s.clients && x != id :: s'.clients[x] == s.clients[x]
    ensures s'.clients[id].state == Bound && Holds(s'.table, s'.clients[id].addr, s.clients[id].mac)
  {
    hide *;
    var xid := UnusedXid(s.owner.Keys);
    var c, s1 := Discovering(cfg, s0, s, id, now, xid);
    var m := DiscoverFrom(c, xid);
    IsOffered(cfg, s0, s, c, now, xid);
    Discovers(c, now, xid);
    ExchangeBinds(cfg, s.table, c, now, xid, xid + 1, xid + 2);
    var c1 := AfterInit(c, now, xid).c;
    StaysUp(c1, React(cfg, s.table, m, now).reply.value, now, xid + 1);
    var s2 := Answered(cfg, s0, s1, id, m, now, xid + 1);
    var m2 := OnMessage(c1, React(cfg, s.table, m, now).reply.value, now, xid + 1).sent.value;
    s' := Answered(cfg, s0, s2, id, m2, now, xid + 2);
  }

  lemma ReachesItself(cfg: Config, s0: Sys)
    requires Initial(s0)
    ensures Reaches(cfg, s0, s0)
  {
    assert Run(cfg, [s0], []);
  }

  lemma TableAtFirst(s: Sys)
    requires Initial(s)
    ensures s.table == map[]
  {
  }

  lemma DownAtFirst(s: Sys, id: Mac)
    requires Initial(s) && id in s.clients && !s.clients[id].up
    ensures s.clients[id] == Fresh(0) && Fresh(0).mac == 0
  {
  }

  lemma HeldIsKnown(table: LeaseTable, ip: Addr, mac: Mac)
    requires Holds(table, ip, mac)
    ensures ip != 0 && LeaseByMac(table, mac).Some?
  {
  }

  lemma ReachesSame(cfg: Config, s0: Sys, s: Sys, a: Mac, b: Mac)
    requires Sane(cfg) && Reaches(cfg, s0, s)
    requires a in s0.clients && b in s0.clients && a != b && !s0.clients[a].up && !s0.clients[b].up
    ensures a in s.clients && b in s.clients
    ensures s.clients[a].addr != 0 && s.clients[b].addr != 0 ==> s.clients[a].addr == s.clients[b].addr
  {
    hide Initial, Step, Sane;
    var ss, es :| Run(cfg, ss, es) && ss[0] == s0 && ss[|es|] == s;
    AddressesAreUnique(cfg, ss, es, |es|, a, b);
  }

  /** If two nodes are down at initialization, a run makes their clients share an address: both start later, and all
      messages get through. */
  lemma TwoShareAnAddress(cfg: Config, s0: Sys, a: Mac, b: Mac, now: real) returns (s: Sys)
    requires Sane(cfg) && cfg.maxClients > 0 && Initial(s0)
    requires a in s0.clients && b in s0.clients && a != b && !s0.clients[a].up && !s0.clients[b].up
    ensures Reaches(cfg, s0, s) && a in s.clients && b in s.clients
    ensures s.clients[a].state == s.clients[b].state == Bound && s.clients[a].addr == s.clients[b].addr != 0
  {
    ReachesItself(cfg, s0);
    hide *;
    assert s0.clients[a] == s0.clients[b] == Fresh(0) by { DownAtFirst(s0, a); DownAtFirst(s0, b); }
    assert PoolAddress(cfg, 0) !in s0.table by { TableAtFirst(s0); }
    var s1 := StartsAndBinds(cfg, s0, s0, a, now);
    HeldIsKnown(s1.table, s1.clients[a].addr, 0);
    s := StartsAndBinds(cfg, s0, s1, b, now);
    HeldIsKnown(s.table, s.clients[b].addr, 0);
    ReachesSame(cfg, s0, s, a, b);
  }
}
