/** What holds in all runs of a network of one DHCP server and its clients. */
module DhcpRuns {
  import opened Options
  import opened DhcpMessages
  import opened DhcpServerModel
  import opened DhcpClientModel
  import opened DhcpSystem

  lemma {:induction false} RunKeepsInv(cfg: Config, ss: seq<Sys>, es: seq<Event>, n: nat)
    requires Sane(cfg) && Run(cfg, ss, es) && n < |ss|
    ensures Inv(cfg, ss[n])
  {
    if n > 0 {
      RunKeepsInv(cfg, ss, es, n - 1);
      var s, e, s' := ss[n - 1], es[n - 1], ss[n];
      assert Step(cfg, s, e, s');
      if e.AtServer? {
        ServerKeepsInv(cfg, s, e.m, e.now, s');
      } else {
        ClientKeepsInv(cfg, s, e, s');
      }
    }
  }

  /** No handler changes the hardware address a client sends. */
  lemma MacsStay(cfg: Config, s: Sys, e: Event, s': Sys)
    requires Inv(cfg, s) && Step(cfg, s, e, s')
    ensures s'.clients.Keys == s.clients.Keys && forall id | id in s.clients :: s'.clients[id].mac == s.clients[id].mac
  {
    hide Handler, Inv, React, ClientOk;
    if !e.AtServer? {
      HandlerOutcome(cfg, s, e);
    }
  }

  lemma {:induction false} RunKeepsMacs(cfg: Config, ss: seq<Sys>, es: seq<Event>, n: nat)
    requires Sane(cfg) && Run(cfg, ss, es) && n < |ss|
    ensures ss[n].clients.Keys == ss[0].clients.Keys
    ensures forall id | id in ss[0].clients :: ss[n].clients[id].mac == ss[0].clients[id].mac
  {
    hide Initial, Step, Inv;
    if n > 0 {
      RunKeepsMacs(cfg, ss, es, n - 1);
      RunKeepsInv(cfg, ss, es, n - 1);
      MacsStay(cfg, ss[n - 1], es[n - 1], ss[n]);
    }
  }

  lemma MacAtFirst(s: Sys, id: Mac)
    requires Initial(s) && id in s.clients
    ensures id != 0 && s.clients[id].mac == if s.clients[id].up then id else 0
  {
  }

  /** Two clients that have an address have the same one if and only if neither node was up at initialization, whatever
      is lost, late or repeated, and whatever timers fire and clients restart. */
  lemma AddressesAreUnique(cfg: Config, ss: seq<Sys>, es: seq<Event>, n: nat, a: Mac, b: Mac)
    requires Sane(cfg) && Run(cfg, ss, es) && n < |ss|
    requires a in ss[0].clients && b in ss[0].clients && a != b
    ensures a in ss[n].clients && b in ss[n].clients
    ensures ss[n].clients[a].addr != 0 && ss[n].clients[b].addr != 0 ==>
              (ss[n].clients[a].addr == ss[n].clients[b].addr <==> !ss[0].clients[a].up && !ss[0].clients[b].up)
  {
    RunKeepsInv(cfg, ss, es, n);
    RunKeepsMacs(cfg, ss, es, n);
    MacAtFirst(ss[0], a);
    MacAtFirst(ss[0], b);
    hide Run, Initial;
    if ss[n].clients[a].addr != 0 && ss[n].clients[b].addr != 0 {
      OneAddressPerMac(cfg, ss[n], a, b);
    }
  }

  lemma OneAddressPerMac(cfg: Config, s: Sys, a: Mac, b: Mac)
    requires Inv(cfg, s) && a in s.clients && b in s.clients && s.clients[a].addr != 0 && s.clients[b].addr != 0
    ensures s.clients[a].addr == s.clients[b].addr <==> s.clients[a].mac == s.clients[b].mac
  {
  }

  predicate Mentions(m: Msg, mac: Mac) {
    m.op == BootReply && m.chaddr == mac
  }

  /** All offers and acknowledgements to one hardware address carry one address, which is that of the clients who send
      it and have any, and the server never sends it a NAK. */
  lemma OneAddressPerClient(cfg: Config, ss: seq<Sys>, es: seq<Event>, n: nat, m1: Msg, m2: Msg, mac: Mac)
    requires Sane(cfg) && Run(cfg, ss, es) && n < |ss|
    requires m1 in ss[n].net && m2 in ss[n].net && Mentions(m1, mac) && Mentions(m2, mac)
    ensures m1.kind == Offer || m1.kind == Ack
    ensures m1.yiaddr == m2.yiaddr != 0
    ensures forall id | id in ss[n].clients && ss[n].clients[id].mac == mac && ss[n].clients[id].addr != 0 ::
              ss[n].clients[id].addr == m1.yiaddr
  {
    RunKeepsInv(cfg, ss, es, n);
    hide *;
    ReplyHasTheAddress(cfg, ss[n], m1);
    ReplyHasTheAddress(cfg, ss[n], m2);
    OneAddress(cfg, ss[n], m1, m2);
  }

  lemma ReplyHasTheAddress(cfg: Config, s: Sys, m: Msg)
    requires Inv(cfg, s) && m in s.net && Mentions(m, m.chaddr)
    ensures ReplyOk(cfg, s.table, m)
  {
    assert MsgOk(cfg, s.table, s.owner, m);
  }

  lemma OneAddress(cfg: Config, s: Sys, m1: Msg, m2: Msg)
    requires Inv(cfg, s) && ReplyOk(cfg, s.table, m1) && ReplyOk(cfg, s.table, m2) && m1.chaddr == m2.chaddr
    ensures m1.yiaddr == m2.yiaddr != 0 && m1.kind in {Offer, Ack}
    ensures forall id | id in s.clients && s.clients[id].mac == m1.chaddr && s.clients[id].addr != 0 ::
              s.clients[id].addr == m1.yiaddr
  {
  }

  /** A client's handler fails if and only if, while its node is up, a packet other than a DHCP message comes in, an
      interface is deleted, a link is associated before DHCP has started, or T2 fires in another state than RENEWING, or
      the client is started on a configured interface; in particular a client never works on a lease it does not have.
      DhcpTimers shows that the timers' deadlines keep T2 from failing. */
  lemma FailsExactlyWhen(cfg: Config, ss: seq<Sys>, es: seq<Event>, n: nat, e: Event)
    requires Sane(cfg) && Run(cfg, ss, es) && n < |ss|
    requires !e.AtServer? && e.id in ss[n].clients && DrawsFresh(ss[n], e) && Handler(ss[n], e).Some?
    ensures var o, failure := Handler(ss[n], e).value, Failure(ss[n].clients[e.id], e);
            (o.Failed? <==> failure.Some?) && (o.Failed? ==> Some(o.error) == failure)
  {
    hide Inv, Run, Failure;
    RunKeepsInv(cfg, ss, es, n);
    HandlerOutcome(cfg, ss[n], e);
  }
}
