/** The DHCP server of inet/src/applications/dhcp/DHCPServer.cc: its reaction to one message as a function
    of the lease table, and the class that computes it on its table. */
module DhcpServerModel {
  import opened Bits
  import opened Options
  import opened DhcpMessages

  datatype Lease = Lease(ip: Addr, mac: Mac, xid: nat, leased: bool, leaseTime: real)

  type LeaseTable = map<Addr, Lease>

  datatype Config = Config(serverIp: Addr, start: Addr, maxClients: nat, subnetMask: Addr, leaseTime: real)

  /** The i-th address of the pool, in 32-bit arithmetic. */
  function PoolAddress(cfg: Config, i: nat): Addr {
    (cfg.start + i) % 0x1_0000_0000
  }

  predicate MaskedEqual(a: Addr, b: Addr, mask: Addr) {
    BitAnd(a, mask) == BitAnd(b, mask)
  }

  /** ip is the first entry of the table, in address order, that belongs to mac. */
  ghost predicate IsFirstOf(table: LeaseTable, mac: Mac, ip: Addr) {
    ip in table && table[ip].mac == mac && forall a | a in table && table[a].mac == mac :: ip <= a
  }

  lemma {:induction false} FirstExists(table: LeaseTable, mac: Mac, ip: Addr)
    requires ip in table && table[ip].mac == mac
    ensures exists a :: IsFirstOf(table, mac, a)
    decreases ip
  {
    if !IsFirstOf(table, mac, ip) {
      var a :| a in table && table[a].mac == mac && a < ip;
      FirstExists(table, mac, a);
    }
  }

  predicate IsLeast(s: set<Addr>, a: Addr) {
    a in s && forall b | b in s :: a <= b
  }

  /** getLeaseByMac */
  ghost function LeaseByMac(table: LeaseTable, mac: Mac): (r: Option<Addr>)
    ensures r.Some? ==> IsFirstOf(table, mac, r.value)
    ensures r.None? ==> forall a | a in table :: table[a].mac != mac
  {
    if exists a :: a in table && table[a].mac == mac then
      var b :| b in table && table[b].mac == mac;
      FirstExists(table, mac, b);
      var a :| IsFirstOf(table, mac, a);
      Some(a)
    else None
  }

  /** DHCPLease(), then its address. */
  function NewLease(ip: Addr): Lease {
    Lease(ip, 0, 0, false, 0.0)
  }

  /** A table with the entry for ip, and that address; None if the pool is exhausted. */
  datatype Available = Available(table: LeaseTable, ip: Option<Addr>)

  /** The pool search of getAvailableLease from the i-th address on. */
  function FromPool(cfg: Config, table: LeaseTable, i: nat): Available
    decreases cfg.maxClients - i
  {
    if i >= cfg.maxClients then Available(table, None)
    else
      var ip := PoolAddress(cfg, i);
      if ip !in table then Available(table[ip := NewLease(ip)], Some(ip))
      else if !table[ip].leased then Available(table, Some(ip))
      else FromPool(cfg, table, i + 1)
  }

  /** getAvailableLease */
  function AvailableLease(cfg: Config, table: LeaseTable, requested: Addr): Available {
    if requested != 0 then
      if requested in table && !table[requested].leased then Available(table, Some(requested))
      else Available(table[requested := NewLease(requested)], Some(requested))
    else FromPool(cfg, table, 0)
  }

  function OfferFor(cfg: Config, lease: Lease): Msg {
    Plain(BootReply, Offer, lease.xid, lease.mac).(
      yiaddr := lease.ip, serverId := cfg.serverIp, leaseTime := cfg.leaseTime,
      renewalTime := cfg.leaseTime * 0.5, rebindTime := cfg.leaseTime * 0.875)
  }

  function AckFor(cfg: Config, lease: Lease): Msg {
    OfferFor(cfg, lease).(kind := Ack, ciaddr := lease.ip)
  }

  function NakFor(cfg: Config, m: Msg): Msg {
    Plain(BootReply, Nak, m.xid, m.chaddr).(serverId := cfg.serverIp)
  }

  /** The lease table and the reply, if any. */
  datatype Reaction = Reaction(table: LeaseTable, reply: Option<Msg>)

  /** sendOffer and sendACK register the time in the lease. */
  function Registered(lease: Lease, now: real): Lease {
    lease.(leaseTime := now)
  }

  function SendAck(cfg: Config, table: LeaseTable, key: Addr, m: Msg, now: real): Reaction
    requires key in table
  {
    var lease := table[key].(xid := m.xid, leaseTime := cfg.leaseTime, leased := true);
    Reaction(table[key := Registered(lease, now)], Some(AckFor(cfg, lease)))
  }

  /** DHCPDISCOVER, section 4.3.1 of RFC 2131. */
  ghost function OnDiscover(cfg: Config, table: LeaseTable, m: Msg, now: real): Reaction {
    match LeaseByMac(table, m.chaddr)
    case Some(ip) =>
      var lease := table[ip].(xid := m.xid);
      Reaction(table[ip := Registered(lease, now)], Some(OfferFor(cfg, lease)))
    case None =>
      var a := AvailableLease(cfg, table, m.requestedIp);
      if a.ip.None? || a.ip.value !in a.table then Reaction(a.table, None)
      else
        var lease := a.table[a.ip.value].(mac := m.chaddr, xid := m.xid, leased := true);
        Reaction(a.table[a.ip.value := Registered(lease, now)], Some(OfferFor(cfg, lease)))
  }

  /** DHCPREQUEST, section 4.3.2 of RFC 2131. */
  ghost function OnRequest(cfg: Config, table: LeaseTable, m: Msg, now: real): Reaction {
    if m.serverId == cfg.serverIp then
      // the client takes an offer of this server
      match LeaseByMac(table, m.chaddr)
      case Some(ip) =>
        if table[ip].ip != m.requestedIp then Reaction(table, Some(NakFor(cfg, m)))
        else SendAck(cfg, table, ip, m, now)
      case None => Reaction(table, Some(NakFor(cfg, m)))
    else if m.ciaddr == 0 then
      // the client asks for an address it remembers
      if m.requestedIp !in table then Reaction(table, None)
      else if MaskedEqual(m.requestedIp, table[m.requestedIp].ip, cfg.subnetMask) then
        SendAck(cfg, table, m.requestedIp, m, now)
      else Reaction(table, Some(NakFor(cfg, m)))
    else
      // the client extends its lease
      if m.ciaddr in table then SendAck(cfg, table, m.ciaddr, m, now)
      else Reaction(table, Some(NakFor(cfg, m)))
  }

  /** processDHCPMessage */
  ghost function React(cfg: Config, table: LeaseTable, m: Msg, now: real): Reaction {
    if m.op != BootRequest then Reaction(table, None)
    else if m.kind == Discover then OnDiscover(cfg, table, m, now)
    else if m.kind == Request then OnRequest(cfg, table, m, now)
    else Reaction(table, None)
  }

  class DhcpServer {
    const cfg: Config
    var leased: LeaseTable

    constructor (cfg: Config)
      ensures this.cfg == cfg && leased == map[]
    {
      this.cfg := cfg;
      leased := map[];
    }

    /** getLeaseByMac: the first entry, in address order, with this hardware address. */
    method GetLeaseByMac(mac: Mac) returns (r: Option<Addr>)
      ensures r == LeaseByMac(leased, mac)
    {
      var rest := leased.Keys;
      while rest != {}
        invariant rest <= leased.Keys
        invariant forall a | a in leased && a !in rest :: leased[a].mac != mac
        invariant forall a, b | a in leased && a !in rest && b in rest :: a < b
      {
        LeastExists(rest);
        var ip :| IsLeast(rest, ip);
        if leased[ip].mac == mac {
          FirstIsUnique(leased, mac, ip);
          return Some(ip);
        }
        rest := rest - {ip};
      }
      r := None;
    }

    /** getAvailableLease */
    method GetAvailableLease(requested: Addr) returns (r: Option<Addr>)
      modifies this
      ensures Available(leased, r) == AvailableLease(cfg, old(leased), requested)
      ensures r.Some? ==> r.value in leased
    {
      if requested != 0 {
        if requested in leased && !leased[requested].leased {
          return Some(requested);
        }
        leased := leased[requested := NewLease(requested)];
        return Some(requested);
      }
      var i := 0;
      while i < cfg.maxClients
        invariant i <= cfg.maxClients && leased == old(leased)
        invariant FromPool(cfg, leased, 0) == FromPool(cfg, leased, i)
      {
        var ip := PoolAddress(cfg, i);
        if ip in leased {
          if !leased[ip].leased {
            return Some(ip);
          }
        } else {
          leased := leased[ip := NewLease(ip)];
          return Some(ip);
        }
        i := i + 1;
      }
      r := None;
    }

    /** sendOffer */
    method SendOffer(ip: Addr, now: real) returns (reply: Msg)
      requires ip in leased
      modifies this
      ensures leased == old(leased)[ip := Registered(old(leased)[ip], now)] && reply == OfferFor(cfg, old(leased)[ip])
    {
      reply := OfferFor(cfg, leased[ip]);
      leased := leased[ip := Registered(leased[ip], now)];
    }

    /** The lease updates before sendACK, and sendACK. */
    method Acknowledge(ip: Addr, m: Msg, now: real) returns (reply: Msg)
      requires ip in leased
      modifies this
      ensures Reaction(leased, Some(reply)) == SendAck(cfg, old(leased), ip, m, now)
    {
      var lease := leased[ip].(xid := m.xid, leaseTime := cfg.leaseTime, leased := true);
      reply := AckFor(cfg, lease);
      leased := leased[ip := Registered(lease, now)];
    }

    /** processDHCPMessage */
    method ProcessDHCPMessage(m: Msg, now: real) returns (reply: Option<Msg>)
      modifies this
      ensures Reaction(leased, reply) == React(cfg, old(leased), m, now)
    {
      reply := None;
      if m.op == BootRequest {
        if m.kind == Discover {
          var known := GetLeaseByMac(m.chaddr);
          if known.None? {
            var ip := GetAvailableLease(m.requestedIp);
            if ip.Some? {
              leased := leased[ip.value := leased[ip.value].(mac := m.chaddr, xid := m.xid, leased := true)];
              var offer := SendOffer(ip.value, now);
              reply := Some(offer);
            }
          } else {
            leased := leased[known.value := leased[known.value].(xid := m.xid)];
            var offer := SendOffer(known.value, now);
            reply := Some(offer);
          }
        } else if m.kind == Request {
          if m.serverId == cfg.serverIp {
            var known := GetLeaseByMac(m.chaddr);
            if known.Some? {
              if leased[known.value].ip != m.requestedIp {
                reply := Some(NakFor(cfg, m));
              } else {
                var ack := Acknowledge(known.value, m, now);
                reply := Some(ack);
              }
            } else {
              reply := Some(NakFor(cfg, m));
            }
          } else if m.ciaddr == 0 {
            if m.requestedIp !in leased {
              // an unknown address gets no answer
            } else if MaskedEqual(m.requestedIp, leased[m.requestedIp].ip, cfg.subnetMask) {
              var ack := Acknowledge(m.requestedIp, m, now);
              reply := Some(ack);
            } else {
              reply := Some(NakFor(cfg, m));
            }
          } else if m.ciaddr in leased {
            var ack := Acknowledge(m.ciaddr, m, now);
            reply := Some(ack);
          } else {
            reply := Some(NakFor(cfg, m));
          }
        }
      }
    }
  }

  lemma {:induction false} LeastExists(s: set<Addr>)
    requires s != {}
    ensures exists a :: IsLeast(s, a)
  {
    var x :| x in s;
    if s == {x} {
      assert IsLeast(s, x);
    } else {
      LeastExists(s - {x});
      var a :| IsLeast(s - {x}, a);
      forall b | b in s
        ensures (if x <= a then x else a) <= b
      {
        assert b == x || b in s - {x};
      }
      assert IsLeast(s, if x <= a then x else a);
    }
  }

  lemma FirstIsUnique(table: LeaseTable, mac: Mac, ip: Addr)
    requires ip in table && table[ip].mac == mac && forall a | a in table && a < ip :: table[a].mac != mac
    ensures LeaseByMac(table, mac) == Some(ip)
  {
  }
}
