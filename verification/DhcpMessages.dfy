/** DHCP messages as far as client and server look at them (RFC 2131, sections 2 and 4.3). */
module DhcpMessages {
  import opened Options

  /** An IPv4 address; 0 is unspecified. */
  type Addr = x: nat | x < 0x1_0000_0000

  type Mac = nat

  datatype Op = BootRequest | BootReply

  datatype Kind = Discover | Offer | Request | Decline | Ack | Nak | Release | Inform

  datatype Msg = Msg(op: Op, kind: Kind, xid: nat, chaddr: Mac, ciaddr: Addr, yiaddr: Addr, requestedIp: Addr,
                     serverId: Addr, leaseTime: real, renewalTime: real, rebindTime: real)

  /** A message without any of the optional contents. */
  function Plain(op: Op, kind: Kind, xid: nat, chaddr: Mac): Msg {
    Msg(op, kind, xid, chaddr, 0, 0, 0, 0, 0.0, 0.0, 0.0)
  }
}
