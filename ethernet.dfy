// Ethernet framing glue: the ethertype dispatch of received frames and the
// header written in front of outgoing IPv6 packets, including the multicast
// mapping of section 7 of RFC 2464.

module Ethernet {
  import opened Common

  /** Size of the shared packet buffer `uip_buf`. */
  const BUFSIZE: nat := 590
  /** `sizeof(struct uip_eth_hdr)`: destination, source, ethertype. */
  const HDR_LEN: nat := 14
  const MAC_LEN: nat := 6

  const ETHTYPE_IP: nat := 0x0800
  const ETHTYPE_ARP: nat := 0x0806
  const ETHTYPE_IPV6: nat := 0x86dd

  /** Offset in `uip_buf` of the IPv6 destination address: the link header, then 24 bytes of IPv6 header. */
  const DEST_IP: nat := HDR_LEN + 24

  /** `uip_len` is a 16-bit unsigned count. */
  function Wrap16(x: int): (w: nat)
    ensures w < U16
  {
    x % U16
  }

  /** The two bytes of an ethertype in network order (`uip_htons`). */
  function TypeBytes(t: nat): (b: seq<byte>)
    requires t < U16
    ensures |b| == 2
  {
    [(t / 256) as byte, (t % 256) as byte]
  }

  /** The ethertype a frame's header carries (`BUF->type`, read in network order). */
  function TypeOf(frame: seq<byte>): (t: nat)
    requires |frame| >= HDR_LEN
    ensures t < U16
  {
    frame[12] as nat * 256 + frame[13] as nat
  }

  /** `struct uip_eth_hdr`: destination, source and ethertype, 14 bytes. */
  function Header(dest: seq<byte>, src: seq<byte>, t: nat): seq<byte>
    requires |dest| == MAC_LEN && |src| == MAC_LEN && t < U16
  {
    dest + src + TypeBytes(t)
  }

  /** Reading a header back gives the fields it was built from. */
  lemma HeaderFields(dest: seq<byte>, src: seq<byte>, t: nat)
    requires |dest| == MAC_LEN && |src| == MAC_LEN && t < U16
    ensures var h := Header(dest, src, t);
            |h| == HDR_LEN && h[..6] == dest && h[6..12] == src && TypeOf(h) == t
  {
    var h := Header(dest, src, t);
    ByteOfNat(t / 256);
    ByteOfNat(t % 256);
    assert h[12] == (t / 256) as byte && h[13] == (t % 256) as byte;
    assert h[..6] == dest;
    assert h[6..12] == src;
  }

  /**
   * The link address of an IPv6 multicast group (section 7 of RFC 2464):
   * 33:33 followed by the last four bytes of the group address.
   */
  function MulticastMac(ip: seq<byte>): (m: seq<byte>)
    requires |ip| == 16
  {
    [0x33, 0x33] + ip[12..16]
  }

  /**
   * The mapped address is a six-byte group address (the low bit of its first
   * byte is set), and two groups share a link address exactly when their last
   * four bytes agree.
   */
  lemma MulticastMacIsGroup(a: seq<byte>, b: seq<byte>)
    requires |a| == 16 && |b| == 16
    ensures |MulticastMac(a)| == MAC_LEN && MulticastMac(a)[0] & 1 == 1
    ensures MulticastMac(a) == MulticastMac(b) <==> a[12..] == b[12..]
  {
    if MulticastMac(a) == MulticastMac(b) {
      assert a[12..] == MulticastMac(a)[2..] == MulticastMac(b)[2..] == b[12..];
    }
  }

  /** Where a received frame goes. */
  datatype Route = ToArp | ToIp | ToIpv6 | Ignored

  /**
   * `netEthernetInput`'s dispatch: an IPv6 build takes only the IPv6 ethertype,
   * an IPv4 build takes ARP and IP, everything else is dropped.
   */
  function Classify(ipv6: bool, t: nat): (r: Route)
    ensures ipv6 ==> (r == ToIpv6 <==> t == ETHTYPE_IPV6) && r != ToArp && r != ToIp
    ensures !ipv6 ==> (r == ToArp <==> t == ETHTYPE_ARP) && (r == ToIp <==> t == ETHTYPE_IP) && r != ToIpv6
  {
    if ipv6 then (if t == ETHTYPE_IPV6 then ToIpv6 else Ignored)
    else if t == ETHTYPE_ARP then ToArp
    else if t == ETHTYPE_IP then ToIp
    else Ignored
  }

  /** A frame the IPv6 output builds is one the IPv6 input hands to the stack. */
  lemma OutputIsAccepted(dest: seq<byte>, src: seq<byte>, rest: seq<byte>)
    requires |dest| == MAC_LEN && |src| == MAC_LEN
    ensures Classify(true, TypeOf(Header(dest, src, ETHTYPE_IPV6) + rest)) == ToIpv6
  {
    HeaderFields(dest, src, ETHTYPE_IPV6);
    var h := Header(dest, src, ETHTYPE_IPV6);
    assert (h + rest)[12] == h[12] && (h + rest)[13] == h[13];
  }

  /** What the glue hands on: to the IP stack, to ARP, or to the driver. */
  datatype Event =
    | TcpipInput(len: nat)
    | ArpIn(len: nat)
    | ArpOut(len: nat)
    | Xmit(frame: seq<byte>, len: nat)

  /** The destination `netEthernetOutput` writes: the given link address, or the multicast mapping of the packet's IPv6 destination. */
  function DestOf(lladdr: Option<seq<byte>>, packet: seq<byte>): (d: seq<byte>)
    requires lladdr.Some? ==> |lladdr.value| == MAC_LEN
    requires |packet| >= DEST_IP + 16
    ensures |d| == MAC_LEN
    ensures lladdr.None? ==> d[..2] == [0x33, 0x33] && d[2..] == packet[DEST_IP + 12..DEST_IP + 16]
  {
    match lladdr
    case Some(a) => a
    case None => MulticastMac(packet[DEST_IP..DEST_IP + 16])
  }

  /**
   * The interface: the shared buffer `uip_buf` and `uip_len`, the build
   * (IPv6 or IPv4), the own link address `uip_lladdr`, and the record of what
   * was passed to the stack, to ARP and to the driver.
   */
  class EthernetIf {
    const buf: array<byte>
    const ipv6: bool
    const lladdr: seq<byte>
    var uipLen: nat
    var log: seq<Event>

    ghost predicate Valid()
      reads this
    {
      buf.Length == BUFSIZE && |lladdr| == MAC_LEN && uipLen < U16
    }

    constructor (withIpv6: bool, own: seq<byte>)
      requires |own| == MAC_LEN
      ensures Valid() && fresh(buf) && ipv6 == withIpv6 && lladdr == own && uipLen == 0 && log == []
    {
      buf := new byte[BUFSIZE];
      ipv6 := withIpv6;
      lladdr := own;
      uipLen := 0;
      log := [];
    }

    /** Copies `data` to the front of the buffer. */
    method Place(data: seq<byte>)
      requires Valid() && |data| <= BUFSIZE
      modifies buf
      ensures buf[..] == data + old(buf[..])[|data|..]
    {
      forall i | 0 <= i < |data| {
        buf[i] := data[i];
      }
      assert buf[..] == data + old(buf[..])[|data|..];
    }

    /**
     * `netEthernetInput`. `arpReply` stands for what ARP processing leaves in
     * the buffer: an answer to send, or nothing.
     */
    method Input(arpReply: seq<byte>)
      requires Valid() && |arpReply| <= BUFSIZE
      modifies this, buf
      ensures Valid()
      ensures var r := Classify(ipv6, TypeOf(old(buf[..])));
              match r
              case ToIpv6 =>
                uipLen == old(uipLen) && buf[..] == old(buf[..]) && log == old(log) + [TcpipInput(uipLen)]
              case ToIp =>
                uipLen == Wrap16(old(uipLen) - HDR_LEN) && buf[..] == old(buf[..])
                && log == old(log) + [TcpipInput(uipLen)]
              case ToArp =>
                uipLen == |arpReply| && buf[..] == arpReply + old(buf[..])[|arpReply|..]
                && log == old(log) + [ArpIn(old(uipLen))] + (if uipLen > 0 then [Xmit(buf[..], uipLen)] else [])
              case Ignored =>
                uipLen == old(uipLen) && buf[..] == old(buf[..]) && log == old(log)
    {
      var t := buf[12] as nat * 256 + buf[13] as nat;
      assert t == TypeOf(buf[..]);
      if ipv6 {
        if t == ETHTYPE_IPV6 {
          log := log + [TcpipInput(uipLen)];
        }
        return;
      }
      if t == ETHTYPE_ARP {
        log := log + [ArpIn(uipLen)];
        Place(arpReply);
        uipLen := |arpReply|;
        if uipLen > 0 {
          log := log + [Xmit(buf[..], uipLen)];
        }
        return;
      }
      if t == ETHTYPE_IP {
        uipLen := Wrap16(uipLen - HDR_LEN);
        log := log + [TcpipInput(uipLen)];
      }
    }

    /**
     * `netEthernetOutput` of an IPv6 build: the header is written in front of
     * the packet (the destination from `dest`, or the multicast mapping of the
     * packet's destination when there is none; the own address; the IPv6
     * ethertype), the length grows by the header, and the frame is sent once.
     */
    method Output6(dest: Option<seq<byte>>)
      requires Valid() && ipv6 && (dest.Some? ==> |dest.value| == MAC_LEN)
      modifies this, buf
      ensures Valid()
      ensures buf[..] == Header(DestOf(dest, old(buf[..])), lladdr, ETHTYPE_IPV6) + old(buf[..])[HDR_LEN..]
      ensures uipLen == Wrap16(old(uipLen) + HDR_LEN)
      ensures log == old(log) + [Xmit(buf[..], uipLen)]
    {
      var d: seq<byte>;
      if dest.None? {
        d := [0x33, 0x33, buf[DEST_IP + 12], buf[DEST_IP + 13], buf[DEST_IP + 14], buf[DEST_IP + 15]];
        ghost var ip := buf[..][DEST_IP..DEST_IP + 16];
        assert ip[12..16] == [ip[12], ip[13], ip[14], ip[15]];
        assert ip[12] == buf[DEST_IP + 12] && ip[13] == buf[DEST_IP + 13];
        assert ip[14] == buf[DEST_IP + 14] && ip[15] == buf[DEST_IP + 15];
        assert d == MulticastMac(ip);
      } else {
        d := dest.value;
      }
      Place(Header(d, lladdr, ETHTYPE_IPV6));
      uipLen := Wrap16(uipLen + HDR_LEN);
      log := log + [Xmit(buf[..], uipLen)];
    }

    /**
     * `netEthernetOutput` of an IPv4 build: ARP resolution, which leaves
     * `arpFrame` in the buffer (the addressed packet or an ARP request in its
     * place), then one transmission.
     */
    method Output4(arpFrame: seq<byte>)
      requires Valid() && !ipv6 && |arpFrame| <= BUFSIZE
      modifies this, buf
      ensures Valid()
      ensures buf[..] == arpFrame + old(buf[..])[|arpFrame|..] && uipLen == |arpFrame|
      ensures log == old(log) + [ArpOut(old(uipLen)), Xmit(buf[..], uipLen)]
    {
      log := log + [ArpOut(uipLen)];
      Place(arpFrame);
      uipLen := |arpFrame|;
      log := log + [Xmit(buf[..], uipLen)];
    }
  }
}
