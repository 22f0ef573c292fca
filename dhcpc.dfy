// The DHCP client: the BOOTP message it builds (section 2 of RFC 2131), the
// options it writes and reads (RFC 2132), the wait for a reply, its retry
// schedule and its lease arithmetic.

module Dhcpc {
  import opened Common

  /** `sizeof(struct dhcp_msg)`: 236 fixed bytes and 312 of options. */
  const MSG_SIZE: nat := 548
  /** Offset of `options` in the message. */
  const OPTIONS: nat := 236
  /** Offset of the first option, after the magic cookie. */
  const FIRST_OPTION: nat := 240

  const DHCP_REQUEST: byte := 1
  const DHCP_REPLY: byte := 2
  const DHCP_HTYPE_ETHERNET: byte := 1

  const DHCPDISCOVER: byte := 1
  const DHCPOFFER: byte := 2
  const DHCPREQUEST: byte := 3
  const DHCPACK: byte := 5

  const OPTION_SUBNET_MASK: byte := 1
  const OPTION_ROUTER: byte := 3
  const OPTION_DNS_SERVER: byte := 6
  const OPTION_REQ_IPADDR: byte := 50
  const OPTION_LEASE_TIME: byte := 51
  const OPTION_MSG_TYPE: byte := 53
  const OPTION_SERVER_ID: byte := 54
  const OPTION_REQ_LIST: byte := 55
  const OPTION_END: byte := 255

  /** The magic cookie of section 3 of RFC 2131: 99.130.83.99. */
  const COOKIE: seq<byte> := [99, 130, 83, 99]

  /** `INFINITE`: the all-ones 32-bit tick count. */
  const INFINITE: nat := 0xffff_ffff

  /** `n` zero bytes. */
  function Zeros(n: nat): (z: seq<byte>)
    ensures |z| == n && forall i :: 0 <= i < n ==> z[i] == 0
  {
    if n == 0 then [] else Zeros(n - 1) + [0]
  }

  /** `xid` as `memcpy` copies it: the four bytes of a little-endian `uint32_t`. */
  function XidBytes(xid: nat): (b: seq<byte>)
    requires xid < U32
    ensures |b| == 4
  {
    [(xid % 0x100) as byte, (xid / 0x100 % 0x100) as byte,
     (xid / 0x1_0000 % 0x100) as byte, (xid / 0x100_0000) as byte]
  }

  // ---------------------------------------------------------------- the fixed part

  /** op, htype, hlen, hops, xid, secs, flags (the broadcast bit, in network order), ciaddr. */
  function Header(xid: nat, hlen: nat, host: seq<byte>): (h: seq<byte>)
    requires xid < U32 && hlen < 256 && |host| == 4
    ensures |h| == 16
  {
    [DHCP_REQUEST, DHCP_HTYPE_ETHERNET, hlen as byte, 0] + XidBytes(xid) + [0, 0] + [0x80, 0] + host
  }

  /** `chaddr`: the MAC, padded with zeros to 16 bytes. */
  function Chaddr(mac: seq<byte>): (c: seq<byte>)
    requires |mac| <= 16
    ensures |c| == 16
  {
    mac + Zeros(16 - |mac|)
  }

  /**
   * The first 240 bytes as `create_msg` leaves them: the header, zero
   * yiaddr/siaddr/giaddr, chaddr, zero sname and file, then the cookie.
   */
  function MsgPrefix(xid: nat, mac: seq<byte>, host: seq<byte>): (m: seq<byte>)
    requires xid < U32 && |mac| <= 16 && |host| == 4
    ensures |m| == FIRST_OPTION
  {
    Header(xid, |mac|, host) + Zeros(12) + Chaddr(mac) + Zeros(192) + COOKIE
  }

  /** Where section 2 of RFC 2131 places each field, and what `create_msg` puts there. */
  lemma MsgPrefixLayout(xid: nat, mac: seq<byte>, host: seq<byte>)
    requires xid < U32 && |mac| <= 16 && |host| == 4
    ensures var m := MsgPrefix(xid, mac, host);
            && m[0] == DHCP_REQUEST && m[1] == DHCP_HTYPE_ETHERNET && m[2] == |mac| as byte && m[3] == 0
            && m[4..8] == XidBytes(xid) && m[8..10] == [0, 0] && m[10..12] == [0x80, 0]
            && m[12..16] == host && (forall i :: 16 <= i < 28 ==> m[i] == 0)
            && m[28..28 + |mac|] == mac && (forall i :: 28 + |mac| <= i < 44 ==> m[i] == 0)
            && (forall i :: 44 <= i < OPTIONS ==> m[i] == 0) && m[OPTIONS..] == COOKIE
  {
    var m := MsgPrefix(xid, mac, host);
    PrefixPieces(xid, mac, host);
    HeaderLayout(xid, |mac|, host);
    var h := m[..16];
    assert m[0] == h[0] && m[1] == h[1] && m[2] == h[2] && m[3] == h[3];
    assert m[4..8] == h[4..8] && m[8..10] == h[8..10] && m[10..12] == h[10..12] && m[12..16] == h[12..16];
    forall i | 16 <= i < 28 ensures m[i] == 0 {
      assert m[i] == m[16..28][i - 16];
    }
    var c := m[28..44];
    assert m[28..28 + |mac|] == c[..|mac|];
    forall i | 28 + |mac| <= i < 44 ensures m[i] == 0 {
      assert m[i] == c[i - 28] == Zeros(16 - |mac|)[i - 28 - |mac|];
    }
    forall i | 44 <= i < OPTIONS ensures m[i] == 0 {
      assert m[i] == m[44..OPTIONS][i - 44];
    }
  }

  /** The fixed part is its five pieces end to end. */
  lemma PrefixPieces(xid: nat, mac: seq<byte>, host: seq<byte>)
    requires xid < U32 && |mac| <= 16 && |host| == 4
    ensures var m := MsgPrefix(xid, mac, host);
            && m[..16] == Header(xid, |mac|, host) && m[16..28] == Zeros(12)
            && m[28..44] == Chaddr(mac) && m[44..OPTIONS] == Zeros(192) && m[OPTIONS..] == COOKIE
  {
    var h := Header(xid, |mac|, host);
    var a := h + Zeros(12);
    var b := a + Chaddr(mac);
    var c := b + Zeros(192);
    var m := c + COOKIE;
    assert m[..OPTIONS] == c && m[OPTIONS..] == COOKIE;
    assert m[44..OPTIONS] == c[44..];
    assert m[..44] == b;
    assert m[28..44] == b[28..];
    assert m[..28] == a;
    assert m[16..28] == a[16..];
    assert m[..16] == a[..16] == h;
  }

  /** The 16 header bytes field by field. */
  lemma HeaderLayout(xid: nat, hlen: nat, host: seq<byte>)
    requires xid < U32 && hlen < 256 && |host| == 4
    ensures var h := Header(xid, hlen, host);
            && h[0] == DHCP_REQUEST && h[1] == DHCP_HTYPE_ETHERNET && h[2] == hlen as byte && h[3] == 0
            && h[4..8] == XidBytes(xid) && h[8..10] == [0, 0] && h[10..12] == [0x80, 0] && h[12..16] == host
  {
  }


  // ---------------------------------------------------------------- options

  /** One option as RFC 2132 writes it: a code, a length byte and the value. */
  datatype Tlv = Tlv(code: byte, value: seq<byte>)

  /** The codes `parse_options` copies a four-byte value from. */
  predicate IsAddrCode(c: byte) {
    c == OPTION_SUBNET_MASK || c == OPTION_ROUTER || c == OPTION_DNS_SERVER
    || c == OPTION_LEASE_TIME || c == OPTION_SERVER_ID
  }

  /** An option whose length fits its length byte and whose value is what its code calls for. */
  predicate WellFormedTlv(o: Tlv) {
    && |o.value| < 256 && o.code != OPTION_END
    && (IsAddrCode(o.code) ==> |o.value| == 4)
    && (o.code == OPTION_MSG_TYPE ==> |o.value| == 1)
  }

  predicate AllWellFormed(os: seq<Tlv>) {
    forall i :: 0 <= i < |os| ==> WellFormedTlv(os[i])
  }

  function EncodeTlv(o: Tlv): (e: seq<byte>)
    requires |o.value| < 256
    ensures |e| == 2 + |o.value|
  {
    [o.code, |o.value| as byte] + o.value
  }

  function EncodeTlvs(os: seq<Tlv>): seq<byte>
    requires AllWellFormed(os)
  {
    if os == [] then [] else EncodeTlv(os[0]) + EncodeTlvs(os[1..])
  }

  /** `add_msg_type`: option 53 (section 9.6 of RFC 2132). */
  function OptMsgType(t: byte): (e: seq<byte>)
    ensures e == [OPTION_MSG_TYPE, 1, t]
  {
    EncodeTlv(Tlv(OPTION_MSG_TYPE, [t]))
  }

  /** `add_server_id`: option 54 (section 9.7 of RFC 2132). */
  function OptServerId(sid: seq<byte>): (e: seq<byte>)
    requires |sid| == 4
    ensures |e| == 6 && e[..2] == [OPTION_SERVER_ID, 4] && e[2..] == sid
  {
    EncodeTlv(Tlv(OPTION_SERVER_ID, sid))
  }

  /** `add_req_ipaddr`: option 50 (section 9.1 of RFC 2132). */
  function OptReqIpaddr(ip: seq<byte>): (e: seq<byte>)
    requires |ip| == 4
    ensures |e| == 6 && e[..2] == [OPTION_REQ_IPADDR, 4] && e[2..] == ip
  {
    EncodeTlv(Tlv(OPTION_REQ_IPADDR, ip))
  }

  /** `add_req_options`: option 55 (section 9.8 of RFC 2132) asking for mask, router and DNS. */
  function OptReqList(): (e: seq<byte>)
    ensures e == [OPTION_REQ_LIST, 3, OPTION_SUBNET_MASK, OPTION_ROUTER, OPTION_DNS_SERVER]
  {
    EncodeTlv(Tlv(OPTION_REQ_LIST, [OPTION_SUBNET_MASK, OPTION_ROUTER, OPTION_DNS_SERVER]))
  }

  /** `add_end`: option 255 (section 3.2 of RFC 2132). */
  const OPT_END: seq<byte> := [OPTION_END]

  /** The datagram `send_discover` writes. */
  function DiscoverMsg(xid: nat, mac: seq<byte>, host: seq<byte>): seq<byte>
    requires xid < U32 && |mac| <= 16 && |host| == 4
  {
    MsgPrefix(xid, mac, host) + OptMsgType(DHCPDISCOVER) + OptReqList() + OPT_END
  }

  /** The datagram `send_request` writes. */
  function RequestMsg(xid: nat, mac: seq<byte>, host: seq<byte>, sid: seq<byte>, ip: seq<byte>): seq<byte>
    requires xid < U32 && |mac| <= 16 && |host| == 4 && |sid| == 4 && |ip| == 4
  {
    MsgPrefix(xid, mac, host) + OptMsgType(DHCPREQUEST) + OptServerId(sid) + OptReqIpaddr(ip) + OPT_END
  }

  // ---------------------------------------------------------------- parsing

  /** The byte at `i` of the message buffer; bytes past the buffer read as 0. */
  function At(msg: seq<byte>, i: nat): byte {
    if i < |msg| then msg[i] else 0
  }

  /** Four bytes from `i`, as `memcpy(..., optptr + 2, 4)` copies them. */
  function Quad(msg: seq<byte>, i: nat): (q: seq<byte>)
    ensures |q| == 4
  {
    [At(msg, i), At(msg, i + 1), At(msg, i + 2), At(msg, i + 3)]
  }

  /** `optptr += optptr[1] + 2`: every option, pad included, is taken as code, length, value. */
  function NextOption(msg: seq<byte>, p: nat): (q: nat)
    ensures q >= p + 2
  {
    p + At(msg, p + 1) as nat + 2
  }

  /** What the client knows: `serverid`, `lease_time`, `ipaddr`, `netmask`, `dnsaddr`, `default_router`. */
  datatype Lease = Lease(serverid: seq<byte>, leaseTime: seq<byte>, ipaddr: seq<byte>,
                         netmask: seq<byte>, dnsaddr: seq<byte>, router: seq<byte>)

  /** Every field is four bytes. */
  predicate LeaseOk(l: Lease) {
    |l.serverid| == 4 && |l.leaseTime| == 4 && |l.ipaddr| == 4
    && |l.netmask| == 4 && |l.dnsaddr| == 4 && |l.router| == 4
  }

  /** What an option with a given code and value teaches, and the message type seen. */
  function Learn(code: byte, v: seq<byte>, l: Lease, t: byte): (Lease, byte)
    requires |v| >= 1
  {
    if code == OPTION_SUBNET_MASK then (l.(netmask := v), t)
    else if code == OPTION_ROUTER then (l.(router := v), t)
    else if code == OPTION_DNS_SERVER then (l.(dnsaddr := v), t)
    else if code == OPTION_MSG_TYPE then (l, v[0])
    else if code == OPTION_SERVER_ID then (l.(serverid := v), t)
    else if code == OPTION_LEASE_TIME then (l.(leaseTime := v), t)
    else (l, t)
  }

  /** The `switch` of `parse_options` on the option at `p`. */
  function ApplyOption(msg: seq<byte>, p: nat, l: Lease, t: byte): (Lease, byte) {
    Learn(At(msg, p), Quad(msg, p + 2), l, t)
  }

  /**
   * `parse_options` from `p` to the bound `end`: the lease learnt and the
   * last message type seen (0 if none), up to END or the bound.
   */
  function WalkOptions(msg: seq<byte>, p: nat, end: nat, l: Lease, t: byte): (r: (Lease, byte))
    ensures LeaseOk(l) ==> LeaseOk(r.0)
    decreases end - p
  {
    if p >= end || At(msg, p) == OPTION_END then (l, t)
    else
      var (l', t') := ApplyOption(msg, p, l, t);
      WalkOptions(msg, NextOption(msg, p), end, l', t')
  }

  /** The loop of `msg_for_me`: the first message type before END within the bound, or -1. */
  function FirstType(msg: seq<byte>, p: nat, end: nat): (r: int)
    ensures -1 <= r < 256
    decreases end - p
  {
    if p >= end then -1
    else if At(msg, p) == OPTION_MSG_TYPE then At(msg, p + 2) as int
    else if At(msg, p) == OPTION_END then -1
    else FirstType(msg, NextOption(msg, p), end)
  }

  /** The test `parse_msg` and `msg_for_me` share: a reply to this client's current transaction. */
  predicate ForMe(msg: seq<byte>, xid: nat, mac: seq<byte>)
    requires xid < U32
  {
    |msg| >= 28 + |mac| && msg[0] == DHCP_REPLY && msg[4..8] == XidBytes(xid) && msg[28..28 + |mac|] == mac
  }

  /** `msg_for_me(len)`: the message type of a reply for this client, -1 otherwise. */
  function ReplyType(msg: seq<byte>, len: nat, xid: nat, mac: seq<byte>): (r: int)
    requires xid < U32
    ensures !ForMe(msg, xid, mac) ==> r == -1
    ensures -1 <= r < 256
  {
    if ForMe(msg, xid, mac) then FirstType(msg, FIRST_OPTION, len) else -1
  }

  /**
   * `parse_msg(len)`, with the option walk bounded by the end of the received
   * message: for a reply to this client, `yiaddr` becomes the address and the
   * options are read; anything else teaches nothing and yields type 0.
   */
  function Learned(msg: seq<byte>, len: nat, xid: nat, mac: seq<byte>, l: Lease): (r: (Lease, byte))
    requires xid < U32 && |msg| == MSG_SIZE
    ensures !ForMe(msg, xid, mac) ==> r == (l, 0)
    ensures LeaseOk(l) ==> LeaseOk(r.0)
  {
    if ForMe(msg, xid, mac) then WalkOptions(msg, FIRST_OPTION, len, l.(ipaddr := msg[16..20]), 0)
    else (l, 0)
  }

  /**
   * `parse_msg(len)` as written: `parse_options(&m->options[4], len)` puts the
   * bound `len` bytes after the first option instead of at the end of the
   * message, 240 bytes too far.
   */
  function LearnedAsWritten(msg: seq<byte>, len: nat, xid: nat, mac: seq<byte>, l: Lease): (Lease, byte)
    requires xid < U32 && |msg| == MSG_SIZE
  {
    if ForMe(msg, xid, mac) then WalkOptions(msg, FIRST_OPTION, FIRST_OPTION + len, l.(ipaddr := msg[16..20]), 0)
    else (l, 0)
  }

  /**
   * A 243-byte DHCPACK whose only option is its message type, with no END,
   * received into a buffer that still holds a lease-time option (and END)
   * from an earlier message just past it. `msg_for_me` accepts the reply and
   * `readResponse` returns 243; bounded by the message, nothing more is learnt,
   * but as written the walk runs on into the old bytes and takes the stale
   * lease time as this reply's.
   */
  lemma StaleOptionAsWritten(msg: seq<byte>, data: seq<byte>, left: int, stale: seq<byte>,
                             xid: nat, mac: seq<byte>, l: Lease)
    requires xid < U32 && |msg| == MSG_SIZE && |mac| <= 16
    requires |data| == 243 && ForMe(data, xid, mac) && data[FIRST_OPTION..] == OptMsgType(DHCPACK)
    requires |stale| == 4 && msg[243..249] == [OPTION_LEASE_TIME, 4] + stale && msg[249] == OPTION_END
    ensures var m := Receive(msg, data).1;
            && ReplyType(m, 243, xid, mac) == DHCPACK as int
            && Await(DHCPACK as int, msg, [Arrival(data, left)], xid, mac, l) == Awaited(243, m, Learned(m, 243, xid, mac, l).0, [])
            && Learned(m, 243, xid, mac, l).0.leaseTime == l.leaseTime
            && LearnedAsWritten(m, 243, xid, mac, l).0.leaseTime == stale
  {
    var m := Receive(msg, data).1;
    assert m[..243] == data && m[243..] == msg[243..];
    assert ForMe(m, xid, mac) by {
      assert m[0] == data[0] && m[4..8] == data[4..8] && m[28..28 + |mac|] == data[28..28 + |mac|];
    }
    assert At(m, 240) == OPTION_MSG_TYPE && At(m, 241) == 1 && At(m, 242) == DHCPACK by {
      assert data[FIRST_OPTION..][0] == OPTION_MSG_TYPE && data[FIRST_OPTION..][1] == 1;
      assert data[FIRST_OPTION..][2] == DHCPACK;
    }
    assert At(m, 243) == OPTION_LEASE_TIME && At(m, 244) == 4 && Quad(m, 245) == stale by {
      assert msg[243..249][0] == OPTION_LEASE_TIME && msg[243..249][1] == 4;
      assert msg[243..249][2..] == stale;
    }
    var l0 := l.(ipaddr := m[16..20]);
    assert NextOption(m, 240) == 243;
    assert ApplyOption(m, 240, l0, 0) == (l0, DHCPACK);
    assert Learned(m, 243, xid, mac, l) == (l0, DHCPACK);
    assert ApplyOption(m, 243, l0, DHCPACK) == (l0.(leaseTime := stale), DHCPACK);
    assert NextOption(m, 243) == 249 && At(m, 249) == OPTION_END;
    assert WalkOptions(m, 243, 483, l0, DHCPACK) == (l0.(leaseTime := stale), DHCPACK);
  }

  /**
   * Pad (code 0, section 3.1 of RFC 2132) is walked as an option with a length
   * byte: a pad before the message type makes the walk jump over it.
   */
  lemma PadTakenAsOption(msg: seq<byte>, l: Lease)
    requires |msg| == MSG_SIZE && msg[FIRST_OPTION..245] == [0] + OptMsgType(DHCPACK) + OPT_END
    ensures NextOption(msg, FIRST_OPTION) == 295
    ensures FirstType(msg, FIRST_OPTION, 245) == -1
    ensures WalkOptions(msg, FIRST_OPTION, 245, l, 0) == (l, 0)
  {
    assert At(msg, 240) == 0 && At(msg, 241) == OPTION_MSG_TYPE by {
      assert msg[FIRST_OPTION..245][0] == 0 && msg[FIRST_OPTION..245][1] == OPTION_MSG_TYPE;
    }
    assert NextOption(msg, 240) == 295;
  }

  // ---------------------------------------------------------------- round trips

  /** Options placed in a buffer at `p`. */
  predicate PlacedAt(msg: seq<byte>, p: nat, s: seq<byte>) {
    p + |s| <= |msg| && msg[p..p + |s|] == s
  }

  lemma PlacedSplit(msg: seq<byte>, p: nat, a: seq<byte>, b: seq<byte>)
    requires PlacedAt(msg, p, a + b)
    ensures PlacedAt(msg, p, a) && PlacedAt(msg, p + |a|, b)
  {
    assert msg[p..p + |a|] == msg[p..p + |a| + |b|][..|a|];
    assert msg[p + |a|..p + |a| + |b|] == msg[p..p + |a| + |b|][|a|..];
  }

  lemma PlacedByte(msg: seq<byte>, p: nat, s: seq<byte>, i: nat)
    requires PlacedAt(msg, p, s) && i < |s|
    ensures At(msg, p + i) == s[i]
  {
    assert msg[p..p + |s|][i] == msg[p + i];
  }

  /** The walk reads back one option exactly as `EncodeTlv` wrote it. */
  /** The code, length and first value byte of an option are read back as written. */
  lemma ReadTlvHead(msg: seq<byte>, p: nat, o: Tlv)
    requires WellFormedTlv(o) && |o.value| >= 1 && PlacedAt(msg, p, EncodeTlv(o))
    ensures At(msg, p) == o.code && NextOption(msg, p) == p + 2 + |o.value|
    ensures At(msg, p + 2) == o.value[0]
  {
    var e := EncodeTlv(o);
    PlacedByte(msg, p, e, 0);
    PlacedByte(msg, p, e, 1);
    PlacedByte(msg, p, e, 2);
    ByteOfNat(|o.value|);
  }

  lemma ReadTlv(msg: seq<byte>, p: nat, o: Tlv, l: Lease, t: byte)
    requires WellFormedTlv(o) && |o.value| >= 1 && PlacedAt(msg, p, EncodeTlv(o))
    ensures At(msg, p) == o.code && NextOption(msg, p) == p + 2 + |o.value|
    ensures o.code == OPTION_MSG_TYPE ==> At(msg, p + 2) == o.value[0]
    ensures ApplyOption(msg, p, l, t) == Learn(o.code, o.value, l, t)
  {
    var e := EncodeTlv(o);
    ReadTlvHead(msg, p, o);
    if IsAddrCode(o.code) {
      PlacedByte(msg, p, e, 3);
      PlacedByte(msg, p, e, 4);
      PlacedByte(msg, p, e, 5);
      assert Quad(msg, p + 2) == o.value;
    }
    LearnSameValue(o.code, Quad(msg, p + 2), o.value, l, t);
  }

  /** Only the value's first byte (message type) or all four (addresses) matter to `Learn`. */
  lemma LearnSameValue(code: byte, v: seq<byte>, w: seq<byte>, l: Lease, t: byte)
    requires |v| >= 1 && |w| >= 1
    requires IsAddrCode(code) ==> v == w
    requires code == OPTION_MSG_TYPE ==> v[0] == w[0]
    ensures Learn(code, v, l, t) == Learn(code, w, l, t)
  {
  }

  /** What a list of options teaches, applied in order. */
  function LearnAll(os: seq<Tlv>, l: Lease, t: byte): (Lease, byte)
    requires Parseable(os)
  {
    if os == [] then (l, t)
    else
      var (l', t') := Learn(os[0].code, os[0].value, l, t);
      LearnAll(os[1..], l', t')
  }

  /** The first message type in a list of options, or -1. */
  function FirstTypeOf(os: seq<Tlv>): int
    requires AllWellFormed(os)
  {
    if os == [] then -1
    else if os[0].code == OPTION_MSG_TYPE then os[0].value[0] as int
    else FirstTypeOf(os[1..])
  }

  /** Well-formed options, none of them empty. */
  predicate Parseable(os: seq<Tlv>) {
    AllWellFormed(os) && forall i :: 0 <= i < |os| ==> |os[i].value| >= 1
  }

  /**
   * The parser inverts the encoder: options followed by END, walked with a
   * bound past the END, teach what the options say, and `msg_for_me`'s loop
   * finds the first message type among them.
   */
  lemma WalkInvertsEncode(msg: seq<byte>, p: nat, end: nat, os: seq<Tlv>, l: Lease, t: byte)
    requires Parseable(os) && PlacedAt(msg, p, EncodeTlvs(os) + OPT_END) && p + |EncodeTlvs(os)| < end
    ensures WalkOptions(msg, p, end, l, t) == LearnAll(os, l, t)
    ensures FirstType(msg, p, end) == FirstTypeOf(os)
  {
    WalkLearns(msg, p, end, os, l, t);
    WalkFindsType(msg, p, end, os, l, t);
  }

  /** The options after the first, placed after its encoding. */
  lemma NextTlvs(msg: seq<byte>, p: nat, os: seq<Tlv>)
    requires Parseable(os) && os != [] && PlacedAt(msg, p, EncodeTlvs(os) + OPT_END)
    ensures Parseable(os[1..]) && PlacedAt(msg, p, EncodeTlv(os[0]))
    ensures PlacedAt(msg, p + |EncodeTlv(os[0])|, EncodeTlvs(os[1..]) + OPT_END)
    ensures |EncodeTlvs(os)| == |EncodeTlv(os[0])| + |EncodeTlvs(os[1..])|
  {
    ParseableTail(os);
    var e := EncodeTlv(os[0]);
    var rest := EncodeTlvs(os[1..]);
    assert EncodeTlvs(os) == e + rest;
    AppendAssoc(e, rest, OPT_END);
    PlacedSplit(msg, p, e, rest + OPT_END);
  }

  lemma ParseableTail(os: seq<Tlv>)
    requires Parseable(os) && os != []
    ensures Parseable(os[1..])
  {
    forall i | 0 <= i < |os[1..]| ensures WellFormedTlv(os[1..][i]) && |os[1..][i].value| >= 1 {
      assert os[1..][i] == os[i + 1];
    }
  }

  /** Walking an encoded option list learns what the options say. */
  lemma {:induction false} WalkLearns(msg: seq<byte>, p: nat, end: nat, os: seq<Tlv>, l: Lease, t: byte)
    requires Parseable(os) && PlacedAt(msg, p, EncodeTlvs(os) + OPT_END) && p + |EncodeTlvs(os)| < end
    ensures WalkOptions(msg, p, end, l, t) == LearnAll(os, l, t)
    decreases |os|
  {
    if os == [] {
      PlacedByte(msg, p, OPT_END, 0);
    } else {
      NextTlvs(msg, p, os);
      ReadTlv(msg, p, os[0], l, t);
      var (l', t') := Learn(os[0].code, os[0].value, l, t);
      var q := p + |EncodeTlv(os[0])|;
      assert WalkOptions(msg, p, end, l, t) == WalkOptions(msg, q, end, l', t');
      WalkLearns(msg, q, end, os[1..], l', t');
    }
  }

  /** `msg_for_me`'s loop over an encoded option list finds its first message type. */
  lemma {:induction false} WalkFindsType(msg: seq<byte>, p: nat, end: nat, os: seq<Tlv>, l: Lease, t: byte)
    requires Parseable(os) && PlacedAt(msg, p, EncodeTlvs(os) + OPT_END) && p + |EncodeTlvs(os)| < end
    ensures FirstType(msg, p, end) == FirstTypeOf(os)
    decreases |os|
  {
    if os == [] {
      PlacedByte(msg, p, OPT_END, 0);
    } else {
      var o, q := os[0], p + |EncodeTlv(os[0])|;
      assert && At(msg, p) == o.code && At(msg, p + 2) == o.value[0] && NextOption(msg, p) == q
             && Parseable(os[1..]) && PlacedAt(msg, q, EncodeTlvs(os[1..]) + OPT_END)
             && q + |EncodeTlvs(os[1..])| < end by {
        NextTlvs(msg, p, os);
        ReadTlvHead(msg, p, o);
      }
      if o.code != OPTION_MSG_TYPE {
        WalkFindsType(msg, q, end, os[1..], l, t);
      }
    }
  }


  lemma EncodeTwo(a: Tlv, b: Tlv)
    requires WellFormedTlv(a) && WellFormedTlv(b)
    ensures EncodeTlvs([a, b]) == EncodeTlv(a) + EncodeTlv(b)
  {
    assert [a, b][1..] == [b] && [b][1..] == [];
    assert EncodeTlvs([b]) == EncodeTlv(b) + [];
    assert EncodeTlv(b) + [] == EncodeTlv(b);
  }

  lemma EncodeThree(a: Tlv, b: Tlv, c: Tlv)
    requires WellFormedTlv(a) && WellFormedTlv(b) && WellFormedTlv(c)
    ensures EncodeTlvs([a, b, c]) == EncodeTlv(a) + EncodeTlv(b) + EncodeTlv(c)
  {
    assert [a, b, c][1..] == [b, c];
    EncodeTwo(b, c);
  }

  lemma DropPrefix3(p: seq<byte>, a: seq<byte>, b: seq<byte>, c: seq<byte>)
    ensures (p + a + b + c)[|p|..] == a + b + c
  {
  }

  lemma DropPrefix4(p: seq<byte>, a: seq<byte>, b: seq<byte>, c: seq<byte>, d: seq<byte>)
    ensures (p + a + b + c + d)[|p|..] == a + b + c + d
  {
  }

  function DiscoverTlvs(): (os: seq<Tlv>)
    ensures Parseable(os)
  {
    [Tlv(OPTION_MSG_TYPE, [DHCPDISCOVER]), Tlv(OPTION_REQ_LIST, [OPTION_SUBNET_MASK, OPTION_ROUTER, OPTION_DNS_SERVER])]
  }

  function RequestTlvs(sid: seq<byte>, ip: seq<byte>): (os: seq<Tlv>)
    requires |sid| == 4 && |ip| == 4
    ensures Parseable(os)
  {
    [Tlv(OPTION_MSG_TYPE, [DHCPREQUEST]), Tlv(OPTION_SERVER_ID, sid), Tlv(OPTION_REQ_IPADDR, ip)]
  }

  /**
   * `send_discover` sends 249 bytes: the fixed part, the cookie, then message
   * type DHCPDISCOVER, the parameter request list and END; read back, its
   * type is DHCPDISCOVER and it teaches nothing.
   */
  lemma DiscoverRoundTrip(xid: nat, mac: seq<byte>, host: seq<byte>, l: Lease, t: byte)
    requires xid < U32 && |mac| <= 16 && |host| == 4
    ensures var m := DiscoverMsg(xid, mac, host);
            && |m| == 249 && m[..FIRST_OPTION] == MsgPrefix(xid, mac, host)
            && WalkOptions(m, FIRST_OPTION, |m|, l, t) == (l, DHCPDISCOVER)
            && FirstType(m, FIRST_OPTION, |m|) == DHCPDISCOVER as int
  {
    var m := DiscoverMsg(xid, mac, host);
    var os := DiscoverTlvs();
    EncodeTwo(os[0], os[1]);
    DropPrefix3(MsgPrefix(xid, mac, host), OptMsgType(DHCPDISCOVER), OptReqList(), OPT_END);
    WalkInvertsEncode(m, FIRST_OPTION, |m|, os, l, t);
    LearnDiscover(l, t);
  }

  lemma LearnDiscover(l: Lease, t: byte)
    ensures LearnAll(DiscoverTlvs(), l, t) == (l, DHCPDISCOVER)
    ensures FirstTypeOf(DiscoverTlvs()) == DHCPDISCOVER as int
  {
    var os := DiscoverTlvs();
    assert os[1..] == [os[1]] && os[2..] == [];
    assert LearnAll(os[1..], l, DHCPDISCOVER) == (l, DHCPDISCOVER);
  }

  /**
   * `send_request` sends 256 bytes: the fixed part, the cookie, then message
   * type DHCPREQUEST, the server id, the requested address and END; read back,
   * its type is DHCPREQUEST and the only thing it teaches is the server id.
   */
  lemma RequestRoundTrip(xid: nat, mac: seq<byte>, host: seq<byte>, sid: seq<byte>, ip: seq<byte>, l: Lease, t: byte)
    requires xid < U32 && |mac| <= 16 && |host| == 4 && |sid| == 4 && |ip| == 4
    ensures var m := RequestMsg(xid, mac, host, sid, ip);
            && |m| == 256 && m[..FIRST_OPTION] == MsgPrefix(xid, mac, host)
            && WalkOptions(m, FIRST_OPTION, |m|, l, t) == (l.(serverid := sid), DHCPREQUEST)
            && FirstType(m, FIRST_OPTION, |m|) == DHCPREQUEST as int
  {
    var m := RequestMsg(xid, mac, host, sid, ip);
    var os := RequestTlvs(sid, ip);
    EncodeThree(os[0], os[1], os[2]);
    DropPrefix4(MsgPrefix(xid, mac, host), OptMsgType(DHCPREQUEST), OptServerId(sid), OptReqIpaddr(ip), OPT_END);
    WalkInvertsEncode(m, FIRST_OPTION, |m|, os, l, t);
    LearnRequest(sid, ip, l, t);
  }

  lemma LearnRequest(sid: seq<byte>, ip: seq<byte>, l: Lease, t: byte)
    requires |sid| == 4 && |ip| == 4
    ensures LearnAll(RequestTlvs(sid, ip), l, t) == (l.(serverid := sid), DHCPREQUEST)
    ensures FirstTypeOf(RequestTlvs(sid, ip)) == DHCPREQUEST as int
  {
    var os := RequestTlvs(sid, ip);
    assert os[1..] == [os[1], os[2]] && os[2..] == [os[2]] && os[3..] == [];
    assert LearnAll(os[2..], l.(serverid := sid), DHCPREQUEST) == (l.(serverid := sid), DHCPREQUEST);
  }

  /**
   * A server's reply to this client, options terminated by END within the
   * received length, is read in full: the offered address from `yiaddr` and
   * what its options say; `msg_for_me` reports its first message type.
   */
  lemma ReplyRoundTrip(msg: seq<byte>, len: nat, xid: nat, mac: seq<byte>, os: seq<Tlv>, l: Lease)
    requires xid < U32 && |msg| == MSG_SIZE && ForMe(msg, xid, mac) && Parseable(os)
    requires PlacedAt(msg, FIRST_OPTION, EncodeTlvs(os) + OPT_END) && FIRST_OPTION + |EncodeTlvs(os)| < len
    ensures Learned(msg, len, xid, mac, l) == LearnAll(os, l.(ipaddr := msg[16..20]), 0)
    ensures ReplyType(msg, len, xid, mac) == FirstTypeOf(os)
  {
    WalkInvertsEncode(msg, FIRST_OPTION, len, os, l.(ipaddr := msg[16..20]), 0);
  }

  // ---------------------------------------------------------------- waiting for a reply

  /**
   * One return of `netSockRead` in `readResponse`: the datagram received (empty
   * for a timeout) and `end - jiffies` afterwards.
   */
  datatype Arrival = Arrival(data: seq<byte>, left: int)

  /** `netSockRead` into the message buffer: the datagram, cut to the buffer, over the old bytes. */
  function Receive(msg: seq<byte>, data: seq<byte>): (r: (nat, seq<byte>))
    requires |msg| == MSG_SIZE
    ensures r.0 <= MSG_SIZE && r.0 <= |data| && |r.1| == MSG_SIZE
    ensures r.1[..r.0] == data[..r.0] && r.1[r.0..] == msg[r.0..]
    ensures r.0 == 0 <==> data == []
  {
    var n := if |data| < MSG_SIZE then |data| else MSG_SIZE;
    (n, data[..n] + msg[n..])
  }

  /** The outcome of `readResponse`: its result, the buffer, the lease and the arrivals left. */
  datatype Awaited = Awaited(res: int, msg: seq<byte>, lease: Lease, rest: seq<Arrival>)

  /**
   * `readResponse(type, ...)`: the first datagram for this client of the wanted
   * type is parsed and its length returned; -1 once the wait is over.
   */
  function Await(want: int, msg: seq<byte>, rx: seq<Arrival>, xid: nat, mac: seq<byte>, l: Lease): (r: Awaited)
    requires xid < U32 && |msg| == MSG_SIZE
    ensures r.res == -1 || 0 < r.res <= MSG_SIZE
    ensures |r.msg| == MSG_SIZE && |r.rest| <= |rx|
    ensures r.res > 0 ==> ReplyType(r.msg, r.res, xid, mac) == want
                          && r.lease == Learned(r.msg, r.res, xid, mac, l).0
    ensures r.res > 0 && want >= 0 ==> ForMe(r.msg, xid, mac)
    ensures r.res == -1 ==> r.lease == l
    decreases |rx|
  {
    if rx == [] then Awaited(-1, msg, l, [])
    else
      var (n, m) := Receive(msg, rx[0].data);
      if n > 0 && ReplyType(m, n, xid, mac) == want then Awaited(n, m, Learned(m, n, xid, mac, l).0, rx[1..])
      else if rx[0].left > 0 then Await(want, m, rx[1..], xid, mac, l)
      else Awaited(-1, m, l, rx[1..])
  }

  /** A reply to another transaction or another client is passed over. */
  lemma AwaitSkipsOthers(want: int, msg: seq<byte>, rx: seq<Arrival>, xid: nat, mac: seq<byte>, l: Lease)
    requires xid < U32 && |msg| == MSG_SIZE && rx != [] && rx[0].left > 0 && want >= 0
    requires !ForMe(Receive(msg, rx[0].data).1, xid, mac)
    ensures Await(want, msg, rx, xid, mac, l) == Await(want, Receive(msg, rx[0].data).1, rx[1..], xid, mac, l)
  {
  }

  // ---------------------------------------------------------------- schedule and lease

  /** The discover back-off: the wait doubles while it is below 60 seconds. */
  function NextDiscoverWait(w: nat): nat {
    if w < 60 then w * 2 else w
  }

  /** The wait after the `k`-th unanswered discover, starting from 1 second. */
  function DiscoverWait(k: nat): nat {
    if k == 0 then 1 else NextDiscoverWait(DiscoverWait(k - 1))
  }

  function Pow2(k: nat): (p: nat)
    ensures p >= 1
  {
    if k == 0 then 1 else 2 * Pow2(k - 1)
  }

  /** Waits run 1, 2, 4, ..., 64 seconds and stay at 64. */
  lemma {:induction false} DiscoverWaitSchedule(k: nat)
    ensures k <= 6 ==> DiscoverWait(k) == Pow2(k) <= 64
    ensures k >= 6 ==> DiscoverWait(k) == 64
  {
    if k > 0 {
      DiscoverWaitSchedule(k - 1);
      if k <= 6 {
        Pow2Small(k - 1);
      }
    }
  }

  lemma Pow2Small(k: nat)
    requires k <= 5
    ensures 2 * Pow2(k) <= 64
  {
    assert Pow2(1) == 2;
    assert Pow2(2) == 4;
    assert Pow2(3) == 8;
    assert Pow2(4) == 16;
    assert Pow2(5) == 32;
  }

  /** The request wait grows by one second up to 10; after that discovery restarts. */
  function NextRequestWait(w: nat): Option<nat> {
    if w < 10 then Some(w + 1) else None
  }

  /** The waits of the requests sent before discovery restarts, from `w` on. */
  function RequestWaits(w: nat): seq<nat>
    decreases 10 - w
  {
    match NextRequestWait(w)
    case Some(w') => [w] + RequestWaits(w')
    case None => [w]
  }

  /** Requests wait w, w+1, ..., 10 seconds before discovery restarts. */
  lemma {:induction false} RequestSchedule(w: nat)
    requires 1 <= w <= 10
    ensures |RequestWaits(w)| == 11 - w
    ensures forall i :: 0 <= i < 11 - w ==> RequestWaits(w)[i] == w + i
    decreases 10 - w
  {
    if w < 10 {
      RequestSchedule(w + 1);
    }
  }

  function Sum(xs: seq<nat>): nat {
    if xs == [] then 0 else xs[0] + Sum(xs[1..])
  }

  lemma {:induction false} SumAppend(xs: seq<nat>, x: nat)
    ensures Sum(xs + [x]) == Sum(xs) + x
  {
    if xs == [] {
      assert xs + [x] == [x];
    } else {
      assert (xs + [x])[1..] == xs[1..] + [x];
      SumAppend(xs[1..], x);
    }
  }

  /** `ntohs` of a `uint16_t` whose memory holds `hi`, `lo`. */
  function Ntohs(hi: byte, lo: byte): nat {
    hi as nat * 0x100 + lo as nat
  }

  /** `ntohs(lease_time[0]) * 65536 + ntohs(lease_time[1])`. */
  function LeaseSeconds(lt: seq<byte>): nat
    requires |lt| == 4
  {
    Ntohs(lt[0], lt[1]) * 0x1_0000 + Ntohs(lt[2], lt[3])
  }

  /** The lease is option 51's value read as a big-endian 32-bit number (section 9.2 of RFC 2132). */
  lemma LeaseSecondsBigEndian(lt: seq<byte>)
    requires |lt| == 4
    ensures LeaseSeconds(lt) == lt[0] as nat * 0x100_0000 + lt[1] as nat * 0x1_0000 + lt[2] as nat * 0x100 + lt[3] as nat
    ensures LeaseSeconds(lt) < U32
  {
  }

  /** `MAX_SECS`: the longest sleep, in seconds, whose tick count stays below `INFINITE`. */
  function MaxSecs(hz: nat): (m: nat)
    requires 0 < hz < INFINITE
    ensures 1 <= m && m * hz <= INFINITE - 1
  {
    DivPositive(INFINITE - 1, hz);
    (INFINITE - 1) / hz
  }

  lemma DivPositive(a: nat, b: nat)
    requires 0 < b <= a
    ensures a / b >= 1 && (a / b) * b <= a
  {
  }

  lemma MulSplit(a: nat, b: nat, c: nat)
    ensures (a + b) * c == a * c + b * c
  {
  }

  lemma MulLe(a: nat, b: nat, c: nat)
    requires a <= b
    ensures a * c <= b * c
  {
  }

  /**
   * The sleep of the bound state: half the lease in chunks of at most
   * `MAX_SECS` seconds, each passed to `posTaskSleep` in ticks.
   */
  method SleepHalfLease(leaseLeft: nat, hz: nat) returns (waits: seq<nat>)
    requires 0 < hz < INFINITE
    ensures Sum(waits) == (leaseLeft / 2) * hz
    ensures forall i :: 0 <= i < |waits| ==> 0 < waits[i] < INFINITE
  {
    var sleepLeft: nat := leaseLeft / 2;
    var maxSecs := MaxSecs(hz);
    waits := [];
    while sleepLeft > 0
      invariant Sum(waits) + sleepLeft * hz == (leaseLeft / 2) * hz
      invariant forall i :: 0 <= i < |waits| ==> 0 < waits[i] < INFINITE
      decreases sleepLeft
    {
      var wait;
      if sleepLeft > maxSecs {
        wait := maxSecs * hz;
        MulSplit(sleepLeft - maxSecs, maxSecs, hz);
        sleepLeft := sleepLeft - maxSecs;
      } else {
        wait := sleepLeft * hz;
        MulLe(sleepLeft, maxSecs, hz);
        sleepLeft := 0;
      }
      SumAppend(waits, wait);
      waits := waits + [wait];
    }
    assert sleepLeft * hz == 0;
  }

  /**
   * The renewal waits (seconds) while no DHCPACK arrives: half the remaining
   * lease, capped at `MAX_SECS`, until at most 3 seconds remain.
   */
  function RenewWaits(leaseLeft: nat, maxSecs: nat): seq<nat>
    requires maxSecs > 0
    decreases leaseLeft
  {
    var wait := if leaseLeft / 2 > maxSecs then maxSecs else leaseLeft / 2;
    if leaseLeft - wait > 3 then [wait] + RenewWaits(leaseLeft - wait, maxSecs)
    else [wait]
  }

  /** Renewal never waits past the lease, and gives up with at most 3 seconds left. */
  lemma {:induction false} RenewWithinLease(leaseLeft: nat, maxSecs: nat)
    requires maxSecs > 0 && leaseLeft > 3
    ensures leaseLeft - 3 <= Sum(RenewWaits(leaseLeft, maxSecs)) <= leaseLeft
    decreases leaseLeft
  {
    var wait := if leaseLeft / 2 > maxSecs then maxSecs else leaseLeft / 2;
    if leaseLeft - wait > 3 {
      RenewWithinLease(leaseLeft - wait, maxSecs);
      assert RenewWaits(leaseLeft, maxSecs)[1..] == RenewWaits(leaseLeft - wait, maxSecs);
    } else {
      assert RenewWaits(leaseLeft, maxSecs)[1..] == [];
    }
  }

  // ---------------------------------------------------------------- the client

  /**
   * The client's static state: the message buffer `dhcp_msg_buf`, the
   * transaction id, the MAC, what was learnt, the datagrams written to the
   * socket and those still to arrive.
   */
  class DhcpClient {
    const buf: array<byte>
    var xid: nat
    const mac: seq<byte>
    var lease: Lease
    var sent: seq<seq<byte>>
    var rx: seq<Arrival>

    ghost predicate Valid()
      reads this
    {
      buf.Length == MSG_SIZE && xid < U32 && |mac| <= 16 && LeaseOk(lease)
    }

    /** `dhcpc_init`: the MAC is recorded; nothing is learnt yet. */
    constructor (macAddr: seq<byte>, arrivals: seq<Arrival>)
      requires |macAddr| <= 16
      ensures Valid() && mac == macAddr && xid == 0 && sent == [] && rx == arrivals
      ensures fresh(buf)
    {
      buf := new byte[MSG_SIZE];
      xid := 0;
      mac := macAddr;
      lease := Lease([0, 0, 0, 0], [0, 0, 0, 0], [0, 0, 0, 0], [0, 0, 0, 0], [0, 0, 0, 0], [0, 0, 0, 0]);
      sent := [];
      rx := arrivals;
    }

    /** `xid++` at the start of each exchange, on a `uint32_t`. */
    method NextXid()
      requires Valid()
      modifies this
      ensures Valid() && xid == (old(xid) + 1) % U32
      ensures lease == old(lease) && sent == old(sent) && rx == old(rx)
    {
      xid := (xid + 1) % U32;
    }

    /** `memcpy`/`memset` into the buffer: `bytes` at `off`, nothing else touched. */
    method Put(off: nat, bytes: seq<byte>)
      requires Valid() && off + |bytes| <= MSG_SIZE
      modifies buf
      ensures buf[..off + |bytes|] == old(buf[..off]) + bytes
      ensures buf[off + |bytes|..] == old(buf[off + |bytes|..])
    {
      forall i | 0 <= i < |bytes| {
        buf[off + i] := bytes[i];
      }
      assert buf[..off + |bytes|] == old(buf[..off]) + bytes;
    }

    /** `create_msg`: the fixed fields and the cookie. */
    method CreateMsg(host: seq<byte>)
      requires Valid() && |host| == 4
      modifies buf
      ensures buf[..FIRST_OPTION] == MsgPrefix(xid, mac, host)
      ensures buf[FIRST_OPTION..] == old(buf[FIRST_OPTION..])
    {
      Put(0, MsgPrefix(xid, mac, host));
    }

    /** `add_msg_type`: the option at `p`, and the position past it. */
    method AddMsgType(p: nat, t: byte) returns (q: nat)
      requires Valid() && p + 3 <= MSG_SIZE
      modifies buf
      ensures q == p + 3 && buf[..q] == old(buf[..p]) + OptMsgType(t) && buf[q..] == old(buf[q..])
    {
      Put(p, OptMsgType(t));
      q := p + 3;
    }

    /** `add_server_id`: the server id learnt from the offer. */
    method AddServerId(p: nat) returns (q: nat)
      requires Valid() && p + 6 <= MSG_SIZE
      modifies buf
      ensures q == p + 6 && buf[..q] == old(buf[..p]) + OptServerId(lease.serverid) && buf[q..] == old(buf[q..])
    {
      Put(p, OptServerId(lease.serverid));
      q := p + 6;
    }

    /** `add_req_ipaddr`: the address offered. */
    method AddReqIpaddr(p: nat) returns (q: nat)
      requires Valid() && p + 6 <= MSG_SIZE
      modifies buf
      ensures q == p + 6 && buf[..q] == old(buf[..p]) + OptReqIpaddr(lease.ipaddr) && buf[q..] == old(buf[q..])
    {
      Put(p, OptReqIpaddr(lease.ipaddr));
      q := p + 6;
    }

    /** `add_req_options`. */
    method AddReqOptions(p: nat) returns (q: nat)
      requires Valid() && p + 5 <= MSG_SIZE
      modifies buf
      ensures q == p + 5 && buf[..q] == old(buf[..p]) + OptReqList() && buf[q..] == old(buf[q..])
    {
      Put(p, OptReqList());
      q := p + 5;
    }

    /** `add_end`. */
    method AddEnd(p: nat) returns (q: nat)
      requires Valid() && p + 1 <= MSG_SIZE
      modifies buf
      ensures q == p + 1 && buf[..q] == old(buf[..p]) + OPT_END && buf[q..] == old(buf[q..])
    {
      Put(p, OPT_END);
      q := p + 1;
    }

    /** `send_discover`: the message is built in the buffer and its `end - m` bytes written. */
    method SendDiscover(host: seq<byte>)
      requires Valid() && |host| == 4
      modifies this, buf
      ensures Valid() && xid == old(xid) && lease == old(lease) && rx == old(rx)
      ensures sent == old(sent) + [DiscoverMsg(xid, mac, host)]
    {
      CreateMsg(host);
      var e := AddMsgType(FIRST_OPTION, DHCPDISCOVER);
      e := AddReqOptions(e);
      e := AddEnd(e);
      sent := sent + [buf[..e]];
    }

    /** `send_request`: the same, asking for the offered address from the offering server. */
    method SendRequest(host: seq<byte>)
      requires Valid() && |host| == 4
      modifies this, buf
      ensures Valid() && xid == old(xid) && lease == old(lease) && rx == old(rx)
      ensures sent == old(sent) + [RequestMsg(xid, mac, host, lease.serverid, lease.ipaddr)]
    {
      CreateMsg(host);
      var e := AddMsgType(FIRST_OPTION, DHCPREQUEST);
      e := AddServerId(e);
      e := AddReqIpaddr(e);
      e := AddEnd(e);
      sent := sent + [buf[..e]];
    }

    /** The byte at `i` of the buffer (0 past its end). */
    method Byte(i: nat) returns (b: byte)
      requires Valid()
      ensures b == At(buf[..], i)
    {
      b := if i < buf.Length then buf[i] else 0;
    }

    /** `parse_options` with the bound `end` counted from the start of the message. */
    method ParseOptions(end: nat) returns (t: byte)
      requires Valid()
      modifies this
      ensures Valid() && xid == old(xid) && sent == old(sent) && rx == old(rx)
      ensures (lease, t) == WalkOptions(buf[..], FIRST_OPTION, end, old(lease), 0)
    {
      var p := FIRST_OPTION;
      t := 0;
      while p < end
        invariant Valid() && xid == old(xid) && sent == old(sent) && rx == old(rx)
        invariant WalkOptions(buf[..], p, end, lease, t) == WalkOptions(buf[..], FIRST_OPTION, end, old(lease), 0)
        decreases end - p
      {
        var code := Byte(p);
        if code == OPTION_END {
          return;
        }
        t := Apply(p, t);
        var len := Byte(p + 1);
        p := p + len as nat + 2;
      }
    }

    /** The `switch` of `parse_options` on the option at `p` (END excepted). */
    method Apply(p: nat, t: byte) returns (t': byte)
      requires Valid()
      modifies this
      ensures Valid() && xid == old(xid) && sent == old(sent) && rx == old(rx)
      ensures (lease, t') == ApplyOption(buf[..], p, old(lease), t)
    {
      var code := Byte(p);
      var v0 := Byte(p + 2);
      var v1 := Byte(p + 3);
      var v2 := Byte(p + 4);
      var v3 := Byte(p + 5);
      var v := [v0, v1, v2, v3];
      t' := t;
      if code == OPTION_SUBNET_MASK {
        lease := lease.(netmask := v);
      } else if code == OPTION_ROUTER {
        lease := lease.(router := v);
      } else if code == OPTION_DNS_SERVER {
        lease := lease.(dnsaddr := v);
      } else if code == OPTION_MSG_TYPE {
        t' := v0;
      } else if code == OPTION_SERVER_ID {
        lease := lease.(serverid := v);
      } else if code == OPTION_LEASE_TIME {
        lease := lease.(leaseTime := v);
      }
    }

    /** `parse_msg(len)`, with the options bounded by the end of the received message. */
    method ParseMsg(len: nat) returns (t: byte)
      requires Valid()
      modifies this
      ensures Valid() && xid == old(xid) && sent == old(sent) && rx == old(rx)
      ensures (lease, t) == Learned(buf[..], len, xid, mac, old(lease))
    {
      if ForMe(buf[..], xid, mac) {
        lease := lease.(ipaddr := buf[16..20]);
        t := ParseOptions(len);
      } else {
        t := 0;
      }
    }

    /** `msg_for_me(len)`. */
    method MsgForMe(len: nat) returns (r: int)
      requires Valid()
      ensures r == ReplyType(buf[..], len, xid, mac)
    {
      r := -1;
      if ForMe(buf[..], xid, mac) {
        var p := FIRST_OPTION;
        while p < len
          invariant FirstType(buf[..], p, len) == FirstType(buf[..], FIRST_OPTION, len)
          decreases len - p
        {
          var code := Byte(p);
          if code == OPTION_MSG_TYPE {
            var t := Byte(p + 2);
            return t as int;
          } else if code == OPTION_END {
            return -1;
          }
          var l := Byte(p + 1);
          p := p + l as nat + 2;
        }
      }
    }

    /** `netSockRead` into the buffer: the next arrival. */
    method Read() returns (n: nat, left: int)
      requires Valid() && rx != []
      modifies this, buf
      ensures Valid() && xid == old(xid) && lease == old(lease) && sent == old(sent)
      ensures (n, buf[..]) == Receive(old(buf[..]), old(rx[0].data))
      ensures left == old(rx[0].left) && rx == old(rx[1..])
    {
      var data := rx[0].data;
      n := if |data| < MSG_SIZE then |data| else MSG_SIZE;
      forall i | 0 <= i < n {
        buf[i] := data[i];
      }
      assert buf[..] == data[..n] + old(buf[..])[n..];
      left := rx[0].left;
      rx := rx[1..];
    }

    /** `readResponse(want, ...)`: wait for a reply of the wanted type; its length, or -1. */
    method ReadResponse(want: int) returns (r: int)
      requires Valid()
      modifies this, buf
      ensures Valid() && xid == old(xid) && sent == old(sent)
      ensures var a := Await(want, old(buf[..]), old(rx), xid, mac, old(lease));
              r == a.res && buf[..] == a.msg && lease == a.lease && rx == a.rest
    {
      while true
        invariant Valid() && xid == old(xid) && sent == old(sent)
        invariant Await(want, buf[..], rx, xid, mac, lease) == Await(want, old(buf[..]), old(rx), xid, mac, old(lease))
        decreases |rx|
      {
        if rx == [] {
          return -1;
        }
        var n, left := Read();
        if n > 0 {
          var t := MsgForMe(n);
          if t == want {
            var _ := ParseMsg(n);
            return n;
          }
        }
        if left <= 0 {
          return -1;
        }
      }
    }
  }
}
