// The BSD-style shim over the socket table: `s` is the table index, and every
// result is mapped onto the BSD conventions.

module BsdSock {
  import opened Common
  import opened SockConf
  import opened SockSpec
  import opened Sock

  const SOCK_STREAM: int := 1
  const SOCK_DGRAM: int := 2
  const SO_RCVTIMEO: int := 0x1006

  /** `sizeof(struct sockaddr_in6)`: the stack is built for IPv6. */
  const SOCKADDR_IN6_SIZE: int := 24

  /** `net_recv`'s mapping of a read result: EOF is 0, any other code -1, a count itself. */
  function RecvResult(len: int): int {
    if len == EOF then 0 else if len < 0 then -1 else len
  }

  /**
   * What `net_recv` reports after its read ends: 0 for a closed peer (and for
   * a completed read of no bytes), -1 for an aborted peer or a timeout, and the
   * byte count of any other completed read.
   */
  lemma RecvOutcome(r: NetSock, timedOut: bool)
    requires ReadWaitOver(r, false, timedOut)
    ensures var res := RecvResult(ReadExit(r, false, timedOut).0);
            && (res == 0 <==> r.state == PeerClosed || (r.state == ReadOk && r.fields.len == 0))
            && (res == -1 <==> r.state == PeerAborted || (timedOut && r.state == Reading))
            && (res > 0 ==> r.state == ReadOk && res == r.fields.len)
            && res >= -1
  {
  }

  /** `net_send`'s mapping: the size asked for if at least that much was written, else -1. */
  function SendResult(written: int, size: nat): int {
    if written < size then -1 else size
  }

  /**
   * What `net_send` reports after its write ends. `netSockWrite` takes a
   * 16-bit length, so only the first `size mod 65536` bytes are written, and a
   * write of more than 65535 bytes reports -1 even when that part completes;
   * a closed or aborted peer reports -1 for any non-empty write.
   */
  lemma SendOutcome(r: NetSock, size: nat)
    requires r.state == PeerClosed || r.state == PeerAborted || (r.state == WriteOk && r.fields.ConnSide?)
    requires r.state == WriteOk ==> |r.fields.buf| == size % U16
    ensures var res := SendResult(WriteExit(r).0, size);
            && (r.state == WriteOk ==> res == (if size < U16 then size else -1))
            && (r.state != WriteOk && size > 0 ==> res == -1)
  {
  }

  /**
   * An abort during the wait, as written: `netSockWrite` returns 65535, which
   * `net_send` does not read as short for any `size` up to 65535, so it
   * reports the write as a success. With the corrected `WriteExit` it reports
   * -1 for every size.
   */
  lemma SendAbortSucceedsAsWritten(r: NetSock, size: nat)
    requires r.state == PeerAborted
    ensures SendResult(WriteExitAsWritten(r).0, size) == (if size <= U16_MAX then size else -1)
    ensures SendResult(WriteExit(r).0, size) == -1
  {
  }

  /** The `SO_RCVTIMEO` timeout: `INFINITE` for a zero `timeval`, else `MS()` of its milliseconds. */
  function RcvTimeout(sec: int, usec: int, ms: int -> int): int {
    if sec == 0 && usec == 0 then INFINITE else ms(sec * 1000 + CDiv(usec, 1000))
  }

  /** `net_getsockopt`: no option can be read. */
  function NetGetSockOpt(s: int, level: int, optname: int): (r: int)
    ensures r == -1
  {
    -1
  }

  /** `net_socket`: a stream or datagram socket is allocated; any other type fails. */
  method NetSocket(t: SocketTable, domain: int, typ: int, protocol: int) returns (r: int)
    requires t.Valid()
    modifies t.slots
    ensures t.Valid()
    ensures typ != SOCK_STREAM && typ != SOCK_DGRAM ==> r == -1 && t.slots[..] == old(t.slots[..])
    ensures typ == SOCK_STREAM || typ == SOCK_DGRAM ==>
              var (sock, tab) := AllocTable(old(t.slots[..]), if typ == SOCK_STREAM then UndefTcp else UndefUdp);
              r == SockSlot(sock) && t.slots[..] == tab
  {
    var sock: Option<nat>;
    if typ == SOCK_STREAM {
      sock := t.Alloc(UndefTcp);
    } else if typ == SOCK_DGRAM {
      sock := t.Alloc(UndefUdp);
    } else {
      return -1;
    }
    r := SockSlot(sock);
  }

  /** `net_close` after the close's wait: the record is freed and 0 returned. */
  method NetClose(t: SocketTable, s: nat) returns (r: int)
    requires t.Valid() && s < SOCK_TABSIZE && CloseWaitOver(t.slots[s])
    modifies t, t.slots
    ensures t.Valid() && r == 0 && t.slots[s].state == Null
    ensures var (rec, acts) := CloseExit(old(t.slots[s]));
            t.slots[..] == old(t.slots[..])[s := rec] && t.engine == old(t.engine) + acts
  {
    t.CloseEnd(s);
    return 0;
  }

  /**
   * `net_connect` up to the connect's wait: `netSockConnect` on the record of
   * `s`, with `conn` what the engine's connect returned. A stream record waits
   * in CONNECT; a datagram record is connected at once; a refused connect is -1.
   */
  method NetConnectBegin(t: SocketTable, s: nat, conn: Option<nat>) returns (r: Option<int>)
    requires t.Valid() && s < SOCK_TABSIZE && t.slots[s].state in {UndefTcp, UndefUdp, Bound, BoundUdp}
    modifies t, t.slots
    ensures t.Valid()
    ensures conn.None? ==> r == Some(-1) && t.slots[..] == old(t.slots[..])
    ensures conn.Some? && old(t.slots[s]).state == UndefTcp ==>
              r.None? && t.slots[..] == old(t.slots[..])[s := old(t.slots[s]).(state := Connect)]
    ensures conn.Some? && old(t.slots[s]).state != UndefTcp ==>
              r == Some(0) && t.slots[..] == old(t.slots[..])[s := NetSock(Busy, AsConnSide(old(t.slots[s]).fields))]
  {
    r := t.ConnectBegin(s, conn);
  }

  /**
   * `net_bind`: the port of the address, in network order, is turned to host
   * order (`uip_ntohs`) and `netSockBind` turns it back, so the record holds
   * exactly the address's port field.
   */
  method NetBind(t: SocketTable, s: nat, sinPort: int) returns (r: int)
    requires t.Valid() && s < SOCK_TABSIZE && 0 <= sinPort < U16
    requires t.slots[s].state == UndefTcp || t.slots[s].state == UndefUdp
    modifies t.slots
    ensures t.Valid() && r == 0
    ensures t.slots[..] == old(t.slots[..])[s := SockSpec.Bind(old(t.slots[s]), Htons(sinPort))]
    ensures PortWord(t.slots[s].fields) == sinPort
    ensures t.slots[s].state == (if old(t.slots[s]).state == UndefTcp then Bound else BoundUdp)
  {
    BindStates(t.slots[s], Htons(sinPort));
    HtonsInvolution(sinPort);
    r := t.Bind(s, Htons(sinPort));
  }

  /** `net_listen`: `netSockListen` on the record of `s`; the backlog is ignored. */
  method NetListen(t: SocketTable, s: nat, backlog: int) returns (r: int)
    requires t.Valid() && s < SOCK_TABSIZE
    requires Listenable(t.slots[s].fields)
    modifies t, t.slots
    ensures t.Valid() && r == 0
    ensures t.slots[..] == old(t.slots[..])[s := NetSock(Listening, AsListenSide(old(t.slots[s]).fields))]
    ensures t.engine == old(t.engine) + [UipListen(UipPort(PortWord(old(t.slots[s]).fields)))]
  {
    t.Listen(s);
    r := 0;
  }

  /**
   * `net_accept` after the accept's wait: the peer's address is written to
   * `addr` in every case; then -1 if the new connection has no socket, else its
   * slot, with the address length set to that of `sockaddr_in6`. `ripaddr` is
   * the remote address uIP keeps for each connection.
   */
  method NetAccept(t: SocketTable, s: nat, ripaddr: nat -> seq<byte>) returns (r: int, addrlen: Option<int>, addr: seq<byte>)
    requires t.Valid() && s < SOCK_TABSIZE && t.slots[s].state == Accepted
    modifies t.slots
    ensures t.Valid()
    ensures var c := old(t.slots[s]).fields.newConnection.value;
            var a := t.TcpSockOf(c);
            && addr == ripaddr(c)
            && (a == -1 ==> r == -1 && addrlen.None?)
            && (a != -1 ==> r == a && addrlen == Some(SOCKADDR_IN6_SIZE))
    ensures t.slots[..] == old(t.slots[..])[s := NetSock(Listening, old(t.slots[s]).fields.(newConnection := None))]
  {
    var sock;
    sock, addr := t.AcceptEnd(s, ripaddr);
    if sock.None? {
      return -1, None, addr;
    }
    return SockSlot(sock), Some(SOCKADDR_IN6_SIZE), addr;
  }

  /**
   * `net_setsockopt`: `SO_RCVTIMEO` stores the timeout (through the union's
   * first word, the port of a listening record) and returns 0; any other
   * option returns -1. `ms` is pico]OS's millisecond-to-tick conversion `MS()`.
   */
  method NetSetSockOpt(t: SocketTable, s: nat, level: int, optname: int, sec: int, usec: int, ms: int -> int)
    returns (r: int)
    requires t.Valid() && s < SOCK_TABSIZE
    modifies t.slots
    ensures t.Valid()
    ensures optname == SO_RCVTIMEO ==>
              r == 0 && t.slots[..] == old(t.slots[..])[s := old(t.slots[s]).(fields := WithTimeout(old(t.slots[s]).fields, RcvTimeout(sec, usec, ms)))]
    ensures optname != SO_RCVTIMEO ==> r == -1 && t.slots[..] == old(t.slots[..])
  {
    if optname == SO_RCVTIMEO {
      var timeout := if sec == 0 && usec == 0 then INFINITE else ms(sec * 1000 + CDiv(usec, 1000));
      t.slots[s] := t.slots[s].(fields := WithTimeout(t.slots[s].fields, timeout));
      return 0;
    }
    return -1;
  }

  /**
   * `net_recv` up to the read's wait: `size` is cut to the 16-bit capacity
   * `netSockRead` takes; `Some` is an immediate result.
   */
  method NetRecvBegin(t: SocketTable, s: nat, size: nat, flags: int) returns (r: Option<int>)
    requires t.Valid() && s < SOCK_TABSIZE && t.slots[s].state in {Busy, PeerClosed, PeerAborted}
    modifies t.slots
    ensures t.Valid()
    ensures var (res, rec) := ReadEntry(old(t.slots[s]), false, size % U16);
            && r == (if res.Some? then Some(RecvResult(res.value)) else None)
            && t.slots[..] == old(t.slots[..])[s := rec]
  {
    var res := t.ReadBegin(s, false, size % U16);
    r := if res.Some? then Some(RecvResult(res.value)) else None;
  }

  /** `net_recv` after the read's wait. */
  method NetRecvEnd(t: SocketTable, s: nat, timedOut: bool) returns (r: int)
    requires t.Valid() && s < SOCK_TABSIZE && ReadWaitOver(t.slots[s], false, timedOut)
    modifies t.slots
    ensures t.Valid()
    ensures var (res, rec) := ReadExit(old(t.slots[s]), false, timedOut);
            r == RecvResult(res) && t.slots[..] == old(t.slots[..])[s := rec]
  {
    var res, _ := t.ReadEnd(s, false, timedOut);
    r := RecvResult(res);
  }

  /** `net_read`: `net_recv` with no flags. */
  method NetReadBegin(t: SocketTable, s: nat, size: nat) returns (r: Option<int>)
    requires t.Valid() && s < SOCK_TABSIZE && t.slots[s].state in {Busy, PeerClosed, PeerAborted}
    modifies t.slots
    ensures t.Valid()
    ensures var (res, rec) := ReadEntry(old(t.slots[s]), false, size % U16);
            && r == (if res.Some? then Some(RecvResult(res.value)) else None)
            && t.slots[..] == old(t.slots[..])[s := rec]
  {
    r := NetRecvBegin(t, s, size, 0);
  }

  /**
   * `net_send` up to the write's wait: the 16-bit length `netSockWrite` takes
   * covers the first `|data| mod 65536` bytes; `Some` is an immediate result.
   */
  method NetSendBegin(t: SocketTable, s: nat, data: seq<byte>, flags: int) returns (r: Option<int>)
    requires t.Valid() && s < SOCK_TABSIZE && t.slots[s].state in {Busy, PeerClosed, PeerAborted}
    modifies t.slots
    ensures t.Valid()
    ensures var (res, rec) := WriteEntry(old(t.slots[s]), data[..|data| % U16]);
            && r == (if res.Some? then Some(SendResult(res.value, |data|)) else None)
            && t.slots[..] == old(t.slots[..])[s := rec]
  {
    var res := t.WriteBegin(s, data[..|data| % U16]);
    r := if res.Some? then Some(SendResult(res.value, |data|)) else None;
  }

  /** `net_send` after the write's wait. */
  method NetSendEnd(t: SocketTable, s: nat, size: nat) returns (r: int)
    requires t.Valid() && s < SOCK_TABSIZE && t.slots[s].state in {WriteOk, PeerClosed, PeerAborted}
    modifies t.slots
    ensures t.Valid()
    ensures var (res, rec) := WriteExit(old(t.slots[s]));
            r == SendResult(res, size) && t.slots[..] == old(t.slots[..])[s := rec]
  {
    var res := t.WriteEnd(s);
    r := SendResult(res, size);
  }

  /** `net_write`: `net_send` with no flags. */
  method NetWriteBegin(t: SocketTable, s: nat, data: seq<byte>) returns (r: Option<int>)
    requires t.Valid() && s < SOCK_TABSIZE && t.slots[s].state in {Busy, PeerClosed, PeerAborted}
    modifies t.slots
    ensures t.Valid()
    ensures var (res, rec) := WriteEntry(old(t.slots[s]), data[..|data| % U16]);
            && r == (if res.Some? then Some(SendResult(res.value, |data|)) else None)
            && t.slots[..] == old(t.slots[..])[s := rec]
  {
    r := NetSendBegin(t, s, data, 0);
  }
}
