// The socket table of the blocking socket layer over uIP. Each client
// operation that blocks is split at its wait: `...Begin` runs up to the wait,
// `...End` runs after it, and its precondition says how the wait can end. The
// engine's callbacks are one method per event flag, each one atomic step.

module Sock {
  import opened Common
  import opened SockConf
  import opened SockSpec

  /**
   * The line-read copy loop of `netTcpAppcallMutex`: bytes of the segment are
   * appended to the line until it is full, a line feed has been stored or the
   * segment is used up; carriage returns are skipped.
   */
  method CopyLine(line: seq<byte>, max: nat, seg: seq<byte>) returns (line': seq<byte>, k: nat)
    ensures (line', k) == LineCopy(line, max, seg)
  {
    ghost var goal := LineCopy(line, max, seg);
    line' := line;
    k := 0;
    var stop := false;
    while k < |seg| && |line'| < max && !stop
      invariant 0 <= k <= |seg|
      invariant !stop ==> LineCopy(line', max, seg[k..]).0 == goal.0
                          && k + LineCopy(line', max, seg[k..]).1 == goal.1
      invariant stop ==> line' == goal.0 && k == goal.1
      decreases |seg| - k
    {
      var ch := seg[k];
      assert seg[k..][1..] == seg[k + 1..];
      if ch == CR {
        k := k + 1;
      } else {
        line' := line' + [ch];
        k := k + 1;
        if ch == LF {
          stop := true;
        }
      }
    }
  }

  /**
   * The connection links (`appstate.sock` of the TCP and of the UDP
   * connections) after a UDP socket is closed at poll time, as written:
   * `netAppcallClose` clears the link of `uip_conn`, which is the engine's
   * current TCP connection `tcpConn`, and the UDP connection keeps its link.
   */
  function UdpCloseLinksAsWritten(tcpSock: map<nat, int>, udpSock: map<nat, int>, tcpConn: nat): (map<nat, int>, map<nat, int>) {
    (tcpSock[tcpConn := -1], udpSock)
  }

  /** The links after a UDP close, corrected: the closed UDP connection's link is the one cleared. */
  function UdpCloseLinks(tcpSock: map<nat, int>, udpSock: map<nat, int>, uconn: nat): (map<nat, int>, map<nat, int>) {
    (tcpSock, udpSock[uconn := -1])
  }

  /**
   * As written, closing a UDP socket while `uip_conn` is a TCP connection that
   * has a socket cuts that connection off from its socket, and leaves the UDP
   * connection naming the freed slot; corrected, the TCP links are untouched
   * and the UDP connection names no socket.
   */
  lemma UdpCloseOrphansTcpAsWritten(tcpSock: map<nat, int>, udpSock: map<nat, int>, uconn: nat, tcpConn: nat)
    requires tcpConn in tcpSock && tcpSock[tcpConn] >= 0 && uconn in udpSock && udpSock[uconn] >= 0
    ensures var (t, u) := UdpCloseLinksAsWritten(tcpSock, udpSock, tcpConn);
            t[tcpConn] == -1 != tcpSock[tcpConn] && u[uconn] == udpSock[uconn] >= 0
    ensures var (t, u) := UdpCloseLinks(tcpSock, udpSock, uconn);
            t == tcpSock && u[uconn] == -1
  {
  }

  /** `netSocketTable` with the uIP connections' `appstate.sock` links and the engine calls made. */
  class SocketTable {
    const slots: array<NetSock>
    /** `appstate.sock` of each uIP TCP connection: a slot, or -1 for NULL. */
    var tcpSock: map<nat, int>
    /** `appstate.sock` of each uIP UDP connection. */
    var udpSock: map<nat, int>
    /** Every call made into the uIP engine, in order. */
    var engine: seq<Action>
    /** The part of the current TCP segment not yet handed to a reader (`dataPtr`/`dataLeft`). */
    var dataLeft: seq<byte>

    ghost predicate Valid()
      reads this, slots
    {
      && slots.Length == SOCK_TABSIZE
      && (forall i :: 0 <= i < slots.Length ==> WellFormed(slots[i]))
      && (forall c :: c in tcpSock ==> -1 <= tcpSock[c] < SOCK_TABSIZE)
      && (forall c :: c in udpSock ==> -1 <= udpSock[c] < SOCK_TABSIZE)
    }

    /** The socket a TCP connection belongs to, or -1. */
    function TcpSockOf(conn: nat): int
      reads this
    {
      if conn in tcpSock then tcpSock[conn] else -1
    }

    /** The socket a UDP connection belongs to, or -1. */
    function UdpSockOf(uconn: nat): int
      reads this
    {
      if uconn in udpSock then udpSock[uconn] else -1
    }

    /** The zero-filled table of a fresh system: every slot `NET_SOCK_NULL`. */
    constructor ()
      ensures Valid() && fresh(slots)
      ensures forall i :: 0 <= i < slots.Length ==> slots[i].state == Null
      ensures tcpSock == map[] && udpSock == map[] && engine == [] && dataLeft == []
    {
      slots := new NetSock[SOCK_TABSIZE](_ => NetSock(FromOrdinal(0), ConnSide(0, 0, 0, [], 0)));
      tcpSock, udpSock := map[], map[];
      engine, dataLeft := [], [];
    }

    // ---------------------------------------------------------- allocation

    /** `netSockAlloc`: first-fit scan for a free slot. */
    method Alloc(initial: NetSockState) returns (sock: Option<nat>)
      requires Valid() && WellFormed(Allocated(initial))
      modifies slots
      ensures Valid()
      ensures (sock, slots[..]) == AllocTable(old(slots[..]), initial)
    {
      var i := 0;
      while i < slots.Length
        invariant 0 <= i <= slots.Length
        invariant forall j :: 0 <= j < i ==> slots[j].state != Null
      {
        if slots[i].state == Null {
          break;
        }
        i := i + 1;
      }
      if i >= slots.Length {
        return None;
      }
      slots[i] := Allocated(initial);
      sock := Some(i);
    }

    /** `netSockFree`: the slot becomes `NET_SOCK_NULL`. */
    method Free(s: nat)
      requires Valid() && s < SOCK_TABSIZE
      modifies slots
      ensures Valid()
      ensures slots[..] == old(slots[..])[s := Freed(old(slots[s]))]
    {
      slots[s] := Freed(slots[s]);
    }

    // ---------------------------------------------------------- bind, listen, accept

    /** `netSockBind`: an unconnected record takes its port. */
    method Bind(s: nat, port: int) returns (r: int)
      requires Valid() && s < SOCK_TABSIZE
      requires slots[s].state == UndefTcp || slots[s].state == UndefUdp
      modifies slots
      ensures Valid() && r == 0
      ensures slots[..] == old(slots[..])[s := SockSpec.Bind(old(slots[s]), port)]
    {
      slots[s] := SockSpec.Bind(slots[s], port);
      return 0;
    }

    /**
     * `netSockListen`: LISTENING, with the union read as its listening side,
     * and uIP listens on the record's port word cut to 16 bits.
     */
    method Listen(s: nat)
      requires Valid() && s < SOCK_TABSIZE && Listenable(slots[s].fields)
      modifies this, slots
      ensures Valid() && tcpSock == old(tcpSock) && udpSock == old(udpSock) && dataLeft == old(dataLeft)
      ensures slots[..] == old(slots[..])[s := NetSock(Listening, AsListenSide(old(slots[s]).fields))]
      ensures engine == old(engine) + [UipListen(UipPort(PortWord(old(slots[s]).fields)))]
    {
      engine := engine + [UipListen(UipPort(PortWord(slots[s].fields)))];
      slots[s] := NetSock(Listening, AsListenSide(slots[s].fields));
    }

    /** `netSockAccept` up to its wait: the listener is ACCEPTING. */
    method AcceptBegin(s: nat)
      requires Valid() && s < SOCK_TABSIZE && slots[s].state == Listening
      modifies slots
      ensures Valid()
      ensures slots[..] == old(slots[..])[s := old(slots[s]).(state := Accepting)]
    {
      slots[s] := slots[s].(state := Accepting);
    }

    /**
     * `netSockAccept` after its wait, which ends once the engine has made the
     * listener ACCEPTED: the new connection's remote address (copied into
     * `peer`), its socket, and the listener LISTENING again. `ripaddr` is the
     * remote address uIP keeps for each connection.
     */
    method AcceptEnd(s: nat, ripaddr: nat -> seq<byte>) returns (sock: Option<nat>, peer: seq<byte>)
      requires Valid() && s < SOCK_TABSIZE && slots[s].state == Accepted
      modifies slots
      ensures Valid()
      ensures var c := old(slots[s]).fields.newConnection.value;
              && peer == ripaddr(c)
              && sock == (if TcpSockOf(c) == -1 then None else Some(TcpSockOf(c)))
      ensures slots[..] == old(slots[..])[s := NetSock(Listening, old(slots[s]).fields.(newConnection := None))]
    {
      var c := slots[s].fields.newConnection.value;
      peer := ripaddr(c);
      var a := TcpSockOf(c);
      sock := if a == -1 then None else Some(a);
      slots[s] := NetSock(Listening, slots[s].fields.(newConnection := None));
    }

    // ---------------------------------------------------------- connect

    /**
     * `netSockConnect` up to its wait. `conn` is what `uip_connect` (for
     * UNDEF_TCP) or `uip_udp_new` (otherwise) returned. Only UNDEF_TCP takes
     * the TCP path and waits; a failed engine call returns -1 at once.
     */
    method ConnectBegin(s: nat, conn: Option<nat>) returns (r: Option<int>)
      requires Valid() && s < SOCK_TABSIZE
      requires slots[s].state in {UndefTcp, UndefUdp, Bound, BoundUdp}
      modifies this, slots
      ensures Valid() && dataLeft == old(dataLeft)
      ensures conn.None? ==> r == Some(-1) && slots[..] == old(slots[..])
                             && tcpSock == old(tcpSock) && udpSock == old(udpSock) && engine == old(engine)
      ensures conn.Some? && old(slots[s]).state == UndefTcp ==>
                && r.None? && slots[..] == old(slots[..])[s := old(slots[s]).(state := Connect)]
                && tcpSock == old(tcpSock)[conn.value := s] && udpSock == old(udpSock) && engine == old(engine)
      ensures conn.Some? && old(slots[s]).state != UndefTcp ==>
                && r == Some(0) && slots[..] == old(slots[..])[s := NetSock(Busy, AsConnSide(old(slots[s]).fields))]
                && udpSock == old(udpSock)[conn.value := s] && tcpSock == old(tcpSock)
                && engine == old(engine) + (if old(slots[s]).state == BoundUdp
                                            then [UdpBind(old(slots[s]).fields.port)] else [])
    {
      if conn.None? {
        return Some(-1);
      }
      if slots[s].state == UndefTcp {
        tcpSock := tcpSock[conn.value := s];
        slots[s] := slots[s].(state := Connect);
        return None;
      }
      udpSock := udpSock[conn.value := s];
      if slots[s].state == BoundUdp {
        engine := engine + [UdpBind(slots[s].fields.port)];
      }
      slots[s] := NetSock(Busy, AsConnSide(slots[s].fields));
      return Some(0);
    }

    /**
     * `netSockConnect` after its wait, which ends when the record leaves
     * CONNECT: BUSY and 0 once connected; a peer that closed or aborted has the
     * socket closed (and freed) and -1 returned.
     */
    method ConnectEnd(s: nat) returns (r: int)
      requires Valid() && s < SOCK_TABSIZE
      requires slots[s].state in {ConnectOk, PeerClosed, PeerAborted}
      modifies slots
      ensures Valid()
      ensures old(slots[s]).state == ConnectOk ==>
                r == 0 && slots[..] == old(slots[..])[s := old(slots[s]).(state := Busy)]
      ensures old(slots[s]).state != ConnectOk ==>
                r == -1 && slots[..] == old(slots[..])[s := Freed(old(slots[s]))]
    {
      if slots[s].state == PeerClosed || slots[s].state == PeerAborted {
        slots[s] := CloseExit(CloseEntry(slots[s])).0;
        return -1;
      }
      slots[s] := slots[s].(state := Busy);
      return 0;
    }

    // ---------------------------------------------------------- read and write

    /**
     * `sockRead` up to its wait (`netSockRead` with `line` false,
     * `netSockReadLine` with `line` true); `Some` is an immediate result.
     */
    method ReadBegin(s: nat, line: bool, max: nat) returns (r: Option<int>)
      requires Valid() && s < SOCK_TABSIZE && max <= U16_MAX
      requires slots[s].state in {Busy, PeerClosed, PeerAborted}
      requires line ==> max > 0
      modifies slots
      ensures Valid()
      ensures var (res, rec) := ReadEntry(old(slots[s]), line, max);
              r == res && slots[..] == old(slots[..])[s := rec]
    {
      if slots[s].state == PeerClosed {
        return Some(EOF);
      }
      if slots[s].state == PeerAborted {
        return Some(ABORT);
      }
      slots[s] := NetSock(ReadingState(line), slots[s].fields.(len := 0, max := max, buf := [], off := 0));
      return None;
    }

    /**
     * `sockRead` after its wait, which ends when the reader is served, the peer
     * goes away or the wait times out; `data` is what the buffer then holds.
     */
    method ReadEnd(s: nat, line: bool, timedOut: bool) returns (r: int, data: seq<byte>)
      requires Valid() && s < SOCK_TABSIZE && ReadWaitOver(slots[s], line, timedOut)
      modifies slots
      ensures Valid()
      ensures var (res, rec) := ReadExit(old(slots[s]), line, timedOut);
              r == res && slots[..] == old(slots[..])[s := rec]
      ensures r > 0 ==> data == old(slots[s]).fields.buf && |data| == r
    {
      data := [];
      if slots[s].state == PeerClosed {
        return EOF, data;
      }
      if slots[s].state == PeerAborted {
        return ABORT, data;
      }
      if timedOut && slots[s].state == ReadingState(line) {
        r := TIMEOUT;
      } else {
        r := slots[s].fields.len;
        data := slots[s].fields.buf;
      }
      slots[s] := slots[s].(state := Busy);
    }

    /** `netSockWrite` up to its wait; `Some` is an immediate result. */
    method WriteBegin(s: nat, data: seq<byte>) returns (r: Option<int>)
      requires Valid() && s < SOCK_TABSIZE && |data| <= U16_MAX
      requires slots[s].state in {Busy, PeerClosed, PeerAborted}
      modifies slots
      ensures Valid()
      ensures var (res, rec) := WriteEntry(old(slots[s]), data);
              r == res && slots[..] == old(slots[..])[s := rec]
    {
      if slots[s].state == PeerClosed {
        return Some(EOF);
      }
      if slots[s].state == PeerAborted {
        return Some(ABORT);
      }
      slots[s] := NetSock(Writing, slots[s].fields.(len := |data|, buf := data, off := 0));
      return None;
    }

    /** `netSockWrite` after its wait, which ends when the record leaves WRITING. */
    method WriteEnd(s: nat) returns (r: int)
      requires Valid() && s < SOCK_TABSIZE
      requires slots[s].state in {WriteOk, PeerClosed, PeerAborted}
      modifies slots
      ensures Valid()
      ensures var (res, rec) := WriteExit(old(slots[s]));
              r == res && slots[..] == old(slots[..])[s := rec]
    {
      if slots[s].state == PeerClosed {
        return EOF;
      }
      if slots[s].state == PeerAborted {
        return ABORT;
      }
      r := |slots[s].fields.buf|;
      slots[s] := slots[s].(state := Busy);
    }

    // ---------------------------------------------------------- close

    /** `netSockClose` up to its wait: a BUSY record becomes CLOSE. */
    method CloseBegin(s: nat)
      requires Valid() && s < SOCK_TABSIZE
      modifies slots
      ensures Valid()
      ensures slots[..] == old(slots[..])[s := CloseEntry(old(slots[s]))]
    {
      if slots[s].state == Busy {
        slots[s] := slots[s].(state := Close);
      }
    }

    /** `netSockClose` after its wait: a listener is unlistened, then the record is freed. */
    method CloseEnd(s: nat)
      requires Valid() && s < SOCK_TABSIZE && CloseWaitOver(slots[s])
      modifies this, slots
      ensures Valid() && tcpSock == old(tcpSock) && udpSock == old(udpSock) && dataLeft == old(dataLeft)
      ensures var (rec, acts) := CloseExit(old(slots[s]));
              slots[..] == old(slots[..])[s := rec] && engine == old(engine) + acts
      ensures slots[s].state == Null
    {
      if slots[s].state == Listening {
        engine := engine + [UipUnlisten(UipPort(PortWord(slots[s].fields)))];
        var nc := if slots[s].fields.ListenSide? then slots[s].fields.newConnection else None;
        slots[s] := NetSock(CloseOk, ListenSide(0, nc));
      }
      Free(s);
    }

    // ---------------------------------------------------------- engine: TCP

    /** The listener lookup of `netTcpAppcall`: a scan for the first listener on `lport`. */
    method FindListenerScan(lport: int) returns (l: Option<nat>)
      requires Valid()
      ensures l == FindListener(slots[..], lport)
    {
      var i := 0;
      while i < slots.Length
        invariant 0 <= i <= slots.Length
        invariant forall j :: 0 <= j < i ==> !ListensOn(slots[j], lport)
      {
        if ListensOn(slots[i], lport) {
          return Some(i);
        }
        i := i + 1;
      }
      return None;
    }

    /** `netAppcallClose`: the connection forgets its socket, which takes `next`. */
    method AppcallClose(conn: nat, s: nat, next: NetSockState)
      requires Valid() && s < SOCK_TABSIZE && WellFormed(slots[s].(state := next))
      modifies this, slots
      ensures Valid() && udpSock == old(udpSock) && engine == old(engine) && dataLeft == old(dataLeft)
      ensures tcpSock == old(tcpSock)[conn := -1]
      ensures slots[..] == old(slots[..])[s := old(slots[s]).(state := next)]
    {
      tcpSock := tcpSock[conn := -1];
      slots[s] := slots[s].(state := next);
    }

    /**
     * The `uip_connected` part of `netTcpAppcall`. For a connection with no
     * socket: with an accept hook installed (`hookResult` is what it returns) a
     * BUSY socket is allocated and offered to it; otherwise the first listener
     * on `lport` gets a new BUSY socket and becomes ACCEPTED, once it is
     * ACCEPTING (`listenerTimedOut`: the 200 ms wait for that ran out). Any
     * failure aborts the connection. A connecting socket becomes CONNECT_OK.
     */
    method TcpConnected(conn: nat, lport: int, hookResult: Option<int>, listenerTimedOut: bool)
      requires Valid()
      requires (TcpSockOf(conn) == -1 && hookResult.None? && FindListener(slots[..], lport).Some?
                && !listenerTimedOut) ==> slots[FindListener(slots[..], lport).value].state == Accepting
      modifies this, slots
      ensures Valid() && udpSock == old(udpSock) && dataLeft == old(dataLeft)
      ensures old(TcpSockOf(conn)) != -1 ==>
                var s := old(TcpSockOf(conn));
                && slots[..] == old(slots[..])[s := if old(slots[s]).state == Connect
                                                    then old(slots[s]).(state := ConnectOk) else old(slots[s])]
                && tcpSock == old(tcpSock) && engine == old(engine)
      ensures old(TcpSockOf(conn)) == -1 && hookResult.Some? ==> HookAccepted(old(slots[..]), old(tcpSock), old(engine), conn, hookResult.value)
      ensures old(TcpSockOf(conn)) == -1 && hookResult.None? ==> ListenerAccepted(old(slots[..]), old(tcpSock), old(engine), conn, lport, listenerTimedOut)
    {
      var cur := TcpSockOf(conn);
      if cur != -1 {
        if slots[cur].state == Connect {
          slots[cur] := slots[cur].(state := ConnectOk);
        }
        return;
      }
      if hookResult.Some? {
        AcceptByHook(conn, hookResult.value);
      } else {
        AcceptByListener(conn, lport, listenerTimedOut);
      }
    }

    /** The table, links and engine calls after the accept hook returned `hookResult`. */
    ghost predicate HookAccepted(t0: seq<NetSock>, m0: map<nat, int>, e0: seq<Action>, conn: nat, hookResult: int)
      reads this, slots
    {
      var (sock, t) := AllocTable(t0, Busy);
      if sock.None? then
        slots[..] == t0 && tcpSock == m0 && engine == e0 + [UipAbort]
      else if hookResult == -1 then
        && slots[..] == t[sock.value := Freed(t[sock.value])]
        && tcpSock == m0[conn := -1] && engine == e0 + [UipAbort]
      else
        slots[..] == t && tcpSock == m0[conn := sock.value] && engine == e0
    }

    /** The table, links and engine calls after a listener took (or missed) the connection. */
    ghost predicate ListenerAccepted(t0: seq<NetSock>, m0: map<nat, int>, e0: seq<Action>, conn: nat,
                                     lport: int, listenerTimedOut: bool)
      reads this, slots
    {
      var l := FindListener(t0, lport);
      var (sock, t) := AllocTable(t0, Busy);
      if l.None? || listenerTimedOut || sock.None? then
        slots[..] == t0 && tcpSock == m0 && engine == e0 + [UipAbort]
      else
        && slots[..] == t[l.value := NetSock(Accepted, ListenSide(PortWord(t0[l.value].fields), Some(conn)))]
        && tcpSock == m0[conn := sock.value] && engine == e0
    }

    /** The accept-hook branch of `netTcpAppcall`. */
    method AcceptByHook(conn: nat, hookResult: int)
      requires Valid()
      modifies this, slots
      ensures Valid() && udpSock == old(udpSock) && dataLeft == old(dataLeft)
      ensures HookAccepted(old(slots[..]), old(tcpSock), old(engine), conn, hookResult)
    {
      var sock := Alloc(Busy);
      if sock.None? {
        engine := engine + [UipAbort];
        return;
      }
      tcpSock := tcpSock[conn := sock.value];
      if hookResult == -1 {
        Free(sock.value);
        tcpSock := tcpSock[conn := -1];
        engine := engine + [UipAbort];
      }
    }

    /** The listener branch of `netTcpAppcall`. */
    method AcceptByListener(conn: nat, lport: int, listenerTimedOut: bool)
      requires Valid()
      requires (FindListener(slots[..], lport).Some? && !listenerTimedOut)
               ==> slots[FindListener(slots[..], lport).value].state == Accepting
      modifies this, slots
      ensures Valid() && udpSock == old(udpSock) && dataLeft == old(dataLeft)
      ensures ListenerAccepted(old(slots[..]), old(tcpSock), old(engine), conn, lport, listenerTimedOut)
    {
      var l := FindListenerScan(lport);
      if l.None? || listenerTimedOut {
        engine := engine + [UipAbort];
        return;
      }
      ghost var t0 := slots[..];
      var sock := Alloc(Busy);
      if sock.None? {
        engine := engine + [UipAbort];
        return;
      }
      tcpSock := tcpSock[conn := sock.value];
      assert slots[l.value] == t0[l.value];
      MarkAccepted(l.value, conn);
    }

    /** `listenSock->newConnection = uip_conn; listenSock->state = NET_SOCK_ACCEPTED`. */
    method MarkAccepted(l: nat, conn: nat)
      requires Valid() && l < SOCK_TABSIZE && slots[l].state == Accepting
      modifies slots
      ensures Valid()
      ensures slots[..] == old(slots[..])[l := NetSock(Accepted, ListenSide(PortWord(old(slots[l]).fields), Some(conn)))]
    {
      var rec := NetSock(Accepted, ListenSide(PortWord(slots[l].fields), Some(conn)));
      assert WellFormed(rec);
      slots[l] := rec;
    }

    /** `uip_aborted`: the socket is PEER_ABORTED and the connection forgets it. */
    method TcpAborted(conn: nat)
      requires Valid()
      modifies this, slots
      ensures Valid() && udpSock == old(udpSock) && engine == old(engine) && dataLeft == old(dataLeft)
      ensures var s := old(TcpSockOf(conn));
              s == -1 ==> slots[..] == old(slots[..]) && tcpSock == old(tcpSock)
      ensures var s := old(TcpSockOf(conn));
              s != -1 ==> slots[..] == old(slots[..])[s := old(slots[s]).(state := PeerAborted)]
                          && tcpSock == old(tcpSock)[conn := -1]
    {
      var s := TcpSockOf(conn);
      if s == -1 {
        return;
      }
      AppcallClose(conn, s, PeerAborted);
    }

    /** `uip_timedout`: handled as an abort. */
    method TcpTimedOut(conn: nat)
      requires Valid()
      modifies this, slots
      ensures Valid() && udpSock == old(udpSock) && engine == old(engine) && dataLeft == old(dataLeft)
      ensures var s := old(TcpSockOf(conn));
              s == -1 ==> slots[..] == old(slots[..]) && tcpSock == old(tcpSock)
      ensures var s := old(TcpSockOf(conn));
              s != -1 ==> slots[..] == old(slots[..])[s := old(slots[s]).(state := PeerAborted)]
                          && tcpSock == old(tcpSock)[conn := -1]
    {
      TcpAborted(conn);
    }

    /** `uip_acked` with the connection's `uip_mss()`. */
    method TcpAcked(conn: nat, mss: nat)
      requires Valid()
      modifies this, slots
      ensures Valid() && tcpSock == old(tcpSock) && udpSock == old(udpSock) && dataLeft == old(dataLeft)
      ensures var s := old(TcpSockOf(conn));
              s == -1 ==> slots[..] == old(slots[..]) && engine == old(engine)
      ensures var s := old(TcpSockOf(conn));
              s != -1 ==> var (rec, acts) := Ack(old(slots[s]), mss);
                          slots[..] == old(slots[..])[s := rec] && engine == old(engine) + acts
    {
      var s := TcpSockOf(conn);
      if s == -1 {
        return;
      }
      AckPreservesWriteSide(slots[s], mss);
      var (rec, acts) := Ack(slots[s], mss);
      slots[s] := rec;
      engine := engine + acts;
    }

    /** `uip_newdata`: the segment is held until readers have taken it. */
    method TcpNewData(conn: nat, seg: seq<byte>)
      requires Valid() && dataLeft == []
      modifies this
      ensures Valid() && tcpSock == old(tcpSock) && udpSock == old(udpSock) && engine == old(engine)
      ensures dataLeft == (if TcpSockOf(conn) == -1 then [] else seg)
    {
      if TcpSockOf(conn) != -1 {
        dataLeft := seg;
      }
    }

    /**
     * One pass of the delivery loop once a reader is installed: a plain reader
     * takes what fits and is READ_OK; a line reader runs the copy loop and is
     * READ_OK only when its line is done.
     */
    method DeliverStep(conn: nat)
      requires Valid() && dataLeft != [] && TcpSockOf(conn) != -1
      requires slots[TcpSockOf(conn)].state in {Reading, ReadingLine}
      modifies this, slots
      ensures Valid() && tcpSock == old(tcpSock) && udpSock == old(udpSock) && engine == old(engine)
      ensures var s := TcpSockOf(conn);
              var (rec, rest) := if old(slots[s]).state == Reading then DeliverRead(old(slots[s]), old(dataLeft))
                                 else DeliverLine(old(slots[s]), old(dataLeft));
              slots[..] == old(slots[..])[s := rec] && dataLeft == rest
      ensures |dataLeft| < |old(dataLeft)| || slots[TcpSockOf(conn)].state == ReadOk
    {
      var s := TcpSockOf(conn);
      var r := slots[s];
      if r.state == Reading {
        DeliverReadSpec(r, dataLeft);
        var (rec, rest) := DeliverRead(r, dataLeft);
        slots[s] := rec;
        dataLeft := rest;
      } else {
        DeliverLineSpec(r, dataLeft);
        var line, k := CopyLine(r.fields.buf, r.fields.max, dataLeft);
        slots[s] := NetSock(if LineDone(line, r.fields.max) then ReadOk else ReadingLine,
                            r.fields.(len := |line|, buf := line));
        dataLeft := dataLeft[k..];
      }
    }

    /**
     * The 500 ms wait for a reader ran out with data left: the connection is
     * aborted, the socket PEER_ABORTED and the rest of the segment dropped.
     */
    method ReaderTimeout(conn: nat)
      requires Valid() && dataLeft != [] && TcpSockOf(conn) != -1
      requires slots[TcpSockOf(conn)].state !in {Reading, ReadingLine}
      modifies this, slots
      ensures Valid() && udpSock == old(udpSock) && dataLeft == []
      ensures var s := old(TcpSockOf(conn));
              && slots[..] == old(slots[..])[s := old(slots[s]).(state := PeerAborted)]
              && tcpSock == old(tcpSock)[conn := -1] && engine == old(engine) + [UipAbort]
    {
      var s := TcpSockOf(conn);
      engine := engine + [UipAbort];
      AppcallClose(conn, s, PeerAborted);
      dataLeft := [];
    }

    /** `uip_rexmit`: the record's buffer window is sent again. */
    method TcpRexmit(conn: nat)
      requires Valid()
      modifies this
      ensures Valid() && tcpSock == old(tcpSock) && udpSock == old(udpSock) && dataLeft == old(dataLeft)
      ensures var s := TcpSockOf(conn);
              engine == old(engine) + (if s == -1 then [] else [UipSend(Window(slots[s].fields))])
    {
      var s := TcpSockOf(conn);
      if s != -1 {
        engine := engine + [UipSend(Window(slots[s].fields))];
      }
    }

    /** `uip_closed`: the socket is PEER_CLOSED and the connection forgets it. */
    method TcpClosed(conn: nat)
      requires Valid()
      modifies this, slots
      ensures Valid() && udpSock == old(udpSock) && engine == old(engine) && dataLeft == old(dataLeft)
      ensures var s := old(TcpSockOf(conn));
              s == -1 ==> slots[..] == old(slots[..]) && tcpSock == old(tcpSock)
      ensures var s := old(TcpSockOf(conn));
              s != -1 ==> slots[..] == old(slots[..])[s := old(slots[s]).(state := PeerClosed)]
                          && tcpSock == old(tcpSock)[conn := -1]
    {
      var s := TcpSockOf(conn);
      if s == -1 {
        return;
      }
      AppcallClose(conn, s, PeerClosed);
    }

    /** `uip_poll`: a pending close is carried out; a pending write is (re)sent. */
    method TcpPoll(conn: nat)
      requires Valid()
      modifies this, slots
      ensures Valid() && udpSock == old(udpSock) && dataLeft == old(dataLeft)
      ensures var s := old(TcpSockOf(conn));
              s == -1 ==> slots[..] == old(slots[..]) && engine == old(engine) && tcpSock == old(tcpSock)
      ensures var s := old(TcpSockOf(conn));
              s != -1 ==> var (rec, acts) := Poll(old(slots[s]));
                          && slots[..] == old(slots[..])[s := rec] && engine == old(engine) + acts
                          && tcpSock == (if old(slots[s]).state == Close then old(tcpSock)[conn := -1]
                                         else old(tcpSock))
    {
      var s := TcpSockOf(conn);
      if s == -1 {
        return;
      }
      if slots[s].state == Close {
        engine := engine + [UipClose];
        AppcallClose(conn, s, CloseOk);
      } else if slots[s].state == Writing {
        engine := engine + [UipSend(Window(slots[s].fields))];
      }
    }

    // ---------------------------------------------------------- engine: UDP

    /**
     * `uip_newdata` on a UDP connection: a READING socket takes what fits of
     * the datagram; if no reader arrives within 500 ms (`timedOut`) it is
     * dropped. A freed socket is skipped.
     */
    method UdpNewData(uconn: nat, dgram: seq<byte>, timedOut: bool)
      requires Valid() && 0 <= UdpSockOf(uconn)
      requires slots[UdpSockOf(uconn)].state != Null && !timedOut ==> slots[UdpSockOf(uconn)].state == Reading
      modifies slots
      ensures Valid()
      ensures var s := UdpSockOf(uconn);
              slots[..] == if old(slots[s]).state == Null || timedOut then old(slots[..])
                           else old(slots[..])[s := DeliverDatagram(old(slots[s]), dgram)]
    {
      var s := UdpSockOf(uconn);
      if slots[s].state == Null || timedOut {
        return;
      }
      slots[s] := DeliverDatagram(slots[s], dgram);
    }

    /**
     * `uip_poll` on a UDP connection: a pending close removes the connection, a
     * pending write is sent whole and completes. Closing clears the link of
     * the UDP connection, corrected from the original, which clears that of
     * `uip_conn` (`UdpCloseLinksAsWritten`).
     */
    method UdpPollEvent(uconn: nat)
      requires Valid() && 0 <= UdpSockOf(uconn)
      modifies this, slots
      ensures Valid() && dataLeft == old(dataLeft)
      ensures var s := old(UdpSockOf(uconn));
              old(slots[s]).state == Null ==> slots[..] == old(slots[..]) && engine == old(engine)
                                              && tcpSock == old(tcpSock) && udpSock == old(udpSock)
      ensures var s := old(UdpSockOf(uconn));
              old(slots[s]).state != Null ==> var (rec, acts) := UdpPoll(old(slots[s]));
                && slots[..] == old(slots[..])[s := rec] && engine == old(engine) + acts
                && (tcpSock, udpSock) == (if old(slots[s]).state == Close then UdpCloseLinks(old(tcpSock), old(udpSock), uconn)
                                          else (old(tcpSock), old(udpSock)))
    {
      var s := UdpSockOf(uconn);
      if slots[s].state == Null {
        return;
      }
      if slots[s].state == Close {
        engine := engine + [UdpRemove];
        udpSock := udpSock[uconn := -1];
        slots[s] := slots[s].(state := CloseOk);
      } else if slots[s].state == Writing {
        engine := engine + [UdpSend(Window(slots[s].fields))];
        slots[s] := slots[s].(state := WriteOk);
      }
    }
  }
}
