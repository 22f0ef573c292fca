// What each socket operation and each engine event does to one record of the
// socket table, as functions, with the properties the socket layer relies on.

module SockSpec {
  import opened Common
  import opened SockConf

  /** The example configuration: 4 TCP connections, 1 UDP connection, 2 listen ports. */
  const SOCK_TABSIZE: nat := 4 + 1 + 2

  /** pico]OS's `INFINITE`: the all-ones value of a 32-bit `UINT_t`. */
  const INFINITE: int := 0xffff_ffff

  const CR: byte := 13
  const LF: byte := 10

  /** What the socket layer asks of the uIP engine. */
  datatype Action =
    | UipListen(port: int)
    | UipUnlisten(port: int)
    | UipSend(data: seq<byte>)
    | UipAbort
    | UipClose
    | UdpBind(port: int)
    | UdpSend(data: seq<byte>)
    | UdpRemove

  // ------------------------------------------------------------ handles

  /** `netSockSlot`: a record address (here: its index, or `None` for NULL) to a handle. */
  function SockSlot(sock: Option<nat>): (s: int)
    ensures sock.None? ==> s == -1
    ensures sock.Some? ==> s >= 0
  {
    match sock
    case None => -1
    case Some(i) => i
  }

  /**
   * `netSockConnection`: a handle to its record. Its comparison with
   * `NET_SOCK_NULL` (0, the null constant) never holds for a table entry.
   */
  function SockConnection(s: nat): (sock: Option<nat>)
    requires s < SOCK_TABSIZE
    ensures sock.Some?
  {
    Some(s)
  }

  lemma SlotOfConnection(s: nat)
    requires s < SOCK_TABSIZE
    ensures SockSlot(SockConnection(s)) == s
    ensures SockSlot(None) == -1
  {
  }

  /** `uip_htons` on a little-endian host: the 16-bit value with its octets swapped. */
  function Htons(v: int): (r: int)
    ensures 0 <= r < U16
  {
    var w := v % U16;
    (w % 256) * 256 + w / 256
  }

  lemma HtonsInvolution(v: int)
    requires 0 <= v < U16
    ensures Htons(Htons(v)) == v
  {
    var hi, lo := v / 256, v % 256;
    assert hi < 256;
    OctetPair(hi, lo);
    assert Htons(v) == lo * 256 + hi;
    OctetPair(lo, hi);
  }

  /** A 16-bit value splits uniquely into its two octets. */
  lemma OctetPair(a: int, b: int)
    requires 0 <= a < 256 && 0 <= b < 256
    ensures (a * 256 + b) % U16 == a * 256 + b
    ensures (a * 256 + b) % 256 == b && (a * 256 + b) / 256 == a
  {
  }

  // ------------------------------------------------------------ well-formed records

  /** The record's reading side: bytes stored so far, within the capacity. */
  predicate ReadSide(f: Fields) {
    f.ConnSide? && f.off == 0 && |f.buf| == f.len <= f.max <= U16_MAX
  }

  /** The record's writing side: `off` bytes acknowledged, `len` still to go. */
  predicate WriteSide(f: Fields) {
    f.ConnSide? && f.off + f.len == |f.buf| <= U16_MAX
  }

  /** Which side of the union each state uses, and what that side then holds. */
  predicate WellFormed(r: NetSock) {
    match r.state
    case Reading => ReadSide(r.fields)
    case ReadingLine => ReadSide(r.fields) && r.fields.max > 0 && !LineDone(r.fields.buf, r.fields.max)
    case ReadOk => ReadSide(r.fields)
    case Writing => WriteSide(r.fields)
    case WriteOk => r.fields.ConnSide? && |r.fields.buf| <= U16_MAX
    case UndefTcp => r.fields.ConnSide?
    case UndefUdp => r.fields.ConnSide?
    case Busy => r.fields.ConnSide?
    case Connect => r.fields.ConnSide?
    case ConnectOk => r.fields.ConnSide?
    case Close => r.fields.ConnSide?
    case Bound => r.fields.ListenSide? && r.fields.newConnection.None?
    case BoundUdp => r.fields.ListenSide? && r.fields.newConnection.None?
    case Listening => r.fields.ListenSide? && r.fields.newConnection.None?
    case Accepting => r.fields.ListenSide? && r.fields.newConnection.None?
    case Accepted => r.fields.ListenSide? && r.fields.newConnection.Some?
    case _ => true
  }

  /** The bytes `buf` and `len` describe: what `uip_send` is handed. */
  function Window(f: Fields): (w: seq<byte>)
    ensures f.ConnSide? && f.off + f.len <= |f.buf| ==> |w| == f.len
  {
    if f.ConnSide? && f.off + f.len <= |f.buf| then f.buf[f.off..f.off + f.len] else []
  }

  // ------------------------------------------------------------ allocation

  /** The first free record, scanning from slot 0. */
  function FirstFree(t: seq<NetSock>): (r: Option<nat>)
    ensures r.Some? ==> r.value < |t| && t[r.value].state == Null
    ensures r.Some? ==> forall j :: 0 <= j < r.value ==> t[j].state != Null
    ensures r.None? <==> forall j :: 0 <= j < |t| ==> t[j].state != Null
  {
    if t == [] then None
    else if t[0].state == Null then Some(0)
    else
      match FirstFree(t[1..])
      case None => None
      case Some(i) => Some(i + 1)
  }

  /** A freshly claimed record: `INFINITE` timeout, no buffer, zero length and capacity. */
  function Allocated(initial: NetSockState): NetSock {
    NetSock(initial, ConnSide(INFINITE, 0, 0, [], 0))
  }

  /** `netSockFree`: the slot is free again; the union is left as it was. */
  function Freed(r: NetSock): NetSock {
    r.(state := Null)
  }

  /** The table after `netSockAlloc`: the first free slot claimed, or nothing changed. */
  function AllocTable(t: seq<NetSock>, initial: NetSockState): (r: (Option<nat>, seq<NetSock>))
    ensures |r.1| == |t|
  {
    match FirstFree(t)
    case None => (None, t)
    case Some(i) => (Some(i), t[i := Allocated(initial)])
  }

  /**
   * Alloc claims the lowest free slot and touches no other; with no free slot
   * it fails and changes nothing. Freeing the claimed slot frees it again.
   */
  lemma AllocLowestFree(t: seq<NetSock>, initial: NetSockState)
    ensures var (sock, t') := AllocTable(t, initial);
            && (sock.None? <==> (forall j :: 0 <= j < |t| ==> t[j].state != Null))
            && (sock.None? ==> t' == t)
            && (sock.Some? ==> sock.value < |t| && t[sock.value].state == Null
                               && (forall j :: 0 <= j < sock.value ==> t[j].state != Null)
                               && t'[sock.value] == Allocated(initial)
                               && (forall j :: 0 <= j < |t| && j != sock.value ==> t'[j] == t[j])
                               && t'[sock.value := Freed(t'[sock.value])][sock.value].state == Null)
  {
  }

  /** A zero-filled table (every state the value 0) has every slot free. */
  lemma ZeroTableAllFree(t: seq<NetSock>)
    requires |t| > 0 && forall j :: 0 <= j < |t| ==> Ordinal(t[j].state) == 0
    ensures FirstFree(t) == Some(0)
  {
  }

  // ------------------------------------------------------------ bind, listen, accept

  /**
   * `netSockBind`: the port, in network order, is stored in the listening
   * side (its `newConnection` overlays the zero `len` and `max` of a fresh record).
   */
  function Bind(r: NetSock, port: int): (r': NetSock)
    requires r.state == UndefTcp || r.state == UndefUdp
  {
    NetSock(if r.state == UndefTcp then Bound else BoundUdp, ListenSide(Htons(port), None))
  }

  lemma BindStates(r: NetSock, port: int)
    requires r.state == UndefTcp || r.state == UndefUdp
    ensures Bind(r, port).state == (if r.state == UndefTcp then Bound else BoundUdp)
    ensures PortWord(Bind(r, port).fields) == Htons(port)
    ensures WellFormed(Bind(r, port))
  {
  }

  /** Does record `r` listen on `lport` (network order)? */
  predicate ListensOn(r: NetSock, lport: int) {
    (r.state == Listening || r.state == Accepting || r.state == Accepted) && PortWord(r.fields) == lport
  }

  /** The listener lookup of `netTcpAppcall`: the first record listening on `lport`. */
  function FindListener(t: seq<NetSock>, lport: int): (r: Option<nat>)
    ensures r.Some? ==> r.value < |t| && ListensOn(t[r.value], lport)
    ensures r.Some? ==> forall j :: 0 <= j < r.value ==> !ListensOn(t[j], lport)
    ensures r.None? <==> forall j :: 0 <= j < |t| ==> !ListensOn(t[j], lport)
  {
    if t == [] then None
    else if ListensOn(t[0], lport) then Some(0)
    else
      match FindListener(t[1..], lport)
      case None => None
      case Some(i) => Some(i + 1)
  }

  // ------------------------------------------------------------ read

  function ReadingState(line: bool): NetSockState {
    if line then ReadingLine else Reading
  }

  /**
   * The first half of `sockRead`: a closed or aborted peer is reported at once;
   * otherwise the reader is installed with an empty buffer of capacity `max`.
   */
  function ReadEntry(r: NetSock, line: bool, max: nat): (res: (Option<int>, NetSock))
    requires r.state == PeerClosed || r.state == PeerAborted || (r.state == Busy && r.fields.ConnSide?)
  {
    if r.state == PeerClosed then (Some(EOF), r)
    else if r.state == PeerAborted then (Some(ABORT), r)
    else (None, NetSock(ReadingState(line), r.fields.(len := 0, max := max, buf := [], off := 0)))
  }

  /** Where the reader may be when its wait ends. */
  predicate ReadWaitOver(r: NetSock, line: bool, timedOut: bool) {
    || r.state == PeerClosed || r.state == PeerAborted
    || (r.state == ReadOk && r.fields.ConnSide?)
    || (r.state == ReadingState(line) && timedOut && r.fields.ConnSide?)
  }

  /**
   * The second half of `sockRead`: EOF or ABORT if the peer went away, TIMEOUT
   * if the wait timed out with the reader still installed, else the count.
   */
  function ReadExit(r: NetSock, line: bool, timedOut: bool): (res: (int, NetSock))
    requires ReadWaitOver(r, line, timedOut)
  {
    if r.state == PeerClosed then (EOF, r)
    else if r.state == PeerAborted then (ABORT, r)
    else if timedOut && r.state == ReadingState(line) then (TIMEOUT, r.(state := Busy))
    else (r.fields.len, r.(state := Busy))
  }

  /**
   * A read on a closed or aborted peer leaves the record alone; otherwise it
   * ends BUSY, a positive result is the length of a completed read and a
   * completed read never reports TIMEOUT.
   */
  lemma ReadOutcome(r: NetSock, line: bool, timedOut: bool)
    requires ReadWaitOver(r, line, timedOut)
    ensures var (res, r') := ReadExit(r, line, timedOut);
            && (r.state == PeerClosed ==> res == EOF && r' == r)
            && (r.state == PeerAborted ==> res == ABORT && r' == r)
            && (r.state != PeerClosed && r.state != PeerAborted ==> r'.state == Busy && r'.fields == r.fields)
            && (res == TIMEOUT <==> r.state == ReadingState(line))
            && (res > 0 ==> r.state == ReadOk && res == r.fields.len)
  {
  }

  // ------------------------------------------------------------ write

  /** The first half of `netSockWrite`: peer checks, then the writer is installed. */
  function WriteEntry(r: NetSock, data: seq<byte>): (res: (Option<int>, NetSock))
    requires r.state == PeerClosed || r.state == PeerAborted || (r.state == Busy && r.fields.ConnSide?)
  {
    if r.state == PeerClosed then (Some(EOF), r)
    else if r.state == PeerAborted then (Some(ABORT), r)
    else (None, NetSock(Writing, r.fields.(len := |data|, buf := data, off := 0)))
  }

  /**
   * The second half of `netSockWrite`: EOF, ABORT, or the length written. An
   * abort during the wait reports ABORT here, as it does before the wait; the
   * code's own result is `WriteExitAsWritten`.
   */
  function WriteExit(r: NetSock): (res: (int, NetSock))
    requires r.state == PeerClosed || r.state == PeerAborted || (r.state == WriteOk && r.fields.ConnSide?)
  {
    if r.state == PeerClosed then (EOF, r)
    else if r.state == PeerAborted then (ABORT, r)
    else (|r.fields.buf|, r.(state := Busy))
  }

  /**
   * The second half of `netSockWrite` as written: the result is stored in the
   * `uint16_t len` parameter before it is returned, so an abort during the
   * wait comes back as 65535 rather than ABORT. Every other outcome, and the
   * new record, are those of `WriteExit`.
   */
  function WriteExitAsWritten(r: NetSock): (res: (int, NetSock))
    requires r.state == PeerClosed || r.state == PeerAborted || (r.state == WriteOk && r.fields.ConnSide?)
    ensures res.1 == WriteExit(r).1
    ensures r.state != PeerAborted ==> res.0 == WriteExit(r).0
    ensures r.state == PeerAborted ==> res.0 == U16_MAX && res.0 != ABORT
  {
    var (code, r') := WriteExit(r);
    if r.state == WriteOk then (code, r') else (code % U16, r')
  }

  /** The acknowledgement of `mss` bytes: `netTcpAppcallMutex`'s `uip_acked` branch. */
  function Ack(r: NetSock, mss: nat): (res: (NetSock, seq<Action>))
  {
    if r.state == Writing && r.fields.ConnSide? then
      if r.fields.len <= mss then (r.(state := WriteOk, fields := r.fields.(len := 0)), [])
      else
        var f := r.fields.(off := r.fields.off + mss, len := r.fields.len - mss);
        (r.(fields := f), [UipSend(Window(f))])
    else (r, [])
  }

  /** The record after `k` acknowledgements of `mss` bytes each. */
  function Acks(r: NetSock, mss: nat, k: nat): NetSock {
    if k == 0 then r else Ack(Acks(r, mss, k - 1), mss).0
  }

  /** Each acknowledgement keeps `off + len` equal to the length being written. */
  lemma AckPreservesWriteSide(r: NetSock, mss: nat)
    requires WellFormed(r)
    ensures WellFormed(Ack(r, mss).0)
    ensures r.state == Writing ==> |Ack(r, mss).0.fields.buf| == |r.fields.buf|
  {
  }

  /** Before the last acknowledgement the writer has advanced by `k * mss`. */
  lemma {:induction false} AcksAdvance(r: NetSock, mss: nat, k: nat)
    requires r.state == Writing && WriteSide(r.fields) && k * mss < r.fields.len
    ensures Acks(r, mss, k) == r.(fields := r.fields.(off := r.fields.off + k * mss, len := r.fields.len - k * mss))
  {
    if k > 0 {
      assert (k - 1) * mss == k * mss - mss;
      AcksAdvance(r, mss, k - 1);
    }
  }

  /**
   * A write of `len > 0` bytes completes after exactly `ceil(len / mss)`
   * acknowledgements: still WRITING after one fewer, WRITE_OK then.
   */
  lemma WriteCompletes(r: NetSock, mss: nat)
    requires r.state == Writing && WriteSide(r.fields) && r.fields.len > 0 && mss > 0
    ensures var n := (r.fields.len + mss - 1) / mss;
            n >= 1 && Acks(r, mss, n - 1).state == Writing && Acks(r, mss, n).state == WriteOk
            && Acks(r, mss, n).fields.len == 0
  {
    var len := r.fields.len;
    var n := (len + mss - 1) / mss;
    CeilDiv(len, mss);
    AcksAdvance(r, mss, n - 1);
  }

  /** The ceiling quotient `n`: `(n - 1) * mss < len <= n * mss`. */
  lemma CeilDiv(len: nat, mss: nat)
    requires len > 0 && mss > 0
    ensures var n := (len + mss - 1) / mss;
            n >= 1 && (n - 1) * mss < len && len - (n - 1) * mss <= mss
  {
    var n := (len + mss - 1) / mss;
    var q := len + mss - 1;
    assert q == n * mss + q % mss;
    assert (n - 1) * mss == n * mss - mss;
  }

  // ------------------------------------------------------------ data delivery

  /** A string without its carriage returns. */
  function StripCR(s: seq<byte>): (r: seq<byte>)
    ensures |r| <= |s|
  {
    if s == [] then [] else (if s[0] == CR then [] else [s[0]]) + StripCR(s[1..])
  }

  lemma {:induction false} StripCRHasNoCR(s: seq<byte>)
    ensures CR !in StripCR(s)
  {
    if s != [] {
      StripCRHasNoCR(s[1..]);
    }
  }

  /**
   * The line-read copy loop: from the segment, carriage returns are dropped and
   * other bytes appended to `line` until it holds `max` bytes or a line feed
   * has been appended. Returns the line and the number of segment bytes consumed.
   */
  function LineCopy(line: seq<byte>, max: nat, seg: seq<byte>): (r: (seq<byte>, nat))
    ensures r.1 <= |seg|
    decreases |seg|
  {
    if seg == [] || |line| >= max then (line, 0)
    else if seg[0] == CR then
      var q := LineCopy(line, max, seg[1..]); (q.0, q.1 + 1)
    else if seg[0] == LF then (line + [LF], 1)
    else
      var q := LineCopy(line + [seg[0]], max, seg[1..]); (q.0, q.1 + 1)
  }

  /**
   * What the copy loop does: the line grows by the consumed bytes less their
   * carriage returns, never beyond `max`; it holds no line feed before its last
   * byte; and bytes are left over only once the line is full or ends in LF.
   */
  lemma LineCopySpec(line: seq<byte>, max: nat, seg: seq<byte>)
    requires |line| <= max
    ensures var (line', k) := LineCopy(line, max, seg);
            && line' == line + StripCR(seg[..k])
            && |line'| <= max
            && (forall i :: |line| <= i < |line'| - 1 ==> line'[i] != LF)
            && (k < |seg| ==> |line'| == max || (|line'| > |line| && line'[|line'| - 1] == LF))
  {
    LineCopyContent(line, max, seg);
    LineCopyStop(line, max, seg);
  }

  /** What the copy appends: the segment's prefix it consumed, without CRs. */
  lemma {:induction false} LineCopyContent(line: seq<byte>, max: nat, seg: seq<byte>)
    requires |line| <= max
    ensures var (line', k) := LineCopy(line, max, seg);
            line' == line + StripCR(seg[..k]) && |line'| <= max
    decreases |seg|
  {
    if seg == [] || |line| >= max {
      assert seg[..0] == [];
    } else if seg[0] == CR {
      var k := LineCopy(line, max, seg[1..]).1;
      assert StripCR(seg[..k + 1]) == StripCR(seg[1..][..k]) by {
        assert seg[..k + 1] == [CR] + seg[1..][..k];
        assert ([CR] + seg[1..][..k])[1..] == seg[1..][..k];
      }
      LineCopyContent(line, max, seg[1..]);
    } else if seg[0] == LF {
      assert seg[..1] == [LF];
      assert seg[..1][1..] == [];
    } else {
      var c := seg[0];
      var k := LineCopy(line + [c], max, seg[1..]).1;
      assert line + StripCR(seg[..k + 1]) == line + [c] + StripCR(seg[1..][..k]) by {
        assert seg[..k + 1] == [c] + seg[1..][..k];
        assert ([c] + seg[1..][..k])[1..] == seg[1..][..k];
        AppendAssoc(line, [c], StripCR(seg[1..][..k]));
      }
      LineCopyContent(line + [c], max, seg[1..]);
    }
  }

  /** Where the copy stops: at a full line, after the first LF, or at the end of the segment. */
  lemma {:induction false} LineCopyStop(line: seq<byte>, max: nat, seg: seq<byte>)
    requires |line| <= max
    ensures var (line', k) := LineCopy(line, max, seg);
            && |line| <= |line'| <= max && line'[..|line|] == line
            && (forall i :: |line| <= i < |line'| - 1 ==> line'[i] != LF)
            && (k < |seg| ==> |line'| == max || (|line'| > |line| && line'[|line'| - 1] == LF))
    decreases |seg|
  {
    if seg == [] || |line| >= max {
    } else if seg[0] == CR {
      LineCopyStop(line, max, seg[1..]);
    } else if seg[0] == LF {
      assert (line + [LF])[..|line|] == line;
    } else {
      var c := seg[0];
      LineCopyStop(line + [c], max, seg[1..]);
      var line' := LineCopy(line + [c], max, seg[1..]).0;
      assert line'[..|line| + 1][..|line|] == line'[..|line|];
      assert line'[|line|] == line'[..|line| + 1][|line|] == c;
    }
  }


  /** With no room (`max == 0`) the copy loop consumes nothing. */
  lemma LineCopyStallsAsWritten(seg: seq<byte>)
    ensures LineCopy([], 0, seg) == ([], 0)
  {
  }

  /** With room, a non-empty segment always loses at least one byte. */
  lemma LineCopyProgress(line: seq<byte>, max: nat, seg: seq<byte>)
    requires |line| < max && seg != []
    ensures LineCopy(line, max, seg).1 >= 1
  {
  }

  /** Does a line reader stop here: a non-empty line that is full or ends in LF? */
  predicate LineDone(buf: seq<byte>, max: nat) {
    |buf| > 0 && (|buf| == max || buf[|buf| - 1] == LF)
  }

  /**
   * One pass of the delivery loop for a READING reader: the first
   * `min(dataLeft, max)` bytes are copied, `len` set, READ_OK; returns the rest.
   */
  function DeliverRead(r: NetSock, seg: seq<byte>): (res: (NetSock, seq<byte>))
    requires r.state == Reading && r.fields.ConnSide?
  {
    var n := if |seg| > r.fields.max then r.fields.max else |seg|;
    (NetSock(ReadOk, r.fields.(len := n, buf := seg[..n])), seg[n..])
  }

  lemma DeliverReadSpec(r: NetSock, seg: seq<byte>)
    requires r.state == Reading && ReadSide(r.fields)
    ensures var (r', rest) := DeliverRead(r, seg);
            && r'.state == ReadOk && ReadSide(r'.fields)
            && r'.fields.len == (if |seg| <= r.fields.max then |seg| else r.fields.max)
            && r'.fields.buf + rest == seg
            && r'.fields.max == r.fields.max && r'.fields.timeout == r.fields.timeout
  {
  }

  /**
   * One pass of the delivery loop for a READING_LINE reader: the copy loop,
   * then READ_OK if the line is done; returns the unconsumed rest.
   */
  function DeliverLine(r: NetSock, seg: seq<byte>): (res: (NetSock, seq<byte>))
    requires r.state == ReadingLine && r.fields.ConnSide?
  {
    var (line, k) := LineCopy(r.fields.buf, r.fields.max, seg);
    (NetSock(if LineDone(line, r.fields.max) then ReadOk else ReadingLine,
             r.fields.(len := |line|, buf := line)),
     seg[k..])
  }

  /**
   * A line reader ends READ_OK exactly when its line is done; otherwise the
   * partial line stays for the next segment and the whole segment was used.
   */
  lemma DeliverLineSpec(r: NetSock, seg: seq<byte>)
    requires r.state == ReadingLine && WellFormed(r)
    ensures var (r', rest) := DeliverLine(r, seg);
            && WellFormed(r')
            && (r'.state == ReadOk <==> LineDone(r'.fields.buf, r.fields.max))
            && (r'.state == ReadingLine ==> rest == [])
            && r'.fields.buf == r.fields.buf + StripCR(seg[..|seg| - |rest|])
            && (seg != [] ==> |rest| < |seg|)
  {
    var (line, k) := LineCopy(r.fields.buf, r.fields.max, seg);
    LineCopySpec(r.fields.buf, r.fields.max, seg);
    if seg != [] {
      LineCopyProgress(r.fields.buf, r.fields.max, seg);
    }
    assert seg[k..] == seg[|seg| - |seg[k..]|..];
    assert |seg| - |seg[k..]| == k;
  }

  /**
   * `netSockReadLine` with `max == 0`, as the original allows it: a segment
   * arriving for it is not consumed and the reader stays installed, so the
   * engine's delivery loop (which waits only while no reader is installed)
   * repeats the same pass forever.
   */
  lemma LineReadStallsAsWritten(r: NetSock, seg: seq<byte>)
    requires r.state == ReadingLine && ReadSide(r.fields) && r.fields.max == 0 && seg != []
    ensures DeliverLine(r, seg) == (r, seg)
  {
  }

  /** A datagram for a READING reader: `netUdpAppcallMutex`'s copy. */
  function DeliverDatagram(r: NetSock, dgram: seq<byte>): (r': NetSock)
    requires r.fields.ConnSide?
  {
    var n := if |dgram| > r.fields.max then r.fields.max else |dgram|;
    NetSock(ReadOk, r.fields.(len := n, buf := dgram[..n]))
  }

  /**
   * The union read as its connected side after `netSockConnect` on a bound
   * record: the port word becomes the timeout, the NULL `newConnection` reads
   * as zero `len` and `max`, and `buf` is still the NULL of the fresh record.
   */
  function AsConnSide(f: Fields): (g: Fields)
    ensures g.ConnSide?
    ensures f.ConnSide? ==> g == f
  {
    match f
    case ListenSide(port, _) => ConnSide(port, 0, 0, [], 0)
    case ConnSide(_, _, _, _, _) => f
  }

  /**
   * Records `netSockListen` may turn into listeners: the word `newConnection`
   * overlays must read NULL, as it does for a listener with nothing pending
   * and for a connected-side record with zero `len` and `max` (a freshly
   * allocated one, never bound, among them).
   */
  predicate Listenable(f: Fields) {
    (f.ListenSide? && f.newConnection.None?) || (f.ConnSide? && f.len == 0 && f.max == 0)
  }

  /**
   * The union read as its listening side by `netSockListen`: the first word
   * is the port, whatever was stored there (the `INFINITE` timeout of a record
   * never bound), and nothing is pending.
   */
  function AsListenSide(f: Fields): (g: Fields)
    requires Listenable(f)
    ensures g.ListenSide? && g.newConnection.None?
    ensures g.port == PortWord(f)
    ensures f.ListenSide? ==> g == f
  {
    ListenSide(PortWord(f), None)
  }

  /** The record's `int` port word passed to uIP's `u16_t` port parameter. */
  function UipPort(w: int): (p: int)
    ensures 0 <= p < U16
    ensures 0 <= w < U16 ==> p == w
  {
    w % U16
  }

  /**
   * `listen` without `bind`: the record still holds the `INFINITE` timeout of
   * its allocation, so uIP is asked to listen on port 0xffff, and a later
   * close unlistens that same port.
   */
  lemma ListenWithoutBind()
    ensures Listenable(Allocated(UndefTcp).fields)
    ensures AsListenSide(Allocated(UndefTcp).fields) == ListenSide(INFINITE, None)
    ensures UipPort(PortWord(Allocated(UndefTcp).fields)) == 0xffff
    ensures CloseExit(NetSock(Listening, AsListenSide(Allocated(UndefTcp).fields))).1 == [UipUnlisten(0xffff)]
  {
  }

  /**
   * A store to `timeout`: the first word of the union, which a listening
   * record reads as its port.
   */
  function WithTimeout(f: Fields, t: int): (g: Fields)
    ensures PortWord(g) == t && g.ListenSide? == f.ListenSide?
    ensures f.ConnSide? ==> g == f.(timeout := t)
    ensures f.ListenSide? ==> g.newConnection == f.newConnection
  {
    match f
    case ListenSide(_, nc) => ListenSide(t, nc)
    case ConnSide(_, len, max, buf, off) => ConnSide(t, len, max, buf, off)
  }

  // ------------------------------------------------------------ close

  /** `netSockClose` before its wait: a BUSY record asks the engine to close. */
  function CloseEntry(r: NetSock): NetSock {
    if r.state == Busy then r.(state := Close) else r
  }

  /** Where `netSockClose` may find the record after its wait. */
  predicate CloseWaitOver(r: NetSock) {
    r.state == Listening || r.state == PeerClosed || r.state == PeerAborted || r.state == CloseOk
  }

  /**
   * `netSockClose` after its wait: a listener stops listening (port 0,
   * CLOSE_OK); then the record is freed.
   */
  function CloseExit(r: NetSock): (res: (NetSock, seq<Action>))
    requires CloseWaitOver(r)
  {
    if r.state == Listening then
      (Freed(NetSock(CloseOk, ListenSide(0, if r.fields.ListenSide? then r.fields.newConnection else None))),
       [UipUnlisten(UipPort(PortWord(r.fields)))])
    else (Freed(r), [])
  }

  /** The poll event of `netTcpAppcallMutex`. */
  function Poll(r: NetSock): (res: (NetSock, seq<Action>))
  {
    if r.state == Close then (r.(state := CloseOk), [UipClose])
    else if r.state == Writing then (r, [UipSend(Window(r.fields))])
    else (r, [])
  }

  /** The poll event of `netUdpAppcallMutex`: a UDP write is sent whole at once. */
  function UdpPoll(r: NetSock): (res: (NetSock, seq<Action>))
  {
    if r.state == Close then (r.(state := CloseOk), [UdpRemove])
    else if r.state == Writing then (r.(state := WriteOk), [UdpSend(Window(r.fields))])
    else (r, [])
  }

  /**
   * Closing a BUSY TCP record: CLOSE, then the engine's poll turns it
   * CLOSE_OK after asking uIP to close, then the slot is free.
   */
  lemma CloseFromBusy(r: NetSock)
    requires r.state == Busy
    ensures CloseEntry(r).state == Close
    ensures Poll(CloseEntry(r)) == (r.(state := CloseOk), [UipClose])
    ensures CloseExit(Poll(CloseEntry(r)).0) == (Freed(r), [])
    ensures Freed(r).state == Null
  {
  }

  /** Closing a listener: it stops listening on its port and the slot is free. */
  lemma CloseListener(r: NetSock)
    requires r.state == Listening && r.fields.ListenSide?
    ensures CloseEntry(r) == r
    ensures CloseExit(r).1 == [UipUnlisten(UipPort(r.fields.port))]
    ensures CloseExit(r).0.state == Null && CloseExit(r).0.fields.port == 0
  {
  }
}
