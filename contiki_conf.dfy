// The socket layer's declarations: the record states, the result codes and
// the socket record with its listening/connected union.

module SockConf {
  import opened Common

  /** The state of one socket-table record, in declaration order. */
  datatype NetSockState =
    | Null | UndefTcp | UndefUdp | Busy | Reading | ReadingLine | ReadOk
    | Writing | WriteOk | Connect | ConnectOk | Close | CloseOk
    | PeerClosed | PeerAborted | Destroy | Bound | BoundUdp
    | Listening | Accepting | Accepted

  const STATE_COUNT: nat := 21

  /** The value C gives each enumerator: its position in the declaration. */
  function Ordinal(s: NetSockState): (n: nat)
    ensures n < STATE_COUNT
    ensures (n == 0) == (s == Null)
  {
    match s
    case Null => 0
    case UndefTcp => 1
    case UndefUdp => 2
    case Busy => 3
    case Reading => 4
    case ReadingLine => 5
    case ReadOk => 6
    case Writing => 7
    case WriteOk => 8
    case Connect => 9
    case ConnectOk => 10
    case Close => 11
    case CloseOk => 12
    case PeerClosed => 13
    case PeerAborted => 14
    case Destroy => 15
    case Bound => 16
    case BoundUdp => 17
    case Listening => 18
    case Accepting => 19
    case Accepted => 20
  }

  /** The enumerator a stored value denotes; a zero-filled record reads as `Null`. */
  function FromOrdinal(n: nat): (s: NetSockState)
    requires n < STATE_COUNT
    ensures Ordinal(s) == n
  {
    if n == 0 then Null
    else if n == 1 then UndefTcp
    else if n == 2 then UndefUdp
    else if n == 3 then Busy
    else if n == 4 then Reading
    else if n == 5 then ReadingLine
    else if n == 6 then ReadOk
    else if n == 7 then Writing
    else if n == 8 then WriteOk
    else if n == 9 then Connect
    else if n == 10 then ConnectOk
    else if n == 11 then Close
    else if n == 12 then CloseOk
    else if n == 13 then PeerClosed
    else if n == 14 then PeerAborted
    else if n == 15 then Destroy
    else if n == 16 then Bound
    else if n == 17 then BoundUdp
    else if n == 18 then Listening
    else if n == 19 then Accepting
    else Accepted
  }

  /** The enumeration is closed: every state is the image of exactly one value. */
  lemma OrdinalBijective(s: NetSockState, t: NetSockState)
    ensures FromOrdinal(Ordinal(s)) == s
    ensures Ordinal(s) == Ordinal(t) ==> s == t
  {
  }

  /** Results of a read or write other than a byte count. */
  const EOF: int := 0
  const ABORT: int := -1
  const TIMEOUT: int := -2

  /** Is `r` one of the three result codes? */
  predicate IsResultCode(r: int) {
    r == EOF || r == ABORT || r == TIMEOUT
  }

  /** The codes are distinct and never positive, so a positive result is a count. */
  lemma ResultCodes(r: int)
    ensures EOF != ABORT && ABORT != TIMEOUT && EOF != TIMEOUT
    ensures IsResultCode(r) ==> r <= 0
    ensures r > 0 ==> !IsResultCode(r)
  {
  }

  /** `len` and `max` are 16-bit unsigned. */
  const U16_MAX: nat := 0xffff

  /**
   * The record's union. A listening record uses `port` (in network order) and
   * `newConnection`; a connected one uses `timeout`, `len`, `max` and `buf`.
   * `port` and `timeout` occupy the same first word; `newConnection` overlays
   * `len` and `max`. The borrowed buffer is modelled by the bytes it holds:
   * for a read, the bytes stored so far; for a write, the caller's data, with
   * `off` the distance `buf` has been advanced.
   */
  datatype Fields =
    | ListenSide(port: int, newConnection: Option<nat>)
    | ConnSide(timeout: int, len: nat, max: nat, buf: seq<byte>, off: nat)

  /** One socket-table record: its state and its union. */
  datatype NetSock = NetSock(state: NetSockState, fields: Fields)

  /**
   * The first word of the union read as `port`: the port of a listening record,
   * the timeout of a connected one.
   */
  function PortWord(f: Fields): (w: int)
    ensures f.ListenSide? ==> w == f.port
    ensures f.ConnSide? ==> w == f.timeout
  {
    match f
    case ListenSide(p, _) => p
    case ConnSide(t, _, _, _, _) => t
  }
}
