# picoos-net core, modelled in Dafny

picoos-net puts a blocking socket layer on top of the uIP TCP/IP engine, for
the pico]OS real-time kernel, and adds a few protocol codecs. This project
models the parts of it that hold logic:

- **Socket table** (`sock.c`, with the record layout of `contiki-conf.h`). The
  table is a class over an array of `SOCK_TABSIZE` records. Each record is a
  state of the `NetSockState` enumeration plus a tagged union (listening side
  or connected side). Every client operation is split at its wait: a `Begin`
  method runs up to the wait, an `End` method runs after it. Every engine
  event (`connected`, `aborted`, `timedout`, `acked`, `newdata`, `rexmit`,
  `closed`, `poll`, and their UDP forms) is one atomic method. The per-record
  effects are pure functions in `SockSpec`, and the properties are lemmas
  about those functions.
- **BSD shim** (`bsdsock.c`): each `net_*` call is mapped onto the table, with
  its result-code mapping and the `SO_RCVTIMEO` conversion.
- **PPP async framing** (`drivers/ppp_frame.c`): this is the octet-stuffed
  framing of RFC 1662 with its 16-bit FCS. `PppContext` is a class over the
  caller's buffer. The encoder and decoder are proved against the pure
  functions `EncBegin`/`EncAppend`/`EncEnd` and `DecStep`, and those functions
  are proved to round-trip.
- **Telnet line discipline** (`telnetd.c`):
  - output escaping;
  - option refusal;
  - line assembly over a socket whose `recv` results are given as a script.
- **DHCP client codec** (`net/ip/dhcpc.c`):
  - the message builder, over the static message buffer;
  - the option writers and parsers;
  - the wait for a reply;
  - the retry schedules and the lease arithmetic of `dhcpTask`.
- **Event timers** (`sys/etimer.c`): the timer list, with add, stop, poll and
  the next-expiry computation in wrapping 32-bit clock arithmetic.
- **Ethernet glue** (`ethernet.c`): the ethertype dispatch of received
  frames, and the header written in front of outgoing packets, including the
  IPv6 multicast mapping of section 7 of RFC 2464.

Modules: `Common` (bytes, `Option`, C division), `SockConf`, `SockSpec`,
`Sock`, `BsdSock`, `PppFrame`, `Telnetd`, `Dhcpc`, `Etimer` and `Ethernet`,
one file each.

Configuration assumptions:

- `SOCK_TABSIZE` is 7.
- `INFINITE` is `0xffffffff`, the all-ones 32-bit `UINT_t`.
- The uIP buffer is 590 bytes.
- The stack is built for IPv6: the address length is that of `sockaddr_in6`.
- `UIP_ACTIVE_OPEN` is 1.
- `NO_COMPRESS` is not defined.
- The PPP constants are the RFC 1662 values, because `ppp_defs.h` is not part
  of this model.

Where the source and the obvious intent differ (see "## Findings"), the
source's behaviour is written out as separate "as written" functions and
lemmas that exhibit the discrepancy, and the operations themselves (the
classes' methods and the functions they are proved against) implement the
corrected behaviour. "## Left out" names each such operation.

Two notes on the source:

- The `P_ASSERT` at sock.c:166 is always true (`|| NET_SOCK_BOUND_UDP`). It
  sits in the `UIP_ACTIVE_OPEN != 1` branch, which this configuration does
  not compile, so it does not affect the model.
- `contiki-conf.h` names the app-state field `file`, while `sock.c` uses
  `.sock`. The model follows `sock.c`: the connection-to-socket maps
  `tcpSock`/`udpSock` of `Sock.SocketTable` stand for it.

## Model

| member | source | states |
|---|---|---|
| SockConf.Ordinal | contiki-conf.h:73-97 | each state's C value is below the enumerator count, and 0 exactly for `NET_SOCK_NULL` |
| SockConf.FromOrdinal | contiki-conf.h:73-97 | every value below the count denotes the state whose ordinal it is |
| SockConf.OrdinalBijective | contiki-conf.h:73-97 | the enumeration is closed: value→state→value is the identity and distinct states have distinct values |
| SockConf.ResultCodes | contiki-conf.h:99-101 | EOF, ABORT and TIMEOUT are pairwise distinct and never positive, so a positive result is never a code |
| SockConf.PortWord | contiki-conf.h:111-124 | the union's first word is the port of a listening record and the timeout of a connected one, so each overwrites the other |
| SockSpec.SockSlot | sock.c:61-67 | a NULL record is -1; any record gives a non-negative handle |
| SockSpec.SockConnection | sock.c:69-78 | every table handle gives a record: the comparison with `NET_SOCK_NULL` never yields NULL |
| SockSpec.SlotOfConnection | sock.c:61-78 | `netSockSlot(netSockConnection(s)) == s` for every handle, and `netSockSlot(NULL) == -1` |
| SockSpec.Htons | sock.c:257 | byte swap of a 16-bit value, always below 2^16 |
| SockSpec.HtonsInvolution | sock.c:257 | swapping twice gives back any 16-bit value |
| SockSpec.Window | sock.c:683 | the bytes `uip_send` is handed are `len` bytes of the record's buffer |
| SockSpec.FirstFree | sock.c:88-98 | the result is a NULL slot with no NULL slot before it; none exactly when every slot is in use |
| SockSpec.AllocTable | sock.c:80-117 | alloc never changes the table's size |
| SockSpec.AllocLowestFree | sock.c:88-107 | alloc claims the lowest NULL slot with the initial state, `INFINITE` timeout and empty buffer, and touches no other slot; with no NULL slot it fails and nothing changes; freeing the claimed slot makes it free again |
| SockSpec.ZeroTableAllFree | sock.c:789 | a zero-filled table has slot 0 as its first free slot |
| SockSpec.BindStates | sock.c:249-261 | bind maps UNDEF_TCP to BOUND and UNDEF_UDP to BOUND_UDP, stores the port in network order, and keeps the record well formed |
| SockSpec.FindListener | sock.c:500-512 | the result listens on `lport` and no earlier record does; none exactly when no record listens on it |
| SockSpec.ReadOutcome | sock.c:339-356 | after the read's wait, a closed or aborted peer keeps the record; otherwise it ends BUSY, a timeout with the state unchanged gives TIMEOUT, and a completed read gives `len` |
| SockSpec.AckPreservesWriteSide | sock.c:593-610 | an ack keeps the record well formed, and a writer keeps the length of the buffer it writes |
| SockSpec.AcksAdvance | sock.c:603-608 | before the last ack, `k` acks advance the buffer by `k * mss` and shrink `len` by as much |
| SockSpec.WriteCompletes | sock.c:593-610 | a write of `L > 0` bytes is still WRITING after ⌈L/mss⌉-1 acks and WRITE_OK with `len` 0 after ⌈L/mss⌉ |
| SockSpec.CeilDiv | sock.c:597-606 | the ack count n satisfies `(n-1)*mss < L <= n*mss` |
| SockSpec.StripCR | sock.c:643-648 | dropping carriage returns never lengthens a string |
| SockSpec.StripCRHasNoCR | sock.c:643-648 | a string without its carriage returns contains none |
| SockSpec.LineCopy | sock.c:639-656 | the copy loop never consumes more than the segment holds |
| SockSpec.LineCopySpec | sock.c:639-656 | the copy loop appends the consumed bytes without CRs, never past `max`; no LF before the line's last byte; bytes are left only once the line is full or ends in LF |
| SockSpec.LineCopyContent | sock.c:639-656 | the line grows by exactly the consumed prefix of the segment with its CRs dropped, and stays within `max` |
| SockSpec.LineCopyStop | sock.c:639-656 | the copy stops at a full line, right after the first LF, or at the end of the segment |
| SockSpec.LineCopyStallsAsWritten | sock.c:639 | with `max == 0` the copy loop consumes nothing |
| SockSpec.LineCopyProgress | sock.c:639-656 | with room in the line, a non-empty segment loses at least one byte |
| SockSpec.DeliverReadSpec | sock.c:664-677 | a plain reader takes exactly `min(dataLeft, max)` bytes from the front of the segment, sets `len` to that count and becomes READ_OK; the rest waits |
| SockSpec.DeliverLineSpec | sock.c:635-663 | a line reader is READ_OK exactly when its line is non-empty and full or ends in LF; otherwise the partial line stays and the whole segment was used |
| SockSpec.LineReadStallsAsWritten | sock.c:618-663 | a line reader with `max == 0` leaves the segment and the record unchanged, so the delivery loop repeats forever |
| SockSpec.AsConnSide | sock.c:215-219 | a record connected after bind reads its union as the connected side; a connected record is unchanged |
| SockSpec.AsListenSide | sock.c:263-272 | listening reads the union's first word as the port and nothing pending; a listener is unchanged |
| SockSpec.UipPort | sock.c:270 | the `int` port word passed as uIP's 16-bit port: within 16 bits, and unchanged when already so |
| SockSpec.ListenWithoutBind | sock.c:263-272 | a freshly allocated TCP record may listen; it listens on port 0xffff (its `INFINITE` timeout) and closing it unlistens 0xffff |
| SockSpec.WithTimeout | bsdsock.c:120-125 | storing the timeout writes the union's first word and keeps which side the record is on |
| SockSpec.CloseFromBusy | sock.c:429-463 | closing a BUSY record goes CLOSE, then the poll asks uIP to close and sets CLOSE_OK, then the slot is NULL |
| SockSpec.CloseListener | sock.c:448-462 | closing a listener unlistens its port cut to 16 bits, zeroes the port and frees the slot |
| Sock.CopyLine | sock.c:639-656 | the imperative copy loop computes exactly `LineCopy` |
| Sock.SocketTable.constructor | sock.c:789 | a fresh table has every slot NULL and no engine bindings |
| Sock.SocketTable.Alloc | sock.c:80-117 | the first-fit scan gives `AllocTable` of the old table |
| Sock.SocketTable.Free | sock.c:417-427 | the slot becomes NULL; nothing else changes |
| Sock.SocketTable.Bind | sock.c:249-261 | the slot becomes `Bind` of its record and 0 is returned |
| Sock.SocketTable.Listen | sock.c:263-272 | any record whose `newConnection` word reads NULL becomes LISTENING with its union read as the listening side, and uIP is asked to listen on its first word cut to 16 bits (0xffff for a record never bound) |
| Sock.SocketTable.AcceptBegin | sock.c:274-283 | a LISTENING record becomes ACCEPTING |
| Sock.SocketTable.AcceptEnd | sock.c:292-301 | the new connection's remote address is returned as the peer, with its socket (none if it has lost it), and the listener is LISTENING again with no pending connection |
| Sock.SocketTable.ConnectBegin | sock.c:157-225 | a failed engine call returns -1 with nothing changed; UNDEF_TCP waits in CONNECT; the other states are BUSY at once, with a bound UDP record bound to its port |
| Sock.SocketTable.ConnectEnd | sock.c:187-203 | CONNECT_OK becomes BUSY with result 0; a closed or aborted peer frees the slot and gives -1 |
| Sock.SocketTable.ReadBegin | sock.c:304-330 | closed and aborted peers return EOF and ABORT at once with the record unchanged; a BUSY record installs the reader |
| Sock.SocketTable.ReadEnd | sock.c:339-356 | the result and record are `ReadExit`; a positive result is the length of the data read |
| Sock.SocketTable.WriteBegin | sock.c:369-389 | closed and aborted peers return EOF and ABORT at once; a BUSY record starts WRITING its data |
| Sock.SocketTable.WriteEnd | sock.c:401-414 | closed gives EOF, aborted gives ABORT (corrected, see "## Findings"); WRITE_OK gives the length and BUSY |
| SockSpec.WriteExitAsWritten | sock.c:401-414 | as written, the result passes through the 16-bit `len`, so only an abort during the wait differs from `WriteExit`: it comes back as 65535, not ABORT |
| Sock.SocketTable.CloseBegin | sock.c:429-446 | a BUSY record becomes CLOSE; any other record is unchanged |
| Sock.SocketTable.CloseEnd | sock.c:448-462 | the record and uIP requests are `CloseExit` of the record (a listener is unlistened), and the slot ends NULL |
| Sock.SocketTable.FindListenerScan | sock.c:500-506 | the scan returns `FindListener` of the table |
| Sock.SocketTable.AppcallClose | sock.c:574-579 | the connection forgets its socket, which takes the next state |
| Sock.SocketTable.TcpConnected | sock.c:471-558 | an active open becomes CONNECT_OK; a passive open goes to the accept hook or to the first listener on the port |
| Sock.SocketTable.AcceptByHook | sock.c:475-494 | a BUSY socket is allocated for the connection and freed again, with an abort, if the hook refuses it or no slot is free |
| Sock.SocketTable.AcceptByListener | sock.c:497-545 | no listener or a listener timeout aborts; otherwise a BUSY socket is allocated and the listener becomes ACCEPTED with the new connection |
| Sock.SocketTable.MarkAccepted | sock.c:538-541 | the listener becomes ACCEPTED holding the new connection, and no other slot changes |
| Sock.SocketTable.TcpAborted | sock.c:583-586 | the socket becomes PEER_ABORTED and the connection forgets it |
| Sock.SocketTable.TcpTimedOut | sock.c:588-591 | a timeout is handled as an abort |
| Sock.SocketTable.TcpAcked | sock.c:593-610 | the record and engine actions are `Ack(record, mss)` |
| Sock.SocketTable.TcpNewData | sock.c:612-616 | the segment is held for delivery, or dropped when the connection has no socket |
| Sock.SocketTable.DeliverStep | sock.c:635-677 | one delivery pass is `DeliverRead` or `DeliverLine`, and it either consumes data or completes the read |
| Sock.SocketTable.ReaderTimeout | sock.c:620-634 | no reader within the wait aborts the connection, makes the socket PEER_ABORTED and drops the data |
| Sock.SocketTable.TcpRexmit | sock.c:681-684 | the record's window is sent again |
| Sock.SocketTable.TcpClosed | sock.c:686-689 | the socket becomes PEER_CLOSED and the connection forgets it |
| Sock.SocketTable.TcpPoll | sock.c:691-702 | a CLOSE record asks uIP to close and becomes CLOSE_OK; a WRITING record resends its window |
| Sock.SocketTable.UdpNewData | sock.c:724-749 | unless the socket is NULL or its reader did not come in time, the record takes the datagram (`DeliverDatagram`); otherwise nothing changes |
| Sock.SocketTable.UdpPollEvent | sock.c:751-765 | a CLOSE record removes the UDP connection, whose link is cleared (corrected, see "## Findings"), and is CLOSE_OK; a WRITING record sends its data whole and is WRITE_OK |
| Sock.UdpCloseOrphansTcpAsWritten | sock.c:574-577 | as written, a UDP close cuts the current TCP connection off from its socket and leaves the UDP link naming the freed slot; corrected, only the UDP link is cleared |
| BsdSock.RecvOutcome | bsdsock.c:132-146 | after a read, 0 exactly for a closed peer or an empty completed read, -1 exactly for an abort or a timeout, otherwise the byte count |
| BsdSock.SendOutcome | bsdsock.c:148-157 | a completed write returns `size` when it fits 16 bits and -1 otherwise; with the corrected abort result, any other outcome of a non-empty write is -1 |
| BsdSock.SendAbortSucceedsAsWritten | bsdsock.c:148-157 | as written, an abort during the write's wait makes `net_send` report `size` for every size up to 65535; corrected, it reports -1 |
| BsdSock.NetGetSockOpt | bsdsock.c:106-109 | always -1 |
| BsdSock.NetSocket | bsdsock.c:51-65 | a stream socket allocates UNDEF_TCP and a datagram socket UNDEF_UDP, returning the slot or -1; any other type is -1 with the table unchanged |
| BsdSock.NetClose | bsdsock.c:67-71 | the record is closed and freed, and 0 is returned |
| BsdSock.NetConnectBegin | bsdsock.c:73-76 | `netSockConnect` on the record of `s`: -1 with nothing changed when uIP gives no connection, a wait in CONNECT for UNDEF_TCP, else BUSY at once with 0 |
| BsdSock.NetAccept | bsdsock.c:78-93 | the peer's address is written to `addr` in every case; -1 when accept yields no socket, otherwise the new slot, with the address length of `sockaddr_in6` |
| BsdSock.NetBind | bsdsock.c:95-98 | the record is BOUND or BOUND_UDP and its port word is exactly the address's `sin_port`; the result is 0 |
| BsdSock.NetListen | bsdsock.c:100-104 | the record is LISTENING on its port word cut to 16 bits, bound or not; the result is 0 |
| BsdSock.NetSetSockOpt | bsdsock.c:111-130 | `SO_RCVTIMEO` stores `INFINITE` for a zero timeval, else `MS(sec*1000 + usec/1000)`, and returns 0; any other option returns -1 with nothing changed |
| BsdSock.NetRecvBegin | bsdsock.c:132-139 | the read starts with `size` cut to 16 bits |
| BsdSock.NetRecvEnd | bsdsock.c:139-146 | the result is the BSD mapping of the read's result |
| BsdSock.NetReadBegin | bsdsock.c:159-162 | `net_recv` with no flags |
| BsdSock.NetSendBegin | bsdsock.c:148-153 | the write starts on the first `size mod 65536` bytes |
| BsdSock.NetSendEnd | bsdsock.c:153-157 | `size` when the write returned at least `size`, else -1 |
| BsdSock.NetWriteBegin | bsdsock.c:164-167 | `net_send` with no flags |
| PppFrame.FcsResidue | drivers/ppp_frame.c:91-124 | folding the complemented FCS of any string, low octet first, leaves GOODFCS |
| PppFrame.HeadFcs | drivers/ppp_frame.c:149-159 | folding the protocol field octet by octet gives the FCS of that field |
| PppFrame.FcsOfAppend | drivers/ppp_frame.c:142 | the FCS over `s + t` is the FCS over `t` started from the FCS over `s` |
| PppFrame.Trailer | drivers/ppp_frame.c:188-191 | the trailer is two octets |
| PppFrame.Escaped | drivers/ppp_frame.c:172-181 | an escaped octet never contains FLAG, and takes two octets exactly for FLAG and ESCAPE |
| PppFrame.StuffedHasNoFlag | drivers/ppp_frame.c:172-181 | a stuffed string never contains FLAG |
| PppFrame.StuffedAppend | drivers/ppp_frame.c:164-184 | stuffing distributes over concatenation |
| PppFrame.ProtocolField | drivers/ppp_frame.c:150-159 | the protocol field is two octets above 0xff, one otherwise |
| PppFrame.ProtocolOctets | drivers/ppp_frame.c:150-281 | the two octets the encoder writes recombine to the protocol, and the low bit the parser tests is the protocol's |
| PppFrame.EncAppendAllBounded | drivers/ppp_frame.c:168-169 | appends never take the output past `max` |
| PppFrame.EncodeWithinCapacity | drivers/ppp_frame.c:186-195 | with the corrected end, the encoder stores at most `max` octets |
| PppFrame.EncAppendAllFits | drivers/ppp_frame.c:164-184 | appending a string that fits gives its stuffed image and the folded FCS |
| PppFrame.StuffedPair | drivers/ppp_frame.c:188-191 | the trailer's two octets are escaped one by one |
| PppFrame.EncEndFits | drivers/ppp_frame.c:186-195 | an end that fits appends the stuffed trailer and the closing flag |
| PppFrame.EncodeFits | drivers/ppp_frame.c:128-195 | when the RFC 1662 frame fits in `max`, the encoder emits exactly it |
| PppFrame.EndOverrunsBufferAsWritten | drivers/ppp_frame.c:193 | as written, protocol 0x81 with payload 0x7e and `max` 4 stores 5 octets |
| PppFrame.ParseFrameCorrects | drivers/ppp_frame.c:240-283 | the corrected parse delivers exactly the frames on which the original sets the protocol, with the same protocol and payload |
| PppFrame.DecAllAppend | drivers/ppp_frame.c:213-315 | decoding `s + t` is decoding `t` after `s` |
| PppFrame.HuntIgnoresNonFlags | drivers/ppp_frame.c:304-306 | while hunting, every non-flag octet is ignored |
| PppFrame.FirstFlagStartsFrame | drivers/ppp_frame.c:218-231 | the first flag after begin starts an empty frame in NORMAL with INITFCS and no error counted |
| PppFrame.DecEscapedOctet | drivers/ppp_frame.c:289-314 | decoding one escaped octet stores the original octet and folds it into the FCS |
| PppFrame.DecStuffed | drivers/ppp_frame.c:289-314 | decoding a stuffed string that fits stores exactly the original octets and their FCS |
| PppFrame.ParseProtocolField | drivers/ppp_frame.c:255-283 | the parser reads back the protocol field the encoder writes, for odd protocols without FLAG or ESCAPE octets |
| PppFrame.RoundTrip | drivers/ppp_frame.c:128-286 | a decoder just begun, fed the encoder's frame, hands the same protocol and payload to the hook once and is ready for the next frame |
| PppFrame.StuffedPlain | drivers/ppp_frame.c:150-159 | one or two octets, neither FLAG nor ESCAPE, are their own stuffed image |
| PppFrame.PlainHeadStuffed | drivers/ppp_frame.c:150-184 | writing the protocol field unescaped is the same as stuffing it along with the payload |
| PppFrame.FrameShape | drivers/ppp_frame.c:128-195 | the frame is FLAG, the stuffed protocol, payload and trailer, then FLAG |
| PppFrame.DecodeFlagAndBody | drivers/ppp_frame.c:213-315 | an opening flag and a stuffed body that fits leave the body buffered with its FCS |
| PppFrame.EmptyFrameAsWritten | drivers/ppp_frame.c:255-283 | the frame with only its FCS passes the check; as written the hook is called with no protocol set; the corrected parse discards it as too short |
| PppFrame.PppContext.constructor | drivers/ppp_frame.h:33-48 | the context holds the caller's buffer and capacity |
| PppFrame.PppContext.OutputBegin | drivers/ppp_frame.c:128-162 | statistics cleared, OUTPUT mode, and the output is FLAG plus the protocol field with its FCS (`EncBegin`) |
| PppFrame.PppContext.PutHead | drivers/ppp_frame.c:136-159 | the buffer starts with FLAG and the protocol field |
| PppFrame.PppContext.OutputAppend | drivers/ppp_frame.c:164-184 | the output is `EncAppend` of the old output |
| PppFrame.PppContext.OutputEnd | drivers/ppp_frame.c:186-195 | the buffer holds the corrected `EncEnd` of the output |
| PppFrame.PppContext.InputBegin | drivers/ppp_frame.c:197-204 | statistics cleared, HUNT mode, empty buffer |
| PppFrame.PppContext.CloseFrame | drivers/ppp_frame.c:218-287 | the decoder state becomes `DecStep` on FLAG |
| PppFrame.PppContext.ParseBuffer | drivers/ppp_frame.c:240-283 | the buffered frame is parsed by `ParseFrame` |
| PppFrame.PppContext.InputReset | drivers/ppp_frame.c:206-211 | an empty frame in NORMAL mode with INITFCS |
| PppFrame.PppContext.InputAppend | drivers/ppp_frame.c:213-315 | the decoder state becomes `DecStep` of the octet |
| PppFrame.PppContext.Store | drivers/ppp_frame.c:309-314 | an octet is stored and folded only while fewer than `max` are held |
| PppFrame.HdlcSend | drivers/stm32_hdlc_bridge.c:106-125 | the transmitted octets are `Encode` of protocol and payload, so (by EncodeWithinCapacity and EncodeFits) they fit the buffer and are the RFC 1662 frame whenever that fits |
| Telnetd.EscapeByte | telnetd.c:86-97 | one or two bytes per input byte |
| Telnetd.EscapeAppend | telnetd.c:78-101 | escaping distributes over concatenation, so order is kept |
| Telnetd.EscapeCons | telnetd.c:86-97 | escaping a string is escaping its first byte followed by escaping the rest |
| Telnetd.EscapePrefix | telnetd.c:78-101 | escaping one more byte extends the escaped prefix by that byte's image |
| Telnetd.StepRefusesOptions | telnetd.c:152-234 | WILL/WONT get `IAC DONT x`, DO/DONT get `IAC WONT x`, the option byte is never stored, at most one byte is stored, and only the byte after CR ends a line, as LF |
| Telnetd.ScanLine | telnetd.c:134-236 | reading a line never consumes more input than there is |
| Telnetd.ScanLineShift | telnetd.c:134-236 | line reading only appends to the replies already sent |
| Telnetd.ScanLineBounded | telnetd.c:157-231 | with the corrected cap, the line never grows past `max - 1` |
| Telnetd.ScanStep | telnetd.c:148-236 | reading the line from the next byte on equals taking that byte through `Step`, storing its output under the cap, and reading on (or stopping at an end of line) |
| Telnetd.ScanPlain | telnetd.c:228-231 | a plain byte in NORMAL is stored |
| Telnetd.ScanIacIac | telnetd.c:153-160 | IAC IAC stores one 255 |
| Telnetd.ScanCrAny | telnetd.c:212-227 | CR and any byte end the line with one LF |
| Telnetd.ReadLineOverrunsAsWritten | telnetd.c:131 | as written, `max` 2 and input `abc` CR LF give a four-byte line |
| Telnetd.WriteThenReadLine | telnetd.c:74-242 | a line without CR or LF, written with a final LF, reads back as that line and LF, with no reply and the rest unread |
| Telnetd.RxCodeNonPositive | telnetd.c:144-145 | the code a failed `recv` returns is never positive |
| Telnetd.NegativeInLenAsWritten | telnetd.c:136-150 | as written, with `inLen` negative a pass makes no `recv`, takes the old byte at `inPtr` and leaves `inLen` negative, so it never returns to 0 |
| Telnetd.FailedRecvBlocksRefillAsWritten | telnetd.c:136-150 | as written, a timed-out `recv` returns -1 and leaves `inLen` at -1; the next read makes no `recv` although data is waiting and returns the stale first byte of the buffer, with `inLen` at -2 |
| Telnetd.StoredInLen | telnetd.c:142-145 | corrected: the stored length is never negative, 0 exactly after a failed `recv`, else the count |
| Telnetd.TelnetOut.constructor | telnetd.c:61 | an empty output buffer, nothing sent |
| Telnetd.TelnetOut.Flush | telnetd.c:104-111 | a non-empty buffer is sent once; the buffer is left empty and the output stream unchanged |
| Telnetd.TelnetOut.Put | telnetd.c:88-97 | one byte is appended to the output |
| Telnetd.TelnetOut.SendOpt | telnetd.c:113-124 | the output stream grows by `IAC option value` |
| Telnetd.TelnetOut.PutEscaped | telnetd.c:86-97 | the output grows by the byte's escaped image |
| Telnetd.TelnetOut.Write | telnetd.c:74-102 | the output stream grows by the escaped data (the C string up to its NUL), in order |
| Telnetd.TelnetIn.constructor | telnetd.c:62-70 | a 500 ms receive timeout and the first `recv` |
| Telnetd.TelnetIn.Receive | telnetd.c:142 | the next `recv` result: its bytes at the start of the buffer, or its code |
| Telnetd.TelnetIn.Refill | telnetd.c:136-146 | the timeout is set, `recv` fills the buffer, and a failed `recv` leaves it empty with its code returned |
| Telnetd.TelnetIn.Fill | telnetd.c:136-146 | an empty buffer is refilled; a positive result means a byte is buffered |
| Telnetd.TelnetIn.Next | telnetd.c:148-150 | the next received byte is taken from the stream |
| Telnetd.NetTelnet.constructor | telnetd.c:57-72 | NORMAL, empty buffers, a 500 ms timeout and the first `recv` |
| Telnetd.NetTelnet.Dispatch | telnetd.c:152-234 | the state moves and replies are sent as `Step` says; the byte to store is returned |
| Telnetd.NetTelnet.Take | telnetd.c:148-234 | one byte is consumed from the receive buffer and dispatched as `Step` says on the old state and that byte |
| Telnetd.NetTelnet.StoreByte | telnetd.c:157-231 | the byte to store is appended while the line holds fewer than `max - 1` bytes (the corrected cap); a full line is left as it was |
| Telnetd.NetTelnet.Advance | telnetd.c:148-236 | one loop pass keeps the line and replies on course with `ScanLine` |
| Telnetd.NetTelnet.Pump | telnetd.c:134-236 | one loop pass, with refill, keeps the line on course or ends with the `recv` code |
| Telnetd.NetTelnet.Assemble | telnetd.c:134-236 | the stored line, state and replies are those of `ScanLine`, within `max - 1` bytes |
| Telnetd.NetTelnet.ReadLine | telnetd.c:126-242 | a line ends NUL-terminated with its length returned, replies flushed and the rest of the input unread; a failed `recv` returns its code |
| Dhcpc.XidBytes | net/ip/dhcpc.c:149 | four bytes, as `memcpy` copies them |
| Dhcpc.Header | net/ip/dhcpc.c:145-153 | op, htype, hlen, hops, xid, secs, flags and ciaddr take 16 bytes |
| Dhcpc.Chaddr | net/ip/dhcpc.c:157-158 | the MAC padded with zeros fills the 16-byte `chaddr` |
| Dhcpc.MsgPrefix | net/ip/dhcpc.c:143-165 | the fixed part is 240 bytes |
| Dhcpc.MsgPrefixLayout | net/ip/dhcpc.c:143-165 | op 1, htype 1, hlen, hops 0, xid, secs 0, flags 0x8000 in network order, ciaddr, zero yiaddr/siaddr/giaddr, zero-padded chaddr, zero sname/file and the cookie 99,130,83,99, each at its RFC 2131 offset |
| Dhcpc.PrefixPieces | net/ip/dhcpc.c:143-165 | the fixed part is header, zero addresses, `chaddr`, zero `sname`/`file` and the cookie, in that order |
| Dhcpc.HeaderLayout | net/ip/dhcpc.c:145-153 | the first 16 bytes field by field |
| Dhcpc.EncodeTlv | net/ip/dhcpc.c:97-133 | an option is written as code, length and value |
| Dhcpc.OptMsgType | net/ip/dhcpc.c:97-104 | option 53, length 1, the type: three bytes |
| Dhcpc.OptServerId | net/ip/dhcpc.c:106-113 | option 54, length 4, the server id: six bytes |
| Dhcpc.OptReqIpaddr | net/ip/dhcpc.c:115-122 | option 50, length 4, the address: six bytes |
| Dhcpc.OptReqList | net/ip/dhcpc.c:124-133 | option 55, length 3, asking for 1, 3 and 6: five bytes |
| Dhcpc.Quad | net/ip/dhcpc.c:207-226 | an address option's value is the four bytes after code and length |
| Dhcpc.NextOption | net/ip/dhcpc.c:231 | the walk always advances by at least two bytes |
| Dhcpc.WalkOptions | net/ip/dhcpc.c:201-234 | the walk never spoils a well-formed lease |
| Dhcpc.FirstType | net/ip/dhcpc.c:263-270 | the result is -1 or a byte |
| Dhcpc.ReplyType | net/ip/dhcpc.c:253-273 | a message not for this client gives -1 |
| Dhcpc.Learned | net/ip/dhcpc.c:236-248 | a message not for this client teaches nothing and gives 0; a well-formed lease stays well formed |
| Dhcpc.StaleOptionAsWritten | net/ip/dhcpc.c:245 | a 243-byte DHCPACK holding only its type option, over a buffer with a lease-time option just past it (left by a longer datagram for another client, skipped earlier in the same wait), is accepted by `msg_for_me` and returned by `readResponse`; bounded by the message the lease time is unchanged, as written it is the stale one |
| Dhcpc.PadTakenAsOption | net/ip/dhcpc.c:263-269 | a pad opening the options is walked as code plus length and jumps to byte 295, so a type option after it is never seen |
| Dhcpc.ReadTlv | net/ip/dhcpc.c:207-231 | the walk reads one option back exactly as it was written |
| Dhcpc.ReadTlvHead | net/ip/dhcpc.c:207-231 | at a written option the walk reads its code, its first value octet and the position past it |
| Dhcpc.LearnSameValue | net/ip/dhcpc.c:209-226 | what an option teaches depends only on its first value byte for the message type and on its whole value for an address |
| Dhcpc.WalkInvertsEncode | net/ip/dhcpc.c:201-270 | options followed by END teach what they say, and `msg_for_me`'s loop finds their first message type |
| Dhcpc.WalkLearns | net/ip/dhcpc.c:201-234 | walking an encoded option list learns what the options say |
| Dhcpc.WalkFindsType | net/ip/dhcpc.c:263-270 | `msg_for_me`'s loop finds the list's first message type |
| Dhcpc.DiscoverTlvs | net/ip/dhcpc.c:178-180 | the discover's options are well formed and contain no END or pad |
| Dhcpc.RequestTlvs | net/ip/dhcpc.c:193-196 | the request's options are well formed and contain no END or pad |
| Dhcpc.DiscoverRoundTrip | net/ip/dhcpc.c:170-183 | the discover is 249 bytes: the fixed part, type DHCPDISCOVER, the request list and END; read back, its type is DHCPDISCOVER and it teaches nothing |
| Dhcpc.LearnDiscover | net/ip/dhcpc.c:178-180 | the discover's options teach only their type |
| Dhcpc.RequestRoundTrip | net/ip/dhcpc.c:185-199 | the request is 256 bytes: type DHCPREQUEST, server id, requested address and END; read back, it teaches only the server id |
| Dhcpc.LearnRequest | net/ip/dhcpc.c:193-196 | the request's options teach the server id and the type |
| Dhcpc.ReplyRoundTrip | net/ip/dhcpc.c:236-272 | a reply for this client with END inside the received length is read in full: `yiaddr` and its options, and its first message type |
| Dhcpc.Receive | net/ip/dhcpc.c:286 | a datagram cut to the buffer overwrites the buffer's front; the rest keeps the old bytes |
| Dhcpc.Await | net/ip/dhcpc.c:275-300 | the result is -1 or a length; a positive result is for this client and of the wanted type; -1 learns nothing |
| Dhcpc.AwaitSkipsOthers | net/ip/dhcpc.c:286-297 | a reply to another transaction or client is passed over |
| Dhcpc.DiscoverWaitSchedule | net/ip/dhcpc.c:311-325 | discover waits run 1, 2, 4, …, 64 seconds and stay at 64 |
| Dhcpc.RequestSchedule | net/ip/dhcpc.c:329-350 | request waits run w, w+1, …, 10 seconds, then discovery restarts |
| Dhcpc.LeaseSecondsBigEndian | net/ip/dhcpc.c:365 | the lease is option 51 read as a big-endian 32-bit number |
| Dhcpc.MaxSecs | net/ip/dhcpc.c:368 | `MAX_SECS` is at least 1 and its ticks stay below `INFINITE` |
| Dhcpc.SleepHalfLease | net/ip/dhcpc.c:365-384 | the sleeps add up to half the lease in ticks, each one positive and below `INFINITE` |
| Dhcpc.RenewWithinLease | net/ip/dhcpc.c:386-407 | renewal waits never add up past the lease and stop with at most 3 seconds left |
| Dhcpc.DhcpClient.constructor | net/ip/dhcpc.c:417-435 | the MAC is recorded, `xid` is 0 and nothing has been sent |
| Dhcpc.DhcpClient.NextXid | net/ip/dhcpc.c:309 | `xid` grows by one modulo 2^32 |
| Dhcpc.DhcpClient.Put | net/ip/dhcpc.c:149-164 | the bytes land at the offset and nothing else changes |
| Dhcpc.DhcpClient.CreateMsg | net/ip/dhcpc.c:143-165 | the buffer's first 240 bytes are `MsgPrefix`; the options area is untouched |
| Dhcpc.DhcpClient.AddMsgType | net/ip/dhcpc.c:97-104 | the option is written at `p` and the position returned is `p + 3` |
| Dhcpc.DhcpClient.AddServerId | net/ip/dhcpc.c:106-113 | the learnt server id is written at `p`, returning `p + 6` |
| Dhcpc.DhcpClient.AddReqIpaddr | net/ip/dhcpc.c:115-122 | the offered address is written at `p`, returning `p + 6` |
| Dhcpc.DhcpClient.AddReqOptions | net/ip/dhcpc.c:124-133 | the request list is written at `p`, returning `p + 5` |
| Dhcpc.DhcpClient.AddEnd | net/ip/dhcpc.c:135-140 | END is written at `p`, returning `p + 1` |
| Dhcpc.DhcpClient.SendDiscover | net/ip/dhcpc.c:170-183 | exactly `DiscoverMsg` is sent |
| Dhcpc.DhcpClient.SendRequest | net/ip/dhcpc.c:185-199 | exactly `RequestMsg` with the learnt server id and address is sent |
| Dhcpc.DhcpClient.Byte | net/ip/dhcpc.c:208 | the byte read is the buffer's, 0 past its end |
| Dhcpc.DhcpClient.ParseOptions | net/ip/dhcpc.c:201-234 | the loop computes `WalkOptions` of the buffer |
| Dhcpc.DhcpClient.Apply | net/ip/dhcpc.c:208-229 | one `switch` step computes `ApplyOption` |
| Dhcpc.DhcpClient.ParseMsg | net/ip/dhcpc.c:236-248 | the lease and type are `Learned` of the buffer |
| Dhcpc.DhcpClient.MsgForMe | net/ip/dhcpc.c:253-273 | the loop computes `ReplyType` of the buffer |
| Dhcpc.DhcpClient.Read | net/ip/dhcpc.c:286 | the next datagram is received into the buffer |
| Dhcpc.DhcpClient.ReadResponse | net/ip/dhcpc.c:275-300 | the loop computes `Await` over the arrivals |
| Etimer.Wrap | sys/etimer.c:76-82 | `clock_time_t` values are below 2^32 |
| Etimer.AddedNoDup | sys/etimer.c:143-164 | adding keeps every timer once, adds exactly `id`, and puts a new timer in front |
| Etimer.Without | sys/etimer.c:236-258 | unlinking never lengthens the list |
| Etimer.WithoutAt | sys/etimer.c:113-127 | unlinking the timer at `k` drops exactly that position |
| Etimer.WithoutAbsent | sys/etimer.c:248-257 | stopping a timer that is not listed leaves the list as it is |
| Etimer.WithoutNoDup | sys/etimer.c:236-264 | unlinking keeps every other timer once, in order, and drops `id` |
| Etimer.Kept | sys/etimer.c:109-137 | the kept list is no longer than the list |
| Etimer.Due | sys/etimer.c:109-137 | the removed list is no longer than the list |
| Etimer.KeptMembers | sys/etimer.c:109-137 | the timers kept are exactly the listed ones not expired |
| Etimer.DueMembers | sys/etimer.c:109-137 | the timers removed are exactly the listed ones expired |
| Etimer.PollPartition | sys/etimer.c:109-137 | kept and removed timers together are the list, nothing lost or doubled |
| Etimer.NoneExpired | sys/etimer.c:113-139 | with nothing expired, the poll keeps the whole list |
| Etimer.PollRemove | sys/etimer.c:113-132 | removing the first expired timer changes neither what is kept nor what is due after it |
| Etimer.RemoveAfterKept | sys/etimer.c:113-132 | after only unexpired timers, removing an expired one keeps the kept list and takes it off the front of the due list |
| Etimer.CallsOfAppend | sys/etimer.c:120-127 | the callbacks of two runs of expired timers are those of the first then those of the second |
| Etimer.SweepStep | sys/etimer.c:113-132 | one removal extends the calls by the timer's callback and the inactive set by the timer |
| Etimer.MinDistIsMin | sys/etimer.c:76-81 | the minimum is the distance of some listed timer, no listed timer is nearer, and it is below 2^32 |
| Etimer.NextIsEarliest | sys/etimer.c:76-82 | the next expiry is the earliest deadline, counted modulo 2^32 from `now` |
| Etimer.WrapBack | sys/etimer.c:76-82 | a deadline stored modulo 2^32 gives back its distance from `now` |
| Etimer.LinkedWithout | sys/etimer.c:236-264 | unlinking a timer and clearing its flag keeps the list well linked |
| Etimer.LinkedAdded | sys/etimer.c:158-161 | linking a known timer and setting its flag keeps the list well linked |
| Etimer.EtimerList.constructor | sys/etimer.c:88-97 | an empty list, a stopped host timer, not polling |
| Etimer.EtimerList.UpdateTime | sys/etimer.c:59-86 | the next expiry and host timer are `Refreshed`: unchanged while polling, 0 and stopped for an empty list, else the earliest deadline |
| Etimer.EtimerList.Find | sys/etimer.c:148-156 | found exactly when the timer is listed |
| Etimer.EtimerList.AddTimer | sys/etimer.c:143-164 | the list is `Added` and the timer active; the expiry is recomputed |
| Etimer.EtimerList.Set | sys/etimer.c:166-173 | the timer starts now with the default callback and itself as argument, then is added |
| Etimer.EtimerList.SetCallback | sys/etimer.c:175-183 | the same with the caller's function and argument |
| Etimer.EtimerList.Adjust | sys/etimer.c:199-204 | the start moves by `timediff` modulo 2^32 and the expiry is recomputed |
| Etimer.EtimerList.Stop | sys/etimer.c:236-264 | the timer is unlinked if listed, with the expiry recomputed only then, and is always inactive |
| Etimer.EtimerList.Predecessor | sys/etimer.c:246-250 | the scan stops at the timer before the stopped one, or at the end of the list when the timer is not listed |
| Etimer.EtimerList.RequestPoll | sys/etimer.c:99-141 | nothing unless the host timer fired; then expired timers are unlinked, made inactive and called once each in list order, the rest stay in order, and the expiry is recomputed |
| Etimer.EtimerList.Sweep | sys/etimer.c:109-137 | the `goto again` loop leaves `Kept`, deactivates `Due` and calls their callbacks in order |
| Etimer.EtimerList.Unlink | sys/etimer.c:113-132 | the first expired timer is unlinked, made inactive and called |
| Etimer.EtimerList.IsExpired | sys/etimer.c:206-210 | expired exactly when not active |
| Etimer.EtimerList.ExpirationTime | sys/etimer.c:212-216 | start plus interval modulo 2^32 |
| Etimer.EtimerList.Pending | sys/etimer.c:224-228 | pending exactly when the list is non-empty |
| Etimer.EtimerList.NextExpirationTime | sys/etimer.c:230-234 | 0 when nothing is pending, else the stored next expiry |
| Ethernet.Wrap16 | ethernet.c:245 | `uip_len` stays below 2^16 |
| Ethernet.TypeBytes | ethernet.c:272 | an ethertype in network order is two bytes |
| Ethernet.TypeOf | ethernet.c:224-243 | the ethertype read back from a header is a 16-bit value |
| Ethernet.HeaderFields | ethernet.c:269-272 | the 14-byte header reads back as its destination, source and ethertype |
| Ethernet.MulticastMacIsGroup | ethernet.c:260-267 | the mapped address is a six-byte group address, equal for two groups exactly when their last four bytes agree |
| Ethernet.Classify | ethernet.c:220-250 | IPv6 builds hand exactly the IPv6 ethertype to the stack; IPv4 builds send exactly ARP to ARP and exactly IP to the stack |
| Ethernet.OutputIsAccepted | ethernet.c:220-276 | a frame built by IPv6 output is one IPv6 input hands to the stack |
| Ethernet.DestOf | ethernet.c:260-270 | six bytes; with no link address, 33:33 and the last four bytes of the IPv6 destination |
| Ethernet.EthernetIf.constructor | ethernet.c:217-218 | an empty buffer of the uIP size and nothing logged |
| Ethernet.EthernetIf.Place | ethernet.c:235-240 | the reply ARP builds lands at the front of `uip_buf` and the rest of the buffer is unchanged |
| Ethernet.EthernetIf.Input | ethernet.c:220-250 | IPv6 frames go to the stack; ARP goes to ARP, with a reply sent once when there is one; IP loses the header length and goes to the stack; other frames are ignored |
| Ethernet.EthernetIf.Output6 | ethernet.c:253-276 | the header is written in front of the packet, `uip_len` grows by 14 and the frame is sent once |
| Ethernet.EthernetIf.Output4 | ethernet.c:278-282 | ARP output, then one transmission |

## Left out

- Locks, event flags, the giant semaphore and timed waits of `sock.c`: each blocking operation is split at its wait, and the wait's outcome (served, peer gone, timed out) is an input of the `End` method.
- `netInit`, `netMainThread`, `etimer_callback` and the polling hooks: these form the driver loop.
- uIP calls (`uip_connect`, `uip_send`, `uip_listen`, `uip_abort`, `uip_mss`, `uip_udp_*`, `tcpip_input`, `uip_arp_*`) and the driver send: these are foreign code. Their results are parameters, and the requests are logged as actions.
- Sock.SocketTable.WriteEnd: reports ABORT for an abort during the wait; the code returns 65535 there (`SockSpec.WriteExitAsWritten`, see "## Findings"). BsdSock.NetSendEnd, built on it, then reports -1 where the code reports `size`.
- BsdSock.NetSendEnd: reports -1 for an abort during the write's wait, the correction described under Sock.SocketTable.WriteEnd.
- Sock.SocketTable.UdpPollEvent: a UDP close clears the UDP connection's link, not that of `uip_conn` as the code does (`Sock.UdpCloseOrphansTcpAsWritten`, see "## Findings").
- PppFrame.PppContext.OutputEnd: writes the closing flag only when it fits within `max`; the code stores it unchecked (`PppFrame.EndOverrunsBufferAsWritten`).
- PppFrame.PppContext.CloseFrame: a frame with nothing left after the FCS counts as too short and is not delivered; the code hands it on with `protocol` unset (`PppFrame.EmptyFrameAsWritten`). PppFrame.PppContext.ParseBuffer reports that case the same way.
- Telnetd.TelnetIn.constructor: stores `StoredInLen(n)`, 0 for a failed first `recv`, where the code stores the raw result `n` (`Telnetd.FailedRecvBlocksRefillAsWritten`).
- Telnetd.TelnetIn.Refill: stores `StoredInLen(n)` where the code stores the raw result `n`, so a failed `recv` leaves the buffer empty and the next read refills it. The as-written pass is `Telnetd.TakeAsWritten`; its reads outside `inBuf` after many stale reads are undefined in C and not modelled.
- Dhcpc.DhcpClient.ParseMsg: walks the options only up to the end of the received message, as `Dhcpc.Learned` does; the code's bound is the finding on net/ip/dhcpc.c:245.
- Sock.SocketTable.Listen: a record whose `newConnection` word would not read NULL is excluded: a listener holding an accepted connection, or a connected record with a non-zero `len` or `max`. That pointer would be stale, and the model has no value for it. BsdSock.NetListen is excluded the same way.
- PppFrame.PppContext.OutputBegin: requires `max >= 3`, room for the flag and up to two protocol octets, which the code stores unchecked. Its one caller, the HDLC bridge, passes `packetOut`, twice the size of uIP's packet buffer.
- Telnetd.TelnetOut.Write: takes `data` as the bytes of a C string before its NUL (`0 !in data`), the part `strlen` counts.
- Sock.SocketTable.ReadBegin: requires `max > 0` for a line read, which the original does not check (see "## Findings").
- Sock.SocketTable.ConnectBegin: a BOUND TCP record takes the UDP path, as the code does; the engine's connect result is a parameter.
- 16-bit truncations: lengths passed to `netSockRead`/`netSockWrite` are cut to 16 bits in the BSD shim. The 500 ms reader wait is a boolean input.
- The overwrite of the listening port by the timeout in the union is kept (`WithTimeout`), not corrected.
- A completed read of 0 bytes is reported as 0, the same as EOF, exactly as the code does.
- BsdSock.NetConnectBegin: states the record's new state and result but not the engine bookkeeping, which `Sock.SocketTable.ConnectBegin` states. The end of the connect's wait is `Sock.SocketTable.ConnectEnd`.
- `inet_aton`/`inet_pton`: foreign address parsing.
- PPP statistics: kept as counters. `ppp_defs.h` is not part of this model, so its constants are the RFC 1662 values. The `NO_COMPRESS` branch is not compiled.
- Drivers other than the PPP framing: register I/O. The HDLC bridge's send path is kept only as the usage of the encoder.
- Telnetd.NetTelnet.ReadLine: requires `max >= 1`, room for the terminating NUL that the code always writes. It stores at most `max - 1` bytes (see "## Findings"). Reads past the input buffer are not modelled.
- Telnet `recv` results are a script. A script that runs out stands for a timeout. `STATE_CLOSE` is declared but never entered, so it is not modelled. The receive timeout is kept as a `(sec, usec)` pair.
- Dhcpc.Await: the wait is a list of arrivals with the time left before each. `jiffies`, `HZ` and `posTaskSleep` are parameters or left out. The `int` overflow of `timeoutSecs * HZ` is not modelled.
- `dhcpTask`'s goto machine: modelled by its schedules (discover waits, request waits, sleeps, renew waits) as functions and lemmas, not as a task.
- `dhcpc_request`, `dhcpc_configured`/`dhcpc_unconfigured` and `uosFileWrite`: task creation and callbacks. A sent message is logged.
- Dhcpc.XidBytes: the byte order of `memcpy` from a `uint32_t` is taken as little-endian.
- Dhcpc.Learned: bounds the option walk by the received message; the original's bound is the finding below. Bytes past the 548-byte buffer read as 0.
- Pad option: walked as code plus length, as the code does (`PadTakenAsOption`). This deviates from section 3.1 of RFC 2132 but is kept as the code's behaviour.
- `sys/timer.c` is not part of this model. `timer_set` starts a timer at `now`, and `timer_expired` is the usual Contiki test, `interval < now - start + 1` modulo 2^32.
- Etimer.EtimerList.RequestPoll: requires that no poll is running. Callbacks are logged, not run, so a callback that re-enters the module is not modelled.
- `next` links of the timer list: abstracted to a sequence of timer identities. `clock_time()` is the `now` parameter and stays fixed during one poll. The host timer is a value.
- `etimer_reset` and `etimer_restart`: not modelled, since they re-add a timer exactly as `add_timer` does after the `sys/timer.c` calls.
- `netInterface*` shims and `tcpip-glue.c`: packet plumbing.
- Ethertype constants: the IEEE values, because `uip_arp.h` is not part of this model.
- `uip_len` below 14 on IP input: wraps modulo 2^16, as the code's unsigned arithmetic does.

## Findings

| source | as written | input that shows it | evidently intended | confidence | as-written member | corrected member |
|---|---|---|---|---|---|---|
| drivers/ppp_frame.c:193 | `pppOutputEnd` stores the closing flag without checking `max` | protocol 0x81, payload 0x7e, `max` 4: five octets stored | the frame never exceeds `max` octets | not executed | PppFrame.EndOverrunsBufferAsWritten | PppFrame.EncodeWithinCapacity |
| drivers/ppp_frame.c:255-283 | `protocol` is read uninitialised when nothing is left after the FCS | a frame of only the two FCS octets of the empty string, between flags | such a frame is discarded as too short | not executed | PppFrame.EmptyFrameAsWritten | PppFrame.ParseFrameCorrects |
| sock.c:639-663 | a line read with `max` 0 never consumes data, and the delivery loop repeats forever | `netSockReadLine(sock, buf, 0, t)` with a segment arriving | a line read has room for at least one byte | not executed | SockSpec.LineReadStallsAsWritten | SockSpec.LineCopyProgress |
| telnetd.c:131 | `max` is decremented but never checked, so the line can overrun `data` | `max` 2, input `abc` CR LF: four bytes and a NUL stored | at most `max - 1` bytes and the NUL | not executed | Telnetd.ReadLineOverrunsAsWritten | Telnetd.ScanLineBounded |
| telnetd.c:142 | a failed `recv` leaves `inLen` negative (also at line 70), so the refill test `inLen == 0` never passes again and stale bytes are read | `recv` returns -1 (timeout), then data arrives | a failed `recv` leaves the buffer empty | not executed | Telnetd.FailedRecvBlocksRefillAsWritten | Telnetd.StoredInLen |
| net/ip/dhcpc.c:245 | the options bound is the whole message length counted from the options, past the received bytes | during one wait, first a datagram of at least 250 bytes for another client (skipped) whose option 51 lies at byte 243, then a 243-byte DHCPACK for this client with only option 53 and no END: the skipped datagram's lease time is taken | options are read only within the received message | not executed | Dhcpc.StaleOptionAsWritten | Dhcpc.ReplyRoundTrip |
| sock.c:404 | an abort during the write's wait is stored in the `uint16_t len` and returned as 65535, which `net_send` takes as a complete write | peer aborts while `net_send(s, data, 100, 0)` waits: it returns 100 | the write reports ABORT and `net_send` -1 | not executed | BsdSock.SendAbortSucceedsAsWritten | BsdSock.SendOutcome |
| sock.c:756 | closing a UDP socket at poll time clears the link of `uip_conn`, a TCP connection, instead of the UDP connection's | a UDP socket closed while `uip_conn` is a TCP connection serving another socket: that connection loses its socket | the closed UDP connection's link is cleared | not executed | Sock.UdpCloseOrphansTcpAsWritten | Sock.SocketTable.UdpPollEvent |
