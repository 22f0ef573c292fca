// The telnet line discipline: output escaping, option refusal and line
// assembly over a socket whose `recv` results are given as a script.

module Telnetd {
  import opened Common

  const IAC: byte := 255
  const WILL: byte := 251
  const WONT: byte := 252
  const DO: byte := 253
  const DONT: byte := 254
  const CR: byte := 0x0d
  const LF: byte := 0x0a

  /** `sizeof(inBuf)` and `sizeof(outBuf)`. */
  const BUF_SIZE: nat := 80

  /** The receive states (`STATE_CLOSE` is declared but never entered). */
  datatype TState = Normal | Iac | Will | Wont | Do | Dont | Cr

  // ---------------------------------------------------------------- output

  /** How `telnetWrite` sends one byte: LF as CR LF, IAC doubled. */
  function EscapeByte(c: byte): (r: seq<byte>)
    ensures 1 <= |r| <= 2
  {
    if c == LF then [CR, LF] else if c == IAC then [IAC, IAC] else [c]
  }

  /** The bytes `telnetWrite` sends for a string, in order. */
  function Escape(data: seq<byte>): seq<byte> {
    if data == [] then [] else EscapeByte(data[0]) + Escape(data[1..])
  }

  lemma {:induction false} EscapeAppend(a: seq<byte>, b: seq<byte>)
    ensures Escape(a + b) == Escape(a) + Escape(b)
    decreases |a|
  {
    if a == [] {
      assert a + b == b;
    } else {
      assert (a + b)[1..] == a[1..] + b;
      EscapeAppend(a[1..], b);
    }
  }

  lemma EscapeCons(c: byte, t: seq<byte>)
    ensures Escape([c] + t) == EscapeByte(c) + Escape(t)
  {
    assert ([c] + t)[0] == c && ([c] + t)[1..] == t;
  }

  /** Escaping one more byte of a string extends the escaped prefix. */
  lemma EscapePrefix(data: seq<byte>, i: nat)
    requires i < |data|
    ensures Escape(data[..i + 1]) == Escape(data[..i]) + EscapeByte(data[i])
  {
    assert data[..i + 1] == data[..i] + [data[i]];
    EscapeAppend(data[..i], [data[i]]);
    assert Escape([data[i]]) == EscapeByte(data[i]) by {
      assert [data[i]][1..] == [];
    }
  }

  /** `ScanLine` only appends to the replies it is given. */
  lemma {:induction false} ScanLineShift(st: TState, line: seq<byte>, pre: seq<byte>, replies: seq<byte>, cap: int, input: seq<byte>)
    ensures var r := ScanLine(st, line, replies, cap, input);
            ScanLine(st, line, pre + replies, cap, input) == r.(replies := pre + r.replies)
    decreases |input|
  {
    if input != [] {
      var o := Step(st, input[0]);
      var line' := if |line| < cap then line + o.emit else line;
      AppendAssoc(pre, replies, o.reply);
      if !o.gotLine {
        ScanLineShift(o.next, line', pre, replies + o.reply, cap, input[1..]);
      }
    }
  }

  /** The concatenation of the chunks handed to `send`. */
  function Flatten(chunks: seq<seq<byte>>): seq<byte> {
    if chunks == [] then [] else Flatten(chunks[..|chunks| - 1]) + chunks[|chunks| - 1]
  }

  // ---------------------------------------------------------------- input

  /** One received byte: the next state, the byte stored in the line, the reply sent. */
  datatype StepOut = StepOut(next: TState, emit: seq<byte>, reply: seq<byte>, gotLine: bool)

  /** The `switch` of `telnetReadLine` for one byte `c`. */
  function Step(st: TState, c: byte): StepOut {
    match st
    case Iac =>
      if c == IAC then StepOut(Normal, [IAC], [], false)
      else StepOut(if c == WILL then Will else if c == WONT then Wont
                   else if c == DO then Do else if c == DONT then Dont else Normal, [], [], false)
    case Will => StepOut(Normal, [], [IAC, DONT, c], false)
    case Wont => StepOut(Normal, [], [IAC, DONT, c], false)
    case Do => StepOut(Normal, [], [IAC, WONT, c], false)
    case Dont => StepOut(Normal, [], [IAC, WONT, c], false)
    case Cr => StepOut(Normal, [LF], [], true)
    case Normal =>
      if c == IAC then StepOut(Iac, [], [], false)
      else if c == CR then StepOut(Cr, [], [], false)
      else StepOut(Normal, [c], [], false)
  }

  /**
   * Every option is refused: WILL and WONT are answered IAC DONT, DO and DONT
   * IAC WONT, with the option byte, which is never stored. Nothing else is
   * answered; at most one byte is stored; only the byte after CR ends a line,
   * and it is stored as LF.
   */
  lemma StepRefusesOptions(st: TState, c: byte)
    ensures var o := Step(st, c);
            && ((st == Will || st == Wont) ==> o.reply == [IAC, DONT, c] && o.emit == [])
            && ((st == Do || st == Dont) ==> o.reply == [IAC, WONT, c] && o.emit == [])
            && (st != Will && st != Wont && st != Do && st != Dont ==> o.reply == [])
            && |o.emit| <= 1
            && (o.gotLine <==> st == Cr)
            && (o.gotLine ==> o.emit == [LF])
            && (st == Normal ==> CR !in o.emit)
  {
  }

  /** Where reading a line stops: state, line, replies, unread input, and whether a line ended. */
  datatype Scan = Scan(state: TState, line: seq<byte>, replies: seq<byte>, rest: seq<byte>, gotLine: bool)

  /**
   * `telnetReadLine` over an input stream, storing a byte only while the line
   * holds fewer than `cap` bytes; it stops after the byte that ends a line.
   */
  function ScanLine(st: TState, line: seq<byte>, replies: seq<byte>, cap: int, input: seq<byte>): (r: Scan)
    ensures |r.rest| <= |input|
    decreases |input|
  {
    if input == [] then Scan(st, line, replies, [], false)
    else
      var o := Step(st, input[0]);
      var line' := if |line| < cap then line + o.emit else line;
      if o.gotLine then Scan(o.next, line', replies + o.reply, input[1..], true)
      else ScanLine(o.next, line', replies + o.reply, cap, input[1..])
  }

  /** The line never grows past the cap. */
  lemma {:induction false} ScanLineBounded(st: TState, line: seq<byte>, replies: seq<byte>, cap: int, input: seq<byte>)
    requires |line| <= cap
    ensures |ScanLine(st, line, replies, cap, input).line| <= cap
    decreases |input|
  {
    if input != [] {
      var o := Step(st, input[0]);
      StepRefusesOptions(st, input[0]);
      var line' := if |line| < cap then line + o.emit else line;
      if !o.gotLine {
        ScanLineBounded(o.next, line', replies + o.reply, cap, input[1..]);
      }
    }
  }

  /** One step of `ScanLine`, unfolded. */
  lemma ScanStep(st: TState, line: seq<byte>, replies: seq<byte>, cap: int, input: seq<byte>,
                 o: StepOut, line': seq<byte>)
    requires input != [] && o == Step(st, input[0])
    requires line' == if |line| < cap then line + o.emit else line
    ensures o.gotLine ==> ScanLine(st, line, replies, cap, input) == Scan(o.next, line', replies + o.reply, input[1..], true)
    ensures !o.gotLine ==> ScanLine(st, line, replies, cap, input) == ScanLine(o.next, line', replies + o.reply, cap, input[1..])
  {
  }

  /** A plain byte in NORMAL is stored. */
  lemma ScanPlain(line: seq<byte>, replies: seq<byte>, cap: int, c: byte, rest: seq<byte>)
    requires c != IAC && c != CR && |line| < cap
    ensures ScanLine(Normal, line, replies, cap, [c] + rest) == ScanLine(Normal, line + [c], replies, cap, rest)
  {
    assert ([c] + rest)[0] == c && ([c] + rest)[1..] == rest;
    assert replies + [] == replies;
  }

  /** IAC IAC stores one IAC. */
  lemma ScanIacIac(line: seq<byte>, replies: seq<byte>, cap: int, rest: seq<byte>)
    requires |line| < cap
    ensures ScanLine(Normal, line, replies, cap, [IAC, IAC] + rest) == ScanLine(Normal, line + [IAC], replies, cap, rest)
  {
    var input := [IAC, IAC] + rest;
    assert input[0] == IAC && input[1..] == [IAC] + rest;
    assert ([IAC] + rest)[0] == IAC && ([IAC] + rest)[1..] == rest;
    assert line + [] == line && replies + [] + [] == replies;
  }

  /** CR and any byte end the line with LF. */
  lemma ScanCrAny(line: seq<byte>, replies: seq<byte>, cap: int, c: byte, rest: seq<byte>)
    requires |line| < cap
    ensures ScanLine(Normal, line, replies, cap, [CR, c] + rest) == Scan(Normal, line + [LF], replies, rest, true)
  {
    var input := [CR, c] + rest;
    assert input[0] == CR && input[1..] == [c] + rest;
    assert ([c] + rest)[0] == c && ([c] + rest)[1..] == rest;
    assert line + [] == line && replies + [] + [] == replies;
  }

  /**
   * `telnetReadLine` as written stores every byte, whatever `max` is: with
   * `max` 2 (room for one byte and the NUL) the input "abc" CR LF yields a
   * four-byte line.
   */
  function ReadLineAsWritten(input: seq<byte>): Scan {
    ScanLine(Normal, [], [], |input|, input)
  }

  lemma ReadLineOverrunsAsWritten()
    ensures var S := ReadLineAsWritten([0x61, 0x62, 0x63, CR, LF]);
            S.gotLine && S.line == [0x61, 0x62, 0x63, LF] && |S.line| > 2 - 1
  {
    var a, b, c: byte := 0x61, 0x62, 0x63;
    var e: seq<byte> := [];
    var input: seq<byte> := [a, b, c, CR, LF];
    assert ScanLine(Normal, e, e, 5, input) == ScanLine(Normal, [a], e, 5, [b, c, CR, LF]) by {
      ScanPlain(e, e, 5, a, [b, c, CR, LF]);
      assert [a] + [b, c, CR, LF] == input && e + [a] == [a];
    }
    assert ScanLine(Normal, [a], e, 5, [b, c, CR, LF]) == ScanLine(Normal, [a, b], e, 5, [c, CR, LF]) by {
      ScanPlain([a], e, 5, b, [c, CR, LF]);
      assert [b] + [c, CR, LF] == [b, c, CR, LF] && [a] + [b] == [a, b];
    }
    assert ScanLine(Normal, [a, b], e, 5, [c, CR, LF]) == ScanLine(Normal, [a, b, c], e, 5, [CR, LF]) by {
      ScanPlain([a, b], e, 5, c, [CR, LF]);
      assert [c] + [CR, LF] == [c, CR, LF] && [a, b] + [c] == [a, b, c];
    }
    assert ScanLine(Normal, [a, b, c], e, 5, [CR, LF]) == Scan(Normal, [a, b, c, LF], e, e, true) by {
      ScanCrAny([a, b, c], e, 5, LF, []);
      assert [CR, LF] + e == [CR, LF] && [a, b, c] + [LF] == [a, b, c, LF];
    }
  }

  /**
   * Round trip: a line without CR or LF, written with `telnetWrite` and a
   * final LF, reads back as that line and its LF, with no reply sent and
   * whatever followed left unread, when it fits the cap.
   */
  lemma {:induction false} WriteThenReadLine(line: seq<byte>, replies: seq<byte>, cap: int, s: seq<byte>, more: seq<byte>)
    requires CR !in s && LF !in s
    requires |line| + |s| + 1 <= cap
    ensures ScanLine(Normal, line, replies, cap, Escape(s + [LF]) + more)
            == Scan(Normal, line + s + [LF], replies, more, true)
    decreases |s|
  {
    if s == [] {
      assert s + [LF] == [LF];
      assert Escape([LF]) == [CR, LF] by {
        assert [LF][1..] == [];
      }
      ScanCrAny(line, replies, cap, LF, more);
      assert line + s + [LF] == line + [LF];
    } else {
      var c, t := s[0], s[1..];
      assert s + [LF] == [c] + (t + [LF]);
      EscapeCons(c, t + [LF]);
      var tail := Escape(t + [LF]) + more;
      AppendAssoc(EscapeByte(c), Escape(t + [LF]), more);
      WriteThenReadLine(line + [c], replies, cap, t, more);
      assert line + [c] + t == line + s;
      if c == IAC {
        ScanIacIac(line, replies, cap, tail);
      } else {
        ScanPlain(line, replies, cap, c, tail);
      }
    }
  }


  // ---------------------------------------------------------------- recv results

  /** One result of `recv` on the telnet socket: bytes, or a code of 0 or less. */
  datatype Recv = Got(data: seq<byte>) | Failed(code: int)

  predicate RxWellFormed(rx: seq<Recv>) {
    forall i :: 0 <= i < |rx| ==>
      (rx[i].Got? ==> 1 <= |rx[i].data| <= BUF_SIZE) && (rx[i].Failed? ==> rx[i].code <= 0)
  }

  /** The bytes the socket delivers before its first failing `recv`. */
  function RxStream(rx: seq<Recv>): seq<byte> {
    if rx == [] || rx[0].Failed? then [] else rx[0].data + RxStream(rx[1..])
  }

  /** The code of the first failing `recv`; a script that runs out stands for a timeout (-1). */
  function RxCode(rx: seq<Recv>): int {
    if rx == [] then -1 else if rx[0].Failed? then rx[0].code else RxCode(rx[1..])
  }

  lemma {:induction false} RxCodeNonPositive(rx: seq<Recv>)
    requires RxWellFormed(rx)
    ensures RxCode(rx) <= 0
  {
    if rx != [] && rx[0].Got? {
      assert RxWellFormed(rx[1..]) by {
        forall i | 0 <= i < |rx[1..]| ensures rx[1..][i] == rx[i + 1] {
        }
      }
      RxCodeNonPositive(rx[1..]);
    }
  }

  /**
   * The receive fields as the code keeps them, for the "as written" reading:
   * `inBuf`, `inPtr` as an index into it, and the signed `inLen`.
   */
  datatype RawIn = RawIn(buf: seq<byte>, ptr: int, len: int)

  /** One pass of the head of `telnetReadLine`'s loop as written: it returns a code, or it takes a byte. */
  datatype RawTake =
    | Returned(code: int, after: RawIn, rest: seq<Recv>)
    | Took(c: byte, after: RawIn, rest: seq<Recv>)

  /** `recv` into `buf`: the next scripted result, whose bytes overwrite the front of the buffer. */
  function RecvRaw(buf: seq<byte>, rx: seq<Recv>): (r: (int, seq<byte>, seq<Recv>))
    requires |buf| == BUF_SIZE && RxWellFormed(rx)
    ensures |r.1| == BUF_SIZE && r.0 <= BUF_SIZE
    ensures r.0 <= 0 ==> r.1 == buf
    ensures r.0 > 0 ==> rx != [] && rx[0].Got? && r.1[..r.0] == rx[0].data && r.1[r.0..] == buf[r.0..]
    ensures rx != [] ==> r.2 == rx[1..]
  {
    if rx == [] then (-1, buf, [])
    else if rx[0].Failed? then (rx[0].code, buf, rx[1..])
    else (|rx[0].data|, rx[0].data + buf[|rx[0].data|..], rx[1..])
  }

  /**
   * The head of `telnetReadLine`'s loop as written: `recv` only when `inLen`
   * is 0, the raw result stored in `inLen` and returned when not positive,
   * then `c = *inPtr++` and `--inLen`. A read outside `inBuf` is undefined
   * in C, so `inPtr` is required to point into it whenever a byte is taken
   * without a refill.
   */
  function TakeAsWritten(s: RawIn, rx: seq<Recv>): RawTake
    requires |s.buf| == BUF_SIZE && RxWellFormed(rx)
    requires s.len != 0 ==> 0 <= s.ptr < BUF_SIZE
  {
    if s.len == 0 then
      var (n, buf, rest) := RecvRaw(s.buf, rx);
      if n <= 0 then Returned(n, RawIn(buf, 0, n), rest)
      else Took(buf[0], RawIn(buf, 1, n - 1), rest)
    else
      Took(s.buf[s.ptr], RawIn(s.buf, s.ptr + 1, s.len - 1), rx)
  }

  /**
   * As written, a negative `inLen` is never refilled: the pass makes no
   * `recv`, takes the byte already in the buffer at `inPtr`, and leaves
   * `inLen` negative again, so it never returns to 0.
   */
  lemma NegativeInLenAsWritten(s: RawIn, rx: seq<Recv>)
    requires |s.buf| == BUF_SIZE && RxWellFormed(rx)
    requires s.len < 0 && 0 <= s.ptr < BUF_SIZE
    ensures var r := TakeAsWritten(s, rx);
            && r.Took? && r.rest == rx && r.c == s.buf[s.ptr]
            && r.after.buf == s.buf && r.after.len == s.len - 1 < 0
  {
  }

  /**
   * A timed-out `recv` as written (telnetd.c:142-145, and telnetd.c:70 for
   * `telnetInit`): the read returns -1 and `inLen` keeps -1. The next read
   * then makes no `recv`, although the socket has data (`rx[1..]`), and
   * returns the stale `buf[0]` left by an earlier `recv`, with `inLen` at -2.
   */
  lemma FailedRecvBlocksRefillAsWritten(buf: seq<byte>, rx: seq<Recv>)
    requires |buf| == BUF_SIZE && RxWellFormed(rx) && rx != [] && rx[0] == Failed(ABORT_RESULT)
    ensures var first := TakeAsWritten(RawIn(buf, 0, 0), rx);
            && first == Returned(ABORT_RESULT, RawIn(buf, 0, ABORT_RESULT), rx[1..])
            && TakeAsWritten(first.after, first.rest) == Took(buf[0], RawIn(buf, 1, ABORT_RESULT - 1), rx[1..])
  {
    NegativeInLenAsWritten(RawIn(buf, 0, ABORT_RESULT), rx[1..]);
  }

  /** `net_recv`'s result for a timeout or an aborted connection. */
  const ABORT_RESULT: int := -1

  /** `inLen` after a `recv`, corrected: a failed `recv` leaves the buffer empty. */
  function StoredInLen(n: int): (len: int)
    ensures len >= 0
    ensures len == 0 <==> n <= 0
    ensures n > 0 ==> len == n
  {
    if n <= 0 then 0 else n
  }

  // ---------------------------------------------------------------- the connection

  /** The output half of a `NetTelnet`: `outBuf`, `outPtr`, and every `send` made so far. */
  class TelnetOut {
    const outBuf: array<byte>
    var outPtr: nat
    var sent: seq<seq<byte>>

    ghost predicate Valid()
      reads this
    {
      outBuf.Length == BUF_SIZE && outPtr <= BUF_SIZE
    }

    /** Everything sent so far followed by what waits in the buffer. */
    function Output(): seq<byte>
      reads this, outBuf
      requires Valid()
    {
      Flatten(sent) + outBuf[..outPtr]
    }

    /** `outPtr = outBuf`: an empty buffer, nothing sent. */
    constructor ()
      ensures Valid() && outPtr == 0 && sent == [] && fresh(outBuf)
    {
      outBuf := new byte[BUF_SIZE];
      outPtr := 0;
      sent := [];
    }

    /** `telnetFlush`: a non-empty buffer is sent; the buffer is left empty. */
    method Flush()
      requires Valid()
      modifies this
      ensures Valid() && outPtr == 0 && Output() == old(Output())
      ensures old(outPtr) == 0 ==> sent == old(sent)
      ensures old(outPtr) != 0 ==> sent == old(sent) + [old(outBuf[..outPtr])]
    {
      if outPtr != 0 {
        sent := sent + [outBuf[..outPtr]];
        outPtr := 0;
      }
    }

    /** `*outPtr++ = b`, with room for it. */
    method Put(b: byte)
      requires Valid() && outPtr < BUF_SIZE
      modifies this, outBuf
      ensures Valid() && Output() == old(Output()) + [b] && outPtr == old(outPtr) + 1
    {
      outBuf[outPtr] := b;
      outPtr := outPtr + 1;
      assert outBuf[..outPtr] == old(outBuf[..outPtr]) + [b];
    }

    /** `sendOpt`: IAC, option, value, flushing first when fewer than three bytes are free. */
    method SendOpt(option: byte, value: byte)
      requires Valid()
      modifies this, outBuf
      ensures Valid() && Output() == old(Output()) + [IAC, option, value]
    {
      if outPtr + 2 >= BUF_SIZE {
        Flush();
      }
      Put(IAC);
      Put(option);
      Put(value);
    }

    /** The body of `telnetWrite`'s loop once two bytes are free: LF as CR LF, IAC doubled. */
    method PutEscaped(c: byte)
      requires Valid() && outPtr + 1 < BUF_SIZE
      modifies this, outBuf
      ensures Valid() && Output() == old(Output()) + EscapeByte(c)
    {
      if c == LF {
        Put(CR);
        Put(LF);
      } else if c == IAC {
        Put(IAC);
        Put(IAC);
      } else {
        Put(c);
      }
    }

    /**
     * `telnetWrite`: every byte escaped, in order, flushing first whenever
     * fewer than two bytes are free; the buffer never overflows. `data` is a
     * C string's bytes before its terminating NUL, the `strlen` the code takes.
     */
    method Write(data: seq<byte>)
      requires Valid() && 0 !in data
      modifies this, outBuf
      ensures Valid() && Output() == old(Output()) + Escape(data)
    {
      var i := 0;
      while i < |data|
        invariant 0 <= i <= |data| && Valid()
        invariant Output() == old(Output()) + Escape(data[..i])
      {
        if outPtr + 1 >= BUF_SIZE {
          Flush();
        }
        PutEscaped(data[i]);
        EscapePrefix(data, i);
        AppendAssoc(old(Output()), Escape(data[..i]), EscapeByte(data[i]));
        i := i + 1;
      }
      assert data[..i] == data;
    }
  }

  /**
   * The input half of a `NetTelnet`: `inBuf`, `inPtr`, `inLen`, the last
   * `SO_RCVTIMEO` set (seconds, microseconds), and what the coming `recv`
   * calls return.
   */
  class TelnetIn {
    const inBuf: array<byte>
    var inPtr: nat
    var inLen: int
    var rx: seq<Recv>
    var rcvTimeval: (int, int)

    ghost predicate Valid()
      reads this
    {
      inBuf.Length == BUF_SIZE && 0 <= inLen && inPtr + inLen <= BUF_SIZE && RxWellFormed(rx)
    }

    /** The received bytes not yet read. */
    function Pending(): seq<byte>
      reads this, inBuf
      requires Valid()
    {
      inBuf[inPtr..inPtr + inLen]
    }

    /** The bytes the coming reads will see: the buffered ones, then those of the coming `recv`s. */
    function Stream(): seq<byte>
      reads this, inBuf
      requires Valid()
    {
      Pending() + RxStream(rx)
    }

    /** The input half of `telnetInit`: a 500 ms receive timeout and the first `recv`. */
    constructor (script: seq<Recv>)
      requires RxWellFormed(script)
      ensures Valid() && rcvTimeval == (0, 500 * 1000) && fresh(inBuf)
      ensures script == [] ==> rx == [] && Pending() == []
      ensures script != [] ==> rx == script[1..]
      ensures script != [] ==> Pending() == (if script[0].Got? then script[0].data else [])
    {
      inBuf := new byte[BUF_SIZE];
      inPtr := 0;
      inLen := 0;
      rx := script;
      rcvTimeval := (0, 500 * 1000);
      new;
      var n := Receive();
      inLen := StoredInLen(n);
    }

    /** `recv` into `inBuf`: the next scripted result, stored at the start of the buffer. */
    method Receive() returns (n: int)
      requires inBuf.Length == BUF_SIZE && RxWellFormed(rx)
      modifies this, inBuf
      ensures inPtr == old(inPtr) && inLen == old(inLen) && rcvTimeval == old(rcvTimeval) && RxWellFormed(rx)
      ensures old(rx) == [] ==> rx == [] && n == -1
      ensures old(rx) != [] ==> rx == old(rx)[1..]
      ensures old(rx) != [] && old(rx)[0].Got? ==> n == |old(rx)[0].data| && inBuf[..n] == old(rx)[0].data
      ensures old(rx) != [] && old(rx)[0].Failed? ==> n == old(rx)[0].code
      ensures n <= BUF_SIZE
      ensures n > 0 ==> inBuf[..n] + RxStream(rx) == RxStream(old(rx))
      ensures n <= 0 ==> RxStream(old(rx)) == [] && n == RxCode(old(rx))
      ensures n > 0 ==> RxCode(rx) == RxCode(old(rx))
      ensures |rx| < |old(rx)| || rx == old(rx) == []
    {
      if rx == [] {
        return -1;
      }
      assert RxWellFormed(rx[1..]) by {
        forall i | 0 <= i < |rx[1..]| ensures rx[1..][i] == rx[i + 1] {
        }
      }
      match rx[0]
      case Failed(code) =>
        n := code;
        rx := rx[1..];
      case Got(d) =>
        forall i | 0 <= i < |d| {
          inBuf[i] := d[i];
        }
        assert inBuf[..|d|] == d;
        n := |d|;
        rx := rx[1..];
    }

    /**
     * The refill of `telnetReadLine`: the receive timeout is set to `timeout`
     * milliseconds and `recv` fills the buffer; corrected so that a failed
     * `recv` leaves `inLen` at 0.
     */
    method Refill(timeout: int) returns (n: int)
      requires Valid() && inLen == 0
      modifies this, inBuf
      ensures Valid() && rcvTimeval == (0, timeout * 1000)
      ensures n > 0 ==> Stream() == old(Stream()) && RxCode(rx) == RxCode(old(rx))
      ensures n > 0 ==> |rx| < |old(rx)| && inLen == n
      ensures n <= 0 ==> old(Stream()) == [] && n == RxCode(old(rx)) && Pending() == []
    {
      rcvTimeval := (0, timeout * 1000);
      n := Receive();
      inPtr := 0;
      inLen := StoredInLen(n);
    }

    /**
     * The head of `telnetReadLine`'s loop: an empty buffer is refilled.
     * A positive result means a byte is buffered.
     */
    method Fill(timeout: int) returns (n: int)
      requires Valid()
      modifies this, inBuf
      ensures Valid()
      ensures n > 0 ==> && inLen > 0 && Stream() == old(Stream()) && RxCode(rx) == RxCode(old(rx))
                        && (|rx| < old(|rx|) || (rx == old(rx) && inLen == old(inLen)))
      ensures n <= 0 ==> old(Stream()) == [] && n == RxCode(old(rx)) && Pending() == []
    {
      n := 1;
      if inLen == 0 {
        n := Refill(timeout);
      }
    }

    /** `c = *inPtr++; --inLen`: the next received byte. */
    method Next() returns (c: byte)
      requires Valid() && inLen > 0
      modifies this
      ensures Valid() && c == old(Stream())[0] && Stream() == old(Stream())[1..]
      ensures Pending() == old(Pending())[1..] && inLen == old(inLen) - 1 && rx == old(rx)
    {
      c := inBuf[inPtr];
      inPtr := inPtr + 1;
      inLen := inLen - 1;
      assert old(Pending()) == [c] + Pending();
    }
  }

  /** A `NetTelnet`: the receive state and the two buffers. */
  class NetTelnet {
    var state: TState
    const input: TelnetIn
    const output: TelnetOut

    ghost predicate Valid()
      reads this, input, output
    {
      input.Valid() && output.Valid() && input.inBuf != output.outBuf
    }

    /** `telnetInit`: NORMAL, empty buffers, a 500 ms receive timeout and the first `recv`. */
    constructor (script: seq<Recv>)
      requires RxWellFormed(script)
      ensures Valid() && state == Normal && output.outPtr == 0 && output.sent == []
      ensures input.rcvTimeval == (0, 500 * 1000)
      ensures script == [] ==> input.rx == [] && input.Pending() == []
      ensures script != [] ==> input.rx == script[1..]
      ensures script != [] ==> input.Pending() == (if script[0].Got? then script[0].data else [])
    {
      state := Normal;
      output := new TelnetOut();
      input := new TelnetIn(script);
    }

    /**
     * The `switch` of `telnetReadLine` for one received byte: the state moves,
     * option requests are refused through `sendOpt`, and the byte to store,
     * if any, is returned with whether the line ended.
     */
    method Dispatch(c: byte) returns (emit: bool, ch: byte, gotLine: bool)
      requires Valid()
      modifies this, output, output.outBuf
      ensures Valid()
      ensures var o := Step(old(state), c);
              && state == o.next && output.Output() == old(output.Output()) + o.reply
              && o.emit == (if emit then [ch] else []) && gotLine == o.gotLine
    {
      emit, ch, gotLine := false, c, false;
      match state
      case Iac =>
        if c == IAC {
          emit := true;
          state := Normal;
        } else {
          state := if c == WILL then Will else if c == WONT then Wont
                   else if c == DO then Do else if c == DONT then Dont else Normal;
        }
      case Will =>
        output.SendOpt(DONT, c);
        state := Normal;
      case Wont =>
        output.SendOpt(DONT, c);
        state := Normal;
      case Do =>
        output.SendOpt(WONT, c);
        state := Normal;
      case Dont =>
        output.SendOpt(WONT, c);
        state := Normal;
      case Cr =>
        state := Normal;
        emit, ch, gotLine := true, LF, true;
      case Normal =>
        if c == IAC {
          state := Iac;
        } else if c == CR {
          state := Cr;
        } else {
          emit := true;
        }
    }

    /** `c = *inPtr++; --inLen;` then the `switch`: one received byte taken and dispatched. */
    method Take() returns (emit: bool, ch: byte, gotLine: bool, ghost o: StepOut)
      requires Valid() && input.inLen > 0
      modifies this, input, output, output.outBuf
      ensures Valid() && o == Step(old(state), old(input.Stream())[0])
      ensures state == o.next && output.Output() == old(output.Output()) + o.reply
      ensures o.emit == (if emit then [ch] else []) && gotLine == o.gotLine
      ensures input.Stream() == old(input.Stream())[1..]
      ensures input.rx == old(input.rx) && input.inLen == old(input.inLen) - 1
    {
      var c := input.Next();
      o := Step(state, c);
      emit, ch, gotLine := Dispatch(c);
    }

    /** `*ptr++ = ch` while the line holds fewer than `cap` bytes; `emit` is the byte, if any. */
    static method StoreByte(data: array<byte>, len: nat, cap: int, emit: seq<byte>) returns (len': nat)
      requires len <= data.Length && cap < data.Length && |emit| <= 1
      modifies data
      ensures len' == if len < cap then len + |emit| else len
      ensures data[..len'] == if len < cap then old(data[..len]) + emit else old(data[..len])
    {
      len' := len;
      if emit != [] && len < cap {
        data[len] := emit[0];
        len' := len + 1;
      }
    }

    /**
     * One pass of `telnetReadLine`'s loop once input is buffered: the next
     * byte is taken and dispatched, and the byte to store is stored while the
     * line has room. The ghost arguments carry the progress against
     * `ScanLine`: the line ends where, and with the replies that, `S` records.
     */
    method Advance(data: array<byte>, len: nat, max: int, ghost S: Scan, ghost reps: seq<byte>)
      returns (len': nat, gotLine: bool, ghost reps': seq<byte>)
      requires Valid() && input.inLen > 0 && len < max <= data.Length
      requires data != input.inBuf && data != output.outBuf
      requires output.Output() == reps
      requires ScanLine(state, data[..len], reps, max - 1, input.Stream()) == S
      modifies this, input, output, output.outBuf, data
      ensures Valid() && len' < max && output.Output() == reps'
      ensures !gotLine ==> ScanLine(state, data[..len'], reps', max - 1, input.Stream()) == S
      ensures gotLine ==> S == Scan(state, data[..len'], reps', input.Stream(), true)
      ensures input.rx == old(input.rx) && input.inLen == old(input.inLen) - 1
    {
      ghost var st, line, stream := state, data[..len], input.Stream();
      var emit, ch;
      ghost var o;
      emit, ch, gotLine, o := Take();
      len' := StoreByte(data, len, max - 1, if emit then [ch] else []);
      reps' := reps + o.reply;
      ScanStep(st, line, reps, max - 1, stream, o, data[..len']);
    }

    /**
     * One pass of `telnetReadLine`'s loop: refill if the buffer is empty
     * (`n` is then the `recv` result), else take one byte (`n` is 1). The
     * ghost arguments carry the loop's progress against `ScanLine`: the line
     * ends at the same point, with the same replies, that `S` records.
     */
    method Pump(data: array<byte>, len: nat, max: int, timeout: int,
                ghost S: Scan, ghost reps: seq<byte>)
      returns (len': nat, n: int, gotLine: bool, ghost reps': seq<byte>)
      requires Valid() && len < max <= data.Length && data != input.inBuf && data != output.outBuf
      requires output.Output() == reps
      requires ScanLine(state, data[..len], reps, max - 1, input.Stream()) == S
      modifies this, input, input.inBuf, output, output.outBuf, data
      ensures Valid() && len' < max && output.Output() == reps'
      ensures n > 0 ==> RxCode(input.rx) == RxCode(old(input.rx))
      ensures n <= 0 ==> && S == Scan(state, data[..len'], reps', [], false)
                         && n == RxCode(old(input.rx)) && input.Pending() == []
      ensures n > 0 && !gotLine ==> ScanLine(state, data[..len'], reps', max - 1, input.Stream()) == S
      ensures n > 0 && gotLine ==> S == Scan(state, data[..len'], reps', input.Stream(), true)
      ensures n > 0 ==> |input.rx| < old(|input.rx|) || (input.rx == old(input.rx) && input.inLen < old(input.inLen))
    {
      len', gotLine, reps' := len, false, reps;
      n := input.Fill(timeout);
      if n <= 0 {
        return;
      }
      len', gotLine, reps' := Advance(data, len, max, S, reps);
    }

    /**
     * The loop of `telnetReadLine`: bytes are read and dispatched until a line
     * ends (`n` is 1) or a `recv` fails (`n` is its result). The line is
     * stored in `data[..len]`, at most `max - 1` bytes of it.
     */
    method Assemble(data: array<byte>, max: int, timeout: int) returns (len: nat, n: int)
      requires Valid() && 1 <= max <= data.Length && data != input.inBuf && data != output.outBuf
      modifies this, input, input.inBuf, output, output.outBuf, data
      ensures Valid()
      ensures var S := ScanLine(old(state), [], [], max - 1, old(input.Stream()));
              && state == S.state && len < max && data[..len] == S.line
              && output.Output() == old(output.Output()) + S.replies
              && (S.gotLine <==> n > 0)
              && (S.gotLine ==> input.Stream() == S.rest)
              && (!S.gotLine ==> n == RxCode(old(input.rx)) && input.Pending() == [])
    {
      ghost var S := ScanLine(state, [], output.Output(), max - 1, input.Stream());
      ScanLineShift(state, [], output.Output(), [], max - 1, input.Stream());
      assert output.Output() + [] == output.Output();
      ghost var code0 := RxCode(input.rx);
      ghost var reps := output.Output();
      len, n := 0, 1;
      var gotLine := false;
      while !gotLine
        invariant Valid() && 0 <= len <= max - 1 && n > 0
        invariant output.Output() == reps
        invariant RxCode(input.rx) == code0
        invariant !gotLine ==> ScanLine(state, data[..len], reps, max - 1, input.Stream()) == S
        invariant gotLine ==> S == Scan(state, data[..len], reps, input.Stream(), true)
        decreases !gotLine, |input.rx|, input.inLen
      {
        len, n, gotLine, reps := Pump(data, len, max, timeout, S, reps);
        if n <= 0 {
          return;
        }
      }
    }

    /**
     * `telnetReadLine` into `data` (of `max` bytes, one kept for the NUL),
     * corrected to store at most `max - 1` bytes and to keep `inLen` at 0 after
     * a failed `recv`. Returns the line's length, or the failing `recv`'s
     * result if the input ends first.
     */
    method ReadLine(data: array<byte>, max: int, timeout: int) returns (r: int)
      requires Valid() && 1 <= max <= data.Length && data != input.inBuf && data != output.outBuf
      modifies this, input, input.inBuf, output, output.outBuf, data
      ensures Valid()
      ensures var S := ScanLine(old(state), [], [], max - 1, old(input.Stream()));
              && state == S.state
              && (S.gotLine ==> && 0 <= r < max && r == |S.line| && data[..r] == S.line && data[r] == 0
                                && output.outPtr == 0 && output.Output() == old(output.Output()) + S.replies
                                && input.Stream() == S.rest)
              && (!S.gotLine ==> && r == RxCode(old(input.rx)) && r <= 0 && input.Pending() == []
                                 && output.Output() == old(output.Output()) + S.replies)
    {
      var len, n := Assemble(data, max, timeout);
      if n <= 0 {
        return n;
      }
      ghost var line := data[..len];
      data[len] := 0;
      assert data[..len] == line;
      output.Flush();
      r := len;
    }
  }
}
