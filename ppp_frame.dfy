/**
 * Octet-stuffed PPP framing in HDLC-like framing (RFC 1662 section 4, with the
 * 16-bit frame check sequence of RFC 1662 appendix C.2), as the driver helper
 * `ppp_frame.c` implements it: an encoder that writes a frame into a buffer and a
 * byte-at-a-time decoder that hands each good frame to an input hook.
 */
module PppFrame {
  import opened Common

  const FLAG: byte := 0x7e
  const ESCAPE: byte := 0x7d
  const TRANS: byte := 0x20
  const ALLSTATIONS: byte := 0xff
  const UI: byte := 0x03
  const INITFCS: bv16 := 0xffff
  const GOODFCS: bv16 := 0xf0b8
  /** The protocol number the HDLC bridge driver sends Ethernet frames under. */
  const PPP_ETHERNET: bv16 := 0x81

  /**
   * The FCS-16 lookup table `fcstab` (entry `i`), written as a search over the
   * index so that the verifier never has to unfold a 256-entry sequence.
   */
  function FcsTab(i: byte): bv16 {
    if i < 128 then
      if i < 64 then
        if i < 32 then
          if i < 16 then
            if i < 8 then
              if i < 4 then
                if i < 2 then (if i < 1 then 0x0000 else 0x1189) else (if i < 3 then 0x2312 else 0x329b)
              else
                if i < 6 then (if i < 5 then 0x4624 else 0x57ad) else (if i < 7 then 0x6536 else 0x74bf)
            else
              if i < 12 then
                if i < 10 then (if i < 9 then 0x8c48 else 0x9dc1) else (if i < 11 then 0xaf5a else 0xbed3)
              else
                if i < 14 then (if i < 13 then 0xca6c else 0xdbe5) else (if i < 15 then 0xe97e else 0xf8f7)
          else
            if i < 24 then
              if i < 20 then
                if i < 18 then (if i < 17 then 0x1081 else 0x0108) else (if i < 19 then 0x3393 else 0x221a)
              else
                if i < 22 then (if i < 21 then 0x56a5 else 0x472c) else (if i < 23 then 0x75b7 else 0x643e)
            else
              if i < 28 then
                if i < 26 then (if i < 25 then 0x9cc9 else 0x8d40) else (if i < 27 then 0xbfdb else 0xae52)
              else
                if i < 30 then (if i < 29 then 0xdaed else 0xcb64) else (if i < 31 then 0xf9ff else 0xe876)
        else
          if i < 48 then
            if i < 40 then
              if i < 36 then
                if i < 34 then (if i < 33 then 0x2102 else 0x308b) else (if i < 35 then 0x0210 else 0x1399)
              else
                if i < 38 then (if i < 37 then 0x6726 else 0x76af) else (if i < 39 then 0x4434 else 0x55bd)
            else
              if i < 44 then
                if i < 42 then (if i < 41 then 0xad4a else 0xbcc3) else (if i < 43 then 0x8e58 else 0x9fd1)
              else
                if i < 46 then (if i < 45 then 0xeb6e else 0xfae7) else (if i < 47 then 0xc87c else 0xd9f5)
          else
            if i < 56 then
              if i < 52 then
                if i < 50 then (if i < 49 then 0x3183 else 0x200a) else (if i < 51 then 0x1291 else 0x0318)
              else
                if i < 54 then (if i < 53 then 0x77a7 else 0x662e) else (if i < 55 then 0x54b5 else 0x453c)
            else
              if i < 60 then
                if i < 58 then (if i < 57 then 0xbdcb else 0xac42) else (if i < 59 then 0x9ed9 else 0x8f50)
              else
                if i < 62 then (if i < 61 then 0xfbef else 0xea66) else (if i < 63 then 0xd8fd else 0xc974)
      else
        if i < 96 then
          if i < 80 then
            if i < 72 then
              if i < 68 then
                if i < 66 then (if i < 65 then 0x4204 else 0x538d) else (if i < 67 then 0x6116 else 0x709f)
              else
                if i < 70 then (if i < 69 then 0x0420 else 0x15a9) else (if i < 71 then 0x2732 else 0x36bb)
            else
              if i < 76 then
                if i < 74 then (if i < 73 then 0xce4c else 0xdfc5) else (if i < 75 then 0xed5e else 0xfcd7)
              else
                if i < 78 then (if i < 77 then 0x8868 else 0x99e1) else (if i < 79 then 0xab7a else 0xbaf3)
          else
            if i < 88 then
              if i < 84 then
                if i < 82 then (if i < 81 then 0x5285 else 0x430c) else (if i < 83 then 0x7197 else 0x601e)
              else
                if i < 86 then (if i < 85 then 0x14a1 else 0x0528) else (if i < 87 then 0x37b3 else 0x263a)
            else
              if i < 92 then
                if i < 90 then (if i < 89 then 0xdecd else 0xcf44) else (if i < 91 then 0xfddf else 0xec56)
              else
                if i < 94 then (if i < 93 then 0x98e9 else 0x8960) else (if i < 95 then 0xbbfb else 0xaa72)
        else
          if i < 112 then
            if i < 104 then
              if i < 100 then
                if i < 98 then (if i < 97 then 0x6306 else 0x728f) else (if i < 99 then 0x4014 else 0x519d)
              else
                if i < 102 then (if i < 101 then 0x2522 else 0x34ab) else (if i < 103 then 0x0630 else 0x17b9)
            else
              if i < 108 then
                if i < 106 then (if i < 105 then 0xef4e else 0xfec7) else (if i < 107 then 0xcc5c else 0xddd5)
              else
                if i < 110 then (if i < 109 then 0xa96a else 0xb8e3) else (if i < 111 then 0x8a78 else 0x9bf1)
          else
            if i < 120 then
              if i < 116 then
                if i < 114 then (if i < 113 then 0x7387 else 0x620e) else (if i < 115 then 0x5095 else 0x411c)
              else
                if i < 118 then (if i < 117 then 0x35a3 else 0x242a) else (if i < 119 then 0x16b1 else 0x0738)
            else
              if i < 124 then
                if i < 122 then (if i < 121 then 0xffcf else 0xee46) else (if i < 123 then 0xdcdd else 0xcd54)
              else
                if i < 126 then (if i < 125 then 0xb9eb else 0xa862) else (if i < 127 then 0x9af9 else 0x8b70)
    else
      if i < 192 then
        if i < 160 then
          if i < 144 then
            if i < 136 then
              if i < 132 then
                if i < 130 then (if i < 129 then 0x8408 else 0x9581) else (if i < 131 then 0xa71a else 0xb693)
              else
                if i < 134 then (if i < 133 then 0xc22c else 0xd3a5) else (if i < 135 then 0xe13e else 0xf0b7)
            else
              if i < 140 then
                if i < 138 then (if i < 137 then 0x0840 else 0x19c9) else (if i < 139 then 0x2b52 else 0x3adb)
              else
                if i < 142 then (if i < 141 then 0x4e64 else 0x5fed) else (if i < 143 then 0x6d76 else 0x7cff)
          else
            if i < 152 then
              if i < 148 then
                if i < 146 then (if i < 145 then 0x9489 else 0x8500) else (if i < 147 then 0xb79b else 0xa612)
              else
                if i < 150 then (if i < 149 then 0xd2ad else 0xc324) else (if i < 151 then 0xf1bf else 0xe036)
            else
              if i < 156 then
                if i < 154 then (if i < 153 then 0x18c1 else 0x0948) else (if i < 155 then 0x3bd3 else 0x2a5a)
              else
                if i < 158 then (if i < 157 then 0x5ee5 else 0x4f6c) else (if i < 159 then 0x7df7 else 0x6c7e)
        else
          if i < 176 then
            if i < 168 then
              if i < 164 then
                if i < 162 then (if i < 161 then 0xa50a else 0xb483) else (if i < 163 then 0x8618 else 0x9791)
              else
                if i < 166 then (if i < 165 then 0xe32e else 0xf2a7) else (if i < 167 then 0xc03c else 0xd1b5)
            else
              if i < 172 then
                if i < 170 then (if i < 169 then 0x2942 else 0x38cb) else (if i < 171 then 0x0a50 else 0x1bd9)
              else
                if i < 174 then (if i < 173 then 0x6f66 else 0x7eef) else (if i < 175 then 0x4c74 else 0x5dfd)
          else
            if i < 184 then
              if i < 180 then
                if i < 178 then (if i < 177 then 0xb58b else 0xa402) else (if i < 179 then 0x9699 else 0x8710)
              else
                if i < 182 then (if i < 181 then 0xf3af else 0xe226) else (if i < 183 then 0xd0bd else 0xc134)
            else
              if i < 188 then
                if i < 186 then (if i < 185 then 0x39c3 else 0x284a) else (if i < 187 then 0x1ad1 else 0x0b58)
              else
                if i < 190 then (if i < 189 then 0x7fe7 else 0x6e6e) else (if i < 191 then 0x5cf5 else 0x4d7c)
      else
        if i < 224 then
          if i < 208 then
            if i < 200 then
              if i < 196 then
                if i < 194 then (if i < 193 then 0xc60c else 0xd785) else (if i < 195 then 0xe51e else 0xf497)
              else
                if i < 198 then (if i < 197 then 0x8028 else 0x91a1) else (if i < 199 then 0xa33a else 0xb2b3)
            else
              if i < 204 then
                if i < 202 then (if i < 201 then 0x4a44 else 0x5bcd) else (if i < 203 then 0x6956 else 0x78df)
              else
                if i < 206 then (if i < 205 then 0x0c60 else 0x1de9) else (if i < 207 then 0x2f72 else 0x3efb)
          else
            if i < 216 then
              if i < 212 then
                if i < 210 then (if i < 209 then 0xd68d else 0xc704) else (if i < 211 then 0xf59f else 0xe416)
              else
                if i < 214 then (if i < 213 then 0x90a9 else 0x8120) else (if i < 215 then 0xb3bb else 0xa232)
            else
              if i < 220 then
                if i < 218 then (if i < 217 then 0x5ac5 else 0x4b4c) else (if i < 219 then 0x79d7 else 0x685e)
              else
                if i < 222 then (if i < 221 then 0x1ce1 else 0x0d68) else (if i < 223 then 0x3ff3 else 0x2e7a)
        else
          if i < 240 then
            if i < 232 then
              if i < 228 then
                if i < 226 then (if i < 225 then 0xe70e else 0xf687) else (if i < 227 then 0xc41c else 0xd595)
              else
                if i < 230 then (if i < 229 then 0xa12a else 0xb0a3) else (if i < 231 then 0x8238 else 0x93b1)
            else
              if i < 236 then
                if i < 234 then (if i < 233 then 0x6b46 else 0x7acf) else (if i < 235 then 0x4854 else 0x59dd)
              else
                if i < 238 then (if i < 237 then 0x2d62 else 0x3ceb) else (if i < 239 then 0x0e70 else 0x1ff9)
          else
            if i < 248 then
              if i < 244 then
                if i < 242 then (if i < 241 then 0xf78f else 0xe606) else (if i < 243 then 0xd49d else 0xc514)
              else
                if i < 246 then (if i < 245 then 0xb1ab else 0xa022) else (if i < 247 then 0x92b9 else 0x8330)
            else
              if i < 252 then
                if i < 250 then (if i < 249 then 0x7bc7 else 0x6a4e) else (if i < 251 then 0x58d5 else 0x495c)
              else
                if i < 254 then (if i < 253 then 0x3de3 else 0x2c6a) else (if i < 255 then 0x1ef1 else 0x0f78)
  }

  /** `PPP_FCS(f, c)`: fold one octet into the running frame check sequence. */
  function Fcs(f: bv16, c: byte): bv16 {
    (f >> 8) ^ FcsTab(((f ^ (c as bv16)) & 0xff) as byte)
  }

  /** The frame check sequence after folding every octet of `s`, in order, into `f`. */
  function FcsOf(f: bv16, s: seq<byte>): bv16 {
    if s == [] then f else Fcs(FcsOf(f, s[..|s| - 1]), s[|s| - 1])
  }

  /** The two octets `pppOutputEnd` appends: the complemented FCS, low octet first. */
  function Trailer(f: bv16): (t: seq<byte>)
    ensures |t| == 2
  {
    [(!f & 0xff) as byte, (!f >> 8) as byte]
  }

  /**
   * The "good FCS" residue: folding the complemented FCS of any octet string onto
   * that string's FCS always leaves GOODFCS, which is what the decoder checks.
   */
  lemma FcsResidue(f: bv16)
    ensures FcsOf(f, Trailer(f)) == GOODFCS
  {
    var a, b := (!f & 0xff) as byte, (!f >> 8) as byte;
    assert Trailer(f) == [a, b];
    FcsOfPair(f, a, b);
    var g := Fcs(f, a);
    assert g == (f >> 8) ^ 0x0f78 by {
      assert FcsTab(255) == 0x0f78;
      FcsStep(f, a, 255);
    }
    assert Fcs(g, b) == GOODFCS by {
      assert FcsTab(135) == 0xf0b7;
      FcsStep(g, b, 135);
    }
  }

  lemma FcsStep(f: bv16, c: byte, i: byte)
    requires ((f ^ (c as bv16)) & 0xff) as byte == i
    ensures Fcs(f, c) == (f >> 8) ^ FcsTab(i)
  {
  }

  lemma FcsOfPair(f: bv16, a: byte, b: byte)
    ensures FcsOf(f, [a, b]) == Fcs(Fcs(f, a), b)
  {
    assert [a, b][..1] == [a];
    assert [a][..0] == [];
    assert FcsOf(f, [a]) == Fcs(f, a);
  }



  lemma {:induction false} FcsOfAppend(f: bv16, s: seq<byte>, t: seq<byte>)
    ensures FcsOf(f, s + t) == FcsOf(FcsOf(f, s), t)
    decreases |t|
  {
    if t == [] {
      assert s + t == s;
    } else {
      var t' := t[..|t| - 1];
      assert (s + t)[..|s + t| - 1] == s + t';
      FcsOfAppend(f, s, t');
    }
  }

  // ---------------------------------------------------------------- encoder

  /** RFC 1662 section 4.2 transparency: FLAG and ESCAPE go out as ESCAPE, octet ^ TRANS. */
  function Escaped(ch: byte): (r: seq<byte>)
    ensures FLAG !in r
    ensures |r| == (if ch == FLAG || ch == ESCAPE then 2 else 1)
  {
    if ch == FLAG || ch == ESCAPE then [ESCAPE, ch ^ TRANS] else [ch]
  }

  /** The octet-stuffed image of a string: every octet escaped in turn. */
  function Stuffed(s: seq<byte>): seq<byte> {
    if s == [] then [] else Stuffed(s[..|s| - 1]) + Escaped(s[|s| - 1])
  }

  /** A stuffed string never contains a flag, so only real flags delimit frames. */
  lemma {:induction false} StuffedHasNoFlag(s: seq<byte>)
    ensures FLAG !in Stuffed(s)
    decreases |s|
  {
    if s != [] {
      StuffedHasNoFlag(s[..|s| - 1]);
    }
  }

  lemma {:induction false} StuffedAppend(s: seq<byte>, t: seq<byte>)
    ensures Stuffed(s + t) == Stuffed(s) + Stuffed(t)
    decreases |t|
  {
    if t == [] {
      assert s + t == s;
    } else {
      var t' := t[..|t| - 1];
      assert (s + t)[..|s + t| - 1] == s + t';
      StuffedAppend(s, t');
    }
  }

  /** The protocol field `pppOutputBegin` writes: two octets when above 0xff, else one. */
  function ProtocolField(p: bv16): (r: seq<byte>)
    ensures |r| == (if p > 0xff then 2 else 1)
  {
    if p > 0xff then [(p >> 8) as byte, (p & 0xff) as byte] else [(p & 0xff) as byte]
  }

  /** The FCS `pppOutputBegin` leaves after folding a one- or two-octet protocol field. */
  function HeadFcs(head: seq<byte>): (f: bv16)
    requires 1 <= |head| <= 2
    ensures f == FcsOf(INITFCS, head)
  {
    if |head| == 2 then
      FcsOfPair(INITFCS, head[0], head[1]);
      assert head == [head[0], head[1]];
      Fcs(Fcs(INITFCS, head[0]), head[1])
    else
      assert head[..0] == [];
      Fcs(INITFCS, head[0])
  }

  /**
   * The frame RFC 1662 asks for (without address and control fields): flag,
   * protocol, stuffed payload and complemented FCS, flag.
   */
  function Frame(p: bv16, payload: seq<byte>): seq<byte> {
    var head := ProtocolField(p);
    [FLAG] + head + Stuffed(payload + Trailer(FcsOf(INITFCS, head + payload))) + [FLAG]
  }

  /** The encoder's view of a context: what is in the buffer and the running FCS. */
  datatype Enc = Enc(out: seq<byte>, fcs: bv16)

  /** `pppOutputBegin`: flag and raw protocol field; FCS over the protocol octets. */
  function EncBegin(p: bv16): Enc {
    Enc([FLAG] + ProtocolField(p), FcsOf(INITFCS, ProtocolField(p)))
  }

  /** `pppOutputAppend`: nothing when `ptr - buf + 1 >= max`, else fold and stuff one octet. */
  function EncAppend(e: Enc, max: int, ch: byte): Enc {
    if |e.out| + 1 >= max then e else Enc(e.out + Escaped(ch), Fcs(e.fcs, ch))
  }

  function EncAppendAll(e: Enc, max: int, s: seq<byte>): Enc {
    if s == [] then e else EncAppend(EncAppendAll(e, max, s[..|s| - 1]), max, s[|s| - 1])
  }

  /**
   * `pppOutputEnd` with the capacity check the closing flag lacks in the
   * original: the trailer through the escaping append, then the flag if it fits.
   */
  function EncEnd(e: Enc, max: int): seq<byte> {
    var t := Trailer(e.fcs);
    var e' := EncAppend(EncAppend(e, max, t[0]), max, t[1]);
    if |e'.out| < max then e'.out + [FLAG] else e'.out
  }

  /** `pppOutputEnd` as written: the closing flag is stored whatever the room left. */
  function EncEndAsWritten(e: Enc, max: int): seq<byte> {
    var t := Trailer(e.fcs);
    EncAppend(EncAppend(e, max, t[0]), max, t[1]).out + [FLAG]
  }

  /** Begin, one append per payload octet, End: the encoder's whole output. */
  function Encode(p: bv16, payload: seq<byte>, max: int): seq<byte> {
    EncEnd(EncAppendAll(EncBegin(p), max, payload), max)
  }

  function EncodeAsWritten(p: bv16, payload: seq<byte>, max: int): seq<byte> {
    EncEndAsWritten(EncAppendAll(EncBegin(p), max, payload), max)
  }

  lemma {:induction false} EncAppendAllBounded(e: Enc, max: int, s: seq<byte>)
    requires |e.out| <= max
    ensures |EncAppendAll(e, max, s).out| <= max
    decreases |s|
  {
    if s != [] {
      EncAppendAllBounded(e, max, s[..|s| - 1]);
    }
  }

  /** With the corrected End, the encoder never stores more than `max` octets. */
  lemma EncodeWithinCapacity(p: bv16, payload: seq<byte>, max: int)
    requires max >= 3
    ensures |Encode(p, payload, max)| <= max
  {
    EncAppendAllBounded(EncBegin(p), max, payload);
  }

  lemma {:induction false} EncAppendAllFits(e: Enc, max: int, s: seq<byte>)
    requires |e.out| + |Stuffed(s)| < max
    ensures EncAppendAll(e, max, s) == Enc(e.out + Stuffed(s), FcsOf(e.fcs, s))
    decreases |s|
  {
    if s != [] {
      var s' := s[..|s| - 1];
      EncAppendAllFits(e, max, s');
    }
  }

  lemma StuffedPair(t: seq<byte>)
    requires |t| == 2
    ensures Stuffed(t) == Escaped(t[0]) + Escaped(t[1])
  {
    assert t[..1][..0] == [];
    assert Stuffed(t[..1]) == Escaped(t[0]);
  }

  lemma EncEndFits(e: Enc, max: int)
    requires |e.out| + |Stuffed(Trailer(e.fcs))| < max
    ensures EncEnd(e, max) == e.out + Stuffed(Trailer(e.fcs)) + [FLAG]
  {
    StuffedPair(Trailer(e.fcs));
  }

  /** When the whole frame fits in `max` octets, the encoder emits exactly `Frame`. */
  lemma EncodeFits(p: bv16, payload: seq<byte>, max: int)
    requires |Frame(p, payload)| <= max
    ensures Encode(p, payload, max) == Frame(p, payload)
  {
    var head := ProtocolField(p);
    var f := FcsOf(INITFCS, head + payload);
    var t := Trailer(f);
    var e := EncBegin(p);
    assert Frame(p, payload) == e.out + Stuffed(payload + t) + [FLAG];
    StuffedAppend(payload, t);
    assert Frame(p, payload) == e.out + Stuffed(payload) + Stuffed(t) + [FLAG];
    EncAppendAllFits(e, max, payload);
    FcsOfAppend(INITFCS, head, payload);
    var e1 := EncAppendAll(e, max, payload);
    assert e1 == Enc(e.out + Stuffed(payload), f);
    EncEndFits(e1, max);
  }

  /**
   * `pppOutputEnd` as written can store its flag at offset `max`, one octet past
   * a buffer of `max` octets: protocol 0x81 and payload [0x7e] with `max == 4`.
   */
  lemma EndOverrunsBufferAsWritten()
    ensures |EncodeAsWritten(PPP_ETHERNET, [FLAG], 4)| == 5
  {
    var b := EncBegin(PPP_ETHERNET);
    assert |b.out| == 2;
    assert [FLAG][..0] == [];
    assert EncAppendAll(b, 4, [FLAG][..0]) == b;
    var e := EncAppendAll(b, 4, [FLAG]);
    assert e == EncAppend(b, 4, FLAG);
    assert |e.out| == 4;
  }

  // ---------------------------------------------------------------- decoder

  /** The decoder's `mode`; `OutputMode` marks a context used for sending. */
  datatype Mode = Hunt | Normal | Esc | OutputMode

  /** One call of the input hook: protocol number and payload. */
  datatype Packet = Packet(protocol: bv16, payload: seq<byte>)

  /**
   * The decoder's view of a context: mode, octets stored since the last flag,
   * running FCS, the error counters and every packet handed to the input hook.
   */
  datatype Dec = Dec(mode: Mode, data: seq<byte>, fcs: bv16, badCRC: nat, tooShort: nat,
                     delivered: seq<Packet>)

  /** `pppInputBegin`: counters cleared, hunting for the first flag. */
  function DecBegin(delivered: seq<Packet>): Dec {
    Dec(Hunt, [], INITFCS, 0, 0, delivered)
  }

  /** `pppInputReset`: a fresh frame in NORMAL mode. */
  function DecReset(d: Dec): Dec {
    d.(mode := Normal, data := [], fcs := INITFCS)
  }

  /** What the decoder makes of a good frame once its two FCS octets are dropped. */
  datatype Parsed = Deliver(protocol: bv16, payload: seq<byte>) | Short

  /**
   * Address/control stripping (RFC 1661 section 6.6) and the protocol field
   * (RFC 1661 section 2: one octet when odd, else two). A frame with nothing left
   * for a protocol field is discarded as too short.
   */
  function ParseFrame(data: seq<byte>): Parsed {
    var body := if |data| >= 2 && data[0] == ALLSTATIONS && data[1] == UI then data[2..] else data;
    if |body| == 0 then Short
    else if body[0] & 1 == 1 then Deliver(body[0] as bv16, body[1..])
    else if |body| >= 2 then Deliver(((body[0] as bv16) << 8) | (body[1] as bv16), body[2..])
    else Short
  }

  /** The protocol word as written: `None` where the original leaves it uninitialised. */
  datatype ParsedAsWritten = Hook(protocol: Option<bv16>, payload: seq<byte>) | Discard

  /** The original's parse: an empty body still reaches the hook, with no protocol set. */
  function ParseFrameAsWritten(data: seq<byte>): ParsedAsWritten {
    var body := if |data| >= 2 && data[0] == ALLSTATIONS && data[1] == UI then data[2..] else data;
    if |body| == 0 then Hook(None, body)
    else if body[0] & 1 == 1 then Hook(Some(body[0] as bv16), body[1..])
    else if |body| >= 2 then Hook(Some(((body[0] as bv16) << 8) | (body[1] as bv16)), body[2..])
    else Discard
  }

  /**
   * The corrected parse hands over exactly the frames on which the original
   * sets the protocol, with the same protocol and payload; the frame left with
   * nothing for a protocol field is the one it now discards.
   */
  lemma ParseFrameCorrects(data: seq<byte>)
    ensures ParseFrame(data).Deliver?
            <==> ParseFrameAsWritten(data).Hook? && ParseFrameAsWritten(data).protocol.Some?
    ensures ParseFrame(data).Deliver? ==>
              ParseFrameAsWritten(data)
              == Hook(Some(ParseFrame(data).protocol), ParseFrame(data).payload)
  {
  }

  /** Store one (unescaped) octet unless `max` octets are already buffered. */
  function DecStore(d: Dec, max: int, ch: byte): Dec {
    if |d.data| >= max then d else d.(data := d.data + [ch], fcs := Fcs(d.fcs, ch))
  }

  /** `pppInputAppend`: one received octet. */
  function DecStep(d: Dec, max: int, ch: byte): Dec {
    if ch == FLAG then
      if |d.data| < 2 then
        DecReset(if |d.data| > 0 then d.(tooShort := d.tooShort + 1) else d)
      else if d.fcs != GOODFCS then
        DecReset(d.(badCRC := d.badCRC + 1))
      else
        match ParseFrame(d.data[..|d.data| - 2])
        case Deliver(p, payload) => DecReset(d.(delivered := d.delivered + [Packet(p, payload)]))
        case Short => DecReset(d.(tooShort := d.tooShort + 1))
    else
      match d.mode
      case Normal => if ch == ESCAPE then d.(mode := Esc) else DecStore(d, max, ch)
      case Esc => DecStore(d.(mode := Normal), max, ch ^ TRANS)
      case _ => d
  }

  /** The decoder after the octets of `s`, in order. */
  function DecAll(d: Dec, max: int, s: seq<byte>): Dec {
    if s == [] then d else DecStep(DecAll(d, max, s[..|s| - 1]), max, s[|s| - 1])
  }

  lemma {:induction false} DecAllAppend(d: Dec, max: int, s: seq<byte>, t: seq<byte>)
    ensures DecAll(d, max, s + t) == DecAll(DecAll(d, max, s), max, t)
    decreases |t|
  {
    if t == [] {
      assert s + t == s;
    } else {
      var t' := t[..|t| - 1];
      assert (s + t)[..|s + t| - 1] == s + t';
      DecAllAppend(d, max, s, t');
    }
  }

  /** While hunting, every octet but a flag is ignored. */
  lemma {:induction false} HuntIgnoresNonFlags(d: Dec, max: int, s: seq<byte>)
    requires d.mode == Hunt && FLAG !in s
    ensures DecAll(d, max, s) == d
    decreases |s|
  {
    if s != [] {
      HuntIgnoresNonFlags(d, max, s[..|s| - 1]);
    }
  }

  /** The first flag after `pppInputBegin` starts a frame with no error counted. */
  lemma FirstFlagStartsFrame(delivered: seq<Packet>, max: int)
    ensures DecStep(DecBegin(delivered), max, FLAG) == Dec(Normal, [], INITFCS, 0, 0, delivered)
  {
  }

  lemma DecEscapedOctet(d: Dec, max: int, c: byte)
    requires d.mode == Normal && |d.data| < max
    ensures DecAll(d, max, Escaped(c)) == d.(data := d.data + [c], fcs := Fcs(d.fcs, c))
  {
    var r := Escaped(c);
    if c == FLAG || c == ESCAPE {
      assert r[..1][..0] == [];
      assert DecAll(d, max, r[..1]) == d.(mode := Esc);
      assert r[1] ^ TRANS == c;
    } else {
      assert r[..0] == [];
    }
  }

  /** Decoding a stuffed string in NORMAL mode stores exactly the original octets. */
  lemma {:induction false} DecStuffed(d: Dec, max: int, s: seq<byte>)
    requires d.mode == Normal && |d.data| + |s| <= max
    ensures DecAll(d, max, Stuffed(s)) == d.(data := d.data + s, fcs := FcsOf(d.fcs, s))
    decreases |s|
  {
    if s != [] {
      var s' := s[..|s| - 1];
      var c := s[|s| - 1];
      DecStuffed(d, max, s');
      DecAllAppend(d, max, Stuffed(s'), Escaped(c));
      var d' := d.(data := d.data + s', fcs := FcsOf(d.fcs, s'));
      DecEscapedOctet(d', max, c);
      AppendLast(d.data, s);
    }
  }

  lemma AppendLast(a: seq<byte>, s: seq<byte>)
    requires s != []
    ensures a + s[..|s| - 1] + [s[|s| - 1]] == a + s
  {
    assert s[..|s| - 1] + [s[|s| - 1]] == s;
  }

  /**
   * A protocol number the round trip preserves: low octet odd and high octet even
   * (RFC 1661 section 2), not the lone octet 0xff (it would read as the
   * all-stations address), and no protocol octet equal to FLAG or ESCAPE, because
   * `pppOutputBegin` writes the protocol field without escaping it.
   */
  predicate RoundTripProtocol(p: bv16) {
    && p & 1 == 1
    && (p >> 8) & 1 == 0
    && p != 0xff
    && FLAG !in ProtocolField(p) && ESCAPE !in ProtocolField(p)
  }

  lemma ProtocolOctets(p: bv16)
    ensures ((((p >> 8) as byte) as bv16) << 8) | (((p & 0xff) as byte) as bv16) == p
    ensures p <= 0xff ==> ((p & 0xff) as byte) as bv16 == p
    ensures ((p & 0xff) as byte) & 1 == (p & 1) as byte
    ensures ((p >> 8) as byte) & 1 == ((p >> 8) & 1) as byte
  {
  }

  lemma ParseProtocolField(p: bv16, payload: seq<byte>)
    requires RoundTripProtocol(p)
    ensures ParseFrame(ProtocolField(p) + payload) == Deliver(p, payload)
  {
    var head := ProtocolField(p);
    var data := head + payload;
    ProtocolOctets(p);
    if p > 0xff {
      var hi, lo := (p >> 8) as byte, (p & 0xff) as byte;
      assert data[0] == hi && data[1] == lo;
      assert hi & 1 == 0;
      assert hi != ALLSTATIONS;
      assert data[2..] == payload;
    } else {
      var lo := (p & 0xff) as byte;
      assert data[0] == lo;
      assert lo != ALLSTATIONS;
      assert lo & 1 == 1;
      assert data[1..] == payload;
    }
  }

  /**
   * Round trip: a decoder just begun, fed the encoder's frame for a round-trip
   * protocol, hands exactly that protocol and payload to the input hook once,
   * and is ready for the next frame.
   */
  lemma RoundTrip(p: bv16, payload: seq<byte>, max: int, delivered: seq<Packet>)
    requires RoundTripProtocol(p)
    requires |ProtocolField(p)| + |payload| + 2 <= max
    ensures DecAll(DecBegin(delivered), max, Frame(p, payload))
            == Dec(Normal, [], INITFCS, 0, 0, delivered + [Packet(p, payload)])
  {
    var head := ProtocolField(p);
    var body := head + payload + Trailer(FcsOf(INITFCS, head + payload));
    var d0 := DecBegin(delivered);
    FrameShape(p, payload);
    DecodeFlagAndBody(body, max, delivered);
    var d2 := Dec(Normal, body, FcsOf(INITFCS, body), 0, 0, delivered);
    DecAllAppend(d0, max, [FLAG] + Stuffed(body), [FLAG]);
    assert [FLAG][..0] == [];
    assert DecAll(d0, max, Frame(p, payload)) == DecStep(d2, max, FLAG);
    FcsOfAppend(INITFCS, head + payload, Trailer(FcsOf(INITFCS, head + payload)));
    FcsResidue(FcsOf(INITFCS, head + payload));
    assert body[..|body| - 2] == head + payload;
    ParseProtocolField(p, payload);
  }

  /** A string of one or two octets, none FLAG or ESCAPE, is its own stuffed image. */
  lemma StuffedPlain(head: seq<byte>)
    requires 1 <= |head| <= 2 && FLAG !in head && ESCAPE !in head
    ensures Stuffed(head) == head
  {
    if |head| == 2 {
      StuffedPair(head);
      assert Escaped(head[0]) == [head[0]];
    } else {
      assert head[..0] == [];
    }
  }

  /** The protocol octets of a round-trip protocol are their own stuffed image. */
  lemma FrameShape(p: bv16, payload: seq<byte>)
    requires RoundTripProtocol(p)
    ensures var head := ProtocolField(p);
            Frame(p, payload)
            == [FLAG] + Stuffed(head + payload + Trailer(FcsOf(INITFCS, head + payload))) + [FLAG]
  {
    var head := ProtocolField(p);
    var t := Trailer(FcsOf(INITFCS, head + payload));
    StuffedPlain(head);
    PlainHeadStuffed(head, payload, t);
  }

  lemma PlainHeadStuffed(head: seq<byte>, payload: seq<byte>, t: seq<byte>)
    requires Stuffed(head) == head
    ensures [FLAG] + head + Stuffed(payload + t) + [FLAG] == [FLAG] + Stuffed(head + payload + t) + [FLAG]
  {
    var rest := payload + t;
    var x := Stuffed(rest);
    AppendAssoc(head, payload, t);
    StuffedAppend(head, rest);
    assert Stuffed(head + payload + t) == head + x;
    AppendAssoc([FLAG], head, x);
  }

  /** The opening flag, then a stuffed body that fits, leaves the body buffered. */
  lemma DecodeFlagAndBody(body: seq<byte>, max: int, delivered: seq<Packet>)
    requires |body| <= max
    ensures DecAll(DecBegin(delivered), max, [FLAG] + Stuffed(body))
            == Dec(Normal, body, FcsOf(INITFCS, body), 0, 0, delivered)
  {
    var d0 := DecBegin(delivered);
    var d1 := Dec(Normal, [], INITFCS, 0, 0, delivered);
    assert [FLAG][..0] == [];
    assert DecAll(d0, max, [FLAG]) == d1;
    DecAllAppend(d0, max, [FLAG], Stuffed(body));
    DecStuffed(d1, max, body);
    assert [] + body == body;
  }

  /**
   * The uninitialised protocol as written: the empty frame (only its FCS) passes
   * the FCS check, and the original then calls the hook with no protocol set,
   * where the corrected parse discards it as too short.
   */
  lemma EmptyFrameAsWritten()
    ensures FcsOf(INITFCS, Trailer(INITFCS)) == GOODFCS
    ensures ParseFrameAsWritten([]) == Hook(None, [])
    ensures ParseFrame([]) == Short
  {
    FcsResidue(INITFCS);
  }

  // ---------------------------------------------------------------- the context

  /**
   * A `PPPContext`: the caller's buffer and its capacity `max`, the write
   * position `ptr` (an index here), the running FCS, the mode and the statistics. The
   * input hook is recorded as the sequence of packets handed to it.
   */
  class PppContext {
    var buf: array<byte>
    var ptr: nat
    var fcs: bv16
    var mode: Mode
    var max: int
    var badCRC: nat
    var tooShort: nat
    var ok: nat
    var delivered: seq<Packet>

    ghost predicate Valid()
      reads this
    {
      ptr <= max <= buf.Length
    }

    /** The encoder's view of this context. */
    function EncView(): Enc
      reads this, buf
      requires Valid()
    {
      Enc(buf[..ptr], fcs)
    }

    /** The decoder's view of this context. */
    function DecView(): Dec
      reads this, buf
      requires Valid()
    {
      Dec(mode, buf[..ptr], fcs, badCRC, tooShort, delivered)
    }

    /** The caller sets `buf` and `max`; nothing else is initialised yet. */
    constructor (buffer: array<byte>, capacity: int)
      requires 0 <= capacity <= buffer.Length
      ensures Valid() && buf == buffer && max == capacity && ptr == 0
      ensures delivered == []
    {
      buf := buffer;
      max := capacity;
      ptr := 0;
      fcs := INITFCS;
      mode := Hunt;
      badCRC, tooShort, ok := 0, 0, 0;
      delivered := [];
    }

    /** `pppOutputBegin`: flag and protocol field, unescaped, with no capacity check. */
    method OutputBegin(protocol: bv16)
      requires Valid() && max >= 3
      modifies this, buf
      ensures Valid() && buf == old(buf) && max == old(max) && delivered == old(delivered)
      ensures mode == OutputMode && badCRC == 0 && tooShort == 0 && ok == 0
      ensures EncView() == EncBegin(protocol)
    {
      var head := ProtocolField(protocol);
      PutHead(buf, head);
      badCRC, tooShort, ok, mode := 0, 0, 0, OutputMode;
      fcs, ptr := HeadFcs(head), 1 + |head|;
    }

    /** The flag and the protocol field at the start of `b`. */
    static method PutHead(b: array<byte>, head: seq<byte>)
      requires 1 <= |head| <= 2 && 3 <= b.Length
      modifies b
      ensures b[..1 + |head|] == [FLAG] + head
    {
      b[0] := FLAG;
      b[1] := head[0];
      if |head| == 2 {
        b[2] := head[1];
      }
    }

    /**
     * `pppOutputAppend`: one payload octet, escaped when it is FLAG or ESCAPE
     * (the control-character map is empty), dropped once fewer than two
     * octets of room remain.
     */
    method OutputAppend(ch: byte)
      requires Valid()
      modifies this, buf
      ensures Valid() && buf == old(buf) && max == old(max)
      ensures mode == old(mode) && delivered == old(delivered)
      ensures badCRC == old(badCRC) && tooShort == old(tooShort) && ok == old(ok)
      ensures EncView() == EncAppend(old(EncView()), max, ch)
    {
      if ptr + 1 >= max {
        return;
      }
      fcs := Fcs(fcs, ch);
      var c := ch;
      if ch == ESCAPE || ch == FLAG {
        buf[ptr] := ESCAPE;
        ptr := ptr + 1;
        c := ch ^ TRANS;
      }
      buf[ptr] := c;
      ptr := ptr + 1;
    }

    /**
     * `pppOutputEnd`, corrected: the complemented FCS, low octet first, then the
     * closing flag only when it still fits, so the buffer is never overrun.
     */
    method OutputEnd()
      requires Valid()
      modifies this, buf
      ensures Valid() && buf == old(buf) && max == old(max)
      ensures mode == old(mode) && delivered == old(delivered)
      ensures buf[..ptr] == EncEnd(old(EncView()), max)
    {
      var f := fcs;
      ghost var t := Trailer(f);
      OutputAppend((!f & 0xff) as byte);
      OutputAppend((!f >> 8) as byte);
      if ptr < max {
        buf[ptr] := FLAG;
        ptr := ptr + 1;
      }
    }

    /** `pppInputBegin`: statistics cleared, hunting for a flag. */
    method InputBegin()
      requires Valid()
      modifies this
      ensures Valid() && buf == old(buf) && max == old(max)
      ensures DecView() == DecBegin(old(delivered)) && ok == 0
    {
      badCRC, tooShort, ok := 0, 0, 0;
      fcs := INITFCS;
      mode := Hunt;
      ptr := 0;
    }

    /** The FLAG branch of `pppInputAppend`: check length and FCS, then parse and deliver, and start over. */
    method CloseFrame()
      requires Valid()
      modifies this
      ensures Valid() && buf == old(buf) && max == old(max) && ok == old(ok)
      ensures DecView() == DecStep(old(DecView()), max, FLAG)
    {
      var len := ptr;
      if len < 2 {
        if len > 0 {
          tooShort := tooShort + 1;
        }
        InputReset();
        return;
      }
      if fcs != GOODFCS {
        badCRC := badCRC + 1;
        InputReset();
        return;
      }
      assert buf[..ptr - 2] == buf[..ptr][..ptr - 2];
      var parsed := ParseBuffer(ptr - 2);
      match parsed
      case Deliver(protocol, payload) =>
        delivered := delivered + [Packet(protocol, payload)];
        InputReset();
      case Short =>
        tooShort := tooShort + 1;
        InputReset();
    }

    /** Strips the optional address and control fields and reads the protocol field of the frame in `buf[..end]`. */
    method ParseBuffer(end: nat) returns (r: Parsed)
      requires end <= buf.Length
      ensures r == ParseFrame(buf[..end])
    {
      ghost var data := buf[..end];
      var start, len := 0, end;
      if len >= 2 && buf[0] == ALLSTATIONS && buf[1] == UI {
        start := 2;
        len := len - 2;
      }
      ghost var body := buf[start..end];
      assert body == (if |data| >= 2 && data[0] == ALLSTATIONS && data[1] == UI then data[2..] else data);
      if len >= 1 && buf[start] & 1 == 1 {
        assert body[0] == buf[start] && body[1..] == buf[start + 1..end];
        return Deliver(buf[start] as bv16, buf[start + 1..end]);
      } else if len >= 2 {
        assert body[0] == buf[start] && body[1] == buf[start + 1] && body[2..] == buf[start + 2..end];
        return Deliver(((buf[start] as bv16) << 8) | (buf[start + 1] as bv16), buf[start + 2..end]);
      }
      return Short;
    }

    /** `pppInputReset`: an empty frame in NORMAL mode. */
    method InputReset()
      requires Valid()
      modifies this
      ensures Valid() && buf == old(buf) && max == old(max) && ok == old(ok)
      ensures DecView() == DecReset(old(DecView()))
    {
      fcs := INITFCS;
      mode := Normal;
      ptr := 0;
    }

    /**
     * `pppInputAppend`: one received octet. A flag closes the frame: too short,
     * bad FCS, or FCS dropped, address/control stripped, protocol parsed and the
     * hook called; other octets are unescaped and stored while room remains.
     */
    method InputAppend(ch: byte)
      requires Valid()
      modifies this, buf
      ensures Valid() && buf == old(buf) && max == old(max) && ok == old(ok)
      ensures DecView() == DecStep(old(DecView()), max, ch)
    {
      if ch == FLAG {
        CloseFrame();
        return;
      }
      match mode
      case Normal =>
        if ch == ESCAPE {
          mode := Esc;
          return;
        }
        Store(ch);
      case Esc =>
        mode := Normal;
        Store(ch ^ TRANS);
      case _ =>
    }

    /** The tail of `pppInputAppend`: store one octet while fewer than `max` are held. */
    method Store(ch: byte)
      requires Valid()
      modifies this, buf
      ensures Valid() && buf == old(buf) && max == old(max) && ok == old(ok)
      ensures DecView() == DecStore(old(DecView()), max, ch)
    {
      if ptr >= max {
        return;
      }
      fcs := Fcs(fcs, ch);
      buf[ptr] := ch;
      ptr := ptr + 1;
    }
  }

  /**
   * The HDLC bridge's send path: begin with a protocol, append every payload
   * octet, end, and transmit the buffer. The transmitted octets are the
   * encoder's output, which fits the buffer and is the RFC 1662 frame whenever
   * that frame fits.
   */
  method HdlcSend(ctx: PppContext, protocol: bv16, payload: seq<byte>) returns (sent: seq<byte>)
    requires ctx.Valid() && ctx.max >= 3
    modifies ctx, ctx.buf
    ensures ctx.Valid() && ctx.buf == old(ctx.buf) && ctx.max == old(ctx.max)
    ensures sent == Encode(protocol, payload, ctx.max)
  {
    ctx.OutputBegin(protocol);
    var i := 0;
    while i < |payload|
      invariant 0 <= i <= |payload|
      invariant ctx.Valid() && ctx.buf == old(ctx.buf) && ctx.max == old(ctx.max)
      invariant ctx.EncView() == EncAppendAll(EncBegin(protocol), ctx.max, payload[..i])
    {
      ctx.OutputAppend(payload[i]);
      assert payload[..i + 1][..i] == payload[..i];
      i := i + 1;
    }
    assert payload[..i] == payload;
    ctx.OutputEnd();
    sent := ctx.buf[..ctx.ptr];
  }
}
