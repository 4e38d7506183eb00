/** The 10-byte packet header of rtp_packet.cpp. */
module RtpPackets {
  import opened Bytes

  const HEADSIZE := 10        // RTP_PACKET_HEAD_SIZE
  const CMD_POST := 1
  const CMD_RES_REPOST := 2

  datatype Header = Header(first: nat, comp: nat, cmd: nat, tail: nat, payloadType: nat,
                           seqno: nat, timestamp: nat, ssrc: nat)

  /** Every field fits the bits it has in the header. */
  predicate InRange(h: Header)
  {
    && h.first < 2 && h.comp < 2 && h.cmd < 8 && h.tail < 4 && h.payloadType < 8
    && h.seqno < 0x1_0000 && h.timestamp < 0x1_0000 && h.ssrc < 0x1_0000_0000
  }

  /** The bytes of a header; fields wider than their bits lose the excess, as in the C++ masks and shifts. */
  function Encode(h: Header): (r: seq<byte>)
    ensures |r| == HEADSIZE
  {
    [ h.first % 2 * 128 + h.comp % 2 * 64,
      h.cmd % 8 * 32 + h.tail % 4 * 8 + h.payloadType % 8,
      h.seqno / 0x100 % 0x100, h.seqno % 0x100,
      h.timestamp / 0x100 % 0x100, h.timestamp % 0x100,
      h.ssrc / 0x100_0000 % 0x100, h.ssrc / 0x1_0000 % 0x100, h.ssrc / 0x100 % 0x100, h.ssrc % 0x100 ]
  }

  // The pkt* getters, which answer 0 when fewer than 10 bytes arrived.

  function PktFirst(d: seq<byte>): nat { if |d| < HEADSIZE then 0 else d[0] as nat / 128 % 2 }
  function PktComp(d: seq<byte>): nat { if |d| < HEADSIZE then 0 else d[0] as nat / 64 % 2 }
  function PktCmd(d: seq<byte>): nat { if |d| < HEADSIZE then 0 else d[1] as nat / 32 }
  function PktPayloadType(d: seq<byte>): nat { if |d| < HEADSIZE then 0 else d[1] as nat % 8 }
  function PktSeq(d: seq<byte>): nat { if |d| < HEADSIZE then 0 else d[2] as nat * 0x100 + d[3] as nat }
  function PktTimestamp(d: seq<byte>): nat { if |d| < HEADSIZE then 0 else d[4] as nat * 0x100 + d[5] as nat }

  function PktSsrc(d: seq<byte>): nat
  {
    if |d| < HEADSIZE then 0
    else d[6] as nat * 0x100_0000 + d[7] as nat * 0x1_0000 + d[8] as nat * 0x100 + d[9] as nat
  }

  /** pktFlag asserts that the header is complete. */
  function PktFlag(d: seq<byte>): nat
    requires HEADSIZE <= |d|
  {
    d[1] as nat / 8 % 4
  }

  /** pktSetCmd on the bytes of a header. */
  function SetCmd(d: seq<byte>, value: nat): seq<byte>
    requires HEADSIZE <= |d|
  {
    d[1 := value % 8 * 32 + d[1] as nat % 32]
  }

  /** Every field can be read back from the encoded header. */
  lemma HeaderRoundTrip(h: Header)
    requires InRange(h)
    ensures var d := Encode(h);
            Header(PktFirst(d), PktComp(d), PktCmd(d), PktFlag(d), PktPayloadType(d),
                   PktSeq(d), PktTimestamp(d), PktSsrc(d)) == h
  {
    FlagBits(h);
    TwoBytes(h);
    FourBytes(h.ssrc);
  }

  lemma FlagBits(h: Header)
    requires InRange(h)
    ensures var d := Encode(h);
            && PktFirst(d) == h.first && PktComp(d) == h.comp
            && PktCmd(d) == h.cmd && PktFlag(d) == h.tail && PktPayloadType(d) == h.payloadType
  {
    FirstByte(h.first, h.comp);
    SecondByte(h.cmd, h.tail, h.payloadType);
  }

  lemma FirstByte(f: nat, c: nat)
    requires f < 2 && c < 2
    ensures var b := f % 2 * 128 + c % 2 * 64; b / 128 % 2 == f && b / 64 % 2 == c
  {
  }

  lemma SecondByte(c: nat, t: nat, p: nat)
    requires c < 8 && t < 4 && p < 8
    ensures var b := c % 8 * 32 + t % 4 * 8 + p % 8; b / 32 == c && b / 8 % 4 == t && b % 8 == p
  {
    var b := c * 32 + t * 8 + p;
    assert b / 8 == c * 4 + t;
  }

  lemma TwoBytes(h: Header)
    requires h.seqno < 0x1_0000 && h.timestamp < 0x1_0000
    ensures PktSeq(Encode(h)) == h.seqno && PktTimestamp(Encode(h)) == h.timestamp
  {
  }

  lemma FourBytes(v: nat)
    requires v < 0x1_0000_0000
    ensures v == v / 0x100_0000 % 0x100 * 0x100_0000 + v / 0x1_0000 % 0x100 * 0x1_0000 + v / 0x100 % 0x100 * 0x100
            + v % 0x100
  {
    assert v / 0x100 / 0x100 == v / 0x1_0000;
    assert v / 0x1_0000 / 0x100 == v / 0x100_0000;
  }

  /** Bytes as one number, the first one on top. */
  function BigEndian(d: seq<byte>): nat
  {
    if d == [] then 0 else 0x100 * BigEndian(d[..|d| - 1]) + d[|d| - 1]
  }

  /** On the wire the header is one big-endian number of 80 bits: first, comp, six unused bits, cmd, tail, type, and
      then the number, the time stamp and the source, in that order. */
  lemma Layout(h: Header)
    requires InRange(h)
    ensures BigEndian(Encode(h))
         == ((((((h.first * 2 + h.comp) * 64 * 8 + h.cmd) * 4 + h.tail) * 8 + h.payloadType)
              * 0x1_0000 + h.seqno) * 0x1_0000 + h.timestamp) * 0x1_0000_0000 + h.ssrc
  {
    hide BigEndian, Encode;
    var d := Encode(h);
    Words(d);
    hide PktSeq, PktTimestamp, PktSsrc;
    TwoBytes(h);
    TopWord(h);
    LowWord(h);
  }

  lemma TopWord(h: Header)
    requires InRange(h)
    ensures var d := Encode(h);
            d[0] as nat == (h.first * 2 + h.comp) * 64 && d[1] as nat == (h.cmd * 4 + h.tail) * 8 + h.payloadType
  {
    assert h.first % 2 == h.first && h.comp % 2 == h.comp && h.cmd % 8 == h.cmd && h.tail % 4 == h.tail;
  }

  lemma LowWord(h: Header)
    requires InRange(h)
    ensures PktSsrc(Encode(h)) == h.ssrc
  {
    FourBytes(h.ssrc);
  }

  lemma {:induction false} Words(d: seq<byte>)
    requires |d| == 10
    ensures var top: nat := d[0] as nat * 0x100 + d[1];
            BigEndian(d) == ((top * 0x1_0000 + PktSeq(d)) * 0x1_0000 + PktTimestamp(d)) * 0x1_0000_0000 + PktSsrc(d)
  {
    hide BigEndian;
    Nothing();
    assert d[..0] == [] && d[..10] == d;
    Shifted(d, 0);
    Shifted(d, 1);
    Shifted(d, 2);
    Shifted(d, 3);
    Shifted(d, 4);
    Shifted(d, 5);
    Shifted(d, 6);
    Shifted(d, 7);
    Shifted(d, 8);
    Shifted(d, 9);
  }

  lemma Nothing()
    ensures BigEndian([]) == 0
  {
  }

  /** Of any ten bytes, from whoever they come: the getters cut the first two into their fields, but for six bits that
      are unused, and read the others big-endian. */
  lemma GettersRead(d: seq<byte>)
    requires |d| == 10
    ensures PktFirst(d) < 2 && PktComp(d) < 2 && PktCmd(d) < 8 && PktFlag(d) < 4 && PktPayloadType(d) < 8
    ensures d[0] as nat / 64 == PktFirst(d) * 2 + PktComp(d)
    ensures d[1] as nat == (PktCmd(d) * 4 + PktFlag(d)) * 8 + PktPayloadType(d)
    ensures BigEndian(d[2..4]) == PktSeq(d) && BigEndian(d[4..6]) == PktTimestamp(d)
    ensures BigEndian(d[6..10]) == PktSsrc(d)
  {
    TwoBigEndian(d[2..4]);
    TwoBigEndian(d[4..6]);
    FourBigEndian(d[6..10]);
    hide BigEndian;
  }

  lemma {:induction false} TwoBigEndian(d: seq<byte>)
    requires |d| == 2
    ensures BigEndian(d) == d[0] as nat * 0x100 + d[1]
  {
    hide BigEndian;
    Nothing();
    assert d[..0] == [] && d[..2] == d;
    Shifted(d, 0);
    Shifted(d, 1);
  }

  lemma {:induction false} FourBigEndian(d: seq<byte>)
    requires |d| == 4
    ensures BigEndian(d) == d[0] as nat * 0x100_0000 + d[1] as nat * 0x1_0000 + d[2] as nat * 0x100 + d[3]
  {
    hide BigEndian;
    TwoBigEndian(d[..2]);
    assert d[..4] == d;
    Shifted(d, 2);
    Shifted(d, 3);
  }

  /** Of fewer than ten bytes they make zeros. */
  lemma ShortReads(d: seq<byte>)
    requires |d| < 10
    ensures PktFirst(d) == PktComp(d) == PktCmd(d) == PktPayloadType(d) == 0
    ensures PktSeq(d) == PktTimestamp(d) == PktSsrc(d) == 0
  {
  }

  lemma Shifted(d: seq<byte>, n: nat)
    requires n < |d|
    ensures BigEndian(d[..n + 1]) == 0x100 * BigEndian(d[..n]) + d[n]
  {
    assert d[..n + 1][..n] == d[..n];
  }

  /** pktSetCmd changes the cmd field and nothing else. */
  lemma SetCmdOnly(h: Header, value: nat)
    ensures SetCmd(Encode(h), value) == Encode(h.(cmd := value))
  {
  }

  lemma SetCmdTwice(d: seq<byte>, v: nat, w: nat)
    requires HEADSIZE <= |d|
    ensures SetCmd(SetCmd(d, v), w) == SetCmd(d, w)
  {
    var r := d[1] as nat % 32;
    assert (v % 8 * 32 + r) % 32 == r;
  }

  /** rtpPacketHead writes the header into the first ten bytes of a buffer. */
  method RtpPacketHead(dst: array<byte>, h: Header)
    requires HEADSIZE <= dst.Length
    modifies dst
    ensures dst[..HEADSIZE] == Encode(h) && dst[HEADSIZE..] == old(dst[HEADSIZE..])
  {
    dst[0] := h.first % 2 * 128 + h.comp % 2 * 64;
    dst[1] := h.cmd % 8 * 32 + h.tail % 4 * 8 + h.payloadType % 8;
    BigEndian16(dst, 2, h.seqno);
    BigEndian16(dst, 4, h.timestamp);
    dst[6] := h.ssrc / 0x100_0000 % 0x100;
    dst[7] := h.ssrc / 0x1_0000 % 0x100;
    BigEndian16(dst, 8, h.ssrc);
  }

  /** toolsIntBigEndian for 16 bits. */
  method BigEndian16(d: array<byte>, at: nat, val: nat)
    requires at + 2 <= d.Length
    modifies d
    ensures d[at] == val / 0x100 % 0x100 && d[at + 1] == val % 0x100
    ensures forall i :: 0 <= i < d.Length && i != at && i != at + 1 ==> d[i] == old(d[i])
  {
    d[at] := val / 0x100 % 0x100;
    d[at + 1] := val % 0x100;
  }
}
