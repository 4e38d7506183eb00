/** The block format: what the encoder puts where, and how a decoder reads it (adpcm-lib.c). */
module AdpcmBlocks {
  import opened Bytes
  import opened AdpcmSteps
  import opened AdpcmCodecs

  /** Where byte m of channel h is: after a four-byte header per channel, chunks of four bytes per channel. */
  function Where(channels: int, h: nat, m: nat): nat
  {
    Times(4 + m / 4 * 4, channels) + 4 * h + m % 4
  }

  /** The number of bytes of a block of k chunks. */
  function Size(channels: int, k: nat): nat
  {
    Times(4 + 4 * k, channels)
  }

  lemma WhereInside(channels: int, k: nat, h: nat, m: nat)
    requires channels == 1 || channels == 2
    requires h < channels && m < 4 * k
    ensures Times(4, channels) <= Where(channels, h, m) < Size(channels, k)
  {
  }

  /** No two bytes share a place. */
  lemma WhereApart(channels: int, h: nat, m: nat, h2: nat, m2: nat)
    requires channels == 1 || channels == 2
    requires h < channels && h2 < channels && Where(channels, h, m) == Where(channels, h2, m2)
    ensures h == h2 && m == m2
  {
  }

  function Low(b: byte): Nibble
  {
    b % 16
  }

  function High(b: byte): Nibble
  {
    b / 16
  }

  /** A header's sample, read as a signed 16-bit number. */
  function HeadPcm(b0: byte, b1: byte): Sample
  {
    var u := b0 + 256 * b1;
    if u < 32768 then u else u - 65536
  }

  lemma HeadPcmInverse(pcm: Sample)
    ensures 0 <= pcm / 256 % 256 < 256 && 0 <= pcm % 256 < 256
    ensures HeadPcm(pcm % 256, pcm / 256 % 256) == pcm
  {
  }

  /** What a decoder accepts as a block of k chunks. */
  predicate Readable(block: seq<byte>, channels: int, k: nat)
  {
    (channels == 1 || channels == 2) && Size(channels, k) <= |block|
    && forall h: nat :: h < channels ==> HeaderOk(block, h)
  }

  predicate HeaderOk(block: seq<byte>, h: nat)
  {
    4 * h + 3 < |block| && block[4 * h + 2] <= 88 && block[4 * h + 3] == 0
  }

  /** The code of sample t of channel h, as it stands in the block. */
  function NibbleAt(block: seq<byte>, channels: int, k: nat, h: nat, t: nat): Nibble
    requires Readable(block, channels, k) && h < channels && t < 8 * k
  {
    WhereInside(channels, k, h, t / 2);
    var b := block[Where(channels, h, t / 2)];
    if t % 2 == 0 then Low(b) else High(b)
  }

  /** Four bytes of a block as one number, the first one at the bottom. */
  function Word(block: seq<byte>, j: nat): nat
    requires 4 * j + 3 < |block|
  {
    block[4 * j] as nat + 0x100 * block[4 * j + 1] as nat + 0x1_0000 * block[4 * j + 2] as nat
    + 0x100_0000 * block[4 * j + 3] as nat
  }

  /** The r-th digit of a number to base 16, from the bottom. */
  function Hex(w: nat, r: nat): nat
    decreases r
  {
    if r == 0 then w % 16 else Hex(w / 16, r - 1)
  }

  /** A block is little-endian words, channel by channel in turn: first the headers, then the codes of eight samples to
      a word, the earliest at the bottom. */
  lemma {:induction false} NibbleInWord(block: seq<byte>, channels: int, k: nat, h: nat, t: nat)
    requires Readable(block, channels, k) && h < channels && t < 8 * k
    ensures var j := channels + t / 8 * channels + h;
            4 * j + 3 < |block| && NibbleAt(block, channels, k, h, t) == Hex(Word(block, j), t % 8)
  {
    hide Where, Low, High, Hex, HeaderOk, Word;
    var j, r := channels + t / 8 * channels + h, t / 2 % 4;
    WordPlace(channels, k, h, t);
    assert block[4 * j + r] == block[Where(channels, h, t / 2)];
    WordDigits(block, j, t % 8);
  }

  lemma {:induction false} WordDigits(block: seq<byte>, j: nat, r: nat)
    requires 4 * j + 3 < |block| && r < 8
    ensures Hex(Word(block, j), r) == if r % 2 == 0 then Low(block[4 * j + r / 2]) else High(block[4 * j + r / 2])
  {
    Digits(block[4 * j], block[4 * j + 1], block[4 * j + 2], block[4 * j + 3], r);
    hide Hex, Low, High;
  }

  lemma WordPlace(channels: int, k: nat, h: nat, t: nat)
    requires (channels == 1 || channels == 2) && h < channels && t < 8 * k
    ensures var j := channels + t / 8 * channels + h;
            4 * j + t / 2 % 4 == Where(channels, h, t / 2) && 4 * j + 3 < Size(channels, k)
  {
    assert t / 2 / 4 == t / 8;
  }

  lemma {:induction false} Digits(b0: byte, b1: byte, b2: byte, b3: byte, r: nat)
    requires r < 8
    ensures var w: nat := b0 as nat + 0x100 * b1 as nat + 0x1_0000 * b2 as nat + 0x100_0000 * b3 as nat;
            var b := if r / 2 == 0 then b0 else if r / 2 == 1 then b1 else if r / 2 == 2 then b2 else b3;
            Hex(w, r) == if r % 2 == 0 then Low(b) else High(b)
  {
    hide Hex, Low, High;
    var w2: nat := b2 as nat + 0x100 * b3 as nat;
    var w1: nat := b1 as nat + 0x100 * w2;
    BottomByte(b0, w1, r);
    if r >= 2 {
      BottomByte(b1, w2, r - 2);
    }
    if r >= 4 {
      BottomByte(b2, b3, r - 4);
    }
    if r >= 6 {
      BottomByte(b3, 0, r - 6);
    }
  }

  lemma BottomByte(b: byte, above: nat, r: nat)
    ensures r == 0 ==> Hex(b + 0x100 * above, r) == Low(b)
    ensures r == 1 ==> Hex(b + 0x100 * above, r) == High(b)
    ensures r >= 2 ==> Hex(b + 0x100 * above, r) == Hex(above, r - 2)
  {
    var w: nat := b as nat + 0x100 * above;
    assert w / 16 == b / 16 + 16 * above && w / 16 / 16 == above;
    assert r == 1 ==> Hex(w, r) == w / 16 % 16;
    assert r >= 2 ==> Hex(w, r) == Hex(w / 16, r - 1) == Hex(w / 16 / 16, r - 2);
  }

  /** A header's word holds the sample in its low half, as a signed number, then the index, and a zero on top. */
  lemma StartInWord(block: seq<byte>, channels: int, k: nat, h: nat)
    requires Readable(block, channels, k) && h < channels
    ensures var w, c := Word(block, h), Start(block, h);
            && c.pcm == (if w % 0x1_0000 < 0x8000 then w % 0x1_0000 else w % 0x1_0000 - 0x1_0000)
            && c.index == w / 0x1_0000 && c.index <= 88
  {
    assert HeaderOk(block, h);
  }

  function Start(block: seq<byte>, h: nat): Cursor
    requires HeaderOk(block, h)
  {
    Cursor(HeadPcm(block[4 * h], block[4 * h + 1]), block[4 * h + 2])
  }

  /** A decoder's state of channel h after t codes. */
  function Decoded(block: seq<byte>, channels: int, k: nat, h: nat, t: nat): Cursor
    requires Readable(block, channels, k) && h < channels && t <= 8 * k
    decreases t
  {
    if t == 0 then Start(block, h)
    else Advance(Decoded(block, channels, k, h, t - 1), NibbleAt(block, channels, k, h, t - 1))
  }

  /** The byte m of channel h: two codes, the earlier one in the low half. */
  function CodeByte(cfg: Config, ch: Channel, buf: seq<Sample>, k: nat, h: nat, m: nat): byte
    requires Enough(cfg, buf, k) && h < cfg.channels && m < 4 * k
  {
    CodeAt(cfg, ch, buf, k, h, 2 * m) + 16 * CodeAt(cfg, ch, buf, k, h, 2 * m + 1)
  }

  /** A block carries, for each channel, a starting state and the codes of its samples. */
  predicate Carries(block: seq<byte>, cfg: Config, chs: seq<Channel>, buf: seq<Sample>, k: nat)
    requires Enough(cfg, buf, k) && cfg.channels <= |chs|
  {
    |block| == Size(cfg.channels, k)
    && (forall h: nat :: h < cfg.channels ==> HeaderOk(block, h) && Start(block, h) == chs[h].cursor)
    && forall h: nat, m: nat :: h < cfg.channels && m < 4 * k ==> ByteIs(block, cfg, chs[h], buf, k, h, m)
  }

  predicate ByteIs(block: seq<byte>, cfg: Config, ch: Channel, buf: seq<Sample>, k: nat, h: nat, m: nat)
    requires Enough(cfg, buf, k) && h < cfg.channels && m < 4 * k
  {
    Where(cfg.channels, h, m) < |block| && block[Where(cfg.channels, h, m)] == CodeByte(cfg, ch, buf, k, h, m)
  }

  lemma NibbleIsCode(block: seq<byte>, cfg: Config, chs: seq<Channel>, buf: seq<Sample>, k: nat, h: nat, t: nat)
    requires Enough(cfg, buf, k) && cfg.channels <= |chs| && Carries(block, cfg, chs, buf, k)
    requires h < cfg.channels && t < 8 * k
    ensures Readable(block, cfg.channels, k)
    ensures NibbleAt(block, cfg.channels, k, h, t) == CodeAt(cfg, chs[h], buf, k, h, t)
  {
    hide CodeAt, Where, Start;
    assert ByteIs(block, cfg, chs[h], buf, k, h, t / 2);
    WhereInside(cfg.channels, k, h, t / 2);
    assert t == 2 * (t / 2) || t == 2 * (t / 2) + 1;
  }

  /** Lockstep: after any number of codes, a decoder of the block is in the state the encoder was in. */
  lemma {:induction false} Lockstep(block: seq<byte>, cfg: Config, chs: seq<Channel>, buf: seq<Sample>, k: nat,
                                    h: nat, t: nat)
    requires Enough(cfg, buf, k) && cfg.channels <= |chs| && Carries(block, cfg, chs, buf, k)
    requires h < cfg.channels && t <= 8 * k
    ensures Readable(block, cfg.channels, k)
    ensures Decoded(block, cfg.channels, k, h, t) == Trace(cfg, chs[h], buf, k, h, t).cursor
    decreases t
  {
    hide Advance, NibbleAt, CodeAt, Trace, Decoded, Carries, Readable, Start, Enough;
    CarriedStart(block, cfg, chs, buf, k, h);
    if t > 0 {
      Lockstep(block, cfg, chs, buf, k, h, t - 1);
      TraceStep(cfg, chs[h], buf, k, h, t - 1);
      NibbleIsCode(block, cfg, chs, buf, k, h, t - 1);
      DecodedStep(block, cfg.channels, k, h, t - 1);
    }
  }

  lemma {:induction false} CarriedStart(block: seq<byte>, cfg: Config, chs: seq<Channel>, buf: seq<Sample>, k: nat,
                                        h: nat)
    requires Enough(cfg, buf, k) && cfg.channels <= |chs| && Carries(block, cfg, chs, buf, k) && h < cfg.channels
    ensures Readable(block, cfg.channels, k)
    ensures Decoded(block, cfg.channels, k, h, 0) == Trace(cfg, chs[h], buf, k, h, 0).cursor
  {
    hide ByteIs, HeaderOk;
  }

  lemma DecodedStep(block: seq<byte>, channels: int, k: nat, h: nat, t: nat)
    requires Readable(block, channels, k) && h < channels && t < 8 * k
    ensures Decoded(block, channels, k, h, t + 1)
         == Advance(Decoded(block, channels, k, h, t), NibbleAt(block, channels, k, h, t))
  {
    hide Readable, NibbleAt, Advance;
  }

  /** Without noise shaping and look-ahead, each decoded sample is within about an eighth of the current step of its
      input, as long as the input is less than two steps away from the sample decoded before it. Errors do not add up:
      the bound is the same however many samples went before. */
  lemma {:induction false} DecodedIsClose(block: seq<byte>, cfg: Config, chs: seq<Channel>, buf: seq<Sample>, k: nat,
                                          h: nat, t: nat)
    requires Enough(cfg, buf, k) && cfg.channels <= |chs| && Carries(block, cfg, chs, buf, k)
    requires cfg.shaping == Off && cfg.lookahead == 0
    requires h < cfg.channels && t < 8 * k
    ensures Readable(block, cfg.channels, k) && Position(cfg.channels, h, t) < |buf|
    ensures var c := Decoded(block, cfg.channels, k, h, t);
            var sample := buf[Position(cfg.channels, h, t)];
            var step := Step(c.index);
            -2 * step < sample - c.pcm < 2 * step ==>
              (var e := Decoded(block, cfg.channels, k, h, t + 1).pcm - sample;
               8 * e < step + 17 && 8 * -e < step + 17)
  {
    Lockstep(block, cfg, chs, buf, k, h, t);
    NibbleIsCode(block, cfg, chs, buf, k, h, t);
    InReach(cfg, buf, k, h, t);
    var c := Decoded(block, cfg.channels, k, h, t);
    var sample := buf[Position(cfg.channels, h, t)];
    assert CodeAt(cfg, chs[h], buf, k, h, t) == Greedy(c, sample);
    if -2 * Step(c.index) < sample - c.pcm < 2 * Step(c.index) {
      GreedyBound(c, sample);
    }
    hide Advance, Greedy, Step, NibbleAt, CodeAt;
  }
}
