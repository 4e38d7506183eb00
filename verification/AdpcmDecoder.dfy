/** adpcm_decode_block of adpcm-lib.c. */
module AdpcmDecoders {
  import opened Bytes
  import opened AdpcmSteps
  import opened AdpcmCodecs
  import opened AdpcmBlocks

  /** The sample in its place in the output is the one the block describes. */
  predicate SampleIs(out: seq<Sample>, block: seq<byte>, channels: int, k: nat, h: nat, t: nat)
    requires Readable(block, channels, k) && h < channels && t <= 8 * k
  {
    Position(channels, h, t) < |out| && out[Position(channels, h, t)] == Decoded(block, channels, k, h, t).pcm
  }

  /** What a decoder does with any bytes: it gives up on a block without room for the headers, or with a bad one. */
  predicate Decodable(inbuf: seq<byte>, channels: int)
    requires channels == 1 || channels == 2
  {
    Times(4, channels) <= |inbuf| && forall h: nat :: h < channels ==> HeaderOk(inbuf, h)
  }

  /** The number of whole chunks behind the headers. */
  function Chunks(size: nat, channels: int): nat
    requires (channels == 1 || channels == 2) && Times(4, channels) <= size
  {
    (size - Times(4, channels)) / Times(4, channels)
  }

  /** A block is given up exactly if it has no room for a header of four bytes to each channel, or one of them has an
      index above 88 or a fourth byte that is not zero; the chunks of four bytes to each channel are counted behind
      them. */
  lemma DecodableExactly(inbuf: seq<byte>, channels: int)
    requires channels == 1 || channels == 2
    ensures Decodable(inbuf, channels)
       <==> |inbuf| >= 4 * channels && inbuf[2] <= 88 && inbuf[3] == 0
            && (channels == 2 ==> inbuf[6] <= 88 && inbuf[7] == 0)
    ensures Decodable(inbuf, channels) ==> Chunks(|inbuf|, channels) == (|inbuf| - 4 * channels) / (4 * channels)
  {
    assert HeaderOk(inbuf, 0) <==> 3 < |inbuf| && inbuf[2] <= 88 && inbuf[3] == 0;
    assert HeaderOk(inbuf, 1) <==> 7 < |inbuf| && inbuf[6] <= 88 && inbuf[7] == 0;
  }

  lemma ChunksFit(inbuf: seq<byte>, channels: int)
    requires (channels == 1 || channels == 2) && Decodable(inbuf, channels)
    ensures Readable(inbuf, channels, Chunks(|inbuf|, channels))
  {
  }

  lemma ChunksOfSize(channels: int, k: nat)
    requires channels == 1 || channels == 2
    ensures Times(4, channels) <= Size(channels, k) && Chunks(Size(channels, k), channels) == k
  {
  }

  /** Of the output, only samples of one channel in one chunk differ. */
  ghost predicate Refilled(out: seq<Sample>, out2: seq<Sample>, channels: int, h: nat, j: nat)
  {
    |out2| == |out|
    && (forall h2: nat, t: nat ::
          h2 < channels && Position(channels, h2, t) < |out| && !(h2 == h && 8 * j < t <= 8 * j + 8) ==>
          out2[Position(channels, h2, t)] == out[Position(channels, h2, t)])
    && forall q: nat :: Position(channels, h, 8 * j + 8) < q < |out| ==> out2[q] == out[q]
  }

  /** Channel h is decoded up to sample t of chunk j, whose samples are all that differs from the output before. */
  ghost predicate Partly(out0: seq<Sample>, out: seq<Sample>, c: Cursor, block: seq<byte>, channels: int, k: nat,
                         h: nat, j: nat, t: nat)
    requires Readable(block, channels, k) && h < channels && j < k && t <= 8 * k
  {
    c == Decoded(block, channels, k, h, t) && Refilled(out0, out, channels, h, j)
    && forall x: nat :: 8 * j < x <= t ==> SampleIs(out, block, channels, k, h, x)
  }

  /** Writing the next sample of a channel. */
  lemma {:induction false} OneWritten(out0: seq<Sample>, out: seq<Sample>, out2: seq<Sample>, c: Cursor,
                                      block: seq<byte>, channels: int, k: nat, h: nat, j: nat, t: nat)
    requires Readable(block, channels, k) && h < channels && j < k && 8 * j < t <= 8 * j + 8
    requires Position(channels, h, t) < |out|
    requires Partly(out0, out, c, block, channels, k, h, j, t - 1)
    requires out2 == out[Position(channels, h, t) := Decoded(block, channels, k, h, t).pcm]
    ensures Partly(out0, out2, Decoded(block, channels, k, h, t), block, channels, k, h, j, t)
  {
    hide Decoded, Refilled;
    OneRefilled(out0, out, out2, channels, h, j, t);
    forall x: nat | 8 * j < x <= t ensures SampleIs(out2, block, channels, k, h, x) {
      if x < t {
        assert SampleIs(out, block, channels, k, h, x);
      }
    }
  }

  lemma OneRefilled(out0: seq<Sample>, out: seq<Sample>, out2: seq<Sample>, channels: int, h: nat, j: nat, t: nat)
    requires (channels == 1 || channels == 2) && h < channels && 8 * j < t <= 8 * j + 8
    requires Position(channels, h, t) < |out| == |out2|
    requires out2 == out[Position(channels, h, t) := out2[Position(channels, h, t)]]
    requires Refilled(out0, out, channels, h, j)
    ensures Refilled(out0, out2, channels, h, j)
  {
    assert Position(channels, h, t) <= Position(channels, h, 8 * j + 8);
    forall h2: nat, x: nat | h2 < channels && Position(channels, h2, x) < |out| && !(h2 == h && 8 * j < x <= 8 * j + 8)
      ensures out2[Position(channels, h2, x)] == out0[Position(channels, h2, x)]
    {
      PlacesDiffer(channels, h2, x, h, t);
      hide Position;
      assert out[Position(channels, h2, x)] == out0[Position(channels, h2, x)];
    }
  }

  lemma PlacesDiffer(channels: int, h: nat, t: nat, h2: nat, t2: nat)
    requires (channels == 1 || channels == 2) && h < channels && h2 < channels && (h != h2 || t != t2)
    ensures Position(channels, h, t) != Position(channels, h2, t2)
  {
  }

  /** Channel h has been decoded up to the end of chunk j. */
  ghost predicate Reached(out: seq<Sample>, c: Cursor, block: seq<byte>, channels: int, k: nat, h: nat, j: nat)
    requires Readable(block, channels, k) && h < channels && j <= k
  {
    && c == Decoded(block, channels, k, h, 8 * j)
    && forall t: nat :: t <= 8 * j ==> SampleIs(out, block, channels, k, h, t)
  }

  /** All channels have been decoded up to chunk j, and those below ch one chunk further. */
  ghost predicate Advanced(out: seq<Sample>, cs: seq<Cursor>, block: seq<byte>, channels: int, k: nat, j: nat, ch: nat)
    requires Readable(block, channels, k) && |cs| == channels && j <= k
  {
    (ch > 0 ==> j < k)
    && forall h: nat :: h < channels ==> Reached(out, cs[h], block, channels, k, h, if h < ch then j + 1 else j)
  }

  lemma StillReached(out: seq<Sample>, out2: seq<Sample>, c: Cursor, block: seq<byte>, channels: int, k: nat, h: nat,
                     j: nat, h2: nat, j2: nat)
    requires Readable(block, channels, k) && h < channels && h2 < channels && h2 != h && j < k && j2 <= k
    requires Reached(out, c, block, channels, k, h2, j2) && Refilled(out, out2, channels, h, j)
    ensures Reached(out2, c, block, channels, k, h2, j2)
  {
    hide Decoded, Readable, Position;
    forall t: nat | t <= 8 * j2 ensures SampleIs(out2, block, channels, k, h2, t) {
      assert SampleIs(out, block, channels, k, h2, t);
    }
  }

  lemma {:induction false} NowReached(out: seq<Sample>, out2: seq<Sample>, c: Cursor, block: seq<byte>, channels: int,
                                      k: nat, h: nat, j: nat)
    requires Readable(block, channels, k) && h < channels && j < k
    requires Reached(out, c, block, channels, k, h, j) && Refilled(out, out2, channels, h, j)
    requires forall t: nat :: 8 * j < t <= 8 * j + 8 ==> SampleIs(out2, block, channels, k, h, t)
    ensures Reached(out2, Decoded(block, channels, k, h, 8 * j + 8), block, channels, k, h, j + 1)
  {
    hide Decoded, Readable, Position;
    forall t: nat | t <= 8 * j + 8 ensures SampleIs(out2, block, channels, k, h, t) {
      if t <= 8 * j {
        assert SampleIs(out, block, channels, k, h, t);
      }
    }
  }

  lemma {:induction false} GroupAdvances(out: seq<Sample>, out2: seq<Sample>, cs: seq<Cursor>, cs2: seq<Cursor>,
                                         block: seq<byte>, channels: int, k: nat, j: nat, ch: nat)
    requires Readable(block, channels, k) && |cs| == channels && ch < channels && j < k
    requires Advanced(out, cs, block, channels, k, j, ch) && Refilled(out, out2, channels, ch, j)
    requires cs2 == cs[ch := Decoded(block, channels, k, ch, 8 * j + 8)]
    requires forall t: nat :: 8 * j < t <= 8 * j + 8 ==> SampleIs(out2, block, channels, k, ch, t)
    ensures Advanced(out2, cs2, block, channels, k, j, ch + 1)
  {
    hide Decoded, Refilled, SampleIs, Readable;
    forall h: nat | h < channels
      ensures Reached(out2, cs2[h], block, channels, k, h, if h < ch + 1 then j + 1 else j)
    {
      assert Reached(out, cs[h], block, channels, k, h, if h < ch then j + 1 else j);
      if h == ch {
        NowReached(out, out2, cs[h], block, channels, k, h, j);
      } else {
        StillReached(out, out2, cs[h], block, channels, k, ch, j, h, if h < ch then j + 1 else j);
      }
    }
  }

  lemma ChunkAdvances(out: seq<Sample>, cs: seq<Cursor>, block: seq<byte>, channels: int, k: nat, j: nat)
    requires Readable(block, channels, k) && |cs| == channels && j < k
    requires Advanced(out, cs, block, channels, k, j, channels)
    ensures Advanced(out, cs, block, channels, k, j + 1, 0)
  {
    hide Reached, Readable;
    forall h: nat | h < channels ensures Reached(out, cs[h], block, channels, k, h, j + 1) {
      assert Reached(out, cs[h], block, channels, k, h, j + 1);
    }
  }

  /** One code: the next state, whose value goes to the output. */
  method DecodeOne(outbuf: array<Sample>, o: nat, nibble: Nibble, c: Cursor,
                   ghost inbuf: seq<byte>, ghost channels: int, ghost k: nat, ghost h: nat, ghost j: nat,
                   ghost t: nat, ghost out0: seq<Sample>)
    returns (c2: Cursor)
    requires Readable(inbuf, channels, k) && h < channels && j < k && 8 * j < t <= 8 * j + 8
    requires o == Position(channels, h, t) && o < outbuf.Length
    requires nibble == NibbleAt(inbuf, channels, k, h, t - 1)
    requires Partly(out0, outbuf[..], c, inbuf, channels, k, h, j, t - 1)
    modifies outbuf
    ensures Partly(out0, outbuf[..], c2, inbuf, channels, k, h, j, t)
  {
    hide Advance, Refilled, SampleIs, NibbleAt, Readable, Position;
    c2 := Advance(c, nibble);
    ghost var out := outbuf[..];
    outbuf[o] := c2.pcm;
    assert outbuf[..] == out[o := c2.pcm];
    OneWritten(out0, out, outbuf[..], c, inbuf, channels, k, h, j, t);
  }

  lemma NibblesOf(block: seq<byte>, channels: int, k: nat, h: nat, m: nat)
    requires Readable(block, channels, k) && h < channels && m < 4 * k && Where(channels, h, m) < |block|
    ensures NibbleAt(block, channels, k, h, 2 * m) == Low(block[Where(channels, h, m)])
    ensures NibbleAt(block, channels, k, h, 2 * m + 1) == High(block[Where(channels, h, m)])
  {
    hide Low, High;
    assert 2 * m / 2 == m && (2 * m + 1) / 2 == m;
  }

  /** Where the bytes and the samples of a chunk are, from those of its first one on. */
  lemma GroupPlaces(block: seq<byte>, channels: int, k: nat, h: nat, j: nat, i: nat)
    requires Readable(block, channels, k) && h < channels && j < k && i < 4
    ensures Where(channels, h, 4 * j + i) == Where(channels, h, 4 * j) + i < |block|
    ensures Position(channels, h, 8 * j + 1) + Times(i * 2, channels) == Position(channels, h, 2 * (4 * j + i) + 1)
    ensures Position(channels, h, 8 * j + 1) + Times(i * 2 + 1, channels) == Position(channels, h, 2 * (4 * j + i) + 2)
    ensures Position(channels, h, 2 * (4 * j + i) + 1) < Position(channels, h, 2 * (4 * j + i) + 2)
    ensures Position(channels, h, 2 * (4 * j + i) + 2) <= Position(channels, h, 8 * j + 8)
  {
    WhereInside(channels, k, h, 4 * j + i);
  }

  /** One byte: two codes. */
  method DecodeByte(outbuf: array<Sample>, o: nat, o2: nat, b: byte, c: Cursor,
                    ghost inbuf: seq<byte>, ghost channels: int, ghost k: nat, ghost h: nat, ghost j: nat,
                    ghost m: nat, ghost out0: seq<Sample>)
    returns (c2: Cursor)
    requires Readable(inbuf, channels, k) && h < channels && j < k && 4 * j <= m < 4 * j + 4
    requires o == Position(channels, h, 2 * m + 1) && o2 == Position(channels, h, 2 * m + 2) && o < outbuf.Length
             && o2 < outbuf.Length
    requires Where(channels, h, m) < |inbuf| && b == inbuf[Where(channels, h, m)]
    requires Partly(out0, outbuf[..], c, inbuf, channels, k, h, j, 2 * m)
    modifies outbuf
    ensures Partly(out0, outbuf[..], c2, inbuf, channels, k, h, j, 2 * m + 2)
  {
    hide Partly, Readable, Position, Where, Low, High, NibbleAt;
    NibblesOf(inbuf, channels, k, h, m);
    c2 := DecodeOne(outbuf, o, Low(b), c, inbuf, channels, k, h, j, 2 * m + 1, out0);
    c2 := DecodeOne(outbuf, o2, High(b), c2, inbuf, channels, k, h, j, 2 * m + 2, out0);
  }

  /** The four bytes of one channel in one chunk: eight samples, a composite sample apart. */
  method DecodeGroup(outbuf: array<Sample>, o: nat, inbuf: seq<byte>, at: nat, channels: int, c: Cursor,
                     ghost k: nat, ghost h: nat, ghost j: nat, ghost out0: seq<Sample>)
    returns (c2: Cursor)
    requires Readable(inbuf, channels, k) && h < channels && j < k
    requires at == Where(channels, h, 4 * j) && o == Position(channels, h, 8 * j + 1)
    requires Position(channels, h, 8 * j + 8) < outbuf.Length
    requires Partly(out0, outbuf[..], c, inbuf, channels, k, h, j, 8 * j)
    modifies outbuf
    ensures Partly(out0, outbuf[..], c2, inbuf, channels, k, h, j, 8 * j + 8)
  {
    hide Partly, Readable, Position, Where, Times;
    c2 := c;
    for i := 0 to 4
      invariant Partly(out0, outbuf[..], c2, inbuf, channels, k, h, j, 8 * j + 2 * i)
    {
      GroupPlaces(inbuf, channels, k, h, j, i);
      c2 := DecodeByte(outbuf, o + Times(i * 2, channels), o + Times(i * 2 + 1, channels), inbuf[at + i], c2,
                       inbuf, channels, k, h, j, 4 * j + i, out0);
    }
  }

  /** The part of the output behind all samples. */
  ghost predicate TailKept(out0: seq<Sample>, out: seq<Sample>, from: nat)
  {
    |out| == |out0| && forall q: nat :: from <= q < |out| ==> out[q] == out0[q]
  }

  /** A pass of the loop over the channels. */
  method DecodeNext(outbuf: array<Sample>, inbuf: seq<byte>, channels: int, cs: seq<Cursor>, k: nat, j: nat, ch: nat,
                    ghost out0: seq<Sample>)
    returns (cs2: seq<Cursor>)
    requires Readable(inbuf, channels, k) && |cs| == channels && ch < channels && j < k
    requires Times(1 + 8 * k, channels) <= outbuf.Length
    requires Advanced(outbuf[..], cs, inbuf, channels, k, j, ch)
             && TailKept(out0, outbuf[..], Times(1 + 8 * k, channels))
    modifies outbuf
    ensures |cs2| == channels && Advanced(outbuf[..], cs2, inbuf, channels, k, j, ch + 1)
    ensures TailKept(out0, outbuf[..], Times(1 + 8 * k, channels))
  {
    assert Position(channels, ch, 8 * j + 8) < Times(1 + 8 * k, channels);
    hide Decoded, SampleIs, Readable;
    ghost var out := outbuf[..];
    assert Reached(out, cs[ch], inbuf, channels, k, ch, j);
    var c := DecodeGroup(outbuf, Position(channels, ch, 8 * j + 1), inbuf, Where(channels, ch, 4 * j), channels,
                         cs[ch], k, ch, j, out);
    cs2 := cs[ch := c];
    GroupAdvances(out, outbuf[..], cs, cs2, inbuf, channels, k, j, ch);
  }

  /** adpcm_decode_block: the samples per channel it has decoded, 0 for input it gives up on. */
  method DecodeBlock(outbuf: array<Sample>, inbuf: seq<byte>, channels: int) returns (samples: nat)
    requires channels == 1 || channels == 2
    requires Times(4, channels) <= |inbuf| ==> Times(1 + 8 * Chunks(|inbuf|, channels), channels) <= outbuf.Length
    modifies outbuf
    ensures samples == if Decodable(inbuf, channels) then 1 + 8 * Chunks(|inbuf|, channels) else 0
    ensures Decodable(inbuf, channels) ==>
              var k := Chunks(|inbuf|, channels);
              Readable(inbuf, channels, k) && AllDecoded(outbuf[..], inbuf, channels, k)
    ensures TailKept(old(outbuf[..]), outbuf[..],
                     if Decodable(inbuf, channels) then Times(samples, channels) else Times(1, channels))
  {
    if |inbuf| < Times(4, channels) {
      return 0;
    }
    hide Decoded, Position;
    var cs: seq<Cursor> := [];
    for ch := 0 to channels
      invariant |cs| == ch
      invariant forall h: nat :: h < ch ==> HeaderOk(inbuf, h) && cs[h] == Start(inbuf, h) && outbuf[h] == cs[h].pcm
      invariant TailKept(old(outbuf[..]), outbuf[..], channels)
    {
      outbuf[ch] := HeadPcm(inbuf[4 * ch], inbuf[4 * ch + 1]);
      if inbuf[4 * ch + 2] > 88 || inbuf[4 * ch + 3] != 0 {
        assert !HeaderOk(inbuf, ch);
        return 0;
      }
      cs := cs + [Start(inbuf, ch)];
    }
    var k := Chunks(|inbuf|, channels);
    ChunksFit(inbuf, channels);
    HeadsReached(outbuf[..], cs, inbuf, channels, k);
    samples := 1 + 8 * k;
    cs := DecodeChunks(outbuf, inbuf, channels, cs, k, old(outbuf[..]));
    AllReached(outbuf[..], cs, inbuf, channels, k);
  }

  /** All samples a block describes are in their places. */
  ghost predicate AllDecoded(out: seq<Sample>, block: seq<byte>, channels: int, k: nat)
    requires Readable(block, channels, k)
  {
    forall h: nat, t: nat :: h < channels && t < 1 + 8 * k ==> SampleIs(out, block, channels, k, h, t)
  }

  lemma HeadsReached(out: seq<Sample>, cs: seq<Cursor>, block: seq<byte>, channels: int, k: nat)
    requires Readable(block, channels, k) && |cs| == channels <= |out|
    requires forall h: nat :: h < channels ==> cs[h] == Start(block, h) && out[h] == cs[h].pcm
    ensures Advanced(out, cs, block, channels, k, 0, 0)
  {
  }

  lemma AllReached(out: seq<Sample>, cs: seq<Cursor>, block: seq<byte>, channels: int, k: nat)
    requires Readable(block, channels, k) && |cs| == channels
    requires Advanced(out, cs, block, channels, k, k, 0)
    ensures AllDecoded(out, block, channels, k)
  {
    hide SampleIs;
    forall h: nat, t: nat | h < channels && t < 1 + 8 * k ensures SampleIs(out, block, channels, k, h, t) {
      assert Reached(out, cs[h], block, channels, k, h, k);
    }
  }

  /** The loop over the chunks. */
  method DecodeChunks(outbuf: array<Sample>, inbuf: seq<byte>, channels: int, cs: seq<Cursor>, k: nat,
                      ghost out0: seq<Sample>)
    returns (cs2: seq<Cursor>)
    requires Readable(inbuf, channels, k) && |cs| == channels && Times(1 + 8 * k, channels) <= outbuf.Length
    requires Advanced(outbuf[..], cs, inbuf, channels, k, 0, 0) && TailKept(out0, outbuf[..], Times(1, channels))
    modifies outbuf
    ensures |cs2| == channels && Advanced(outbuf[..], cs2, inbuf, channels, k, k, 0)
    ensures TailKept(out0, outbuf[..], Times(1 + 8 * k, channels))
  {
    cs2 := cs;
    hide Readable, Reached;
    for j := 0 to k
      invariant |cs2| == channels && Advanced(outbuf[..], cs2, inbuf, channels, k, j, 0)
      invariant TailKept(out0, outbuf[..], Times(1 + 8 * k, channels))
    {
      for ch := 0 to channels
        invariant |cs2| == channels && Advanced(outbuf[..], cs2, inbuf, channels, k, j, ch)
        invariant TailKept(out0, outbuf[..], Times(1 + 8 * k, channels))
      {
        cs2 := DecodeNext(outbuf, inbuf, channels, cs2, k, j, ch, out0);
      }
      ChunkAdvances(outbuf[..], cs2, inbuf, channels, k, j);
    }
  }

  /** Decoding an encoded block: it is accepted, with as many chunks as were encoded; and the output has, for each
      channel, the input's own first sample, and behind that the values the encoder had after each sample. */
  lemma {:induction false} DecodesToEncoder(block: seq<byte>, cfg: Config, chs: seq<Channel>, buf: seq<Sample>, k: nat,
                                            out: seq<Sample>, h: nat, t: nat)
    requires Enough(cfg, buf, k) && cfg.channels <= |chs| && Carries(block, cfg, chs, buf, k)
    requires h < cfg.channels && t < 1 + 8 * k
    ensures Decodable(block, cfg.channels) && Chunks(|block|, cfg.channels) == k && Readable(block, cfg.channels, k)
    ensures AllDecoded(out, block, cfg.channels, k) ==>
              h < |out| && out[h] == chs[h].cursor.pcm
              && Position(cfg.channels, h, t) < |out|
              && out[Position(cfg.channels, h, t)] == Trace(cfg, chs[h], buf, k, h, t).cursor.pcm
  {
    ChunksOfSize(cfg.channels, k);
    Lockstep(block, cfg, chs, buf, k, h, t);
    Lockstep(block, cfg, chs, buf, k, h, 0);
    assert Trace(cfg, chs[h], buf, k, h, 0) == chs[h];
    hide Decoded, Trace, NibbleAt, Readable, Carries, Where;
    if AllDecoded(out, block, cfg.channels, k) {
      assert SampleIs(out, block, cfg.channels, k, h, t);
      assert SampleIs(out, block, cfg.channels, k, h, 0);
    }
  }
}
