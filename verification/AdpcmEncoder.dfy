/** The encoder (adpcm_context of adpcm-lib.c) writes blocks of that format. */
module AdpcmEncoders {
  import opened Bytes
  import opened AdpcmSteps
  import opened AdpcmSearches
  import opened AdpcmCodecs
  import opened AdpcmBlocks
  import opened AdpcmStarts

  lemma TraceNext(cfg: Config, start: Channel, buf: seq<Sample>, k: nat, h: nat, t: nat)
    requires Enough(cfg, buf, k) && h < cfg.channels && t < 8 * k
    ensures Far(Position(cfg.channels, h, t), cfg.channels, Depth(cfg, 8 * k - t)) < |buf|
    ensures Trace(cfg, start, buf, k, h, t + 1)
         == Coded(cfg, Trace(cfg, start, buf, k, h, t), buf, Position(cfg.channels, h, t), 8 * k - t)
  {
    InReach(cfg, buf, k, h, t);
  }

  /** One buffer is another but for four bytes. */
  ghost predicate Patched(out: seq<byte>, out2: seq<byte>, at: nat)
  {
    |out2| == |out| && forall q: nat :: q < |out| && !(at <= q < at + 4) ==> out2[q] == out[q]
  }

  /** A channel's first j chunks are encoded. */
  ghost predicate HalfWay(out: seq<byte>, ch: Channel, cfg: Config, start: Channel, buf: seq<Sample>, k: nat, h: nat,
                          j: nat)
    requires Enough(cfg, buf, k) && h < cfg.channels && j <= k
  {
    ch == Trace(cfg, start, buf, k, h, 8 * j) && forall m: nat :: m < 4 * j ==> ByteIs(out, cfg, start, buf, k, h, m)
  }

  /** All channels' first j chunks are encoded, and one more of those below ch. */
  ghost predicate Progress(out: seq<byte>, chs: seq<Channel>, cfg: Config, starts: seq<Channel>, buf: seq<Sample>,
                           k: nat, j: nat, ch: nat)
    requires Enough(cfg, buf, k) && cfg.channels <= |chs| == |starts| && j <= k
  {
    (ch > 0 ==> j < k)
    && forall h: nat :: h < cfg.channels ==>
          HalfWay(out, chs[h], cfg, starts[h], buf, k, h, if h < ch then j + 1 else j)
  }

  /** Outside the body of a block of k chunks nothing has changed. */
  ghost predicate SameAround(before: seq<byte>, out: seq<byte>, cfg: Config, k: nat)
  {
    |out| == |before| && (forall q: nat :: Size(cfg.channels, k) <= q < |out| ==> out[q] == before[q])
        && Size(cfg.channels, 0) <= |out| && out[..Size(cfg.channels, 0)] == before[..Size(cfg.channels, 0)]
  }

  /** One more byte of channel h in chunk j. */
  lemma ByteAdded(out: seq<byte>, out2: seq<byte>, cfg: Config, start: Channel, buf: seq<Sample>, k: nat, h: nat,
                  j: nat, i: nat, b: byte)
    requires Enough(cfg, buf, k) && h < cfg.channels && j < k && i < 4
    requires Where(cfg.channels, h, 4 * j) + i < |out| && b == CodeByte(cfg, start, buf, k, h, 4 * j + i)
    requires out2 == out[Where(cfg.channels, h, 4 * j) + i := b]
    requires forall m: nat :: 4 * j <= m < 4 * j + i ==> ByteIs(out, cfg, start, buf, k, h, m)
    ensures forall m: nat :: 4 * j <= m < 4 * j + i + 1 ==> ByteIs(out2, cfg, start, buf, k, h, m)
  {
    hide CodeByte;
    forall m: nat | 4 * j <= m < 4 * j + i + 1 ensures ByteIs(out2, cfg, start, buf, k, h, m) {
      assert m < 4 * j + i ==> ByteIs(out, cfg, start, buf, k, h, m);
    }
  }

  /** The four bytes of channel h in chunk j finish that chunk for that channel. */
  lemma {:induction false} GroupDone(out: seq<byte>, out2: seq<byte>, cfg: Config, start: Channel, buf: seq<Sample>,
                                     k: nat, h: nat, j: nat)
    requires Enough(cfg, buf, k) && h < cfg.channels && j < k && |out| >= Size(cfg.channels, k)
    requires HalfWay(out, Trace(cfg, start, buf, k, h, 8 * j), cfg, start, buf, k, h, j)
    requires Patched(out, out2, Where(cfg.channels, h, 4 * j))
    requires forall m: nat :: 4 * j <= m < 4 * j + 4 ==> ByteIs(out2, cfg, start, buf, k, h, m)
    ensures HalfWay(out2, Trace(cfg, start, buf, k, h, 8 * j + 8), cfg, start, buf, k, h, j + 1)
  {
    hide Trace, CodeByte;
    var at := Where(cfg.channels, h, 4 * j);
    forall m: nat | m < 4 * (j + 1) ensures ByteIs(out2, cfg, start, buf, k, h, m) {
      WhereInside(cfg.channels, k, h, m);
      if m < 4 * j {
        assert ByteIs(out, cfg, start, buf, k, h, m);
        assert Where(cfg.channels, h, m) < at;
      }
    }
  }

  /** And leave every other channel's bytes alone. */
  lemma OthersKept(out: seq<byte>, out2: seq<byte>, at: nat, ch: Channel, cfg: Config, start: Channel, buf: seq<Sample>,
                   k: nat, h: nat, j: nat, h2: nat, j2: nat)
    requires Enough(cfg, buf, k) && h < cfg.channels && h2 < cfg.channels && h != h2 && j < k && j2 <= k
             && |out| >= Size(cfg.channels, k)
    requires at == Where(cfg.channels, h, 4 * j) && Patched(out, out2, at)
    requires HalfWay(out, ch, cfg, start, buf, k, h2, j2)
    ensures HalfWay(out2, ch, cfg, start, buf, k, h2, j2)
  {
    hide Trace, CodeByte;
    forall m: nat | m < 4 * j2 ensures ByteIs(out2, cfg, start, buf, k, h2, m) {
      WhereInside(cfg.channels, k, h2, m);
      assert ByteIs(out, cfg, start, buf, k, h2, m);
    }
  }

  lemma {:induction false} Furthered(out: seq<byte>, out2: seq<byte>, chs: seq<Channel>, chs2: seq<Channel>,
                                     cfg: Config, starts: seq<Channel>, buf: seq<Sample>, k: nat, j: nat, ch: nat)
    requires Enough(cfg, buf, k) && cfg.channels <= |chs| == |starts| && ch < cfg.channels && j < k
             && |out| >= Size(cfg.channels, k)
    requires Progress(out, chs, cfg, starts, buf, k, j, ch)
    requires chs2 == chs[ch := Trace(cfg, starts[ch], buf, k, ch, 8 * j + 8)]
    requires Patched(out, out2, Where(cfg.channels, ch, 4 * j))
    requires forall m: nat :: 4 * j <= m < 4 * j + 4 ==> ByteIs(out2, cfg, starts[ch], buf, k, ch, m)
    ensures Progress(out2, chs2, cfg, starts, buf, k, j, ch + 1)
  {
    hide Trace, CodeByte, Where, Patched, ByteIs;
    forall h: nat | h < cfg.channels
      ensures HalfWay(out2, chs2[h], cfg, starts[h], buf, k, h, if h < ch + 1 then j + 1 else j)
    {
      assert HalfWay(out, chs[h], cfg, starts[h], buf, k, h, if h < ch then j + 1 else j);
      if h == ch {
        GroupDone(out, out2, cfg, starts[ch], buf, k, ch, j);
      } else {
        OthersKept(out, out2, Where(cfg.channels, ch, 4 * j), chs[h], cfg, starts[h], buf, k, ch, j, h,
                   if h < ch then j + 1 else j);
      }
    }
  }

  lemma NextChunk(out: seq<byte>, chs: seq<Channel>, cfg: Config, starts: seq<Channel>, buf: seq<Sample>, k: nat,
                  j: nat)
    requires Enough(cfg, buf, k) && cfg.channels <= |chs| == |starts| && j < k
    requires Progress(out, chs, cfg, starts, buf, k, j, cfg.channels)
    ensures Progress(out, chs, cfg, starts, buf, k, j + 1, 0)
  {
    hide HalfWay;
    forall h: nat | h < cfg.channels ensures HalfWay(out, chs[h], cfg, starts[h], buf, k, h, j + 1) {
      assert HalfWay(out, chs[h], cfg, starts[h], buf, k, h, j + 1);
    }
  }

  lemma AroundKept(before: seq<byte>, out: seq<byte>, out2: seq<byte>, cfg: Config, k: nat, h: nat, j: nat)
    requires cfg.Ok() && h < cfg.channels && j < k && SameAround(before, out, cfg, k)
             && Patched(out, out2, Where(cfg.channels, h, 4 * j))
    ensures SameAround(before, out2, cfg, k)
  {
    assert Size(cfg.channels, 0) <= Where(cfg.channels, h, 4 * j)
           && Where(cfg.channels, h, 4 * j) + 4 <= Size(cfg.channels, k);
  }

  /** The state of a channel that is not in use has not changed. */
  ghost predicate SpareKept(chs: seq<Channel>, chs2: seq<Channel>, cfg: Config)
  {
    |chs2| == |chs| && forall h: nat :: cfg.channels <= h < |chs| ==> chs2[h] == chs[h]
  }

  /** A channel at the beginning of a block: its value is the block's first sample, its index as it was. */
  function OpenedOne(ch: Channel, sample: Sample): Channel
  {
    ch.(cursor := ch.cursor.(pcm := sample))
  }

  function Opened(cfg: Config, chs: seq<Channel>, inbuf: seq<Sample>): (r: seq<Channel>)
    requires cfg.Ok() && cfg.channels <= |inbuf|
  {
    seq(|chs|, h requires 0 <= h < |chs| => if h < cfg.channels then OpenedOne(chs[h], inbuf[h]) else chs[h])
  }

  /** The header a decoder starts from. */
  predicate HeadIs(out: seq<byte>, ch: Channel, h: nat)
  {
    HeaderOk(out, h) && Start(out, h) == ch.cursor
  }

  lemma {:induction false} BlockCarries(before: seq<byte>, out: seq<byte>, cfg: Config, starts: seq<Channel>,
                                        chs: seq<Channel>, buf: seq<Sample>, k: nat)
    requires Enough(cfg, buf, k) && cfg.channels <= |chs| == |starts| && Size(cfg.channels, k) <= |out|
    requires forall h: nat :: h < cfg.channels ==> HeadIs(before, starts[h], h)
    requires SameAround(before, out, cfg, k) && Progress(out, chs, cfg, starts, buf, k, k, 0)
    ensures Carries(out[..Size(cfg.channels, k)], cfg, starts, buf, k)
    ensures forall h: nat :: h < cfg.channels ==> chs[h] == Trace(cfg, starts[h], buf, k, h, 8 * k)
  {
    hide Trace, CodeByte;
    var block := out[..Size(cfg.channels, k)];
    forall h: nat | h < cfg.channels
      ensures chs[h] == Trace(cfg, starts[h], buf, k, h, 8 * k)
      ensures HeaderOk(block, h) && Start(block, h) == starts[h].cursor
    {
      assert HeadIs(before, starts[h], h);
      assert forall q: nat :: q < Size(cfg.channels, 0) ==>
          block[q] == out[..Size(cfg.channels, 0)][q] && before[q] == before[..Size(cfg.channels, 0)][q];
      assert HalfWay(out, chs[h], cfg, starts[h], buf, k, h, k);
    }
    forall h: nat, m: nat | h < cfg.channels && m < 4 * k ensures ByteIs(block, cfg, starts[h], buf, k, h, m) {
      assert HalfWay(out, chs[h], cfg, starts[h], buf, k, h, k);
      assert ByteIs(out, cfg, starts[h], buf, k, h, m);
      WhereInside(cfg.channels, k, h, m);
    }
  }

  class AdpcmContext {
    const cfg: Config
    var channels: seq<Channel>

    ghost predicate Valid()
      reads this`channels
    {
      cfg.Ok() && cfg.channels <= |channels|
    }

    /** adpcm_create_context. */
    constructor (cfg: Config, initialDeltas: seq<int>)
      requires cfg.Ok() && |initialDeltas| == 2
      ensures Valid() && this.cfg == cfg && |channels| == 2
      ensures forall ch: nat :: ch < cfg.channels ==> Found(initialDeltas[ch], channels[ch].cursor.index)
      ensures forall ch: nat :: ch < 2 ==> channels[ch] == Channel(Cursor(0, channels[ch].cursor.index), 0, 0, 0, 0)
    {
      this.cfg := cfg;
      new;
      channels := seq(2, _ => Channel(Cursor(0, 0), 0, 0, 0, 0));
      for ch := 0 to cfg.channels
        invariant |channels| == 2
        invariant forall c: nat :: c < ch ==> Found(initialDeltas[c], channels[c].cursor.index)
        invariant forall c: nat :: c < 2 ==> channels[c] == Channel(Cursor(0, channels[c].cursor.index), 0, 0, 0, 0)
      {
        var i := ClosestIndex(initialDeltas[ch]);
        channels := channels[ch := Channel(Cursor(0, i), 0, 0, 0, 0)];
      }
    }

    static method ClosestIndex(delta: int) returns (index: Index)
      ensures Found(delta, index)
    {
      index := 0;
      while !(index == 88 || delta < (Step(index) + Step(index + 1)) / 2)
        invariant index > 0 ==> (Step(index - 1) + Step(index)) / 2 <= delta
        decreases 88 - index
      {
        index := index + 1;
      }
    }

    /** encode_sample. */
    method EncodeSample(ch: nat, buf: seq<Sample>, p: nat, numSamples: nat) returns (nibble: Nibble)
      requires Valid() && ch < cfg.channels
      requires 0 < numSamples && Far(p, cfg.channels, Depth(cfg, numSamples)) < |buf|
      modifies this`channels
      ensures nibble == Code(cfg, old(channels[ch]), buf, p, numSamples)
      ensures channels == old(channels)[ch := Coded(cfg, old(channels[ch]), buf, p, numSamples)]
    {
      hide Advance, Best, Shape, Far;
      var pchan := channels[ch];
      var csample, shaped := ShapeNoise(pchan, buf[p]);
      var depth := numSamples - 1;
      if depth > cfg.lookahead {
        depth := cfg.lookahead;
      }
      var _, best := MinimumError(pchan.cursor, csample, buf, p, cfg.channels, depth);
      nibble := best;
      var cursor := Advance(pchan.cursor, nibble);
      var error := if cfg.shaping == Off then shaped.error else shaped.error + cursor.pcm;
      channels := channels[ch := shaped.(cursor := cursor, error := error)];
    }

    /** The noise shaping at the start of encode_sample. */
    method ShapeNoise(pchan: Channel, sample: Sample) returns (csample: int, shaped: Channel)
      ensures (csample, shaped) == Shape(pchan, cfg.shaping, sample)
    {
      csample, shaped := sample, pchan;
      if cfg.shaping == Dynamic {
        var sam := (3 * pchan.history0 - pchan.history1) / 2;
        var temp := csample - Round10(pchan.weight * sam);
        if sam != 0 && temp != 0 {
          shaped := shaped.(weight := shaped.weight - (if (sam < 0) != (temp < 0) then 2 else -2));
        }
        shaped := shaped.(history1 := shaped.history0);
        shaped := shaped.(history0 := csample);
        var shapingWeight := if shaped.weight < 256 then 1024 else 1536 - shaped.weight * 2;
        temp := -Round10(shapingWeight * shaped.error);
        if shapingWeight < 0 && temp != 0 {
          if temp == shaped.error {
            temp := if temp < 0 then temp + 1 else temp - 1;
          }
          shaped := shaped.(error := -csample);
          csample := csample + temp;
        } else {
          csample := csample + temp;
          shaped := shaped.(error := -csample);
        }
      } else if cfg.shaping == Static {
        csample := csample - shaped.error;
        shaped := shaped.(error := -csample);
      }
    }

    /** Two samples, one byte. */
    method EncodePair(ch: nat, buf: seq<Sample>, k: nat, m: nat, ghost start: Channel) returns (b: byte)
      requires Valid() && Enough(cfg, buf, k) && ch < cfg.channels && m < 4 * k
      requires channels[ch] == Trace(cfg, start, buf, k, ch, 2 * m)
      modifies this`channels
      ensures b == CodeByte(cfg, start, buf, k, ch, m)
      ensures channels == old(channels)[ch := Trace(cfg, start, buf, k, ch, 2 * m + 2)]
    {
      hide Trace, Coded, Code;
      InReach(cfg, buf, k, ch, 2 * m);
      InReach(cfg, buf, k, ch, 2 * m + 1);
      TraceNext(cfg, start, buf, k, ch, 2 * m);
      TraceNext(cfg, start, buf, k, ch, 2 * m + 1);
      var low := EncodeSample(ch, buf, Position(cfg.channels, ch, 2 * m), 8 * k - 2 * m);
      var high := EncodeSample(ch, buf, Position(cfg.channels, ch, 2 * m + 1), 8 * k - (2 * m + 1));
      b := low as int + 16 * high as int;
    }

    /** The four bytes of one channel in one chunk. */
    method EncodeGroup(outbuf: array<byte>, at: nat, ch: nat, buf: seq<Sample>, k: nat, j: nat, ghost start: Channel)
      requires Valid() && Enough(cfg, buf, k) && ch < cfg.channels && j < k
      requires at == Where(cfg.channels, ch, 4 * j) && at + 4 <= outbuf.Length
      requires channels[ch] == Trace(cfg, start, buf, k, ch, 8 * j)
      modifies this`channels, outbuf
      ensures channels == old(channels)[ch := Trace(cfg, start, buf, k, ch, 8 * j + 8)]
      ensures forall m: nat :: 4 * j <= m < 4 * j + 4 ==> ByteIs(outbuf[..], cfg, start, buf, k, ch, m)
      ensures Patched(old(outbuf[..]), outbuf[..], at)
    {
      hide Trace, CodeByte, ByteIs, Where;
      for i := 0 to 4
        invariant channels == old(channels)[ch := Trace(cfg, start, buf, k, ch, 2 * (4 * j + i))]
        invariant forall m: nat :: 4 * j <= m < 4 * j + i ==> ByteIs(outbuf[..], cfg, start, buf, k, ch, m)
        invariant forall q: nat :: q < outbuf.Length && !(at <= q < at + 4) ==> outbuf[q] == old(outbuf[q])
      {
        var b := EncodePair(ch, buf, k, 4 * j + i, start);
        ghost var out := outbuf[..];
        outbuf[at + i] := b;
        ByteAdded(out, outbuf[..], cfg, start, buf, k, ch, j, i, b);
      }
    }

    /** encode_chunks. */
    method EncodeChunks(outbuf: array<byte>, buf: seq<Sample>, k: nat)
      requires Valid() && Enough(cfg, buf, k) && Size(cfg.channels, k) <= outbuf.Length
      modifies this`channels, outbuf
      ensures SpareKept(old(channels), channels, cfg)
      ensures Progress(outbuf[..], channels, cfg, old(channels), buf, k, k, 0)
      ensures SameAround(old(outbuf[..]), outbuf[..], cfg, k)
    {
      hide CodeByte, Patched;
      ghost var starts := channels;
      ghost var before := outbuf[..];
      assert Progress(before, starts, cfg, starts, buf, k, 0, 0);
      for j := 0 to k
        invariant SpareKept(starts, channels, cfg) && Progress(outbuf[..], channels, cfg, starts, buf, k, j, 0)
        invariant SameAround(before, outbuf[..], cfg, k)
      {
        for ch := 0 to cfg.channels
          invariant SpareKept(starts, channels, cfg) && Progress(outbuf[..], channels, cfg, starts, buf, k, j, ch)
          invariant SameAround(before, outbuf[..], cfg, k)
        {
          OneGroup(outbuf, ch, buf, k, j, before, starts);
        }
        NextChunk(outbuf[..], channels, cfg, starts, buf, k, j);
      }
    }

    /** A pass of the inner loop. */
    method OneGroup(outbuf: array<byte>, ch: nat, buf: seq<Sample>, k: nat, j: nat, ghost before: seq<byte>,
                    ghost starts: seq<Channel>)
      requires Valid() && Enough(cfg, buf, k) && Size(cfg.channels, k) <= outbuf.Length && ch < cfg.channels && j < k
      requires SpareKept(starts, channels, cfg) && Progress(outbuf[..], channels, cfg, starts, buf, k, j, ch)
      requires SameAround(before, outbuf[..], cfg, k)
      modifies this`channels, outbuf
      ensures SpareKept(starts, channels, cfg) && Progress(outbuf[..], channels, cfg, starts, buf, k, j, ch + 1)
      ensures SameAround(before, outbuf[..], cfg, k)
    {
      hide Trace, CodeByte, Patched;
      ghost var out, chs := outbuf[..], channels;
      assert HalfWay(out, chs[ch], cfg, starts[ch], buf, k, ch, j);
      WhereInside(cfg.channels, k, ch, 4 * j + 3);
      var at := Where(cfg.channels, ch, 4 * j);
      EncodeGroup(outbuf, at, ch, buf, k, j, starts[ch]);
      Furthered(out, outbuf[..], chs, channels, cfg, starts, buf, k, j, ch);
      AroundKept(before, out, outbuf[..], cfg, k, ch, j);
    }

    method WriteHeader(outbuf: array<byte>, ch: nat, sample: Sample)
      requires ch < |channels| && 4 * ch + 3 < outbuf.Length
      modifies this`channels, outbuf
      ensures channels == old(channels)[ch := OpenedOne(old(channels[ch]), sample)]
      ensures HeadIs(outbuf[..], channels[ch], ch)
      ensures forall q: nat :: q < outbuf.Length && !(4 * ch <= q < 4 * ch + 4) ==> outbuf[q] == old(outbuf[q])
    {
      channels := channels[ch := OpenedOne(channels[ch], sample)];
      HeadPcmInverse(sample);
      outbuf[4 * ch] := sample % 256;
      outbuf[4 * ch + 1] := sample / 256 % 256;
      outbuf[4 * ch + 2] := channels[ch].cursor.index;
      outbuf[4 * ch + 3] := 0;
    }

    /** adpcm_encode_block, for a number of composite samples given; it returns the number of bytes written. */
    method EncodeBlock(outbuf: array<byte>, inbuf: seq<Sample>, inbufcount: nat) returns (outbufsize: nat)
      requires Valid() && Times(inbufcount, cfg.channels) <= |inbuf|
      requires inbufcount > 0 ==> Size(cfg.channels, (inbufcount - 1) / 8) <= outbuf.Length
      modifies this`channels, outbuf
      ensures Valid()
      ensures inbufcount == 0 ==> outbufsize == 0 && channels == old(channels) && outbuf[..] == old(outbuf[..])
      ensures inbufcount > 0 ==>
                var k, buf := (inbufcount - 1) / 8, inbuf[cfg.channels..];
                outbufsize == 4 * cfg.channels * (1 + k) == Size(cfg.channels, k) && Enough(cfg, buf, k)
                && Carries(outbuf[..outbufsize], cfg, Opened(cfg, old(channels), inbuf), buf, k)
                && forall h: nat :: h < cfg.channels ==>
                     channels[h] == Trace(cfg, Opened(cfg, old(channels), inbuf)[h], buf, k, h, 8 * k)
      ensures SpareKept(old(channels), channels, cfg)
      ensures forall q: nat :: outbufsize <= q < outbuf.Length ==> outbuf[q] == old(outbuf[q])
    {
      if inbufcount == 0 {
        return 0;
      }
      hide Trace, CodeByte, Where;
      ghost var chs, entry := channels, outbuf[..];
      for ch := 0 to cfg.channels
        invariant |channels| == |chs|
        invariant forall h: nat :: h < |chs| ==> channels[h] == if h < ch then OpenedOne(chs[h], inbuf[h]) else chs[h]
        invariant forall h: nat :: h < ch ==> HeadIs(outbuf[..], channels[h], h)
        invariant forall q: nat :: 4 * ch <= q < outbuf.Length ==> outbuf[q] == entry[q]
      {
        WriteHeader(outbuf, ch, inbuf[ch]);
      }
      assert channels == Opened(cfg, chs, inbuf);
      var buf := inbuf[cfg.channels..];
      var k := (inbufcount - 1) / 8;
      ghost var before := outbuf[..];
      EncodeChunks(outbuf, buf, k);
      BlockCarries(before, outbuf[..], cfg, Opened(cfg, chs, inbuf), channels, buf, k);
      outbufsize := Size(cfg.channels, k);
    }
  }
}
