/** What a decoder makes of an encoded block, sample by sample of the input (adpcm-lib.c). */
module AdpcmRoundTrips {
  import opened Bytes
  import opened AdpcmSteps
  import opened AdpcmSearches
  import opened AdpcmCodecs
  import opened AdpcmBlocks
  import opened AdpcmEncoders
  import opened AdpcmDecoders

  /** A block as EncodeBlock leaves it for the samples `inbuf`, and `out` as DecodeBlock fills it from that. */
  ghost predicate Recoded(block: seq<byte>, cfg: Config, chs: seq<Channel>, inbuf: seq<Sample>, k: nat,
                          out: seq<Sample>)
  {
    && cfg.Ok() && cfg.channels <= |chs| && cfg.channels <= |inbuf| && Enough(cfg, inbuf[cfg.channels..], k)
    && Carries(block, cfg, Opened(cfg, chs, inbuf), inbuf[cfg.channels..], k)
    && Readable(block, cfg.channels, k) && AllDecoded(out, block, cfg.channels, k)
  }

  /** The first sample of each channel comes through exactly. */
  lemma FirstExact(block: seq<byte>, cfg: Config, chs: seq<Channel>, inbuf: seq<Sample>, k: nat, out: seq<Sample>,
                   h: nat)
    requires Recoded(block, cfg, chs, inbuf, k, out) && h < cfg.channels
    ensures h < |out| && out[h] == inbuf[h]
  {
    hide Carries, Readable, AllDecoded;
    DecodesToEncoder(block, cfg, Opened(cfg, chs, inbuf), inbuf[cfg.channels..], k, out, h, 0);
  }

  /** Every other one comes out in its own place, interleaved with those of the other channel, and without shaping and
      look-ahead within an eighth of the step, as long as it is less than two steps from the one before it. */
  lemma {:induction false} RestClose(block: seq<byte>, cfg: Config, chs: seq<Channel>, inbuf: seq<Sample>, k: nat,
                                     out: seq<Sample>, h: nat, t: nat)
    requires Recoded(block, cfg, chs, inbuf, k, out) && h < cfg.channels && t < 8 * k
    requires cfg.shaping == Off && cfg.lookahead == 0
    ensures var here, next := cfg.channels * t + h, cfg.channels * (t + 1) + h;
            && next < |inbuf| && next < |out|
            && out[here] == Decoded(block, cfg.channels, k, h, t).pcm
            && var step := Step(Decoded(block, cfg.channels, k, h, t).index);
               -2 * step < inbuf[next] - out[here] < 2 * step ==>
                 8 * (out[next] - inbuf[next]) < step + 17 && 8 * (inbuf[next] - out[next]) < step + 17
  {
    hide Carries, Readable, Decoded, Step;
    var buf, starts := inbuf[cfg.channels..], Opened(cfg, chs, inbuf);
    InReach(cfg, buf, k, h, t);
    Interleaved(cfg.channels, h, t);
    Interleaved(cfg.channels, h, t + 1);
    DecodedIsClose(block, cfg, starts, buf, k, h, t);
    assert buf[Position(cfg.channels, h, t)] == inbuf[cfg.channels * (t + 1) + h];
    hide Position;
    assert SampleIs(out, block, cfg.channels, k, h, t);
    assert SampleIs(out, block, cfg.channels, k, h, t + 1);
  }

  lemma Interleaved(channels: int, h: nat, t: nat)
    requires channels == 1 || channels == 2
    ensures Position(channels, h, t) == channels * t + h
  {
  }

  /** How far the search looks ahead: as far as it was asked to, or to the end of the block. */
  function Reach(cfg: Config, left: nat): nat
  {
    if left < cfg.lookahead then left else cfg.lookahead
  }

  /** The code of each sample begins a choice of codes, for it and as many samples of its channel as the look-ahead
      reaches, whose decoded values have the least sum of squared distances from the samples, the first one shaped. */
  lemma EncoderLooksAhead(cfg: Config, ch: Channel, buf: seq<Sample>, k: nat, h: nat, t: nat)
    returns (best: seq<Nibble>)
    requires Enough(cfg, buf, k) && h < cfg.channels && t < 8 * k
    ensures var p, depth := cfg.channels * t + h, Reach(cfg, 8 * k - t - 1);
            Far(p, cfg.channels, depth) < |buf| && |best| == depth
            && (var c := Trace(cfg, ch, buf, k, h, t);
                var aim := Shape(c, cfg.shaping, buf[p]).0;
                var wanted := Wanted(aim, buf, p, cfg.channels, depth);
                && CodeAt(cfg, ch, buf, k, h, t) == (if depth > 0 then best[0] else Greedy(c.cursor, aim))
                && |Outputs(c.cursor, aim, buf, p, cfg.channels, best)| == |wanted|
                && forall path: seq<Nibble> {:trigger Outputs(c.cursor, aim, buf, p, cfg.channels, path)} |
                     |path| == depth ::
                     |Outputs(c.cursor, aim, buf, p, cfg.channels, path)| == |wanted|
                     && SquareSum(Outputs(c.cursor, aim, buf, p, cfg.channels, best), wanted)
                        <= SquareSum(Outputs(c.cursor, aim, buf, p, cfg.channels, path), wanted))
  {
    hide Trace, Shape, Wanted, Outputs, SquareSum, BestOf, Full, Greedy;
    Interleaved(cfg.channels, h, t);
    InReach(cfg, buf, k, h, t);
    var p, depth := cfg.channels * t + h, Reach(cfg, 8 * k - t - 1);
    var c := Trace(cfg, ch, buf, k, h, t);
    best := LeastSquares(c.cursor, Shape(c, cfg.shaping, buf[p]).0, buf, p, cfg.channels, depth);
  }
}
