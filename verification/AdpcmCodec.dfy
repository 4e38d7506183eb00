/** Encoding and decoding of ADPCM blocks (adpcm-lib.c). */
module AdpcmCodecs {
  import opened AdpcmSteps
  import opened AdpcmSearches

  datatype Shaping = Off | Static | Dynamic      // NOISE_SHAPING_*

  /** adpcm_channel. */
  datatype Channel = Channel(cursor: Cursor, error: int, weight: int, history0: int, history1: int)

  /** adpcm_context, without the channels: their number, the look-ahead, the kind of noise shaping. */
  datatype Config = Config(channels: int, lookahead: nat, shaping: Shaping) {
    predicate Ok()
    {
      channels == 1 || channels == 2
    }
  }

  /** x times the number of channels. */
  function Times(x: nat, channels: int): nat
  {
    if channels == 1 then x else 2 * x
  }

  /** Arithmetic shift right by ten, of a value rounded by 512. */
  function Round10(x: int): int
  {
    (x + 512) / 1024
  }

  /** The noise shaper: the sample the search is to aim at, and the channel's updated filter state. */
  function Shape(ch: Channel, shaping: Shaping, sample: int): (int, Channel)
  {
    match shaping
    case Off => (sample, ch)
    case Static =>
      var csample := sample - ch.error;
      (csample, ch.(error := -csample))
    case Dynamic =>
      var sam := (3 * ch.history0 - ch.history1) / 2;
      var temp0 := sample - Round10(ch.weight * sam);
      var weight := if sam == 0 || temp0 == 0 then ch.weight
                    else if (sam < 0) != (temp0 < 0) then ch.weight - 2 else ch.weight + 2;
      var ch1 := ch.(weight := weight, history1 := ch.history0, history0 := sample);
      var shapingWeight := if weight < 256 then 1024 else 1536 - weight * 2;
      var temp := -Round10(shapingWeight * ch.error);
      if shapingWeight < 0 && temp != 0 then
        var temp1 := if temp == ch.error then (if temp < 0 then temp + 1 else temp - 1) else temp;
        (sample + temp1, ch1.(error := -sample))
      else
        (sample + temp, ch1.(error := -(sample + temp)))
  }

  /** The depth of the search for a sample with num samples to go. */
  function Depth(cfg: Config, num: nat): nat
    requires 0 < num
  {
    if num - 1 > cfg.lookahead then cfg.lookahead else num - 1
  }

  /** The code encode_sample chooses for the sample at position p. */
  function Code(cfg: Config, ch: Channel, buf: seq<Sample>, p: nat, num: nat): Nibble
    requires cfg.Ok() && 0 < num && Far(p, cfg.channels, Depth(cfg, num)) < |buf|
  {
    Best(ch.cursor, Shape(ch, cfg.shaping, buf[p]).0, buf, p, cfg.channels, Depth(cfg, num))
  }

  /** The channel after that. */
  function Coded(cfg: Config, ch: Channel, buf: seq<Sample>, p: nat, num: nat): Channel
    requires cfg.Ok() && 0 < num && Far(p, cfg.channels, Depth(cfg, num)) < |buf|
  {
    var ch1 := Shape(ch, cfg.shaping, buf[p]).1;
    var cursor := Advance(ch.cursor, Code(cfg, ch, buf, p, num));
    ch1.(cursor := cursor, error := if cfg.shaping == Off then ch1.error else ch1.error + cursor.pcm)
  }

  lemma {:induction false} FarAlong(p: nat, channels: int, depth: nat)
    requires channels == 1 || channels == 2
    ensures Far(p, channels, depth) == p + Times(depth, channels)
    decreases depth
  {
    if depth > 0 {
      FarAlong(p + channels, channels, depth - 1);
    }
  }

  /** Where sample t of channel h is, in a block body of interleaved samples. */
  function Position(channels: int, h: nat, t: nat): nat
  {
    Times(t, channels) + h
  }

  /** A block body holds 8k composite samples for the encoder to read. */
  predicate Enough(cfg: Config, buf: seq<Sample>, k: nat)
  {
    cfg.Ok() && Times(8 * k, cfg.channels) <= |buf|
  }

  lemma InReach(cfg: Config, buf: seq<Sample>, k: nat, h: nat, t: nat)
    requires Enough(cfg, buf, k) && h < cfg.channels && t < 8 * k
    ensures Far(Position(cfg.channels, h, t), cfg.channels, Depth(cfg, 8 * k - t)) < |buf|
  {
    FarAlong(Position(cfg.channels, h, t), cfg.channels, Depth(cfg, 8 * k - t));
  }

  /** Channel h after t samples of a body of k chunks. */
  function Trace(cfg: Config, ch: Channel, buf: seq<Sample>, k: nat, h: nat, t: nat): Channel
    requires Enough(cfg, buf, k) && h < cfg.channels && t <= 8 * k
    decreases t
  {
    if t == 0 then ch
    else
      InReach(cfg, buf, k, h, t - 1);
      Coded(cfg, Trace(cfg, ch, buf, k, h, t - 1), buf, Position(cfg.channels, h, t - 1), 8 * k - (t - 1))
  }

  /** The code of sample t of channel h. */
  function CodeAt(cfg: Config, ch: Channel, buf: seq<Sample>, k: nat, h: nat, t: nat): Nibble
    requires Enough(cfg, buf, k) && h < cfg.channels && t < 8 * k
  {
    InReach(cfg, buf, k, h, t);
    Code(cfg, Trace(cfg, ch, buf, k, h, t), buf, Position(cfg.channels, h, t), 8 * k - t)
  }

  /** The next channel state is the common effect of the code. */
  lemma TraceStep(cfg: Config, ch: Channel, buf: seq<Sample>, k: nat, h: nat, t: nat)
    requires Enough(cfg, buf, k) && h < cfg.channels && t < 8 * k
    ensures Trace(cfg, ch, buf, k, h, t + 1).cursor
            == Advance(Trace(cfg, ch, buf, k, h, t).cursor, CodeAt(cfg, ch, buf, k, h, t))
  {
  }

  lemma {:induction false} TraceBegins(cfg: Config, ch: Channel, buf: seq<Sample>, k: nat, h: nat)
    requires Enough(cfg, buf, k) && h < cfg.channels
    ensures Trace(cfg, ch, buf, k, h, 0) == ch
  {
  }
}
