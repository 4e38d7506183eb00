/** What the noise shaper of the encoder does with its errors (encode_sample of adpcm-lib.c). */
module AdpcmShapings {
  import opened AdpcmSteps
  import opened AdpcmCodecs

  /** How much the reconstructed samples of a channel exceed its input, all in all. */
  function TotalError(cfg: Config, ch: Channel, buf: seq<Sample>, k: nat, h: nat, t: nat): int
    requires Enough(cfg, buf, k) && h < cfg.channels && t <= 8 * k
    decreases t
  {
    if t == 0 then 0
    else
      TotalError(cfg, ch, buf, k, h, t - 1)
      + Trace(cfg, ch, buf, k, h, t).cursor.pcm - buf[Position(cfg.channels, h, t - 1)]
  }

  /** Static noise shaping feeds the whole error back: what the encoder's filter holds is the sum of all errors made. */
  lemma {:induction false} StaticFeedsAllBack(cfg: Config, ch: Channel, buf: seq<Sample>, k: nat, h: nat, t: nat)
    requires Enough(cfg, buf, k) && cfg.shaping == Static && h < cfg.channels && t <= 8 * k
    ensures Trace(cfg, ch, buf, k, h, t).error == ch.error + TotalError(cfg, ch, buf, k, h, t)
    decreases t
  {
    hide Trace, Enough;
    if t == 0 {
      TraceBegins(cfg, ch, buf, k, h);
    } else {
      StaticFeedsAllBack(cfg, ch, buf, k, h, t - 1);
      StaticStep(cfg, ch, buf, k, h, t - 1);
    }
  }

  lemma StaticStep(cfg: Config, ch: Channel, buf: seq<Sample>, k: nat, h: nat, t: nat)
    requires Enough(cfg, buf, k) && cfg.shaping == Static && h < cfg.channels && t < 8 * k
    ensures Position(cfg.channels, h, t) < |buf|
    ensures var c, d := Trace(cfg, ch, buf, k, h, t), Trace(cfg, ch, buf, k, h, t + 1);
            d.error == c.error + d.cursor.pcm - buf[Position(cfg.channels, h, t)]
  {
    InReach(cfg, buf, k, h, t);
    hide Code, Advance;
  }

  function Abs(x: int): nat
  {
    if x < 0 then -x else x
  }

  /** As long as the updated weight is below 256, dynamic shaping does what static shaping does. */
  lemma LightIsStatic(ch: Channel, sample: int)
    requires Shape(ch, Dynamic, sample).1.weight < 256
    ensures Shape(ch, Dynamic, sample).0 == Shape(ch, Static, sample).0
    ensures Shape(ch, Dynamic, sample).1.error == Shape(ch, Static, sample).1.error
  {
    assert Round10(1024 * ch.error) == ch.error;
    hide Round10;
  }

  /** A product with a weight of at most 1024 either way, rounded, is no larger than its other factor. */
  lemma Damped(w: int, e: int)
    requires -1024 <= w <= 1024
    ensures Abs(Round10(w * e)) <= Abs(e)
  {
    var a := Abs(e);
    Bounded(w, a);
    assert w * e == if e < 0 then -(w * a) else w * a;
    RoundedWithin(w * e, a);
    hide Round10;
  }

  lemma Bounded(w: int, a: nat)
    requires -1024 <= w <= 1024
    ensures -1024 * a <= w * a <= 1024 * a
  {
    assert (1024 - w) * a >= 0 && (1024 + w) * a >= 0;
  }

  lemma RoundedWithin(p: int, a: nat)
    requires -1024 * a <= p <= 1024 * a
    ensures -(a as int) <= Round10(p) <= a
  {
  }

  /** Up to a weight of 1280 the shaper never moves a sample by more than the error it has noted. */
  lemma FeedbackBounded(ch: Channel, sample: int)
    requires Shape(ch, Dynamic, sample).1.weight <= 1280
    ensures Abs(Shape(ch, Dynamic, sample).0 - sample) <= Abs(ch.error)
  {
    var weight := Shape(ch, Dynamic, sample).1.weight;
    Damped(if weight < 256 then 1024 else 1536 - weight * 2, ch.error);
    hide Round10;
  }

  /** Above a weight of 768 a sample that is moved at all leaves only its own error behind: earlier ones are
      forgotten. */
  lemma HeavyForgets(ch: Channel, sample: int)
    requires Shape(ch, Dynamic, sample).1.weight > 768
    ensures Shape(ch, Dynamic, sample).1.error == -sample
  {
    hide Round10;
  }

  /** The weight moves by two at most with every sample. */
  lemma {:induction false} WeightMoves(cfg: Config, ch: Channel, buf: seq<Sample>, k: nat, h: nat, t: nat)
    requires Enough(cfg, buf, k) && h < cfg.channels && t <= 8 * k
    ensures Abs(Trace(cfg, ch, buf, k, h, t).weight - ch.weight) <= 2 * t
    decreases t
  {
    hide Trace, Enough;
    if t == 0 {
      TraceBegins(cfg, ch, buf, k, h);
    } else {
      WeightMoves(cfg, ch, buf, k, h, t - 1);
      WeightStep(cfg, ch, buf, k, h, t - 1);
    }
  }

  lemma WeightStep(cfg: Config, ch: Channel, buf: seq<Sample>, k: nat, h: nat, t: nat)
    requires Enough(cfg, buf, k) && h < cfg.channels && t < 8 * k
    ensures Abs(Trace(cfg, ch, buf, k, h, t + 1).weight - Trace(cfg, ch, buf, k, h, t).weight) <= 2
  {
    hide Code, Advance, Shape;
    InReach(cfg, buf, k, h, t);
    ShapeWeight(Trace(cfg, ch, buf, k, h, t), cfg.shaping, buf[Position(cfg.channels, h, t)]);
  }

  lemma ShapeWeight(ch: Channel, shaping: Shaping, sample: int)
    ensures Abs(Shape(ch, shaping, sample).1.weight - ch.weight) <= 2
  {
    hide Round10;
  }

  /** So in the first samples of a channel that starts light, dynamic shaping too feeds the whole error back. */
  lemma {:induction false} LightFeedsAllBack(cfg: Config, ch: Channel, buf: seq<Sample>, k: nat, h: nat, t: nat)
    requires Enough(cfg, buf, k) && cfg.shaping == Dynamic && h < cfg.channels && t <= 8 * k
    requires ch.weight + 2 * t < 256
    ensures Trace(cfg, ch, buf, k, h, t).error == ch.error + TotalError(cfg, ch, buf, k, h, t)
    decreases t
  {
    hide Trace, Enough;
    if t == 0 {
      TraceBegins(cfg, ch, buf, k, h);
    } else {
      LightFeedsAllBack(cfg, ch, buf, k, h, t - 1);
      assert Trace(cfg, ch, buf, k, h, t).weight < 256 by {
        WeightMoves(cfg, ch, buf, k, h, t);
      }
      LightStep(cfg, ch, buf, k, h, t - 1);
    }
  }

  lemma LightStep(cfg: Config, ch: Channel, buf: seq<Sample>, k: nat, h: nat, t: nat)
    requires Enough(cfg, buf, k) && cfg.shaping == Dynamic && h < cfg.channels && t < 8 * k
    requires Trace(cfg, ch, buf, k, h, t + 1).weight < 256
    ensures Position(cfg.channels, h, t) < |buf|
    ensures var c, d := Trace(cfg, ch, buf, k, h, t), Trace(cfg, ch, buf, k, h, t + 1);
            d.error == c.error + d.cursor.pcm - buf[Position(cfg.channels, h, t)]
  {
    hide Code, Advance, Round10;
    InReach(cfg, buf, k, h, t);
    LightIsStatic(Trace(cfg, ch, buf, k, h, t), buf[Position(cfg.channels, h, t)]);
  }

  // ---- The parts of dynamic shaping, for every weight ----

  /** Where the line through the last two samples is half a sample later, rounded down. */
  function Ahead(ch: Channel): int
  {
    ch.history0 + (ch.history0 - ch.history1) / 2
  }

  /** How far a sample is from the weighted prediction. */
  function Missed(ch: Channel, weight: int, sample: int): int
  {
    sample - (weight * Ahead(ch) + 512) / 1024
  }

  /** The weight descends: it moves by two exactly if there is a prediction and it missed, and so that the
      prediction comes nearer, by no more than a 512th of it and one. */
  lemma WeightDescends(ch: Channel, sample: int)
    ensures var w, s, e := Shape(ch, Dynamic, sample).1.weight, Ahead(ch), Missed(ch, ch.weight, sample);
            && (s == 0 || e == 0 ==> w == ch.weight)
            && (s != 0 && e != 0 ==> Abs(w - ch.weight) == 2)
            && (e > 0 ==> e - Abs(s) / 512 - 1 <= Missed(ch, w, sample) <= e)
            && (e < 0 ==> e <= Missed(ch, w, sample) <= e + Abs(s) / 512 + 1)
  {
    var s := Ahead(ch);
    assert (3 * ch.history0 - ch.history1) / 2 == s;
    Rounds(ch.weight * s, 2 * s);
    Rounds(ch.weight * s, -2 * s);
    assert (ch.weight + 2) * s == ch.weight * s + 2 * s;
    assert (ch.weight - 2) * s == ch.weight * s - 2 * s;
  }

  lemma Rounds(p: int, d: int)
    ensures d >= 0 ==> (p + 512) / 1024 <= (p + d + 512) / 1024 <= (p + 512) / 1024 + d / 1024 + 1
    ensures d <= 0 ==> (p + 512) / 1024 - -d / 1024 - 1 <= (p + d + 512) / 1024 <= (p + 512) / 1024
  {
  }

  /** The history is the input: what the prediction is made from are the last two samples of the channel. */
  lemma {:induction false} HistoryIsInput(cfg: Config, ch: Channel, buf: seq<Sample>, k: nat, h: nat, t: nat)
    requires Enough(cfg, buf, k) && cfg.shaping == Dynamic && h < cfg.channels && 0 < t <= 8 * k
    ensures Position(cfg.channels, h, t - 1) < |buf|
    ensures Trace(cfg, ch, buf, k, h, t).history0 == buf[Position(cfg.channels, h, t - 1)]
    ensures Trace(cfg, ch, buf, k, h, t).history1
         == if t == 1 then ch.history0 else buf[Position(cfg.channels, h, t - 2)]
  {
    hide Trace, Enough;
    HistoryStep(cfg, ch, buf, k, h, t - 1);
    if t == 1 {
      TraceBegins(cfg, ch, buf, k, h);
    } else {
      HistoryStep(cfg, ch, buf, k, h, t - 2);
    }
  }

  lemma HistoryStep(cfg: Config, ch: Channel, buf: seq<Sample>, k: nat, h: nat, t: nat)
    requires Enough(cfg, buf, k) && cfg.shaping == Dynamic && h < cfg.channels && t < 8 * k
    ensures Position(cfg.channels, h, t) < |buf|
    ensures var c, d := Trace(cfg, ch, buf, k, h, t), Trace(cfg, ch, buf, k, h, t + 1);
            d.history0 == buf[Position(cfg.channels, h, t)] && d.history1 == c.history0
  {
    hide Code, Advance, Round10;
    InReach(cfg, buf, k, h, t);
  }

  /** The share of the noted error that is taken off a sample falls from all of it at weight 256 to none at 768; the
      filter is left with what the sample aimed at. */
  lemma MiddleShare(ch: Channel, sample: int)
    requires 256 <= Shape(ch, Dynamic, sample).1.weight <= 768
    ensures var r := Shape(ch, Dynamic, sample);
            && -512 <= 1024 * (sample - r.0) - 2 * (768 - r.1.weight) * ch.error <= 512
            && r.1.error == -r.0
  {
    var f := 2 * (768 - Shape(ch, Dynamic, sample).1.weight);
    Nearest(f * ch.error);
    hide Round10;
  }

  lemma Nearest(p: int)
    ensures -512 <= 1024 * Round10(p) - p <= 512
  {
  }

  /** n is p / 1024, to the nearest whole number. */
  predicate IsNearest(n: int, p: int)
  {
    -512 <= 1024 * n - p <= 512
  }

  /** n, but one nearer to zero if it is the error itself. */
  function Bent(n: int, error: int): int
  {
    if n != error || n == 0 then n else if n < 0 then n + 1 else n - 1
  }

  /** The amount is p / 1024 to the nearest, bent. */
  ghost predicate Shares(amount: int, p: int, error: int)
  {
    exists n :: IsNearest(n, p) && amount == Bent(n, error)
  }

  /** Above 768 a share of the error that grows with the weight is added instead; but never the error itself, unless it
      is none: then it is one less. */
  lemma HeavyShare(ch: Channel, sample: int)
    requires Shape(ch, Dynamic, sample).1.weight > 768
    ensures var r := Shape(ch, Dynamic, sample);
            && Shares(r.0 - sample, 2 * (r.1.weight - 768) * ch.error, ch.error)
            && (ch.error != 0 ==> r.0 - sample != ch.error)
  {
    hide Round10, Shape, IsNearest;
    var w := Shape(ch, Dynamic, sample).1.weight;
    HeavyMoves(ch, sample);
    Opposite(2 * (w - 768), 1536 - w * 2, ch.error);
    IsRounded(2 * (w - 768) * ch.error);
  }

  lemma HeavyMoves(ch: Channel, sample: int)
    requires Shape(ch, Dynamic, sample).1.weight > 768
    ensures var r := Shape(ch, Dynamic, sample);
            r.0 - sample == Bent(-Round10((1536 - r.1.weight * 2) * ch.error), ch.error)
  {
    hide Round10;
  }

  lemma Opposite(a: int, b: int, e: int)
    requires b == -a
    ensures b * e == -(a * e)
  {
  }

  lemma IsRounded(p: int)
    ensures IsNearest(-Round10(-p), p)
  {
  }

  /** Without shaping the filter stays as it was, and the search aims at the sample itself. */
  lemma {:induction false} OffLeavesFilter(cfg: Config, ch: Channel, buf: seq<Sample>, k: nat, h: nat, t: nat)
    requires Enough(cfg, buf, k) && cfg.shaping == Off && h < cfg.channels && t <= 8 * k
    ensures var d := Trace(cfg, ch, buf, k, h, t); d == ch.(cursor := d.cursor)
    decreases t
  {
    hide Code, Advance, Round10;
    if t > 0 {
      OffLeavesFilter(cfg, ch, buf, k, h, t - 1);
      InReach(cfg, buf, k, h, t - 1);
    }
  }
}
