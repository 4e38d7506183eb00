/** How the step size follows the signal (adpcm-lib.c): it climbs while the input is far away, and a constant input
    settles. */
module AdpcmSettling {
  import opened AdpcmSteps
  import opened AdpcmSearches
  import opened AdpcmCodecs
  import opened AdpcmBlocks
  import opened Bytes

  /** Codes of magnitude 0 to 3 lower the index by one, 4 to 7 raise it by 2, 4, 6 and 8, within 0 and 88. */
  lemma AdvanceIndex(c: Cursor, code: Nibble)
    ensures var i := Advance(c, code).index;
            && (code % 8 < 4 ==> i == if c.index == 0 then 0 else c.index - 1)
            && (code % 8 == 4 ==> i == if c.index + 2 > 88 then 88 else c.index + 2)
            && (code % 8 == 5 ==> i == if c.index + 4 > 88 then 88 else c.index + 4)
            && (code % 8 == 6 ==> i == if c.index + 6 > 88 then 88 else c.index + 6)
            && (code % 8 == 7 ==> i == if c.index + 8 > 88 then 88 else c.index + 8)
  {
    hide Step, TrialDelta, ClipSample;
  }

  /** Each step but the last is a tenth larger than the one before, as near as whole numbers go; the first is 7, the
      last the largest sample. */
  lemma TenthLarger(i: Index)
    ensures i < 87 ==> -8 <= 10 * Step(i + 1) - 11 * Step(i) <= 8
    ensures Step(0) == 7 && Step(88) == 32767 && Step(87) == 29794
  {
    if i < 44 {
      LowTenth(i);
    } else if i < 87 {
      HighTenth(i);
    }
  }

  lemma LowTenth(i: Index)
    requires i < 44
    ensures -8 <= 10 * Step(i + 1) - 11 * Step(i) <= 8
  {
  }

  lemma HighTenth(i: Index)
    requires 44 <= i < 87
    ensures -8 <= 10 * Step(i + 1) - 11 * Step(i) <= 8
  {
  }

  function Dist(x: int, y: int): nat
  {
    if x < y then y - x else x - y
  }

  /** One sample without look-ahead and noise shaping. */
  function Next(c: Cursor, x: Sample): Cursor
  {
    Advance(c, Greedy(c, x))
  }

  /** A target two steps away or more gets the largest code: the index goes up by 8, and the value comes nearer by the
      step and its half, quarter and eighth. */
  lemma FarCode(c: Cursor, x: Sample)
    requires Dist(c.pcm, x) >= 2 * Step(c.index)
    ensures Greedy(c, x) == if c.pcm < x then 7 else 15
    ensures var d, s := Next(c, x), Step(c.index);
            && d.index == (if c.index + 8 > 88 then 88 else c.index + 8)
            && Dist(d.pcm, x) == Dist(c.pcm, x) - (s + s / 2 + s / 4 + s / 8)
  {
    hide Step, Quarters, TrialDelta, ClipSample;
    AdvanceIndex(c, 7);
    AdvanceIndex(c, 15);
    SevenQuarters(Dist(c.pcm, x), Step(c.index));
    SevenDelta(Step(c.index));
    ClipInside(c.pcm + TrialDelta(Step(c.index), Greedy(c, x)));
  }

  lemma SevenQuarters(d: nat, step: StepSize)
    requires d >= 2 * step
    ensures Quarters(d, step) == 7
  {
    hide Quarters;
    AtMostSeven(Quarters(d, step), step);
  }

  lemma AtMostSeven(m: int, step: StepSize)
    ensures m < 7 ==> (m + 1) * step <= 7 * step
  {
  }

  lemma SevenDelta(s: StepSize)
    ensures var d := s + s / 2 + s / 4 + s / 8; d <= 2 * s && TrialDelta(s, 7) == d && TrialDelta(s, 15) == -d
  {
  }

  lemma ClipInside(x: int)
    requires -32768 <= x <= 32767
    ensures ClipSample(x) == x
  {
  }

  /** A target less than two steps away is within one of the next steps afterwards. */
  lemma ComesNear(c: Cursor, x: Sample)
    requires Dist(c.pcm, x) < 2 * Step(c.index)
    ensures var d := Next(c, x); Dist(d.pcm, x) < Step(d.index) && 8 * Dist(d.pcm, x) < Step(c.index) + 17
  {
    hide Step, TrialDelta, ClipSample, Quarters, Greedy;
    var d := Next(c, x);
    GreedyBound(c, x);
    AdvanceIndex(c, Greedy(c, x));
    assert d.index >= c.index - 1;
    StepsFollow(c.index, d.index);
  }

  lemma StepsFollow(i: Index, j: Index)
    requires j >= i - 1
    ensures Step(i) + 17 <= 8 * Step(j)
  {
    hide Step;
    if j < i {
      TenthLarger(j);
    } else {
      Growing(i, j);
    }
    Growing(0, i);
    TenthLarger(0);
  }

  lemma {:induction false} Growing(i: Index, j: Index)
    requires i <= j
    ensures Step(i) <= Step(j)
    decreases j - i
  {
    hide Step;
    if i < j {
      TenthLarger(i);
      Growing(i + 1, j);
    }
  }

  /** A target within one step gets a code below 4: the index goes down by one. */
  lemma NearCode(c: Cursor, x: Sample)
    requires Dist(c.pcm, x) < Step(c.index)
    ensures Next(c, x).index == if c.index == 0 then 0 else c.index - 1
  {
    hide Step, TrialDelta, ClipSample;
    QuartersSmall(Dist(c.pcm, x), Step(c.index));
    AdvanceIndex(c, Greedy(c, x));
  }

  lemma QuartersSmall(d: nat, step: StepSize)
    requires d < step
    ensures Quarters(d, step) < 4
  {
    var m := Quarters(d, step);
    hide Quarters;
    FourTimes(m, step);
  }

  lemma FourTimes(m: int, step: StepSize)
    ensures m >= 4 ==> m * step >= 4 * step
  {
  }

  /** The cursor after the samples `xs`, without look-ahead and noise shaping. */
  function Follow(c: Cursor, xs: seq<Sample>): Cursor
  {
    if xs == [] then c else Next(Follow(c, xs[..|xs| - 1]), xs[|xs| - 1])
  }

  /** Every sample is two steps or more from what has been reached before it. */
  predicate AllFar(c: Cursor, xs: seq<Sample>)
  {
    xs == [] || (AllFar(c, xs[..|xs| - 1])
                 && var d := Follow(c, xs[..|xs| - 1]); Dist(d.pcm, xs[|xs| - 1]) >= 2 * Step(d.index))
  }

  /** As long as the input runs away the index goes up by 8, so that 11 such samples bring the largest step. */
  lemma {:induction false} AttackClimbs(c: Cursor, xs: seq<Sample>)
    requires AllFar(c, xs)
    ensures Follow(c, xs).index == if c.index + 8 * |xs| > 88 then 88 else c.index + 8 * |xs|
    ensures |xs| >= 11 ==> Step(Follow(c, xs).index) == 32767
  {
    hide Step, Next;
    TenthLarger(0);
    if xs != [] {
      var before := xs[..|xs| - 1];
      AttackClimbs(c, before);
      FarCode(Follow(c, before), xs[|xs| - 1]);
    }
  }

  // ---- A constant input ----

  /** The cursor after n samples of value x. */
  function Hold(c: Cursor, x: Sample, n: nat): Cursor
  {
    if n == 0 then c else Next(Hold(c, x, n - 1), x)
  }

  predicate Near(c: Cursor, x: Sample)
  {
    Dist(c.pcm, x) < 2 * Step(c.index)
  }

  /** Within 11 samples the value is less than two steps away. */
  lemma {:induction false} Approaches(c: Cursor, x: Sample, n: nat)
    requires forall k :: 0 <= k < n ==> !Near(Hold(c, x, k), x)
    ensures n <= 11
    ensures Hold(c, x, n).index >= (if 8 * n > 88 then 88 else 8 * n)
    ensures n > 0 ==> Dist(Hold(c, x, n).pcm, x) < 65530
    decreases n
  {
    hide Step, Next;
    if n > 0 {
      Approaches(c, x, n - 1);
      var d := Hold(c, x, n - 1);
      TenthLarger(0);
      assert !Near(d, x);
      FarCode(d, x);
    }
  }

  /** Where it first is near. */
  lemma {:induction false} FirstNear(c: Cursor, x: Sample, n: nat) returns (k: nat)
    requires n <= 11 && forall j :: 0 <= j < n ==> !Near(Hold(c, x, j), x)
    ensures k <= 11 && Near(Hold(c, x, k), x)
    decreases 12 - n
  {
    hide Near, Hold, Step, Next;
    if Near(Hold(c, x, n), x) {
      k := n;
    } else {
      Approaches(c, x, n + 1);
      k := FirstNear(c, x, n + 1);
    }
  }

  /** From then on every sample lowers the index, and the value stays within an eighth of the step. */
  lemma {:induction false} Descends(c: Cursor, x: Sample, k: nat, n: nat)
    requires Near(Hold(c, x, k), x)
    ensures var d, e := Hold(c, x, k + n + 1), Hold(c, x, k + n);
            && Dist(d.pcm, x) < Step(d.index) && 8 * Dist(d.pcm, x) < Step(e.index) + 17
            && d.index <= if n >= 88 then 0 else 88 - n
    decreases n
  {
    hide Step, Next;
    if n > 0 {
      Descends(c, x, k, n - 1);
      NearCode(Hold(c, x, k + n), x);
    }
    ComesNear(Hold(c, x, k + n), x);
  }

  /** A constant input, silence for one, brings the index back to 0 and the value within 2 of the input, from any state,
      and they stay there. */
  lemma {:induction false} Settles(c: Cursor, x: Sample, n: nat)
    requires n >= 101
    ensures Hold(c, x, n).index == 0 && Dist(Hold(c, x, n).pcm, x) <= 2
  {
    hide Hold, Near, Step;
    var k := FirstNear(c, x, 0);
    Descends(c, x, k, n - k - 1);
    Descends(c, x, k, n - k - 2);
    TenthLarger(0);
  }

  // ---- In a block ----

  /** Without look-ahead and shaping the code is the greedy one for the sample itself. */
  lemma PlainStep(cfg: Config, ch: Channel, buf: seq<Sample>, k: nat, h: nat, t: nat)
    requires Enough(cfg, buf, k) && cfg.shaping == Off && cfg.lookahead == 0 && h < cfg.channels && t < 8 * k
    ensures Position(cfg.channels, h, t) < |buf|
    ensures Trace(cfg, ch, buf, k, h, t + 1).cursor
         == Next(Trace(cfg, ch, buf, k, h, t).cursor, buf[Position(cfg.channels, h, t)])
  {
    InReach(cfg, buf, k, h, t);
    TraceStep(cfg, ch, buf, k, h, t);
    hide Advance, Greedy, Trace;
  }

  lemma {:induction false} TraceHolds(cfg: Config, ch: Channel, buf: seq<Sample>, k: nat, h: nat, from: nat, n: nat,
                                      x: Sample)
    requires Enough(cfg, buf, k) && cfg.shaping == Off && cfg.lookahead == 0 && h < cfg.channels && from + n <= 8 * k
    requires Held(cfg, buf, k, h, from, n, x)
    ensures Trace(cfg, ch, buf, k, h, from + n).cursor == Hold(Trace(cfg, ch, buf, k, h, from).cursor, x, n)
    decreases n
  {
    hide Trace, Next, Enough;
    if n > 0 {
      TraceHolds(cfg, ch, buf, k, h, from, n - 1, x);
      PlainStep(cfg, ch, buf, k, h, from + n - 1);
    }
  }

  /** Samples from .. from + n of channel h are all x. */
  predicate Held(cfg: Config, buf: seq<Sample>, k: nat, h: nat, from: nat, n: nat, x: Sample)
    requires Enough(cfg, buf, k) && h < cfg.channels && from + n <= 8 * k
  {
    n == 0 || (Held(cfg, buf, k, h, from, n - 1, x)
               && (InReach(cfg, buf, k, h, from + n - 1);
                   buf[Position(cfg.channels, h, from + n - 1)] == x))
  }

  /** What a listener gets: when a channel has held a value for 101 samples the decoder puts out that value to within 2,
      as long as it is held, whatever came before. */
  lemma {:induction false} DecodedSettles(block: seq<byte>, cfg: Config, chs: seq<Channel>, buf: seq<Sample>, k: nat,
                                          h: nat, from: nat, n: nat, x: Sample)
    requires Enough(cfg, buf, k) && cfg.channels <= |chs| && Carries(block, cfg, chs, buf, k)
    requires cfg.shaping == Off && cfg.lookahead == 0 && h < cfg.channels
    requires 101 <= n && from + n <= 8 * k && Held(cfg, buf, k, h, from, n, x)
    ensures Readable(block, cfg.channels, k)
    ensures var c := Decoded(block, cfg.channels, k, h, from + n); c.index == 0 && Dist(c.pcm, x) <= 2
  {
    hide Carries, Trace, Hold, Decoded, Enough, Held, Readable;
    Lockstep(block, cfg, chs, buf, k, h, from + n);
    TraceHolds(cfg, chs[h], buf, k, h, from, n, x);
    Settles(Trace(cfg, chs[h], buf, k, h, from).cursor, x, n);
  }
}
