/** IMA ADPCM (adpcm-lib.c): what one 4-bit code does to a channel's value and step index. */
module AdpcmSteps {

  type StepSize = s: int | 7 <= s <= 32767 witness 7

  /** step_table. */
  const STEPS0: seq<StepSize> := [7, 8, 9, 10, 11, 12, 13, 14, 16, 17, 19, 21, 23, 25, 28, 31]
  const STEPS16: seq<StepSize> := [34, 37, 41, 45, 50, 55, 60, 66, 73, 80, 88, 97, 107, 118, 130, 143]
  const STEPS32: seq<StepSize> := [157, 173, 190, 209, 230, 253, 279, 307, 337, 371, 408, 449, 494, 544, 598, 658]
  const STEPS48: seq<StepSize> := [724, 796, 876, 963, 1060, 1166, 1282, 1411, 1552, 1707, 1878, 2066, 2272, 2499,
                                   2749, 3024]
  const STEPS64: seq<StepSize> := [3327, 3660, 4026, 4428, 4871, 5358, 5894, 6484, 7132, 7845, 8630, 9493, 10442,
                                   11487, 12635, 13899]
  const STEPS80: seq<StepSize> := [15289, 16818, 18500, 20350, 22385, 24623, 27086, 29794, 32767]
  const STEPS: seq<StepSize> := (STEPS0 + STEPS16 + STEPS32) + (STEPS48 + STEPS64 + STEPS80)

  type Index = i: int | 0 <= i <= 88
  type Sample = s: int | -32768 <= s <= 32767
  type Nibble = n: int | 0 <= n < 16

  function Step(i: Index): StepSize
  {
    STEPS[i]
  }

  /** The change a code makes at a given step size: bits 0 to 2 are a magnitude, bit 3 the sign. */
  function TrialDelta(step: int, nibble: Nibble): int
    requires 0 <= step
  {
    var d := step / 8 + (if nibble % 2 == 1 then step / 4 else 0)
             + (if nibble / 2 % 2 == 1 then step / 2 else 0) + (if nibble / 4 % 2 == 1 then step else 0);
    if nibble >= 8 then -d else d
  }

  function ClipSample(x: int): Sample
  {
    if x > 32767 then 32767 else if x < -32768 then -32768 else x
  }

  function ClipIndex(x: int): Index
  {
    if x > 88 then 88 else if x < 0 then 0 else x
  }

  /** index_table. */
  function IndexDelta(nibble: Nibble): int
  {
    var m := nibble % 8;
    if m < 4 then -1 else 2 * (m - 3)
  }

  /** A channel as encoder and decoder share it. */
  datatype Cursor = Cursor(pcm: Sample, index: Index)

  /** The effect of one code, the same in the encoder's two places and in the decoder's two. */
  function Advance(c: Cursor, nibble: Nibble): Cursor
  {
    Cursor(ClipSample(c.pcm + TrialDelta(Step(c.index), nibble)), ClipIndex(c.index + IndexDelta(nibble)))
  }

  /** How many quarters of a step fit into a distance, at most 7. */
  function Quarters(d: nat, step: StepSize): (m: int)
    ensures 0 <= m <= 7
    ensures m * step <= 4 * d && (m < 7 ==> 4 * d < (m + 1) * step)
  {
    QuotientBounds(4 * d, step);
    var q := 4 * d / step;
    if q > 7 then 7 else q
  }

  lemma QuotientBounds(n: nat, step: StepSize)
    ensures var q := n / step; 0 <= q && q * step <= n < (q + 1) * step && (q > 7 ==> 7 * step <= n)
  {
    var q := n / step;
    assert n == step * q + n % step;
    assert (q + 1) * step == step * q + step;
    assert q > 7 ==> 7 * step <= step * q;
  }

  /** The greedy code: the sign of the distance to `csample`, and as many quarter steps as fit into it. */
  function Greedy(c: Cursor, csample: int): Nibble
  {
    var delta := csample - c.pcm;
    if delta < 0 then 8 + Quarters(-delta, Step(c.index)) else Quarters(delta, Step(c.index))
  }

  /** The code's sign bit is set exactly for a sample below the value, and its magnitude is how many quarters of the
      step fit into the distance, at most 7. */
  lemma GreedyCode(c: Cursor, sample: int)
    ensures Greedy(c, sample) >= 8 <==> sample < c.pcm
    ensures var m, d: nat := Greedy(c, sample) % 8, if sample < c.pcm then c.pcm - sample else sample - c.pcm;
            m * Step(c.index) <= 4 * d && (m < 7 ==> 4 * d < (m + 1) * Step(c.index))
  {
    hide Quarters, Step;
  }

  /** What the roundings of a magnitude's parts lose, in eighths. */
  function Lost(step: int, m: int): int
  {
    step % 8 + (if m % 2 == 1 then 2 * (step % 4) else 0) + if m / 2 % 2 == 1 then 4 * (step % 2) else 0
  }

  /** What a magnitude stands for: its quarter steps and half of one more, less what the three roundings lose. */
  lemma Magnitude(step: StepSize, m: int)
    requires 0 <= m < 8
    ensures 8 * TrialDelta(step, m) == m * step * 2 + step - Lost(step, m)
    ensures m * step * 2 + step - 17 <= 8 * TrialDelta(step, m) <= m * step * 2 + step
    ensures TrialDelta(step, m + 8) == -TrialDelta(step, m)
  {
    Split(step, m % 2, m / 2 % 2, m / 4);
    assert m == m % 2 + 2 * (m / 2 % 2) + 4 * (m / 4);
  }

  lemma Split(step: StepSize, a: int, b: int, c: int)
    requires 0 <= a < 2 && 0 <= b < 2 && 0 <= c < 2
    ensures var m := a + 2 * b + 4 * c;
            var t := step / 8 + (if a == 1 then step / 4 else 0) + (if b == 1 then step / 2 else 0)
                + (if c == 1 then step else 0);
            m * step * 2 + step - 17 <= 8 * t <= m * step * 2 + step
            && 8 * t == m * step * 2 + step
                        - (step % 8 + (if a == 1 then 2 * (step % 4) else 0) + if b == 1 then 4 * (step % 2) else 0)
  {
  }

  lemma Clipping(x: int, target: Sample)
    ensures x <= target ==> x <= ClipSample(x) <= target
    ensures x >= target ==> target <= ClipSample(x) <= x
  {
  }

  /** The greedy code leaves an error of about an eighth of a step at most, as long as the target is less than two
      steps away; clipping never makes it worse. */
  lemma GreedyBound(c: Cursor, sample: Sample)
    requires -2 * Step(c.index) < sample - c.pcm < 2 * Step(c.index)
    ensures var e := Advance(c, Greedy(c, sample)).pcm - sample;
            8 * e < Step(c.index) + 17 && 8 * -e < Step(c.index) + 17
  {
    hide Step;
    var step, delta := Step(c.index), sample - c.pcm;
    var d := if delta < 0 then -delta else delta;
    var m := Quarters(d, step);
    Magnitude(step, m);
    Nearby(m * step, m, step, d, TrialDelta(step, m));
    Clipping(c.pcm + TrialDelta(step, Greedy(c, sample)), sample);
    hide TrialDelta, ClipSample, Quarters;
  }

  lemma Nearby(w: int, m: int, step: StepSize, d: int, t: int)
    requires 0 <= d < 2 * step && 0 <= m <= 7 && w == m * step
    requires w <= 4 * d && (m < 7 ==> 4 * d < (m + 1) * step)
    requires w * 2 + step - 17 <= 8 * t <= w * 2 + step
    ensures -(step + 17) < 8 * (t - d) < step + 17
  {
    assert (m + 1) * step == w + step;
  }
}
