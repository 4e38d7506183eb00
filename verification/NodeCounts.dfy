/** How many nodes a channel obtains over a run: no more than were ever in its chain at one time (hg_buf.cpp). */
module NodeCounts {

  /** The nodes in the chain and the recycled ones. */
  datatype Counts = Counts(live: nat, idle: nat)

  /** Take: NewNode hangs a node into the chain. Give: DelchainL recycles the oldest one. */
  datatype Step = Take | Give

  /** The counts after `steps`, from a new chain. Only a Take without a recycled node obtains one. */
  function After(steps: seq<Step>): Counts
  {
    if steps == [] then Counts(0, 0)
    else
      var c := After(steps[..|steps| - 1]);
      match steps[|steps| - 1]
      case Take => Counts(c.live + 1, if c.idle > 0 then c.idle - 1 else 0)
      case Give => if c.live > 0 then Counts(c.live - 1, c.idle + 1) else c
  }

  function Obtained(steps: seq<Step>): nat
  {
    After(steps).live + After(steps).idle
  }

  lemma {:induction false} AfterSnoc(steps: seq<Step>, step: Step)
    ensures var c, d := After(steps), After(steps + [step]);
            && (step.Take? ==> d == Counts(c.live + 1, if c.idle > 0 then c.idle - 1 else 0))
            && (step.Give? ==> d == if c.live > 0 then Counts(c.live - 1, c.idle + 1) else c)
  {
    assert (steps + [step])[..|steps|] == steps;
  }

  lemma {:induction false} ObtainedBounds(steps: seq<Step>, k: nat)
    requires k <= |steps|
    ensures After(steps[..k]).live <= Obtained(steps)
  {
    if k < |steps| {
      var before := steps[..|steps| - 1];
      ObtainedBounds(before, k);
      assert before[..k] == steps[..k];
    } else {
      assert steps[..k] == steps;
    }
  }

  lemma {:induction false} ObtainedReached(steps: seq<Step>) returns (k: nat)
    ensures k <= |steps| && After(steps[..k]).live == Obtained(steps)
  {
    k := |steps|;
    assert steps[..k] == steps;
    if After(steps).idle > 0 {
      var before := steps[..|steps| - 1];
      k := ObtainedReached(before);
      assert before[..k] == steps[..k];
    }
  }

  /** The nodes obtained are as many as the chain has held at most. */
  lemma ObtainedIsPeak(steps: seq<Step>)
    ensures forall k :: 0 <= k <= |steps| ==> After(steps[..k]).live <= Obtained(steps)
    ensures exists k :: 0 <= k <= |steps| && After(steps[..k]).live == Obtained(steps)
  {
    forall k | 0 <= k <= |steps| ensures After(steps[..k]).live <= Obtained(steps) {
      ObtainedBounds(steps, k);
    }
    var k := ObtainedReached(steps);
    hide After, Obtained;
  }
}
