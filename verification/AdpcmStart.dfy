/** The search for an initial index in adpcm_create_context (adpcm-lib.c). */
module AdpcmStarts {
  import opened AdpcmSteps

  lemma LowGrows(i: Index)
    requires i < 44
    ensures Step(i) < Step(i + 1)
  {
  }

  lemma HighGrows(i: Index)
    requires 44 <= i < 88
    ensures Step(i) < Step(i + 1)
  {
  }

  /** The table of steps grows. */
  lemma {:induction false} StepsGrow(i: Index, j: Index)
    requires i < j
    ensures Step(i) < Step(j)
    decreases j - i
  {
    hide Step;
    if i < 44 {
      LowGrows(i);
    } else {
      HighGrows(i);
    }
    if i + 1 < j {
      StepsGrow(i + 1, j);
    }
  }

  function Distance(x: int, y: int): nat
  {
    if x < y then y - x else x - y
  }

  /** No step of the table is closer to delta. */
  ghost predicate Closest(delta: int, i: Index)
  {
    forall j: Index :: Distance(delta, Step(i)) <= Distance(delta, Step(j))
  }

  /** Where the search for an initial index ends: below the middle, rounded down, of this step and the next, and not
      below that of an earlier step and its next. */
  predicate Found(delta: int, i: Index)
  {
    (i < 88 ==> delta < (Step(i) + Step(i + 1)) / 2) && (i > 0 ==> (Step(i - 1) + Step(i)) / 2 <= delta)
  }

  /** It ends in one place only. */
  lemma FoundOnce(delta: int, i: Index, j: Index)
    requires Found(delta, i) && Found(delta, j)
    ensures i == j
  {
    if i < j {
      MiddlesGrow(i, j);
    } else if j < i {
      MiddlesGrow(j, i);
    }
    hide Step;
  }

  lemma MiddlesGrow(i: Index, j: Index)
    requires i < j
    ensures (Step(i) + Step(i + 1)) / 2 <= (Step(j - 1) + Step(j)) / 2
  {
    hide Step;
    if i < j - 1 {
      StepsGrow(i, j - 1);
      StepsGrow(i + 1, j);
    }
  }

  /** The delta lies half below the middle of a step and the next. */
  ghost predicate BelowMiddle(delta: int)
  {
    exists k: Index :: k < 88 && 2 * delta + 1 == Step(k) + Step(k + 1)
  }

  /** For every delta, the index found is a closest one except exactly when the delta lies half below such a middle. */
  lemma ClosestExactly(delta: int, i: Index)
    requires Found(delta, i)
    ensures Closest(delta, i) <==> !BelowMiddle(delta)
  {
    hide Step;
    if BelowMiddle(delta) {
      var k: Index :| k < 88 && 2 * delta + 1 == Step(k) + Step(k + 1);
      MiddleFound(delta, k);
      FoundOnce(delta, i, k + 1);
      StepsGrow(k, k + 1);
      assert Distance(delta, Step(k)) < Distance(delta, Step(k + 1));
    } else {
      assert i > 0 ==> 2 * delta + 1 != Step(i - 1) + Step(i - 1 + 1);
      forall j: Index ensures Distance(delta, Step(i)) <= Distance(delta, Step(j)) {
        NoneCloser(delta, i, j);
      }
    }
  }

  /** Half below the middle of step k and the next, the search goes on to the next. */
  lemma MiddleFound(delta: int, k: Index)
    requires k < 88 && 2 * delta + 1 == Step(k) + Step(k + 1)
    ensures Found(delta, k + 1)
  {
    hide Step;
    if k + 1 < 88 {
      StepsGrow(k, k + 1);
      StepsGrow(k + 1, k + 2);
    }
  }

  lemma NoneCloser(delta: int, i: Index, j: Index)
    requires Found(delta, i) && !(i > 0 && 2 * delta + 1 == Step(i - 1) + Step(i))
    ensures Distance(delta, Step(i)) <= Distance(delta, Step(j))
  {
    hide Step;
    if j < i {
      StepsGrow(i - 1, i);
      if j < i - 1 { StepsGrow(j, i - 1); }
    } else if i < j {
      StepsGrow(i, i + 1);
      if i + 1 < j { StepsGrow(i + 1, j); }
    }
  }

  /** A delta of 16 is itself a step, but the search yields the index of step 17. */
  lemma SixteenMissed(i: Index)
    requires Found(16, i)
    ensures i == 9 && Step(8) == 16 && Step(i) == 17 && !Closest(16, i)
  {
    assert Step(8) == 16 && Step(9) == 17 && Step(10) == 19;
    FoundOnce(16, i, 9);
    assert Distance(16, Step(8)) < Distance(16, Step(9));
  }
}
