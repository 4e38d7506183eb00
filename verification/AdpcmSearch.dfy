/** The encoder's look-ahead search (minimum_error of adpcm-lib.c). The doubles it adds up are whole numbers, and
    are integers here. */
module AdpcmSearches {
  import opened AdpcmSteps

  /** The squared error of a reconstructed value. */
  function Err(pcm: int, csample: int): (e: int)
    ensures 0 <= e
  {
    (pcm - csample) * (pcm - csample)
  }

  /** The position of the sample `depth` steps on, at a stride of nch. */
  function Far(p: nat, nch: nat, depth: nat): (q: nat)
    ensures p <= q
    decreases depth
  {
    if depth == 0 then p else Far(p + nch, nch, depth - 1)
  }

  /** The error of taking code n now and searching on for the rest of the depth. */
  function Cost(c: Cursor, csample: int, buf: seq<Sample>, p: nat, nch: nat, depth: nat, n: Nibble): (e: int)
    requires 0 < depth && Far(p, nch, depth) < |buf|
    ensures 0 <= e
    decreases depth, 17
  {
    Err(Advance(c, n).pcm, csample) + Full(Advance(c, n), buf[p + nch], buf, p + nch, nch, depth - 1)
  }

  /** The best of the greedy code and the codes below n; of equals, the one met first. */
  function BestOf(c: Cursor, csample: int, buf: seq<Sample>, p: nat, nch: nat, depth: nat, n: nat): Nibble
    requires 0 < depth && Far(p, nch, depth) < |buf| && n <= 16
    decreases depth, 18, n
  {
    if n == 0 then Greedy(c, csample)
    else
      var b := BestOf(c, csample, buf, p, nch, depth, n - 1);
      if Cost(c, csample, buf, p, nch, depth, n - 1) < Cost(c, csample, buf, p, nch, depth, b) then n - 1 else b
  }

  /** The code the search settles on. */
  function Best(c: Cursor, csample: int, buf: seq<Sample>, p: nat, nch: nat, depth: nat): Nibble
    requires Far(p, nch, depth) < |buf|
    decreases depth, 19
  {
    if depth == 0 then Greedy(c, csample) else BestOf(c, csample, buf, p, nch, depth, 16)
  }

  /** The error of the full search, without any cut-off. */
  function Full(c: Cursor, csample: int, buf: seq<Sample>, p: nat, nch: nat, depth: nat): (e: int)
    requires Far(p, nch, depth) < |buf|
    ensures 0 <= e
    decreases depth, 20
  {
    var b := Best(c, csample, buf, p, nch, depth);
    if depth == 0 then Err(Advance(c, b).pcm, csample) else Cost(c, csample, buf, p, nch, depth, b)
  }

  /** The error of one particular choice of codes, greedy where they run out. */
  function PathError(c: Cursor, csample: int, buf: seq<Sample>, p: nat, nch: nat, path: seq<Nibble>): int
    requires Far(p, nch, |path|) < |buf|
    decreases |path|
  {
    if path == [] then Err(Advance(c, Greedy(c, csample)).pcm, csample)
    else
      Err(Advance(c, path[0]).pcm, csample)
      + PathError(Advance(c, path[0]), buf[p + nch], buf, p + nch, nch, path[1..])
  }

  lemma {:induction false} BestOfIsLeast(c: Cursor, csample: int, buf: seq<Sample>, p: nat, nch: nat, depth: nat,
                                         n: nat, k: Nibble)
    requires 0 < depth && Far(p, nch, depth) < |buf| && k < n <= 16
    ensures Cost(c, csample, buf, p, nch, depth, BestOf(c, csample, buf, p, nch, depth, n))
         <= Cost(c, csample, buf, p, nch, depth, k)
    decreases n
  {
    hide Cost;
    if k < n - 1 {
      BestOfIsLeast(c, csample, buf, p, nch, depth, n - 1, k);
    }
  }

  /** The search returns the least error over all choices of `depth` codes. */
  lemma {:induction false} FullIsLeast(c: Cursor, csample: int, buf: seq<Sample>, p: nat, nch: nat, path: seq<Nibble>)
    requires Far(p, nch, |path|) < |buf|
    ensures Full(c, csample, buf, p, nch, |path|) <= PathError(c, csample, buf, p, nch, path)
    decreases |path|
  {
    if path != [] {
      BestOfIsLeast(c, csample, buf, p, nch, |path|, 16, path[0]);
      FullIsLeast(Advance(c, path[0]), buf[p + nch], buf, p + nch, nch, path[1..]);
    }
  }

  /** Of codes with the same error the greedy one is taken, or else the lowest. */
  lemma {:induction false} FirstOfEquals(c: Cursor, csample: int, buf: seq<Sample>, p: nat, nch: nat, depth: nat,
                                         n: nat)
    requires 0 < depth && Far(p, nch, depth) < |buf| && n <= 16
    ensures var b, g := BestOf(c, csample, buf, p, nch, depth, n), Greedy(c, csample);
            b == g || (Cost(c, csample, buf, p, nch, depth, b) < Cost(c, csample, buf, p, nch, depth, g)
                       && forall k: Nibble :: k < b ==> Cost(c, csample, buf, p, nch, depth, b)
                                                         < Cost(c, csample, buf, p, nch, depth, k))
    decreases n
  {
    hide Cost, Greedy;
    if n > 0 {
      FirstOfEquals(c, csample, buf, p, nch, depth, n - 1);
      var b := BestOf(c, csample, buf, p, nch, depth, n - 1);
      if Cost(c, csample, buf, p, nch, depth, n - 1) < Cost(c, csample, buf, p, nch, depth, b) {
        forall k: Nibble | k < n - 1
          ensures Cost(c, csample, buf, p, nch, depth, n - 1) < Cost(c, csample, buf, p, nch, depth, k)
        {
          BestOfIsLeast(c, csample, buf, p, nch, depth, n - 1, k);
        }
      }
    }
  }

  /** And there is a choice with that error, beginning with the code the search settles on. */
  lemma {:induction false} FullIsAttained(c: Cursor, csample: int, buf: seq<Sample>, p: nat, nch: nat, depth: nat)
    returns (path: seq<Nibble>)
    requires Far(p, nch, depth) < |buf|
    ensures |path| == depth && PathError(c, csample, buf, p, nch, path) == Full(c, csample, buf, p, nch, depth)
    ensures depth > 0 ==> path[0] == Best(c, csample, buf, p, nch, depth)
    decreases depth
  {
    hide Advance, Err, BestOf, Greedy;
    if depth == 0 {
      path := [];
    } else {
      var b := Best(c, csample, buf, p, nch, depth);
      var rest := FullIsAttained(Advance(c, b), buf[p + nch], buf, p + nch, nch, depth - 1);
      path := [b] + rest;
      assert path[1..] == rest;
    }
  }

  // ---- The same as distances between sequences ----

  /** What a decoder puts out for the codes `path`, and for the greedy code at the end of the search. */
  function Outputs(c: Cursor, csample: int, buf: seq<Sample>, p: nat, nch: nat, path: seq<Nibble>): seq<int>
    requires Far(p, nch, |path|) < |buf|
    decreases |path|
  {
    if path == [] then [Advance(c, Greedy(c, csample)).pcm]
    else [Advance(c, path[0]).pcm] + Outputs(Advance(c, path[0]), buf[p + nch], buf, p + nch, nch, path[1..])
  }

  /** What it should put out: the sample shaped, and those of its channel that follow. */
  function Wanted(csample: int, buf: seq<Sample>, p: nat, nch: nat, depth: nat): seq<int>
    requires Far(p, nch, depth) < |buf|
    decreases depth
  {
    [csample] + if depth == 0 then [] else Wanted(buf[p + nch], buf, p + nch, nch, depth - 1)
  }

  /** The sum of the squared distances of two sequences. */
  function SquareSum(xs: seq<int>, ys: seq<int>): int
    requires |xs| == |ys|
  {
    if xs == [] then 0 else (ys[0] - xs[0]) * (ys[0] - xs[0]) + SquareSum(xs[1..], ys[1..])
  }

  lemma {:induction false} PathErrorIsSquares(c: Cursor, csample: int, buf: seq<Sample>, p: nat, nch: nat,
                                              path: seq<Nibble>)
    requires Far(p, nch, |path|) < |buf|
    ensures var xs, ys := Outputs(c, csample, buf, p, nch, path), Wanted(csample, buf, p, nch, |path|);
            |xs| == |ys| == |path| + 1 && PathError(c, csample, buf, p, nch, path) == SquareSum(xs, ys)
    decreases |path|
  {
    hide Advance, Greedy;
    if path == [] {
      OneSquare(Advance(c, Greedy(c, csample)).pcm, csample);
    } else {
      var d := Advance(c, path[0]);
      PathErrorIsSquares(d, buf[p + nch], buf, p + nch, nch, path[1..]);
      var xs, ys := Outputs(d, buf[p + nch], buf, p + nch, nch, path[1..]),
                    Wanted(buf[p + nch], buf, p + nch, nch, |path| - 1);
      assert ([d.pcm] + xs)[1..] == xs && ([csample] + ys)[1..] == ys;
      Square(d.pcm, csample);
    }
  }

  lemma Square(x: int, y: int)
    ensures Err(x, y) == (y - x) * (y - x)
  {
  }

  lemma OneSquare(x: int, y: int)
    ensures SquareSum([x], [y]) == Err(x, y)
  {
    Square(x, y);
    assert SquareSum([x][1..], [y][1..]) == 0;
  }

  /** The search returns the least sum of squared distances over all choices of codes, and the code it settles on begins
      a choice that attains it. */
  lemma LeastSquares(c: Cursor, csample: int, buf: seq<Sample>, p: nat, nch: nat, depth: nat)
    returns (best: seq<Nibble>)
    requires Far(p, nch, depth) < |buf|
    ensures |best| == depth && (depth > 0 ==> best[0] == Best(c, csample, buf, p, nch, depth))
    ensures |Outputs(c, csample, buf, p, nch, best)| == |Wanted(csample, buf, p, nch, depth)|
    ensures Full(c, csample, buf, p, nch, depth)
         == SquareSum(Outputs(c, csample, buf, p, nch, best), Wanted(csample, buf, p, nch, depth))
    ensures forall path: seq<Nibble> {:trigger Outputs(c, csample, buf, p, nch, path)} | |path| == depth ::
              |Outputs(c, csample, buf, p, nch, path)| == |Wanted(csample, buf, p, nch, depth)|
              && Full(c, csample, buf, p, nch, depth)
                 <= SquareSum(Outputs(c, csample, buf, p, nch, path), Wanted(csample, buf, p, nch, depth))
  {
    hide Full, Outputs, Wanted, SquareSum, PathError, Best, Far;
    best := FullIsAttained(c, csample, buf, p, nch, depth);
    PathErrorIsSquares(c, csample, buf, p, nch, best);
    forall path: seq<Nibble> {:trigger Outputs(c, csample, buf, p, nch, path)} | |path| == depth
      ensures |Outputs(c, csample, buf, p, nch, path)| == |Wanted(csample, buf, p, nch, depth)|
      ensures Full(c, csample, buf, p, nch, depth)
           <= SquareSum(Outputs(c, csample, buf, p, nch, path), Wanted(csample, buf, p, nch, depth))
    {
      FullIsLeast(c, csample, buf, p, nch, path);
      PathErrorIsSquares(c, csample, buf, p, nch, path);
    }
  }

  /** minimum_error: the same result with a cut-off that skips codes whose own error is already too large. */
  method MinimumError(c: Cursor, csample: int, buf: seq<Sample>, p: nat, nch: nat, depth: nat)
    returns (minError: int, bestNibble: Nibble)
    requires Far(p, nch, depth) < |buf|
    ensures minError == Full(c, csample, buf, p, nch, depth)
    ensures bestNibble == Best(c, csample, buf, p, nch, depth)
    decreases depth
  {
    hide Step, Advance, Err, Greedy;
    var nibble := Greedy(c, csample);
    bestNibble := nibble;
    var chan := Advance(c, nibble);
    minError := Err(chan.pcm, csample);
    if depth == 0 {
      return;
    }
    var more, _ := MinimumError(chan, buf[p + nch], buf, p + nch, nch, depth - 1);
    minError := minError + more;
    for nibble2 := 0 to 16
      invariant bestNibble == BestOf(c, csample, buf, p, nch, depth, nibble2)
      invariant minError == Cost(c, csample, buf, p, nch, depth, bestNibble)
      invariant minError <= Cost(c, csample, buf, p, nch, depth, nibble)
    {
      if nibble2 == nibble {
        continue;
      }
      var chan2 := Advance(c, nibble2);
      var error := Err(chan2.pcm, csample);
      if error < minError {
        var rest, _ := MinimumError(chan2, buf[p + nch], buf, p + nch, nch, depth - 1);
        error := error + rest;
        if error < minError {
          bestNibble := nibble2;
          minError := error;
        }
      }
    }
  }
}
