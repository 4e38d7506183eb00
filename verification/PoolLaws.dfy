/** When the pool takes a page, which one, and how well it fills them (hg_pool.c). */
module PoolLaws {
  import opened Bytes
  import opened PoolSpecs

  /** The last live page has room for a block of `size` bytes and its header of 8. */
  predicate Room(p: Pool, size: nat)
  {
    p.live != [] && p.live[|p.live| - 1].roffset + size + 8 <= p.tLen
  }

  /** The same pages, but for a block of `size` bytes at the fill mark of page k. */
  ghost predicate Placed(before: seq<Page>, after: seq<Page>, k: nat, size: nat)
    requires |before| == |after| && k < |before|
  {
    && (forall i :: 0 <= i < |before| && i != k ==> after[i] == before[i])
    && after[k].id == before[k].id && after[k].roffset == before[k].roffset + size + 8
    && after[k].s == before[k].s + size + 8 && after[k].blocks == before[k].blocks + [Block(before[k].roffset, size)]
  }

  /** A request that fits a page is given the bytes behind those taken from the last live page; a page is taken exactly
      when that one has no room or there is none: the page recycled longest ago, or a new one if none is recycled. A
      request that does not fit a page gets nothing. */
  lemma AllocPlaces(p: Pool, size: nat)
    ensures var q := Alloc(p, size);
            && (size + 8 > p.tLen ==> q == p)
            && (Room(p, size) ==> && |q.live| == |p.live| && Placed(p.live, q.live, |p.live| - 1, size)
                                  && q.idle == p.idle && q.total == p.total)
            && (size + 8 <= p.tLen && !Room(p, size) ==>
                 && |q.live| == |p.live| + 1
                 && (exists id :: Placed(p.live + [Page(id, 0, 0, [])], q.live, |p.live|, size)
                                  && (if p.idle == [] then id == p.total else id == p.idle[0]))
                 && q.idle == (if p.idle == [] then [] else p.idle[1..])
                 && q.total == p.total + if p.idle == [] then 1 else 0)
  {
    if size + 8 <= p.tLen && !Room(p, size) {
      var id := if p.idle == [] then p.total else p.idle[0];
      assert Placed(p.live + [Page(id, 0, 0, [])], Alloc(p, size).live, |p.live|, size);
    }
  }

  // ---- Pages are reused in the order in which they were recycled ----

  /** The pages recycled in the course of a run, in order: those whose only block was freed. */
  function Recycled(tLen: nat, ops: seq<Op>): seq<nat>
  {
    if ops == [] then []
    else
      var p, op := Run(tLen, ops[..|ops| - 1]), ops[|ops| - 1];
      Recycled(tLen, ops[..|ops| - 1])
      + if op.Release? && op.page < |p.live| && op.block < |p.live[op.page].blocks| && |p.live[op.page].blocks| == 1
        then [p.live[op.page].id] else []
  }

  /** The recycled pages that were used again, in order. */
  function Reused(tLen: nat, ops: seq<Op>): seq<nat>
  {
    if ops == [] then []
    else
      var p, q, op := Run(tLen, ops[..|ops| - 1]), Run(tLen, ops), ops[|ops| - 1];
      Reused(tLen, ops[..|ops| - 1])
      + if op.Allocate? && |q.live| > |p.live| && p.idle != [] then [q.live[|q.live| - 1].id] else []
  }

  /** In every run the pages used again and those still waiting are the pages recycled, in order. */
  lemma {:induction false} ReusedInOrder(tLen: nat, ops: seq<Op>)
    ensures Reused(tLen, ops) + Run(tLen, ops).idle == Recycled(tLen, ops)
  {
    if ops != [] {
      var before, op := ops[..|ops| - 1], ops[|ops| - 1];
      var p := Run(tLen, before);
      hide Alloc, Free;
      ReusedInOrder(tLen, before);
      InvAlways(tLen, before);
      match op
      case Allocate(size) => AllocOrder(p, size);
      case Release(i, j) =>
        if i < |p.live| && j < |p.live[i].blocks| {
          FreeOrder(p, i, j);
        }
    }
  }

  lemma AllocOrder(p: Pool, size: nat)
    ensures var q := Alloc(p, size);
            if |q.live| > |p.live| && p.idle != [] then [q.live[|q.live| - 1].id] + q.idle == p.idle
            else q.idle == p.idle
  {
  }

  lemma FreeOrder(p: Pool, i: nat, j: nat)
    requires Inv(p) && i < |p.live| && j < |p.live[i].blocks|
    ensures Free(p, i, j).idle == p.idle + if |p.live[i].blocks| == 1 then [p.live[i].id] else []
  {
    UnblockOk(p.live[i], j, p.tLen);
    hide PageOk, Sum, IdsOk;
  }

  // ---- How many pages a run takes ----

  /** What a run of allocations asks for, headers included, leaving out what fits no page. */
  function Asked(tLen: nat, ops: seq<Op>): nat
  {
    if ops == [] then 0
    else
      var op := ops[|ops| - 1];
      Asked(tLen, ops[..|ops| - 1]) + if op.Allocate? && op.size + 8 <= tLen then op.size + 8 else 0
  }

  /** In every run a page is taken only for a request that would overfill the last one. */
  lemma {:induction false} TakenWhenFull(tLen: nat, ops: seq<Op>, size: nat)
    ensures var p, q := Run(tLen, ops), Run(tLen, ops + [Allocate(size)]);
            |q.live| > |p.live|
            <==> size + 8 <= tLen && (p.live == [] || p.live[|p.live| - 1].roffset + size + 8 > tLen)
  {
    InvAlways(tLen, ops);
    assert (ops + [Allocate(size)])[..|ops|] == ops;
    AllocPlaces(Run(tLen, ops), size);
    hide Run, Alloc, Inv;
  }

  /** How full the last live page is. */
  function LastFill(p: Pool): nat
  {
    if p.live == [] then 0 else p.live[|p.live| - 1].roffset
  }

  /** As long as nothing is freed, two pages in a row hold more than fits one: all pages but the last, and what is on
      that one, are at most twice what was asked for. */
  lemma {:induction false} HalfFull(tLen: nat, ops: seq<Op>)
    requires forall op :: op in ops ==> op.Allocate?
    ensures var p := Run(tLen, ops);
            if p.live == [] then Asked(tLen, ops) == 0
            else (|p.live| - 1) * tLen + LastFill(p) <= 2 * Asked(tLen, ops)
  {
    hide Alloc, Inv, LastFill;
    if ops != [] {
      var before, op := ops[..|ops| - 1], ops[|ops| - 1];
      assert op in ops;
      HalfFull(tLen, before);
      var p := Run(tLen, before);
      InvAlways(tLen, before);
      AllocFills(p, op.size);
      Another(|p.live|, tLen);
    }
  }

  lemma Another(n: nat, tLen: nat)
    ensures n > 0 ==> n * tLen == (n - 1) * tLen + tLen
  {
  }

  lemma AllocFills(p: Pool, size: nat)
    ensures var q, x := Alloc(p, size), size + 8;
            && (x > p.tLen ==> q == p)
            && (x <= p.tLen && p.live != [] && LastFill(p) + x <= p.tLen ==>
                 |q.live| == |p.live| && LastFill(q) == LastFill(p) + x)
            && (x <= p.tLen && (p.live == [] || LastFill(p) + x > p.tLen) ==>
                 |q.live| == |p.live| + 1 && LastFill(q) == x)
  {
    AllocPlaces(p, size);
    hide Alloc;
  }
}
