/** The page allocator of hg_pool.c as a state machine: what each operation does to pages and live blocks. */
module PoolSpecs {
  import opened Bytes

  const ADDRHEAD := 8

  /** A live allocation: its header starts at `offset`, its `size` bytes follow the header. */
  datatype Block = Block(offset: nat, size: nat) {
    function Real(): nat
    {
      size + ADDRHEAD
    }

    function End(): nat
    {
      offset + Real()
    }
  }

  /** A page: how far it is filled, its counter of live bytes, and the allocations alive on it. */
  datatype Page = Page(id: nat, roffset: nat, s: nat, blocks: seq<Block>)

  /** The live pages, oldest first, the recycled ones, how many were ever obtained with malloc, and the largest
      number that were live at one time. */
  datatype Pool = Pool(tLen: nat, live: seq<Page>, idle: seq<nat>, total: nat, peak: nat)

  function Max(a: nat, b: nat): nat
  {
    if a >= b then a else b
  }

  function Remove<T>(s: seq<T>, i: nat): seq<T>
    requires i < |s|
  {
    s[..i] + s[i + 1..]
  }

  /** _myPoolNewNode and _myPoolRightPush: a recycled page if there is one, else a new one, as the last live page. */
  function Grow(p: Pool): Pool
  {
    if p.idle != []
    then p.(live := p.live + [Page(p.idle[0], 0, 0, [])], idle := p.idle[1..])
    else p.(live := p.live + [Page(p.total, 0, 0, [])], total := p.total + 1)
  }

  /** The last live page has no room for `reals` bytes. */
  predicate Full(p: Pool, reals: nat)
  {
    p.live == [] || p.tLen - p.live[|p.live| - 1].roffset < reals
  }

  /** The bump allocation itself. */
  function Bump(page: Page, size: nat): Page
  {
    var b := Block(page.roffset, size);
    Page(page.id, page.roffset + b.Real(), page.s + b.Real(), page.blocks + [b])
  }

  /** The pool with room on its last live page. */
  function Roomy(p: Pool, size: nat): Pool
  {
    if Full(p, size + ADDRHEAD) then Grow(p) else p
  }

  /** myPoolAlloc; a request larger than a page aborts the program, here without effect. */
  function Alloc(p: Pool, size: nat): Pool
  {
    if p.tLen < size + ADDRHEAD then p else Carved(Roomy(p, size), size)
  }

  /** The pool after the last live page gives up a block. */
  function Carved(g: Pool, size: nat): Pool
    requires g.live != []
  {
    var last := |g.live| - 1;
    g.(live := g.live[last := Bump(g.live[last], size)], peak := Max(g.peak, |g.live|))
  }

  /** The page after the block at index j is freed. */
  function Unblock(page: Page, j: nat): Page
    requires j < |page.blocks|
  {
    var r := page.blocks[j].Real();
    Page(page.id, page.roffset, if r <= page.s then page.s - r else 0, Remove(page.blocks, j))
  }

  /** The pool with live page i less block j, before the page is recycled. */
  function Uncounted(p: Pool, i: nat, j: nat): (q: Pool)
    requires i < |p.live| && j < |p.live[i].blocks|
    ensures q.tLen == p.tLen && |q.live| == |p.live| && q.idle == p.idle && q.live[i] == Unblock(p.live[i], j)
    ensures forall k :: 0 <= k < |p.live| && k != i ==> q.live[k] == p.live[k]
  {
    p.(live := p.live[i := Unblock(p.live[i], j)])
  }

  /** myPoolFree of block j of live page i: the page is recycled when its counter reaches zero. */
  function Free(p: Pool, i: nat, j: nat): Pool
    requires i < |p.live| && j < |p.live[i].blocks|
  {
    if Unblock(p.live[i], j).s == 0 then Recycle(p, i) else Uncounted(p, i, j)
  }

  /** _myPoolMidlePop: live page i moves to the end of the recycled ones. */
  function Recycle(p: Pool, i: nat): Pool
    requires i < |p.live|
  {
    p.(live := Remove(p.live, i), idle := p.idle + [p.live[i].id])
  }

  lemma RecycleReplaced(p: Pool, i: nat, j: nat)
    requires i < |p.live| && j < |p.live[i].blocks|
    ensures Recycle(Uncounted(p, i, j), i) == Recycle(p, i)
  {
  }

  lemma FreeInSteps(p: Pool, i: nat, j: nat)
    requires i < |p.live| && j < |p.live[i].blocks|
    ensures var q := Uncounted(p, i, j);
            Free(p, i, j) == if q.live[i].s == 0 then Recycle(q, i) else q
  {
    RecycleReplaced(p, i, j);
  }

  datatype Op = Allocate(size: nat) | Release(page: nat, block: nat)

  /** The pool after the operations `ops`; releasing what is not live is not something a caller may do. */
  function Run(tLen: nat, ops: seq<Op>): Pool
  {
    if ops == [] then Pool(tLen, [], [], 0, 0)
    else
      var p := Run(tLen, ops[..|ops| - 1]);
      match ops[|ops| - 1]
      case Allocate(size) => Alloc(p, size)
      case Release(i, j) => if i < |p.live| && j < |p.live[i].blocks| then Free(p, i, j) else p
  }

  function Sum(blocks: seq<Block>): nat
  {
    if blocks == [] then 0 else Sum(blocks[..|blocks| - 1]) + blocks[|blocks| - 1].Real()
  }

  lemma {:induction false} SumConcat(a: seq<Block>, b: seq<Block>)
    ensures Sum(a + b) == Sum(a) + Sum(b)
    decreases |b|
  {
    if b == [] {
      assert a + b == a;
    } else {
      assert (a + b)[..|a + b| - 1] == a + b[..|b| - 1];
      SumConcat(a, b[..|b| - 1]);
    }
  }

  lemma {:induction false} SumOne(b: Block)
    ensures Sum([b]) == b.Real()
  {
    assert [b][..0] == [];
  }

  lemma {:induction false} SumRemove(blocks: seq<Block>, j: nat)
    requires j < |blocks|
    ensures Sum(Remove(blocks, j)) == Sum(blocks) - blocks[j].Real()
  {
    var a, b, c := blocks[..j], [blocks[j]], blocks[j + 1..];
    assert blocks == a + b + c;
    SumConcat(a + b, c);
    SumConcat(a, b);
    SumConcat(a, c);
    SumOne(blocks[j]);
    hide Sum;
  }

  lemma {:induction false} SumBounds(blocks: seq<Block>, j: nat)
    requires j < |blocks|
    ensures blocks[j].Real() <= Sum(blocks)
  {
    SumRemove(blocks, j);
  }

  lemma {:induction false} SumZero(blocks: seq<Block>)
    ensures Sum(blocks) == 0 <==> blocks == []
  {
  }

  /** Blocks, headers included, lie one behind the other below the fill mark: they are pairwise disjoint. */
  ghost predicate Laid(page: Page)
  {
    && (forall i, j :: 0 <= i < j < |page.blocks| ==> page.blocks[i].End() <= page.blocks[j].offset)
    && (forall i :: 0 <= i < |page.blocks| ==> page.blocks[i].End() <= page.roffset)
  }

  /** A live page: blocks disjoint and within the page, counter exact, and at least one block. */
  ghost predicate PageOk(page: Page, tLen: nat)
  {
    Laid(page) && page.roffset <= tLen && page.s == Sum(page.blocks) && page.blocks != []
  }

  /** The page numbers in use, live ones first. */
  function Ids(p: Pool): (ids: seq<nat>)
    ensures |ids| == |p.live| + |p.idle|
    ensures forall i :: 0 <= i < |p.live| ==> ids[i] == p.live[i].id
    ensures forall i :: 0 <= i < |p.idle| ==> ids[|p.live| + i] == p.idle[i]
  {
    seq(|p.live|, i requires 0 <= i < |p.live| => p.live[i].id) + p.idle
  }

  ghost predicate Inv(p: Pool)
  {
    && (forall i :: 0 <= i < |p.live| ==> PageOk(p.live[i], p.tLen))
    && IdsOk(p)
    && |p.live| + |p.idle| == p.total == p.peak
  }

  lemma BumpOk(page: Page, size: nat, tLen: nat)
    requires Laid(page) && page.s == Sum(page.blocks) && page.roffset + size + ADDRHEAD <= tLen
    ensures PageOk(Bump(page, size), tLen)
  {
    SumConcat(page.blocks, [Block(page.roffset, size)]);
    SumOne(Block(page.roffset, size));
    hide Sum;
  }

  lemma UnblockOk(page: Page, j: nat, tLen: nat)
    requires PageOk(page, tLen) && j < |page.blocks|
    ensures var q := Unblock(page, j);
            && Laid(q) && q.s == Sum(q.blocks) && q.id == page.id && q.roffset == page.roffset
            && (q.s == 0 <==> q.blocks == [])
  {
    SumRemove(page.blocks, j);
    SumZero(Remove(page.blocks, j));
  }

  /** The invariant but for the newest page, which may have no block yet. */
  ghost predicate GrownInv(p: Pool)
  {
    && p.live != []
    && (forall i :: 0 <= i < |p.live| - 1 ==> PageOk(p.live[i], p.tLen))
    && (var last := p.live[|p.live| - 1]; Laid(last) && last.s == Sum(last.blocks))
    && IdsOk(p)
    && |p.live| + |p.idle| == p.total == Max(p.peak, |p.live|)
  }

  ghost predicate IdsOk(p: Pool)
  {
    Distinct(Ids(p)) && forall i :: 0 <= i < |Ids(p)| ==> Ids(p)[i] < p.total
  }

  lemma GrowIds(p: Pool)
    requires IdsOk(p)
    ensures IdsOk(Grow(p))
  {
    if p.idle != [] {
      assert Ids(Grow(p)) == Ids(p);
    } else {
      assert Ids(Grow(p)) == Ids(p) + [p.total];
    }
  }

  lemma GrowInv(p: Pool)
    requires Inv(p)
    ensures GrownInv(Grow(p))
  {
    GrowIds(p);
    hide IdsOk, PageOk;
  }

  lemma {:induction false} BumpInv(g: Pool, size: nat)
    requires GrownInv(g) && g.live[|g.live| - 1].roffset + size + ADDRHEAD <= g.tLen
    ensures Inv(Carved(g, size))
  {
    var last := |g.live| - 1;
    BumpOk(g.live[last], size, g.tLen);
    var q := Carved(g, size);
    assert Ids(q) == Ids(g);
    hide PageOk, Laid, Distinct, Ids;
  }

  lemma RoomyInv(p: Pool, size: nat)
    requires Inv(p) && size + ADDRHEAD <= p.tLen
    ensures var g := Roomy(p, size);
            && GrownInv(g)
            && g.live[|g.live| - 1].roffset + size + ADDRHEAD <= g.tLen == p.tLen
  {
    if Full(p, size + ADDRHEAD) {
      GrowInv(p);
    } else {
      assert PageOk(p.live[|p.live| - 1], p.tLen);
    }
  }

  lemma AllocNone(p: Pool, size: nat)
    requires p.tLen < size + ADDRHEAD
    ensures Alloc(p, size) == p
  {
  }

  lemma AllocCarves(p: Pool, size: nat)
    requires size + ADDRHEAD <= p.tLen
    ensures Roomy(p, size).live != [] && Alloc(p, size) == Carved(Roomy(p, size), size)
  {
  }

  lemma AllocInv(p: Pool, size: nat)
    requires Inv(p)
    ensures Inv(Alloc(p, size))
  {
    if p.tLen >= size + ADDRHEAD {
      RoomyInv(p, size);
      BumpInv(Roomy(p, size), size);
    }
  }

  lemma DistinctRotate<T>(s: seq<T>, i: nat)
    requires Distinct(s) && i < |s|
    ensures Distinct(Remove(s, i) + [s[i]])
    ensures forall x :: x in Remove(s, i) + [s[i]] ==> x in s
  {
  }

  lemma RotatedIds(p: Pool, i: nat)
    requires i < |p.live|
    ensures Ids(Recycle(p, i)) == Remove(Ids(p), i) + [Ids(p)[i]] && Recycle(p, i).total == p.total
  {
  }

  lemma RecycleIds(p: Pool, i: nat)
    requires IdsOk(p) && i < |p.live|
    ensures IdsOk(Recycle(p, i))
  {
    hide Ids, Distinct, Recycle, Remove;
    var q, ids := Recycle(p, i), Ids(p);
    RotatedIds(p, i);
    DistinctRotate(ids, i);
    forall k | 0 <= k < |Ids(q)| ensures Ids(q)[k] < p.total {
      assert Ids(q)[k] in ids;
    }
  }

  lemma FreeIds(p: Pool, i: nat, j: nat)
    requires IdsOk(p) && i < |p.live| && j < |p.live[i].blocks|
    ensures IdsOk(Free(p, i, j))
  {
    hide Distinct, Unblock, Recycle, IdsOk, Ids;
    if Unblock(p.live[i], j).s == 0 {
      RecycleIds(p, i);
    } else {
      UncountedIds(p, i, j);
    }
  }

  lemma UncountedIds(p: Pool, i: nat, j: nat)
    requires IdsOk(p) && i < |p.live| && j < |p.live[i].blocks|
    ensures IdsOk(Uncounted(p, i, j))
  {
    hide Distinct, Ids, Uncounted;
    UncountedSame(p, i, j);
  }

  lemma UncountedSame(p: Pool, i: nat, j: nat)
    requires i < |p.live| && j < |p.live[i].blocks|
    ensures Ids(Uncounted(p, i, j)) == Ids(p) && Uncounted(p, i, j).total == p.total
  {
  }

  lemma FreeInv(p: Pool, i: nat, j: nat)
    requires Inv(p) && i < |p.live| && j < |p.live[i].blocks|
    ensures Inv(Free(p, i, j))
  {
    UnblockOk(p.live[i], j, p.tLen);
    FreeIds(p, i, j);
    hide IdsOk, Laid, Sum, Unblock;
  }

  /** After any sequence of allocations and frees, live blocks are disjoint and inside their page, every counter is the
      sum of the live blocks of its page, live pages are those with a live block, and no more pages were ever obtained
      than were live at one time. */
  lemma {:induction false} InvAlways(tLen: nat, ops: seq<Op>)
    ensures Inv(Run(tLen, ops)) && Run(tLen, ops).tLen == tLen
  {
    if ops != [] {
      var p := Run(tLen, ops[..|ops| - 1]);
      InvAlways(tLen, ops[..|ops| - 1]);
      match ops[|ops| - 1]
      case Allocate(size) => AllocInv(p, size);
      case Release(i, j) =>
        if i < |p.live| && j < |p.live[i].blocks| {
          FreeInv(p, i, j);
        }
    }
  }

  lemma {:induction false} PeakStep(tLen: nat, ops: seq<Op>)
    requires ops != []
    ensures var p, q := Run(tLen, ops[..|ops| - 1]), Run(tLen, ops);
            q.peak == Max(p.peak, |q.live|) || (q.peak == p.peak && |q.live| <= |p.live|)
  {
    var p := Run(tLen, ops[..|ops| - 1]);
    assert Run(tLen, ops) == match ops[|ops| - 1]
                             case Allocate(size) => Alloc(p, size)
                             case Release(i, j) => if i < |p.live| && j < |p.live[i].blocks| then Free(p, i, j) else p;
    hide Run, Unblock, Bump;
  }

  lemma {:induction false} PeakBounds(tLen: nat, ops: seq<Op>, k: nat)
    requires k <= |ops|
    ensures |Run(tLen, ops[..k]).live| <= Run(tLen, ops).peak
  {
    if ops != [] {
      var before := ops[..|ops| - 1];
      PeakBounds(tLen, before, if k < |ops| then k else |ops| - 1);
      PeakStep(tLen, ops);
      assert k < |ops| ==> before[..k] == ops[..k];
      assert before[..|before|] == before && ops[..|ops|] == ops;
      hide Run;
    }
  }

  lemma {:induction false} PeakReached(tLen: nat, ops: seq<Op>) returns (k: nat)
    ensures k <= |ops| && |Run(tLen, ops[..k]).live| == Run(tLen, ops).peak
  {
    assert ops[..|ops|] == ops;
    k := |ops|;
    if ops != [] {
      hide Run;
      PeakStep(tLen, ops);
      var before := ops[..|ops| - 1];
      if Run(tLen, ops).peak != |Run(tLen, ops).live| {
        k := PeakReached(tLen, before);
        assert before[..k] == ops[..k];
      }
    }
  }

  /** `peak` is what its name says: the largest number of live pages at any point of the run. */
  lemma {:induction false} PeakIsPeak(tLen: nat, ops: seq<Op>)
    ensures forall k :: 0 <= k <= |ops| ==> |Run(tLen, ops[..k]).live| <= Run(tLen, ops).peak
    ensures exists k :: 0 <= k <= |ops| && |Run(tLen, ops[..k]).live| == Run(tLen, ops).peak
  {
    forall k | 0 <= k <= |ops| ensures |Run(tLen, ops[..k]).live| <= Run(tLen, ops).peak {
      PeakBounds(tLen, ops, k);
    }
    var k := PeakReached(tLen, ops);
    hide Run;
  }
}
