/** The pool allocator of hg_pool.c: pages in two linked lists, with block headers written into the pages. */
module MyPools {
  import opened Bytes
  import opened PageLists
  import opened PoolSpecs

  const MAXLEN := 0x1_0000_0000      // lengths are uint32_t

  /** The four bytes of a little-endian uint32_t. */
  function Word(v: nat): (w: seq<byte>)
    requires v < MAXLEN
    ensures |w| == 4
  {
    [v % 0x100, v / 0x100 % 0x100, v / 0x1_0000 % 0x100, v / 0x100_0000]
  }

  function Value(w: seq<byte>): nat
    requires |w| == 4
  {
    w[0] as nat + w[1] as nat * 0x100 + w[2] as nat * 0x1_0000 + w[3] as nat * 0x100_0000
  }

  lemma WordValue(v: nat)
    requires v < MAXLEN
    ensures Value(Word(v)) == v
  {
    assert v / 0x100 / 0x100 == v / 0x1_0000;
    assert v / 0x1_0000 / 0x100 == v / 0x100_0000;
  }

  /** The page carries the header of block b: its offset, then its size. */
  ghost predicate Headed(d: seq<byte>, b: Block)
  {
    b.End() <= |d| < MAXLEN && d[b.offset..b.offset + 4] == Word(b.offset)
        && d[b.offset + 4..b.offset + 8] == Word(b.size)
  }

  ghost predicate AllHeaded(d: seq<byte>, blocks: seq<Block>)
  {
    forall j :: 0 <= j < |blocks| ==> Headed(d, blocks[j])
  }

  /** Headers below the fill mark survive writes above it. */
  lemma HeadersSurvive(d: seq<byte>, e: seq<byte>, page: Page)
    requires Laid(page) && AllHeaded(d, page.blocks) && |d| == |e|
    requires page.roffset <= |d| && d[..page.roffset] == e[..page.roffset]
    ensures AllHeaded(e, page.blocks)
  {
    forall j | 0 <= j < |page.blocks|
      ensures Headed(e, page.blocks[j])
    {
      var b := page.blocks[j];
      assert Headed(d, b) && b.End() <= page.roffset;
      SameSlice(d, e, page.roffset, b.offset, b.offset + 4);
      SameSlice(d, e, page.roffset, b.offset + 4, b.offset + 8);
    }
  }

  lemma SameSlice(d: seq<byte>, e: seq<byte>, r: nat, k: nat, n: nat)
    requires k <= n <= r <= |d| == |e| && d[..r] == e[..r]
    ensures d[k..n] == e[k..n]
  {
    assert d[k..n] == d[..r][k..n] && e[k..n] == e[..r][k..n];
  }

  lemma BumpHeaded(d: seq<byte>, page: Page, size: nat)
    requires AllHeaded(d, page.blocks) && Headed(d, Block(page.roffset, size))
    ensures AllHeaded(d, Bump(page, size).blocks)
  {
  }

  lemma UnblockHeaded(d: seq<byte>, page: Page, j: nat)
    requires AllHeaded(d, page.blocks) && j < |page.blocks|
    ensures AllHeaded(d, Unblock(page, j).blocks)
  {
  }

  /** The object `n` is the page `page`. */
  ghost predicate Embodies(n: PoolNode, page: Page, tLen: nat)
    reads n`s, n`roffset, n`d
  {
    n.id == page.id && n.s == page.s && n.roffset == page.roffset && |n.d| == tLen && AllHeaded(n.d, page.blocks)
  }

  lemma EmptyPage(n: PoolNode, page: Page, tLen: nat)
    requires n.id == page.id && n.s == page.s == 0 && n.roffset == page.roffset == 0 && |n.d| == tLen
             && page.blocks == []
    ensures Embodies(n, page, tLen)
  {
  }

  /** The bytes `d` after the word `v` is stored at `at`. */
  function PutWord(d: seq<byte>, at: nat, v: nat): (e: seq<byte>)
    requires at + 4 <= |d| && v < MAXLEN
    ensures |e| == |d|
  {
    d[..at] + Word(v) + d[at + 4..]
  }

  lemma PutHeader(d: seq<byte>, offset: nat, size: nat)
    requires offset + size + ADDRHEAD <= |d| < MAXLEN
    ensures var e := PutWord(PutWord(d, offset, offset), offset + 4, size);
            Headed(e, Block(offset, size)) && e[..offset] == d[..offset]
  {
    var m := PutWord(d, offset, offset);
    var e := PutWord(m, offset + 4, size);
    assert e[..offset + 4] == m[..offset + 4];
    assert e[offset..offset + 4] == e[..offset + 4][offset..];
    assert m[offset..offset + 4] == m[..offset + 4][offset..];
    assert e[..offset] == e[..offset + 4][..offset] == m[..offset + 4][..offset];
  }

  /** Carves a block of `size` bytes off a page: header, counter, fill mark. */
  method Carve(node: PoolNode, ghost page: Page, ghost tLen: nat, size: nat)
    requires tLen < MAXLEN && Embodies(node, page, tLen)
    requires Laid(page) && page.roffset + size + ADDRHEAD <= tLen
    modifies node`s, node`roffset, node`d
    ensures Embodies(node, Bump(page, size), tLen)
    ensures Take(node.d, old(node.roffset)) == old(Take(node.d, node.roffset))
  {
    ghost var before := node.d;
    var reals := size + ADDRHEAD;
    node.d := PutWord(PutWord(node.d, node.roffset, node.roffset), node.roffset + 4, size);
    PutHeader(before, page.roffset, size);
    hide PutWord;
    HeadersSurvive(before, node.d, page);
    BumpHeaded(node.d, page, size);
    node.s := node.s + reals;
    node.roffset := node.roffset + reals;
  }

  /** Carving adds the block at the fill mark to the end of the page's blocks. */
  lemma BumpedLast(page: Page, size: nat)
    ensures var blocks := Bump(page, size).blocks;
            blocks != [] && blocks[|blocks| - 1] == Block(page.roffset, size)
  {
  }

  /** What stands in front of a block's payload. */
  lemma ReadHeader(d: seq<byte>, blocks: seq<Block>, j: nat)
    requires AllHeaded(d, blocks) && j < |blocks|
    ensures var at := blocks[j].offset + ADDRHEAD;
            at <= |d| && Value(d[at - ADDRHEAD..at - ADDRHEAD / 2]) == blocks[j].offset
            && Value(d[at - ADDRHEAD / 2..at]) == blocks[j].size
  {
    assert Headed(d, blocks[j]);
    WordValue(blocks[j].offset);
    WordValue(blocks[j].size);
    hide Word, Value;
  }

  /** The first k bytes, or all if there are fewer. */
  function Take(d: seq<byte>, k: nat): seq<byte>
  {
    if k <= |d| then d[..k] else d
  }

  /** Storing a byte in the payload of a block. */
  method StoreIn(node: PoolNode, ghost page: Page, ghost tLen: nat, ghost j: nat, p: nat, v: byte)
    requires Embodies(node, page, tLen) && Laid(page) && page.roffset <= tLen && j < |page.blocks|
    requires page.blocks[j].offset + ADDRHEAD <= p < page.blocks[j].End()
    modifies node`d
    ensures Embodies(node, page, tLen) && p < |old(node.d)| && node.d == old(node.d)[p := v]
  {
    PayloadWrite(node.d, page, j, p, v);
    hide AllHeaded;
    node.d := node.d[p := v];
  }

  class MyPool {
    const tLen: nat
    const pages: PageList             // mypool
    const free: PageList              // mypool->free
    ghost var st: Pool
    ghost var all: set<PoolNode>      // every page ever obtained

    ghost predicate Lists()
      reads `all, pages, free, pages.nodes`l, pages.nodes`r, free.nodes`l, free.nodes`r
    {
      && (forall n :: n in pages.nodes ==> n in all) && (forall n :: n in free.nodes ==> n in all)
      && pages != free && pages.Valid() && free.Valid()
      && (forall i, j :: 0 <= i < |pages.nodes| && 0 <= j < |free.nodes| ==> pages.nodes[i] != free.nodes[j])
    }

    ghost predicate Matches()
      reads `st, pages`nodes, free`nodes, pages.nodes`s, pages.nodes`roffset, pages.nodes`d, free.nodes`d
    {
      st.tLen == tLen < MAXLEN && LiveMatch(st.live) && IdleMatch(st.idle)
    }

    ghost predicate LiveMatch(live: seq<Page>)
      reads pages`nodes, pages.nodes`s, pages.nodes`roffset, pages.nodes`d
    {
      |live| == |pages.nodes| && forall i :: 0 <= i < |live| ==> Embodies(pages.nodes[i], live[i], tLen)
    }

    ghost predicate IdleMatch(idle: seq<nat>)
      reads free`nodes, free.nodes`d
    {
      && |idle| == |free.nodes|
      && forall i :: 0 <= i < |idle| ==> free.nodes[i].id == idle[i] && |free.nodes[i].d| == tLen
    }

    ghost predicate Valid()
      reads this, pages, free, pages.nodes, free.nodes
    {
      Lists() && Matches() && Inv(st)
    }

    constructor (size: nat)
      requires size + ADDRHEAD < MAXLEN
      ensures Valid() && st == Run(size + ADDRHEAD, [])
    {
      tLen := size + ADDRHEAD;
      pages := new PageList();
      free := new PageList();
      st := Pool(size + ADDRHEAD, [], [], 0, 0);
      all := {};
    }

    /** _myPoolNewNode: a recycled page if there is one, else one from malloc, emptied. */
    method NewNode() returns (node: PoolNode)
      requires Lists() && Matches()
      modifies `all, free, free.nodes
      ensures node in all && old(all) <= all && fresh(all - old(all))
      ensures Lists() && node !in pages.nodes && node !in free.nodes
      ensures node.s == 0 && node.roffset == 0 && |node.d| == tLen
      ensures old(free.nodes) == [] ==> free.nodes == [] && node.id == st.total && fresh(node)
      ensures old(free.nodes) != [] ==> node == old(free.nodes)[0] && free.nodes == old(free.nodes)[1..]
      ensures forall n :: n in old(free.nodes) ==> n.d == old(n.d)
    {
      hide Embodies, Rights, Lefts, Distinct;
      if free.left != null {
        var p := free.LeftPopNode();
        node := p;
        node.l := null;
        node.r := null;
        node.s := 0;
        node.roffset := 0;
      } else {
        node := new PoolNode(tLen, st.total);
        all := all + {node};
      }
    }

    /** The new page of myPoolAlloc, at the end of the live ones. */
    method AddPage()
      requires Lists() && Matches()
      modifies `st, `all, pages, free, all
      ensures Lists() && Matches() && fresh(all - old(all))
      ensures st == Grow(old(st)) && pages.nodes != []
      ensures forall n :: n in old(pages.nodes) ==> n in pages.nodes && n.d == old(n.d) && n.roffset == old(n.roffset)
    {
      hide Embodies, Rights, Lefts, Distinct, PageList.Valid;
      ghost var g := Grow(st);
      var newnode := NewNode();
      pages.RightPush(newnode);
      EmptyPage(newnode, g.live[|g.live| - 1], tLen);
      st := g;
    }

    /** The block at `at` on `page` is the newest of the last live page, and has `size` bytes. */
    ghost predicate Newest(page: PoolNode?, at: nat, size: nat)
      reads `st, pages`nodes
    {
      && pages.nodes != [] && page == pages.nodes[|pages.nodes| - 1] && st.live != []
      && var blocks := st.live[|st.live| - 1].blocks;
         blocks != [] && blocks[|blocks| - 1].offset + ADDRHEAD == at && blocks[|blocks| - 1].size == size
    }

    /** What is known of live page i: it embodies its description, and is no other page. */
    lemma PageAt(i: nat)
      requires Lists() && Matches() && i < |pages.nodes|
      ensures |st.live| == |pages.nodes| && Embodies(pages.nodes[i], st.live[i], tLen) && pages.nodes[i] in all
      ensures forall k :: 0 <= k < |pages.nodes| && k != i ==> pages.nodes[k] != pages.nodes[i]
      ensures forall k :: 0 <= k < |free.nodes| ==> free.nodes[k] != pages.nodes[i]
    {
    }

    lemma OthersAt(i: nat)
      requires Lists() && Matches() && i < |pages.nodes|
      ensures |st.live| == |pages.nodes|
      ensures forall k :: 0 <= k < |pages.nodes| && k != i ==>
                pages.nodes[k] != pages.nodes[i] && Embodies(pages.nodes[k], st.live[k], tLen)
    {
    }

    lemma OneChanged(live: seq<Page>, i: nat)
      requires i < |live| == |pages.nodes| && Embodies(pages.nodes[i], live[i], tLen)
      requires forall k :: 0 <= k < |live| && k != i ==> Embodies(pages.nodes[k], live[k], tLen)
      ensures LiveMatch(live)
    {
    }

    lemma LastPage()
      requires Lists() && Matches() && GrownInv(st)
      ensures pages.nodes != [] && st.live != [] && pages.right == pages.nodes[|pages.nodes| - 1]
      ensures Laid(st.live[|st.live| - 1])
    {
    }

    lemma EmbodiesFill(n: PoolNode, page: Page)
      requires Embodies(n, page, tLen)
      ensures n.id == page.id && n.s == page.s && n.roffset == page.roffset && |n.d| == tLen
    {
    }

    /** The bump part of myPoolAlloc on the last live page, which has room. */
    method Place(size: nat) returns (page: PoolNode, at: nat)
      requires Lists() && Matches() && GrownInv(st)
      requires st.live[|st.live| - 1].roffset + size + ADDRHEAD <= tLen
      modifies `st, all`d, all`s, all`roffset
      ensures Lists() && Matches()
      ensures st == Carved(old(st), size)
      ensures Newest(page, at, size)
      ensures forall n :: n in pages.nodes ==> Take(n.d, old(n.roffset)) == old(Take(n.d, n.roffset))
    {
      hide Embodies, Laid, Distinct, PageList.Valid, GrownInv, Lists, Max, Bump;
      LastPage();
      ghost var last := |pages.nodes| - 1;
      PageAt(last);
      page := pages.right;
      EmbodiesFill(page, st.live[last]);
      at := page.roffset + ADDRHEAD;
      BumpedLast(st.live[last], size);
      ghost var goal := Carved(st, size);
      Carve(page, st.live[last], tLen, size);
      st := goal;
    }

    /** The test of myPoolAlloc for room on the last live page. */
    method HasRoom(reals: nat) returns (room: bool)
      requires Lists() && Matches() && Inv(st)
      ensures room == !Full(st, reals)
      ensures room ==> pages.nodes != []
    {
      assert st.live != [] ==>
          Embodies(pages.right, st.live[|st.live| - 1], tLen) && PageOk(st.live[|st.live| - 1], tLen);
      room := !(pages.right == null || tLen - pages.right.roffset < reals);
    }

    /** The first half of myPoolAlloc: makes the last live page one with room for `size` bytes. */
    method MakeRoom(size: nat)
      requires Valid() && size + ADDRHEAD <= tLen
      modifies `st, `all, pages, free, all
      ensures Lists() && Matches() && fresh(all - old(all))
      ensures st == Roomy(old(st), size)
      ensures forall n :: n in old(pages.nodes) ==> n in pages.nodes && n.d == old(n.d) && n.roffset == old(n.roffset)
    {
      hide Inv, Lists, Matches, Grow, Full;
      var room := HasRoom(size + ADDRHEAD);
      if !room {
        AddPage();
      }
    }

    lemma LengthIs()
      requires Matches()
      ensures st.tLen == tLen
    {
    }

    /** myPoolAlloc of a request no larger than a page. */
    method AllocFit(size: nat) returns (page: PoolNode, at: nat)
      requires Valid() && size + ADDRHEAD <= tLen
      modifies this, pages, free, all
      ensures Valid() && fresh(all - old(all)) && st == PoolSpecs.Alloc(old(st), size)
      ensures Newest(page, at, size)
      ensures forall n :: n in old(pages.nodes) ==> Take(n.d, old(n.roffset)) == old(Take(n.d, n.roffset))
    {
      hide Inv, Lists, Matches, Newest, Roomy, PoolSpecs.Alloc, Carved, GrownInv, Take;
      LengthIs();
      ghost var goal := PoolSpecs.Alloc(st, size);
      AllocInv(st, size);
      RoomyInv(st, size);
      AllocCarves(st, size);
      MakeRoom(size);
      assert goal == Carved(st, size);
      page, at := Place(size);
      assert st == goal;
    }

    /** myPoolAlloc: ok unless the request is larger than a page. The block handed out is the newest of the last live
        page; nothing below the fill mark of a page that was live changes. */
    method Alloc(size: nat) returns (ok: bool, page: PoolNode?, at: nat)
      requires Valid()
      modifies this, pages, free, all
      ensures Valid() && fresh(all - old(all)) && st == PoolSpecs.Alloc(old(st), size)
      ensures ok <==> size + ADDRHEAD <= tLen
      ensures ok ==> Newest(page, at, size)
      ensures forall n :: n in old(pages.nodes) ==> Take(n.d, old(n.roffset)) == old(Take(n.d, n.roffset))
    {
      assert st.tLen == tLen;
      hide Inv, Lists, Matches, Newest, Take;
      if tLen < size + ADDRHEAD {
        AllocNone(st, size);
        return false, null, 0;
      }
      hide PoolSpecs.Alloc;
      page, at := AllocFit(size);
      ok := true;
    }

    /** Where the block at index j of live page i is. */
    ghost predicate At(page: PoolNode, at: nat, i: nat, j: nat)
      reads `st, pages`nodes
    {
      && i < |pages.nodes| && i < |st.live| && page == pages.nodes[i]
      && j < |st.live[i].blocks| && st.live[i].blocks[j].offset + ADDRHEAD == at
    }

    /** The header of a live block says where it is and how large. */
    lemma HeaderAt(page: PoolNode, at: nat, i: nat, j: nat)
      requires Valid() && At(page, at, i, j)
      ensures at <= |page.d| && ADDRHEAD <= at
      ensures Value(page.d[at - ADDRHEAD..at - ADDRHEAD / 2]) == at - ADDRHEAD
      ensures Value(page.d[at - ADDRHEAD / 2..at]) == st.live[i].blocks[j].size
    {
      hide Lists, Matches, Embodies, AllHeaded, Inv, Value;
      PageAt(i);
      HeadersOf(page, st.live[i]);
      ReadHeader(page.d, st.live[i].blocks, j);
    }

    lemma HeadersOf(n: PoolNode, page: Page)
      requires Embodies(n, page, tLen)
      ensures AllHeaded(n.d, page.blocks)
    {
    }

    /** myPoolSizeof: the size that was asked for. */
    method Sizeof(page: PoolNode, at: nat, ghost i: nat, ghost j: nat) returns (size: nat)
      requires Valid() && At(page, at, i, j)
      ensures size == st.live[i].blocks[j].size
    {
      HeaderAt(page, at, i, j);
      size := Value(page.d[at - ADDRHEAD / 2..at]);
    }

    /** The counting part of myPoolFree. */
    method Uncount(page: PoolNode, at: nat, ghost i: nat, ghost j: nat)
      requires Valid() && At(page, at, i, j)
      modifies page`s
      ensures Embodies(page, Unblock(st.live[i], j), tLen)
    {
      HeaderAt(page, at, i, j);
      assert Embodies(page, st.live[i], tLen) && PageOk(st.live[i], tLen);
      SumBounds(st.live[i].blocks, j);
      UnblockHeaded(page.d, st.live[i], j);
      var offset := Value(page.d[at - ADDRHEAD..at - ADDRHEAD / 2]);
      var size := Value(page.d[at - ADDRHEAD / 2..at]);
      var base := at - ADDRHEAD - offset;
      assert base == 0;               // so the page address computed from the pointer is the page's
      page.s := page.s - (size + ADDRHEAD);
    }

    /** A live page is on no other place of either list. */
    lemma Elsewhere(page: PoolNode, i: nat)
      requires Lists() && i < |pages.nodes| && pages.nodes[i] == page
      ensures page !in free.nodes && page !in Without(pages.nodes, i)
      ensures forall n :: n in Without(pages.nodes, i) ==> n in pages.nodes
    {
    }

    /** The pointer work of _myPoolMidlePop. */
    method MoveToFree(page: PoolNode, ghost i: nat)
      requires Lists() && i < |pages.nodes| && pages.nodes[i] == page
      modifies pages, free, all`l, all`r
      ensures Lists() && pages.nodes == Without(old(pages.nodes), i) && free.nodes == old(free.nodes) + [page]
    {
      hide Rights, Lefts, Distinct, Without, PageList.Valid;
      Elsewhere(page, i);
      pages.Unlink(page, i);
      free.RightPush(page);
    }

    /** _myPoolMidlePop: takes page i out of the live list and hangs it on the recycled ones. */
    method MidlePop(page: PoolNode, ghost i: nat)
      requires Lists() && Matches() && i < |pages.nodes| && pages.nodes[i] == page
      modifies `st, pages, free, all`l, all`r
      ensures Lists() && Matches()
      ensures st == Recycle(old(st), i)
    {
      hide Embodies, Lists;
      PageAt(i);
      EmbodiesFill(page, st.live[i]);
      ghost var goal := Recycle(st, i);
      MoveToFree(page, i);
      st := goal;
    }

    /** myPoolFree of the null pointer, or of a live block, which the caller frees once. */
    method Free(data: PoolNode?, at: nat, ghost i: nat, ghost j: nat)
      requires Valid() && (data != null ==> At(data, at, i, j))
      modifies `st, pages, free, all`l, all`r, (if data == null then {} else {data})`s
      ensures Valid()
      ensures st == if data == null then old(st) else PoolSpecs.Free(old(st), i, j)
    {
      if data == null {
        return;
      }
      FreeBlock(data, at, i, j);
    }

    /** The rest of myPoolFree. */
    method FreeBlock(page: PoolNode, at: nat, ghost i: nat, ghost j: nat)
      requires Valid() && At(page, at, i, j)
      modifies `st, pages, free, all`l, all`r, page`s
      ensures Valid()
      ensures st == PoolSpecs.Free(old(st), i, j)
    {
      hide Inv, Lists, Matches, Embodies, Unblock, Uncounted, PoolSpecs.Free, Recycle;
      ghost var goal := PoolSpecs.Free(st, i, j);
      FreeInv(st, i, j);
      FreeInSteps(st, i, j);
      Count(page, at, i, j);
      PageAt(i);
      EmbodiesFill(page, st.live[i]);
      if page.s == 0 {
        MidlePop(page, i);
      }
      assert st == goal;
    }

    /** The page's counter goes down; the page stays where it is for now. */
    method Count(page: PoolNode, at: nat, ghost i: nat, ghost j: nat)
      requires Valid() && At(page, at, i, j)
      modifies `st, page`s
      ensures Lists() && Matches()
      ensures page == pages.nodes[i]
      ensures st == Uncounted(old(st), i, j)
    {
      hide Embodies, Unblock, Uncounted, PageList.Valid, Inv, Lists, IdleMatch, LiveMatch;
      ghost var goal := Uncounted(st, i, j);
      OthersAt(i);
      Uncount(page, at, i, j);
      OneChanged(goal.live, i);
      st := goal;
    }

    /** What a caller does with its block: writing one of its bytes leaves every header intact. */
    method StoreByte(page: PoolNode, at: nat, k: nat, v: byte, ghost i: nat, ghost j: nat)
      requires Valid() && At(page, at, i, j) && k < st.live[i].blocks[j].size
      modifies page`d
      ensures Valid() && |page.d| == |old(page.d)| && page.d == old(page.d)[at + k := v]
    {
      hide Embodies, PageList.Valid, Inv, AllHeaded, Lists;
      PageAt(i);
      LaidAt(i);
      StoreIn(page, st.live[i], tLen, j, at + k, v);
    }

    lemma LaidAt(i: nat)
      requires Inv(st) && i < |st.live|
      ensures Laid(st.live[i]) && st.tLen >= st.live[i].roffset
    {
    }
  }

  lemma PayloadWrite(d: seq<byte>, page: Page, j: nat, p: nat, v: byte)
    requires Laid(page) && AllHeaded(d, page.blocks) && j < |page.blocks|
    requires page.blocks[j].offset + ADDRHEAD <= p < page.blocks[j].End() <= |d|
    ensures AllHeaded(d[p := v], page.blocks)
  {
    var e := d[p := v];
    forall k | 0 <= k < |page.blocks|
      ensures Headed(e, page.blocks[k])
    {
      var b := page.blocks[k];
      assert Headed(d, b);
      if k < j {
        assert b.End() <= page.blocks[j].offset;
      } else if j < k {
        assert page.blocks[j].End() <= b.offset;
      }
      assert e[b.offset..b.offset + 4] == d[b.offset..b.offset + 4];
      assert e[b.offset + 4..b.offset + 8] == d[b.offset + 4..b.offset + 8];
    }
  }
}
