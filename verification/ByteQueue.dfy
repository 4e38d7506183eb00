/** The chunked byte queue (hg_queue.c): bytes in a chain of nodes of equal length, read from the left, written on
    the right. */
module ByteQueues {
  import opened Bytes
  import opened PageLists

  /** The nodes are all full except that the last one ends at ro. */
  function Span(image: seq<seq<byte>>, ro: nat): seq<byte>
    requires image != [] ==> ro <= |image[|image| - 1]|
  {
    if image == [] then [] else if |image| == 1 then image[0][..ro] else image[0] + Span(image[1..], ro)
  }

  /** Sizes and offsets are as between calls. */
  ghost predicate Laid(image: seq<seq<byte>>, lo: nat, ro: nat, tLen: nat)
  {
    && (forall i :: 0 <= i < |image| ==> |image[i]| == tLen)
    && (image == [] ==> lo == 0)
    && (image != [] ==> 0 < ro <= tLen && lo < tLen)
    && (|image| == 1 ==> lo <= ro)
  }

  lemma {:induction false} LaidSpan(image: seq<seq<byte>>, lo: nat, ro: nat, tLen: nat)
    requires Laid(image, lo, ro, tLen)
    ensures image != [] ==> ro <= |image[|image| - 1]|
    ensures lo <= |Span(image, ro)|
  {
  }

  /** The unread bytes. */
  ghost function Unread(image: seq<seq<byte>>, lo: nat, ro: nat, tLen: nat): seq<byte>
    requires Laid(image, lo, ro, tLen)
  {
    LaidSpan(image, lo, ro, tLen);
    Span(image, ro)[lo..]
  }

  lemma {:induction false} SpanSnoc(image: seq<seq<byte>>, x: seq<byte>, ro: nat, n: nat)
    requires image != [] && ro == |image[|image| - 1]| && n <= |x|
    ensures Span(image + [x], n) == Span(image, ro) + x[..n]
  {
    if |image| > 1 {
      SpanSnoc(image[1..], x, ro, n);
      assert (image + [x])[1..] == image[1..] + [x];
    } else {
      assert (image + [x])[1..] == [x];
    }
  }

  lemma {:induction false} SpanFill(image: seq<seq<byte>>, y: seq<byte>, ro: nat, n: nat)
    requires image != [] && ro <= n <= |y| && ro <= |image[|image| - 1]| && y[..ro] == image[|image| - 1][..ro]
    ensures Span(image[|image| - 1 := y], n) == Span(image, ro) + y[ro..n]
  {
    var image2 := image[|image| - 1 := y];
    if |image| > 1 {
      SpanFill(image[1..], y, ro, n);
      assert image2[1..] == image[1..][|image| - 2 := y];
    } else {
      assert y[..n] == y[..ro] + y[ro..n];
    }
  }

  /** A new node that begins with a chunk, behind nodes without any room. */
  lemma WrittenNew(image: seq<seq<byte>>, lo: nat, ro: nat, tLen: nat, x: seq<byte>, n: nat)
    requires Laid(image, lo, ro, tLen) && (image != [] ==> ro == tLen) && |x| == tLen && 0 < n <= tLen
    ensures Laid(image + [x], lo, n, tLen)
    ensures Unread(image + [x], lo, n, tLen) == Unread(image, lo, ro, tLen) + x[..n]
  {
    LaidSpan(image, lo, ro, tLen);
    if image != [] {
      SpanSnoc(image, x, ro, n);
    }
  }

  /** A chunk in the rest of the last node. */
  lemma WrittenInto(image: seq<seq<byte>>, lo: nat, ro: nat, tLen: nat, y: seq<byte>, n: nat)
    requires image != [] && Laid(image, lo, ro, tLen) && |y| == tLen && ro <= n <= tLen
             && y[..ro] == image[|image| - 1][..ro]
    ensures Laid(image[|image| - 1 := y], lo, n, tLen)
    ensures Unread(image[|image| - 1 := y], lo, n, tLen) == Unread(image, lo, ro, tLen) + y[ro..n]
  {
    LaidSpan(image, lo, ro, tLen);
    SpanFill(image, y, ro, n);
  }

  /** The next bytes of the first node are the oldest ones. */
  lemma FirstBytes(image: seq<seq<byte>>, lo: nat, ro: nat, tLen: nat, n: nat)
    requires Laid(image, lo, ro, tLen) && image != [] && lo + n <= tLen && n <= |Unread(image, lo, ro, tLen)|
    ensures image[0][lo..lo + n] == Unread(image, lo, ro, tLen)[..n]
    ensures lo + n < tLen ==>
              Laid(image, lo + n, ro, tLen) && Unread(image, lo + n, ro, tLen) == Unread(image, lo, ro, tLen)[n..]
    ensures lo + n == tLen ==>
              Laid(image[1..], 0, ro, tLen) && Unread(image[1..], 0, ro, tLen) == Unread(image, lo, ro, tLen)[n..]
  {
    LaidSpan(image, lo, ro, tLen);
    if |image| > 1 {
      LaidSpan(image[1..], 0, ro, tLen);
      Cut(image[0], Span(image[1..], ro), lo, n);
      assert Span(image[1..], ro)[0..] == Span(image[1..], ro);
    } else {
      var first := image[0][..ro];
      assert first + [] == first && image[1..] == [];
      Cut(first, [], lo, n);
      assert first[lo..lo + n] == image[0][lo..lo + n];
    }
    hide Span;
  }

  lemma Cut(a: seq<byte>, b: seq<byte>, lo: nat, n: nat)
    requires lo + n <= |a|
    ensures (a + b)[lo..][..n] == a[lo..lo + n]
    ensures (a + b)[lo..][n..] == (a + b)[lo + n..]
    ensures lo + n == |a| ==> (a + b)[lo..][n..] == b
  {
  }

  lemma Appended(before: seq<byte>, src: seq<byte>, at: nat, n: nat)
    requires at + n <= |src|
    ensures before + src[..at] + src[at..at + n] == before + src[..at + n]
  {
  }

  /** The calls a queue can get, as its contents see them: StreamW, and StreamL for reading and for a look ahead. */
  datatype Call = Write(src: seq<byte>) | Take(size: nat) | Look(size: nat)

  function Answer(contents: seq<byte>, call: Call): seq<byte>
  {
    match call
    case Write(_) => []
    case Take(size) => if size <= |contents| then contents[..size] else []
    case Look(size) => if size <= |contents| then contents[..size] else []
  }

  function Leaves(contents: seq<byte>, call: Call): seq<byte>
  {
    match call
    case Write(src) => contents + src
    case Take(_) => contents[|Answer(contents, call)|..]
    case Look(_) => contents
  }

  function Remaining(contents: seq<byte>, calls: seq<Call>): seq<byte>
    decreases |calls|
  {
    if calls == [] then contents else Remaining(Leaves(contents, calls[0]), calls[1..])
  }

  function Written(calls: seq<Call>): seq<byte>
  {
    if calls == [] then [] else (if calls[0].Write? then calls[0].src else []) + Written(calls[1..])
  }

  function Taken(contents: seq<byte>, calls: seq<Call>): seq<byte>
    decreases |calls|
  {
    if calls == [] then []
    else (if calls[0].Take? then Answer(contents, calls[0]) else []) + Taken(Leaves(contents, calls[0]), calls[1..])
  }

  /** Over any run, what was taken and what remains is what was there and what was written, in order. */
  lemma {:induction false} Conserved(contents: seq<byte>, calls: seq<Call>)
    ensures Taken(contents, calls) + Remaining(contents, calls) == contents + Written(calls)
    decreases |calls|
  {
    if calls != [] {
      var call := calls[0];
      var next := Leaves(contents, call);
      var taken := if call.Take? then Answer(contents, call) else [];
      var written := if call.Write? then call.src else [];
      assert taken + next == contents + written;
      hide Answer, Leaves;
      Conserved(next, calls[1..]);
      Chained(taken, next, contents, written, Taken(next, calls[1..]), Remaining(next, calls[1..]),
              Written(calls[1..]));
    }
  }

  lemma Chained(a: seq<byte>, b: seq<byte>, c: seq<byte>, d: seq<byte>, t: seq<byte>, r: seq<byte>, w: seq<byte>)
    requires a + b == c + d && t + r == b + w
    ensures a + t + r == c + (d + w)
  {
    assert a + t + r == a + (t + r) == (a + b) + w == (c + d) + w == c + (d + w);
  }

  /** Writing takes nodes off the front of the free list to the end of the chain, and new ones only once that is
      empty. */
  ghost predicate Reuses(live0: seq<PoolNode>, free0: seq<PoolNode>, live: seq<PoolNode>, free: seq<PoolNode>)
  {
    live0 <= live && live0 + free0 <= live + free && (free != [] ==> live + free == live0 + free0)
  }

  lemma ReusesOne(live0: seq<PoolNode>, free0: seq<PoolNode>, free: seq<PoolNode>, node: PoolNode)
    requires if free0 == [] then free == [] else [node] + free == free0
    ensures Reuses(live0, free0, live0 + [node], free)
  {
    assert live0 + [node] + free == live0 + ([node] + free);
  }

  lemma ReusesMore(live0: seq<PoolNode>, free0: seq<PoolNode>, live1: seq<PoolNode>, free1: seq<PoolNode>,
                   live2: seq<PoolNode>, free2: seq<PoolNode>)
    requires Reuses(live0, free0, live1, free1) && Reuses(live1, free1, live2, free2)
    ensures Reuses(live0, free0, live2, free2)
  {
    if free2 != [] {
      assert |free1| >= |free2|;
    }
  }

  /** myQueue and, as its list `free`, the queue of nodes to use again. */
  class MyQueue {
    const tLen: nat
    const live: PageList
    const free: PageList
    var cap: nat
    var loffset: nat
    var roffset: nat
    ghost var image: seq<seq<byte>>   // what the live nodes hold
    ghost var all: set<PoolNode>      // every node ever obtained

    /** Every node is in one of the lists, and in one only. */
    ghost predicate Lists()
      reads `all, live, free, live.nodes`l, live.nodes`r, free.nodes`l, free.nodes`r
    {
      && live != free && live.Valid() && free.Valid()
      && (forall n :: n in all ==> n in live.nodes || n in free.nodes)
      && (forall n :: n in live.nodes ==> n in all) && (forall n :: n in free.nodes ==> n in all)
      && (forall i, j :: 0 <= i < |live.nodes| && 0 <= j < |free.nodes| ==> live.nodes[i] != free.nodes[j])
    }

    /** One node is in neither list, and every other node in one. */
    ghost predicate Loose(node: PoolNode)
      reads `all, live, free, live.nodes`l, live.nodes`r, free.nodes`l, free.nodes`r
    {
      && live != free && live.Valid() && free.Valid()
      && node in all && node !in live.nodes && node !in free.nodes
      && (forall n :: n in all ==> n == node || n in live.nodes || n in free.nodes)
      && (forall n :: n in live.nodes ==> n in all) && (forall n :: n in free.nodes ==> n in all)
      && (forall i, j :: 0 <= i < |live.nodes| && 0 <= j < |free.nodes| ==> live.nodes[i] != free.nodes[j])
    }

    ghost predicate Stored()
      reads `image, live`nodes, free`nodes, live.nodes`d, free.nodes`d
    {
      && |image| == |live.nodes| && (forall i :: 0 <= i < |image| ==> live.nodes[i].d == image[i])
      && (forall i :: 0 <= i < |free.nodes| ==> |free.nodes[i].d| == tLen)
    }

    ghost predicate Whole()
      reads this, live, free, live.nodes, free.nodes
    {
      tLen > 0 && Lists() && Stored() && Laid(image, loffset, roffset, tLen)
    }

    ghost predicate Valid()
      reads this, live, free, live.nodes, free.nodes
    {
      Whole() && cap == |Unread(image, loffset, roffset, tLen)|
    }

    /** The bytes written and not yet read. */
    ghost function Contents(): seq<byte>
      requires Whole()
      reads this, live, free, live.nodes, free.nodes
    {
      Unread(image, loffset, roffset, tLen)
    }

    /** myQueueCreate. */
    constructor (size: nat)
      requires size > 0
      ensures Valid() && Contents() == [] && tLen == size
      ensures fresh(live) && fresh(free) && all == {}
    {
      tLen := size;
      live := new PageList();
      free := new PageList();
      cap, loffset, roffset := 0, 0, 0;
      image, all := [], {};
    }

    /** myQuMalloc. */
    method NewNode() returns (newNode: PoolNode)
      requires tLen > 0 && Lists() && Stored()
      modifies `all, free, free.nodes`l, free.nodes`r
      ensures Loose(newNode) && Stored() && newNode !in live.nodes && newNode !in free.nodes && |newNode.d| == tLen
      ensures newNode in all && old(all) <= all && fresh(all - old(all))
      ensures old(free.nodes) == [] ==> fresh(newNode) && free.nodes == []
      ensures old(free.nodes) != [] ==> [newNode] + free.nodes == old(free.nodes)
    {
      if free.left != null {
        var p := free.LeftPopNode();
        newNode := p;
      } else {
        newNode := new PoolNode(tLen, 0);
        all := all + {newNode};
      }
    }

    /** A node from myQuMalloc becomes the last live one. */
    method Link(newnode: PoolNode)
      requires Loose(newnode) && Stored()
      modifies `image, live, live.nodes`r, newnode`l, newnode`r
      ensures Lists() && Stored() && image == old(image) + [newnode.d]
      ensures live.nodes == old(live.nodes) + [newnode] && free.nodes == old(free.nodes)
    {
      live.RightPush(newnode);
      image := image + [newnode.d];
    }

    lemma Ends()
      requires Whole()
      ensures forall n :: n in live.nodes || n in free.nodes ==> n in all
      ensures live.right != null <==> image != []
      ensures image != [] ==> live.left != null && live.left.d == image[0]
    {
    }

    /** The first branch of myQuStreamW: a node of its own for the next chunk. */
    method WriteNew(chunk: seq<byte>)
      requires Whole() && 0 < |chunk| <= tLen && (live.right != null ==> roffset == tLen)
      modifies this`image, this`all, this`roffset, live, free, all
      ensures Whole() && Contents() == old(Contents()) + chunk
      ensures old(all) <= all && fresh(all - old(all))
      ensures Reuses(old(live.nodes), old(free.nodes), live.nodes, free.nodes)
    {
      hide Laid, Unread, Lists, Loose, Stored, Span, Reuses;
      Ends();
      var newnode := NewNode();
      newnode.d := chunk + newnode.d[|chunk|..];
      assert newnode.d[..|chunk|] == chunk;
      WrittenNew(image, loffset, roffset, tLen, newnode.d, |chunk|);
      roffset := |chunk|;
      ReusesOne(live.nodes, old(free.nodes), free.nodes, newnode);
      Link(newnode);
    }

    /** The last live node holds the last of the contents, and is no other live or free node. */
    lemma Alone()
      requires Whole() && image != []
      ensures live.right == live.nodes[|image| - 1] && live.right.d == image[|image| - 1] && |live.right.d| == tLen
      ensures forall i :: 0 <= i < |image| - 1 ==> live.nodes[i] != live.right
      ensures forall i :: 0 <= i < |free.nodes| ==> free.nodes[i] != live.right
    {
    }

    /** The second branch: a chunk into the room of the last node. */
    method WriteInto(chunk: seq<byte>)
      requires Whole() && live.right != null && roffset + |chunk| <= tLen
      modifies this`image, this`roffset, live.nodes`d
      ensures Whole() && Contents() == old(Contents()) + chunk
    {
      hide Laid, Unread;
      Ends();
      Alone();
      var node := live.right;
      ghost var y := node.d[..roffset] + chunk + node.d[roffset + |chunk|..];
      WrittenInto(image, loffset, roffset, tLen, y, roffset + |chunk|);
      node.d := node.d[..roffset] + chunk + node.d[roffset + |chunk|..];
      image := image[|image| - 1 := node.d];
      roffset := roffset + |chunk|;
    }

    /** The body of the loop of myQuStreamW: as much as goes into one node. */
    method WriteSome(src: seq<byte>, at: nat) returns (shouldsize: nat)
      requires Whole() && at < |src|
      modifies this`image, this`all, this`roffset, live, free, all
      ensures 0 < shouldsize <= |src| - at
      ensures Whole() && Contents() == old(Contents()) + src[at..at + shouldsize]
      ensures old(all) <= all && fresh(all - old(all))
      ensures Reuses(old(live.nodes), old(free.nodes), live.nodes, free.nodes)
    {
      var total := |src| - at;
      if roffset == tLen || live.right == null {
        shouldsize := if total < tLen then total else tLen;
        WriteNew(src[at..at + shouldsize]);
      } else {
        shouldsize := if total < tLen - roffset then total else tLen - roffset;
        WriteInto(src[at..at + shouldsize]);
      }
    }

    /** The loop of myQuStreamW. */
    method WriteAll(src: seq<byte>)
      requires Whole()
      modifies this`image, this`all, this`roffset, live, free, all
      ensures Whole() && Contents() == old(Contents()) + src
      ensures old(all) <= all && fresh(all - old(all))
      ensures Reuses(old(live.nodes), old(free.nodes), live.nodes, free.nodes)
    {
      ghost var before := Contents();
      assert before + src[..0] == before;
      assert Reuses(live.nodes, free.nodes, live.nodes, free.nodes);
      hide Laid, Unread, Lists, Stored, Whole, Contents, Reuses;
      var at := 0;
      while at < |src|
        invariant 0 <= at <= |src|
        invariant Whole() && Contents() == before + src[..at]
        invariant old(all) <= all && fresh(all - old(all))
        invariant Reuses(old(live.nodes), old(free.nodes), live.nodes, free.nodes)
      {
        ghost var l, f := live.nodes, free.nodes;
        var shouldsize := WriteSome(src, at);
        ReusesMore(old(live.nodes), old(free.nodes), l, f, live.nodes, free.nodes);
        Appended(before, src, at, shouldsize);
        at := at + shouldsize;
      }
      assert src[..at] == src;
    }

    /** myQuStreamW. */
    method StreamW(src: seq<byte>)
      requires Valid()
      modifies this`image, this`all, this`roffset, this`cap, live, free, all
      ensures Valid() && Contents() == Leaves(old(Contents()), Write(src))
      ensures old(all) <= all && fresh(all - old(all))
      ensures Reuses(old(live.nodes), old(free.nodes), live.nodes, free.nodes)
    {
      hide Reuses;
      WriteAll(src);
      cap := cap + |src|;
    }

    /** The end of a pass of the loop of myQuStreamL that has used up the first node. */
    method DropFirst()
      requires tLen > 0 && Lists() && Stored() && image != [] && |image[0]| == tLen
      modifies `image, `loffset, live, free, all
      ensures Lists() && Stored() && image == old(image[1..]) && loffset == 0
      ensures live.nodes == old(live.nodes)[1..] && free.nodes == old(free.nodes) + old(live.nodes)[..1]
    {
      hide Lists, Laid;
      Transfer();
      loffset := 0;
      image := image[1..];
    }

    /** myQuLeftPopNode and myQuLeftPopEndFree, one after the other. */
    method Transfer()
      requires Lists() && live.nodes != []
      modifies live, free, all`l, all`r, all`s
      ensures Lists()
      ensures live.nodes == old(live.nodes)[1..] && free.nodes == old(free.nodes) + old(live.nodes)[..1]
    {
      hide PageLists.After, Before;
      var nodetmp := live.LeftPopNode();
      nodetmp.s := 0;
      free.RightPush(nodetmp);
    }

    /** What is at live node k. */
    lemma NodeAt(k: nat)
      requires Whole() && k <= |image|
      ensures |live.nodes| == |image| && (k == 0 ==> live.left == if image == [] then null else live.nodes[0])
      ensures k < |image| ==>
                live.nodes[k].d == image[k] && live.nodes[k].r == if k + 1 < |image| then live.nodes[k + 1] else null
    {
    }

    /** The loop of myQuStreamL when it peeks: only its pointer and its offset move on. */
    method Peek(size: nat) returns (dst: seq<byte>)
      requires Whole() && size <= |Contents()| && live.left != null
      ensures dst == Contents()[..size]
    {
      hide Unread, Lists, Stored;
      var node, lo, total := live.left, loffset, size;
      ghost var k, unread := 0, Contents();
      dst := [];
      NodeAt(0);
      assert image[0..] == image && dst + unread == unread;
      while total > 0
        invariant 0 <= total <= size && k <= |image| && |live.nodes| == |image|
        invariant node == if k < |image| then live.nodes[k] else null
        invariant 0 <= lo && Laid(image[k..], lo, roffset, tLen) && |dst| == size - total
        invariant dst + Unread(image[k..], lo, roffset, tLen) == unread
      {
        assert k < |image| by {
          NothingUnread(image[k..], lo, roffset, tLen);
        }
        NodeAt(k);
        var shouldsize := if total < tLen - lo then total else tLen - lo;
        ghost var rest := image[k..];
        FirstBytes(rest, lo, roffset, tLen, shouldsize);
        Joined(dst, Unread(rest, lo, roffset, tLen), shouldsize);
        dst := dst + node.d[lo..lo + shouldsize];
        lo := lo + shouldsize;
        total := total - shouldsize;
        if lo == tLen {
          assert rest[1..] == image[k + 1..];
          node, lo, k := node.r, 0, k + 1;
        }
      }
    }

    /** The first node has been read to its end. */
    method ReadOut()
      requires Whole() && image != [] && tLen - loffset <= |Contents()|
      modifies `image, `loffset, live, free, all
      ensures Whole() && Contents() == old(Contents())[tLen - old(loffset)..]
      ensures free.nodes + live.nodes == old(free.nodes) + old(live.nodes)
    {
      FirstBytes(image, loffset, roffset, tLen, tLen - loffset);
      ghost var nodes, idle := live.nodes, free.nodes;
      Rotated(idle, nodes);
      hide Laid, Unread, Lists, Stored, Span;
      DropFirst();
    }

    lemma SomethingThere()
      requires Whole() && Contents() != []
      ensures image != []
    {
    }

    /** A pass of the loop of myQuStreamL when it does not peek. */
    method ReadSome(total: nat) returns (chunk: seq<byte>)
      requires Whole() && 0 < total <= |Contents()|
      modifies `image, `loffset, live, free, all
      ensures Whole() && 0 < |chunk| <= total && chunk + Contents() == old(Contents())
      ensures free.nodes + live.nodes == old(free.nodes) + old(live.nodes)
    {
      hide Unread, Lists, Stored;
      SomethingThere();
      Ends();
      var shouldsize := if total < tLen - loffset then total else tLen - loffset;
      chunk := live.left.d[loffset..loffset + shouldsize];
      ghost var unread := Contents();
      FirstBytes(image, loffset, roffset, tLen, shouldsize);
      Joined([], unread, shouldsize);
      if loffset + shouldsize == tLen {
        ReadOut();
      } else {
        loffset := loffset + shouldsize;
      }
    }

    /** The loop of myQuStreamL when it does not peek. */
    method Read(size: nat) returns (dst: seq<byte>)
      requires Whole() && size <= |Contents()|
      modifies `image, `loffset, live, free, all
      ensures Whole() && dst == old(Contents())[..size] && Contents() == old(Contents())[size..]
      ensures free.nodes + live.nodes == old(free.nodes) + old(live.nodes)
    {
      hide Laid, Unread, Lists, Stored, Whole, Contents;
      dst := [];
      ghost var unread := Contents();
      while |dst| < size
        invariant Whole() && |dst| <= size && dst + Contents() == unread
        invariant free.nodes + live.nodes == old(free.nodes) + old(live.nodes)
      {
        var chunk := ReadSome(size - |dst|);
        Regrouped(dst, chunk, Contents());
        dst := dst + chunk;
      }
    }

    /** myQuStreamL: the oldest bytes, all that were asked for or none. */
    method StreamL(size: nat, peek: bool) returns (count: nat, dst: seq<byte>)
      requires Valid()
      modifies `image, `loffset, `cap, live, free, all
      ensures Valid() && count == |dst| == if size <= |old(Contents())| then size else 0
      ensures dst == old(Contents())[..count] && Contents() == old(Contents())[if peek then 0 else count..]
      ensures dst == Answer(old(Contents()), if peek then Look(size) else Take(size))
      ensures Contents() == Leaves(old(Contents()), if peek then Look(size) else Take(size))
      ensures peek ==> image == old(image) && loffset == old(loffset)
      ensures peek ==> live.nodes == old(live.nodes) && free.nodes == old(free.nodes)
      ensures free.nodes + live.nodes == old(free.nodes) + old(live.nodes)
    {
      hide Laid, Unread, Lists, Stored;
      NodeAt(0);
      NothingUnread(image, loffset, roffset, tLen);
      if live.left == null || cap < size {
        return 0, [];
      }
      if peek {
        dst := Peek(size);
      } else {
        dst := Read(size);
        cap := cap - size;
      }
      count := size;
    }
  }

  lemma NothingUnread(image: seq<seq<byte>>, lo: nat, ro: nat, tLen: nat)
    requires Laid(image, lo, ro, tLen)
    ensures image == [] ==> Unread(image, lo, ro, tLen) == []
  {
  }

  lemma Rotated(idle: seq<PoolNode>, nodes: seq<PoolNode>)
    requires nodes != []
    ensures idle + nodes[..1] + nodes[1..] == idle + nodes
  {
  }

  lemma Regrouped(a: seq<byte>, b: seq<byte>, c: seq<byte>)
    ensures a + (b + c) == a + b + c
  {
  }

  lemma Joined(dst: seq<byte>, rest: seq<byte>, n: nat)
    requires n <= |rest|
    ensures dst + rest[..n] + rest[n..] == dst + rest
  {
  }
}
