/** Sessions: the runs of the send cache that whole frames give rise to. */
module SendRuns {
  import opened Bytes
  import opened RtpPackets
  import opened Fragmenting
  import opened SendCaches
  import opened SendCacheLaws
  import opened SendStreams
  import opened SeqNums

  datatype Contents = Contents(bodies: seq<seq<byte>>, h: Header)

  /** A frame as SendData gets it: the node contents, with the size CreateFrameStr or MergeData recorded for them. */
  type Whole = w: Contents | |Flatten(w.bodies)| + HEADSIZE <= MAXINT witness Contents([], WRAPHEADER)

  function FrameOps(frame: nat, h: Header, frags: seq<Fragment>): (ops: seq<Op>)
    ensures |ops| == |frags| && forall i :: 0 <= i < |frags| ==> ops[i] == Send(Item(frame, frags[i], h))
  {
    if frags == [] then [] else [Send(Item(frame, frags[0], h))] + FrameOps(frame, h, frags[1..])
  }

  /** The fragments of a frame, numbered by the frame's place in the session. */
  function WholeOps(frames: seq<Whole>, i: nat): seq<Op>
    requires i < |frames|
  {
    FrameOps(i, frames[i].h, Fragments(frames[i].bodies, |Flatten(frames[i].bodies)|, 0))
  }

  /** Sending the first n frames, one after the other. */
  function Session(frames: seq<Whole>, n: nat): seq<Op>
    requires n <= |frames|
  {
    if n == 0 then [] else Session(frames, n - 1) + WholeOps(frames, n - 1)
  }

  /** What SendData does to the sender is a stretch of a run. */
  lemma {:induction false} SendDataIsRun(m: nat, len: nat, ops: seq<Op>, frame: nat, h: Header, frags: seq<Fragment>)
    requires 0 < m && 0 < len
    ensures Run(m, len, ops + FrameOps(frame, h, frags)) == SendFrags(m, Run(m, len, ops), frame, h, frags)
    decreases |frags|
  {
    if frags == [] {
      assert ops + FrameOps(frame, h, frags) == ops;
    } else {
      var op := Send(Item(frame, frags[0], h));
      assert (ops + [op])[..|ops|] == ops;
      Regroup(ops, op, FrameOps(frame, h, frags[1..]));
      hide SendOne;
      SendDataIsRun(m, len, ops + [op], frame, h, frags[1..]);
    }
  }

  lemma Regroup(a: seq<Op>, op: Op, b: seq<Op>)
    ensures a + ([op] + b) == (a + [op]) + b
  {
  }

  lemma {:induction false} ItemsConcat(a: seq<Op>, b: seq<Op>)
    ensures Items(a + b) == Items(a) + Items(b)
    decreases |b|
  {
    if b == [] {
      assert a + b == a;
    } else {
      assert (a + b)[..|a + b| - 1] == a + b[..|b| - 1];
      ItemsConcat(a, b[..|b| - 1]);
    }
  }

  /** All items belong to frames below `bound`, and a frame's last fragment is never followed by another of it. */
  ghost predicate GroupedBelow(items: seq<Item>, bound: nat)
  {
    WellGrouped(items) && forall i :: 0 <= i < |items| ==> items[i].frame < bound
  }

  lemma {:induction false} FrameItemsAt(frame: nat, h: Header, frags: seq<Fragment>)
    ensures var items := Items(FrameOps(frame, h, frags));
            |items| == |frags| && forall i :: 0 <= i < |frags| ==> items[i] == Item(frame, frags[i], h)
    decreases |frags|
  {
    hide Items;
    if frags == [] {
      NoItems();
    } else {
      var op := Send(Item(frame, frags[0], h));
      ItemsConcat([op], FrameOps(frame, h, frags[1..]));
      OneItem(op);
      FrameItemsAt(frame, h, frags[1..]);
    }
  }

  lemma NoItems()
    ensures Items([]) == []
  {
  }

  lemma OneItem(op: Op)
    requires op.Send?
    ensures Items([op]) == [op.it]
  {
    assert [op][..0] == [];
  }

  /** The items of one frame, of which only the final one is tagged as last. */
  ghost predicate WholeItems(items: seq<Item>, frame: nat)
  {
    forall i :: 0 <= i < |items| ==> items[i].frame == frame && (IsLast(items[i].frag) <==> i == |items| - 1)
  }

  lemma GroupAppend(a: seq<Item>, b: seq<Item>, bound: nat)
    requires GroupedBelow(a, bound)
    requires WholeItems(b, bound)
    ensures GroupedBelow(a + b, bound + 1)
  {
    forall j, k | 0 <= j < k < |a + b| && (a + b)[j].frame == (a + b)[k].frame
      ensures !IsLast((a + b)[j].frag)
    {
      if j >= |a| {
        assert (a + b)[j] == b[j - |a|];
      }
    }
  }

  /** The history of whole frames, each with its size recorded right, is one to which the release laws apply. */
  lemma {:induction false} SessionGrouped(frames: seq<Whole>, n: nat)
    requires n <= |frames|
    ensures GroupedBelow(Items(Session(frames, n)), n)
  {
    hide GroupedBelow, WholeOps, Items, Session;
    if n == 0 {
      NoneGrouped(frames);
    } else {
      SessionGrouped(frames, n - 1);
      SessionStep(frames, n);
      ItemsConcat(Session(frames, n - 1), WholeOps(frames, n - 1));
      WholeAppended(frames, n - 1, Items(Session(frames, n - 1)));
    }
  }

  lemma {:induction false} NoneGrouped(frames: seq<Whole>)
    ensures GroupedBelow(Items(Session(frames, 0)), 0)
  {
  }

  lemma SessionStep(frames: seq<Whole>, n: nat)
    requires 0 < n <= |frames|
    ensures Session(frames, n) == Session(frames, n - 1) + WholeOps(frames, n - 1)
  {
  }

  lemma WholeAppended(frames: seq<Whole>, k: nat, before: seq<Item>)
    requires k < |frames| && GroupedBelow(before, k)
    ensures GroupedBelow(before + Items(WholeOps(frames, k)), k + 1)
  {
    hide GroupedBelow, WholeItems, WholeOps, Items;
    WholeGrouped(frames, k);
    GroupAppend(before, Items(WholeOps(frames, k)), k);
  }

  lemma WholeGrouped(frames: seq<Whole>, k: nat)
    requires k < |frames|
    ensures WholeItems(Items(WholeOps(frames, k)), k)
  {
    var w := frames[k];
    var total := |Flatten(w.bodies)|;
    var frags := Fragments(w.bodies, total, 0);
    FragmentsTagged(w.bodies, 0, total);
    OnlyFinalIsLast(frags, 0, total);
    FrameItemsAt(k, w.h, frags);
    hide Fragments, Items, FrameOps, IsLast;
  }

  /** Until the sequence numbers wrap, a session of whole frames never leaves the cache pointing into a released
      frame, and never releases one twice. */
  lemma {:induction false} SessionSafe(frames: seq<Whole>, n: nat)
    requires n <= |frames| && |Items(Session(frames, n))| < SEQMAX
    ensures var s := Run(SEQMAX, CACHELEN, Session(frames, n)); !Dangling(s) && Distinct(s.released)
  {
    SessionGrouped(frames, n);
    InTurnIsSafe(SEQMAX, CACHELEN, Session(frames, n));
    ReleasedOnce(SEQMAX, CACHELEN, Session(frames, n));
  }

  /** The frames whose sending wraps the numbers with a slot left dangling: one byte each, but for one of two nodes. */
  function WrapFrames(m: nat, len: nat): (frames: seq<Whole>)
    requires 2 <= len < m
    ensures |frames| == m - 1
  {
    FewBytes();
    seq(m - 1, i => Contents(if i == LastMultiple(m, len) - 2 then [[0], [0]] else [[0]], WRAPHEADER))
  }

  lemma FewBytes()
    ensures Flatten<byte>([[0]]) == [0] && Flatten<byte>([[0], [0]]) == [0, 0]
  {
    assert Flatten<byte>([[0]]) == [0];
  }

  lemma OneByteOps(frames: seq<Whole>, i: nat)
    requires i < |frames| && frames[i].bodies == [[0]]
    ensures WholeOps(frames, i) == [Send(Item(i, Fragment(0, [0]), frames[i].h))]
  {
    FewBytes();
    var rest: seq<seq<byte>> := [];
    assert [[0]][1..] == rest;
    NodeOfByte(1, 0);
    assert Fragments([[0]], 1, 0) == [Fragment(0, [0])];
  }

  lemma {:induction false} NodeOfByte(total: nat, sent: nat)
    ensures NodeFragments([0], total, sent) == [Fragment(Tag(total, sent, 1), [0])]
  {
    var b: seq<byte> := [0];
    assert b[..1] == b && b[1..] == [];
  }

  lemma TwoByteOps(frames: seq<Whole>, i: nat)
    requires i < |frames| && frames[i].bodies == [[0], [0]]
    ensures WholeOps(frames, i)
         == [Send(Item(i, Fragment(2, [0]), frames[i].h)), Send(Item(i, Fragment(3, [0]), frames[i].h))]
  {
    var one: seq<seq<byte>> := [[0]];
    FewBytes();
    assert one[1..] == [] && [[0], [0]][1..] == one;
    NodeOfByte(2, 0);
    NodeOfByte(2, 1);
    assert Fragments(one, 2, 1) == [Fragment(3, [0])];
    assert Fragments([[0], [0]], 2, 0) == [Fragment(2, [0]), Fragment(3, [0])];
  }

  /** The run that leaves a slot dangling is the sending of whole frames. */
  lemma {:induction false} WrapIsSession(m: nat, len: nat, n: nat)
    requires 2 <= len < m && n < m
    ensures Session(WrapFrames(m, len), n) == WrapOps(m, len, if n <= LastMultiple(m, len) - 2 then n else n + 1)
  {
    hide WholeOps, LastMultiple;
    var frames, c := WrapFrames(m, len), LastMultiple(m, len);
    if n > 0 {
      WrapIsSession(m, len, n - 1);
      if n == c - 1 {
        TwoByteOps(frames, n - 1);
      } else {
        OneByteOps(frames, n - 1);
      }
    }
  }

  /** Over all sessions of whole frames, no slot ever points into a released frame exactly when the cache length divides
      the modulus. */
  lemma {:induction false} SessionsSafeExactly(m: nat, len: nat)
    requires 2 <= m && 1 <= len <= m
    ensures (forall frames :: !Dangling(Run(m, len, Session(frames, |frames|)))) <==> m % len == 0
  {
    hide Run, Session, Dangling, WrapOps, WrapFrames, Items, WellGrouped, LastMultiple;
    SmallMod(m, m);
    if m % len == 0 {
      forall frames ensures !Dangling(Run(m, len, Session(frames, |frames|))) {
        SessionGrouped(frames, |frames|);
        InTurnIsSafe(m, len, Session(frames, |frames|));
      }
    } else {
      WrapIsSession(m, len, m - 1);
      WrapDangles(m, len);
      assert Dangling(Run(m, len, Session(WrapFrames(m, len), m - 1)));
    }
  }
}
