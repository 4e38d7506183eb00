/** End to end: a frame cut up by SendData and put together by MergeData, over any number of hops. */
module RoundTrips {
  import opened Bytes
  import opened RtpPackets
  import opened SeqNums
  import opened Frames
  import opened Fragmenting
  import opened SendCaches
  import opened SendStreams
  import opened RecvStreams

  /** The packet a receiver makes of a datagram, with the tag it reads from the header, in sequence. */
  function Arrival(d: Datagram, id: nat): Input
    requires HEADSIZE <= |d.head|
  {
    Input(Packet(id, d.body), PktFlag(d.head), true)
  }

  function Arrivals(ds: seq<Datagram>, id: nat): seq<Input>
    requires forall d :: d in ds ==> |d.head| == HEADSIZE
  {
    if ds == [] then [] else [Arrival(ds[0], id)] + Arrivals(ds[1..], id + 1)
  }

  /** The same fragments as inputs, read off directly. */
  function Inputs(frags: seq<Fragment>, id: nat): seq<Input>
  {
    if frags == [] then [] else [Input(Packet(id, frags[0].body), frags[0].tag, true)] + Inputs(frags[1..], id + 1)
  }

  lemma TagSurvives(h: Header)
    requires h.tail < 4
    ensures PktFlag(Encode(h)) == h.tail
  {
    MiddleBits(h.cmd % 8, h.tail, h.payloadType % 8);
  }

  lemma MiddleBits(c: nat, t: nat, p: nat)
    requires t < 4 && p < 8
    ensures (c * 32 + t % 4 * 8 + p) / 8 % 4 == t
  {
    assert (c * 32 + t * 8 + p) / 8 == c * 4 + t;
  }

  /** What sending puts on the wire comes in as the fragments that were sent. */
  lemma {:induction false} WireCarries(m: nat, s: Sender, frame: nat, h: Header, frags: seq<Fragment>, id: nat)
    requires 0 < m && Proper(m, s) && forall f :: f in frags ==> f.tag < 4
    ensures var t := SendFrags(m, s, frame, h, frags);
            && s.sent <= t.sent
            && (forall d :: d in t.sent[|s.sent|..] ==> |d.head| == HEADSIZE)
            && Arrivals(t.sent[|s.sent|..], id) == Inputs(frags, id)
    decreases |frags|
  {
    if frags == [] {
      assert s.sent[|s.sent|..] == [];
    } else {
      var it := Item(frame, frags[0], h);
      var s1 := SendOne(m, s, it);
      var t := SendFrags(m, s, frame, h, frags);
      assert frags[0] in frags;
      WireCarries(m, s1, frame, h, frags[1..], id + 1);
      var d := Datagram(HeadOf(it, s1.sndSeq), frags[0].body);
      assert t.sent[|s.sent|..] == [d] + t.sent[|s1.sent|..];
      TagSurvives(h.(seqno := s1.sndSeq, tail := frags[0].tag));
    }
  }

  lemma {:induction false} FeedCons(r: Receiver, i: Input, rest: seq<Input>)
    ensures Feed(r, [i] + rest) == Feed(Merge(r, i.packet, i.tag, i.inSeq), rest)
    decreases |rest|
  {
    if rest == [] {
      assert [i] + rest == [] + [i];
      FeedSnoc(r, [], i);
    } else {
      var front, last := rest[..|rest| - 1], rest[|rest| - 1];
      assert [i] + rest == ([i] + front) + [last] && rest == front + [last];
      FeedSnoc(r, [i] + front, last);
      FeedCons(r, i, front);
    }
  }

  /** The packets the fragments arrive in. */
  function PacketsOf(frags: seq<Fragment>, id: nat): (ps: seq<Packet>)
    ensures |ps| == |frags|
  {
    if frags == [] then [] else [Packet(id, frags[0].body)] + PacketsOf(frags[1..], id + 1)
  }

  lemma {:induction false} BodyBytesCons(p: Packet, ps: seq<Packet>)
    ensures BodyBytes([p] + ps) == p.body + BodyBytes(ps)
    decreases |ps|
  {
    if ps == [] {
      assert [p] + ps == [] + [p];
      BodyBytesSnoc([], p);
    } else {
      var front, last := ps[..|ps| - 1], ps[|ps| - 1];
      assert [p] + ps == ([p] + front) + [last] && ps == front + [last];
      BodyBytesSnoc([p] + front, last);
      BodyBytesSnoc(front, last);
      BodyBytesCons(p, front);
    }
  }

  lemma {:induction false} PacketsCarry(frags: seq<Fragment>, id: nat)
    ensures BodyBytes(PacketsOf(frags, id)) == Body(frags)
    decreases |frags|
  {
    if frags != [] {
      PacketsCarry(frags[1..], id + 1);
      BodyBytesCons(Packet(id, frags[0].body), PacketsOf(frags[1..], id + 1));
    }
  }

  /** The receiver once a frame has been handed over. */
  function Emptied(r: Receiver, f: Frame): Receiver
  {
    r.(chain := [], size := 0, offset := 0, delivered := r.delivered + [f])
  }

  /** No fragment follows the one that completes the frame. */
  lemma {:induction false} Exhausted(frags: seq<Fragment>, total: nat)
    requires Tagged(frags, total, total, total)
    ensures frags == []
  {
  }

  /** In the middle of a frame of `total` bytes: the rest of its fragments complete the chain. */
  lemma {:induction false} Completes(r: Receiver, frags: seq<Fragment>, id: nat, got: nat, total: nat)
    requires 0 < got < total && total + HEADSIZE <= MAXFRAME
    requires r.offset == got + HEADSIZE && Tagged(frags, got, total, total)
    ensures Feed(r, Inputs(frags, id)) == Emptied(r, Frame(r.chain + PacketsOf(frags, id), total + HEADSIZE, r.pts))
    decreases |frags|
  {
    var f, rest := frags[0], frags[1..];
    var p, next := Packet(id, f.body), got + |f.body|;
    assert f.tag == (if next == total then 3 else 1) && Tagged(rest, next, total, total);
    FeedCons(r, Input(p, f.tag, true), Inputs(rest, id + 1));
    assert Inputs(frags, id) == [Input(p, f.tag, true)] + Inputs(rest, id + 1);
    assert PacketsOf(frags, id) == [p] + PacketsOf(rest, id + 1);
    hide Tagged;
    var r1 := Merge(r, p, f.tag, true);
    if next == total {
      Exhausted(rest, total);
      assert [p] + PacketsOf([], id + 1) == [p];
      assert Feed(r1, Inputs([], id + 1)) == r1;
    } else {
      hide Inputs, Feed;
      Completes(r1, rest, id + 1, next, total);
      assert r.chain + ([p] + PacketsOf(rest, id + 1)) == (r.chain + [p]) + PacketsOf(rest, id + 1);
    }
  }

  /** From any receiver state, the fragments of a frame that fits deliver that frame and nothing else. */
  lemma {:induction false} Delivers(r: Receiver, frags: seq<Fragment>, id: nat, total: nat)
    requires 0 < total && total + HEADSIZE <= MAXFRAME && Tagged(frags, 0, total, total)
    ensures Feed(r, Inputs(frags, id)) == Emptied(Clear(r), Frame(PacketsOf(frags, id), total + HEADSIZE, 0))
  {
    var f := frags[0];
    var p, next := Packet(id, f.body), |f.body|;
    FeedCons(r, Input(p, f.tag, true), Inputs(frags[1..], id + 1));
    var r1 := Merge(r, p, f.tag, true);
    if next == total {
      Exhausted(frags[1..], total);
      assert PacketsOf(frags, id) == [p];
    } else {
      Completes(r1, frags[1..], id + 1, next, total);
      assert PacketsOf(frags, id) == [p] + PacketsOf(frags[1..], id + 1);
    }
  }

  /** Without lone packets, no delivered frame is larger than the limit. */
  lemma {:induction false} NoneTooLarge(r: Receiver, ins: seq<Input>)
    requires forall i :: i in ins ==> i.tag != 0
    ensures r.delivered <= Feed(r, ins).delivered
    ensures forall f :: f in Feed(r, ins).delivered[|r.delivered|..] ==> f.size <= MAXFRAME
  {
    if ins != [] {
      var before, i := ins[..|ins| - 1], ins[|ins| - 1];
      assert i in ins;
      NoneTooLarge(r, before);
    }
  }

  /** One hop: the receiver `r` after the frame held by the nodes `bodies` went from `s` to it. */
  function Hop(bodies: seq<seq<byte>>, s: Sender, frame: nat, h: Header, r: Receiver, id: nat): Receiver
    requires Proper(SEQMAX, s)
  {
    var total := |Flatten(bodies)|;
    var frags := Fragments(bodies, total, 0);
    TwoBitTags(bodies, total, 0);
    WireCarries(SEQMAX, s, frame, h, frags, id);
    Feed(r, Arrivals(SendFrags(SEQMAX, s, frame, h, frags).sent[|s.sent|..], id))
  }

  /** Exactly one frame came out of r becoming t, with the bytes `p` and the size CreateFrameStr gives to them. */
  ghost predicate OneFrame(r: Receiver, t: Receiver, p: seq<byte>)
  {
    && |t.delivered| == |r.delivered| + 1 && r.delivered <= t.delivered
    && var f := t.delivered[|r.delivered|];
       BodyBytes(f.pieces) == p && f.size == |p| + HEADSIZE
  }

  lemma {:induction false} HopFeeds(bodies: seq<seq<byte>>, s: Sender, frame: nat, h: Header, r: Receiver, id: nat)
    requires Proper(SEQMAX, s)
    ensures Hop(bodies, s, frame, h, r, id) == Feed(r, Inputs(Fragments(bodies, |Flatten(bodies)|, 0), id))
  {
    var total := |Flatten(bodies)|;
    var frags := Fragments(bodies, total, 0);
    TwoBitTags(bodies, total, 0);
    WireCarries(SEQMAX, s, frame, h, frags, id);
  }

  lemma {:induction false} HopDelivers(bodies: seq<seq<byte>>, s: Sender, frame: nat, h: Header, r: Receiver, id: nat)
    requires Proper(SEQMAX, s)
    requires 0 < |Flatten(bodies)| && |Flatten(bodies)| + HEADSIZE <= MAXFRAME
    ensures OneFrame(r, Hop(bodies, s, frame, h, r, id), Flatten(bodies))
  {
    var total := |Flatten(bodies)|;
    var frags := Fragments(bodies, total, 0);
    HopFeeds(bodies, s, frame, h, r, id);
    FragmentsTagged(bodies, 0, total);
    Delivers(r, frags, id, total);
    PacketsCarry(frags, id);
  }

  lemma {:induction false} NoLoneTag(frags: seq<Fragment>, id: nat, sent: nat, total: nat)
    requires Tagged(frags, sent, total, total) && (sent > 0 || total > MAXCOPY)
    ensures forall i :: i in Inputs(frags, id) ==> i.tag != 0
    decreases |frags|
  {
    if frags != [] {
      NoLoneTag(frags[1..], id + 1, sent + |frags[0].body|, total);
    }
  }

  /** Whatever the receiver was doing, one hop delivers the frame, once and whole, exactly when it has any bytes and
      its size with the header is within the limit. */
  lemma {:induction false} HopExactly(bodies: seq<seq<byte>>, s: Sender, frame: nat, h: Header, r: Receiver, id: nat)
    requires Proper(SEQMAX, s) && |Flatten(bodies)| + HEADSIZE <= MAXINT
    ensures OneFrame(r, Hop(bodies, s, frame, h, r, id), Flatten(bodies))
       <==> 0 < |Flatten(bodies)| && |Flatten(bodies)| + HEADSIZE <= MAXFRAME
  {
    var total := |Flatten(bodies)|;
    var frags := Fragments(bodies, total, 0);
    HopFeeds(bodies, s, frame, h, r, id);
    FragmentsTagged(bodies, 0, total);
    if total == 0 {
      Exhausted(frags, 0);
    } else if total + HEADSIZE <= MAXFRAME {
      HopDelivers(bodies, s, frame, h, r, id);
    } else {
      NoLoneTag(frags, id, 0, total);
      NoneTooLarge(r, Inputs(frags, id));
    }
  }

  /** The round trip of a payload: CreateFrameStr with any slice size, SendData, the wire, MergeData. */
  lemma {:induction false} RoundTrip(payload: seq<byte>, ssize: nat, s: Sender, frame: nat, h: Header, r: Receiver,
                                     id: nat)
    requires Proper(SEQMAX, s) && 0 < ssize && |payload| + HEADSIZE <= MAXINT
    ensures OneFrame(r, Hop(Slices(payload, ssize), s, frame, h, r, id), payload)
       <==> payload != [] && |payload| + HEADSIZE <= MAXFRAME
  {
    SlicesFlatten(payload, ssize);
    HopExactly(Slices(payload, ssize), s, frame, h, r, id);
  }

  /** A relay: a sender and the receiver at the other end of its link. */
  datatype Link = Link(s: Sender, frame: nat, h: Header, r: Receiver, id: nat)

  function Nodes(ps: seq<Packet>): seq<seq<byte>>
  {
    if ps == [] then [] else Nodes(ps[..|ps| - 1]) + [ps[|ps| - 1].body]
  }

  lemma {:induction false} NodesFlatten(ps: seq<Packet>)
    ensures Flatten(Nodes(ps)) == BodyBytes(ps)
  {
    if ps != [] {
      NodesFlatten(ps[..|ps| - 1]);
      FlattenSnoc(Nodes(ps[..|ps| - 1]), ps[|ps| - 1].body);
    }
  }

  /** The node contents of the frame that link l hands on when it is given the frame `bodies`; nothing if it delivers
      none. */
  function Relayed(bodies: seq<seq<byte>>, l: Link): seq<seq<byte>>
    requires Proper(SEQMAX, l.s)
  {
    var t := Hop(bodies, l.s, l.frame, l.h, l.r, l.id);
    if |t.delivered| > |l.r.delivered| then Nodes(t.delivered[|l.r.delivered|].pieces) else []
  }

  function Travel(bodies: seq<seq<byte>>, links: seq<Link>): seq<seq<byte>>
    requires forall l :: l in links ==> Proper(SEQMAX, l.s)
  {
    if links == [] then bodies else Relayed(Travel(bodies, links[..|links| - 1]), links[|links| - 1])
  }

  /** A frame that fits arrives with the same bytes after any number of hops, and every hop delivers it exactly once. */
  lemma {:induction false} TravelPreserves(bodies: seq<seq<byte>>, links: seq<Link>)
    requires forall l :: l in links ==> Proper(SEQMAX, l.s)
    requires 0 < |Flatten(bodies)| && |Flatten(bodies)| + HEADSIZE <= MAXFRAME
    ensures Flatten(Travel(bodies, links)) == Flatten(bodies)
    ensures links != [] ==> var l, here := links[|links| - 1], Travel(bodies, links[..|links| - 1]);
              OneFrame(l.r, Hop(here, l.s, l.frame, l.h, l.r, l.id), Flatten(bodies))
  {
    if links != [] {
      var l, before := links[|links| - 1], links[..|links| - 1];
      assert l in links;
      TravelPreserves(bodies, before);
      var here := Travel(bodies, before);
      HopDelivers(here, l.s, l.frame, l.h, l.r, l.id);
      NodesFlatten(Hop(here, l.s, l.frame, l.h, l.r, l.id).delivered[|l.r.delivered|].pieces);
    }
  }
}
