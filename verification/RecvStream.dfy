/** Reassembly of fragments into frames: MergeData of huage_recvstream.cpp. */
module RecvStreams {
  import opened Bytes
  import opened RtpPackets

  const MAXFRAME := 2097152      // MAXBIGFRAMELEN

  /** A received packet: a buffer with a 10-byte header in front of `body`. The id stands for its address. */
  datatype Packet = Packet(id: nat, body: seq<byte>) {
    function UdpLength(): nat
    {
      HEADSIZE + |body|
    }
  }

  /** A frame handed to recvCallback. */
  datatype Frame = Frame(pieces: seq<Packet>, size: nat, pts: nat)

  /** One stream's partial frame, and what has left it: frames to the callback, packets to the free pipe. */
  datatype Receiver = Receiver(chain: seq<Packet>, size: nat, pts: nat, offset: nat,
                               delivered: seq<Frame>, freed: seq<Packet>)

  /** MergeDataClear: drops the partial frame. */
  function Clear(r: Receiver): Receiver
  {
    r.(chain := [], size := 0, pts := 0, offset := 0, freed := r.freed + r.chain)
  }

  /** The effect of MergeData on one packet; `inSeq` is its test tmpseq == seqtmp. */
  function Merge(r: Receiver, p: Packet, tag: int, inSeq: bool): Receiver
  {
    if tag == 0 then
      var c := Clear(r);
      c.(delivered := c.delivered + [Frame([p], p.UdpLength(), 0)])
    else if tag == 2 then
      if p.UdpLength() > MAXFRAME then r.(freed := r.freed + [p])
      else Clear(r).(chain := [p], offset := p.UdpLength())
    else if (tag == 1 || tag == 3) && inSeq && r.offset + |p.body| <= MAXFRAME then
      var chain, offset := r.chain + [p], r.offset + |p.body|;
      if tag == 3 then r.(chain := [], size := 0, offset := 0, delivered := r.delivered + [Frame(chain, offset, r.pts)])
      else r.(chain := chain, offset := offset)
    else
      var c := Clear(r);
      c.(freed := c.freed + [p])
  }

  datatype Input = Input(packet: Packet, tag: int, inSeq: bool)

  function Feed(r: Receiver, ins: seq<Input>): Receiver
  {
    if ins == [] then r
    else
      var i := ins[|ins| - 1];
      Merge(Feed(r, ins[..|ins| - 1]), i.packet, i.tag, i.inSeq)
  }

  lemma {:induction false} FeedSnoc(r: Receiver, ins: seq<Input>, i: Input)
    ensures Feed(r, ins + [i]) == Merge(Feed(r, ins), i.packet, i.tag, i.inSeq)
  {
    assert (ins + [i])[..|ins|] == ins;
  }

  const Fresh := Receiver([], 0, 0, 0, [], [])

  function BodyBytes(ps: seq<Packet>): seq<byte>
  {
    if ps == [] then [] else BodyBytes(ps[..|ps| - 1]) + ps[|ps| - 1].body
  }

  lemma {:induction false} BodyBytesSnoc(ps: seq<Packet>, p: Packet)
    ensures BodyBytes(ps + [p]) == BodyBytes(ps) + p.body
  {
    assert (ps + [p])[..|ps|] == ps;
  }

  /** Whether the partial frame after `ins` begins with an accepted start fragment. */
  function Started(ins: seq<Input>): bool
  {
    if ins == [] then false
    else
      var i, before := ins[|ins| - 1], ins[..|ins| - 1];
      if i.tag == 2 then i.packet.UdpLength() <= MAXFRAME || Started(before)
      else i.tag == 1 && i.inSeq && Feed(Fresh, before).offset + |i.packet.body| <= MAXFRAME && Started(before)
  }

  /** Whatever arrives, in whatever order, the running offset stays within bounds and counts the body bytes held,
      plus the header of the start fragment if there is one. */
  lemma {:induction false} OffsetAlways(ins: seq<Input>)
    ensures OffsetOk(Feed(Fresh, ins), Started(ins))
  {
    if ins != [] {
      var i, before := ins[|ins| - 1], ins[..|ins| - 1];
      hide OffsetOk, Merge;
      OffsetAlways(before);
      MergeOffset(Feed(Fresh, before), i, Started(before));
    }
  }

  /** The offset of a receiver is right, given whether its partial frame has a start fragment. */
  predicate OffsetOk(r: Receiver, started: bool)
  {
    r.offset <= MAXFRAME && r.size == 0 && r.offset == |BodyBytes(r.chain)| + (if started then HEADSIZE else 0)
  }

  lemma MergeOffset(r: Receiver, i: Input, started: bool)
    requires OffsetOk(r, started)
    ensures OffsetOk(Merge(r, i.packet, i.tag, i.inSeq),
                     if i.tag == 2 then i.packet.UdpLength() <= MAXFRAME || started
                     else i.tag == 1 && i.inSeq && r.offset + |i.packet.body| <= MAXFRAME && started)
  {
    BodyBytesSnoc(r.chain, i.packet);
    BodyBytesSnoc([], i.packet);
    assert [] + [i.packet] == [i.packet];
  }

  function Packets(ins: seq<Input>): seq<Packet>
  {
    if ins == [] then [] else Packets(ins[..|ins| - 1]) + [ins[|ins| - 1].packet]
  }

  function Pieces(fs: seq<Frame>): seq<Packet>
  {
    if fs == [] then [] else Pieces(fs[..|fs| - 1]) + fs[|fs| - 1].pieces
  }

  lemma {:induction false} PiecesSnoc(fs: seq<Frame>, f: Frame)
    ensures Pieces(fs + [f]) == Pieces(fs) + f.pieces
  {
    assert (fs + [f])[..|fs|] == fs;
  }

  /** Where a receiver's packets are: in the partial frame, in a delivered frame, or freed. */
  function Held(r: Receiver): multiset<Packet>
  {
    multiset(r.chain) + multiset(Pieces(r.delivered)) + multiset(r.freed)
  }

  lemma ClearConserves(r: Receiver)
    ensures Held(Clear(r)) == Held(r)
  {
    assert multiset(r.freed + r.chain) == multiset(r.freed) + multiset(r.chain);
  }

  lemma FreedConserves(r: Receiver, p: Packet)
    ensures Held(r.(freed := r.freed + [p])) == Held(r) + multiset{p}
  {
    assert multiset(r.freed + [p]) == multiset(r.freed) + multiset{p};
  }

  lemma DeliveredConserves(r: Receiver, ps: seq<Packet>, size: nat, pts: nat)
    ensures Held(r.(chain := [], size := 0, offset := 0, delivered := r.delivered + [Frame(ps, size, pts)]))
         == Held(r.(chain := ps))
  {
    PiecesSnoc(r.delivered, Frame(ps, size, pts));
    assert multiset(Pieces(r.delivered) + ps) == multiset(Pieces(r.delivered)) + multiset(ps);
  }

  lemma ChainConserves(r: Receiver, p: Packet, offset: nat)
    ensures Held(r.(chain := r.chain + [p], offset := offset)) == Held(r) + multiset{p}
  {
    assert multiset(r.chain + [p]) == multiset(r.chain) + multiset{p};
  }

  lemma MergeConserves(r: Receiver, i: Input)
    ensures Held(Merge(r, i.packet, i.tag, i.inSeq)) == Held(r) + multiset{i.packet}
  {
    var p := i.packet;
    ClearConserves(r);
    var c := Clear(r);
    hide Held;
    if i.tag == 0 || (i.tag == 2 && p.UdpLength() <= MAXFRAME) {
      assert c.chain + [p] == [p];
      ChainConserves(c, p, 0);
      ChainConserves(c, p, p.UdpLength());
      DeliveredConserves(c, [p], p.UdpLength(), 0);
    } else if (i.tag == 1 || i.tag == 3) && i.inSeq && r.offset + |p.body| <= MAXFRAME {
      ChainConserves(r, p, r.offset);
      ChainConserves(r, p, r.offset + |p.body|);
      DeliveredConserves(r, r.chain + [p], r.offset + |p.body|, r.pts);
    } else {
      FreedConserves(r, p);
      FreedConserves(c, p);
    }
  }

  /** No packet is lost, freed twice, or freed while a frame still uses it, whatever arrives. */
  lemma {:induction false} ConservedAlways(r: Receiver, ins: seq<Input>)
    ensures Held(Feed(r, ins)) == Held(r) + multiset(Packets(ins))
  {
    if ins != [] {
      var before := ins[..|ins| - 1];
      ConservedAlways(r, before);
      MergeConserves(Feed(r, before), ins[|ins| - 1]);
    }
  }

  /** A delivered frame is a lone packet, or was collected behind an accepted start fragment, or without one. */
  datatype Kind = Lone | Headed | Headless

  /** What the frames delivered on the way are, in order. */
  function Kinds(ins: seq<Input>): seq<Kind>
  {
    if ins == [] then []
    else
      var i, before := ins[|ins| - 1], ins[..|ins| - 1];
      Kinds(before) + Kinded(Feed(Fresh, before), i, Started(before))
  }

  /** What the next input delivers, if anything. */
  function Kinded(r: Receiver, i: Input, started: bool): (k: seq<Kind>)
    ensures |k| <= 1
  {
    if i.tag == 0 then [Lone]
    else if i.tag == 3 && i.inSeq && r.offset + |i.packet.body| <= MAXFRAME
    then [if started then Headed else Headless]
    else []
  }

  /** The recorded size counts the bytes of the frame, and one header unless it has no start fragment; only a lone
      packet can be larger than the limit. */
  predicate SizeOk(f: Frame, kind: Kind)
  {
    && f.size == |BodyBytes(f.pieces)| + (if kind == Headless then 0 else HEADSIZE)
    && (if kind == Lone then |f.pieces| == 1 else f.size <= MAXFRAME)
  }

  lemma {:induction false} SizesAlways(ins: seq<Input>)
    ensures var fs := Feed(Fresh, ins).delivered;
            |fs| == |Kinds(ins)| && forall k :: 0 <= k < |fs| ==> SizeOk(fs[k], Kinds(ins)[k])
  {
    hide OffsetOk, Merge, SizeOk, Kinded;
    if ins != [] {
      var i, before := ins[|ins| - 1], ins[..|ins| - 1];
      SizesAlways(before);
      OffsetAlways(before);
      MergeDelivers(Feed(Fresh, before), i, Started(before));
    }
  }

  lemma MergeDelivers(r: Receiver, i: Input, started: bool)
    requires OffsetOk(r, started)
    ensures var fs, n := Merge(r, i.packet, i.tag, i.inSeq).delivered, |r.delivered|;
            && r.delivered <= fs && |fs| == n + |Kinded(r, i, started)|
            && (|fs| > n ==> SizeOk(fs[n], Kinded(r, i, started)[0]))
  {
    hide BodyBytes;
    BodyBytesSnoc(r.chain, i.packet);
    BodyBytesOne(i.packet);
  }

  lemma BodyBytesOne(p: Packet)
    ensures BodyBytes([p]) == p.body
  {
    assert [p][..0] == [];
  }

  /** One stream of HuageRecvStream: media_frame_chain and bigframeOffset, and a record of what left them. */
  class RecvStream {
    var hct: seq<Packet>            // bigframebuf->hct
    var size: nat
    var pts: nat
    var bigframeOffset: nat
    var delivered: seq<Frame>       // the calls of recvCallback
    var freed: seq<Packet>          // the buffers given back with WritePipeFree

    ghost function Abs(): Receiver
      reads this
    {
      Receiver(hct, size, pts, bigframeOffset, delivered, freed)
    }

    constructor ()
      ensures Abs() == Fresh
    {
      hct, size, pts, bigframeOffset, delivered, freed := [], 0, 0, 0, [], [];
    }

    method FreeChain()
      modifies `freed
      ensures freed == old(freed) + hct
    {
      var i := 0;
      while i < |hct|
        invariant i <= |hct| && freed == old(freed) + hct[..i]
      {
        freed := freed + [hct[i]];
        i := i + 1;
      }
      assert hct[..|hct|] == hct;
    }

    method MergeDataClear()
      modifies this
      ensures Abs() == Clear(old(Abs()))
    {
      bigframeOffset := 0;
      FreeChain();
      hct := [];
      size := 0;
      pts := 0;
    }

    /** Hands the collected chain to recvCallback and starts afresh. */
    method Deliver()
      modifies `hct, `size, `bigframeOffset, `delivered
      ensures hct == [] && size == 0 && bigframeOffset == 0
      ensures delivered == old(delivered) + [Frame(old(hct), old(size), old(pts))]
    {
      delivered := delivered + [Frame(hct, size, pts)];
      bigframeOffset := 0;
      hct := [];
      size := 0;
    }

    method MergeData(udpdata: Packet, tailflag: int, tmpseq: nat, seqtmp: nat)
      modifies this
      ensures Abs() == Merge(old(Abs()), udpdata, tailflag, tmpseq == seqtmp)
    {
      var udpLength := |udpdata.body| + HEADSIZE;
      var rtpBodyLength := udpLength - HEADSIZE;
      if tailflag == 0 {
        MergeDataClear();
        hct := hct + [udpdata];
        assert hct == [udpdata];
        size := udpLength;
        bigframeOffset := udpLength;
        Deliver();
      } else if tailflag == 2 {
        if udpLength > MAXFRAME {
          freed := freed + [udpdata];
          return;
        }
        MergeDataClear();
        hct := hct + [udpdata];
        assert hct == [udpdata];
        bigframeOffset := udpLength;
      } else if tailflag == 1 || tailflag == 3 {
        if tmpseq == seqtmp {
          if bigframeOffset + rtpBodyLength > MAXFRAME {
            MergeDataClear();
            freed := freed + [udpdata];
            return;
          }
          hct := hct + [udpdata];
          bigframeOffset := bigframeOffset + rtpBodyLength;
          if tailflag == 3 {
            size := bigframeOffset;
            Deliver();
          }
        } else {
          MergeDataClear();
          freed := freed + [udpdata];
        }
      } else {
        MergeDataClear();
        freed := freed + [udpdata];
      }
    }
  }
}
