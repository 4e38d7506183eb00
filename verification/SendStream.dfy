/** HuageSendStream: SendData cuts a frame into fragments, and THPOOLSend sends, caches and re-sends them. */
module SendStreams {
  import opened Bytes
  import opened RtpPackets
  import opened SeqNums
  import opened Frames
  import opened Fragmenting
  import opened SendCaches

  /** Sending the fragments `frags` of one frame, one after the other. */
  function SendFrags(m: nat, s: Sender, frame: nat, h: Header, frags: seq<Fragment>): (r: Sender)
    requires 0 < m && Proper(m, s)
    ensures Proper(m, r) && |r.slots| == |s.slots|
    decreases |frags|
  {
    if frags == [] then s
    else SendFrags(m, SendOne(m, s, Item(frame, frags[0], h)), frame, h, frags[1..])
  }

  lemma {:induction false} SendFragsNone(m: nat, s: Sender, frame: nat, h: Header)
    requires 0 < m && Proper(m, s)
    ensures SendFrags(m, s, frame, h, []) == s
  {
  }

  lemma {:induction false} SendFragsCons(m: nat, s: Sender, frame: nat, h: Header, f: Fragment, rest: seq<Fragment>)
    requires 0 < m && Proper(m, s)
    ensures SendFrags(m, s, frame, h, [f] + rest) == SendFrags(m, SendOne(m, s, Item(frame, f, h)), frame, h, rest)
  {
    assert ([f] + rest)[1..] == rest;
  }

  lemma {:induction false} SendFragsConcat(m: nat, s: Sender, frame: nat, h: Header, a: seq<Fragment>, b: seq<Fragment>)
    requires 0 < m && Proper(m, s)
    ensures SendFrags(m, s, frame, h, a + b) == SendFrags(m, SendFrags(m, s, frame, h, a), frame, h, b)
    decreases |a|
  {
    if a == [] {
      assert a + b == b;
    } else {
      assert a + b == [a[0]] + (a[1..] + b);
      SendFragsCons(m, s, frame, h, a[0], a[1..] + b);
      SendFragsConcat(m, SendOne(m, s, Item(frame, a[0], h)), frame, h, a[1..], b);
    }
  }

  class SendStream {
    const sendcache: array<Slot>
    var maxSeqs: nat
    var sndSeqs: nat
    var sent: seq<Datagram>        // the calls of sendCallback
    var released: seq<nat>         // the frames given back by clearPacket2

    ghost predicate Valid()
      reads this, sendcache
    {
      sendcache.Length == CACHELEN && Proper(SEQMAX, Abs())
    }

    ghost function Abs(): Sender
      reads this, sendcache
    {
      Sender(sendcache[..], maxSeqs, sndSeqs, sent, released)
    }

    constructor ()
      ensures Valid() && Abs() == Start(CACHELEN)
    {
      sendcache := new Slot[CACHELEN](_ => Empty);
      maxSeqs, sndSeqs, sent, released := 0, 0, [], [];
      new;
      assert sendcache[..] == Empties(CACHELEN);
    }

    /** The bytes of a header, as rtpPacketHead leaves them in a local buffer. */
    method PacketHead(h: Header) returns (bytes: seq<byte>)
      ensures bytes == Encode(h)
    {
      var rhtmp := new byte[HEADSIZE];
      RtpPacketHead(rhtmp, h);
      bytes := rhtmp[..];
      assert bytes == rhtmp[..HEADSIZE];
    }

    /** Puts a sent fragment into its cache slot, releasing the frame whose last fragment was there. */
    method ClearPacketWrBufer(seqno: nat, it: Item, head: seq<byte>)
      requires Valid() && seqno < SEQMAX && head == HeadOf(it, seqno)
      modifies sendcache, `maxSeqs, `released
      ensures sendcache[..] == old(sendcache[..])[seqno % CACHELEN := SlotOf(it, seqno)]
      ensures released == old(released) + Release(old(sendcache[seqno % CACHELEN]))
      ensures maxSeqs == if Sub(SEQMAX, seqno, old(maxSeqs)) > 0 then seqno else old(maxSeqs)
    {
      var index := seqno % CACHELEN;
      if sendcache[index].Slot? && sendcache[index].alloc {
        released := released + [sendcache[index].frame];
      }
      sendcache[index] := Slot(it.frame, IsLast(it.frag), it.frag.body, head);
      var diffnew := Sub(SEQMAX, seqno, maxSeqs);
      if diffnew > 0 {
        maxSeqs := seqno;
      }
    }

    /** One fragment: numbered by SendData, sent and cached by THPOOLSend. */
    method Post(it: Item)
      requires Valid()
      modifies this, sendcache
      ensures Valid() && Abs() == SendOne(SEQMAX, old(Abs()), it)
    {
      sndSeqs := Add(SEQMAX, sndSeqs, 1);
      var head := PacketHead(it.h.(seqno := sndSeqs, tail := it.frag.tag));
      sent := sent + [Datagram(head, it.frag.body)];
      ClearPacketWrBufer(sndSeqs, it, head);
    }

    /** THPOOLSend for RTP_CMD_RES_REPOST. */
    method Repost(rtpseq: nat)
      requires Valid() && rtpseq < 0x1_0000
      modifies this, sendcache
      ensures Valid() && Abs() == Resend(SEQMAX, old(Abs()), rtpseq)
    {
      var difftmp := Sub(SEQMAX, maxSeqs, rtpseq);
      if difftmp <= CACHELEN && difftmp >= 0 {
        var index := rtpseq % CACHELEN;
        if sendcache[index].Slot? {
          var slot := sendcache[index];
          var rhtmp := SetCmd(slot.sndhead, CMD_RES_REPOST);
          sendcache[index] := slot.(sndhead := rhtmp);
          sent := sent + [Datagram(rhtmp, slot.body)];
        }
      }
    }

    /** A pass of the inner loop of SendData: the next fragment of a node. */
    method SendFragment(bigData: seq<byte>, copiedLength: nat, framesize: int, sendsize: nat, h: Header, frame: nat)
      returns (shouldcopy: nat)
      requires Valid() && Proper(SEQMAX, Abs()) && copiedLength < |bigData|
      modifies this, sendcache
      ensures Valid() && Proper(SEQMAX, Abs()) && 0 < shouldcopy && copiedLength + shouldcopy <= |bigData|
      ensures SendFrags(SEQMAX, Abs(), frame, h,
                        NodeFragments(bigData[copiedLength + shouldcopy..], framesize, sendsize + shouldcopy))
           == SendFrags(SEQMAX, old(Abs()), frame, h, NodeFragments(bigData[copiedLength..], framesize, sendsize))
    {
      hide NodeFragments, SendFrags, SendOne, Tag, Abs;
      var restsize := |bigData| - copiedLength;
      shouldcopy := if MAXCOPY < restsize then MAXCOPY else restsize;
      var tail := Tag(framesize, sendsize, shouldcopy);
      var frag := Fragment(tail, bigData[copiedLength..copiedLength + shouldcopy]);
      NodeSend(SEQMAX, Abs(), bigData, copiedLength, framesize, sendsize, shouldcopy, frame, h);
      Post(Item(frame, frag, h));
    }

    lemma ProperNow()
      requires Valid()
      ensures Proper(SEQMAX, Abs())
    {
    }

    /** The inner loop of SendData. */
    method SendNode(bigData: seq<byte>, framesize: int, sendsize: nat, h: Header, frame: nat)
      requires Valid()
      modifies this, sendcache
      ensures Valid()
      ensures Abs() == SendFrags(SEQMAX, old(Abs()), frame, h, NodeFragments(bigData, framesize, sendsize))
    {
      hide NodeFragments, SendFrags, Valid, Abs, Proper;
      ProperNow();
      var copiedLength := 0;
      ghost var goal := SendFrags(SEQMAX, Abs(), frame, h, NodeFragments(bigData, framesize, sendsize));
      assert bigData[0..] == bigData;
      while copiedLength < |bigData|
        invariant 0 <= copiedLength <= |bigData|
        invariant Valid() && Proper(SEQMAX, Abs())
        invariant SendFrags(SEQMAX, Abs(), frame, h,
                            NodeFragments(bigData[copiedLength..], framesize, sendsize + copiedLength)) == goal
      {
        var shouldcopy := SendFragment(bigData, copiedLength, framesize, sendsize + copiedLength, h, frame);
        copiedLength := copiedLength + shouldcopy;
      }
      NoNodeFragments(bigData, framesize, sendsize + copiedLength);
      SendFragsNone(SEQMAX, Abs(), frame, h);
    }

    /** Sends the frame held by the chain `hct`, whose recorded size is `size`, right or wrong. */
    method SendData(hct: seq<FrameBuf>, size: int, pts: nat, pltype: int, isfirst: bool, ssrc: nat, comptype: int,
                    frame: nat, ghost bodies: seq<seq<byte>>)
      requires Valid() && Holds(hct, bodies)
      modifies this, sendcache
      ensures Valid()
      ensures var h := FrameHeader(isfirst, comptype, CMD_POST, pltype, pts % 0x1_0000, ssrc);
              Abs() == SendFrags(SEQMAX, old(Abs()), frame, h, Fragments(bodies, size - HEADSIZE, 0))
    {
      hide NodeFragments, Fragments, SendFrags, FrameBuf.Body, FrameBuf.Fits, Valid, Abs, Proper, FrameHeader;
      var h := FrameHeader(isfirst, comptype, CMD_POST, pltype, pts % 0x1_0000, ssrc);
      ProperNow();
      var framesize := size - HEADSIZE;
      var sendsize := 0;
      var i := 0;
      ghost var goal := SendFrags(SEQMAX, Abs(), frame, h, Fragments(bodies, framesize, 0));
      assert bodies[0..] == bodies;
      while i < |hct|
        invariant i <= |hct| && 0 <= sendsize
        invariant Valid() && Proper(SEQMAX, Abs())
        invariant SendFrags(SEQMAX, Abs(), frame, h, Fragments(bodies[i..], framesize, sendsize)) == goal
      {
        sendsize := SendRest(hct, i, framesize, sendsize, h, frame, bodies);
        i := i + 1;
      }
      NoFragments(bodies, framesize, sendsize);
      SendFragsNone(SEQMAX, Abs(), frame, h);
    }

    /** A pass of the outer loop of SendData: the next node of the chain. */
    method SendRest(hct: seq<FrameBuf>, i: nat, framesize: int, sendsize: nat, h: Header, frame: nat,
                    ghost bodies: seq<seq<byte>>) returns (sent2: nat)
      requires Valid() && Proper(SEQMAX, Abs()) && i < |hct| && Holds(hct, bodies)
      modifies this, sendcache
      ensures Valid() && Proper(SEQMAX, Abs())
      ensures SendFrags(SEQMAX, Abs(), frame, h, Fragments(bodies[i + 1..], framesize, sent2))
           == SendFrags(SEQMAX, old(Abs()), frame, h, Fragments(bodies[i..], framesize, sendsize))
    {
      hide NodeFragments, Fragments, SendFrags, Abs, Valid, Proper, Holds, FrameBuf.Body, FrameBuf.Fits;
      ProperNow();
      HoldsAt(hct, bodies, i);
      var bigData := hct[i].Body();
      ChainSend(SEQMAX, Abs(), bodies, i, framesize, sendsize, frame, h);
      SendNode(bigData, framesize, sendsize, h, frame);
      ProperNow();
      sent2 := sendsize + |bigData|;
    }
  }

  lemma {:induction false} NoNodeFragments(data: seq<byte>, framesize: int, sendsize: nat)
    ensures NodeFragments(data[|data|..], framesize, sendsize) == []
  {
  }

  lemma {:induction false} NoFragments(bodies: seq<seq<byte>>, framesize: int, sendsize: nat)
    ensures Fragments(bodies[|bodies|..], framesize, sendsize) == []
  {
  }

  /** Sending the rest of a node: its next fragment, then the rest behind that. */
  lemma {:induction false} NodeSend(m: nat, s: Sender, data: seq<byte>, from: nat, framesize: int, sendsize: nat,
                                    k: nat, frame: nat, h: Header)
    requires 0 < m && Proper(m, s)
    requires from < |data| && k == if MAXCOPY < |data| - from then MAXCOPY else |data| - from
    ensures SendFrags(m, s, frame, h, NodeFragments(data[from..], framesize, sendsize))
         == SendFrags(m, SendOne(m, s, Item(frame, Fragment(Tag(framesize, sendsize, k), data[from..from + k]), h)),
                      frame, h,
                      NodeFragments(data[from + k..], framesize, sendsize + k))
  {
    hide SendFrags, SendOne, NodeFragments, Tag, Proper;
    NodeStep(data, from, framesize, sendsize, k);
    SendFragsCons(m, s, frame, h, Fragment(Tag(framesize, sendsize, k), data[from..from + k]),
                  NodeFragments(data[from + k..], framesize, sendsize + k));
  }

  /** Sending the rest of a chain: its next node, then the rest behind that. */
  lemma {:induction false} ChainSend(m: nat, s: Sender, bodies: seq<seq<byte>>, i: nat, framesize: int, sendsize: nat,
                                     frame: nat, h: Header)
    requires 0 < m && Proper(m, s) && i < |bodies|
    ensures SendFrags(m, s, frame, h, Fragments(bodies[i..], framesize, sendsize))
         == SendFrags(m, SendFrags(m, s, frame, h, NodeFragments(bodies[i], framesize, sendsize)), frame, h,
                      Fragments(bodies[i + 1..], framesize, sendsize + |bodies[i]|))
  {
    hide SendFrags, NodeFragments, Fragments, Proper;
    ChainStep(bodies, i, framesize, sendsize);
    SendFragsConcat(m, s, frame, h, NodeFragments(bodies[i], framesize, sendsize),
                    Fragments(bodies[i + 1..], framesize, sendsize + |bodies[i]|));
  }

  lemma {:induction false} NodeStep(data: seq<byte>, from: nat, framesize: int, sendsize: nat, k: nat)
    requires from < |data| && k == if MAXCOPY < |data| - from then MAXCOPY else |data| - from
    ensures NodeFragments(data[from..], framesize, sendsize)
         == [Fragment(Tag(framesize, sendsize, k), data[from..from + k])]
             + NodeFragments(data[from + k..], framesize, sendsize + k)
  {
    assert data[from..][..k] == data[from..from + k] && data[from..][k..] == data[from + k..];
  }

  lemma {:induction false} ChainStep(bodies: seq<seq<byte>>, i: nat, framesize: int, sendsize: nat)
    requires i < |bodies|
    ensures Fragments(bodies[i..], framesize, sendsize)
         == NodeFragments(bodies[i], framesize, sendsize)
             + Fragments(bodies[i + 1..], framesize, sendsize + |bodies[i]|)
  {
    assert bodies[i..][1..] == bodies[i + 1..];
  }
}
