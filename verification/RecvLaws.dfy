/** Which of the packets fed to MergeData make up a frame: whole stretches of the input, and nothing out of sequence. */
module RecvLaws {
  import opened Bytes
  import opened RtpPackets
  import opened RecvStreams

  /** A start fragment that is too large by itself is thrown away, and nothing else happens. */
  predicate TooLarge(i: Input)
  {
    i.tag == 2 && HEADSIZE + |i.packet.body| > 2097152
  }

  /** The input without those. */
  function Considered(ins: seq<Input>): seq<Input>
  {
    if ins == [] then []
    else Considered(ins[..|ins| - 1]) + if TooLarge(ins[|ins| - 1]) then [] else [ins[|ins| - 1]]
  }

  predicate Middle(i: Input)
  {
    i.tag == 1 && i.inSeq
  }

  /** What a partial frame is made of: middle fragments in sequence, with a start fragment in front or without. */
  predicate Partial(c: seq<Input>)
  {
    c == [] || ((c[0].tag == 2 || Middle(c[0])) && forall k :: 0 < k < |c| ==> Middle(c[k]))
  }

  /** What a frame is made of: a lone packet, or a partial frame and an end fragment in sequence. */
  predicate Whole(c: seq<Input>)
  {
    c != [] && if c[|c| - 1].tag == 0 then |c| == 1
               else c[|c| - 1].tag == 3 && c[|c| - 1].inSeq && Partial(c[..|c| - 1])
  }

  /** A stretch of the input. */
  datatype Span = Span(from: nat, to: nat)

  /** `ws` are stretches of `ins`, one behind the other and none behind `end`. */
  predicate InOrder(ws: seq<Span>, end: nat)
  {
    && (forall k :: 0 <= k < |ws| ==> ws[k].from < ws[k].to <= end)
    && forall k :: 0 <= k < |ws| - 1 ==> ws[k].to <= ws[k + 1].from
  }

  /** The frame is the packets of that stretch, which make up a frame. */
  predicate Made(f: Frame, ins: seq<Input>, w: Span)
    requires w.from < w.to <= |ins|
  {
    f.pieces == Packets(ins[w.from..w.to]) && Whole(ins[w.from..w.to])
  }

  lemma {:induction false} PacketsSize(ins: seq<Input>)
    ensures |Packets(ins)| == |ins|
  {
    if ins != [] {
      PacketsSize(ins[..|ins| - 1]);
    }
  }

  lemma {:induction false} PacketsSnoc(ins: seq<Input>, i: Input)
    ensures Packets(ins + [i]) == Packets(ins) + [i.packet]
  {
    assert (ins + [i])[..|ins|] == ins;
  }

  /** The partial frame is the packets of the end of the input, which make up a partial frame. */
  ghost predicate Pending(chain: seq<Packet>, ins: seq<Input>)
  {
    && |chain| <= |ins|
    && chain == Packets(ins[|ins| - |chain|..]) && Partial(ins[|ins| - |chain|..])
  }

  /** Whatever arrives, the frames delivered are stretches of the input in the order of the input, none of them with a
      fragment out of sequence, and so is the partial frame, at its end. */
  lemma {:induction false} StretchesAlways(ins: seq<Input>) returns (ws: seq<Span>)
    ensures var e, r := Considered(ins), Feed(Fresh, ins);
            && Pending(r.chain, e) && |ws| == |r.delivered| && InOrder(ws, |e| - |r.chain|)
            && forall k :: 0 <= k < |ws| ==> Made(r.delivered[k], e, ws[k])
  {
    hide Merge, Pending, Made, Partial;
    ws := [];
    if ins == [] {
      PendingNone();
    } else {
      var before, i := ins[..|ins| - 1], ins[|ins| - 1];
      ws := StretchesAlways(before);
      var e, r := Considered(before), Feed(Fresh, before);
      ws := StretchesStep(e, r, i, ws);
    }
  }

  lemma PendingNone()
    ensures Pending([], [])
  {
  }

  lemma PendingStart(e: seq<Input>, i: Input)
    requires i.tag == 2
    ensures Pending([i.packet], e + [i])
  {
    assert (e + [i])[|e|..] == [i];
    assert [i][..0] == [];
  }

  lemma PendingMore(chain: seq<Packet>, e: seq<Input>, i: Input)
    requires Pending(chain, e) && Middle(i)
    ensures Pending(chain + [i.packet], e + [i])
  {
    var c := e[|e| - |chain|..];
    assert (e + [i])[|e| - |chain|..] == c + [i];
    PacketsSnoc(c, i);
  }

  lemma MadeLone(f: Frame, e: seq<Input>, i: Input)
    requires i.tag == 0 && f.pieces == [i.packet]
    ensures Made(f, e + [i], Span(|e|, |e| + 1))
  {
    assert (e + [i])[|e|..|e| + 1] == [i];
    assert [i][..0] == [];
  }

  lemma MadeWhole(f: Frame, chain: seq<Packet>, e: seq<Input>, i: Input)
    requires Pending(chain, e) && i.tag == 3 && i.inSeq && f.pieces == chain + [i.packet]
    ensures Made(f, e + [i], Span(|e| - |chain|, |e| + 1))
  {
    var c := e[|e| - |chain|..];
    assert (e + [i])[|e| - |chain|..|e| + 1] == c + [i];
    PacketsSnoc(c, i);
    assert (c + [i])[..|c|] == c;
  }

  lemma MadeStays(f: Frame, e: seq<Input>, i: Input, w: Span)
    requires w.from < w.to <= |e| && Made(f, e, w)
    ensures Made(f, e + [i], w)
  {
    assert (e + [i])[w.from..w.to] == e[w.from..w.to];
  }

  /** One packet more. */
  lemma StretchesStep(e: seq<Input>, r: Receiver, i: Input, ws: seq<Span>) returns (vs: seq<Span>)
    requires Pending(r.chain, e) && |ws| == |r.delivered| && InOrder(ws, |e| - |r.chain|)
    requires forall k :: 0 <= k < |ws| ==> Made(r.delivered[k], e, ws[k])
    ensures var t, e1 := Merge(r, i.packet, i.tag, i.inSeq), e + if TooLarge(i) then [] else [i];
            && Pending(t.chain, e1) && |vs| == |t.delivered| && InOrder(vs, |e1| - |t.chain|)
            && forall k :: 0 <= k < |vs| ==> Made(t.delivered[k], e1, vs[k])
  {
    hide Partial, Whole, Packets, Made;
    vs := ws;
    var t := Merge(r, i.packet, i.tag, i.inSeq);
    if TooLarge(i) {
      assert e + [] == e;
    } else {
      assert forall k :: 0 <= k < |ws| ==> Made(r.delivered[k], e + [i], ws[k]) by {
        AllStay(e, r.delivered, i, ws);
      }
      if |t.delivered| > |r.delivered| {
        if i.tag == 0 {
          MadeLone(t.delivered[|ws|], e, i);
          vs := ws + [Span(|e|, |e| + 1)];
        } else {
          MadeWhole(t.delivered[|ws|], r.chain, e, i);
          vs := ws + [Span(|e| - |r.chain|, |e| + 1)];
        }
        PendingNothing(e + [i]);
      } else {
        ChainStep(e, r, i);
      }
    }
  }

  lemma AllStay(e: seq<Input>, fs: seq<Frame>, i: Input, ws: seq<Span>)
    requires |ws| == |fs| && InOrder(ws, |e|) && forall k :: 0 <= k < |ws| ==> Made(fs[k], e, ws[k])
    ensures forall k :: 0 <= k < |ws| ==> Made(fs[k], e + [i], ws[k])
  {
    hide Made;
    forall k | 0 <= k < |ws| ensures Made(fs[k], e + [i], ws[k]) {
      MadeStays(fs[k], e, i, ws[k]);
    }
  }

  lemma PendingNothing(e: seq<Input>)
    ensures Pending([], e)
  {
  }

  lemma ChainStep(e: seq<Input>, r: Receiver, i: Input)
    requires Pending(r.chain, e) && !TooLarge(i)
    ensures var t := Merge(r, i.packet, i.tag, i.inSeq);
            |t.chain| <= 1 + |r.chain| && Pending(t.chain, e + [i])
            && (|t.chain| == 1 + |r.chain| || |t.chain| <= 1)
  {
    hide Pending;
    PendingNothing(e + [i]);
    if i.tag == 2 {
      PendingStart(e, i);
    } else if Middle(i) {
      PendingMore(r.chain, e, i);
    }
  }

  // ---- What is thrown away ----

  /** After a middle or end fragment out of sequence, or a tag that is none, nothing is left of the partial frame, and
      all of it has been freed, the packet last; no frame is delivered. */
  lemma {:induction false} OutOfSequence(ins: seq<Input>, i: Input)
    requires i.tag != 0 && i.tag != 2 && !(i.inSeq && (i.tag == 1 || i.tag == 3))
    ensures var r, t := Feed(Fresh, ins), Feed(Fresh, ins + [i]);
            t.chain == [] && t.delivered == r.delivered && t.freed == r.freed + r.chain + [i.packet]
  {
    hide Feed, Merge, Pending, Held, Pieces, Considered, Packets, Partial;
    var r, t := Feed(Fresh, ins), Feed(Fresh, ins + [i]);
    FeedSnoc(Fresh, ins, i);
    NothingPending(ins, i);
    Dropped(r, i);
  }

  lemma {:induction false} NothingPending(ins: seq<Input>, i: Input)
    requires i.tag != 0 && i.tag != 2 && !(i.inSeq && (i.tag == 1 || i.tag == 3))
    ensures Feed(Fresh, ins + [i]).chain == []
  {
    hide Feed, InOrder, Made, Packets, Partial;
    var e, n := Considered(ins + [i]), |Feed(Fresh, ins + [i]).chain|;
    var _ := StretchesAlways(ins + [i]);
    assert e[|e| - 1] == i by {
      assert (ins + [i])[..|ins|] == ins;
    }
    if n > 0 {
      assert e[|e| - n..][n - 1] == i;
      PartialEnd(e[|e| - n..]);
    }
  }

  lemma PartialEnd(c: seq<Input>)
    requires c != [] && Partial(c)
    ensures c[|c| - 1].tag == 2 || Middle(c[|c| - 1])
  {
  }

  lemma Dropped(r: Receiver, i: Input)
    requires i.tag != 0 && i.tag != 2 && !(i.inSeq && (i.tag == 1 || i.tag == 3))
    ensures var t := Merge(r, i.packet, i.tag, i.inSeq);
            t.delivered == r.delivered && t.freed == r.freed + r.chain + [i.packet]
  {
  }

  /** A fragment that would make a frame larger than the limit is freed behind the partial frame, and neither is
      delivered. */
  lemma Overflow(r: Receiver, i: Input)
    requires (i.tag == 1 || i.tag == 3) && r.offset + |i.packet.body| > 2097152
    ensures var t := Merge(r, i.packet, i.tag, i.inSeq);
            t.chain == [] && t.offset == 0 && t.delivered == r.delivered && t.freed == r.freed + r.chain + [i.packet]
  {
  }

  lemma CollectsNone()
    ensures BodyBytes(Packets([])) == [] && Packets([]) == []
  {
  }

  lemma CollectsOne(r: Receiver, i: Input)
    requires TooLarge(i) || (Middle(i) && r.offset + |i.packet.body| <= 2097152)
    ensures var t := Merge(r, i.packet, i.tag, i.inSeq);
            && t.delivered == r.delivered && t.pts == r.pts
            && (TooLarge(i) ==> t == r.(freed := r.freed + [i.packet]))
            && (Middle(i) ==> t == r.(chain := r.chain + [i.packet], offset := r.offset + |i.packet.body|))
  {
  }

  /** From any state: middle fragments in sequence are collected as long as they fit, start fragments that are too large
      are passed over, and nothing is delivered meanwhile. */
  lemma {:induction false} Collects(r: Receiver, ins: seq<Input>)
    requires forall i :: i in ins ==> Middle(i) || TooLarge(i)
    requires r.offset + |BodyBytes(Packets(Considered(ins)))| <= 2097152
    ensures var t, c := Feed(r, ins), Considered(ins);
            && t.chain == r.chain + Packets(c) && t.offset == r.offset + |BodyBytes(Packets(c))|
            && t.delivered == r.delivered && t.pts == r.pts
            && |t.freed| + |c| == |r.freed| + |ins|
  {
    hide Merge, BodyBytes, Packets;
    if ins == [] {
      CollectsNone();
    } else {
      var before, i := ins[..|ins| - 1], ins[|ins| - 1];
      assert i in ins;
      PacketsSnoc(Considered(before), i);
      BodyBytesSnoc(Packets(Considered(before)), i.packet);
      assert Considered(before) + [] == Considered(before);
      Collects(r, before);
      CollectsOne(Feed(r, before), i);
    }
  }

  /** And an end fragment in sequence that fits delivers all that was collected, whole and once. */
  lemma {:induction false} CollectsWhole(r: Receiver, ins: seq<Input>, last: Input)
    requires forall i :: i in ins ==> Middle(i) || TooLarge(i)
    requires last.tag == 3 && last.inSeq
    requires r.offset + |BodyBytes(Packets(Considered(ins)))| + |last.packet.body| <= 2097152
    ensures var t, ps := Feed(r, ins + [last]), r.chain + Packets(Considered(ins)) + [last.packet];
            && t.delivered == r.delivered + [Frame(ps, r.offset + |BodyBytes(Packets(Considered(ins)))|
                                                       + |last.packet.body|, r.pts)]
            && t.chain == [] && t.offset == 0
  {
    hide Feed, BodyBytes, Considered, Packets;
    Collects(r, ins);
    FeedSnoc(r, ins, last);
  }
}
