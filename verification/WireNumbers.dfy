/** What is on the wire: which number and which header fields every datagram carries, first sent or sent again. */
module WireNumbers {
  import opened Bytes
  import opened RtpPackets
  import opened SeqNums
  import opened Frames
  import opened Fragmenting
  import opened SendCaches
  import opened SendCacheLaws
  import opened SendStreams
  import opened SendRuns
  import opened RepostLaws

  /** Read with the getters, a datagram is fragment `it` under number `seqno` and command `cmd`. */
  predicate Bears(d: Datagram, it: Item, seqno: nat, cmd: nat)
  {
    && |d.head| == 10 && d.body == it.frag.body
    && PktSeq(d.head) == seqno && PktCmd(d.head) == cmd && PktFlag(d.head) == it.frag.tag
    && PktFirst(d.head) == it.h.first && PktComp(d.head) == it.h.comp && PktPayloadType(d.head) == it.h.payloadType
    && PktTimestamp(d.head) == it.h.timestamp && PktSsrc(d.head) == it.h.ssrc
  }

  /** An item whose header fields fit their bits. */
  predicate Sendable(it: Item)
  {
    InRange(it.h) && it.frag.tag < 4
  }

  lemma HeadBears(it: Item, seqno: nat, cmd: nat)
    requires Sendable(it) && seqno < 0x1_0000 && cmd < 8
    ensures var h := it.h.(seqno := seqno, tail := it.frag.tag, cmd := cmd);
            Bears(Datagram(Encode(h), it.frag.body), it, seqno, cmd)
  {
    hide Encode, PktSeq, PktCmd, PktFlag, PktFirst, PktComp, PktPayloadType, PktTimestamp, PktSsrc;
    HeaderRoundTrip(it.h.(seqno := seqno, tail := it.frag.tag, cmd := cmd));
  }

  /** The number of a fragment is one more than that of the one before. */
  lemma SendBears(m: nat, s: Sender, it: Item)
    requires 0 < m <= 0x1_0000 && Proper(m, s) && Sendable(it)
    ensures var t := SendOne(m, s, it);
            && |t.sent| == |s.sent| + 1 && s.sent <= t.sent && t.sndSeq == (s.sndSeq + 1) % m
            && Bears(t.sent[|s.sent|], it, (s.sndSeq + 1) % m, it.h.cmd)
  {
    hide Encode, Bears;
    HeadBears(it, (s.sndSeq + 1) % m, it.h.cmd);
    assert it.h.(seqno := (s.sndSeq + 1) % m, tail := it.frag.tag, cmd := it.h.cmd)
        == it.h.(seqno := (s.sndSeq + 1) % m, tail := it.frag.tag);
  }

  /** The datagrams of a run that carry a fragment for the first time, in the order in which they were sent. */
  function FirstSent(m: nat, len: nat, ops: seq<Op>): seq<Datagram>
    requires 0 < m && 0 < len
  {
    if ops == [] then []
    else
      var before, sent := ops[..|ops| - 1], Run(m, len, ops).sent;
      FirstSent(m, len, before) + if ops[|ops| - 1].Send? then sent[|Run(m, len, before).sent|..] else []
  }

  ghost predicate AllSendable(items: seq<Item>)
  {
    forall i :: 0 <= i < |items| ==> Sendable(items[i])
  }

  /** Over all runs, with re-sends in between: the n-th fragment goes out once, as the n-th of them, under number n
      modulo the modulus, with its payload, its tag and all fields of its frame's header. */
  lemma {:induction false} NumberedAlways(m: nat, len: nat, ops: seq<Op>)
    requires 2 <= m <= 0x1_0000 && 0 < len && AllSendable(Items(ops))
    ensures var ds, items := FirstSent(m, len, ops), Items(ops);
            |ds| == |items| && forall k :: 0 <= k < |ds| ==> Bears(ds[k], items[k], (k + 1) % m, items[k].h.cmd)
  {
    hide Bears, SendOne, Resend, Sendable;
    if ops != [] {
      var before, op := ops[..|ops| - 1], ops[|ops| - 1];
      assert forall i :: 0 <= i < |Items(before)| ==> Items(before)[i] == Items(ops)[i];
      NumberedAlways(m, len, before);
      if op.Send? {
        assert Items(ops)[|Items(before)|] == op.it;
        SendBears(m, Run(m, len, before), op.it);
        MaxSeqIs(m, len, before);
        NextMod(m, |Items(before)|);
      }
    }
  }

  /** Every datagram ever sent, first sent or sent again, is one of the fragments under the number it was assigned. */
  ghost predicate Genuine(m: nat, d: Datagram, items: seq<Item>)
    requires 0 < m
  {
    exists k :: 0 <= k < |items| && (Bears(d, items[k], (k + 1) % m, items[k].h.cmd)
                                     || Bears(d, items[k], (k + 1) % m, 2))
  }

  lemma {:induction false} GenuineAlways(m: nat, len: nat, ops: seq<Op>)
    requires 2 <= m <= 0x1_0000 && 0 < len && AllSendable(Items(ops))
    ensures forall d :: d in Run(m, len, ops).sent ==> Genuine(m, d, Items(ops))
  {
    hide Bears, SendOne, Resend, Sendable;
    if ops != [] {
      var before, op := ops[..|ops| - 1], ops[|ops| - 1];
      assert forall i :: 0 <= i < |Items(before)| ==> Items(before)[i] == Items(ops)[i];
      GenuineAlways(m, len, before);
      var s, items := Run(m, len, before), Items(before);
      forall d | d in Run(m, len, ops).sent ensures Genuine(m, d, Items(ops)) {
        if d in s.sent {
          assert Genuine(m, d, items);
        } else if op.Send? {
          assert Items(ops)[|items|] == op.it;
          SendBears(m, s, op.it);
          MaxSeqIs(m, len, before);
          NextMod(m, |items|);
        } else {
          ResendGenuine(m, len, before, op.q, d);
        }
      }
    }
  }

  lemma {:induction false} ResendGenuine(m: nat, len: nat, ops: seq<Op>, q: nat, d: Datagram)
    requires 2 <= m <= 0x1_0000 && 0 < len && AllSendable(Items(ops)) && q <= m
    requires d in Resend(m, Run(m, len, ops), q).sent && d !in Run(m, len, ops).sent
    ensures Genuine(m, d, Items(ops))
  {
    hide Bears, Resend, Run, Items, Tracks, Answer, Sendable, Passes;
    var s, items := Run(m, len, ops), Items(ops);
    TracksAlways(m, len, ops);
    if Passes(m, len, s.maxSeq, q) {
      RepostSends(m, s, items, q);
      var k := LastWriter(m, len, |items|, q % len);
      AnswerBears(items[k - 1], k % m);
    } else {
      RepostFails(m, s, q);
    }
  }

  lemma AnswerBears(it: Item, seqno: nat)
    requires Sendable(it) && seqno < 0x1_0000
    ensures Bears(Answer(it, seqno), it, seqno, CMD_RES_REPOST)
  {
    hide Bears, Encode;
    HeadBears(it, seqno, CMD_RES_REPOST);
  }

  // ---- Asking for what was seen ----

  /** The history in which `it` is sent after `before`, and `after` comes behind that. */
  function History(before: seq<Op>, it: Item, after: seq<Op>): seq<Op>
  {
    before + [Send(it)] + after
  }

  lemma {:induction false} HistoryItems(before: seq<Op>, it: Item, after: seq<Op>)
    ensures Items(History(before, it, after)) == Items(before) + [it] + Items(after)
  {
    ItemsConcat(before + [Send(it)], after);
    assert (before + [Send(it)])[..|before|] == before;
  }

  /** The datagram that is sent for it. */
  function Seen(m: nat, len: nat, before: seq<Op>, it: Item): (d: Datagram)
    requires 2 <= m <= 0x1_0000 && 0 < len
    ensures |d.head| == HEADSIZE
  {
    var s := Run(m, len, before);
    SentLast(m, s, it);
    SendOne(m, s, it).sent[|s.sent|]
  }

  lemma SentLast(m: nat, s: Sender, it: Item)
    requires 0 < m && Proper(m, s)
    ensures |SendOne(m, s, it).sent| == |s.sent| + 1
    ensures SendOne(m, s, it).sent[|s.sent|] == Datagram(HeadOf(it, Add(m, s.sndSeq, 1)), it.frag.body)
  {
  }

  /** The answer to a request for number q is datagram d again, with only the command changed. */
  predicate Repeats(m: nat, s: Sender, q: nat, d: Datagram)
    requires 0 < m && Proper(m, s) && q <= m && |d.head| == HEADSIZE
  {
    Resend(m, s, q).sent == s.sent + [Datagram(SetCmd(d.head, CMD_RES_REPOST), d.body)]
  }

  /** Whoever sees a datagram first sent, and asks for the number it bears when a further fragments have been sent, gets
      it again exactly under this condition: within a lap if a is below `len`, across a wrap if a is at most `len` and
      the slot has not been reached since the wrap. */
  lemma {:induction false} SeenExactly(m: nat, len: nat, before: seq<Op>, it: Item, after: seq<Op>)
    requires 0 < len && 2 * len <= m <= 0x1_0000 && |Items(after)| < m
    ensures var d, run := Seen(m, len, before, it), History(before, it, after);
            var n, a := |Items(before)| + 1 + |Items(after)|, |Items(after)|;
            var q := PktSeq(d.head);
            && q == (|Items(before)| + 1) % m
            && (Repeats(m, Run(m, len, run), q, d)
                <==> if a <= n % m then a < len else a <= len && q % len > n % m)
  {
    hide Run, Items, Resend, SetCmd, Passes, Answerable, HeadOf, Seen, Repeats, History;
    var run, n, a := History(before, it, after), |Items(before)| + 1 + |Items(after)|, |Items(after)|;
    var q := (|Items(before)| + 1) % m;
    HistoryItems(before, it, after);
    MaxSeqIs(m, len, run);
    SeenNumber(m, len, before, it);
    RepeatsExactly(m, len, run, n - a);
    SeenCondition(m, len, n, a);
  }

  lemma {:induction false} SeenNumber(m: nat, len: nat, before: seq<Op>, it: Item)
    requires 2 <= m <= 0x1_0000 && 0 < len
    ensures var d, q := Seen(m, len, before, it), (|Items(before)| + 1) % m;
            d == Datagram(HeadOf(it, q), it.frag.body) && PktSeq(d.head) == q
  {
    hide Run, Items, SendOne, HeadOf;
    MaxSeqIs(m, len, before);
    NextMod(m, |Items(before)|);
    SentLast(m, Run(m, len, before), it);
    HeadNumber(it, (|Items(before)| + 1) % m);
  }

  lemma HeadNumber(it: Item, q: nat)
    requires q < 0x1_0000
    ensures PktSeq(HeadOf(it, q)) == q
  {
    TwoBytes(it.h.(seqno := q, tail := it.frag.tag, timestamp := 0));
  }

  /** The same, said of the w-th fragment of a run and with the tests of the cache. */
  lemma {:induction false} RepeatsExactly(m: nat, len: nat, run: seq<Op>, w: nat)
    requires 0 < len && 2 * len <= m <= 0x1_0000 && 1 <= w <= |Items(run)| && |Items(run)| - w < m
    ensures var s, it, q := Run(m, len, run), Items(run)[w - 1], w % m;
            s.maxSeq == |Items(run)| % m
            && (Repeats(m, s, q, Datagram(HeadOf(it, q), it.frag.body))
                <==> Passes(m, len, s.maxSeq, q) && Answerable(m, len, s.maxSeq, |Items(run)| >= m, q))
  {
    hide Run, Items, Resend, SetCmd, Answerable, HeadOf, Tracks, LastWriter, Passes;
    var s, items, q := Run(m, len, run), Items(run), w % m;
    MaxSeqIs(m, len, run);
    SentHead(items[w - 1], q);
    if !Passes(m, len, s.maxSeq, q) {
      RepostFails(m, s, q);
    } else {
      TracksAlways(m, len, run);
      RepeatsPassing(m, len, s, items, w);
    }
  }

  lemma RepeatsPassing(m: nat, len: nat, s: Sender, items: seq<Item>, w: nat)
    requires 0 < len && 2 * len <= m <= 0x1_0000 && 1 <= w <= |items| && |items| - w < m
    requires Proper(m, s) && Tracks(m, s, items) && |s.slots| == len && s.maxSeq == |items| % m
    requires Passes(m, len, s.maxSeq, w % m)
    ensures Resend(m, s, w % m).sent == s.sent + [Answer(items[w - 1], w % m)]
       <==> Answerable(m, len, s.maxSeq, |items| >= m, w % m)
  {
    hide Resend, Answerable, Tracks, Answer, LastWriter, Passes;
    var n, q := |items|, w % m;
    RepostSends(m, s, items, q);
    PassesBehind(m, len, n, w);
    OwnsSlotExactly(m, len, n, q);
    IsLastWriter(m, len, n, w);
    var k := LastWriter(m, len, n, q % len);
    if k != w {
      OtherNumber(m, w, k);
      AnswersDiffer(m, items[w - 1], q, items[k - 1], k % m);
      OtherLast(s.sent, Answer(items[w - 1], q), Answer(items[k - 1], k % m));
    }
  }

  lemma PassesBehind(m: nat, len: nat, n: nat, w: nat)
    requires 0 < m && 1 <= w <= n && n - w < m && Passes(m, len, n % m, w % m)
    ensures 0 <= Sub(m, n % m, w % m) <= len && n - Sub(m, n % m, w % m) == w
  {
    Behind(m, n, w);
  }

  lemma OtherNumber(m: nat, w: nat, k: nat)
    requires 0 < m && w < k && k - w < m
    ensures w % m != k % m
  {
    BackMod(m, k, k - w);
  }

  lemma OtherLast(sent: seq<Datagram>, d: Datagram, e: Datagram)
    requires d != e
    ensures sent + [d] != sent + [e]
  {
    assert (sent + [d])[|sent|] == d;
    assert (sent + [e])[|sent|] == e;
  }

  /** How far behind the counter the number of a fragment sent less than a round ago is found to be. */
  lemma Behind(m: nat, n: nat, w: nat)
    requires 0 < m && w <= n && n - w < m
    ensures Sub(m, n % m, w % m) == if n - w <= m / 2 then n - w else -1
  {
    BackMod(m, n, n - w);
  }

  lemma SeenCondition(m: nat, len: nat, n: nat, a: nat)
    requires 0 < len && 2 * len <= m && a < n && a < m
    ensures var q := (n - a) % m;
            Passes(m, len, n % m, q) && Answerable(m, len, n % m, n >= m, q)
            <==> if a <= n % m then a < len else a <= len && q % len > n % m
  {
    Behind(m, n, n - a);
    BackMod(m, n, a);
    if n < m {
      SmallMod(m, n);
    }
  }

  // ---- One frame ----

  lemma AddAdd(m: nat, a: nat, i: nat)
    requires 0 < m
    ensures (Add(m, a, 1) + i) % m == (a + 1 + i) % m
  {
    assert a + 1 == m * ((a + 1) / m) + Add(m, a, 1);
    MultiplePlus(m, (a + 1) / m, Add(m, a, 1) + i);
  }

  lemma MultiplePlus(m: nat, q: nat, x: nat)
    requires 0 < m
    ensures (m * q + x) % m == x % m
  {
    var q2, r2 := x / m, x % m;
    MulAdd(m, q, q2);
    assert m * q + x == m * (q + q2) + r2;
    MultipleMod(m, q + q2, r2);
  }

  /** The i-th datagram of a frame has the i-th number behind those assigned before, and the header of its frame. */
  lemma {:induction false} FragsNumbered(m: nat, s: Sender, frame: nat, h: Header, frags: seq<Fragment>)
    requires 0 < m <= 0x1_0000 && Proper(m, s) && InRange(h) && forall f :: f in frags ==> f.tag < 4
    ensures var t := SendFrags(m, s, frame, h, frags);
            && |t.sent| == |s.sent| + |frags| && s.sent <= t.sent
            && forall i :: 0 <= i < |frags| ==>
                 Bears(t.sent[|s.sent| + i], Item(frame, frags[i], h), (s.sndSeq + 1 + i) % m, h.cmd)
    decreases |frags|
  {
    hide Bears, SendOne;
    if frags != [] {
      var it := Item(frame, frags[0], h);
      var s1 := SendOne(m, s, it);
      assert frags[0] in frags;
      SendBears(m, s, it);
      FragsNumbered(m, s1, frame, h, frags[1..]);
      forall i | 0 <= i < |frags|
        ensures Bears(SendFrags(m, s, frame, h, frags).sent[|s.sent| + i], Item(frame, frags[i], h),
                      (s.sndSeq + 1 + i) % m, h.cmd)
      {
        if i > 0 {
          AddAdd(m, s.sndSeq, i);
          assert frags[i] == frags[1..][i - 1];
        }
      }
    }
  }

  /** A datagram carries a fragment under a number, with the fields SendData was called with. */
  predicate Carries(d: Datagram, frag: Fragment, seqno: nat, isfirst: bool, comptype: int, pltype: int, pts: nat,
                    ssrc: nat)
  {
    && d.body == frag.body && |d.head| == 10 && PktFlag(d.head) == frag.tag
    && PktSeq(d.head) == seqno && PktCmd(d.head) == 1
    && PktFirst(d.head) == (if isfirst then 1 else 0) && PktComp(d.head) == comptype % 2
    && PktPayloadType(d.head) == pltype % 8 && PktTimestamp(d.head) == pts && PktSsrc(d.head) == ssrc
  }

  /** What SendData puts on the wire for a frame: its bytes in order, under consecutive numbers, with the fields it was
      called with. */
  lemma {:induction false} FrameOnWire(s: Sender, bodies: seq<seq<byte>>, framesize: int, frame: nat, isfirst: bool,
                                       comptype: int, pltype: int, pts: nat, ssrc: nat)
    requires Proper(SEQMAX, s) && pts < 0x1_0000 && ssrc < 0x1_0000_0000
    ensures var frags := Fragments(bodies, framesize, 0);
            var t := SendFrags(SEQMAX, s, frame, FrameHeader(isfirst, comptype, CMD_POST, pltype, pts, ssrc), frags);
            && |t.sent| == |s.sent| + |frags| && s.sent <= t.sent
            && forall i :: 0 <= i < |frags| ==>
                 Carries(t.sent[|s.sent| + i], frags[i], (s.sndSeq + 1 + i) % 65535,
                         isfirst, comptype, pltype, pts, ssrc)
  {
    hide Fragments, SendFrags, PktSeq, PktCmd, PktFlag, PktFirst, PktComp, PktPayloadType, PktTimestamp, PktSsrc;
    TwoBitTags(bodies, framesize, 0);
    var h, frags := FrameHeader(isfirst, comptype, CMD_POST, pltype, pts, ssrc), Fragments(bodies, framesize, 0);
    FragsNumbered(SEQMAX, s, frame, h, frags);
    forall i | 0 <= i < |frags|
      ensures Carries(SendFrags(SEQMAX, s, frame, h, frags).sent[|s.sent| + i], frags[i], (s.sndSeq + 1 + i) % 65535,
                      isfirst, comptype, pltype, pts, ssrc)
    {
    }
  }
}
