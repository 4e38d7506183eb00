/** Which re-send requests are answered right: with the fragment asked for, out of memory that has not been given back,
    and with nothing only if there never was such a fragment. */
module RepostLaws {
  import opened RtpPackets
  import opened SeqNums
  import opened Fragmenting
  import opened SendCaches
  import opened SendCacheLaws

  /** The last of the first n fragments to be numbered q; 0 if none was. */
  function LastNumbered(m: nat, n: nat, q: nat): (w: nat)
    requires 0 < m
    ensures w <= n && (w != 0 ==> w % m == q)
    ensures forall j :: w < j <= n ==> j % m != q
  {
    if n == 0 then 0 else if n % m == q then n else LastNumbered(m, n - 1, q)
  }

  /** Number q has been assigned in the course of n fragments. */
  predicate Assigned(m: nat, n: nat, q: nat)
  {
    q < m && (n >= m || 0 < q <= n)
  }

  lemma {:induction false} AssignedExactly(m: nat, n: nat, q: nat)
    requires 0 < m && q <= m
    ensures LastNumbered(m, n, q) > 0 <==> Assigned(m, n, q)
  {
    var w := LastNumbered(m, n, q);
    if n >= m && q < m {
      BackMod(m, n, if q <= n % m then n % m - q else n % m + m - q);
    } else {
      SmallMod(m, q);
      if w > 0 && n < m {
        SmallMod(m, w);
      }
    }
  }

  /** The answer is the last fragment numbered q, with its payload and its header but for the cmd bits, and the frame
      that holds the payload has not been released; if no fragment was numbered q, there is no answer. */
  ghost predicate AnsweredRight(m: nat, s: Sender, items: seq<Item>, q: nat)
    requires 0 < m && Proper(m, s) && q <= m
  {
    var t, w := Resend(m, s, q), LastNumbered(m, |items|, q);
    if w == 0 then t.sent == s.sent
    else t.sent == s.sent + [Answer(items[w - 1], q)] && items[w - 1].frame !in s.released
  }

  /** If the last fragment of frame f has been sent, its number is answerable too. */
  ghost predicate LastAnswerable(m: nat, len: nat, items: seq<Item>, f: nat)
    requires 0 < m && 0 < len
  {
    forall i :: 0 <= i < |items| && items[i].frame == f && IsLast(items[i].frag) ==>
      Answerable(m, len, |items| % m, |items| >= m, (i + 1) % m)
  }

  /** The datagram that answers a repost of item `it`. */
  function Answer(it: Item, seqno: nat): Datagram
  {
    Datagram(Encode(it.h.(seqno := seqno, tail := it.frag.tag, cmd := CMD_RES_REPOST)), it.frag.body)
  }

  lemma SentHead(it: Item, seqno: nat)
    requires seqno < 0x1_0000
    ensures SetCmd(HeadOf(it, seqno), CMD_RES_REPOST) == Answer(it, seqno).head
    ensures PktSeq(Answer(it, seqno).head) == seqno
  {
    SetCmdOnly(it.h.(seqno := seqno, tail := it.frag.tag), CMD_RES_REPOST);
    var h := it.h.(seqno := seqno, tail := it.frag.tag, cmd := CMD_RES_REPOST, timestamp := 0);
    TwoBytes(h);
  }

  /** A request that passes is answered out of its slot, whatever is there. */
  lemma {:induction false} RepostSends(m: nat, s: Sender, items: seq<Item>, q: nat)
    requires 0 < m <= 0x1_0000 && Proper(m, s) && Tracks(m, s, items) && q <= m && Passes(m, |s.slots|, s.maxSeq, q)
    ensures var k := LastWriter(m, |s.slots|, |items|, q % |s.slots|);
            if k == 0 then Resend(m, s, q).sent == s.sent
            else Resend(m, s, q).sent == s.sent + [Answer(items[k - 1], k % m)]
  {
    hide SetCmd, Answer, SlotOf, SameButCmd, LastWriter, Tracks, Resend, Passes;
    var i := q % |s.slots|;
    var k := LastWriter(m, |s.slots|, |items|, i);
    SlotIs(m, s, items, i);
    SlotSent(m, s, q);
    if k > 0 {
      SlotAnswers(s.slots[i], items[k - 1], k % m);
    }
  }

  lemma SlotSent(m: nat, s: Sender, q: nat)
    requires 0 < m && Proper(m, s) && q <= m && Passes(m, |s.slots|, s.maxSeq, q)
    ensures var slot := s.slots[q % |s.slots|];
            Resend(m, s, q).sent == if slot == Empty then s.sent
                                    else s.sent + [Datagram(SetCmd(slot.sndhead, CMD_RES_REPOST), slot.body)]
  {
    hide SetCmd;
  }

  lemma SlotAnswers(slot: Slot, it: Item, seqno: nat)
    requires seqno < 0x1_0000 && SameButCmd(slot, SlotOf(it, seqno))
    ensures slot.Slot? && Datagram(SetCmd(slot.sndhead, CMD_RES_REPOST), slot.body) == Answer(it, seqno)
  {
    hide SetCmd, HeadOf;
    SentHead(it, seqno);
  }

  lemma {:induction false} SlotIs(m: nat, s: Sender, items: seq<Item>, i: nat)
    requires 0 < m && Proper(m, s) && Tracks(m, s, items) && i < |s.slots|
    ensures var k := LastWriter(m, |s.slots|, |items|, i);
            if k == 0 then s.slots[i] == Empty else SameButCmd(s.slots[i], SlotOf(items[k - 1], k % m))
  {
    hide LastWriter, SameButCmd, SlotOf;
  }

  /** Answers with different numbers are different. */
  lemma AnswersDiffer(m: nat, x: Item, a: nat, y: Item, b: nat)
    requires a < m <= 0x1_0000 && b < m && a != b
    ensures Answer(x, a) != Answer(y, b)
  {
    SentHead(x, a);
    SentHead(y, b);
  }

  /** A slot has been taken once its own number, or for slot 0 the cache length, has been assigned. */
  lemma {:induction false} Taken(m: nat, len: nat, n: nat, i: nat)
    requires 0 < len < m && i < len
    ensures LastWriter(m, len, n, i) > 0 <==> n >= if i == 0 then len else i
  {
    var k, j := LastWriter(m, len, n, i), if i == 0 then len else i;
    assert j % m % len == i by {
      SmallMod(m, j);
      SmallMod(len, j);
    }
    if 0 < k && n < j {
      SmallMod(m, k);
      SmallMod(len, k);
    }
  }

  /** A request for a number that was never sent is harmless exactly when it is answerable: its slot is empty. */
  lemma {:induction false} NeverSent(m: nat, len: nat, n: nat, q: nat)
    requires 0 < len && 2 * len <= m && q <= m && Passes(m, len, n % m, q)
    requires q == m || Sub(m, n % m, q) >= n
    ensures LastWriter(m, len, n, q % len) == 0 <==> Answerable(m, len, n % m, n >= m, q)
  {
    hide LastWriter;
    Taken(m, len, n, q % len);
    Counted(m, len, n, q);
  }

  lemma Counted(m: nat, len: nat, n: nat, q: nat)
    requires 0 < len && 0 < m
    ensures n < m ==> n % m == n
    ensures q == 0 ==> q % len == 0
  {
    if n < m {
      SmallMod(m, n);
    }
  }

  /** And there is no fragment with that number. */
  lemma {:induction false} NeverNumbered(m: nat, len: nat, n: nat, q: nat)
    requires 0 < len && 2 * len <= m && q <= m && Passes(m, len, n % m, q)
    requires q == m || Sub(m, n % m, q) >= n
    ensures LastNumbered(m, n, q) == 0
  {
    var w := LastNumbered(m, n, q);
    if w > 0 && n < m {
      SmallMod(m, n);
      SmallMod(m, w);
    }
  }

  /** A number sent within the last `len` was sent that many fragments ago, and not since. */
  lemma {:induction false} SentAgo(m: nat, len: nat, n: nat, q: nat)
    requires 0 < len && 2 * len <= m && q < m && Passes(m, len, n % m, q) && Sub(m, n % m, q) < n
    ensures LastNumbered(m, n, q) == n - Sub(m, n % m, q)
  {
    var w := n - Sub(m, n % m, q);
    BackMod(m, n, n - w);
    forall j | w < j <= n ensures j % m != q {
      BackMod(m, n, n - j);
    }
  }

  /** Of a frame with a fragment that still owns its slot, numbered q and sent d ago, the memory has been given back
      exactly when the frame's last fragment is sent and its own number is not answerable. */
  lemma {:induction false} ReleasedExactly(m: nat, len: nat, ops: seq<Op>, w: nat)
    requires 0 < len && 2 * len <= m && WellGrouped(Items(ops))
    requires 1 <= w <= |Items(ops)| && |Items(ops)| - w <= len
    ensures Items(ops)[w - 1].frame !in Run(m, len, ops).released
       <==> LastAnswerable(m, len, Items(ops), Items(ops)[w - 1].frame)
  {
    var items := Items(ops);
    var n, f := |items|, items[w - 1].frame;
    hide Answerable, Run;
    if f in Run(m, len, ops).released {
      ReleasedAreRetired(m, len, ops, f);
      var last :| Retired(m, len, items, last, f);
      LastOwns(m, len, items, w, last);
      assert items[last - 1].frame == f;
    } else {
      forall i | 0 <= i < n && items[i].frame == f && IsLast(items[i].frag)
        ensures Answerable(m, len, n % m, n >= m, (i + 1) % m)
      {
        LastOwns(m, len, items, w, i + 1);
        if !Answerable(m, len, n % m, n >= m, (i + 1) % m) {
          RetiredAreReleased(m, len, ops, i + 1, f);
        }
      }
    }
  }

  lemma {:induction false} LastOwns(m: nat, len: nat, items: seq<Item>, w: nat, last: nat)
    requires 0 < len && 2 * len <= m && WellGrouped(items)
    requires 1 <= w <= |items| && |items| - w <= len
    requires 1 <= last <= |items| && items[last - 1].frame == items[w - 1].frame && IsLast(items[last - 1].frag)
    ensures LastWriter(m, len, |items|, last % m % len) > last
       <==> !Answerable(m, len, |items| % m, |items| >= m, last % m)
  {
    assert w <= last;
    var n := |items|;
    Ahead(m, n, last);
    hide WellGrouped, Answerable;
    OwnsSlotExactly(m, len, n, last % m);
    IsLastWriter(m, len, n, last);
  }

  /** How far the counter is ahead of a number assigned at most half a round ago. */
  lemma Ahead(m: nat, n: nat, w: nat)
    requires 0 < m && w <= n && n - w <= m / 2
    ensures Sub(m, n % m, w % m) == n - w
  {
    BackMod(m, n, n - w);
  }

  /** Over all histories and all 16-bit request numbers: the fragment asked for is sent again, out of a frame not
      released, if and only if the request passes the distance test, is answerable, and so is the number of its frame's
      last fragment, if that has been sent; and a number never assigned gets no answer if and only if it fails the test
      or is answerable. What fails the test changes nothing. */
  lemma {:induction false} RepostExactly(m: nat, len: nat, ops: seq<Op>, q: nat)
    requires 0 < len && 2 * len <= m <= 0x1_0000 && q <= m && WellGrouped(Items(ops))
    ensures var s, items := Run(m, len, ops), Items(ops);
            var w := LastNumbered(m, |items|, q);
            && (w > 0 <==> Assigned(m, |items|, q))
            && (AnsweredRight(m, s, items, q) <==>
                 if w > 0 then Passes(m, len, s.maxSeq, q) && Answerable(m, len, s.maxSeq, |items| >= m, q)
                               && LastAnswerable(m, len, items, items[w - 1].frame)
                 else Passes(m, len, s.maxSeq, q) ==> Answerable(m, len, s.maxSeq, |items| >= m, q))
            && (!Passes(m, len, s.maxSeq, q) ==> Resend(m, s, q) == s)
  {
    hide Run, Tracks, LastAnswerable, Answerable, Answer, WellGrouped, Passes, Items, Resend, LastNumbered, Assigned;
    var s, items := Run(m, len, ops), Items(ops);
    MaxSeqIs(m, len, ops);
    AssignedExactly(m, |items|, q);
    if !Passes(m, len, s.maxSeq, q) {
      RepostFails(m, s, q);
    } else if q == m || Sub(m, s.maxSeq, q) >= |items| {
      TracksAlways(m, len, ops);
      RepostSends(m, s, items, q);
      NeverSent(m, len, |items|, q);
      NeverNumbered(m, len, |items|, q);
    } else {
      RepostSent(m, len, ops, q);
    }
  }

  lemma RepostFails(m: nat, s: Sender, q: nat)
    requires 0 < m && Proper(m, s) && q <= m && !Passes(m, |s.slots|, s.maxSeq, q)
    ensures Resend(m, s, q) == s
  {
  }

  /** The request for a number sent within the last `len`. */
  lemma {:induction false} RepostSent(m: nat, len: nat, ops: seq<Op>, q: nat)
    requires 0 < len && 2 * len <= m <= 0x1_0000 && q < m && WellGrouped(Items(ops))
    requires var s := Run(m, len, ops); Passes(m, len, s.maxSeq, q) && Sub(m, s.maxSeq, q) < |Items(ops)|
    ensures var s, items := Run(m, len, ops), Items(ops);
            var w := LastNumbered(m, |items|, q);
            w > 0 && (AnsweredRight(m, s, items, q) <==>
              Answerable(m, len, s.maxSeq, |items| >= m, q) && LastAnswerable(m, len, items, items[w - 1].frame))
  {
    hide Run, Tracks, LastAnswerable, Answerable, Answer, WellGrouped, Items, Resend, LastWriter,
        LastNumbered, Proper, IsLast;
    var s, items := Run(m, len, ops), Items(ops);
    var n := |items|;
    TracksAlways(m, len, ops);
    MaxSeqIs(m, len, ops);
    SentAgo(m, len, n, q);
    OwnsSlotExactly(m, len, n, q);
    var w, k := n - Sub(m, s.maxSeq, q), LastWriter(m, len, n, q % len);
    IsLastWriter(m, len, n, w);
    RepostSends(m, s, items, q);
    ReleasedExactly(m, len, ops, w);
    WhichAnswer(m, s, items, q, w, k);
  }

  /** An answer is the right one if it comes from the fragment asked for. */
  lemma {:induction false} WhichAnswer(m: nat, s: Sender, items: seq<Item>, q: nat, w: nat, k: nat)
    requires 0 < m <= 0x1_0000 && Proper(m, s) && q < m && 1 <= w <= k <= |items| && w == LastNumbered(m, |items|, q)
    requires Resend(m, s, q).sent == s.sent + [Answer(items[k - 1], k % m)]
    ensures AnsweredRight(m, s, items, q) <==> k == w && items[w - 1].frame !in s.released
  {
    var sent := s.sent + [Answer(items[k - 1], k % m)];
    hide Resend, Answer;
    assert sent[|s.sent|] == Answer(items[k - 1], k % m);
    if k != w {
      AnswersDiffer(m, items[w - 1], q, items[k - 1], k % m);
      assert (s.sent + [Answer(items[w - 1], q)])[|s.sent|] == Answer(items[w - 1], q);
    }
  }

  /** What a receiver can rely on: of the last `len` numbers of the current lap, each that has been assigned is sent
      again, its frame not released; only 0 before the first wrap has not, and gets no answer. */
  lemma {:induction false} RecentIsResent(m: nat, len: nat, ops: seq<Op>, q: nat)
    requires 0 < len && 2 * len <= m <= 0x1_0000 && WellGrouped(Items(ops))
    requires var s := Run(m, len, ops); q <= s.maxSeq && s.maxSeq - q < len
    ensures var s, items := Run(m, len, ops), Items(ops);
            var w := LastNumbered(m, |items|, q);
            if q > 0 || |items| >= m then
              w > 0 && Resend(m, s, q).sent == s.sent + [Answer(items[w - 1], q)]
              && items[w - 1].frame !in s.released
            else w == 0 && Resend(m, s, q).sent == s.sent
  {
    hide Run, Items, LastNumbered, LastAnswerable, Resend, Answer, WellGrouped;
    var items := Items(ops);
    var n := |items|;
    MaxSeqIs(m, len, ops);
    RepostExactly(m, len, ops, q);
    var w := LastNumbered(m, n, q);
    Counted(m, len, n, q);
    if w > 0 {
      SentSince(m, len, n, q);
      assert LastAnswerable(m, len, items, items[w - 1].frame) by {
        RecentLast(m, len, items, w);
      }
    }
  }

  /** Whatever is sent after a fragment of the current lap that is less than `len` ago is answerable. */
  lemma RecentLast(m: nat, len: nat, items: seq<Item>, w: nat)
    requires 0 < len && 2 * len <= m && WellGrouped(items) && 1 <= w <= |items|
    requires |items| - w < len && |items| - w <= |items| % m
    ensures LastAnswerable(m, len, items, items[w - 1].frame)
  {
    var n := |items|;
    forall i | 0 <= i < n && items[i].frame == items[w - 1].frame && IsLast(items[i].frag)
      ensures Answerable(m, len, n % m, n >= m, (i + 1) % m)
    {
      assert i + 1 >= w;
      BackMod(m, n, n - (i + 1));
    }
  }

  lemma {:induction false} SentSince(m: nat, len: nat, n: nat, q: nat)
    requires 0 < len && 2 * len <= m && q <= n % m && n % m - q < len && LastNumbered(m, n, q) > 0
    ensures n - LastNumbered(m, n, q) == n % m - q
  {
    var w := LastNumbered(m, n, q);
    var d := n % m - q;
    if d < n {
      SentAgo(m, len, n, q);
    } else {
      SmallMod(m, n);
      SmallMod(m, w);
    }
  }

  /** A request that passes is answered with the very fragment asked for, but out of a frame that has been released. */
  ghost predicate FromReleased(m: nat, len: nat, ops: seq<Op>, q: nat)
    requires 0 < m && 0 < len
  {
    var s, items := Run(m, len, ops), Items(ops);
    && 0 < q < m && q <= |items| && WellGrouped(items) && LastNumbered(m, |items|, q) == q
    && Passes(m, len, s.maxSeq, q) && Resend(m, s, q).sent == s.sent + [Answer(items[q - 1], q)]
    && items[q - 1].frame in s.released
  }

  lemma {:induction false} FromReleasedIsWrong(m: nat, len: nat, ops: seq<Op>, q: nat)
    requires 0 < m <= 0x1_0000 && 0 < len && FromReleased(m, len, ops, q)
    ensures !AnsweredRight(m, Run(m, len, ops), Items(ops), q)
  {
    hide Run, Items, Resend, Answer;
    SmallMod(m, q);
    WhichAnswer(m, Run(m, len, ops), Items(ops), q, q, q);
  }

  /** Such a request exists after m fragments, whenever the cache length does not divide the modulus; the slot of the
      fragment asked for has not been taken, and its number is m % len + 1 behind. */
  lemma {:induction false} WrapRepost(m: nat, len: nat)
    requires 2 <= len && 2 * len <= m <= 0x1_0000 && m % len != 0
    ensures var q := LastMultiple(m, len) - 1;
            |Items(WrapOps(m, len, m))| == m && q < m && Sub(m, 0, q) == m % len + 1 && q % len > 0
            && FromReleased(m, len, WrapOps(m, len, m), q)
  {
    hide Run, Items, WrapOps, Answer, Tracks, WellGrouped, LastWriter, LastMultiple, LastNumbered, Resend;
    var ops, q := WrapOps(m, len, m), LastMultiple(m, len) - 1;
    WrapNumber(m, len);
    WrapReleases(m, len);
    TracksAlways(m, len, ops);
    MaxSeqIs(m, len, ops);
    LastAssigned(m, q);
    assert Sub(m, 0, q) == m % len + 1;
    RepostSends(m, Run(m, len, ops), Items(ops), q);
  }

  lemma WrapNumber(m: nat, len: nat)
    requires 2 <= len && 2 * len <= m && m % len != 0
    ensures var q := LastMultiple(m, len) - 1;
            m % m == 0 && 0 < q < m && q % m == q && q % len == len - 1 && q == m - m % len - 1
  {
    BeforeMultiple(len, m / len);
    SmallMod(m, m);
    SmallMod(m, LastMultiple(m, len) - 1);
  }

  lemma BeforeMultiple(len: nat, a: nat)
    requires 0 < len && 0 < a
    ensures len * a > 0 && (len * a - 1) % len == len - 1
  {
    assert len * a == len * (a - 1) + len;
    MultipleMod(len, a - 1, len - 1);
  }

  /** After exactly m fragments each number has been assigned once. */
  lemma {:induction false} LastAssigned(m: nat, q: nat)
    requires 0 < q < m
    ensures LastNumbered(m, m, q) == q
  {
    SmallMod(m, q);
    forall j | q < j <= m ensures j % m != q {
      SmallMod(m, j);
    }
  }

  /** With the program's numbers: after 65535 fragments, a request for number 65399, which is 136 behind. */
  lemma ProgramRepost()
    ensures exists ops :: |Items(ops)| == SEQMAX && FromReleased(SEQMAX, CACHELEN, ops, 65399)
  {
    WrapRepost(SEQMAX, CACHELEN);
  }

  /** And requests that pass although the number was never assigned: after 150 fragments those for 65485 and 65535,
      which get packets 85 and 135. */
  lemma {:induction false} ProgramUnsent(ops: seq<Op>, q: nat)
    requires WellGrouped(Items(ops)) && |Items(ops)| == 150 && (q == 65485 || q == 65535)
    ensures var s := Run(SEQMAX, CACHELEN, ops);
            Passes(SEQMAX, CACHELEN, s.maxSeq, q) && !AnsweredRight(SEQMAX, s, Items(ops), q)
  {
    TracksAlways(SEQMAX, CACHELEN, ops);
    RepostExactly(SEQMAX, CACHELEN, ops, q);
    hide Run, Items, AnsweredRight, Tracks;
  }

  /** And a request exactly `len` behind in the current lap, whose slot has just been taken. */
  lemma {:induction false} LapBehind(m: nat, len: nat, ops: seq<Op>)
    requires 0 < len && 2 * len <= m <= 0x1_0000 && WellGrouped(Items(ops)) && len <= Run(m, len, ops).maxSeq
    ensures var s := Run(m, len, ops);
            Passes(m, len, s.maxSeq, s.maxSeq - len) && !AnsweredRight(m, s, Items(ops), s.maxSeq - len)
  {
    RepostExactly(m, len, ops, Run(m, len, ops).maxSeq - len);
    hide Items, AnsweredRight;
  }
}
