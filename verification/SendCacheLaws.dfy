/** What the retransmission cache promises over whole runs: which requests it answers right, and when a frame is
    released while the cache still points into it. */
module SendCacheLaws {
  import opened Bytes
  import opened RtpPackets
  import opened SeqNums
  import opened Fragmenting
  import opened SendCaches

  lemma ModShift(len: nat, q: nat, t: nat)
    requires 0 < len && t <= len
    ensures (q + t) % len == q % len <==> t == 0 || t == len
  {
    var a, r := q / len, q % len;
    assert q == len * a + r;
    if r + t < len {
      MultipleMod(len, a, r + t);
    } else if r + t < 2 * len {
      assert len * (a + 1) == len * a + len;
      MultipleMod(len, a + 1, r + t - len);
    } else {
      assert false;
    }
  }

  /** The highest number follows the count of fragments. */
  lemma {:induction false} MaxSeqIs(m: nat, len: nat, ops: seq<Op>)
    requires 2 <= m && 0 < len
    ensures Run(m, len, ops).maxSeq == Run(m, len, ops).sndSeq == |Items(ops)| % m
  {
    hide Run, Items, LastWriter, SlotOf, SameButCmd;
    TracksAlways(m, len, ops);
  }

  /** What slot i holds, up to the cmd bits of the header. */
  lemma {:induction false} SlotHolds(m: nat, len: nat, ops: seq<Op>, i: nat)
    requires 2 <= m && 0 < len && i < len
    ensures var s, k := Run(m, len, ops), LastWriter(m, len, |Items(ops)|, i);
            if k == 0 then s.slots[i] == Empty else SameButCmd(s.slots[i], SlotOf(Items(ops)[k - 1], k % m))
  {
    hide Run, Items, LastWriter, SlotOf, SameButCmd;
    TracksAlways(m, len, ops);
  }

  /** A number is the last writer of its slot unless a later one falls into the same slot. */
  lemma {:induction false} IsLastWriter(m: nat, len: nat, n: nat, w: nat)
    requires 0 < m && 0 < len && 1 <= w <= n
    ensures LastWriter(m, len, n, w % m % len) >= w
    ensures (forall j :: w < j <= n ==> j % m % len != w % m % len) ==> LastWriter(m, len, n, w % m % len) == w
  {
  }

  /** A request passes the distance test of THPOOLSend. */
  predicate Passes(m: nat, len: nat, maxSeq: nat, q: nat)
    requires maxSeq < m && q <= m
  {
    0 <= Sub(m, maxSeq, q) <= len
  }

  /** The requests the cache can answer. Within one lap these are the last `len` numbers, across a wrap those whose slot
      the numbers sent since the wrap have not reached. A number ahead of the counter before the first wrap was never
      sent; its slot must still be empty, so that there is no answer. */
  predicate Answerable(m: nat, len: nat, maxSeq: nat, wrapped: bool, q: nat)
    requires 0 < len && maxSeq < m && q <= m
  {
    if q <= maxSeq then maxSeq - q < len
    else if wrapped then q < m && q % len > maxSeq
    else q % len > maxSeq || (q % len == 0 && maxSeq < len)
  }

  /** Of the fragments sent last, the one numbered q still owns its slot exactly when the request is answerable. */
  lemma {:induction false} OwnsSlotExactly(m: nat, len: nat, n: nat, q: nat)
    requires 0 < len && 2 * len <= m && q < m
    requires 0 <= Sub(m, n % m, q) <= len && Sub(m, n % m, q) < n
    ensures var w := n - Sub(m, n % m, q);
            w % m == q && (LastWriter(m, len, n, q % len) == w <==> Answerable(m, len, n % m, n >= m, q))
  {
    var d, maxSeq := Sub(m, n % m, q), n % m;
    var w := n - d;
    BackMod(m, n, d);
    assert w % m == q;
    if n < m {
      SmallMod(m, n);
    }
    if q <= maxSeq {
      LapOwns(m, len, n, q);
    } else {
      WrapOwns(m, len, n, q);
    }
  }

  lemma {:induction false} LapOwns(m: nat, len: nat, n: nat, q: nat)
    requires 0 < len && 2 * len <= m && q <= n % m
    requires n % m - q <= len && n % m - q < n && (n - (n % m - q)) % m == q
    ensures LastWriter(m, len, n, q % len) == n - (n % m - q) <==> n % m - q < len
  {
    var d := n % m - q;
    var w := n - d;
    IsLastWriter(m, len, n, w);
    forall j | w < j <= n
      ensures j % m % len == q % len <==> j - w == len
    {
      LapSlot(m, len, n, q, j);
    }
    assert w % m % len == q % len;
    if d == len {
      assert n % m % len == q % len;
    }
  }

  lemma LapSlot(m: nat, len: nat, n: nat, q: nat, j: nat)
    requires 0 < len && 2 * len <= m && q <= n % m
    requires n % m - q <= len && n % m - q < n && n - (n % m - q) < j <= n
    ensures j % m % len == q % len <==> j - (n - (n % m - q)) == len
  {
    BackMod(m, n, n - j);
    ModShift(len, q, j - (n - (n % m - q)));
  }

  lemma {:induction false} WrapOwns(m: nat, len: nat, n: nat, q: nat)
    requires 0 < len && 2 * len <= m && q < m && n % m < q
    requires 0 <= Sub(m, n % m, q) <= len && Sub(m, n % m, q) < n
    requires (n - Sub(m, n % m, q)) % m == q
    ensures LastWriter(m, len, n, q % len) == n - Sub(m, n % m, q) <==> q % len > n % m
  {
    var d, maxSeq := Sub(m, n % m, q), n % m;
    var w := n - d;
    IsLastWriter(m, len, n, w);
    forall j | w < j <= n
      ensures j % m % len == q % len <==> n - j <= maxSeq && maxSeq - (n - j) == q % len
    {
      BackMod(m, n, n - j);
      if n - j <= maxSeq {
        SmallMod(len, maxSeq - (n - j));
      } else {
        ModShift(len, q, j - w);
      }
    }
    if q % len <= maxSeq {
      var j := n - (maxSeq - q % len);
      assert w < j <= n;
      assert j % m % len == q % len;
    }
  }

  // ---- Release of frames ----

  /** Once a fragment tagged as last is sent, no more fragments of its frame follow. */
  ghost predicate WellGrouped(items: seq<Item>)
  {
    forall j, k :: 0 <= j < k < |items| && items[j].frame == items[k].frame ==> !IsLast(items[j].frag)
  }

  /** Fragment k was the last of frame f, and its slot has been taken since. */
  ghost predicate Retired(m: nat, len: nat, items: seq<Item>, k: nat, f: nat)
    requires 0 < m && 0 < len
  {
    && 1 <= k <= |items| && items[k - 1].frame == f && IsLast(items[k - 1].frag)
    && LastWriter(m, len, |items|, k % m % len) > k
  }

  lemma RetiredStays(m: nat, len: nat, items: seq<Item>, it: Item, k: nat, f: nat)
    requires 0 < m && 0 < len && Retired(m, len, items, k, f)
    ensures Retired(m, len, items + [it], k, f)
  {
  }

  /** What the last operation of a run releases. */
  function LastRelease(m: nat, len: nat, ops: seq<Op>): seq<nat>
    requires 0 < m && 0 < len && ops != []
  {
    var s := Run(m, len, ops[..|ops| - 1]);
    if ops[|ops| - 1].Send? then Release(s.slots[Add(m, s.sndSeq, 1) % len]) else []
  }

  lemma {:induction false} ReleasedStep(m: nat, len: nat, ops: seq<Op>)
    requires 0 < m && 0 < len && ops != []
    ensures Run(m, len, ops).released == Run(m, len, ops[..|ops| - 1]).released + LastRelease(m, len, ops)
  {
  }

  /** Frames are released by the overwriting of their last fragment's slot, and in no other way. */
  lemma {:induction false} ReleasedAreRetired(m: nat, len: nat, ops: seq<Op>, f: nat)
    requires 2 <= m && 0 < len && f in Run(m, len, ops).released
    ensures exists k :: Retired(m, len, Items(ops), k, f)
  {
    assert ops != [];
    var before, op := ops[..|ops| - 1], ops[|ops| - 1];
    ReleasedStep(m, len, ops);
    hide Retired, Run;
    if f in Run(m, len, before).released {
      ReleasedAreRetired(m, len, before, f);
      var k :| Retired(m, len, Items(before), k, f);
      if op.Send? {
        RetiredStays(m, len, Items(before), op.it, k, f);
        assert Items(ops) == Items(before) + [op.it];
      } else {
        assert Items(ops) == Items(before);
      }
      assert Retired(m, len, Items(ops), k, f);
    } else {
      assert f in LastRelease(m, len, ops);
      var k := FreshlyRetired(m, len, before, op.it);
      assert Items(ops) == Items(before) + [op.it];
      assert Retired(m, len, Items(ops), k, f);
    }
  }

  /** The frame that sending `it` releases, if any, is retired by it. */
  lemma FreshlyRetired(m: nat, len: nat, before: seq<Op>, it: Item) returns (k: nat)
    requires 2 <= m && 0 < len
    requires var s := Run(m, len, before); Release(s.slots[Add(m, s.sndSeq, 1) % len]) != []
    ensures var s, items := Run(m, len, before), Items(before);
            var f := Release(s.slots[Add(m, s.sndSeq, 1) % len])[0];
            Retired(m, len, items + [it], k, f) && !Retired(m, len, items, k, f)
  {
    var s, items := Run(m, len, before), Items(before);
    TracksAlways(m, len, before);
    NextIsMax(m, |items|);
    k := LastWriter(m, len, |items|, (|items| + 1) % m % len);
  }

  /** The converse: when the slot of its last fragment has been taken, a frame has been released. */
  lemma {:induction false} RetiredAreReleased(m: nat, len: nat, ops: seq<Op>, k: nat, f: nat)
    requires 2 <= m && 0 < len && Retired(m, len, Items(ops), k, f)
    ensures f in Run(m, len, ops).released
  {
    var before, op := ops[..|ops| - 1], ops[|ops| - 1];
    var items := Items(before);
    ReleasedStep(m, len, ops);
    if op.Repost? || Retired(m, len, items, k, f) {
      RetiredAreReleased(m, len, before, k, f);
    } else {
      TakenReleases(m, len, before, op.it, k, f);
    }
  }

  /** Sending the fragment that takes the slot of a frame's last one releases the frame. */
  lemma {:induction false} TakenReleases(m: nat, len: nat, before: seq<Op>, it: Item, k: nat, f: nat)
    requires 2 <= m && 0 < len
    requires Retired(m, len, Items(before) + [it], k, f) && !Retired(m, len, Items(before), k, f)
    ensures var s := Run(m, len, before); Release(s.slots[Add(m, s.sndSeq, 1) % len]) == [f]
  {
    hide Run, Items;
    var s, items := Run(m, len, before), Items(before);
    MaxSeqIs(m, len, before);
    NextIsMax(m, |items|);
    IsLastWriter(m, len, |items|, k);
    SlotHolds(m, len, before, k % m % len);
    assert (items + [it])[k - 1] == items[k - 1];
  }

  /** No frame is released twice, whatever the modulus and the cache length. */
  lemma {:induction false} ReleasedOnce(m: nat, len: nat, ops: seq<Op>)
    requires 2 <= m && 0 < len && WellGrouped(Items(ops))
    ensures Distinct(Run(m, len, ops).released)
  {
    if ops != [] {
      var before, op := ops[..|ops| - 1], ops[|ops| - 1];
      var s, items := Run(m, len, before), Items(before);
      if op.Send? {
        assert forall i :: 0 <= i < |items| ==> items[i] == Items(ops)[i];
        ReleasedOnce(m, len, before);
        var gone := Release(s.slots[Add(m, s.sndSeq, 1) % len]);
        if gone != [] && gone[0] in s.released {
          var k := FreshlyRetired(m, len, before, op.it);
          ReleasedAreRetired(m, len, before, gone[0]);
          assert false;
        }
      } else {
        ReleasedOnce(m, len, before);
      }
    }
  }

  /** A cache slot points into a frame that has been released. */
  ghost predicate Dangling(s: Sender)
  {
    exists i :: 0 <= i < |s.slots| && s.slots[i].Slot? && s.slots[i].frame in s.released
  }

  lemma ModOfMod(m: nat, len: nat, j: nat)
    requires 0 < len && 0 < m && m % len == 0
    ensures j % m % len == j % len
  {
    var a, r, c := j / m, j % m, m / len;
    assert m == len * c && j == m * a + r;
    MulAssoc(len, c, a);
    var b, t := r / len, r % len;
    assert r == len * b + t;
    MulAdd(len, c * a, b);
    MultipleMod(len, c * a + b, t);
  }

  lemma MulAssoc(x: nat, y: nat, z: nat)
    ensures x * y * z == x * (y * z)
  {
  }

  lemma MulAdd(x: nat, y: nat, z: nat)
    ensures x * (y + z) == x * y + x * z
  {
  }

  /** Slots are taken in turn: always when the cache length divides the modulus, else until the first wrap. */
  lemma SlotsInTurn(m: nat, len: nat, j: nat)
    requires 0 < len && 0 < m && (m % len == 0 || j < m)
    ensures j % m % len == j % len
  {
    if j < m {
      SmallMod(m, j);
    } else {
      ModOfMod(m, len, j);
    }
  }

  /** While slots are taken in turn they are also given up in turn: not before those of older fragments. */
  lemma {:induction false} GivenUpInTurn(m: nat, len: nat, n: nat, k: nat, last: nat)
    requires 0 < m && 0 < len && (m % len == 0 || n < m)
    requires 1 <= k <= last <= n && LastWriter(m, len, n, last % m % len) > last
    ensures LastWriter(m, len, n, k % m % len) > k
  {
    var taker := LastWriter(m, len, n, last % m % len);
    SlotsInTurn(m, len, last);
    SlotsInTurn(m, len, taker);
    ModApart(len, last, taker);
    SlotsInTurn(m, len, k);
    SlotsInTurn(m, len, k + len);
    ModShift(len, k, len);
  }

  /** While slots are taken in turn, no slot points into a released frame. */
  lemma {:induction false} InTurnIsSafe(m: nat, len: nat, ops: seq<Op>)
    requires 2 <= m && 0 < len && WellGrouped(Items(ops))
    requires m % len == 0 || |Items(ops)| < m
    ensures !Dangling(Run(m, len, ops))
  {
    var s, items := Run(m, len, ops), Items(ops);
    TracksAlways(m, len, ops);
    forall i | 0 <= i < len && s.slots[i].Slot?
      ensures s.slots[i].frame !in s.released
    {
      var f, k := s.slots[i].frame, LastWriter(m, len, |items|, i);
      if f in s.released {
        ReleasedAreRetired(m, len, ops, f);
        var last :| Retired(m, len, items, last, f);
        assert items[k - 1].frame == f;
        GivenUpInTurn(m, len, |items|, k, last);
        assert false;
      }
    }
  }

  lemma ModApart(len: nat, a: nat, b: nat)
    requires 0 < len && a < b && a % len == b % len
    ensures b >= a + len
  {
    if b < a + len {
      ModShift(len, a, b - a);
    }
  }

  // ---- The run that leaves a slot dangling when the cache length does not divide the modulus ----

  /** The last multiple of `len` below `m`. */
  function LastMultiple(m: nat, len: nat): (c: nat)
    requires 0 < len <= m
    ensures c == len * (m / len) && len <= c <= m
  {
    assert m / len >= 1;
    assert len * (m / len) >= len;
    m - m % len
  }

  /** Fragment k of a run of frames of one fragment each, but for one frame, whose fragments are c - 1 and c. */
  function WrapItem(m: nat, len: nat, k: nat): Item
    requires 2 <= len <= m && 0 < k
  {
    var c := LastMultiple(m, len);
    Item(if k < c then k - 1 else k - 2,
         Fragment(if k + 1 == c then 2 else if k == c then 3 else 0, [0]),
         WRAPHEADER)
  }

  const WRAPHEADER := Header(0, 0, CMD_POST, 0, 0, 0, 0, 0)

  function WrapOps(m: nat, len: nat, n: nat): (ops: seq<Op>)
    requires 2 <= len <= m
    ensures |ops| == n
  {
    if n == 0 then [] else WrapOps(m, len, n - 1) + [Send(WrapItem(m, len, n))]
  }

  lemma {:induction false} WrapItems(m: nat, len: nat, n: nat)
    requires 2 <= len <= m
    ensures |Items(WrapOps(m, len, n))| == n
    ensures forall k :: 0 <= k < n ==> Items(WrapOps(m, len, n))[k] == WrapItem(m, len, k + 1)
  {
    if n > 0 {
      WrapItems(m, len, n - 1);
      assert WrapOps(m, len, n)[..n - 1] == WrapOps(m, len, n - 1);
    }
  }

  lemma {:induction false} MultipleIsLast(m: nat, len: nat)
    requires 2 <= len < m && m % len != 0
    ensures var c := LastMultiple(m, len);
            && c < m && LastWriter(m, len, m - 1, 0) == c && LastWriter(m, len, m, len - 1) == c - 1
  {
    var c := LastMultiple(m, len);
    var q := m / len;
    MultipleMod(len, q, 0);
    assert len * q == len * (q - 1) + len;
    MultipleMod(len, q - 1, len - 1);
    assert (c - 1) % len == len - 1;
    SmallMod(m, c);
    SmallMod(m, c - 1);
    SmallMod(m, m);
    IsLastWriter(m, len, m - 1, c);
    IsLastWriter(m, len, m, c - 1);
    forall j | c <= j < m
      ensures j % m % len == j - c < len - 1
    {
      SmallMod(m, j);
      MultipleMod(len, q, j - c);
    }
  }

  /** The frame of the two fragments is released when the first one still owns its slot. */
  lemma {:induction false} WrapReleases(m: nat, len: nat)
    requires 2 <= len < m && m % len != 0
    ensures var ops, c := WrapOps(m, len, m), LastMultiple(m, len);
            && WellGrouped(Items(ops)) && |Items(ops)| == m && Items(ops)[c - 2].frame == c - 2
            && LastWriter(m, len, m, len - 1) == c - 1 && c - 2 in Run(m, len, ops).released
  {
    hide Run, Items, LastWriter, LastMultiple;
    var c, ops, before := LastMultiple(m, len), WrapOps(m, len, m), WrapOps(m, len, m - 1);
    WrapItems(m, len, m);
    MultipleIsLast(m, len);
    WrapReleasesLast(m, len);
    ReleasedStep(m, len, ops);
    assert ops[..m - 1] == before;
    assert Items(ops)[c - 2] == WrapItem(m, len, c - 1);
    assert (Run(m, len, before).released + [c - 2])[|Run(m, len, before).released|] == c - 2;
    WrapGrouped(m, len);
  }

  lemma {:induction false} WrapGrouped(m: nat, len: nat)
    requires 2 <= len < m
    ensures WellGrouped(Items(WrapOps(m, len, m)))
  {
    hide Items, LastMultiple;
    WrapItems(m, len, m);
  }

  /** The m-th fragment, numbered 0, takes the slot of fragment c. */
  lemma {:induction false} WrapReleasesLast(m: nat, len: nat)
    requires 2 <= len < m && m % len != 0
    ensures LastRelease(m, len, WrapOps(m, len, m)) == [LastMultiple(m, len) - 2]
  {
    hide Run, Items, LastWriter, LastMultiple, Add, WrapItem;
    var c, ops, before := LastMultiple(m, len), WrapOps(m, len, m), WrapOps(m, len, m - 1);
    assert ops[..m - 1] == before && ops[m - 1].Send?;
    WrapItems(m, len, m - 1);
    MultipleIsLast(m, len);
    MaxSeqIs(m, len, before);
    ZeroIsNext(m, len);
    SlotHolds(m, len, before, 0);
    assert Items(before)[c - 1] == WrapItem(m, len, c);
    WrapItemLast(m, len);
  }

  lemma ZeroIsNext(m: nat, len: nat)
    requires 2 <= len < m
    ensures (m - 1) % m == m - 1 && Add(m, m - 1, 1) == 0 && 0 % len == 0
  {
    SmallMod(m, m);
    SmallMod(m, m - 1);
  }

  lemma WrapItemLast(m: nat, len: nat)
    requires 2 <= len < m
    ensures var it := WrapItem(m, len, LastMultiple(m, len)); it.frame == LastMultiple(m, len) - 2 && IsLast(it.frag)
  {
    hide LastMultiple;
  }

  lemma {:induction false} WrapDangles(m: nat, len: nat)
    requires 2 <= len < m && m % len != 0
    ensures WellGrouped(Items(WrapOps(m, len, m))) && Dangling(Run(m, len, WrapOps(m, len, m)))
  {
    hide Run, Items, LastWriter, LastMultiple, WrapOps;
    WrapReleases(m, len);
    SlotHolds(m, len, WrapOps(m, len, m), len - 1);
  }

  /** A history of whole frames, one behind the other, leaves no slot pointing into a released frame. */
  ghost predicate Safe(m: nat, len: nat, ops: seq<Op>)
    requires 0 < m && 0 < len
  {
    WellGrouped(Items(ops)) ==> !Dangling(Run(m, len, ops))
  }

  /** No slot ever points into a released frame, over all runs, exactly when the cache length divides the modulus. */
  lemma SafeExactly(m: nat, len: nat)
    requires 2 <= m && 1 <= len <= m
    ensures (forall ops :: Safe(m, len, ops)) <==> m % len == 0
  {
    SmallMod(m, m);
    if m % len == 0 {
      forall ops ensures Safe(m, len, ops) {
        if WellGrouped(Items(ops)) {
          InTurnIsSafe(m, len, ops);
        }
      }
    } else {
      WrapDangles(m, len);
      assert !Safe(m, len, WrapOps(m, len, m));
    }
  }

  /** With the program's 65535 numbers and 200 slots: safe until the first wrap, and not beyond it. */
  lemma ProgramSafety()
    ensures forall ops :: |Items(ops)| < SEQMAX ==> Safe(SEQMAX, CACHELEN, ops)
    ensures exists ops :: |Items(ops)| == SEQMAX && !Safe(SEQMAX, CACHELEN, ops)
  {
    forall ops | |Items(ops)| < SEQMAX ensures Safe(SEQMAX, CACHELEN, ops) {
      if WellGrouped(Items(ops)) {
        InTurnIsSafe(SEQMAX, CACHELEN, ops);
      }
    }
    WrapDangles(SEQMAX, CACHELEN);
    WrapItems(SEQMAX, CACHELEN, SEQMAX);
  }
}
