/** The event channel of hg_channel.cpp as a protocol: writers, the semaphore, and the consumer's phases. */
module ChannelRuns {
  import opened Bytes

  const HEADLEN := 24      // sizeof(hgtEvent) on a 64-bit machine
  const RINGCAP := 4096    // HGCHANNELLENMAX

  /** The psize field of a message head: a little-endian 32-bit signed integer at offset 4. */
  function PSize(head: seq<byte>): int
    requires |head| == HEADLEN
  {
    var v: int := head[4] as int + 0x100 * (head[5] as int) + 0x1_0000 * (head[6] as int)
        + 0x100_0000 * (head[7] as int);
    if v < 0x8000_0000 then v else v - 0x1_0000_0000
  }

  /** Bytes 4 to 7 of a head, the low one first, are its body size in two's complement. */
  lemma PSizeBack(head: seq<byte>, u: nat)
    requires |head| == 24 && u < 0x1_0000_0000
    requires head[4] == u % 0x100 && head[5] == u / 0x100 % 0x100 && head[6] == u / 0x1_0000 % 0x100
    requires head[7] == u / 0x100_0000 % 0x100
    ensures PSize(head) == if u < 0x8000_0000 then u else u - 0x1_0000_0000
  {
    Quotients(u);
  }

  lemma Quotients(u: nat)
    requires u < 0x1_0000_0000
    ensures u == u % 0x100 + 0x100 * (u / 0x100 % 0x100) + 0x1_0000 * (u / 0x1_0000 % 0x100)
                 + 0x100_0000 * (u / 0x100_0000 % 0x100)
  {
    assert u / 0x100 / 0x100 == u / 0x1_0000 && u / 0x1_0000 / 0x100 == u / 0x100_0000;
  }

  /** A message is a head followed by exactly psize body bytes. */
  predicate WellFormed(m: seq<byte>)
  {
    HEADLEN <= |m| && PSize(m[..HEADLEN]) == |m| - HEADLEN
  }

  /** A message the consumer can always take: it has a body and fits the ring. */
  predicate Fits(m: seq<byte>)
  {
    WellFormed(m) && HEADLEN < |m| <= RINGCAP
  }

  /** The size of the message at the front of `b`, going by its head. */
  function FrontSize(b: seq<byte>): int
    requires HEADLEN <= |b|
  {
    HEADLEN + PSize(b[..HEADLEN])
  }

  /** Both reads of Handlemsg succeed: the ring is not empty after the head, and holds the body. */
  predicate Ready(b: seq<byte>)
  {
    HEADLEN < |b| && HEADLEN <= FrontSize(b) <= |b|
  }

  datatype Phase = Idle | Woken | Handling

  datatype State = State(
    ring: seq<byte>,             // tcpbuf
    chain: seq<byte>,            // the unread bytes of hct
    sem: nat,                    // eventSem
    posting: nat,                // writers that have unlocked but not posted
    phase: Phase,                // where the consumer is in Drive
    written: seq<seq<byte>>,     // every message written so far
    delivered: seq<seq<byte>>)   // every message handed to its handler so far

  /** Wake: a Drive that has waited for the semaphore; Poll: one that was told not to. */
  datatype Label = Append(m: seq<byte>) | Post | Wake | Poll | Drain | Deliver | Finish

  const Start := State([], [], 0, 0, Idle, [], [])

  predicate Enabled(s: State, l: Label)
  {
    match l
    case Append(m) => WellFormed(m)
    case Post => s.posting > 0
    case Wake => s.phase == Idle && s.sem > 0
    case Poll => s.phase == Idle
    case Drain => s.phase == Woken && |s.ring| <= RINGCAP
    case Deliver => s.phase == Handling && Ready(s.ring)
    case Finish => s.phase == Handling && !Ready(s.ring)
  }

  function Next(s: State, l: Label): State
    requires Enabled(s, l)
  {
    match l
    case Append(m) => s.(chain := s.chain + m, posting := s.posting + 1, written := s.written + [m])
    case Post => s.(posting := s.posting - 1, sem := s.sem + 1)
    case Wake => s.(phase := Woken, sem := s.sem - 1)
    case Poll => s.(phase := Woken)
    case Drain =>
      var k := Min(|s.chain|, RINGCAP - |s.ring|);
      s.(phase := Handling, ring := s.ring + s.chain[..k], chain := s.chain[k..])
    case Deliver =>
      var n := FrontSize(s.ring);
      s.(ring := s.ring[n..], delivered := s.delivered + [s.ring[..n]])
    case Finish => s.(phase := Idle)
  }

  /** The state a scheduler reaches that tries the steps of `run` in turn: a step that is not enabled does nothing. */
  function After(run: seq<Label>): State
  {
    if run == [] then Start
    else
      var s, l := After(run[..|run| - 1]), run[|run| - 1];
      if Enabled(s, l) then Next(s, l) else s
  }

  lemma {:induction false} Extend(run: seq<Label>, l: Label)
    requires Enabled(After(run), l)
    ensures After(run + [l]) == Next(After(run), l)
  {
    assert (run + [l])[..|run|] == run;
  }

  /** The messages written and not delivered. */
  function Pending(s: State): seq<seq<byte>>
    requires |s.delivered| <= |s.written|
  {
    s.written[|s.delivered|..]
  }

  ghost predicate AllWellFormed(ms: seq<seq<byte>>)
  {
    forall m :: m in ms ==> WellFormed(m)
  }

  /** Exactly-once, in-order delivery: what the channel holds is what is owed. */
  ghost predicate Fifo(s: State)
  {
    && AllWellFormed(s.written)
    && |s.delivered| <= |s.written| && s.delivered == s.written[..|s.delivered|]
    && s.ring + s.chain == Flatten(Pending(s))
    && |s.ring| <= RINGCAP
  }

  /** The front of a stream of well-formed messages is the first of them, whole or in part. */
  lemma {:induction false} FrontOfStream(ms: seq<seq<byte>>, ring: seq<byte>, rest: seq<byte>)
    requires AllWellFormed(ms) && ring + rest == Flatten(ms)
    ensures ms == [] ==> ring == [] && rest == []
    ensures ms != [] ==> WellFormed(ms[0]) && Flatten(ms) == ms[0] + Flatten(ms[1..])
    ensures HEADLEN <= |ring| ==> ms != [] && FrontSize(ring) == |ms[0]|
    ensures ms != [] && |ms[0]| <= |ring| ==>
              ring[..|ms[0]|] == ms[0] && ring[|ms[0]|..] + rest == Flatten(ms[1..])
  {
    if ms != [] {
      var m, tail := ms[0], Flatten(ms[1..]);
      assert m in ms;
      if HEADLEN <= |ring| {
        assert ring[..HEADLEN] == (ring + rest)[..HEADLEN] == (m + tail)[..HEADLEN] == m[..HEADLEN];
      }
      if |m| <= |ring| {
        assert ring[..|m|] == (ring + rest)[..|m|] == (m + tail)[..|m|] == m;
        assert ring[|m|..] + rest == (ring + rest)[|m|..] == (m + tail)[|m|..] == tail;
      }
    }
  }

  lemma FifoDeliver(s: State)
    requires Fifo(s) && Enabled(s, Deliver)
    ensures Fifo(Next(s, Deliver)) && Pending(s) != [] && Pending(Next(s, Deliver)) == Pending(s)[1..]
    ensures Next(s, Deliver).delivered == s.delivered + [Pending(s)[0]]
  {
    var t := Next(s, Deliver);
    var ms := Pending(s);
    forall m | m in ms ensures WellFormed(m) {
      assert m in s.written;
    }
    FrontOfStream(ms, s.ring, s.chain);
    assert t.delivered == s.written[..|s.delivered| + 1];
    assert Pending(t) == ms[1..];
  }

  lemma FifoStep(s: State, l: Label)
    requires Fifo(s) && Enabled(s, l)
    ensures Fifo(Next(s, l))
  {
    var t := Next(s, l);
    match l
    case Append(m) =>
      assert Pending(t) == Pending(s) + [m];
      FlattenSnoc(Pending(s), m);
      assert t.ring + t.chain == s.ring + s.chain + m;
    case Drain =>
      assert t.ring + t.chain == s.ring + s.chain;
    case Deliver =>
      FifoDeliver(s);
    case _ =>
  }

  /** In every run, delivered ++ pending is exactly what was written, and the channel's bytes are the pending
      messages. */
  lemma {:induction false} FifoAlways(run: seq<Label>)
    ensures Fifo(After(run))
  {
    if run != [] {
      var s, l := After(run[..|run| - 1]), run[|run| - 1];
      FifoAlways(run[..|run| - 1]);
      if Enabled(s, l) {
        FifoStep(s, l);
      }
    }
  }

  /** No wake-up is lost: every pending message is covered by the semaphore, by a writer about to post,
      or by the Drive under way, which then still has a message to deliver. */
  ghost predicate Covered(s: State)
    requires |s.delivered| <= |s.written|
  {
    |Pending(s)| <= s.sem + s.posting + if s.phase == Woken || (s.phase == Handling && Ready(s.ring)) then 1 else 0
  }

  /** How often the consumer has been let through by the semaphore. */
  function Wakes(run: seq<Label>): nat
  {
    if run == [] then 0
    else Wakes(run[..|run| - 1]) + if run[|run| - 1] == Wake && Enabled(After(run[..|run| - 1]), Wake) then 1 else 0
  }

  /** Nor is there a wake-up too many: each message written lets the consumer through once at most, and the count tells
      how many it still may. */
  lemma {:induction false} WakesAlways(run: seq<Label>)
    ensures var s := After(run); s.sem + s.posting + Wakes(run) == |s.written|
  {
    hide Enabled;
    if run != [] {
      var before, l := run[..|run| - 1], run[|run| - 1];
      WakesAlways(before);
      if Enabled(After(before), l) {
        CountStep(After(before), l);
      }
    }
  }

  lemma CountStep(s: State, l: Label)
    requires Enabled(s, l)
    ensures var t := Next(s, l);
            t.sem + t.posting - |t.written| == s.sem + s.posting - |s.written| - if l == Wake then 1 else 0
  {
  }

  ghost predicate AllFit(ms: seq<seq<byte>>)
  {
    forall m :: m in ms ==> Fits(m)
  }

  /** After a drain, a pending message means a message that can be delivered. */
  lemma DrainedIsReady(s: State)
    requires Fifo(s) && AllFit(s.written) && Pending(s) != []
    requires s.chain == [] || |s.ring| == RINGCAP
    ensures Ready(s.ring)
  {
    var ms := Pending(s);
    assert ms[0] in s.written;
    forall m | m in ms ensures WellFormed(m) {
      assert m in s.written;
    }
    FrontOfStream(ms, s.ring, s.chain);
  }

  lemma CoveredStep(s: State, l: Label)
    requires Fifo(s) && Covered(s) && Enabled(s, l) && AllFit(Next(s, l).written)
    ensures Fifo(Next(s, l)) && Covered(Next(s, l))
  {
    FifoStep(s, l);
    match l
    case Append(m) =>
      assert Pending(Next(s, l)) == Pending(s) + [m];
    case Drain =>
      if Pending(s) != [] {
        DrainedIsReady(Next(s, l));
      }
    case Deliver =>
      FifoDeliver(s);
    case _ =>
  }

  lemma {:induction false} CoveredAlways(run: seq<Label>)
    requires AllFit(After(run).written)
    ensures Fifo(After(run)) && Covered(After(run))
  {
    if run != [] {
      var s, l := After(run[..|run| - 1]), run[|run| - 1];
      if Enabled(s, l) {
        assert forall m :: m in s.written ==> m in Next(s, l).written;
        CoveredAlways(run[..|run| - 1]);
        CoveredStep(s, l);
      } else {
        CoveredAlways(run[..|run| - 1]);
      }
    }
  }

  /** Handlemsg delivers the first pending message exactly when it is in the ring whole, with a body or with something
      behind it. */
  lemma {:induction false} ReadyExactly(run: seq<Label>)
    requires After(run).delivered != After(run).written
    ensures var s := After(run);
            |s.delivered| < |s.written|
            && (Ready(s.ring) <==> |s.written[|s.delivered|]| <= |s.ring| && 24 < |s.ring|)
  {
    FifoAlways(run);
    var s := After(run);
    forall m | m in Pending(s) ensures WellFormed(m) {
      assert m in s.written;
    }
    FrontOfStream(Pending(s), s.ring, s.chain);
  }

  /** How often Drive has been begun, and how often it has ended. */
  function Begun(run: seq<Label>): nat
  {
    if run == [] then 0
    else
      var before, l := run[..|run| - 1], run[|run| - 1];
      Begun(before) + if (l == Wake || l == Poll) && Enabled(After(before), l) then 1 else 0
  }

  function Ended(run: seq<Label>): nat
  {
    if run == [] then 0
    else
      var before, l := run[..|run| - 1], run[|run| - 1];
      Ended(before) + if l == Finish && Enabled(After(before), l) then 1 else 0
  }

  /** There is one Drive at a time: it begins when the one before has ended. */
  lemma {:induction false} OneDrive(run: seq<Label>)
    ensures Begun(run) == Ended(run) + if After(run).phase == Idle then 0 else 1
  {
    hide Ready;
    if run != [] {
      OneDrive(run[..|run| - 1]);
    }
  }

  /** The consumer sleeps in sem_wait and no writer is about to wake it. */
  predicate Quiescent(s: State)
  {
    s.phase == Idle && s.sem == 0 && s.posting == 0
  }

  /** Whatever the interleaving, a channel at rest has delivered everything that was written, in order. */
  lemma {:induction false} RestMeansDelivered(run: seq<Label>)
    requires AllFit(After(run).written) && Quiescent(After(run))
    ensures After(run).delivered == After(run).written
  {
    CoveredAlways(run);
    var s := After(run);
    assert |Pending(s)| == 0;
  }

  /** A Drive that starts while a message is pending delivers one. */
  lemma {:induction false} DriveDelivers(run: seq<Label>)
    requires AllFit(After(run).written) && After(run).phase == Woken
    requires After(run).delivered != After(run).written
    ensures Enabled(After(run), Drain) && Enabled(Next(After(run), Drain), Deliver)
  {
    CoveredAlways(run);
    var s := After(run);
    assert Pending(s) != [];
    FifoStep(s, Drain);
    assert Pending(Next(s, Drain)) == Pending(s);
    DrainedIsReady(Next(s, Drain));
  }

  /** The run in which `m` is written to a new channel and Drive runs once. */
  function Lone(m: seq<byte>): seq<Label>
  {
    [Append(m), Post, Wake, Drain, Finish]
  }

  /** A message without a body, or too long for the ring, is stranded when it is the only one. */
  lemma Stranded(m: seq<byte>)
    requires WellFormed(m) && !Fits(m)
    ensures Quiescent(After(Lone(m))) && After(Lone(m)).written == [m] && After(Lone(m)).delivered == []
  {
    var r1, r2, r3, r4 := [Append(m)], [Append(m), Post], [Append(m), Post, Wake], [Append(m), Post, Wake, Drain];
    assert [] + [Append(m)] == r1 && r1 + [Post] == r2 && r2 + [Wake] == r3 && r3 + [Drain] == r4
        && r4 + [Finish] == Lone(m);
    Extend([], Append(m));
    Extend(r1, Post);
    Extend(r2, Wake);
    assert After(r3) == State([], m, 0, 0, Woken, [m], []);
    Extend(r3, Drain);
    var s4 := After(r4);
    assert s4.ring == m[..Min(|m|, RINGCAP)];
    assert s4.ring[..HEADLEN] == m[..HEADLEN];
    Extend(r4, Finish);
  }

  /** The channel never strands a message, over all runs that write only messages from `allowed`,
      exactly when every message in `allowed` has a body and fits the ring. */
  lemma ProgressExactly(allowed: iset<seq<byte>>)
    requires forall m :: m in allowed ==> WellFormed(m)
    ensures (forall m :: m in allowed ==> 24 < |m| <= 4096)
       <==> (forall run | (forall m :: m in After(run).written ==> m in allowed) && Quiescent(After(run)) ::
               After(run).delivered == After(run).written)
  {
    if forall m :: m in allowed ==> HEADLEN < |m| <= RINGCAP {
      forall run | (forall m :: m in After(run).written ==> m in allowed) && Quiescent(After(run))
        ensures After(run).delivered == After(run).written
      {
        RestMeansDelivered(run);
      }
    } else {
      var m :| m in allowed && !(HEADLEN < |m| <= RINGCAP);
      Stranded(m);
      assert After(Lone(m)).delivered != After(Lone(m)).written;
    }
  }
}
