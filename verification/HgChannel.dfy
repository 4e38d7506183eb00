/** HgChannel: the chain the writers fill, the ring the consumer parses, and the semaphore between them. */
module HgChannels {
  import opened Bytes
  import opened NodeChains
  import opened RingBuffers
  import opened ChannelRuns

  /** A drain is determined by what it conserves and by how far it goes. */
  lemma DrainUnique(ring0: seq<byte>, chain0: seq<byte>, ring1: seq<byte>, chain1: seq<byte>)
    requires ring1 + chain1 == ring0 + chain0
    requires |ring0| <= |ring1| <= RINGCAP && (chain1 == [] || |ring1| == RINGCAP)
    ensures var k := Min(|chain0|, RINGCAP - |ring0|);
            ring1 == ring0 + chain0[..k] && chain1 == chain0[k..]
  {
    var k := Min(|chain0|, RINGCAP - |ring0|);
    assert |ring1| + |chain1| == |ring0| + |chain0|;
    assert |ring1| == |ring0| + k;
    assert ring1 == (ring1 + chain1)[..|ring1|] == (ring0 + chain0)[..|ring0| + k] == ring0 + chain0[..k];
    assert chain1 == (ring1 + chain1)[|ring1|..] == (ring0 + chain0)[|ring0| + k..] == chain0[k..];
  }

  /** The steps of writing the messages `ms` one after the other. */
  function Writes(ms: seq<seq<byte>>): seq<Label>
  {
    if ms == [] then []
    else
      var m := ms[|ms| - 1];
      Writes(ms[..|ms| - 1]) + if m == [] then [] else [Label.Append(m), Post]
  }

  /** The steps of delivering `n` messages, when the handler of the k-th writes the messages `calls[k]`. */
  function Turns(calls: seq<seq<seq<byte>>>, n: nat): seq<Label>
  {
    if n == 0 then []
    else Turns(calls, n - 1) + [Deliver] + Writes(if n <= |calls| then calls[n - 1] else [])
  }

  /** Writers do not disturb the consumer. */
  lemma {:induction false} WriterStep(run: seq<Label>, l: Label)
    requires l.Append? || l.Post?
    ensures var s, t := After(run), After(run + [l]);
            t.phase == s.phase && t.ring == s.ring && t.delivered == s.delivered
  {
    assert (run + [l])[..|run|] == run;
  }

  lemma {:induction false} WritesStep(run: seq<Label>, ms: seq<seq<byte>>)
    ensures var s, t := After(run), After(run + Writes(ms));
            t.phase == s.phase && t.ring == s.ring && t.delivered == s.delivered
  {
    hide After;
    if ms == [] {
      assert run + Writes(ms) == run;
    } else {
      var m, before := ms[|ms| - 1], Writes(ms[..|ms| - 1]);
      WritesStep(run, ms[..|ms| - 1]);
      if m == [] {
        assert run + Writes(ms) == run + before;
      } else {
        WriterStep(run + before, Label.Append(m));
        WriterStep(run + before + [Label.Append(m)], Post);
        assert run + Writes(ms) == run + before + [Label.Append(m)] + [Post];
      }
    }
  }

  /** One delivery, with the writes its handler makes. */
  lemma {:induction false} TurnStep(run: seq<Label>, ms: seq<seq<byte>>)
    requires Enabled(After(run), Deliver)
    ensures var s, t := After(run), After(run + [Deliver] + Writes(ms));
            t.phase == Handling && t.delivered == s.delivered + [s.ring[..FrontSize(s.ring)]]
  {
    Extend(run, Deliver);
    WritesStep(run + [Deliver], ms);
  }

  /** How a Drive begins. */
  function Begin(wait: bool): Label
  {
    if wait then Wake else Poll
  }

  /** Beginning and draining change nothing that has been written or delivered. */
  lemma {:induction false} WokenUp(run: seq<Label>, wait: bool)
    requires Enabled(After(run), Begin(wait))
    ensures After(run + [Begin(wait)]).phase == Woken && After(run + [Begin(wait)] + [Drain]).phase == Handling
    ensures After(run + [Begin(wait)] + [Drain]).delivered == After(run).delivered
  {
    Extend(run, Begin(wait));
    FifoAlways(run);
    Extend(run + [Begin(wait)], Drain);
  }

  /** A Drive that comes to rest has handled a message if one was pending. */
  lemma {:induction false} HandlesOne(run: seq<Label>, wait: bool, calls: seq<seq<seq<byte>>>, n: nat)
    requires Enabled(After(run), Begin(wait))
    requires After(run + [Begin(wait)] + [Drain] + Turns(calls, n) + [Finish]).phase == Idle
    ensures After(run).delivered != After(run).written && AllFit(After(run).written) ==> n > 0
  {
    if n == 0 && After(run).delivered != After(run).written && AllFit(After(run).written) {
      var drained := run + [Begin(wait)] + [Drain];
      assert drained + Turns(calls, n) == drained;
      assert (drained + [Finish])[..|drained|] == drained;
      Extend(run, Begin(wait));
      DriveDelivers(run + [Begin(wait)]);
      Extend(run + [Begin(wait)], Drain);
      assert false;
    }
  }

  /** The ring never begins with a head whose psize is negative. */
  lemma {:induction false} FrontIsWhole(run: seq<Label>)
    ensures var r := After(run).ring; HEADLEN <= |r| ==> HEADLEN <= FrontSize(r)
  {
    FifoAlways(run);
    var s := After(run);
    forall m | m in Pending(s) ensures WellFormed(m) {
      assert m in s.written;
    }
    FrontOfStream(Pending(s), s.ring, s.chain);
  }

  /** What may be passed to WriteChan. */
  ghost predicate Writable(ms: seq<seq<byte>>)
  {
    forall m :: m in ms ==> m == [] || WellFormed(m)
  }

  class HgChannel {
    const chain: NodeChain
    const ring: RingBuffer
    var sem: nat
    ghost var log: seq<Label>      // the steps taken so far

    /** The state of the protocol that the steps taken lead to. */
    ghost function Abs(): State
      reads `log
    {
      After(log)
    }

    ghost function Footprint(): set<object>
      reads chain
    {
      {this, chain, ring, ring.data} + chain.Repr
    }

    ghost predicate Parts()
      reads chain, ring, chain.Repr, chain.live, chain.idle, set n | n in chain.live :: n.data
    {
      && chain.Valid() && chain.Attached()
      && ring.Valid() && ring.cap == RINGCAP
      && {this, chain, ring, ring.data} !! chain.Repr
    }

    /** The object stands for the state its steps lead to. */
    ghost predicate Valid()
      reads this, chain, ring, ring.data, chain.Repr, chain.live, chain.idle, set n | n in chain.live :: n.data
    {
      && Parts()
      && Abs().ring == ring.Contents()
      && Abs().chain == chain.Bytes()
      && Abs().sem == sem
    }

    constructor ()
      ensures Valid() && log == [] && fresh(Footprint())
    {
      hide NodeChain.Attached, RingBuffer.Valid, RingBuffer.Contents;
      chain := new NodeChain();
      ring := new RingBuffer(RINGCAP);
      sem := 0;
      log := [];
    }

    /** The loop of WriteChan: spreads `data` over the nodes of the chain. */
    method Store(data: seq<byte>)
      requires chain.Valid() && chain.Attached() && data != []
      modifies chain, chain.Repr
      ensures chain.Valid() && chain.Attached() && fresh(chain.Repr - old(chain.Repr))
      ensures chain.Bytes() == old(chain.Bytes()) + data
    {
      hide NodeChain.Valid, NodeChain.Attached, NodeChain.Bytes;
      var size := |data|;
      var rest := size;
      ghost var before := chain.Bytes();
      while true
        invariant chain.Valid() && chain.Attached() && fresh(chain.Repr - old(chain.Repr))
        invariant 0 < rest <= size
        invariant chain.Bytes() == before + data[..size - rest]
        decreases rest
      {
        rest := StoreSome(data, rest);
        if rest == 0 {
          break;
        }
      }
      assert data[..size] == data;
    }

    /** One turn of that loop. */
    method StoreSome(data: seq<byte>, rest: nat) returns (left: nat)
      requires chain.Valid() && chain.Attached() && 0 < rest <= |data|
      modifies chain, chain.Repr
      ensures chain.Valid() && chain.Attached() && fresh(chain.Repr - old(chain.Repr))
      ensures left < rest
      ensures chain.Bytes() == old(chain.Bytes()) + data[|data| - rest..|data| - left]
    {
      hide Flatten, NodeChain.Valid;
      var size := |data|;
      var canwrsize := chain.GetSingleOrIdleBuf();
      assert chain.Bytes() == old(chain.Bytes()) by {
        FlattenSnoc(old(chain.contents), []);
      }
      var realcp := if canwrsize <= rest then canwrsize else rest;
      var piece := data[size - rest..size - rest + realcp];
      FlattenLast(chain.contents, piece);
      chain.Fill(piece);
      left := rest - realcp;
    }

    /** The part of WriteChan under the lock. */
    method Enqueue(data: seq<byte>)
      requires Valid() && WellFormed(data)
      modifies this, chain, chain.Repr
      ensures Valid() && fresh(chain.Repr - old(chain.Repr))
      ensures log == old(log) + [Label.Append(data)] && unchanged(ring)
    {
      hide NodeChain.Valid, NodeChain.Attached, NodeChain.Bytes, RingBuffer.Valid, RingBuffer.Contents, After;
      Store(data);
      Extend(log, Label.Append(data));
      log := log + [Label.Append(data)];
    }

    /** sem_post. */
    method Signal()
      requires Valid() && 0 < Abs().posting
      modifies `sem, `log
      ensures Valid()
      ensures log == old(log) + [Post]
    {
      hide NodeChain.Valid, NodeChain.Attached, NodeChain.Bytes, RingBuffer.Valid, RingBuffer.Contents, After;
      sem := sem + 1;
      Extend(log, Post);
      log := log + [Post];
    }

    /** Writes a message and, if `wait`, posts the semaphore; data of size 0 is ignored. */
    method WriteChan(data: seq<byte>, wait: bool)
      requires Valid() && (data == [] || WellFormed(data))
      modifies this, chain, chain.Repr
      ensures Valid() && fresh(chain.Repr - old(chain.Repr))
      ensures log == old(log) + if data == [] then [] else if wait then [Label.Append(data), Post]
              else [Label.Append(data)]
      ensures unchanged(ring)
    {
      hide Parts, Valid, After;
      if data == [] {
        return;
      }
      Extend(log, Label.Append(data));
      Enqueue(data);
      if wait {
        Signal();
      }
    }

    /** The loop of Drive: moves the oldest nodes into the ring until one does not fit whole. */
    method MoveToRing()
      requires Parts()
      modifies chain, chain.Repr, ring, ring.data
      ensures Parts() && chain.Repr == old(chain.Repr)
      ensures ring.Contents() + chain.Bytes() == old(ring.Contents() + chain.Bytes())
      ensures old(ring.len) <= ring.len && (chain.Bytes() == [] || ring.len == RINGCAP)
    {
      ghost var all := ring.Contents() + chain.Bytes();
      while chain.left != null
        invariant Parts() && chain.Repr == old(chain.Repr)
        invariant ring.Contents() + chain.Bytes() == all && old(ring.len) <= ring.len
        decreases |chain.live|
      {
        var whole := MoveNode();
        if !whole {
          break;
        }
      }
    }

    /** One turn of that loop: false when the oldest node was left in the chain. */
    method MoveNode() returns (whole: bool)
      requires Parts() && chain.left != null
      modifies chain, chain.Repr, ring, ring.data
      ensures Parts() && chain.Repr == old(chain.Repr)
      ensures ring.Contents() + chain.Bytes() == old(ring.Contents() + chain.Bytes())
      ensures old(ring.len) <= ring.len
      ensures whole ==> |chain.live| < |old(chain.live)|
      ensures !whole ==> ring.len == RINGCAP
    {
      hide NodeChain.Bytes, NodeChain.Attached, NodeChain.Valid, RingBuffer.Contents, Linked;
      chain.InFootprint();
      var bytes := chain.Front();
      var total := ring.WriteN(bytes);
      whole := chain.Advance(total);
      assert bytes[..total] + chain.Bytes() == old(chain.Bytes());
    }

    /** The part of Drive under the lock, after sem_wait has returned. */
    method DrainLocked()
      requires Valid() && Abs().phase == Woken
      modifies `log, chain, chain.Repr, ring, ring.data
      ensures Valid() && chain.Repr == old(chain.Repr)
      ensures log == old(log) + [Drain]
    {
      hide NodeChain.Valid, NodeChain.Attached, NodeChain.Bytes, After;
      ghost var s := Abs();
      FifoAlways(log);
      MoveToRing();
      hide RingBuffer.Valid, RingBuffer.Contents, Fifo;
      DrainUnique(s.ring, s.chain, ring.Contents(), chain.Bytes());
      Extend(log, Drain);
      log := log + [Drain];
    }

    /** Two turns of Handlemsg's loop: reads a head and then its body, or leaves the ring as it was. */
    method TakeMessage() returns (got: bool, m: seq<byte>)
      requires ring.Valid() && ring.cap == RINGCAP
      requires ring.len >= HEADLEN ==> HEADLEN <= FrontSize(ring.Contents())
      modifies ring
      ensures ring.Valid()
      ensures got <==> Ready(old(ring.Contents()))
      ensures got ==> var n := FrontSize(old(ring.Contents()));
                      m == old(ring.Contents())[..n] && ring.Contents() == old(ring.Contents())[n..]
      ensures !got ==> ring.Contents() == old(ring.Contents())
    {
      hide Cyclic;
      ghost var all, start0 := ring.Contents(), ring.start;
      var gothead, head := ring.ReadN(HEADLEN, HEADLEN);
      if !gothead {
        return false, [];
      }
      var psize := PSize(head);
      var gotbody, body := ring.ReadN(psize, psize);
      if gotbody {
        return true, head + body;
      }
      CyclicCut(ring.data[..], start0, HEADLEN, |all|);
      ring.Rewind(HEADLEN, head);
      return false, [];
    }

    /** The writes a handler makes while it runs. */
    method HandlerWrites(ms: seq<seq<byte>>)
      requires Valid() && Writable(ms)
      modifies this, chain, chain.Repr
      ensures Valid() && fresh(chain.Repr - old(chain.Repr))
      ensures log == old(log) + Writes(ms) && unchanged(ring)
    {
      hide Parts, Valid;
      for i := 0 to |ms|
        invariant unchanged(ring)
        invariant Valid() && fresh(chain.Repr - old(chain.Repr))
        invariant log == old(log) + Writes(ms[..i])
      {
        assert ms[..i + 1][..i] == ms[..i];
        WriteChan(ms[i], true);
      }
      assert ms[..|ms|] == ms;
    }

    /** Delivers the message at the front of the ring, if it is there whole. */
    method DeliverFront() returns (got: bool, m: seq<byte>)
      requires Valid() && Abs().phase == Handling
      modifies `log, ring
      ensures Valid()
      ensures Enabled(old(Abs()), if got then Deliver else Finish)
      ensures log == old(log) + [if got then Deliver else Finish]
      ensures got ==> m == old(Abs().ring[..FrontSize(Abs().ring)]) && ring.len < old(ring.len)
    {
      hide After, NodeChain.Valid, NodeChain.Attached, NodeChain.Bytes, RingBuffer.Contents, FrontSize;
      FrontIsWhole(log);
      got, m := TakeMessage();
      ghost var l := if got then Deliver else Finish;
      Extend(log, l);
      log := log + [l];
    }

    /** Parses the ring and calls the handlers; the handler of the k-th message writes the messages calls[k]. */
    method Handlemsg(calls: seq<seq<seq<byte>>>) returns (handled: seq<seq<byte>>)
      requires Valid() && Abs().phase == Handling
      requires forall c :: c in calls ==> Writable(c)
      modifies this, chain, chain.Repr, ring
      ensures Valid() && fresh(chain.Repr - old(chain.Repr))
      ensures log == old(log) + Turns(calls, |handled|) + [Finish]
      ensures Abs().phase == Idle && Abs().delivered == old(Abs().delivered) + handled
    {
      hide Parts, Valid, After, Writes;
      handled := [];
      while true
        invariant Valid() && fresh(chain.Repr - old(chain.Repr))
        invariant log == old(log) + Turns(calls, |handled|)
        invariant Abs().phase == Handling && Abs().delivered == old(Abs().delivered) + handled
        decreases ring.len
      {
        ghost var run := log;
        var got, m := DeliverFront();
        if !got {
          Extend(run, Finish);
          break;
        }
        var ms := if |handled| < |calls| then calls[|handled|] else [];
        TurnStep(run, ms);
        HandlerWrites(ms);
        handled := handled + [m];
      }
    }

    /** One turn of the consumer. If it waits, then until the count is positive. */
    method Drive(wait: bool, calls: seq<seq<seq<byte>>>) returns (handled: seq<seq<byte>>)
      requires Valid() && Abs().phase == Idle && (wait ==> 0 < sem)
      requires forall c :: c in calls ==> Writable(c)
      modifies this, chain, chain.Repr, ring, ring.data
      ensures Valid() && fresh(chain.Repr - old(chain.Repr))
      ensures log == old(log) + [Begin(wait)] + [Drain] + Turns(calls, |handled|) + [Finish]
      ensures Abs().phase == Idle && Abs().delivered == old(Abs().delivered) + handled
      ensures old(Abs().delivered) != old(Abs().written) && AllFit(old(Abs().written)) ==> handled != []
    {
      hide Parts, After, Writes, Turns, AllFit;
      ghost var run := log;
      WokenUp(run, wait);
      Awake(wait);
      DrainLocked();
      handled := Handlemsg(calls);
      HandlesOne(run, wait, calls, |handled|);
    }

    /** sem_wait returning, or not being called. */
    method Awake(wait: bool)
      requires Valid() && Abs().phase == Idle && (wait ==> 0 < sem)
      modifies `sem, `log
      ensures Valid() && log == old(log) + [Begin(wait)]
    {
      hide NodeChain.Valid, NodeChain.Attached, NodeChain.Bytes, RingBuffer.Valid, RingBuffer.Contents, After;
      Extend(log, Begin(wait));
      if wait {
        sem := sem - 1;
      }
      log := log + [Begin(wait)];
    }
  }
}
