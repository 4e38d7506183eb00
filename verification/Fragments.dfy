/** How SendData cuts the chain of a frame into fragments, and how it tags them. */
module Fragmenting {
  import opened Bytes

  const MAXCOPY := 990       // MAX_RTP_PACKET_SIZE - RTP_PACKET_HEAD_SIZE

  datatype Fragment = Fragment(tag: nat, body: seq<byte>)

  const MAXINT := 0x7FFF_FFFF    // the largest size a frame's int can record

  /** An int compared with an unsigned number is taken modulo 2^32. */
  function Unsigned(x: int): nat
  {
    x % 0x1_0000_0000
  }

  /** The tag of the next fragment: 0 alone, 2 first, 1 middle, 3 last. */
  function Tag(framesize: int, sendsize: nat, shouldcopy: nat): (tag: nat)
    ensures tag < 4
  {
    if sendsize == 0 then (if shouldcopy >= Unsigned(framesize) then 0 else 2)
    else if shouldcopy >= Unsigned(framesize - sendsize) then 3 else 1
  }

  /** The fragments of what is left of one node. */
  function NodeFragments(body: seq<byte>, framesize: int, sendsize: nat): seq<Fragment>
  {
    if body == [] then []
    else
      var k := if MAXCOPY < |body| then MAXCOPY else |body|;
      [Fragment(Tag(framesize, sendsize, k), body[..k])] + NodeFragments(body[k..], framesize, sendsize + k)
  }

  /** The fragments of a chain of nodes. */
  function Fragments(bodies: seq<seq<byte>>, framesize: int, sendsize: nat): seq<Fragment>
  {
    if bodies == [] then []
    else NodeFragments(bodies[0], framesize, sendsize) + Fragments(bodies[1..], framesize, sendsize + |bodies[0]|)
  }

  function Body(frags: seq<Fragment>): seq<byte>
  {
    if frags == [] then [] else frags[0].body + Body(frags[1..])
  }

  lemma {:induction false} BodyConcat(a: seq<Fragment>, b: seq<Fragment>)
    ensures Body(a + b) == Body(a) + Body(b)
  {
    if a == [] {
      assert a + b == b;
    } else {
      assert (a + b)[1..] == a[1..] + b;
      BodyConcat(a[1..], b);
    }
  }

  /** `frags` carry on a frame of `total` bytes of which `sent` are already sent, up to `upto` bytes of it:
      each has 1 to 990 bytes, and its tag says whether it is the first and whether it is the last. */
  predicate Tagged(frags: seq<Fragment>, sent: nat, upto: nat, total: nat)
  {
    if frags == [] then sent == upto
    else
      var f, next := frags[0], sent + |frags[0].body|;
      && 0 < |f.body| <= MAXCOPY && next <= upto
      && f.tag == (if sent == 0 then (if next == total then 0 else 2) else if next == total then 3 else 1)
      && Tagged(frags[1..], next, upto, total)
  }

  lemma {:induction false} TaggedConcat(a: seq<Fragment>, b: seq<Fragment>, sent: nat, mid: nat, upto: nat, total: nat)
    requires Tagged(a, sent, mid, total) && Tagged(b, mid, upto, total) && mid <= upto
    ensures Tagged(a + b, sent, upto, total)
  {
    if a == [] {
      assert a + b == b;
    } else {
      assert (a + b)[1..] == a[1..] + b;
      TaggedConcat(a[1..], b, sent + |a[0].body|, mid, upto, total);
    }
  }

  /** With the right size recorded, a tag says whether the fragment is the first and whether it is the last. */
  lemma RightTag(total: nat, sent: nat, k: nat)
    requires sent + k <= total <= MAXINT
    ensures Tag(total, sent, k)
         == if sent == 0 then (if k == total then 0 else 2) else if sent + k == total then 3 else 1
  {
  }

  lemma {:induction false} NodeTagged(body: seq<byte>, sent: nat, total: nat)
    requires sent + |body| <= total <= MAXINT
    ensures Tagged(NodeFragments(body, total, sent), sent, sent + |body|, total)
    ensures Body(NodeFragments(body, total, sent)) == body
    decreases |body|
  {
    hide Tag;
    if body != [] {
      var k := if MAXCOPY < |body| then MAXCOPY else |body|;
      NodeTagged(body[k..], sent + k, total);
      RightTag(total, sent, k);
      var rest := NodeFragments(body[k..], total, sent + k);
      assert ([Fragment(Tag(total, sent, k), body[..k])] + rest)[1..] == rest;
      assert body == body[..k] + body[k..];
    }
  }

  lemma {:induction false} TaggedNone(sent: nat, total: nat)
    ensures Tagged([], sent, sent, total) && Body([]) == []
  {
  }

  /** Of a frame whose recorded size is right, SendData sends every byte once, in order, and tags every fragment
      right. */
  lemma {:induction false} FragmentsTagged(bodies: seq<seq<byte>>, sent: nat, total: nat)
    requires sent + |Flatten(bodies)| == total <= MAXINT
    ensures Tagged(Fragments(bodies, total, sent), sent, total, total)
    ensures Body(Fragments(bodies, total, sent)) == Flatten(bodies)
    decreases |bodies|
  {
    hide NodeFragments, Tagged, Body;
    if bodies == [] {
      TaggedNone(sent, total);
    } else {
      var b := bodies[0];
      NodeTagged(b, sent, total);
      FragmentsTagged(bodies[1..], sent + |b|, total);
      var x, y := NodeFragments(b, total, sent), Fragments(bodies[1..], total, sent + |b|);
      TaggedConcat(x, y, sent, sent + |b|, total, total);
      BodyConcat(x, y);
    }
  }

  /** Whatever size is recorded, tags have two bits. */
  lemma {:induction false} TwoBitTags(bodies: seq<seq<byte>>, framesize: int, sendsize: nat)
    ensures forall f :: f in Fragments(bodies, framesize, sendsize) ==> f.tag < 4
    decreases |bodies|
  {
    if bodies != [] {
      TwoBitNodeTags(bodies[0], framesize, sendsize);
      TwoBitTags(bodies[1..], framesize, sendsize + |bodies[0]|);
    }
  }

  lemma {:induction false} TwoBitNodeTags(body: seq<byte>, framesize: int, sendsize: nat)
    ensures forall f :: f in NodeFragments(body, framesize, sendsize) ==> f.tag < 4
    decreases |body|
  {
    if body != [] {
      var k := if MAXCOPY < |body| then MAXCOPY else |body|;
      TwoBitNodeTags(body[k..], framesize, sendsize + k);
    }
  }

  /** A last fragment (tag 0 or 3) carries the SendData's pointer to the frame's buffer. */
  predicate IsLast(f: Fragment)
  {
    f.tag == 0 || f.tag == 3
  }

  /** Exactly the final fragment of a frame is tagged as last. */
  lemma {:induction false} OnlyFinalIsLast(frags: seq<Fragment>, sent: nat, total: nat)
    requires Tagged(frags, sent, total, total)
    ensures forall i :: 0 <= i < |frags| ==> (IsLast(frags[i]) <==> i == |frags| - 1)
    decreases |frags|
  {
    if frags != [] {
      var next := sent + |frags[0].body|;
      OnlyFinalIsLast(frags[1..], next, total);
      if |frags| > 1 {
        var f := frags[1..][0];
        assert 0 < |f.body|;
      }
      forall i | 0 <= i < |frags|
        ensures IsLast(frags[i]) <==> i == |frags| - 1
      {
        if i > 0 {
          assert frags[i] == frags[1..][i - 1];
        }
      }
    }
  }
}
