/** How many fragments a frame is cut into, and what the size recorded for it does to their tags (SendData). */
module FragmentLaws {
  import opened Bytes
  import opened Fragmenting

  /** All fragments of a node but the last are as large as fits a packet of 1000 bytes. */
  lemma {:induction false} NodeFull(body: seq<byte>, framesize: int, sendsize: nat)
    ensures var fs := NodeFragments(body, framesize, sendsize);
            && |fs| == (|body| + 989) / 990
            && forall i :: 0 <= i < |fs| - 1 ==> |fs[i].body| == 990
    decreases |body|
  {
    hide Tag;
    if |body| > 990 {
      NodeFull(body[990..], framesize, sendsize + 990);
    }
  }

  /** Fragment after fragment, each tag is the one the recorded size `framesize` gives. */
  predicate TagsFor(frags: seq<Fragment>, framesize: int, sent: nat)
  {
    frags == []
    || (frags[0].tag == Tag(framesize, sent, |frags[0].body|) && frags[0].body != []
        && TagsFor(frags[1..], framesize, sent + |frags[0].body|))
  }

  lemma {:induction false} TagsForConcat(a: seq<Fragment>, b: seq<Fragment>, framesize: int, sent: nat)
    requires TagsFor(a, framesize, sent) && TagsFor(b, framesize, sent + |Body(a)|)
    ensures TagsFor(a + b, framesize, sent)
  {
    hide Tag;
    if a == [] {
      assert a + b == b;
    } else {
      assert (a + b)[1..] == a[1..] + b;
      TagsForConcat(a[1..], b, framesize, sent + |a[0].body|);
    }
  }

  lemma {:induction false} NodeTags(body: seq<byte>, framesize: int, sent: nat)
    ensures TagsFor(NodeFragments(body, framesize, sent), framesize, sent)
    ensures Body(NodeFragments(body, framesize, sent)) == body
    ensures forall f :: f in NodeFragments(body, framesize, sent) ==> 0 < |f.body| <= MAXCOPY
    decreases |body|
  {
    hide Tag;
    if body != [] {
      var k := if MAXCOPY < |body| then MAXCOPY else |body|;
      NodeTags(body[k..], framesize, sent + k);
      var f, rest := Fragment(Tag(framesize, sent, k), body[..k]), NodeFragments(body[k..], framesize, sent + k);
      assert ([f] + rest)[1..] == rest;
      assert body == body[..k] + body[k..];
    }
  }

  /** Whatever the recorded size, every byte is sent once and in order. */
  lemma {:induction false} ChainTags(bodies: seq<seq<byte>>, framesize: int, sent: nat)
    ensures TagsFor(Fragments(bodies, framesize, sent), framesize, sent)
    ensures Body(Fragments(bodies, framesize, sent)) == Flatten(bodies)
    ensures forall f :: f in Fragments(bodies, framesize, sent) ==> 0 < |f.body| <= MAXCOPY
    decreases |bodies|
  {
    hide Tag, TagsFor, NodeFragments, Body;
    if bodies == [] {
      NoTags(framesize, sent);
    } else {
      var b := bodies[0];
      NodeTags(b, framesize, sent);
      ChainTags(bodies[1..], framesize, sent + |b|);
      TagsForConcat(NodeFragments(b, framesize, sent), Fragments(bodies[1..], framesize, sent + |b|), framesize, sent);
      BodyConcat(NodeFragments(b, framesize, sent), Fragments(bodies[1..], framesize, sent + |b|));
    }
  }

  lemma {:induction false} NoTags(framesize: int, sent: nat)
    ensures TagsFor([], framesize, sent) && Body([]) == []
  {
  }

  /** Where the last fragment begins. */
  function LastStart(frags: seq<Fragment>, sent: nat): nat
    requires frags != []
  {
    if |frags| == 1 then sent else LastStart(frags[1..], sent + |frags[0].body|)
  }

  lemma {:induction false} LastStartAfter(frags: seq<Fragment>, framesize: int, sent: nat)
    requires frags != [] && TagsFor(frags, framesize, sent)
    ensures sent <= LastStart(frags, sent) < sent + |Body(frags)|
    ensures |frags| > 1 ==> sent + |frags[0].body| <= LastStart(frags, sent)
  {
    hide Tag;
    if |frags| > 1 {
      LastStartAfter(frags[1..], framesize, sent + |frags[0].body|);
    } else {
      assert Body(frags[1..]) == [];
    }
  }

  /** Behind the first fragment, tags are right exactly when the recorded size ends in the last one. */
  lemma {:induction false} LaterTagsExactly(frags: seq<Fragment>, framesize: int, sent: nat, total: nat)
    requires 0 < sent && frags != [] && TagsFor(frags, framesize, sent) && total == sent + |Body(frags)| <= MAXINT
    requires -10 <= framesize <= MAXINT && forall f :: f in frags ==> |f.body| <= MAXCOPY
    ensures Tagged(frags, sent, total, total)
       <==> (if |frags| == 1 then sent <= framesize else LastStart(frags, sent) < framesize) && framesize <= total
  {
    hide Tag;
    var f, next := frags[0], sent + |frags[0].body|;
    assert f in frags;
    LaterTag(framesize, sent, |f.body|);
    LastStartAfter(frags, framesize, sent);
    if |frags| == 1 {
      assert Body(frags[1..]) == [];
    } else {
      LastStartAfter(frags[1..], framesize, next);
      LaterTagsExactly(frags[1..], framesize, next, total);
    }
  }

  lemma LaterTag(framesize: int, sent: nat, k: nat)
    requires -10 <= framesize <= MAXINT && 0 < sent && 0 < k && sent + k <= MAXINT
    ensures Tag(framesize, sent, k) == if sent <= framesize <= sent + k then 3 else 1
  {
  }

  lemma FirstTag(framesize: int, k: nat)
    requires -10 <= framesize <= MAXINT && 0 < k <= MAXCOPY
    ensures Tag(framesize, 0, k) == if 0 <= framesize <= k then 0 else 2
  {
  }

  /** The size recorded for a frame of `total` bytes need not be the right one: every fragment is tagged right, as
      first, middle, last or lone, if and only if the size ends somewhere in the last fragment; for a lone fragment 0
      will do too. */
  lemma {:induction false} TagsExactly(bodies: seq<seq<byte>>, framesize: int)
    requires 0 < |Flatten(bodies)| <= MAXINT && -10 <= framesize <= MAXINT
    ensures var frags, total := Fragments(bodies, framesize, 0), |Flatten(bodies)|;
            frags != [] && (Tagged(frags, 0, total, total)
                            <==> (LastStart(frags, 0) < framesize || (|frags| == 1 && framesize == 0))
                                 && framesize <= total)
  {
    hide Tag, Fragments, Flatten;
    var frags, total := Fragments(bodies, framesize, 0), |Flatten(bodies)|;
    ChainTags(bodies, framesize, 0);
    assert frags != [];
    var f, rest := frags[0], frags[1..];
    assert f in frags;
    FirstTag(framesize, |f.body|);
    LastStartAfter(frags, framesize, 0);
    if rest == [] {
      assert Body(rest) == [];
    } else {
      LastStartAfter(rest, framesize, |f.body|);
      LaterTagsExactly(rest, framesize, |f.body|, total);
    }
  }
}
