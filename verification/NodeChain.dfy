/** The chain of fixed-size buffer nodes of hg_buf.cpp, with its list of recycled nodes. */
module NodeChains {
  import opened Bytes
  import opened NodeCounts

  const BLOCK := 512

  class ChainNode {
    const data: array<byte>
    var next: ChainNode?
    var start: nat
    var end: nat
    var len: nat

    ghost predicate Fits()
      reads `start, `end, `len
    {
      && data.Length == BLOCK
      && start + len <= BLOCK
      && end == if start + len >= BLOCK then start + len - BLOCK else start + len
    }

    ghost function Held(): (s: seq<byte>)
      requires Fits()
      reads `start, `end, `len, data
      ensures |s| == len
    {
      data[start..start + len]
    }

    constructor ()
      ensures fresh(data) && Fits() && len == 0 && start == 0 && next == null
    {
      data := new byte[BLOCK];
      next := null;
      start, end, len := 0, 0, 0;
    }

    /** memcpy of `src` behind the bytes held. */
    method Append(src: seq<byte>)
      requires Fits() && start + len + |src| <= BLOCK && start + len < BLOCK
      modifies `end, `len, data
      ensures Fits() && Held() == old(Held()) + src && len == old(len) + |src|
    {
      ghost var was, from := Held(), start + len;
      forall k | 0 <= k < |src| {
        data[end + k] := src[k];
      }
      assert data[start..from] == was && data[from..from + |src|] == src;
      assert data[start..from + |src|] == was + src;
      len := len + |src|;
      end := end + |src|;
      if end >= BLOCK {
        end := end - BLOCK;
      }
    }

    /** Drops the oldest `total` bytes; `start` cannot reach the end of the node. */
    method Drop(total: nat)
      requires Fits() && total < len
      modifies `start, `len
      ensures Fits() && Held() == old(Held())[total..]
    {
      start := start + total;
      len := len - total;
    }

    /** Makes a recycled node look new. */
    method Reset()
      requires data.Length == BLOCK
      modifies this
      ensures Fits() && start == 0 && len == 0 && next == null
    {
      next := null;
      start, end, len := 0, 0, 0;
    }
  }

  /** `s` is a null-terminated list in which no node occurs twice. */
  ghost predicate Linked(s: seq<ChainNode>)
    reads s`next
  {
    && (forall i, j :: 0 <= i < j < |s| ==> s[i] != s[j])
    && (forall i {:trigger s[i].next} :: 0 <= i < |s| ==> s[i].next == if i + 1 < |s| then s[i + 1] else null)
  }

  lemma {:induction false} NodesCount(s: seq<ChainNode>)
    requires forall i, j :: 0 <= i < j < |s| ==> s[i] != s[j]
    ensures |set n | n in s| == |s|
  {
    if s != [] {
      var before, last := s[..|s| - 1], s[|s| - 1];
      NodesCount(before);
      assert (set n | n in s) == (set n | n in before) + {last};
    }
  }

  function First(s: seq<ChainNode>): ChainNode?
  {
    if s == [] then null else s[0]
  }

  function Last(s: seq<ChainNode>): ChainNode?
  {
    if s == [] then null else s[|s| - 1]
  }

  function Head<T>(s: seq<T>): seq<T>
  {
    if s == [] then [] else [s[0]]
  }

  function Tail<T>(s: seq<T>): seq<T>
  {
    if s == [] then [] else s[1..]
  }

  class NodeChain {
    var left: ChainNode?
    var right: ChainNode?
    var freen: ChainNode?

    ghost var live: seq<ChainNode>          // the chain, oldest node first
    ghost var idle: seq<ChainNode>          // the recycled nodes
    ghost var contents: seq<seq<byte>>      // the unread bytes of each live node
    ghost var nodes: set<ChainNode>         // every node ever allocated
    ghost var owner: map<array<byte>, ChainNode>  // no two nodes share storage
    ghost var steps: seq<Step>              // the nodes taken into the chain and given back so far
    ghost var Repr: set<object>

    ghost predicate Shape()
      reads `left, `right, `freen, `live, `idle, live`next, idle`next
    {
      && left == First(live) && right == Last(live) && freen == First(idle)
      && Linked(live) && Linked(idle)
      && (forall i, j :: 0 <= i < |live| && 0 <= j < |idle| ==> live[i] != idle[j])
    }

    ghost predicate Storage()
      reads `live, `idle, `nodes, `owner, `Repr
    {
      && this !in Repr
      && (forall n :: n in nodes ==> n in Repr && n.data in Repr && n.data.Length == BLOCK)
      && (forall n :: n in nodes ==> n.data in owner && owner[n.data] == n)
      && (forall i :: 0 <= i < |live| ==> live[i] in nodes)
      && (forall i :: 0 <= i < |idle| ==> idle[i] in nodes)
    }

    ghost predicate Filled()
      reads `live, `contents, live`start, live`end, live`len, set n | n in live :: n.data
    {
      && |contents| == |live|
      && forall i :: 0 <= i < |live| ==> live[i].Fits() && contents[i] == live[i].Held()
    }

    ghost predicate Valid()
      reads this, live, idle, set n | n in live :: n.data
    {
      Storage() && Shape() && Filled()
    }

    /** Every node ever allocated is in the chain or among the recycled ones (and, by Shape, not in both), and the steps
        taken so far tell how many are in each. */
    ghost predicate Attached()
      reads `nodes, `live, `idle, `steps
    {
      && (forall n :: n in nodes ==> n in live || n in idle)
      && After(steps) == Counts(|live|, |idle|)
    }

    /** Whatever has been done to a chain, it has obtained as many nodes as were in it at most at one time. */
    lemma NodesArePeak()
      requires Valid() && Attached()
      ensures forall k :: 0 <= k <= |steps| ==> After(steps[..k]).live <= |nodes|
      ensures exists k :: 0 <= k <= |steps| && After(steps[..k]).live == |nodes|
    {
      hide After;
      ObtainedIsPeak(steps);
      var one, two := set n | n in live, set n | n in idle;
      assert nodes == one + two && one !! two;
      assert |one| == |live| && |two| == |idle| by {
        NodesCount(live);
        NodesCount(idle);
      }
    }

    ghost function Bytes(): seq<byte>
      reads `contents
    {
      Flatten(contents)
    }

    constructor ()
      ensures Valid() && Attached() && fresh(Repr) && live == [] && idle == [] && contents == [] && steps == []
    {
      left, right, freen := null, null, null;
      live, idle, contents, nodes, owner, steps, Repr := [], [], [], {}, map[], [], {};
    }

    /** Pointer part of DelchainL: no buffer field is touched. */
    method Unhook()
      requires Shape() && live != []
      modifies `left, `right, `freen, `live, `idle, live`next
      ensures Shape()
      ensures live == old(live)[1..] && idle == [old(live)[0]] + old(idle)
    {
      var hcn := left.next;
      left.next := freen;
      freen := left;
      left := hcn;
      if left == null {
        right := null;
      }
      idle := [live[0]] + idle;
      live := live[1..];
    }

    /** Moving the first element of one list to the front of another loses none. */
    lemma Moved(live0: seq<ChainNode>, live1: seq<ChainNode>, idle0: seq<ChainNode>, idle1: seq<ChainNode>)
      requires live0 != [] && live1 == live0[1..] && idle1 == [live0[0]] + idle0
      ensures forall n :: n in live0 || n in idle0 ==> n in live1 || n in idle1
    {
      forall n | n in live0 || n in idle0
        ensures n in live1 || n in idle1
      {
        assert live0 == [live0[0]] + live1;
      }
    }

    method PopLeft()
      requires Valid() && live != []
      modifies this, Repr
      ensures Valid() && Repr == old(Repr) && nodes == old(nodes) && steps == old(steps)
      ensures live == old(live)[1..] && contents == old(contents)[1..]
      ensures idle == [old(live)[0]] + old(idle)
    {
      hide Linked, Shape, Storage, ChainNode.Held, ChainNode.Fits;
      LiveInRepr();
      Rehung();
      contents := contents[1..];
      assert forall i :: 0 <= i < |live| ==> live[i] == old(live[i + 1]);
    }

    /** The unhooked node is still one of the nodes. */
    method Rehung()
      requires Storage() && Shape() && live != []
      modifies `left, `right, `freen, `live, `idle, live`next
      ensures Storage() && Shape()
      ensures live == old(live)[1..] && idle == [old(live)[0]] + old(idle)
    {
      hide Linked, Shape;
      Unhook();
    }

    lemma InFootprint()
      requires Valid()
      ensures forall n :: n in live || n in idle ==> n in Repr && n.data in Repr
    {
    }

    lemma LiveInRepr()
      requires Storage()
      ensures this !in Repr && forall n :: n in live || n in idle ==> n in Repr && n.data in Repr
    {
    }

    /** The newest node is in the footprint, and no other live node shares its place or its storage. */
    lemma RightAlone()
      requires Valid() && live != []
      ensures right == live[|live| - 1] && right in Repr && right.data in Repr
      ensures forall i :: 0 <= i < |live| - 1 ==> live[i] != right && live[i].data != right.data
    {
    }

    /** Moves the oldest node of the chain to the front of the recycled ones. */
    method DelchainL()
      requires Valid()
      modifies this, Repr
      ensures Valid() && Repr == old(Repr) && nodes == old(nodes)
      ensures live == Tail(old(live)) && contents == Tail(old(contents))
      ensures idle == Head(old(live)) + old(idle)
      ensures steps == old(steps) + [Give]
      ensures old(Attached()) ==> Attached()
    {
      hide Linked, Storage, After;
      AfterSnoc(steps, Give);
      steps := steps + [Give];
      if left != null {
        PopLeft();
        Moved(old(live), live, old(idle), idle);
      }
    }

    /** Pointer part of PushR. */
    method Hook(node: ChainNode)
      requires Storage() && Shape() && node in nodes && node !in live && node !in idle && node.next == null
      modifies `left, `right, `live, nodes`next
      ensures Storage() && Shape()
      ensures live == old(live) + [node]
    {
      if right == null {
        left := node;
        right := node;
      } else {
        right.next := node;
        right := node;
      }
      live := live + [node];
    }

    /** Hangs an unattached node behind the newest one. */
    method PushR(node: ChainNode)
      requires Valid() && node in nodes && node !in live && node !in idle
      requires node.Fits() && node.len == 0 && node.next == null
      modifies this, Repr
      ensures Valid() && Repr == old(Repr) && nodes == old(nodes) && steps == old(steps)
      ensures live == old(live) + [node] && contents == old(contents) + [[]] && idle == old(idle)
      ensures node.start == old(node.start) && node.len == 0
    {
      hide Linked, Shape, Storage, ChainNode.Held;
      LiveInRepr();
      KnownInRepr();
      Hook(node);
      contents := contents + [[]];
    }

    lemma KnownInRepr()
      requires Storage()
      ensures forall n :: n in nodes ==> n in Repr
    {
    }

    /** An unattached empty node: a recycled one if there is any, else a fresh one. */
    method TakeNode() returns (node: ChainNode)
      requires Valid()
      modifies this, Repr
      ensures Valid() && fresh(Repr - old(Repr)) && old(Repr) <= Repr && nodes == old(nodes) + {node}
      ensures old(idle) != [] ==> node == old(idle)[0]
      ensures steps == old(steps)
      ensures node !in live && node !in idle
      ensures node.Fits() && node.start == 0 && node.len == 0 && node.next == null
      ensures live == old(live) && contents == old(contents) && idle == Tail(old(idle))
    {
      assert idle != [] ==> idle[0] in Repr;
      hide Linked, Storage, Filled;
      if freen == null {
        node := Allocate();
      } else {
        node := Recycle();
      }
    }

    method Allocate() returns (node: ChainNode)
      requires Valid()
      modifies `nodes, `owner, `Repr
      ensures Valid() && fresh(Repr - old(Repr)) && old(Repr) <= Repr && nodes == old(nodes) + {node}
      ensures node !in live && node !in idle
      ensures node.Fits() && node.start == 0 && node.len == 0 && node.next == null
    {
      hide Shape, Filled, Linked;
      node := new ChainNode();
      nodes := nodes + {node};
      owner := owner[node.data := node];
      Repr := Repr + {node, node.data};
    }

    method Recycle() returns (node: ChainNode)
      requires Valid() && freen != null
      modifies `freen, `idle, idle[0]
      ensures Valid() && node in nodes
      ensures node == old(idle)[0] && idle == old(idle)[1..]
      ensures node !in live && node !in idle
      ensures node.Fits() && node.start == 0 && node.len == 0 && node.next == null
    {
      assert forall i :: 0 <= i < |live| ==> live[i] != freen;
      hide ChainNode.Held;
      node := freen;
      freen := freen.next;
      node.Reset();
      idle := idle[1..];
    }

    method NewNode() returns (node: ChainNode)
      requires Valid()
      modifies this, Repr
      ensures Valid() && fresh(Repr - old(Repr)) && old(Repr) <= Repr
      ensures old(Attached()) ==> Attached()
      ensures live == old(live) + [node] && contents == old(contents) + [[]]
      ensures idle == Tail(old(idle)) && steps == old(steps) + [Take]
      ensures node.start == 0 && node.len == 0
    {
      hide Linked, Shape, Storage, Filled, After;
      AfterSnoc(steps, Take);
      node := TakeNode();
      PushR(node);
      steps := steps + [Take];
      assert old(idle) == Head(old(idle)) + Tail(old(idle));
    }

    /** Makes the newest node one with room, and says how much room it has. */
    method GetSingleOrIdleBuf() returns (size: nat)
      requires Valid()
      modifies this, Repr
      ensures Valid() && fresh(Repr - old(Repr)) && old(Repr) <= Repr
      ensures live != [] && |contents| == |live| && right != null && size == BLOCK - right.len - right.start && 0 < size
      ensures old(Attached()) ==> Attached()
      ensures live == old(live) <==> old(right != null && 0 < 512 - right.len - right.start)
      ensures contents == old(contents) || contents == old(contents) + [[]]
      ensures (live == old(live) && idle == old(idle) && steps == old(steps))
           || (|live| == |old(live)| + 1 && idle == Tail(old(idle)) && steps == old(steps) + [Take])
    {
      if right != null {
        var tmpsize := BLOCK - right.len - right.start;
        if tmpsize > 0 {
          return tmpsize;
        }
      }
      var hcn := NewNode();
      size := BLOCK;
    }

    /** Appends `src`, which must fit, to the newest node. */
    method Fill(src: seq<byte>)
      requires Valid() && live != [] && 0 < |src| <= BLOCK - right.len - right.start
      modifies this, Repr
      ensures Valid() && Repr == old(Repr) && nodes == old(nodes) && live == old(live) && idle == old(idle)
      ensures steps == old(steps)
      ensures contents == old(contents)[|live| - 1 := old(contents)[|live| - 1] + src]
    {
      hide Linked, Shape, Storage, ChainNode.Held;
      RightAlone();
      ghost var grown := contents[|live| - 1] + src;
      right.Append(src);
      contents := contents[|live| - 1 := grown];
    }

    /** Drops the oldest `total` bytes of the oldest node, which keeps at least one. */
    method Consume(total: nat)
      requires Valid() && live != [] && total < left.len
      modifies this, Repr
      ensures Valid() && Repr == old(Repr) && nodes == old(nodes) && live == old(live) && idle == old(idle)
      ensures steps == old(steps)
      ensures contents == old(contents)[0 := old(contents)[0][total..]]
    {
      hide Linked, Shape, Storage, ChainNode.Held, ChainNode.Fits;
      LeftAlone();
      FrontFits();
      ghost var rest := contents[0][total..];
      left.Drop(total);
      contents := contents[0 := rest];
    }

    lemma FrontFits()
      requires Filled() && live != []
      ensures live[0].Fits() && live[0].Held() == contents[0]
    {
    }

    /** The oldest node is in the footprint, and no other live node shares its place. */
    lemma LeftAlone()
      requires Valid() && live != []
      ensures left == live[0] && left in Repr && this !in Repr
      ensures forall i :: 0 < i < |live| ==> live[i] != left
    {
      hide ChainNode.Held, ChainNode.Fits;
    }

    /** The unread bytes of the oldest node. */
    method Front() returns (bytes: seq<byte>)
      requires Valid() && left != null
      ensures |bytes| == left.len && bytes == contents[0] && bytes <= Bytes()
    {
      bytes := left.data[left.start..left.start + left.len];
    }

    /** Takes the oldest `total` bytes away, and the oldest node with them if it then is empty. */
    method Advance(total: nat) returns (whole: bool)
      requires Valid() && left != null && total <= left.len
      modifies this, Repr
      ensures Valid() && Repr == old(Repr)
      ensures old(Attached()) ==> Attached()
      ensures whole <==> total == old(left.len)
      ensures whole ==> |live| < |old(live)|
      ensures old(left.len) <= |old(Bytes())| && Bytes() == old(Bytes())[total..]
    {
      hide Linked, Storage;
      assert |contents[0]| == left.len && live != [];
      hide Filled;
      if total < left.len {
        Consume(total);
        whole := false;
      } else {
        DelchainL();
        whole := true;
      }
    }
  }
}
