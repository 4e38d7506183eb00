/** The doubly linked lists of hg_pool.c and hg_queue.c, whose list code is the same: nodes in use and nodes to
    reuse. */
module PageLists {
  import opened Bytes

  /** myPoolNode and myQuNode: a node, its links and its storage. The id numbers the nodes in the order malloc gave
      them. */
  class PoolNode {
    var d: seq<byte>
    ghost const id: nat
    var s: nat
    var roffset: nat
    var l: PoolNode?
    var r: PoolNode?

    constructor (tLen: nat, ghost id: nat)
      ensures |d| == tLen && this.id == id
      ensures s == 0 && roffset == 0 && l == null && r == null
    {
      d := seq(tLen, _ => 0);
      this.id := id;
      s, roffset, l, r := 0, 0, null, null;
    }
  }

  /** The node before position i, and the one after it. */
  function Before(s: seq<PoolNode>, i: nat): PoolNode?
    requires i < |s|
  {
    if i == 0 then null else s[i - 1]
  }

  function After(s: seq<PoolNode>, i: nat): PoolNode?
    requires i < |s|
  {
    if i + 1 == |s| then null else s[i + 1]
  }

  ghost predicate Rights(s: seq<PoolNode>)
    reads s`r
  {
    forall i {:trigger s[i].r} :: 0 <= i < |s| ==> s[i].r == After(s, i)
  }

  ghost predicate Lefts(s: seq<PoolNode>)
    reads s`l
  {
    forall i {:trigger s[i].l} :: 0 <= i < |s| ==> s[i].l == Before(s, i)
  }

  function Without(s: seq<PoolNode>, i: nat): (t: seq<PoolNode>)
    requires i < |s|
    ensures |t| == |s| - 1
    ensures forall k :: 0 <= k < |t| ==> t[k] == s[if k < i then k else k + 1]
  {
    s[..i] + s[i + 1..]
  }

  /** The neighbours of a node once another one is taken out. */
  lemma Neighbours(s: seq<PoolNode>, i: nat, k: nat)
    requires i < |s| && k < |s| - 1
    ensures var t, k0 := Without(s, i), if k < i then k else k + 1;
            && After(t, k) == (if k + 1 == i then After(s, i) else After(s, k0))
            && Before(t, k) == (if k == i then Before(s, i) else Before(s, k0))
  {
  }

  class PageList {
    var left: PoolNode?
    var right: PoolNode?
    var size: nat
    ghost var nodes: seq<PoolNode>

    ghost predicate Valid()
      reads this, nodes`l, nodes`r
    {
      && size == |nodes|
      && left == (if nodes == [] then null else nodes[0])
      && right == (if nodes == [] then null else nodes[|nodes| - 1])
      && Distinct(nodes) && Lefts(nodes) && Rights(nodes)
    }

    constructor ()
      ensures Valid() && nodes == []
    {
      left, right, size, nodes := null, null, 0, [];
    }

    /** _myPoolRightPush. */
    method RightPush(newNode: PoolNode)
      requires Valid() && newNode !in nodes
      modifies this, newNode`l, newNode`r, nodes`r
      ensures Valid() && nodes == old(nodes) + [newNode]
    {
      newNode.l := null;
      newNode.r := null;
      if right != null {
        newNode.l := right;
        right.r := newNode;
      }
      right := newNode;
      size := size + 1;
      if size == 1 {
        left := right;
      }
      nodes := nodes + [newNode];
    }

    /** _myPoolLeftPopNode. */
    method LeftPopNode() returns (leftNode: PoolNode?)
      requires Valid()
      modifies this, nodes`l, nodes`r
      ensures Valid()
      ensures old(nodes) == [] ==> leftNode == null && nodes == []
      ensures old(nodes) != [] ==> leftNode == old(nodes)[0] && nodes == old(nodes)[1..] && leftNode !in nodes
    {
      leftNode := left;
      if leftNode == null {
        return;
      }
      left := left.r;
      leftNode.l := null;
      leftNode.r := null;
      if left != null {
        left.l := null;
      }
      size := size - 1;
      if size == 0 {
        right := null;
      }
      nodes := nodes[1..];
    }

    /** Pointer surgery of _myPoolMidlePop on the links to the right. */
    method BypassRight(node: PoolNode, ghost i: nat)
      requires Distinct(nodes) && Rights(nodes) && i < |nodes| && nodes[i] == node && node.l == Before(nodes, i)
      modifies `left, nodes`r
      ensures left == (if i == 0 then After(nodes, 0) else old(left))
      ensures node.r == After(nodes, i)
      ensures forall k :: 0 <= k < |nodes| && k != i ==>
                nodes[k].r == (if k + 1 == i then After(nodes, i) else After(nodes, k))
    {
      if node.l != null {
        node.l.r := node.r;
      } else {
        left := node.r;
      }
    }

    /** Pointer surgery of _myPoolMidlePop on the links to the left. */
    method BypassLeft(node: PoolNode, ghost i: nat)
      requires Distinct(nodes) && Lefts(nodes) && i < |nodes| && nodes[i] == node && node.r == After(nodes, i)
      modifies `right, nodes`l
      ensures right == (if i + 1 == |nodes| then Before(nodes, i) else old(right))
      ensures node.l == Before(nodes, i)
      ensures forall k :: 0 <= k < |nodes| && k != i ==>
                nodes[k].l == (if k == i + 1 then Before(nodes, i) else Before(nodes, k))
    {
      if node.r != null {
        node.r.l := node.l;
      } else {
        right := node.l;
      }
    }

    /** The unlinking part of _myPoolMidlePop; i is where the node stands. */
    method Unlink(node: PoolNode, ghost i: nat)
      requires Valid() && i < |nodes| && nodes[i] == node
      modifies this, nodes`l, nodes`r
      ensures Valid() && nodes == Without(old(nodes), i)
    {
      hide After, Before, Without;
      ghost var all := nodes;
      BypassRight(node, i);
      BypassLeft(node, i);
      node.l := null;
      node.r := null;
      size := size - 1;
      nodes := Without(all, i);
      forall k | 0 <= k < |nodes|
        ensures nodes[k].r == After(nodes, k) && nodes[k].l == Before(nodes, k)
      {
        Neighbours(all, i, k);
      }
      assert Lefts(nodes) && Rights(nodes);
      Ends(all, i);
    }
  }

  lemma Ends(s: seq<PoolNode>, i: nat)
    requires i < |s|
    ensures var t := Without(s, i);
            && (t == [] ==> After(s, i) == null && Before(s, i) == null)
            && (t != [] ==> t[0] == (if i == 0 then After(s, 0) else s[0]))
            && (t != [] ==> t[|t| - 1] == (if i + 1 == |s| then Before(s, i) else s[|s| - 1]))
  {
  }
}
