/** The fixed-capacity byte ring of hg_buf.cpp. */
module RingBuffers {
  import opened Bytes

  /** Position `p` brought back into a ring of capacity `cap`. */
  function Wrap(p: nat, cap: nat): nat
  {
    if p >= cap then p - cap else p
  }

  /** The `n` bytes met when walking the ring `d` from position `from`. */
  function Cyclic(d: seq<byte>, from: nat, n: nat): (r: seq<byte>)
    requires from < |d| && n <= |d|
    ensures |r| == n
  {
    if from + n <= |d| then d[from..from + n] else d[from..] + d[..from + n - |d|]
  }

  /** The ring `d` after `src` is written cyclically from position `at`. */
  function Put(d: seq<byte>, at: nat, src: seq<byte>): (r: seq<byte>)
    requires at < |d| && |src| <= |d|
    ensures |r| == |d|
  {
    if at + |src| <= |d|
    then d[..at] + src + d[at + |src|..]
    else src[|d| - at..] + d[at + |src| - |d|..at] + src[..|d| - at]
  }

  /** A cyclic walk of a + b bytes is a walk of a bytes followed by one of b bytes. */
  lemma CyclicSplit(d: seq<byte>, from: nat, a: nat, b: nat)
    requires from < |d| && a + b <= |d|
    ensures Wrap(from + a, |d|) < |d|
    ensures Cyclic(d, from, a + b) == Cyclic(d, from, a) + Cyclic(d, Wrap(from + a, |d|), b)
  {
    hide Cyclic;
    var at := Wrap(from + a, |d|);
    CyclicParts(d, from, a + b);
    CyclicParts(d, from, a);
    CyclicParts(d, at, b);
    if from + a + b <= |d| {
      assert d[from..from + a + b] == d[from..from + a] + d[from + a..from + a + b];
    } else if from + a < |d| {
      assert d[from..] == d[from..from + a] + d[from + a..];
    } else {
      assert d[..from + a + b - |d|] == d[..from + a - |d|] + d[from + a - |d|..from + a + b - |d|];
    }
  }

  lemma CyclicParts(d: seq<byte>, from: nat, n: nat)
    requires from < |d| && n <= |d|
    ensures from + n <= |d| ==> Cyclic(d, from, n) == d[from..from + n]
    ensures from + n >= |d| ==> Cyclic(d, from, n) == d[from..] + d[..from + n - |d|]
  {
  }

  /** Prefix and suffix of a cyclic walk. */
  lemma CyclicCut(d: seq<byte>, from: nat, n: nat, len: nat)
    requires from < |d| && n <= len <= |d|
    ensures Wrap(from + n, |d|) < |d|
    ensures Cyclic(d, from, n) == Cyclic(d, from, len)[..n]
    ensures Cyclic(d, Wrap(from + n, |d|), len - n) == Cyclic(d, from, len)[n..]
  {
    CyclicSplit(d, from, n, len - n);
  }

  /** Writing behind the `n` bytes that start at `from` appends to them. */
  lemma PutAppends(d: seq<byte>, from: nat, n: nat, src: seq<byte>)
    requires from < |d| && n + |src| <= |d| && Wrap(from + n, |d|) < |d|
    ensures var d' := Put(d, Wrap(from + n, |d|), src);
            Cyclic(d', from, n + |src|) == Cyclic(d, from, n) + src
  {
    var at := Wrap(from + n, |d|);
    var d' := Put(d, at, src);
    hide Cyclic, Put;
    CyclicSplit(d', from, n, |src|);
    PutReadBack(d, at, src);
    PutElsewhere(d, from, n, src);
  }

  lemma PutReadBack(d: seq<byte>, at: nat, src: seq<byte>)
    requires at < |d| && |src| <= |d|
    ensures Cyclic(Put(d, at, src), at, |src|) == src
  {
  }

  lemma PutElsewhere(d: seq<byte>, from: nat, n: nat, src: seq<byte>)
    requires from < |d| && n + |src| <= |d| && Wrap(from + n, |d|) < |d|
    ensures Cyclic(Put(d, Wrap(from + n, |d|), src), from, n) == Cyclic(d, from, n)
  {
  }

  /** A write that stops at the end of the storage and goes on at its beginning is one cyclic write. */
  lemma PutWraps(d: seq<byte>, at: nat, src: seq<byte>, total: nat)
    requires at < |d| && |d| - at <= total <= |src| && total <= |d|
    ensures Put(Put(d, at, src[..|d| - at]), 0, src[|d| - at..total]) == Put(d, at, src[..total])
  {
    hide Put;
    var first := |d| - at;
    var head, tail := src[..first], src[first..total];
    PutParts(d, at, head);
    PutParts(d, at, src[..total]);
    PutParts(d[..at] + head, 0, tail);
    assert src[..total][first..] == tail && src[..total][..first] == head;
    assert (d[..at] + head)[|tail|..] == d[|tail|..at] + head;
  }

  lemma PutParts(d: seq<byte>, at: nat, src: seq<byte>)
    requires at < |d| && |src| <= |d|
    ensures at + |src| < |d| ==> Put(d, at, src) == d[..at] + src + d[at + |src|..]
    ensures at + |src| == |d| ==> Put(d, at, src) == d[..at] + src
    ensures at + |src| >= |d| ==> Put(d, at, src) == src[|d| - at..] + d[at + |src| - |d|..at] + src[..|d| - at]
  {
  }

  class RingBuffer {
    const data: array<byte>
    const cap: nat
    var start: nat
    var end: nat
    var len: nat

    ghost predicate Valid()
      reads this
    {
      && 0 < cap == data.Length
      && start < cap && len <= cap
      && end == Wrap(start + len, cap)
    }

    ghost function Contents(): (s: seq<byte>)
      requires Valid()
      reads this, data
      ensures |s| == len
    {
      Cyclic(data[..], start, len)
    }

    constructor (capacity: nat)
      requires 0 < capacity
      ensures Valid() && fresh(data) && cap == capacity && Contents() == []
    {
      data := new byte[capacity];
      cap := capacity;
      start, end, len := 0, 0, 0;
    }

    /** memcpy into the ring's storage. */
    method Copy(at: nat, src: seq<byte>)
      requires at < data.Length && at + |src| <= data.Length
      modifies data
      ensures data[..] == Put(old(data[..]), at, src)
    {
      forall k | 0 <= k < |src| {
        data[at + k] := src[k];
      }
    }

    /** The copying part of WriteN: fills the free space behind `end`, around the end of the storage if need be. */
    method CopyIn(src: seq<byte>) returns (total: nat)
      requires Valid() && len < cap
      modifies data, `end
      ensures total == if |src| <= cap - len then |src| else cap - len
      ensures data[..] == Put(old(data[..]), old(end), src[..total])
      ensures end == Wrap(old(end) + total, cap)
    {
      hide Put;
      ghost var before := data[..];
      var n := |src|;
      if start <= end {
        if cap - end >= n {
          Copy(end, src);
          total := n;
          end := if end + n >= cap then end + n - cap else end + n;
          assert src == src[..total];
        } else {
          var first := cap - end;
          Copy(end, src[..first]);
          var second := if start >= n - first then n - first else start;
          total := first + second;
          Copy(0, src[first..total]);
          PutWraps(before, end, src, total);
          end := second;
        }
      } else {
        total := if start - end > n then n else start - end;
        Copy(end, src[..total]);
        end := end + total;
      }
    }

    /** Appends as much of `src` as fits. */
    method WriteN(src: seq<byte>) returns (total: nat)
      requires Valid()
      modifies this, data
      ensures Valid() && start == old(start)
      ensures total == if |src| <= cap - old(len) then |src| else cap - old(len)
      ensures Contents() == old(Contents()) + src[..total]
    {
      hide Cyclic, Put;
      if len == cap {
        assert Contents() == Contents() + src[..0];
        return 0;
      }
      total := CopyIn(src);
      PutAppends(old(data[..]), start, len, src[..total]);
      len := len + total;
    }

    /** memcpy of the oldest `n` bytes out of the ring, which may lie around its end. */
    method CopyOut(n: nat) returns (dist: seq<byte>)
      requires Valid() && n <= len && 0 < len
      ensures dist == Cyclic(data[..], start, n)
    {
      var d := data[..];
      if start >= end && cap - start < n {
        dist := d[start..] + d[..n - (cap - start)];
      } else {
        dist := d[start..start + n];
      }
    }

    /** Reads the oldest `n` bytes and drops the oldest `skip` of them. */
    method ReadN(n: nat, skip: nat) returns (ok: bool, dist: seq<byte>)
      requires Valid() && skip <= n
      modifies this
      ensures Valid()
      ensures ok <==> n <= old(len) && old(len) != 0
      ensures !ok ==> start == old(start) && len == old(len)
      ensures ok ==> dist == old(Contents())[..n] && Contents() == old(Contents())[skip..]
      ensures ok ==> start == Wrap(old(start) + skip, cap)
    {
      hide Cyclic;
      if len < n || len == 0 {
        return false, [];
      }
      CyclicCut(data[..], start, n, len);
      CyclicCut(data[..], start, skip, len);
      dist := CopyOut(n);
      start := if start + skip >= cap then start + skip - cap else start + skip;
      len := len - skip;
      ok := true;
    }

    /** Takes back the `n` bytes read last, which the storage still holds. */
    method Rewind(n: nat, ghost was: seq<byte>)
      requires Valid() && 0 < n && len + n <= cap
      requires |was| == n && was == Cyclic(data[..], if start >= n then start - n else cap - (n - start), n)
      modifies this
      ensures Valid()
      ensures Contents() == was + old(Contents())
      ensures Wrap(start + n, cap) == old(start)
    {
      hide Cyclic;
      if start >= n {
        start := start - n;
      } else {
        start := cap - (n - start);
      }
      len := len + n;
      CyclicSplit(data[..], start, n, old(len));
    }
  }
}
