/** Emulation prevention in H.264 NAL units (h264_nal.c; sections 7.3.1 and 7.4.1 of ITU-T H.264). */
module Nals {
  import opened Bytes

  /** How many of the last two bytes seen are zeros, counted back from here, after one more byte. */
  function Next(count: nat, b: byte): nat
  {
    if b == 0 then count + 1 else 0
  }

  /** The encapsulation of section 7.4.1: a 3 goes before a byte below 4 behind two zeros. */
  function Escape(r: seq<byte>, count: nat): seq<byte>
  {
    if r == [] then []
    else if count == 2 && r[0] <= 3 then [3, r[0]] + Escape(r[1..], Next(0, r[0]))
    else [r[0]] + Escape(r[1..], Next(count, r[0]))
  }

  /** A whole unit: one more 3 goes behind a final zero. */
  function Encapsulated(r: seq<byte>): seq<byte>
  {
    Escape(r, 0) + if r != [] && r[|r| - 1] == 0 then [3] else []
  }

  /** What nal_to_rbsp makes of the rest of its input: where it stops, what it has copied, and whether it is about to
      copy the byte behind the input. */
  datatype Scanned = Scanned(consumed: nat, out: seq<byte>, past: bool)

  function Emit(b: byte, rest: Scanned): Scanned
  {
    rest.(out := [b] + rest.out)
  }

  function Scan(s: seq<byte>, i: nat, count: nat): (r: Scanned)
    requires i <= |s|
    ensures i <= r.consumed <= |s|
    decreases |s| - i
  {
    if i == |s| || (count == 2 && s[i] < 3) then Scanned(i, [], false)
    else if count == 2 && s[i] == 3 then
      if i == |s| - 1 then Scanned(|s|, [], true)
      else if s[i + 1] > 3 then Scanned(i, [], false)
      else Emit(s[i + 1], Scan(s, i + 2, Next(0, s[i + 1])))
    else Emit(s[i], Scan(s, i + 1, Next(count, s[i])))
  }

  /** The outcome of a call: -1 for want of room, a read behind the input, or the sizes it reports. */
  datatype Outcome = Done(nalSize: nat, rbspSize: nat) | NoSpace | PastEnd

  /** Two zeros stand before position i. */
  predicate ZerosBefore(s: seq<byte>, i: nat)
    requires i <= |s|
  {
    i >= 2 && s[i - 2] == 0 && s[i - 1] == 0
  }

  /** Nothing in a byte stream that has been escaped looks like this. */
  predicate Forbidden(s: seq<byte>, i: nat)
    requires i < |s|
  {
    ZerosBefore(s, i) && (s[i] < 3 || (s[i] == 3 && i + 1 < |s| && s[i + 1] > 3))
  }

  /** The input ends in 00 00 03. */
  predicate EndsEscaped(s: seq<byte>)
  {
    |s| > 0 && ZerosBefore(s, |s| - 1) && s[|s| - 1] == 3
  }

  function Zeros(s: seq<byte>, i: nat): nat
    requires i <= |s|
  {
    if i == 0 || s[i - 1] != 0 then 0 else if i == 1 || s[i - 2] != 0 then 1 else 2
  }

  /** It stops exactly at the first forbidden place, or else at the end; and the latter with a read behind the input
      exactly when the input ends in 00 00 03. */
  lemma {:induction false} StopsAtForbidden(s: seq<byte>, i: nat, count: nat)
    requires i <= |s| && count == Zeros(s, i)
    ensures var r := Scan(s, i, count);
            (forall x: nat :: i <= x < r.consumed ==> !Forbidden(s, x))
            && (r.consumed < |s| ==> Forbidden(s, r.consumed) && !r.past)
            && (r.consumed == |s| && i < |s| ==> (r.past <==> EndsEscaped(s)))
            && (i == |s| ==> !r.past)
    decreases |s| - i
  {
    if i < |s| && !(count == 2 && s[i] < 3) {
      if count == 2 && s[i] == 3 {
        if i + 1 < |s| && s[i + 1] <= 3 {
          StopsAtForbidden(s, i + 2, Next(0, s[i + 1]));
        }
      } else {
        StopsAtForbidden(s, i + 1, Next(count, s[i]));
      }
    }
  }

  /** The byte behind the input is read exactly for input that ends in 00 00 03 and has no forbidden place. */
  lemma {:induction false} PastExactly(s: seq<byte>)
    ensures Scan(s, 0, 0).past <==> EndsEscaped(s) && forall x: nat :: x < |s| ==> !Forbidden(s, x)
  {
    StopsAtForbidden(s, 0, 0);
  }

  /** The shortest such input. */
  lemma PastAtThree()
    ensures Scan([0, 0, 3], 0, 0).past
  {
    var s: seq<byte> := [0, 0, 3];
    assert Scan(s, 2, 2).past;
    assert Scan(s, 1, 1).past;
  }

  /** Escaping what was copied gives back what was consumed; a read behind the input leaves out its last 3. */
  lemma {:induction false} EscapesBack(s: seq<byte>, i: nat, count: nat)
    requires i <= |s| && count <= 2
    ensures var r := Scan(s, i, count);
            s[i..r.consumed] == Escape(r.out, count) + if r.past then [3] else []
    decreases |s| - i
  {
    hide Escape, Scan;
    ScanUnfolds(s, i, count);
    EscapeNone(count);
    if i < |s| && !(count == 2 && s[i] < 3) {
      if count == 2 && s[i] == 3 {
        if i + 1 < |s| && s[i + 1] <= 3 {
          var rest := Scan(s, i + 2, Next(0, s[i + 1]));
          EscapesBack(s, i + 2, Next(0, s[i + 1]));
          EscapeCons(s[i + 1], rest.out, count);
          assert s[i..i + 2] == [3, s[i + 1]];
          Glued(s, i, i + 2, rest.consumed, Escape(rest.out, Next(0, s[i + 1])), if rest.past then [3] else []);
        } else if i + 1 == |s| {
          assert s[i..] == [3];
        }
      } else {
        var rest := Scan(s, i + 1, Next(count, s[i]));
        EscapesBack(s, i + 1, Next(count, s[i]));
        EscapeCons(s[i], rest.out, count);
        assert s[i..i + 1] == [s[i]];
        Glued(s, i, i + 1, rest.consumed, Escape(rest.out, Next(count, s[i])), if rest.past then [3] else []);
      }
    }
  }

  lemma {:induction false} EscapeNone(count: nat)
    ensures Escape([], count) == []
  {
  }

  lemma ScanUnfolds(s: seq<byte>, i: nat, count: nat)
    requires i <= |s|
    ensures i == |s| || (count == 2 && s[i] < 3) ==> Scan(s, i, count) == Scanned(i, [], false)
    ensures i == |s| - 1 && count == 2 && s[i] == 3 ==> Scan(s, i, count) == Scanned(|s|, [], true)
    ensures i < |s| - 1 && count == 2 && s[i] == 3 ==>
              Scan(s, i, count) == if s[i + 1] > 3 then Scanned(i, [], false)
                                   else Emit(s[i + 1], Scan(s, i + 2, Next(0, s[i + 1])))
    ensures i < |s| && !(count == 2 && s[i] <= 3) ==>
              Scan(s, i, count) == Emit(s[i], Scan(s, i + 1, Next(count, s[i])))
  {
  }

  lemma {:induction false} EscapeCons(b: byte, r: seq<byte>, count: nat)
    ensures Escape([b] + r, count) == if count == 2 && b <= 3 then [3, b] + Escape(r, Next(0, b))
            else [b] + Escape(r, Next(count, b))
  {
    assert ([b] + r)[1..] == r;
  }

  lemma Glued(s: seq<byte>, i: nat, m: nat, n: nat, e: seq<byte>, t: seq<byte>)
    requires i <= m <= n <= |s| && s[m..n] == e + t
    ensures s[i..n] == s[i..m] + e + t
  {
    assert s[i..n] == s[i..m] + s[m..n];
  }

  /** Unescaping an escaped byte string consumes all of it and gives the string back. */
  lemma {:induction false} Unescapes(s: seq<byte>, i: nat, count: nat, r: seq<byte>)
    requires i <= |s| && count <= 2 && s[i..] == Escape(r, count)
    ensures Scan(s, i, count) == Scanned(|s|, r, false)
    decreases |r|
  {
    if r != [] {
      assert r == [r[0]] + r[1..];
      if count == 2 && r[0] <= 3 {
        assert s[i] == s[i..][0] && s[i + 1] == s[i..][1];
        assert s[i + 2..] == s[i..][2..] == Escape(r[1..], Next(0, r[0]));
        Unescapes(s, i + 2, Next(0, r[0]), r[1..]);
      } else {
        assert s[i] == s[i..][0];
        assert s[i + 1..] == s[i..][1..] == Escape(r[1..], Next(count, r[0]));
        Unescapes(s, i + 1, Next(count, r[0]), r[1..]);
      }
    }
  }

  /** With a 3 behind it, it either reads behind the input or takes the 3 for a byte of the string. */
  lemma {:induction false} TailGoesWrong(s: seq<byte>, i: nat, count: nat, r: seq<byte>)
    requires i <= |s| && count <= 2 && s[i..] == Escape(r, count) + [3]
    ensures Scan(s, i, count) == Scanned(|s|, r, true) || Scan(s, i, count) == Scanned(|s|, r + [3], false)
    decreases |r|
  {
    if r == [] {
      assert s[i] == s[i..][0] && |s| == i + |s[i..]| == i + 1;
      assert r + [3] == [3];
    } else {
      assert r == [r[0]] + r[1..] && r + [3] == [r[0]] + (r[1..] + [3]);
      if count == 2 && r[0] <= 3 {
        assert s[i] == s[i..][0] && s[i + 1] == s[i..][1];
        assert s[i + 2..] == s[i..][2..] == Escape(r[1..], Next(0, r[0])) + [3];
        TailGoesWrong(s, i + 2, Next(0, r[0]), r[1..]);
      } else {
        assert s[i] == s[i..][0];
        assert s[i + 1..] == s[i..][1..] == Escape(r[1..], Next(count, r[0])) + [3];
        TailGoesWrong(s, i + 1, Next(count, r[0]), r[1..]);
      }
    }
  }

  /** Unescaping inverts the standard's encapsulation exactly for the byte strings that do not end in a zero. */
  lemma InverseExactly(r: seq<byte>)
    ensures Scan(Encapsulated(r), 0, 0) == Scanned(|Encapsulated(r)|, r, false) <==> r == [] || r[|r| - 1] != 0
  {
    var s := Encapsulated(r);
    assert s[0..] == s;
    if r == [] || r[|r| - 1] != 0 {
      assert s == Escape(r, 0);
      Unescapes(s, 0, 0, r);
    } else {
      TailGoesWrong(s, 0, 0, r);
    }
  }

  /** An escaped byte string has no forbidden place. */
  lemma {:induction false} EscapedIsClean(r: seq<byte>)
    ensures forall x: nat :: x < |Escape(r, 0)| ==> !Forbidden(Escape(r, 0), x)
  {
    var s := Escape(r, 0);
    assert s[0..] == s;
    Unescapes(s, 0, 0, r);
    StopsAtForbidden(s, 0, 0);
  }

  /** What a call reports, given the result of the whole scan. */
  function Reported(r: Scanned, rbspSize: nat): Outcome
  {
    if rbspSize < |r.out| || (rbspSize == |r.out| && r.past) then NoSpace
    else if r.past then PastEnd
    else Done(r.consumed, |r.out|)
  }

  /** A buffer is large enough exactly if it holds the string that was encapsulated; and then both sizes are reported.
      */
  lemma SpaceExactly(r: seq<byte>, room: nat)
    requires r == [] || r[|r| - 1] != 0
    ensures var s := Encapsulated(r);
            Reported(Scan(s, 0, 0), room) == if room >= |r| then Done(|s|, |r|) else NoSpace
  {
    InverseExactly(r);
    hide Scan, Encapsulated;
  }

  /** Of any input: a call runs out of room, or reads behind the input, or reports how far it came. */
  lemma {:induction false} OutcomeExactly(s: seq<byte>, room: nat)
    ensures var o, r := Reported(Scan(s, 0, 0), room), Scan(s, 0, 0);
            && (o == PastEnd <==> room > |r.out| && EndsEscaped(s) && forall x: nat :: x < |s| ==> !Forbidden(s, x))
            && (o.Done? <==> room >= |r.out| && !(EndsEscaped(s) && forall x: nat :: x < |s| ==> !Forbidden(s, x)))
            && (o.Done? ==> o.nalSize == r.consumed && o.rbspSize == |r.out|)
  {
    PastExactly(s);
    hide Scan, Forbidden, EndsEscaped;
  }

  /** The buffer has as much of the copied bytes as there is room for, and is otherwise as before. */
  ghost predicate CopiedInto(out: seq<byte>, before: seq<byte>, after: seq<byte>, room: nat)
    requires room <= |before|
  {
    var n := Min(room, |out|);
    |after| == |before| && after[..n] == out[..n] && after[n..] == before[n..]
  }

  method Put(buf: array<byte>, j: nat, b: byte)
    requires j < buf.Length
    modifies buf
    ensures buf[..j + 1] == old(buf[..j]) + [b]
    ensures buf[j + 1..] == old(buf[j + 1..])
  {
    buf[j] := b;
  }

  /** nal_to_rbsp. */
  method NalToRbsp(nalBuf: seq<byte>, rbspBuf: array<byte>, rbspSize: nat) returns (outcome: Outcome)
    requires rbspSize <= rbspBuf.Length
    modifies rbspBuf
    ensures outcome == Reported(Scan(nalBuf, 0, 0), rbspSize)
    ensures CopiedInto(Scan(nalBuf, 0, 0).out, old(rbspBuf[..]), rbspBuf[..], rbspSize)
  {
    hide Scan, Emit, Before;
    ghost var before := rbspBuf[..];
    ghost var whole := Scan(nalBuf, 0, 0);
    NothingBefore(whole);
    var i, j, count := 0, 0, 0;
    while i < |nalBuf|
      invariant i <= |nalBuf| && j <= rbspSize && count <= 2
      invariant whole == Before(rbspBuf[..j], Scan(nalBuf, i, count))
      invariant rbspBuf[j..] == before[j..]
    {
      ScanOne(nalBuf, i, count, rbspBuf[..j]);
      if count == 2 && nalBuf[i] < 3 {
        break;
      }
      if count == 2 && nalBuf[i] == 3 {
        if i < |nalBuf| - 1 && nalBuf[i + 1] > 3 {
          break;
        }
        i := i + 1;
        count := 0;
      }
      if j >= rbspSize {
        return NoSpace;
      }
      if i == |nalBuf| {
        return PastEnd;
      }
      Put(rbspBuf, j, nalBuf[i]);
      count := if nalBuf[i] == 0 then count + 1 else 0;
      j := j + 1;
      i := i + 1;
    }
    ScanStops(nalBuf, i, count, rbspBuf[..j]);
    outcome := Done(i, j);
  }

  lemma NothingBefore(r: Scanned)
    ensures Before([], r) == r
  {
    assert [] + r.out == r.out;
  }

  /** One step of the scan, behind what has been copied: a byte is copied, unless this is where it reads on or stops. */
  lemma ScanOne(s: seq<byte>, i: nat, count: nat, copied: seq<byte>)
    requires i < |s|
    ensures var escaped := count == 2 && s[i] == 3;
            var from := if escaped then i + 1 else i;
            var r := Before(copied, Scan(s, i, count));
            if from == |s| then r == Scanned(|s|, copied, true)
            else !(count == 2 && s[i] < 3) && !(escaped && s[from] > 3) ==>
              r == Before(copied + [s[from]], Scan(s, from + 1, Next(if escaped then 0 else count, s[from])))
              && copied + [s[from]] <= r.out
  {
    assert copied + [] == copied;
    var escaped := count == 2 && s[i] == 3;
    var from := if escaped then i + 1 else i;
    if from < |s| && !(count == 2 && s[i] < 3) && !(escaped && s[from] > 3) {
      var rest := Scan(s, from + 1, Next(if escaped then 0 else count, s[from]));
      assert copied + ([s[from]] + rest.out) == copied + [s[from]] + rest.out;
    }
  }

  lemma {:induction false} ScanStops(s: seq<byte>, i: nat, count: nat, copied: seq<byte>)
    requires i <= |s| && (i < |s| ==> count == 2 && (s[i] < 3 || (s[i] == 3 && i + 1 < |s| && s[i + 1] > 3)))
    ensures Before(copied, Scan(s, i, count)) == Scanned(i, copied, false)
  {
    assert copied + [] == copied;
  }

  /** What was copied before, in front of what the rest of a scan copies. */
  ghost function Before(copied: seq<byte>, rest: Scanned): Scanned
  {
    rest.(out := copied + rest.out)
  }
}
