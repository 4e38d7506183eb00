/** Media frames: chains of buffers, and CreateFrameStr, which slices a payload into one. */
module Frames {
  import opened Bytes
  import opened RtpPackets

  /** hg_Buf_Gen_t as a piece of a frame: `len` bytes of `data` from `start`.
      Once filled it is only read, so a finished buffer is a value here. */
  datatype FrameBuf = FrameBuf(data: seq<byte>, start: nat, len: nat) {
    predicate Fits()
    {
      start + len <= |data|
    }

    function Body(): seq<byte>
      requires Fits()
    {
      data[start..start + len]
    }
  }

  /** The chain `hct` holds `bodies`, piece by piece. */
  ghost predicate Holds(hct: seq<FrameBuf>, bodies: seq<seq<byte>>)
  {
    && |hct| == |bodies|
    && forall i :: 0 <= i < |hct| ==> hct[i].Fits() && hct[i].Body() == bodies[i]
  }

  lemma HoldsAt(hct: seq<FrameBuf>, bodies: seq<seq<byte>>, i: nat)
    requires Holds(hct, bodies) && i < |hct|
    ensures i < |bodies| && hct[i].Fits() && hct[i].Body() == bodies[i]
  {
  }

  /** The pieces of at most `ssize` bytes a payload is cut into. */
  function Slices(data: seq<byte>, ssize: nat): (r: seq<seq<byte>>)
    requires 0 < ssize
  {
    if data == [] then []
    else if |data| <= ssize then [data]
    else [data[..ssize]] + Slices(data[ssize..], ssize)
  }

  /** Slicing loses and reorders nothing, and makes no piece empty or too long. */
  lemma {:induction false} SlicesFlatten(data: seq<byte>, ssize: nat)
    requires 0 < ssize
    ensures Flatten(Slices(data, ssize)) == data
    ensures forall p :: p in Slices(data, ssize) ==> 0 < |p| <= ssize
  {
    if |data| > ssize {
      SlicesFlatten(data[ssize..], ssize);
      assert data == data[..ssize] + data[ssize..];
    } else if data != [] {
      assert Flatten([data]) == data;
    }
  }

  lemma {:induction false} SlicesStep(data: seq<byte>, from: nat, ssize: nat)
    requires 0 < ssize && from < |data|
    ensures var n := if |data| - from > ssize then ssize else |data| - from;
            Slices(data[from..], ssize) == [data[from..from + n]] + Slices(data[from + n..], ssize)
  {
    var rest := data[from..];
    var n := if |rest| > ssize then ssize else |rest|;
    assert rest[..n] == data[from..from + n] && rest[n..] == data[from + n..];
    if |rest| <= ssize {
      assert rest[..n] == rest && data[from + n..] == [];
    }
  }

  /** The header CreateFrameStr leaves in front of the first piece, as far as its bits go. SendData fills in the same
      fields, and then the number and the tag of each packet. */
  function FrameHeader(isfirst: bool, comptype: int, cmdtype: int, pltype: int, time: nat, ssrc: nat): Header
  {
    Header(if isfirst then 1 else 0, comptype % 2, cmdtype % 8, 0, pltype % 8, 0, time, ssrc)
  }

  /** Read with the getters, each argument is found in its own field. */
  lemma FrameHeaderRead(isfirst: bool, comptype: int, cmdtype: int, pltype: int, time: nat, ssrc: nat)
    requires time < 0x1_0000 && ssrc < 0x1_0000_0000
    ensures var d := Encode(FrameHeader(isfirst, comptype, cmdtype, pltype, time, ssrc));
            && PktFirst(d) == (if isfirst then 1 else 0) && PktComp(d) == comptype % 2 && PktCmd(d) == cmdtype % 8
            && PktPayloadType(d) == pltype % 8 && PktTimestamp(d) == time && PktSsrc(d) == ssrc
            && PktFlag(d) == 0 && PktSeq(d) == 0
  {
    hide Encode, PktSeq, PktCmd, PktFlag, PktFirst, PktComp, PktPayloadType, PktTimestamp, PktSsrc;
    HeaderRoundTrip(FrameHeader(isfirst, comptype, cmdtype, pltype, time, ssrc));
  }

  /** The first buffer of a chain carries the header `h`; the others have no room in front. */
  ghost predicate Headed(hct: seq<FrameBuf>, h: Header)
  {
    && (hct != [] ==> HEADSIZE == hct[0].start <= |hct[0].data| && hct[0].data[..HEADSIZE] == Encode(h))
    && (forall i :: 0 < i < |hct| ==> hct[i].start == 0)
  }

  /** The chain `hct` is cut like the slices of a payload. */
  ghost predicate Shaped(hct: seq<FrameBuf>, slices: seq<seq<byte>>)
  {
    && |hct| == |slices|
    && forall i :: 0 <= i < |hct| ==> hct[i].Fits() && hct[i].len == |slices[i]|
  }

  /** Builds the chain of a frame and returns its size, header included. Without data the pieces are only laid out, for
      any payload of that size, and hold whatever bytes the memory had. */
  method CreateFrameStr(ssrc: nat, pltype: int, isfirst: bool, cmdtype: int, time: nat, data: Option<seq<byte>>,
                        size: nat, ssize: nat, comptype: int, ghost payload: seq<byte>)
    returns (hct: seq<FrameBuf>, total: nat)
    requires 0 < ssize && |payload| == size && (data.Some? ==> data.value == payload)
    ensures Shaped(hct, Slices(payload, ssize)) && (data.Some? ==> Holds(hct, Slices(payload, ssize)))
    ensures Headed(hct, FrameHeader(isfirst, comptype, cmdtype, pltype, time, ssrc))
    ensures total == size + HEADSIZE
  {
    hide Slices, FrameBuf.Body, Encode;
    var h := FrameHeader(isfirst, comptype, cmdtype, pltype, time, ssrc);
    var tosize := size;
    hct := [];
    ghost var done: seq<seq<byte>> := [];
    SlicesEnds(payload, ssize);
    while tosize != 0
      invariant 0 <= tosize <= size && (tosize == size <==> hct == [])
      invariant Shaped(hct, done) && (data.Some? ==> Holds(hct, done)) && Headed(hct, h)
      invariant Slices(payload, ssize) == done + Slices(payload[size - tosize..], ssize)
      decreases tosize
    {
      var tmpsize := if tosize > ssize then ssize else tosize;
      SlicesStep(payload, size - tosize, ssize);
      var source := if data.Some? then Some(data.value[size - tosize..size - tosize + tmpsize]) else None;
      var hbgt := MakeBuf(hct == [], source, tmpsize, h);
      hct := hct + [hbgt];
      done := done + [payload[size - tosize..size - tosize + tmpsize]];
      tosize := tosize - tmpsize;
    }
    total := size + HEADSIZE;
  }

  lemma {:induction false} SlicesEnds(data: seq<byte>, ssize: nat)
    requires 0 < ssize
    ensures data[0..] == data && Slices(data[|data|..], ssize) == []
  {
  }

  /** Allocates the buffer of one piece, and fills it if there is data: the first of a frame has the header in front. */
  method MakeBuf(first: bool, piece: Option<seq<byte>>, size: nat, h: Header) returns (b: FrameBuf)
    requires piece.Some? ==> |piece.value| == size
    ensures b.Fits() && b.len == size && (piece.Some? ==> b.Body() == piece.value)
    ensures b.start == if first then HEADSIZE else 0
    ensures first ==> HEADSIZE <= |b.data| && b.data[..HEADSIZE] == Encode(h)
  {
    var start := if first then HEADSIZE else 0;
    var a := new byte[start + size];
    if first {
      RtpPacketHead(a, h);
    }
    if piece.Some? {
      forall k | 0 <= k < size {
        a[start + k] := piece.value[k];
      }
    }
    b := FrameBuf(a[..], start, size);
    assert first ==> a[..][..HEADSIZE] == a[..HEADSIZE];
  }
}
