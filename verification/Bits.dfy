/** Reading bits and Exp-Golomb codes (bs.c; sections 7.2 and 9.1 of ITU-T H.264). */
module BitReaders {
  import opened Bytes

  type Bit = b: int | 0 <= b <= 1

  function Pow2(n: nat): (p: nat)
    ensures p >= 1
  {
    if n == 0 then 1 else 2 * Pow2(n - 1)
  }

  /** v shifted right by n. */
  function Shr(v: nat, n: nat): nat
    decreases n
  {
    if n == 0 then v else Shr(v / 2, n - 1)
  }

  /** The bit at a position, the most significant one of each byte first; behind the end, 0. */
  function BitAt(buf: seq<byte>, pos: nat): Bit
  {
    if pos / 8 < |buf| then Shr(buf[pos / 8], 7 - pos % 8) % 2 else 0
  }

  /** n bits as a number, the first one on top. */
  function Number(buf: seq<byte>, pos: nat, n: nat): (v: nat)
    ensures v < Pow2(n)
  {
    if n == 0 then 0 else 2 * Number(buf, pos, n - 1) + BitAt(buf, pos + n - 1)
  }

  /** How far the reader of a code counts: up to 32 zeros, as long as there is more to read. */
  function ZerosAt(buf: seq<byte>, pos: nat, i: nat): (n: nat)
    requires i <= 32
    ensures i <= n <= 32
    decreases 32 - i
  {
    if BitAt(buf, pos) == 0 && i < 32 && (pos + 1) / 8 < |buf| then ZerosAt(buf, pos + 1, i + 1) else i
  }

  /** A code's value, if it stays within what C defines: with more than 30 zeros the shift 1 << i leaves an int. */
  datatype Code = Value(v: int) | Undefined

  function UeAt(buf: seq<byte>, pos: nat): (c: Code)
    ensures c.Value? ==> c.v >= 0
  {
    var n := ZerosAt(buf, pos, 0);
    if n <= 30 then Value(Number(buf, pos + n + 1, n) + Pow2(n) - 1) else Undefined
  }

  function UeEnd(buf: seq<byte>, pos: nat): nat
  {
    pos + 2 * ZerosAt(buf, pos, 0) + 1
  }

  /** Section 9.1.1: the signed value of a code number. */
  function Signed(v: nat): int
  {
    if v % 2 == 1 then (v + 1) / 2 else -(v / 2)
  }

  function CodeNumber(k: int): nat
  {
    if k > 0 then 2 * k - 1 else -2 * k
  }

  lemma SignedInverse(k: int)
    ensures Signed(CodeNumber(k)) == k
  {
  }

  function SeAt(buf: seq<byte>, pos: nat): Code
  {
    match UeAt(buf, pos)
    case Value(v) => Value(Signed(v))
    case Undefined => Undefined
  }

  /** The reader counts n zeros, or more, exactly when the next n bits are zeros and another byte is not yet used up. */
  lemma {:induction false} CountsExactly(buf: seq<byte>, pos: nat, i: nat, n: nat)
    requires i <= i + n <= 32
    ensures ZerosAt(buf, pos, i) >= i + n <==> n == 0 || ZerosFrom(buf, pos, n)
    decreases n
  {
    hide BitAt;
    if n > 0 {
      CountsExactly(buf, pos + 1, i + 1, n - 1);
    }
  }

  /** The n bits at a position are zeros, and behind them at least one more bit is in the buffer. */
  predicate ZerosFrom(buf: seq<byte>, pos: nat, n: nat)
  {
    pos + n < 8 * |buf| && forall q: nat :: pos <= q < pos + n ==> BitAt(buf, q) == 0
  }

  /** A code has no defined value exactly when it begins with 31 zeros in front of the buffer's last bit. */
  lemma UndefinedExactly(buf: seq<byte>, pos: nat)
    ensures UeAt(buf, pos) == Undefined <==> ZerosFrom(buf, pos, 31)
    ensures SeAt(buf, pos) == Undefined <==> ZerosFrom(buf, pos, 31)
  {
    CountsExactly(buf, pos, 0, 31);
    hide ZerosFrom, ZerosAt, Number;
  }

  /** Four zero bytes are such a buffer. */
  lemma FourZeroBytes()
    ensures UeAt([0, 0, 0, 0], 0) == Undefined
  {
    var buf: seq<byte> := [0, 0, 0, 0];
    forall q: nat | q < 31 ensures BitAt(buf, q) == 0 {
      ShrZero(7 - q % 8);
    }
    UndefinedExactly(buf, 0);
    hide UeAt;
  }

  lemma {:induction false} ShrZero(n: nat)
    ensures Shr(0, n) == 0
    decreases n
  {
    if n > 0 {
      ShrZero(n - 1);
    }
  }

  /** The n low bits of v, the highest one first. */
  function Binary(v: nat, n: nat): (bits: seq<Bit>)
    ensures |bits| == n
  {
    if n == 0 then [] else Binary(v / 2, n - 1) + [v % 2]
  }

  function Log(v: nat): (n: nat)
    requires v > 0
    ensures Pow2(n) <= v < 2 * Pow2(n)
  {
    if v == 1 then 0 else 1 + Log(v / 2)
  }

  function ZeroBits(n: nat): (bits: seq<Bit>)
    ensures |bits| == n
  {
    seq(n, _ => 0)
  }

  /** Section 9.1: the code of v has as many zeros as bits behind its first 1. */
  function UeBits(v: nat): seq<Bit>
  {
    var n := Log(v + 1);
    ZeroBits(n) + [1] + Binary(v + 1 - Pow2(n), n)
  }

  /** The bits stand in the buffer at this position. */
  predicate OnWire(buf: seq<byte>, pos: nat, bits: seq<Bit>)
  {
    pos + |bits| <= 8 * |buf| && forall q: nat :: pos <= q < pos + |bits| ==> BitAt(buf, q) == bits[q - pos]
  }

  lemma OnWireConcat(buf: seq<byte>, pos: nat, a: seq<Bit>, b: seq<Bit>)
    ensures OnWire(buf, pos, a + b) <==> OnWire(buf, pos, a) && OnWire(buf, pos + |a|, b)
  {
    hide BitAt;
    var c := a + b;
    if OnWire(buf, pos, c) {
      forall q: nat | pos <= q < pos + |a| ensures BitAt(buf, q) == a[q - pos] {
        assert BitAt(buf, q) == c[q - pos];
      }
      forall q: nat | pos + |a| <= q < pos + |a| + |b| ensures BitAt(buf, q) == b[q - pos - |a|] {
        assert BitAt(buf, q) == c[q - pos];
      }
    }
  }

  lemma {:induction false} NumberBack(buf: seq<byte>, pos: nat, v: nat, n: nat)
    requires v < Pow2(n) && OnWire(buf, pos, Binary(v, n))
    ensures Number(buf, pos, n) == v
    decreases n
  {
    if n > 0 {
      OnWireConcat(buf, pos, Binary(v / 2, n - 1), [v % 2]);
      hide BitAt, Binary;
      NumberBack(buf, pos, v / 2, n - 1);
      assert BitAt(buf, pos + n - 1) == v % 2;
    }
  }

  lemma {:induction false} ZerosCounted(buf: seq<byte>, pos: nat, i: nat, n: nat)
    requires i + n < 32 && pos + n < 8 * |buf|
    requires forall q: nat :: pos <= q < pos + n ==> BitAt(buf, q) == 0
    requires BitAt(buf, pos + n) == 1
    ensures ZerosAt(buf, pos, i) == i + n
    decreases n
  {
    hide BitAt;
    if n > 0 {
      ZerosCounted(buf, pos + 1, i + 1, n - 1);
    }
  }

  lemma {:induction false} Pow2Grows(m: nat, n: nat)
    requires m <= n
    ensures Pow2(m) <= Pow2(n)
  {
    if m < n { Pow2Grows(m, n - 1); }
  }

  /** The largest code number of 31 bits and more. */
  const MAXUE: nat := 0x7FFF_FFFE

  lemma {:induction false} AtMost30(n: nat, v: nat)
    requires Pow2(n) <= v + 1 && v <= MAXUE
    ensures n <= 30
  {
    assert Pow2(10) == 1024 && Pow2(20) == 1024 * 1024 && Pow2(31) == 0x8000_0000;
    if n > 30 {
      Pow2Grows(31, n);
    }
  }

  lemma ZerosThenOne(buf: seq<byte>, pos: nat, n: nat)
    requires OnWire(buf, pos, ZeroBits(n)) && OnWire(buf, pos + n, [1])
    ensures forall q: nat :: pos <= q < pos + n ==> BitAt(buf, q) == 0
    ensures pos + n < 8 * |buf| && BitAt(buf, pos + n) == 1
  {
    hide BitAt;
    assert BitAt(buf, pos + n) == 1;
  }

  /** A code is read back as its value, and the reader is behind it. */
  lemma UeBack(buf: seq<byte>, pos: nat, v: nat)
    requires v <= MAXUE && OnWire(buf, pos, UeBits(v))
    ensures UeAt(buf, pos) == Value(v) && UeEnd(buf, pos) == pos + |UeBits(v)|
  {
    hide BitAt, Log, Pow2, Binary, OnWire, Number, ZerosAt, ZeroBits;
    var n := Log(v + 1);
    AtMost30(n, v);
    UeParts(buf, pos, n, v + 1 - Pow2(n));
  }

  lemma {:induction false} UeParts(buf: seq<byte>, pos: nat, n: nat, rest: nat)
    requires n <= 30 && rest < Pow2(n)
    requires OnWire(buf, pos, ZeroBits(n) + [1] + Binary(rest, n))
    ensures ZerosAt(buf, pos, 0) == n && Number(buf, pos + n + 1, n) == rest
  {
    var zeros := ZeroBits(n);
    hide BitAt, Pow2, Binary, OnWire, ZerosAt, Number, ZeroBits;
    OnWireConcat(buf, pos, zeros + [1], Binary(rest, n));
    assert ZerosAt(buf, pos, 0) == n by {
      OnWireConcat(buf, pos, zeros, [1]);
      ZerosThenOne(buf, pos, n);
      ZerosCounted(buf, pos, 0, n);
    }
    NumberBack(buf, pos + n + 1, rest, n);
  }

  /** What can be written: code numbers, signed values and plain numbers. */
  datatype Item = Ue(v: nat) | Se(k: int) | U(n: nat, u: nat)

  predicate Writable(item: Item)
  {
    match item
    case Ue(v) => v <= MAXUE
    case Se(k) => CodeNumber(k) <= MAXUE
    case U(n, u) => u < Pow2(n)
  }

  predicate AllWritable(items: seq<Item>)
  {
    items == [] || (Writable(items[0]) && AllWritable(items[1..]))
  }

  function ItemBits(item: Item): seq<Bit>
  {
    match item
    case Ue(v) => UeBits(v)
    case Se(k) => UeBits(CodeNumber(k))
    case U(n, u) => Binary(u, n)
  }

  function AllBits(items: seq<Item>): seq<Bit>
  {
    if items == [] then [] else ItemBits(items[0]) + AllBits(items[1..])
  }

  /** What a caller asks for. */
  datatype Kind = AsUe | AsSe | AsU(n: nat)

  function KindOf(item: Item): Kind
  {
    match item
    case Ue(_) => AsUe
    case Se(_) => AsSe
    case U(n, _) => AsU(n)
  }

  function ValueOf(item: Item): Code
  {
    match item
    case Ue(v) => Value(v)
    case Se(k) => Value(k)
    case U(_, u) => Value(u)
  }

  function KindAt(buf: seq<byte>, pos: nat, kind: Kind): Code
  {
    match kind
    case AsUe => UeAt(buf, pos)
    case AsSe => SeAt(buf, pos)
    case AsU(n) => Value(Number(buf, pos, n))
  }

  function KindEnd(buf: seq<byte>, pos: nat, kind: Kind): nat
  {
    match kind
    case AsUe => UeEnd(buf, pos)
    case AsSe => UeEnd(buf, pos)
    case AsU(n) => pos + n
  }

  /** One read after the other, from a position on: the values and where the reader is then. */
  function ReadAll(buf: seq<byte>, pos: nat, kinds: seq<Kind>): (seq<Code>, nat)
    decreases |kinds|
  {
    if kinds == [] then ([], pos)
    else
      var rest := ReadAll(buf, KindEnd(buf, pos, kinds[0]), kinds[1..]);
      ([KindAt(buf, pos, kinds[0])] + rest.0, rest.1)
  }

  function Kinds(items: seq<Item>): seq<Kind>
  {
    if items == [] then [] else [KindOf(items[0])] + Kinds(items[1..])
  }

  function Values(items: seq<Item>): seq<Code>
  {
    if items == [] then [] else [ValueOf(items[0])] + Values(items[1..])
  }

  lemma ItemBack(buf: seq<byte>, pos: nat, item: Item)
    requires Writable(item) && OnWire(buf, pos, ItemBits(item))
    ensures KindAt(buf, pos, KindOf(item)) == ValueOf(item)
    ensures KindEnd(buf, pos, KindOf(item)) == pos + |ItemBits(item)|
  {
    match item
    case Ue(v) => UeBack(buf, pos, v);
    case Se(k) => UeBack(buf, pos, CodeNumber(k)); SignedInverse(k);
    case U(n, u) => NumberBack(buf, pos, u, n);
  }

  /** Any list of items written one behind the other is read back in order, to the exact bit. */
  lemma {:induction false} AllBack(buf: seq<byte>, pos: nat, items: seq<Item>)
    requires OnWire(buf, pos, AllBits(items)) && AllWritable(items)
    ensures ReadAll(buf, pos, Kinds(items)).0 == Values(items)
    ensures ReadAll(buf, pos, Kinds(items)).1 == pos + |AllBits(items)|
    decreases |items|
  {
    hide AllWritable, KindAt, KindEnd, ItemBits, KindOf, ValueOf, Writable, OnWire, AllBits, Kinds, Values, ReadAll;
    if items == [] {
      NothingBack(buf, pos);
    } else {
      var item, rest := items[0], items[1..];
      ghost var end := pos + |ItemBits(item)|;
      Unfolded(items);
      assert KindAt(buf, pos, KindOf(item)) == ValueOf(item) && KindEnd(buf, pos, KindOf(item)) == end
             && OnWire(buf, end, AllBits(rest)) by {
        ItemThere(buf, pos, item, AllBits(rest));
      }
      AllBack(buf, end, rest);
      ReadCons(buf, pos, KindOf(item), Kinds(rest));
    }
  }

  lemma {:induction false} Unfolded(items: seq<Item>)
    requires items != []
    ensures AllBits(items) == ItemBits(items[0]) + AllBits(items[1..])
    ensures Kinds(items) == [KindOf(items[0])] + Kinds(items[1..])
    ensures Values(items) == [ValueOf(items[0])] + Values(items[1..])
    ensures AllWritable(items) ==> Writable(items[0]) && AllWritable(items[1..])
  {
  }

  lemma {:induction false} NothingBack(buf: seq<byte>, pos: nat)
    ensures AllBits([]) == [] && ReadAll(buf, pos, Kinds([])) == (Values([]), pos)
  {
  }

  lemma ItemThere(buf: seq<byte>, pos: nat, item: Item, others: seq<Bit>)
    requires Writable(item) && OnWire(buf, pos, ItemBits(item) + others)
    ensures KindAt(buf, pos, KindOf(item)) == ValueOf(item)
    ensures KindEnd(buf, pos, KindOf(item)) == pos + |ItemBits(item)|
    ensures OnWire(buf, pos + |ItemBits(item)|, others)
  {
    OnWireConcat(buf, pos, ItemBits(item), others);
    ItemBack(buf, pos, item);
  }

  lemma {:induction false} ReadCons(buf: seq<byte>, pos: nat, kind: Kind, kinds: seq<Kind>)
    ensures ReadAll(buf, pos, [kind] + kinds).0
            == [KindAt(buf, pos, kind)] + ReadAll(buf, KindEnd(buf, pos, kind), kinds).0
    ensures ReadAll(buf, pos, [kind] + kinds).1 == ReadAll(buf, KindEnd(buf, pos, kind), kinds).1
  {
    assert ([kind] + kinds)[1..] == kinds;
  }

  /** Eight bits to a byte, the last byte filled up with zeros. */
  function Pack(bits: seq<Bit>): seq<byte>
  {
    if bits == [] then []
    else if |bits| < 8 then [PackedByte(bits + seq(8 - |bits|, _ => 0))]
    else [PackedByte(bits[..8])] + Pack(bits[8..])
  }

  /** Bits as a number, the first one on top. */
  function NumberOf(bits: seq<Bit>): (v: nat)
    ensures v < Pow2(|bits|)
  {
    if bits == [] then 0 else 2 * NumberOf(bits[..|bits| - 1]) + bits[|bits| - 1]
  }

  function PackedByte(bits: seq<Bit>): byte
    requires |bits| == 8
  {
    assert Pow2(8) == 256;
    NumberOf(bits)
  }

  lemma {:induction false} NthBit(bits: seq<Bit>, i: nat)
    requires i < |bits|
    ensures Shr(NumberOf(bits), |bits| - 1 - i) % 2 == bits[i]
    decreases |bits|
  {
    if i < |bits| - 1 {
      NthBit(bits[..|bits| - 1], i);
    }
  }

  /** Packed bits can be read where they were put. */
  lemma {:induction false} PackOnWire(bits: seq<Bit>)
    ensures OnWire(Pack(bits), 0, bits)
    decreases |bits|
  {
    if 0 < |bits| < 8 {
      var full: seq<Bit> := bits + seq(8 - |bits|, _ => 0);
      forall q: nat | q < |bits| ensures BitAt(Pack(bits), q) == bits[q] {
        NthBit(full, q);
      }
    } else if |bits| >= 8 {
      PackOnWire(bits[8..]);
      forall q: nat | q < |bits| ensures BitAt(Pack(bits), q) == bits[q] {
        if q < 8 {
          NthBit(bits[..8], q);
        } else {
          assert BitAt(Pack(bits[8..]), q - 8) == bits[8..][q - 8];
          BitBehind(PackedByte(bits[..8]), Pack(bits[8..]), q - 8);
        }
      }
    }
  }

  lemma BitBehind(b: byte, buf: seq<byte>, q: nat)
    ensures BitAt([b] + buf, q + 8) == BitAt(buf, q)
  {
    assert (q + 8) / 8 == q / 8 + 1 && (q + 8) % 8 == q % 8;
  }

  /** Writing any list of items and reading it returns the values, and ends exactly behind the last bit written. */
  lemma {:induction false} RoundTrip(items: seq<Item>)
    requires AllWritable(items)
    ensures ReadAll(Pack(AllBits(items)), 0, Kinds(items)).0 == Values(items)
    ensures ReadAll(Pack(AllBits(items)), 0, Kinds(items)).1 == |AllBits(items)|
  {
    PackOnWire(AllBits(items));
    AllBack(Pack(AllBits(items)), 0, items);
  }

  /** Behind the end of the buffer there are only zeros. */
  lemma {:induction false} ZerosBehind(buf: seq<byte>, pos: nat, n: nat)
    requires 8 * |buf| <= pos
    ensures Number(buf, pos, n) == 0
    decreases n
  {
    if n > 0 {
      ZerosBehind(buf, pos, n - 1);
      assert BitAt(buf, pos + n - 1) == 0;
    }
  }

  lemma {:induction false} ShrOnce(v: nat, n: nat)
    ensures Shr(v, n + 1) == Shr(v, n) / 2
    decreases n
  {
    if n > 0 { ShrOnce(v / 2, n - 1); }
  }

  /** The first n bits of a byte on a byte boundary. */
  lemma {:induction false} FirstBits(buf: seq<byte>, p: nat, n: nat)
    requires p < |buf| && n <= 8
    ensures Number(buf, 8 * p, n) == Shr(buf[p], 8 - n)
    decreases n
  {
    hide Shr, BitAt;
    if n > 0 {
      FirstBits(buf, p, n - 1);
      ShrOnce(buf[p], 8 - n);
      BitInByte(buf, p, n - 1);
    } else {
      ShrAll(buf[p]);
    }
  }

  lemma BitInByte(buf: seq<byte>, p: nat, k: nat)
    requires p < |buf| && k < 8
    ensures BitAt(buf, 8 * p + k) == Shr(buf[p], 7 - k) % 2
  {
    hide Shr;
  }

  lemma {:induction false} ShrAll(b: byte)
    ensures Shr(b, 8) == 0
  {
    assert Shr(b / 2 / 2 / 2 / 2, 4) == 0;
  }

  /** bs_t. */
  class BitReader {
    const buf: seq<byte>
    var p: nat
    var bitsLeft: int

    predicate Valid()
      reads this`bitsLeft
    {
      1 <= bitsLeft <= 8
    }

    /** The number of bits read. */
    function Pos(): nat
      requires Valid()
      reads this`p, this`bitsLeft
    {
      8 * p + 8 - bitsLeft
    }

    /** bs_init. */
    constructor (buf: seq<byte>)
      ensures Valid() && this.buf == buf && Pos() == 0
    {
      this.buf := buf;
      p, bitsLeft := 0, 8;
    }

    predicate Eof()
      reads this`p
    {
      p >= |buf|
    }

    method ReadU1() returns (r: Bit)
      requires Valid()
      modifies this`p, this`bitsLeft
      ensures Valid() && Pos() == old(Pos()) + 1
      ensures r == BitAt(buf, old(Pos()))
    {
      r := 0;
      bitsLeft := bitsLeft - 1;
      if !Eof() {
        r := Shr(buf[p], bitsLeft) % 2;
      }
      if bitsLeft == 0 {
        p := p + 1;
        bitsLeft := 8;
      }
    }

    /** bs_read_u; bits not set yet are added where the source ors them in. */
    method ReadU(n: nat) returns (r: nat)
      requires Valid() && n <= 32
      modifies this`p, this`bitsLeft
      ensures Valid() && Pos() == old(Pos()) + n
      ensures r == Number(buf, old(Pos()), n)
    {
      hide Number, Pow2, BitAt;
      ghost var pos := Pos();
      r := 0;
      Shifted(buf, pos, 0, n);
      for i := 0 to n
        invariant Valid() && Pos() == pos + i
        invariant r == Number(buf, pos, i) * Pow2(n - i)
      {
        var b := ReadU1();
        Shifted(buf, pos, i, n);
        r := r + b * Pow2(n - i - 1);
      }
      Shifted(buf, pos, n, n);
    }

    /** The bits read so far, in their final places, and one more. */
    static lemma Shifted(buf: seq<byte>, pos: nat, i: nat, n: nat)
      requires i <= n
      ensures i == 0 ==> Number(buf, pos, i) * Pow2(n - i) == 0
      ensures i == n ==> Number(buf, pos, i) * Pow2(n - i) == Number(buf, pos, n)
      ensures i < n ==> Number(buf, pos, i) * Pow2(n - i) + BitAt(buf, pos + i) * Pow2(n - i - 1)
                        == Number(buf, pos, i + 1) * Pow2(n - (i + 1))
    {
      if i < n {
        var v, w := Number(buf, pos, i), Pow2(n - i - 1);
        assert Pow2(n - i) == 2 * w && Number(buf, pos, i + 1) == 2 * v + BitAt(buf, pos + i);
        Distributes(v, BitAt(buf, pos + i), w);
      }
    }

    static lemma Distributes(v: int, b: int, w: int)
      ensures v * (2 * w) + b * w == (2 * v + b) * w
    {
    }

    /** bs_read_u8: the fast way and the slow way have the same contract. */
    method ReadU8() returns (r: nat)
      requires Valid()
      modifies this`p, this`bitsLeft
      ensures Valid() && Pos() == old(Pos()) + 8
      ensures r == Number(buf, old(Pos()), 8)
    {
      if bitsLeft == 8 && !Eof() {
        FirstBits(buf, p, 8);
        r := buf[p];
        p := p + 1;
      } else {
        r := ReadU(8);
      }
    }

    method ReadUe() returns (c: Code)
      requires Valid()
      modifies this`p, this`bitsLeft
      ensures Valid() && Pos() == UeEnd(buf, old(Pos()))
      ensures c == UeAt(buf, old(Pos()))
    {
      hide BitAt;
      ghost var pos := Pos();
      var i := 0;
      var b := ReadU1();
      while b == 0 && i < 32 && !Eof()
        invariant Valid() && i <= 32 && Pos() == pos + i + 1 && b == BitAt(buf, pos + i)
        invariant ZerosAt(buf, pos, 0) == ZerosAt(buf, pos + i, i)
        decreases 32 - i
      {
        i := i + 1;
        b := ReadU1();
      }
      assert ZerosAt(buf, pos, 0) == i;
      hide BitAt, ZerosAt, Number;
      var r := ReadU(i);
      c := if i <= 30 then Value(r + Pow2(i) - 1) else Undefined;
    }

    method ReadSe() returns (c: Code)
      requires Valid()
      modifies this`p, this`bitsLeft
      ensures Valid() && Pos() == UeEnd(buf, old(Pos()))
      ensures c == SeAt(buf, old(Pos()))
    {
      c := ReadUe();
      if c.Value? {
        c := Value(if c.v % 2 == 1 then (c.v + 1) / 2 else -(c.v / 2));
      }
    }
  }
}
