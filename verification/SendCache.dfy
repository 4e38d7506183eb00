/** The sender's numbering, retransmission cache and release of frames (huage_sendstream.cpp), for a sequence modulus
    `m` and any cache length; the program uses 65535 and 200. */
module SendCaches {
  import opened Bytes
  import opened RtpPackets
  import opened SeqNums
  import opened Fragmenting

  const CACHELEN := 200      // sess_cache_LEN

  /** What sendCallback is given: header bytes and body bytes. */
  datatype Datagram = Datagram(head: seq<byte>, body: seq<byte>)

  /** Hg_cacheStru_s: where it points, which frame it points into, whether it holds that frame's alloc pointer,
      and its copy of the header. */
  datatype Slot = Empty | Slot(frame: nat, alloc: bool, body: seq<byte>, sndhead: seq<byte>)

  /** One fragment to send: of which frame, and the header fields that are the same for the whole frame. */
  datatype Item = Item(frame: nat, frag: Fragment, h: Header)

  datatype Sender = Sender(slots: seq<Slot>, maxSeq: nat, sndSeq: nat, sent: seq<Datagram>, released: seq<nat>)

  ghost predicate Proper(m: nat, s: Sender)
  {
    0 < |s.slots| && s.maxSeq < m && s.sndSeq < m
    && forall i :: 0 <= i < |s.slots| && s.slots[i].Slot? ==> |s.slots[i].sndhead| == HEADSIZE
  }

  /** The header of a fragment sent with number `seqno`. */
  function HeadOf(it: Item, seqno: nat): seq<byte>
  {
    Encode(it.h.(seqno := seqno, tail := it.frag.tag))
  }

  function SlotOf(it: Item, seqno: nat): Slot
  {
    Slot(it.frame, IsLast(it.frag), it.frag.body, HeadOf(it, seqno))
  }

  /** clearPacket2 on the slot about to be overwritten. */
  function Release(slot: Slot): seq<nat>
  {
    if slot.Slot? && slot.alloc then [slot.frame] else []
  }

  /** Sending one fragment: number it, send it, take its cache slot, advance the highest number. */
  function SendOne(m: nat, s: Sender, it: Item): (r: Sender)
    requires 0 < m && Proper(m, s)
    ensures Proper(m, r) && |r.slots| == |s.slots|
  {
    var seqno := Add(m, s.sndSeq, 1);
    var index := seqno % |s.slots|;
    Sender(s.slots[index := SlotOf(it, seqno)],
           if Sub(m, seqno, s.maxSeq) > 0 then seqno else s.maxSeq,
           seqno,
           s.sent + [Datagram(HeadOf(it, seqno), it.frag.body)],
           s.released + Release(s.slots[index]))
  }

  /** Answering a repost request for number q: nothing, or the slot's body under its header with the cmd changed.
      A request can carry any 16-bit number, up to 65535. */
  function Resend(m: nat, s: Sender, q: nat): (r: Sender)
    requires 0 < m && Proper(m, s) && q <= m
    ensures Proper(m, r) && |r.slots| == |s.slots|
  {
    var d := Sub(m, s.maxSeq, q);
    var index := q % |s.slots|;
    if 0 <= d <= |s.slots| && s.slots[index].Slot? then
      var slot := s.slots[index].(sndhead := SetCmd(s.slots[index].sndhead, CMD_RES_REPOST));
      s.(slots := s.slots[index := slot], sent := s.sent + [Datagram(slot.sndhead, slot.body)])
    else s
  }

  datatype Op = Send(it: Item) | Repost(q: nat)

  function Empties(len: nat): (r: seq<Slot>)
    ensures |r| == len && forall i :: 0 <= i < len ==> r[i] == Empty
  {
    if len == 0 then [] else Empties(len - 1) + [Empty]
  }

  function Start(len: nat): Sender
  {
    Sender(Empties(len), 0, 0, [], [])
  }

  /** The sender after the operations `ops`, from a new session. */
  function Run(m: nat, len: nat, ops: seq<Op>): (s: Sender)
    requires 0 < m && 0 < len
    ensures Proper(m, s) && |s.slots| == len
  {
    if ops == [] then Start(len)
    else
      var s := Run(m, len, ops[..|ops| - 1]);
      match ops[|ops| - 1]
      case Send(it) => SendOne(m, s, it)
      case Repost(q) => if q <= m then Resend(m, s, q) else s
  }

  /** The fragments sent by `ops`, oldest first. */
  function Items(ops: seq<Op>): seq<Item>
  {
    if ops == [] then []
    else
      var before := Items(ops[..|ops| - 1]);
      match ops[|ops| - 1]
      case Send(it) => before + [it]
      case Repost(_) => before
  }

  /** Which of the first n numbered fragments was the last to take slot i (they are counted from 1; 0 is none). */
  function LastWriter(m: nat, len: nat, n: nat, i: nat): (k: nat)
    requires 0 < m && 0 < len
    ensures k <= n
    ensures k != 0 ==> k % m % len == i
    ensures forall j :: k < j <= n ==> j % m % len != i
  {
    if n == 0 then 0
    else if n % m % len == i then n
    else LastWriter(m, len, n - 1, i)
  }

  /** A slot that differs from `t` at most in the cmd bits of its header. */
  predicate SameButCmd(s: Slot, t: Slot)
  {
    && s.Slot? && t.Slot?
    && s.frame == t.frame && s.alloc == t.alloc && s.body == t.body
    && |s.sndhead| == |t.sndhead| == HEADSIZE
    && SetCmd(s.sndhead, CMD_RES_REPOST) == SetCmd(t.sndhead, CMD_RES_REPOST)
  }

  /** The state is the one the history tells: numbers, and every slot holding its last writer. */
  ghost predicate Tracks(m: nat, s: Sender, items: seq<Item>)
    requires 0 < m && 0 < |s.slots|
  {
    && s.sndSeq == s.maxSeq == |items| % m
    && forall i :: 0 <= i < |s.slots| ==>
         var k := LastWriter(m, |s.slots|, |items|, i);
         if k == 0 then s.slots[i] == Empty else SameButCmd(s.slots[i], SlotOf(items[k - 1], k % m))
  }

  lemma {:induction false} StartTracks(m: nat, len: nat)
    requires 0 < m && 0 < len
    ensures Tracks(m, Start(len), [])
  {
  }

  /** MaxPacketSeqs follows the counter, across wraps too. */
  lemma NextIsMax(m: nat, n: nat)
    requires 2 <= m
    ensures Sub(m, Add(m, n % m, 1), n % m) == 1 && Add(m, n % m, 1) == (n + 1) % m
  {
    NextMod(m, n);
    SubIsDistance(m, Add(m, n % m, 1), n % m, 1);
  }

  lemma SendTracks(m: nat, s: Sender, items: seq<Item>, it: Item)
    requires 2 <= m && Proper(m, s) && Tracks(m, s, items)
    ensures Tracks(m, SendOne(m, s, it), items + [it])
  {
    var t, n, len := SendOne(m, s, it), |items|, |s.slots|;
    NextIsMax(m, n);
    forall i | 0 <= i < len
      ensures var k := LastWriter(m, len, n + 1, i);
              if k == 0 then t.slots[i] == Empty else SameButCmd(t.slots[i], SlotOf((items + [it])[k - 1], k % m))
    {
      var k := LastWriter(m, len, n + 1, i);
      if (n + 1) % m % len != i {
        assert k == LastWriter(m, len, n, i) && t.slots[i] == s.slots[i];
      }
    }
  }

  lemma ResendTracks(m: nat, s: Sender, items: seq<Item>, q: nat)
    requires 0 < m && Proper(m, s) && Tracks(m, s, items) && q <= m
    ensures Tracks(m, Resend(m, s, q), items)
  {
    var t := Resend(m, s, q);
    var slot := s.slots[q % |s.slots|];
    if slot.Slot? {
      SetCmdTwice(slot.sndhead, CMD_RES_REPOST, CMD_RES_REPOST);
    }
    hide SetCmd;
    forall i | 0 <= i < |s.slots|
      ensures var k := LastWriter(m, |s.slots|, |items|, i);
              if k == 0 then t.slots[i] == Empty else SameButCmd(t.slots[i], SlotOf(items[k - 1], k % m))
    {
    }
  }

  /** After any run of sends and reposts, the counters hold the last number assigned and each slot its last writer. */
  lemma {:induction false} TracksAlways(m: nat, len: nat, ops: seq<Op>)
    requires 2 <= m && 0 < len
    ensures Tracks(m, Run(m, len, ops), Items(ops))
  {
    if ops == [] {
      StartTracks(m, len);
    } else {
      var before := ops[..|ops| - 1];
      TracksAlways(m, len, before);
      match ops[|ops| - 1]
      case Send(it) => SendTracks(m, Run(m, len, before), Items(before), it);
      case Repost(q) =>
        if q <= m {
          ResendTracks(m, Run(m, len, before), Items(before), q);
        }
    }
  }
}
