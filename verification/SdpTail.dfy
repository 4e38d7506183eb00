/** What sdp_parse makes of lines it does not know (sdp.c): from the first of them on, nothing is read. */
module SdpTails {
  import opened Bytes
  import opened SdpTexts
  import opened SdpFields
  import opened SdpSessions

  /** The keys of the lines that are optional, in any part of a description. */
  predicate Known(key: char)
  {
    key in ['i', 'u', 'e', 'p', 'c', 'b', 't', 'r', 'z', 'k', 'a', 'm']
  }

  /** The entries end, or go on with one that has no known key. */
  predicate Foreign(tail: seq<Entry>)
  {
    tail == [] || !Known(tail[0].key)
  }

  lemma AtTail(es: seq<Entry>, tail: seq<Entry>, key: char)
    requires Foreign(tail) && Known(key)
    ensures At(es + tail, key) <==> At(es, key)
    ensures At(es, key) ==> (es + tail)[0] == es[0] && (es + tail)[1..] == es[1..] + tail
  {
    assert es == [] ==> es + tail == tail;
  }

  lemma FacultativeTail(es: seq<Entry>, tail: seq<Entry>, key: char)
    requires Foreign(tail) && Known(key)
    ensures Facultative(es + tail, key) == (Facultative(es, key).0, Facultative(es, key).1 + tail)
  {
    hide Known;
    AtTail(es, tail, key);
  }

  lemma {:induction false} MultipleTail(es: seq<Entry>, tail: seq<Entry>, key: char)
    requires Foreign(tail) && Known(key)
    ensures Multiple(es + tail, key) == (Multiple(es, key).0, Multiple(es, key).1 + tail)
    decreases |es|
  {
    hide Known;
    AtTail(es, tail, key);
    if At(es, key) {
      MultipleTail(es[1..], tail, key);
    }
  }

  lemma ConnectionTail(es: seq<Entry>, tail: seq<Entry>)
    requires Foreign(tail)
    ensures ReadConnection(es + tail) == (ReadConnection(es).0, ReadConnection(es).1 + tail)
  {
    hide ToConnection;
    AtTail(es, tail, 'c');
  }

  lemma {:induction false} BandwidthsTail(es: seq<Entry>, tail: seq<Entry>)
    requires Foreign(tail)
    ensures ReadBandwidths(es + tail) == (ReadBandwidths(es).0, ReadBandwidths(es).1 + tail)
    decreases |es|
  {
    hide ToBandwidth;
    AtTail(es, tail, 'b');
    if At(es, 'b') {
      BandwidthsTail(es[1..], tail);
    }
  }

  lemma {:induction false} RepeatsTail(es: seq<Entry>, tail: seq<Entry>)
    requires Foreign(tail)
    ensures ReadRepeats(es + tail) == (ReadRepeats(es).0, ReadRepeats(es).1 + tail)
    decreases |es|
  {
    hide ToRepeat;
    AtTail(es, tail, 'r');
    if At(es, 'r') {
      RepeatsTail(es[1..], tail);
    }
  }

  lemma {:induction false} TimesTail(es: seq<Entry>, tail: seq<Entry>)
    requires Foreign(tail) && es != []
    ensures ReadTimes(es + tail) == (ReadTimes(es).0, ReadTimes(es).1 + tail)
    decreases |es|
  {
    hide ToTime, ReadRepeats, Foreign, Known, At;
    var rest := ReadRepeats(es[1..]).1;
    assert (es + tail)[1..] == es[1..] + tail;
    RepeatsTail(es[1..], tail);
    IsKnown('t');
    AtTail(rest, tail, 't');
    if At(rest, 't') {
      assert rest != [] by {
        AtSome(rest, 't');
      }
      TimesTail(rest, tail);
    }
  }

  lemma IsKnown(key: char)
    requires key == 't'
    ensures Known(key)
  {
  }

  lemma AtSome(es: seq<Entry>, key: char)
    requires At(es, key)
    ensures es != []
  {
  }

  lemma ZonesTail(es: seq<Entry>, tail: seq<Entry>)
    requires Foreign(tail)
    ensures ReadZones(es + tail) == (ReadZones(es).0, ReadZones(es).1 + tail)
  {
    hide ToZones;
    AtTail(es, tail, 'z');
  }

  lemma MediaTail(es: seq<Entry>, tail: seq<Entry>)
    requires Foreign(tail) && es != []
    ensures ReadMedia(es + tail) == (ReadMedia(es).0, ReadMedia(es).1 + tail)
  {
    hide ToInfo, Facultative, Multiple, ReadConnection, ReadBandwidths, Foreign;
    assert (es + tail)[1..] == es[1..] + tail;
    var es1 := Facultative(es[1..], 'i').1;
    var es2 := ReadConnection(es1).1;
    var es3 := ReadBandwidths(es2).1;
    var es4 := Facultative(es3, 'k').1;
    FacultativeTail(es[1..], tail, 'i');
    ConnectionTail(es1, tail);
    BandwidthsTail(es2, tail);
    FacultativeTail(es3, tail, 'k');
    MultipleTail(es4, tail, 'a');
  }

  lemma {:induction false} MediasTail(es: seq<Entry>, tail: seq<Entry>)
    requires Foreign(tail)
    ensures ReadMedias(es + tail) == ReadMedias(es)
    decreases |es|
  {
    hide ReadMedia;
    AtTail(es, tail, 'm');
    if At(es, 'm') {
      MediaTail(es, tail);
      MediasTail(ReadMedia(es).1, tail);
    }
  }

  lemma HeadTail(es: seq<Entry>, tail: seq<Entry>)
    requires Foreign(tail)
    ensures ReadHead(es + tail) == (ReadHead(es).0, ReadHead(es).1 + tail)
  {
    hide Facultative, Multiple, ReadConnection, ReadBandwidths, Foreign;
    var es1 := Facultative(es, 'i').1;
    var es2 := Facultative(es1, 'u').1;
    var es3 := Multiple(es2, 'e').1;
    var es4 := Multiple(es3, 'p').1;
    var es5 := ReadConnection(es4).1;
    FacultativeTail(es, tail, 'i');
    FacultativeTail(es1, tail, 'u');
    MultipleTail(es2, tail, 'e');
    MultipleTail(es3, tail, 'p');
    ConnectionTail(es4, tail);
    BandwidthsTail(es5, tail);
  }

  /** The part of Parse behind the optional lines. */
  function Rest(o: Entry, name: Entry, head: Head, es: seq<Entry>): Session
    requires es != []
  {
    var (times, es2) := ReadTimes(es);
    var (zones, es3) := ReadZones(es2);
    var (key, es4) := Facultative(es3, 'k');
    var (attributes, es5) := Multiple(es4, 'a');
    Session(0, ToOrigin(o.value), name.value, head.information, head.uri, head.emails, head.phones, head.conn, head.bw,
            times, zones, key, attributes, ReadMedias(es5))
  }

  lemma RestTail(o: Entry, name: Entry, head: Head, es: seq<Entry>, tail: seq<Entry>)
    requires Foreign(tail) && es != []
    ensures Rest(o, name, head, es + tail) == Rest(o, name, head, es)
  {
    hide ToOrigin, ReadTimes, ReadZones, Facultative, Multiple, ReadMedias, Foreign;
    var es2 := ReadTimes(es).1;
    var es3 := ReadZones(es2).1;
    var es4 := Facultative(es3, 'k').1;
    var es5 := Multiple(es4, 'a').1;
    TimesTail(es, tail);
    ZonesTail(es2, tail);
    FacultativeTail(es3, tail, 'k');
    MultipleTail(es4, tail, 'a');
    MediasTail(es5, tail);
  }

  lemma ParseIsRest(es: seq<Entry>)
    requires |es| >= 3 && es[0] == Entry('v', "0") && es[1].key == 'o' && es[2].key == 's'
    ensures var (head, es1) := ReadHead(es[3..]);
            Parse(es) == if es1 == [] then NullDereferenced else Parsed(Rest(es[1], es[2], head, es1))
  {
    hide ToOrigin, ReadHead, ReadTimes, ReadZones, Facultative, Multiple, ReadMedias;
    assert es[1..][0] == es[1] && es[2..][0] == es[2];
  }

  /** A text that is parsed is parsed to the same session with any lines behind it, if the first of these has a key that
      is none of the optional ones; so unknown lines are not skipped, they end the description. */
  lemma RestIgnored(es: seq<Entry>, tail: seq<Entry>)
    requires Parse(es).Parsed? && Foreign(tail)
    ensures Parse(es + tail) == Parse(es)
  {
    hide Foreign, ReadHead, Rest;
    LeadsParsed(es);
    ParseIsRest(es);
    ParseIsRest(es + tail);
    assert (es + tail)[3..] == es[3..] + tail;
    HeadTail(es[3..], tail);
    var (head, es1) := ReadHead(es[3..]);
    RestTail(es[1], es[2], head, es1, tail);
  }

  lemma LeadsParsed(es: seq<Entry>)
    requires Parse(es).Parsed?
    ensures |es| >= 3 && es[0] == Entry('v', "0") && es[1].key == 'o' && es[2].key == 's'
  {
    hide ToOrigin, ReadHead, ReadTimes, ReadZones, Facultative, Multiple, ReadMedias;
  }
}
