/** Parsing what was printed gives the session back (sdp.c). */
module SdpRoundTrips {
  import opened Bytes
  import opened SdpTexts
  import opened SdpFields
  import opened SdpSessions

  // What can be printed and read again

  /** A string that is the rest of its line. */
  predicate Line(s: string)
  {
    NoBreaks(s)
  }

  /** A string that is one field of a line. */
  predicate OneField(s: string, sep: char)
  {
    s != "" && sep !in s && NoBreaks(s)
  }

  predicate Long(n: int)
  {
    -LONGMAX - 1 <= n <= LONGMAX
  }

  predicate Int(n: int)
  {
    -0x8000_0000 <= n <= 0x7FFF_FFFF
  }

  predicate Longs(ns: seq<int>)
  {
    ns == [] || (Long(ns[0]) && Longs(ns[1..]))
  }

  predicate Ints(ns: seq<int>)
  {
    ns == [] || (Int(ns[0]) && Ints(ns[1..]))
  }

  predicate LineOption(o: Option<string>)
  {
    o.Some? ==> Line(o.value)
  }

  predicate LineAll(vs: seq<string>)
  {
    vs == [] || (Line(vs[0]) && LineAll(vs[1..]))
  }

  predicate OkConnection(o: Option<Connection>)
  {
    o.Some? ==> OneField(o.value.nettype, ' ') && OneField(o.value.addrtype, ' ') && OneField(o.value.address, ' ')
  }

  predicate OkBandwidths(bs: seq<Bandwidth>)
  {
    bs == [] || (OneField(bs[0].bwtype, ':') && OneField(bs[0].bandwidth, ':') && OkBandwidths(bs[1..]))
  }

  predicate OkRepeats(rs: seq<Repeat>)
  {
    rs == [] || (Longs([rs[0].interval, rs[0].duration] + rs[0].offsets) && OkRepeats(rs[1..]))
  }

  predicate OkTimes(ts: seq<Time>)
  {
    ts == [] || (Longs([ts[0].startTime, ts[0].stopTime]) && OkRepeats(ts[0].repeats) && OkTimes(ts[1..]))
  }

  predicate OkInfo(i: Info)
  {
    OneField(i.kind, ' ') && Int(i.port) && Int(i.portN) && OneField(i.proto, ' ') && Ints(i.fmt)
  }

  predicate OkMedia(m: Media)
  {
    OkInfo(m.info) && LineOption(m.title) && OkConnection(m.conn) && OkBandwidths(m.bw) && LineOption(m.encryptKey)
        && LineAll(m.attributes)
  }

  predicate OkMedias(ms: seq<Media>)
  {
    ms == [] || (OkMedia(ms[0]) && OkMedias(ms[1..]))
  }

  predicate OkOrigin(o: Origin)
  {
    && OneField(o.username, ' ') && Long(o.sessId) && Long(o.sessVersion)
    && OneField(o.nettype, ' ') && OneField(o.addrtype, ' ') && OneField(o.addr, ' ')
  }

  /** Every field of a session is one that can stand in its place in the text. */
  predicate OkFields(s: Session)
  {
    && OkOrigin(s.origin) && Line(s.name) && LineOption(s.information) && LineOption(s.uri) && LineAll(s.emails)
        && LineAll(s.phones)
    && OkConnection(s.conn) && OkBandwidths(s.bw) && OkTimes(s.times) && Longs(ZoneNumbers(s.zones))
    && LineOption(s.encryptKey) && LineAll(s.attributes) && OkMedias(s.medias)
  }

  // Lines are read up to the next key

  /** The order of the keys of a description, and of those behind a media line. */
  function Rank(key: char): nat
  {
    if key == 'i' then 1 else if key == 'u' then 2 else if key == 'e' then 3 else if key == 'p' then 4
    else if key == 'c' then 5 else if key == 'b' then 6 else if key == 't' then 7 else if key == 'z' then 8
    else if key == 'k' then 9 else if key == 'a' then 10 else if key == 'm' then 11 else 0
  }

  /** The entries begin with this key or one behind it. */
  predicate From(es: seq<Entry>, key: char)
  {
    es == [] || Rank(key) <= Rank(es[0].key)
  }

  lemma Begins(part: seq<Entry>, key: char, rest: seq<Entry>, next: char)
    requires (part == [] || part[0].key == key) && From(rest, next) && Rank(key) < Rank(next)
    ensures From(part + rest, key) && !At(rest, key)
  {
    assert part == [] ==> part + rest == rest;
  }

  lemma OptionBack(key: char, o: Option<string>, rest: seq<Entry>)
    requires !At(rest, key)
    ensures Facultative(PrintOption(key, o) + rest, key) == (o, rest)
  {
    assert PrintOption(key, None) + rest == rest;
  }

  lemma {:induction false} AllBack(key: char, vs: seq<string>, rest: seq<Entry>)
    requires !At(rest, key)
    ensures Multiple(PrintAll(key, vs) + rest, key) == (vs, rest)
  {
    if vs == [] {
      assert PrintAll(key, vs) + rest == rest;
    } else {
      AllBack(key, vs[1..], rest);
      MultipleCons(key, vs[0], PrintAll(key, vs[1..]), rest);
      assert vs == [vs[0]] + vs[1..];
    }
  }

  lemma {:induction false} MultipleCons(key: char, v: string, es: seq<Entry>, rest: seq<Entry>)
    ensures Multiple([Entry(key, v)] + es + rest, key) == ([v] + Multiple(es + rest, key).0, Multiple(es + rest, key).1)
  {
    assert ([Entry(key, v)] + es + rest)[1..] == es + rest;
  }

  // Lines of fields

  lemma {:induction false} JoinConcat(fs: seq<Field>, gs: seq<Field>, sep: char)
    requires fs != [] && gs != []
    ensures Join(fs + gs, sep) == Join(fs, sep) + [sep] + Join(gs, sep)
  {
    assert (fs + gs)[1..] == fs[1..] + gs;
    if |fs| > 1 {
      JoinConcat(fs[1..], gs, sep);
    }
  }

  /** Some fields of a line are read, with the others left over. */
  lemma {:induction false} SplitSome(fs: seq<Field>, gs: seq<Field>, sep: char, fmt: string)
    requires IsSep(sep) && fs != [] && AllSound(fs, sep, fmt)
    requires gs != [] ==> Join(gs, sep) != "" && Join(gs, sep)[0] != sep
    ensures Split(Join(fs + gs, sep), sep, fmt) == (fs, Join(gs, sep))
  {
    if gs == [] {
      assert Join(gs, sep) == "";
      hide Join, AllSound, Split;
      assert fs + gs == fs && Join(fs, sep) + "" == Join(fs, sep);
      SplitBack(fs, sep, fmt, "");
    } else {
      hide Join, AllSound, Split;
      SplitFront(fs, Join(gs, sep), sep, fmt);
      JoinConcat(fs, gs, sep);
      Regroup(Join(fs, sep), sep, Join(gs, sep));
    }
  }

  lemma Regroup(a: string, sep: char, b: string)
    ensures a + [sep] + b == a + ([sep] + b)
  {
  }

  lemma {:induction false} SplitFront(fs: seq<Field>, tail: string, sep: char, fmt: string)
    requires IsSep(sep) && fs != [] && AllSound(fs, sep, fmt) && tail != "" && tail[0] != sep
    ensures Split(Join(fs, sep) + ([sep] + tail), sep, fmt) == (fs, tail)
  {
    hide Join, AllSound, Split;
    assert ([sep] + tail)[1..] == tail;
    SplitBack(fs, sep, fmt, [sep] + tail);
  }

  lemma {:induction false} SoundCons(f: Field, fs: seq<Field>, sep: char, c: char, fmt: string)
    requires Sound(f, sep, c) && AllSound(fs, sep, fmt)
    ensures AllSound([f] + fs, sep, [c] + fmt)
  {
    assert ([f] + fs)[1..] == fs && ([c] + fmt)[1..] == fmt;
  }

  lemma {:induction false} NumbersFirst(ns: seq<int>)
    requires ns != []
    ensures Join(Numbers(ns), ' ') != "" && Join(Numbers(ns), ' ')[0] != ' '
  {
    FirstOfNumber(ns[0]);
  }

  lemma {:induction false} NumbersBack(ns: seq<int>, c: char)
    requires (c == 't' && Longs(ns)) || (c == 'i' && Ints(ns))
    ensures ToNumbers(Join(Numbers(ns), ' '), c) == ns
  {
    hide Split, Decimal;
    if ns != [] {
      NumbersFirst(ns);
      var fs, gs := [Number(ns[0])], Numbers(ns[1..]);
      assert Numbers(ns) == fs + gs;
      if ns[1..] != [] { NumbersFirst(ns[1..]); }
      SplitSome(fs, gs, ' ', [c]);
      NumbersBack(ns[1..], c);
    }
  }

  lemma ConnectionBack(o: Option<Connection>, rest: seq<Entry>)
    requires OkConnection(o) && !At(rest, 'c')
    ensures ReadConnection(PrintConnection(o) + rest) == (o, rest)
  {
    match o
    case None => assert PrintConnection(o) + rest == rest;
    case Some(c) =>
      var fs := [Text(c.nettype), Text(c.addrtype), Text(c.address)];
      SoundCons(fs[2], [], ' ', 's', "");
      SoundCons(fs[1], [fs[2]], ' ', 's', "s");
      SoundCons(fs[0], [fs[1], fs[2]], ' ', 's', "ss");
      assert fs + [] == fs == [fs[0]] + [fs[1], fs[2]];
      SplitSome(fs, [], ' ', "sss");
  }

  lemma BandwidthBack(b: Bandwidth)
    requires OneField(b.bwtype, ':') && OneField(b.bandwidth, ':')
    ensures ToBandwidth(BandwidthText(b)) == b
  {
    var fs := [Text(b.bwtype), Text(b.bandwidth)];
    SoundCons(fs[1], [], ':', 's', "");
    SoundCons(fs[0], [fs[1]], ':', 's', "s");
    assert fs + [] == fs == [fs[0]] + [fs[1]];
    SplitSome(fs, [], ':', "ss");
  }

  lemma {:induction false} BandwidthsBack(bs: seq<Bandwidth>, rest: seq<Entry>)
    requires OkBandwidths(bs) && !At(rest, 'b')
    ensures ReadBandwidths(PrintBandwidths(bs) + rest) == (bs, rest)
  {
    hide ToBandwidth, BandwidthText, OneField;
    if bs == [] {
      assert PrintBandwidths(bs) + rest == rest;
    } else {
      BandwidthBack(bs[0]);
      BandwidthsBack(bs[1..], rest);
      BandwidthsCons(BandwidthText(bs[0]), PrintBandwidths(bs[1..]), rest);
      assert bs == [bs[0]] + bs[1..];
    }
  }

  lemma {:induction false} BandwidthsCons(v: string, es: seq<Entry>, rest: seq<Entry>)
    ensures ReadBandwidths([Entry('b', v)] + es + rest)
            == ([ToBandwidth(v)] + ReadBandwidths(es + rest).0, ReadBandwidths(es + rest).1)
  {
    assert ([Entry('b', v)] + es + rest)[1..] == es + rest;
  }

  lemma OriginBack(o: Origin)
    requires OkOrigin(o)
    ensures ToOrigin(OriginText(o)) == o
  {
    var fs := [Text(o.username), Number(o.sessId), Number(o.sessVersion), Text(o.nettype), Text(o.addrtype),
               Text(o.addr)];
    SoundCons(fs[5], [], ' ', 's', "");
    SoundCons(fs[4], fs[5..], ' ', 's', "s");
    SoundCons(fs[3], fs[4..], ' ', 's', "ss");
    SoundCons(fs[2], fs[3..], ' ', 'l', "sss");
    SoundCons(fs[1], fs[2..], ' ', 'l', "lsss");
    SoundCons(fs[0], fs[1..], ' ', 's', "llsss");
    assert fs + [] == fs;
    SplitSome(fs, [], ' ', "sllsss");
  }

  /** The two numbers a line begins with. */
  lemma {:induction false} TwoNumbers(a: int, b: int, ns: seq<int>)
    requires Long(a) && Long(b)
    ensures Split(Join(Numbers([a, b] + ns), ' '), ' ', "tt") == ([Number(a), Number(b)], Join(Numbers(ns), ' '))
    ensures Join(Numbers([a, b] + ns), ' ') != ""
  {
    NumbersFirst([a, b] + ns);
    if ns != [] { NumbersFirst(ns); }
    var fs := [Number(a), Number(b)];
    SoundCons(fs[1], [], ' ', 't', "");
    SoundCons(fs[0], [fs[1]], ' ', 't', "t");
    assert fs == [fs[0]] + [fs[1]];
    assert Numbers([a, b] + ns) == fs + Numbers(ns) by {
      assert ([a, b] + ns)[1..] == [b] + ns && ([b] + ns)[1..] == ns;
    }
    SplitSome(fs, Numbers(ns), ' ', "tt");
  }

  lemma RepeatBack(r: Repeat)
    requires Longs([r.interval, r.duration] + r.offsets)
    ensures ToRepeat(RepeatText(r)) == r
  {
    var ns := [r.interval, r.duration] + r.offsets;
    assert ns[1..] == [r.duration] + r.offsets && ns[1..][1..] == r.offsets;
    TwoNumbers(r.interval, r.duration, r.offsets);
    NumbersBack(r.offsets, 't');
  }

  lemma {:induction false} RepeatsBack(rs: seq<Repeat>, rest: seq<Entry>)
    requires OkRepeats(rs) && !At(rest, 'r')
    ensures ReadRepeats(PrintRepeats(rs) + rest) == (rs, rest)
  {
    hide ToRepeat, RepeatText, Longs;
    if rs == [] {
      assert PrintRepeats(rs) + rest == rest;
    } else {
      RepeatBack(rs[0]);
      RepeatsBack(rs[1..], rest);
      RepeatsCons(RepeatText(rs[0]), PrintRepeats(rs[1..]), rest);
      assert rs == [rs[0]] + rs[1..];
    }
  }

  lemma {:induction false} RepeatsCons(v: string, es: seq<Entry>, rest: seq<Entry>)
    ensures ReadRepeats([Entry('r', v)] + es + rest)
            == ([ToRepeat(v)] + ReadRepeats(es + rest).0, ReadRepeats(es + rest).1)
  {
    assert ([Entry('r', v)] + es + rest)[1..] == es + rest;
  }

  lemma TimeBack(t: Time)
    requires Longs([t.startTime, t.stopTime])
    ensures ToTime(TimeText(t), t.repeats) == t
  {
    assert [t.startTime, t.stopTime][1..] == [t.stopTime]
           && [t.startTime, t.stopTime] + [] == [t.startTime, t.stopTime];
    TwoNumbers(t.startTime, t.stopTime, []);
  }

  lemma {:induction false} TimesBack(ts: seq<Time>, rest: seq<Entry>)
    requires ts != [] && OkTimes(ts) && !At(rest, 't') && !At(rest, 'r')
    ensures PrintTimes(ts) != [] && ReadTimes(PrintTimes(ts) + rest) == (ts, rest)
  {
    var t, more := ts[0], ts[1..];
    var after := PrintTimes(more) + rest;
    assert ts == [t] + more && (more == [] ==> after == rest);
    if more != [] {
      TimesBack(more, rest);
    }
    TimeBack(t);
    RepeatsBack(t.repeats, after);
    hide OkTimes, OkRepeats, Longs, ToTime, TimeText, PrintRepeats, ReadRepeats, PrintTimes, ReadTimes;
    MoreTimes(t, more, rest);
  }

  lemma {:induction false} MoreTimes(t: Time, more: seq<Time>, rest: seq<Entry>)
    requires ToTime(TimeText(t), t.repeats) == t
    requires ReadRepeats(PrintRepeats(t.repeats) + (PrintTimes(more) + rest)) == (t.repeats, PrintTimes(more) + rest)
    requires if more == [] then !At(rest, 't') else ReadTimes(PrintTimes(more) + rest) == (more, rest)
    ensures PrintTimes([t] + more) != [] && ReadTimes(PrintTimes([t] + more) + rest) == ([t] + more, rest)
  {
    var after := PrintTimes(more) + rest;
    assert more == [] ==> after == rest && [t] + more == [t];
    assert ([t] + more)[1..] == more;
    assert PrintTimes([t] + more) == [Entry('t', TimeText(t))] + (PrintRepeats(t.repeats) + PrintTimes(more));
    Regrouped(Entry('t', TimeText(t)), PrintRepeats(t.repeats), PrintTimes(more), rest);
    assert more != [] ==> At(after, 't');
    hide ToTime, TimeText, PrintRepeats, ReadRepeats, PrintTimes;
    TimesCons(TimeText(t), PrintRepeats(t.repeats) + after);
  }

  lemma Regrouped(e: Entry, a: seq<Entry>, b: seq<Entry>, c: seq<Entry>)
    ensures [e] + (a + b) + c == [e] + (a + (b + c))
  {
  }

  lemma {:induction false} TimesCons(v: string, es: seq<Entry>)
    ensures var (rs, after) := ReadRepeats(es);
            var t := ToTime(v, rs);
            ReadTimes([Entry('t', v)] + es) == if At(after, 't') then ([t] + ReadTimes(after).0, ReadTimes(after).1)
                else ([t], after)
  {
    assert ([Entry('t', v)] + es)[1..] == es;
  }

  lemma NoNumbersText()
    ensures Join(Numbers([]), ' ') == ""
  {
  }

  lemma {:induction false} LongsSplit(zs: seq<Zone>)
    requires zs != [] && Longs(ZoneNumbers(zs))
    ensures Long(zs[0].adjust) && Long(zs[0].offset) && Longs(ZoneNumbers(zs[1..]))
  {
    assert ZoneNumbers(zs)[1..][1..] == ZoneNumbers(zs[1..]);
  }

  lemma {:induction false} ToZonesBack(zs: seq<Zone>)
    requires Longs(ZoneNumbers(zs))
    ensures ToZones(ZonesText(zs)) == zs
  {
    hide Split, Longs, Join, Numbers;
    if zs == [] {
      NoNumbersText();
    } else {
      LongsSplit(zs);
      var ns := ZoneNumbers(zs[1..]);
      TwoNumbers(zs[0].adjust, zs[0].offset, ns);
      ToZonesBack(zs[1..]);
    }
  }

  lemma {:induction false} ZonesBack(zs: seq<Zone>, rest: seq<Entry>)
    requires Longs(ZoneNumbers(zs)) && !At(rest, 'z')
    ensures ReadZones(PrintZones(zs) + rest) == (zs, rest)
  {
    ToZonesBack(zs);
    assert PrintZones([]) + rest == rest;
  }

  // Media

  lemma Fits32(n: int)
    requires Int(n)
    ensures ToInt(n) == n
  {
  }

  lemma PortCountBack(n: int, rest: string)
    requires Int(n) && rest != "" && rest[0] == ' '
    ensures PortCount((if n != 0 then "/" + Decimal(n) else "") + rest) == (n, rest)
  {
    hide StrTol, Decimal, ToInt;
    Fits32(n);
    if n != 0 {
      var value := "/" + Decimal(n) + rest;
      assert value[1..] == Decimal(n) + rest;
      NumberBack(n, rest);
      assert value[1 + |Decimal(n)|..] == rest;
    } else {
      assert "" + rest == rest;
    }
  }

  lemma {:induction false} ProtoBack(proto: string, fmt: seq<int>)
    requires OneField(proto, ' ') && Ints(fmt)
    ensures var (fs, rest) := Split(" " + Join([Text(proto)] + Numbers(fmt), ' '), ' ', "s");
            fs == [Text(proto)] && ToNumbers(rest, 'i') == fmt
  {
    var text := Join([Text(proto)] + Numbers(fmt), ' ');
    SoundCons(Text(proto), [], ' ', 's', "");
    if fmt != [] {
      NumbersFirst(fmt);
    }
    SplitSome([Text(proto)], Numbers(fmt), ' ', "s");
    NumbersBack(fmt, 'i');
    FirstOfJoin(Text(proto), Numbers(fmt), ' ', 's');
    assert (" " + text)[1..] == text;
    assert SkipSep(" " + text, ' ') == SkipSep(text, ' ');
  }

  lemma {:induction false} FirstOfJoin(f: Field, fs: seq<Field>, sep: char, c: char)
    requires IsSep(sep) && Sound(f, sep, c)
    ensures Join([f] + fs, sep) != "" && Join([f] + fs, sep)[0] != sep
  {
    FieldBack(f, sep, c, "");
    assert fs == [] ==> [f] + fs == [f];
    hide Convert, Printed, Sound;
  }

  lemma KindBack(kind: string, x: string)
    requires OneField(kind, ' ') && x != "" && x[0] != ' '
    ensures Split(kind + " " + x, ' ', "s") == ([Text(kind)], x)
  {
    SoundCons(Text(kind), [], ' ', 's', "");
    SplitBack([Text(kind)], ' ', "s", " " + x);
    assert kind + " " + x == kind + (" " + x);
  }

  lemma Around(k: string, d: string, c: string, t: string)
    ensures k + [' '] + d + c + t == k + " " + (d + (c + t))
  {
  }

  lemma PortBack(port: int, portN: int, tail: string)
    requires Int(port) && Int(portN) && tail != "" && tail[0] == ' '
    ensures var x := Decimal(port) + ((if portN != 0 then "/" + Decimal(portN) else "") + tail);
            x != "" && x[0] != ' ' && StrTol(x).0 == port && PortCount(x[StrTol(x).1..]) == (portN, tail)
  {
    var more := (if portN != 0 then "/" + Decimal(portN) else "") + tail;
    FirstOfNumber(port);
    NumberBack(port, more);
    assert (Decimal(port) + more)[|Decimal(port)|..] == more;
    PortCountBack(portN, tail);
    hide StrTol, PortCount, Decimal;
  }

  lemma InfoBack(i: Info)
    requires OkInfo(i)
    ensures ToInfo(InfoText(i)) == i
  {
    var count := if i.portN != 0 then "/" + Decimal(i.portN) else "";
    var fields := Join([Text(i.proto)] + Numbers(i.fmt), ' ');
    var tail := " " + fields;
    var x := Decimal(i.port) + (count + tail);
    assert Join([Text(i.kind), Number(i.port)], ' ') == i.kind + [' '] + Decimal(i.port);
    assert ToInt(i.port) == i.port;
    assert InfoText(i) == i.kind + " " + x by {
      hide Join, Decimal;
      Around(i.kind, Decimal(i.port), count, tail);
      assert i.kind + [' '] + Decimal(i.port) + count + " " + fields == i.kind + [' '] + Decimal(i.port) + count + tail;
    }
    hide InfoText, Split, StrTol, PortCount, ToNumbers, Join, Decimal, OneField, Ints, ToInt, Numbers;
    PortBack(i.port, i.portN, tail);
    KindBack(i.kind, x);
    ProtoBack(i.proto, i.fmt);
  }

  lemma MediaBack(m: Media, rest: seq<Entry>)
    requires OkMedia(m) && From(rest, 'm')
    ensures ReadMedia(PrintMedia(m, rest)) == (m, rest)
  {
    hide Facultative, Multiple, ReadBandwidths, ReadConnection, PrintOption, PrintAll, PrintBandwidths,
        PrintConnection, ToInfo, InfoText, OkConnection, OkBandwidths, OkInfo, Rank;
    MediaKeys(m);
    var a := PrintAll('a', m.attributes) + rest;
    var k := PrintOption('k', m.encryptKey) + a;
    var b := PrintBandwidths(m.bw) + k;
    var c := PrintConnection(m.conn) + b;
    var i := PrintOption('i', m.title) + c;
    Begins(PrintAll('a', m.attributes), 'a', rest, 'm');
    Begins(PrintOption('k', m.encryptKey), 'k', a, 'a');
    Begins(PrintBandwidths(m.bw), 'b', k, 'k');
    Begins(PrintConnection(m.conn), 'c', b, 'b');
    Begins(PrintOption('i', m.title), 'i', c, 'c');
    assert PrintMedia(m, rest)[1..] == i;
    AllBack('a', m.attributes, rest);
    OptionBack('k', m.encryptKey, a);
    BandwidthsBack(m.bw, k);
    ConnectionBack(m.conn, b);
    OptionBack('i', m.title, c);
    InfoBack(m.info);
  }

  lemma MediaKeys(m: Media)
    ensures PrintOption('i', m.title) == [] || PrintOption('i', m.title)[0].key == 'i'
    ensures PrintConnection(m.conn) == [] || PrintConnection(m.conn)[0].key == 'c'
    ensures PrintBandwidths(m.bw) == [] || PrintBandwidths(m.bw)[0].key == 'b'
    ensures PrintOption('k', m.encryptKey) == [] || PrintOption('k', m.encryptKey)[0].key == 'k'
    ensures PrintAll('a', m.attributes) == [] || PrintAll('a', m.attributes)[0].key == 'a'
    ensures Rank('i') < Rank('c') < Rank('b') < Rank('k') < Rank('a') < Rank('m')
  {
  }

  lemma {:induction false} MediasBack(ms: seq<Media>)
    requires OkMedias(ms)
    ensures From(PrintMedias(ms), 'm') && ReadMedias(PrintMedias(ms)) == ms
  {
    hide ReadMedia, PrintMedia, OkMedia, Rank;
    if ms != [] {
      MediasBack(ms[1..]);
      MediaBack(ms[0], PrintMedias(ms[1..]));
      MediaFirst(ms[0], PrintMedias(ms[1..]));
      assert ms == [ms[0]] + ms[1..];
    }
  }

  lemma MediaFirst(m: Media, rest: seq<Entry>)
    ensures At(PrintMedia(m, rest), 'm')
  {
  }

  // The whole session

  lemma HeadBack(s: Session, rest: seq<Entry>)
    requires OkFields(s) && From(rest, 't')
    ensures var es := PrintOption('i', s.information) + (PrintOption('u', s.uri) + (PrintAll('e', s.emails)
                      + (PrintAll('p', s.phones) + (PrintConnection(s.conn) + (PrintBandwidths(s.bw) + rest)))));
            ReadHead(es) == (Head(s.information, s.uri, s.emails, s.phones, s.conn, s.bw), rest)
  {
    var b := PrintBandwidths(s.bw) + rest;
    var c := PrintConnection(s.conn) + b;
    var p := PrintAll('p', s.phones) + c;
    var e := PrintAll('e', s.emails) + p;
    var u := PrintOption('u', s.uri) + e;
    HeadKeys(s);
    hide Facultative, Multiple, ReadBandwidths, ReadConnection, PrintOption, PrintAll, PrintBandwidths,
        PrintConnection, OkFields, OkConnection,
      OkBandwidths, Rank;
    Begins(PrintBandwidths(s.bw), 'b', rest, 't');
    Begins(PrintConnection(s.conn), 'c', b, 'b');
    Begins(PrintAll('p', s.phones), 'p', c, 'c');
    Begins(PrintAll('e', s.emails), 'e', p, 'p');
    Begins(PrintOption('u', s.uri), 'u', e, 'e');
    Begins(PrintOption('i', s.information), 'i', u, 'u');
    BandwidthsBack(s.bw, rest);
    ConnectionBack(s.conn, b);
    AllBack('p', s.phones, c);
    AllBack('e', s.emails, p);
    OptionBack('u', s.uri, e);
    OptionBack('i', s.information, u);
  }

  lemma HeadKeys(s: Session)
    requires OkFields(s)
    ensures PrintOption('i', s.information) == [] || PrintOption('i', s.information)[0].key == 'i'
    ensures PrintOption('u', s.uri) == [] || PrintOption('u', s.uri)[0].key == 'u'
    ensures PrintAll('e', s.emails) == [] || PrintAll('e', s.emails)[0].key == 'e'
    ensures PrintAll('p', s.phones) == [] || PrintAll('p', s.phones)[0].key == 'p'
    ensures PrintConnection(s.conn) == [] || PrintConnection(s.conn)[0].key == 'c'
    ensures PrintBandwidths(s.bw) == [] || PrintBandwidths(s.bw)[0].key == 'b'
    ensures OkConnection(s.conn) && OkBandwidths(s.bw)
    ensures Rank('i') < Rank('u') < Rank('e') < Rank('p') < Rank('c') < Rank('b') < Rank('t')
  {
  }

  lemma BodyBack(s: Session)
    requires OkFields(s) && s.times != []
    ensures var es := PrintBody(s);
            es != [] && From(es, 't')
            && (var (times, es2) := ReadTimes(es);
                var (zones, es3) := ReadZones(es2);
                var (key, es4) := Facultative(es3, 'k');
                var (attributes, es5) := Multiple(es4, 'a');
                times == s.times && zones == s.zones && key == s.encryptKey && attributes == s.attributes
                    && ReadMedias(es5) == s.medias)
  {
    var m := PrintMedias(s.medias);
    var a := PrintAll('a', s.attributes) + m;
    var k := PrintOption('k', s.encryptKey) + a;
    var z := PrintZones(s.zones) + k;
    MediasBack(s.medias);
    BodyKeys(s);
    assert PrintBody(s) == PrintTimes(s.times) + z && !At([], 'r');
    hide ReadTimes, ReadZones, ReadMedias, PrintOption, PrintAll, PrintTimes, PrintZones, PrintMedias, PrintBody,
        OkFields, OkTimes, Longs, Rank, Multiple, Facultative;
    Begins(PrintAll('a', s.attributes), 'a', m, 'm');
    Begins(PrintOption('k', s.encryptKey), 'k', a, 'a');
    Begins(PrintZones(s.zones), 'z', k, 'k');
    Begins(PrintTimes(s.times), 't', z, 'z');
    AllBack('a', s.attributes, m);
    OptionBack('k', s.encryptKey, a);
    ZonesBack(s.zones, k);
    TimesBack(s.times, z);
  }

  lemma BodyKeys(s: Session)
    requires OkFields(s)
    ensures PrintAll('a', s.attributes) == [] || PrintAll('a', s.attributes)[0].key == 'a'
    ensures PrintOption('k', s.encryptKey) == [] || PrintOption('k', s.encryptKey)[0].key == 'k'
    ensures PrintZones(s.zones) == [] || PrintZones(s.zones)[0].key == 'z'
    ensures PrintTimes(s.times) == [] || PrintTimes(s.times)[0].key == 't'
    ensures OkTimes(s.times) && Longs(ZoneNumbers(s.zones))
    ensures Rank('t') < Rank('z') < Rank('k') < Rank('a') < Rank('m') && Rank('r') < Rank('z')
  {
    hide OkFields, OkTimes, Longs, ZoneNumbers, ZonesText, TimeText, PrintRepeats, PrintTimes;
    TimesKey(s.times);
    OkBody(s);
  }

  lemma {:induction false} TimesKey(ts: seq<Time>)
    ensures PrintTimes(ts) == [] || PrintTimes(ts)[0].key == 't'
  {
    hide TimeText, PrintRepeats;
  }

  lemma OkBody(s: Session)
    requires OkFields(s)
    ensures OkTimes(s.times) && Longs(ZoneNumbers(s.zones))
  {
    hide OkOrigin, OkTimes, OkMedias, OkConnection, OkBandwidths, Longs, ZoneNumbers, LineAll, LineOption, Line;
  }

  lemma DigitsOfZero(n: int)
    ensures Decimal(n) == "0" <==> n == 0
  {
    if n >= 0 { DigitsBack(n); }
    assert Decimals("0") == 0;
  }

  /** Without a time entry in a session, the parser takes the first line behind the head for one, or finds none. */
  lemma TimeAlways(es: seq<Entry>)
    ensures Parse(es).Parsed? ==> Parse(es).s.times != [] && Parse(es).s.protoVersion == 0
  {
    hide ReadRepeats, ToTime, ToOrigin, ToZones, Multiple, Facultative, ReadMedias;
  }

  lemma ParseBack(s: Session)
    requires OkFields(s) && s.protoVersion == 0 && s.times != []
    ensures Parse(Printout(s)) == Parsed(s)
  {
    var es := Printout(s);
    DigitsOfZero(0);
    BodyBack(s);
    HeadBack(s, PrintBody(s));
    OriginBack(s.origin);
    ThreeLines(es, Decimal(0), OriginText(s.origin), s.name, es[3..]);
    hide ReadHead, ReadTimes, ReadZones, Facultative, Multiple, ReadMedias, PrintBody, PrintOption, PrintAll,
        PrintConnection, PrintBandwidths, OkFields,
      Decimal, OriginText, ToOrigin;
  }

  lemma ThreeLines(es: seq<Entry>, v: string, o: string, s: string, rest: seq<Entry>)
    requires es == [Entry('v', v), Entry('o', o), Entry('s', s)] + rest
    ensures At(es, 'v') && At(es[1..], 'o') && At(es[2..], 's') && es[3..] == rest
    ensures es[0].value == v && es[1].value == o && es[2].value == s
  {
  }

  // Lines without line breaks

  predicate Quiet(es: seq<Entry>)
  {
    forall e :: e in es ==> Clean(e)
  }

  predicate QuietFields(fs: seq<Field>)
  {
    forall f :: f in fs ==> NoBreaks(Printed(f))
  }

  lemma {:induction false} JoinQuiet(fs: seq<Field>, sep: char)
    requires QuietFields(fs) && IsSep(sep)
    ensures NoBreaks(Join(fs, sep))
  {
    if fs != [] {
      assert fs[0] in fs;
    }
    if |fs| > 1 {
      JoinQuiet(fs[1..], sep);
    }
  }

  lemma DecimalQuiet(n: int)
    ensures NoBreaks(Decimal(n))
  {
    hide Digits, Decimals;
    DigitsBack(if n < 0 then -n else n);
  }

  lemma {:induction false} NumbersQuiet(ns: seq<int>)
    ensures QuietFields(Numbers(ns))
  {
    if ns != [] {
      DecimalQuiet(ns[0]);
      NumbersQuiet(ns[1..]);
    }
  }

  lemma {:induction false} AllQuiet(key: char, vs: seq<string>)
    requires LineAll(vs) && key != '\r' && key != '\n'
    ensures Quiet(PrintAll(key, vs))
  {
    if vs != [] {
      AllQuiet(key, vs[1..]);
    }
  }

  lemma ConnectionQuiet(o: Option<Connection>)
    requires OkConnection(o)
    ensures Quiet(PrintConnection(o))
  {
    if o.Some? {
      var c := o.value;
      var fs := [Text(c.nettype), Text(c.addrtype), Text(c.address)];
      JoinQuiet(fs, ' ');
    }
  }

  lemma {:induction false} BandwidthsQuiet(bs: seq<Bandwidth>)
    requires OkBandwidths(bs)
    ensures Quiet(PrintBandwidths(bs))
  {
    if bs != [] {
      BandwidthsQuiet(bs[1..]);
      JoinQuiet([Text(bs[0].bwtype), Text(bs[0].bandwidth)], ':');
    }
  }

  lemma {:induction false} RepeatsQuiet(rs: seq<Repeat>)
    ensures Quiet(PrintRepeats(rs))
  {
    if rs != [] {
      RepeatsQuiet(rs[1..]);
      NumbersQuiet([rs[0].interval, rs[0].duration] + rs[0].offsets);
      JoinQuiet(Numbers([rs[0].interval, rs[0].duration] + rs[0].offsets), ' ');
    }
  }

  lemma {:induction false} TimesQuiet(ts: seq<Time>)
    ensures Quiet(PrintTimes(ts))
  {
    if ts != [] {
      RepeatsQuiet(ts[0].repeats);
      TimesQuiet(ts[1..]);
      NumbersQuiet([ts[0].startTime, ts[0].stopTime]);
      JoinQuiet(Numbers([ts[0].startTime, ts[0].stopTime]), ' ');
    }
  }

  lemma ZonesQuiet(zs: seq<Zone>)
    ensures Quiet(PrintZones(zs))
  {
    NumbersQuiet(ZoneNumbers(zs));
    JoinQuiet(Numbers(ZoneNumbers(zs)), ' ');
  }

  lemma OriginQuiet(o: Origin)
    requires OkOrigin(o)
    ensures NoBreaks(OriginText(o))
  {
    DecimalQuiet(o.sessId);
    DecimalQuiet(o.sessVersion);
    JoinQuiet([Text(o.username), Number(o.sessId), Number(o.sessVersion), Text(o.nettype), Text(o.addrtype),
               Text(o.addr)], ' ');
  }

  lemma InfoQuiet(i: Info)
    requires OkInfo(i)
    ensures NoBreaks(InfoText(i))
  {
    DecimalQuiet(i.port);
    DecimalQuiet(i.portN);
    NumbersQuiet(i.fmt);
    JoinQuiet([Text(i.proto)] + Numbers(i.fmt), ' ');
    JoinQuiet([Text(i.kind), Number(i.port)], ' ');
    hide Join, Decimal, Numbers;
  }

  lemma {:induction false} MediasQuiet(ms: seq<Media>)
    requires OkMedias(ms)
    ensures Quiet(PrintMedias(ms))
  {
    if ms != [] {
      var m := ms[0];
      MediasQuiet(ms[1..]);
      InfoQuiet(m.info);
      ConnectionQuiet(m.conn);
      BandwidthsQuiet(m.bw);
      AllQuiet('a', m.attributes);
      hide InfoText, PrintConnection, PrintBandwidths, PrintAll;
    }
  }

  lemma PrintoutQuiet(s: Session)
    requires OkFields(s)
    ensures Quiet(Printout(s))
  {
    DecimalQuiet(s.protoVersion);
    OriginQuiet(s.origin);
    AllQuiet('e', s.emails);
    AllQuiet('p', s.phones);
    ConnectionQuiet(s.conn);
    BandwidthsQuiet(s.bw);
    TimesQuiet(s.times);
    ZonesQuiet(s.zones);
    AllQuiet('a', s.attributes);
    MediasQuiet(s.medias);
    hide Decimal, OriginText, PrintAll, PrintConnection, PrintBandwidths, PrintTimes, PrintZones, PrintMedias;
  }

  /** Parsing the printed form of a session gives it back exactly when its version is 0 and it has a time entry. */
  lemma RoundTripExactly(s: Session)
    requires OkFields(s)
    ensures Parse(Entries(Lines(Printout(s)))) == Parsed(s) <==> s.protoVersion == 0 && s.times != []
  {
    PrintoutQuiet(s);
    EntriesOfLines(Printout(s));
    TimeAlways(Printout(s));
    if s.protoVersion == 0 && s.times != [] {
      ParseBack(s);
    }
    hide Parse, Printout, Lines, Entries, OkFields;
  }
}
