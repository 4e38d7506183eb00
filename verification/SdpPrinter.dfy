/** sdp_dump (sdp.c); what it sends to standard output is its result here. */
module SdpPrinters {
  import opened Bytes
  import opened SdpTexts
  import opened SdpFields
  import opened SdpSessions

  function LineOf(key: char, value: string): string
  {
    [key] + "=" + value + "\n"
  }

  lemma {:induction false} LinesConcat(a: seq<Entry>, b: seq<Entry>)
    ensures Lines(a + b) == Lines(a) + Lines(b)
  {
    if a == [] {
      assert a + b == b;
    } else {
      assert (a + b)[1..] == a[1..] + b;
      LinesConcat(a[1..], b);
    }
  }

  lemma {:induction false} OneLine(key: char, value: string, es: seq<Entry>)
    ensures Lines([Entry(key, value)] + es) == LineOf(key, value) + Lines(es)
  {
    assert ([Entry(key, value)] + es)[1..] == es;
  }

  method DumpOption(key: char, field: Option<string>) returns (out: string)
    ensures out == Lines(PrintOption(key, field))
  {
    out := "";
    if field.Some? {
      out := LineOf(key, field.value);
      OneLine(key, field.value, []);
    }
  }

  method DumpAll(key: char, field: seq<string>) returns (out: string)
    ensures out == Lines(PrintAll(key, field))
  {
    out := "";
    for i := 0 to |field|
      invariant out + Lines(PrintAll(key, field[i..])) == Lines(PrintAll(key, field))
    {
      assert field[i..][1..] == field[i + 1..];
      OneLine(key, field[i], PrintAll(key, field[i + 1..]));
      Appended(out, LineOf(key, field[i]), Lines(PrintAll(key, field[i + 1..])));
      out := out + LineOf(key, field[i]);
    }
  }

  lemma Appended(a: string, b: string, c: string)
    ensures a + (b + c) == a + b + c
  {
  }

  method DumpConnection(conn: Option<Connection>) returns (out: string)
    ensures out == Lines(PrintConnection(conn))
  {
    out := "";
    if conn.Some? {
      var c := conn.value;
      ThreeTexts(c.nettype, c.addrtype, c.address);
      OneLine('c', ConnectionText(c), []);
      out := LineOf('c', c.nettype + " " + c.addrtype + " " + c.address);
    }
  }

  lemma ThreeTexts(a: string, b: string, c: string)
    ensures Join([Text(a), Text(b), Text(c)], ' ') == a + " " + b + " " + c
  {
    assert [Text(a), Text(b), Text(c)][1..] == [Text(b), Text(c)];
    assert Join([Text(b), Text(c)], ' ') == b + [' '] + c;
  }

  lemma TwoTexts(a: string, b: string)
    ensures Join([Text(a), Text(b)], ':') == a + ":" + b
  {
    assert [Text(a), Text(b)][1..] == [Text(b)];
  }

  method DumpBandwidths(bw: seq<Bandwidth>) returns (out: string)
    ensures out == Lines(PrintBandwidths(bw))
  {
    out := "";
    for i := 0 to |bw|
      invariant out + Lines(PrintBandwidths(bw[i..])) == Lines(PrintBandwidths(bw))
    {
      assert bw[i..][1..] == bw[i + 1..];
      var line := bw[i].bwtype + ":" + bw[i].bandwidth;
      TwoTexts(bw[i].bwtype, bw[i].bandwidth);
      hide BandwidthText;
      OneLine('b', line, PrintBandwidths(bw[i + 1..]));
      Appended(out, LineOf('b', line), Lines(PrintBandwidths(bw[i + 1..])));
      out := out + LineOf('b', line);
    }
  }

  /** Numbers, each behind a blank. */
  function Spaced(ns: seq<int>): string
  {
    if ns == [] then "" else " " + Decimal(ns[0]) + Spaced(ns[1..])
  }

  lemma {:induction false} SpacedIsJoined(text: string, f: Field, ns: seq<int>)
    requires text == Printed(f)
    ensures text + Spaced(ns) == Join([f] + Numbers(ns), ' ')
    decreases |ns|
  {
    if ns != [] {
      SpacedIsJoined(Decimal(ns[0]), Number(ns[0]), ns[1..]);
      assert [Number(ns[0])] + Numbers(ns[1..]) == Numbers(ns);
      assert ([f] + Numbers(ns))[1..] == Numbers(ns);
      assert Join([f] + Numbers(ns), ' ') == text + [' '] + Join(Numbers(ns), ' ');
      hide Join, Decimal, Numbers;
      Blank(text, Decimal(ns[0]), Spaced(ns[1..]));
    } else {
      assert [f] + Numbers(ns) == [f];
    }
  }

  lemma Blank(a: string, b: string, c: string)
    ensures a + (" " + b + c) == a + [' '] + (b + c)
  {
  }

  /** The loops that print " %d". */
  method DumpNumbers(ns: seq<int>) returns (out: string)
    ensures out == Spaced(ns)
  {
    out := "";
    for i := 0 to |ns|
      invariant out + Spaced(ns[i..]) == Spaced(ns)
    {
      assert ns[i..][1..] == ns[i + 1..];
      Appended(out, " " + Decimal(ns[i]), Spaced(ns[i + 1..]));
      out := out + (" " + Decimal(ns[i]));
    }
  }

  method DumpRepeat(r: Repeat) returns (text: string)
    ensures text == RepeatText(r)
  {
    var offsets := DumpNumbers(r.offsets);
    text := Decimal(r.interval) + " " + Decimal(r.duration) + offsets;
    TwoAndMore(r.interval, r.duration, r.offsets);
  }

  lemma {:induction false} TwoAndMore(a: int, b: int, ns: seq<int>)
    ensures Decimal(a) + " " + Decimal(b) + Spaced(ns) == Join(Numbers([a, b] + ns), ' ')
  {
    hide Decimal, Join;
    SpacedIsJoined(Decimal(a), Number(a), [b] + ns);
    assert ([b] + ns)[1..] == ns && ([a, b] + ns)[1..] == [b] + ns;
  }

  method DumpRepeats(rs: seq<Repeat>) returns (out: string)
    ensures out == Lines(PrintRepeats(rs))
  {
    out := "";
    for i := 0 to |rs|
      invariant out + Lines(PrintRepeats(rs[i..])) == Lines(PrintRepeats(rs))
    {
      assert rs[i..][1..] == rs[i + 1..];
      var line := DumpRepeat(rs[i]);
      hide RepeatText;
      OneLine('r', line, PrintRepeats(rs[i + 1..]));
      Appended(out, LineOf('r', line), Lines(PrintRepeats(rs[i + 1..])));
      out := out + LineOf('r', line);
    }
  }

  method DumpTimes(ts: seq<Time>) returns (out: string)
    ensures out == Lines(PrintTimes(ts))
  {
    out := "";
    for i := 0 to |ts|
      invariant out + Lines(PrintTimes(ts[i..])) == Lines(PrintTimes(ts))
    {
      assert ts[i..][1..] == ts[i + 1..];
      var t := DumpTime(ts[i]);
      hide TimeText, PrintRepeats;
      OneLine('t', TimeText(ts[i]), PrintRepeats(ts[i].repeats) + PrintTimes(ts[i + 1..]));
      LinesConcat(PrintRepeats(ts[i].repeats), PrintTimes(ts[i + 1..]));
      Appended(LineOf('t', TimeText(ts[i])), Lines(PrintRepeats(ts[i].repeats)), Lines(PrintTimes(ts[i + 1..])));
      Appended(out, t, Lines(PrintTimes(ts[i + 1..])));
      out := out + t;
    }
  }

  method DumpTime(t: Time) returns (out: string)
    ensures out == LineOf('t', TimeText(t)) + Lines(PrintRepeats(t.repeats))
  {
    TwoAndMore(t.startTime, t.stopTime, []);
    assert [t.startTime, t.stopTime] + [] == [t.startTime, t.stopTime];
    out := LineOf('t', Decimal(t.startTime) + " " + Decimal(t.stopTime));
    var repeats := DumpRepeats(t.repeats);
    out := out + repeats;
  }

  method DumpZones(zs: seq<Zone>) returns (out: string)
    ensures out == Lines(PrintZones(zs))
  {
    out := "";
    if |zs| > 0 {
      var text := "";
      for i := 0 to |zs|
        invariant text + ZonesText(zs[i..]) == ZonesText(zs)
      {
        var item := Decimal(zs[i].adjust) + " " + Decimal(zs[i].offset) + (if i + 1 < |zs| then " " else "");
        ZonesCons(zs[i..]);
        assert zs[i..][1..] == zs[i + 1..];
        hide ZonesText;
        Appended(text, item, ZonesText(zs[i + 1..]));
        text := text + item;
      }
      OneLine('z', text, []);
      out := LineOf('z', text);
    }
  }

  lemma ZonesCons(zs: seq<Zone>)
    requires zs != []
    ensures ZonesText(zs)
            == Decimal(zs[0].adjust) + " " + Decimal(zs[0].offset) + (if |zs| > 1 then " " else "") + ZonesText(zs[1..])
  {
    var a, b, ns := zs[0].adjust, zs[0].offset, ZoneNumbers(zs[1..]);
    TwoAndMore(a, b, ns);
    if ns != [] {
      SpacedIsJoined(Decimal(ns[0]), Number(ns[0]), ns[1..]);
      assert [Number(ns[0])] + Numbers(ns[1..]) == Numbers(ns);
    }
    hide Decimal, Join;
  }

  method DumpInfo(i: Info) returns (text: string)
    ensures text == InfoText(i)
  {
    text := i.kind + " " + Decimal(i.port);
    assert text == Join([Text(i.kind), Number(i.port)], ' ');
    if i.portN != 0 {
      text := text + ("/" + Decimal(i.portN));
    }
    SpacedIsJoined(i.proto, Text(i.proto), i.fmt);
    var fmt := DumpNumbers(i.fmt);
    text := text + " " + (i.proto + fmt);
  }

  method DumpMedia(m: Media, ghost rest: seq<Entry>) returns (out: string)
    ensures out + Lines(rest) == Lines(PrintMedia(m, rest))
  {
    var info := DumpInfo(m.info);
    var title := DumpOption('i', m.title);
    var conn := DumpConnection(m.conn);
    var bw := DumpBandwidths(m.bw);
    var encryptKey := DumpOption('k', m.encryptKey);
    var attributes := DumpAll('a', m.attributes);
    out := LineOf('m', info) + title + conn + bw + encryptKey + attributes;
    ghost var a := PrintAll('a', m.attributes) + rest;
    ghost var k := PrintOption('k', m.encryptKey) + a;
    ghost var b := PrintBandwidths(m.bw) + k;
    ghost var c := PrintConnection(m.conn) + b;
    ghost var i := PrintOption('i', m.title) + c;
    hide InfoText, PrintAll, PrintOption, PrintBandwidths, PrintConnection, Lines, LineOf;
    LinesConcat(PrintAll('a', m.attributes), rest);
    LinesConcat(PrintOption('k', m.encryptKey), a);
    LinesConcat(PrintBandwidths(m.bw), k);
    LinesConcat(PrintConnection(m.conn), b);
    LinesConcat(PrintOption('i', m.title), c);
    OneLine('m', info, i);
    SixTexts(LineOf('m', info), title, conn, bw, encryptKey, attributes, Lines(rest));
  }

  lemma SixTexts(a: string, b: string, c: string, d: string, e: string, f: string, g: string)
    ensures a + b + c + d + e + f + g == a + (b + (c + (d + (e + (f + g)))))
  {
    assert a + b + c + d + e + f + g == a + b + c + (d + (e + (f + g)));
  }

  method DumpMedias(ms: seq<Media>) returns (out: string)
    ensures out == Lines(PrintMedias(ms))
  {
    out := "";
    for i := 0 to |ms|
      invariant out + Lines(PrintMedias(ms[i..])) == Lines(PrintMedias(ms))
    {
      assert ms[i..][1..] == ms[i + 1..];
      var m := DumpMedia(ms[i], PrintMedias(ms[i + 1..]));
      hide PrintMedia, Lines;
      Appended(out, m, Lines(PrintMedias(ms[i + 1..])));
      out := out + m;
    }
  }

  method DumpBody(s: Session) returns (out: string)
    ensures out == Lines(PrintBody(s))
  {
    var times := DumpTimes(s.times);
    var zones := DumpZones(s.zones);
    var encryptKey := DumpOption('k', s.encryptKey);
    var attributes := DumpAll('a', s.attributes);
    var medias := DumpMedias(s.medias);
    out := times + zones + encryptKey + attributes + medias;
    ghost var a := PrintAll('a', s.attributes) + PrintMedias(s.medias);
    ghost var k := PrintOption('k', s.encryptKey) + a;
    ghost var z := PrintZones(s.zones) + k;
    hide PrintTimes, PrintZones, PrintAll, PrintOption, PrintMedias, Lines;
    LinesConcat(PrintAll('a', s.attributes), PrintMedias(s.medias));
    LinesConcat(PrintOption('k', s.encryptKey), a);
    LinesConcat(PrintZones(s.zones), k);
    LinesConcat(PrintTimes(s.times), z);
    assert times + zones + encryptKey + attributes + medias == times + (zones + (encryptKey + (attributes + medias)));
  }

  method DumpOrigin(o: Origin) returns (text: string)
    ensures text == OriginText(o)
  {
    text := o.username + " " + Decimal(o.sessId) + " " + Decimal(o.sessVersion) + " "
        + (o.nettype + " " + o.addrtype + " " + o.addr);
    ThreeTexts(o.nettype, o.addrtype, o.addr);
    ghost var net := [Text(o.nettype), Text(o.addrtype), Text(o.addr)];
    ghost var f1, f2, f3 := Text(o.username), Number(o.sessId), Number(o.sessVersion);
    assert [f1, f2, f3, net[0], net[1], net[2]] == [f1] + ([f2] + ([f3] + net));
    JoinCons(f3, net);
    JoinCons(f2, [f3] + net);
    JoinCons(f1, [f2] + ([f3] + net));
    hide Join, Decimal;
    Levelled(o.username, Decimal(o.sessId), Decimal(o.sessVersion), o.nettype + " " + o.addrtype + " " + o.addr);
  }

  lemma Levelled(a: string, b: string, c: string, d: string)
    ensures a + " " + b + " " + c + " " + d == a + " " + (b + " " + (c + " " + d))
  {
  }

  lemma {:induction false} JoinCons(f: Field, fs: seq<Field>)
    requires fs != []
    ensures Join([f] + fs, ' ') == Printed(f) + " " + Join(fs, ' ')
  {
    assert ([f] + fs)[1..] == fs;
  }

  /** sdp_dump. */
  method SdpDump(s: Session) returns (out: string)
    ensures out == Lines(Printout(s))
  {
    var origin := DumpOrigin(s.origin);
    var information := DumpOption('i', s.information);
    var uri := DumpOption('u', s.uri);
    var emails := DumpAll('e', s.emails);
    var phones := DumpAll('p', s.phones);
    var conn := DumpConnection(s.conn);
    var bw := DumpBandwidths(s.bw);
    var body := DumpBody(s);
    var first := LineOf('v', Decimal(s.protoVersion)) + LineOf('o', origin) + LineOf('s', s.name);
    out := first + information + uri + emails + phones + conn + (bw + body);
    ghost var b := PrintBandwidths(s.bw) + PrintBody(s);
    ghost var c := PrintConnection(s.conn) + b;
    ghost var p := PrintAll('p', s.phones) + c;
    ghost var e := PrintAll('e', s.emails) + p;
    ghost var u := PrintOption('u', s.uri) + e;
    ghost var i := PrintOption('i', s.information) + u;
    hide OriginText, PrintAll, PrintOption, PrintBandwidths, PrintConnection, PrintBody, Lines, LineOf, Decimal;
    LinesConcat(PrintBandwidths(s.bw), PrintBody(s));
    LinesConcat(PrintConnection(s.conn), b);
    LinesConcat(PrintAll('p', s.phones), c);
    LinesConcat(PrintAll('e', s.emails), p);
    LinesConcat(PrintOption('u', s.uri), e);
    LinesConcat(PrintOption('i', s.information), u);
    FirstLines(Decimal(s.protoVersion), origin, s.name, i);
    SixTexts(first, information, uri, emails, phones, conn, bw + body);
  }

  lemma {:induction false} FirstLines(v: string, o: string, s: string, es: seq<Entry>)
    ensures Lines([Entry('v', v), Entry('o', o), Entry('s', s)] + es)
            == LineOf('v', v) + LineOf('o', o) + LineOf('s', s) + Lines(es)
  {
    var three := [Entry('v', v), Entry('o', o), Entry('s', s)];
    assert three + es == [three[0]] + ([three[1]] + ([three[2]] + es));
    hide Lines, LineOf;
    OneLine('s', s, es);
    OneLine('o', o, [three[2]] + es);
    OneLine('v', v, [three[1]] + ([three[2]] + es));
  }
}
