/** What sdp_parse makes of the entries of a text, and which entries sdp_dump prints (section 5 of RFC 4566). */
module SdpSessions {
  import opened Bytes
  import opened SdpTexts
  import opened SdpFields

  datatype Connection = Connection(nettype: string, addrtype: string, address: string)
  datatype Bandwidth = Bandwidth(bwtype: string, bandwidth: string)
  datatype Repeat = Repeat(interval: int, duration: int, offsets: seq<int>)
  datatype Time = Time(startTime: int, stopTime: int, repeats: seq<Repeat>)
  datatype Zone = Zone(adjust: int, offset: int)
  datatype Origin = Origin(username: string, sessId: int, sessVersion: int, nettype: string, addrtype: string,
                           addr: string)
  datatype Info = Info(kind: string, port: int, portN: int, proto: string, fmt: seq<int>)

  datatype Media = Media(info: Info, title: Option<string>, conn: Option<Connection>, bw: seq<Bandwidth>,
                         encryptKey: Option<string>, attributes: seq<string>)

  /** sdp_payload. */
  datatype Session = Session(protoVersion: int, origin: Origin, name: string, information: Option<string>,
                             uri: Option<string>, emails: seq<string>, phones: seq<string>,
                             conn: Option<Connection>, bw: seq<Bandwidth>, times: seq<Time>, zones: seq<Zone>,
                             encryptKey: Option<string>, attributes: seq<string>, medias: seq<Media>)

  /** The outcome of sdp_parse: a session, NULL, or a null pointer it splits for want of any line where the first time
      line should be. */
  datatype Outcome = Parsed(s: Session) | Failed | NullDereferenced

  predicate At(es: seq<Entry>, key: char)
  {
    es != [] && es[0].key == key
  }

  // Reading the lines of one key

  function Facultative(es: seq<Entry>, key: char): (r: (Option<string>, seq<Entry>))
    ensures |r.1| <= |es|
  {
    if At(es, key) then (Some(es[0].value), es[1..]) else (None, es)
  }

  function Multiple(es: seq<Entry>, key: char): (r: (seq<string>, seq<Entry>))
    ensures |r.1| <= |es|
  {
    if At(es, key) then
      var (vs, rest) := Multiple(es[1..], key);
      ([es[0].value] + vs, rest)
    else ([], es)
  }

  function ToConnection(value: string): Connection
  {
    var fs := Split(value, ' ', "sss").0;
    Connection(fs[0].text, fs[1].text, fs[2].text)
  }

  function ReadConnection(es: seq<Entry>): (r: (Option<Connection>, seq<Entry>))
    ensures |r.1| <= |es|
  {
    if At(es, 'c') then (Some(ToConnection(es[0].value)), es[1..]) else (None, es)
  }

  function ToBandwidth(value: string): Bandwidth
  {
    var fs := Split(value, ':', "ss").0;
    Bandwidth(fs[0].text, fs[1].text)
  }

  function ReadBandwidths(es: seq<Entry>): (r: (seq<Bandwidth>, seq<Entry>))
    ensures |r.1| <= |es|
  {
    if At(es, 'b') then
      var (bs, rest) := ReadBandwidths(es[1..]);
      ([ToBandwidth(es[0].value)] + bs, rest)
    else ([], es)
  }

  /** Numbers to the end of a line. */
  function ToNumbers(value: string, c: char): seq<int>
    requires c != 's'
    decreases |value|
  {
    if value == "" then []
    else
      var (fs, rest) := Split(value, ' ', [c]);
      [fs[0].n] + ToNumbers(rest, c)
  }

  function ToRepeat(value: string): Repeat
  {
    var (fs, rest) := Split(value, ' ', "tt");
    Repeat(fs[0].n, fs[1].n, ToNumbers(rest, 't'))
  }

  function ReadRepeats(es: seq<Entry>): (r: (seq<Repeat>, seq<Entry>))
    ensures |r.1| <= |es|
  {
    if At(es, 'r') then
      var (rs, rest) := ReadRepeats(es[1..]);
      ([ToRepeat(es[0].value)] + rs, rest)
    else ([], es)
  }

  function ToTime(value: string, repeats: seq<Repeat>): Time
  {
    var fs := Split(value, ' ', "tt").0;
    Time(fs[0].n, fs[1].n, repeats)
  }

  /** The first line is taken for a time line whatever its key is. */
  function ReadTimes(es: seq<Entry>): (r: (seq<Time>, seq<Entry>))
    requires es != []
    ensures |r.1| < |es|
    decreases |es|
  {
    var (rs, rest) := ReadRepeats(es[1..]);
    var t := ToTime(es[0].value, rs);
    if At(rest, 't') then
      var (ts, end) := ReadTimes(rest);
      ([t] + ts, end)
    else ([t], rest)
  }

  function ToZones(value: string): seq<Zone>
    decreases |value|
  {
    if value == "" then []
    else
      var (fs, rest) := Split(value, ' ', "tt");
      [Zone(fs[0].n, fs[1].n)] + ToZones(rest)
  }

  function ReadZones(es: seq<Entry>): (r: (seq<Zone>, seq<Entry>))
    ensures |r.1| <= |es|
  {
    if At(es, 'z') then (ToZones(es[0].value), es[1..]) else ([], es)
  }

  function ToOrigin(value: string): Origin
  {
    var fs := Split(value, ' ', "sllsss").0;
    Origin(fs[0].text, fs[1].n, fs[2].n, fs[3].text, fs[4].text, fs[5].text)
  }

  /** The number behind a slash, if there is one, and the rest. */
  function PortCount(value: string): (int, string)
  {
    if value != "" && value[0] == '/' then
      var (n, used) := StrTol(value[1..]);
      (ToInt(n), value[1 + used..])
    else (0, value)
  }

  function ToInfo(value: string): Info
  {
    var (kind, afterKind) := Split(value, ' ', "s");
    var (port, used) := StrTol(afterKind);
    var (portN, afterPort) := PortCount(afterKind[used..]);
    var (proto, rest) := Split(afterPort, ' ', "s");
    Info(kind[0].text, ToInt(port), portN, proto[0].text, ToNumbers(rest, 'i'))
  }

  function ReadMedia(es: seq<Entry>): (r: (Media, seq<Entry>))
    requires es != []
    ensures |r.1| < |es|
  {
    var (title, es1) := Facultative(es[1..], 'i');
    var (conn, es2) := ReadConnection(es1);
    var (bw, es3) := ReadBandwidths(es2);
    var (key, es4) := Facultative(es3, 'k');
    var (attributes, es5) := Multiple(es4, 'a');
    (Media(ToInfo(es[0].value), title, conn, bw, key, attributes), es5)
  }

  function ReadMedias(es: seq<Entry>): seq<Media>
    decreases |es|
  {
    if At(es, 'm') then
      var (m, rest) := ReadMedia(es);
      [m] + ReadMedias(rest)
    else []
  }

  /** What precedes the time lines. */
  datatype Head = Head(information: Option<string>, uri: Option<string>, emails: seq<string>, phones: seq<string>,
                       conn: Option<Connection>, bw: seq<Bandwidth>)

  function ReadHead(es: seq<Entry>): (Head, seq<Entry>)
  {
    var (information, es1) := Facultative(es, 'i');
    var (uri, es2) := Facultative(es1, 'u');
    var (emails, es3) := Multiple(es2, 'e');
    var (phones, es4) := Multiple(es3, 'p');
    var (conn, es5) := ReadConnection(es4);
    var (bw, es6) := ReadBandwidths(es5);
    (Head(information, uri, emails, phones, conn, bw), es6)
  }

  /** sdp_parse, on the entries of its text. */
  function Parse(es: seq<Entry>): Outcome
  {
    if !(At(es, 'v') && es[0].value == "0") then Failed
    else if !At(es[1..], 'o') || !At(es[2..], 's') then Failed
    else
      var (head, es1) := ReadHead(es[3..]);
      if es1 == [] then NullDereferenced
      else
        var (times, es2) := ReadTimes(es1);
        var (zones, es3) := ReadZones(es2);
        var (key, es4) := Facultative(es3, 'k');
        var (attributes, es5) := Multiple(es4, 'a');
        Parsed(Session(0, ToOrigin(es[1].value), es[2].value, head.information, head.uri, head.emails, head.phones,
                       head.conn, head.bw, times, zones, key, attributes, ReadMedias(es5)))
  }

  // Printing

  function PrintOption(key: char, o: Option<string>): seq<Entry>
  {
    match o
    case None => []
    case Some(value) => [Entry(key, value)]
  }

  function PrintAll(key: char, vs: seq<string>): seq<Entry>
  {
    if vs == [] then [] else [Entry(key, vs[0])] + PrintAll(key, vs[1..])
  }

  function ConnectionText(c: Connection): string
  {
    Join([Text(c.nettype), Text(c.addrtype), Text(c.address)], ' ')
  }

  function PrintConnection(o: Option<Connection>): seq<Entry>
  {
    match o
    case None => []
    case Some(c) => [Entry('c', ConnectionText(c))]
  }

  function BandwidthText(b: Bandwidth): string
  {
    Join([Text(b.bwtype), Text(b.bandwidth)], ':')
  }

  function PrintBandwidths(bs: seq<Bandwidth>): seq<Entry>
  {
    if bs == [] then [] else [Entry('b', BandwidthText(bs[0]))] + PrintBandwidths(bs[1..])
  }

  function Numbers(ns: seq<int>): seq<Field>
  {
    if ns == [] then [] else [Number(ns[0])] + Numbers(ns[1..])
  }

  function RepeatText(r: Repeat): string
  {
    Join(Numbers([r.interval, r.duration] + r.offsets), ' ')
  }

  function PrintRepeats(rs: seq<Repeat>): seq<Entry>
  {
    if rs == [] then [] else [Entry('r', RepeatText(rs[0]))] + PrintRepeats(rs[1..])
  }

  function TimeText(t: Time): string
  {
    Join(Numbers([t.startTime, t.stopTime]), ' ')
  }

  function PrintTimes(ts: seq<Time>): seq<Entry>
  {
    if ts == [] then [] else [Entry('t', TimeText(ts[0]))] + (PrintRepeats(ts[0].repeats) + PrintTimes(ts[1..]))
  }

  function ZoneNumbers(zs: seq<Zone>): seq<int>
  {
    if zs == [] then [] else [zs[0].adjust, zs[0].offset] + ZoneNumbers(zs[1..])
  }

  function ZonesText(zs: seq<Zone>): string
  {
    Join(Numbers(ZoneNumbers(zs)), ' ')
  }

  function PrintZones(zs: seq<Zone>): seq<Entry>
  {
    if zs == [] then [] else [Entry('z', ZonesText(zs))]
  }

  function OriginText(o: Origin): string
  {
    Join([Text(o.username), Number(o.sessId), Number(o.sessVersion), Text(o.nettype), Text(o.addrtype), Text(o.addr)],
         ' ')
  }

  function InfoText(i: Info): string
  {
    Join([Text(i.kind), Number(i.port)], ' ') + (if i.portN != 0 then "/" + Decimal(i.portN) else "")
    + " " + Join([Text(i.proto)] + Numbers(i.fmt), ' ')
  }

  function PrintMedia(m: Media, rest: seq<Entry>): seq<Entry>
  {
    [Entry('m', InfoText(m.info))] + (PrintOption('i', m.title) + (PrintConnection(m.conn) + (PrintBandwidths(m.bw)
    + (PrintOption('k', m.encryptKey) + (PrintAll('a', m.attributes) + rest)))))
  }

  function PrintMedias(ms: seq<Media>): seq<Entry>
  {
    if ms == [] then [] else PrintMedia(ms[0], PrintMedias(ms[1..]))
  }

  /** The lines from the time lines on. */
  function PrintBody(s: Session): seq<Entry>
  {
    PrintTimes(s.times)
    + (PrintZones(s.zones) + (PrintOption('k', s.encryptKey) + (PrintAll('a', s.attributes) + PrintMedias(s.medias))))
  }

  /** sdp_dump, as entries. */
  function Printout(s: Session): seq<Entry>
  {
    [Entry('v', Decimal(s.protoVersion)), Entry('o', OriginText(s.origin)), Entry('s', s.name)]
    + (PrintOption('i', s.information) + (PrintOption('u', s.uri) + (PrintAll('e', s.emails) + (PrintAll('p', s.phones)
    + (PrintConnection(s.conn) + (PrintBandwidths(s.bw) + PrintBody(s)))))))
  }
}
