/** sdp_parse and its helpers (sdp.c), as loops over the text. */
module SdpParsers {
  import opened Bytes
  import opened SdpTexts
  import opened SdpFields
  import opened SdpSessions
  import opened SdpOutcomes

  /** A result whose list has some items in front. */
  function Prefix<T, U>(xs: seq<T>, r: (seq<T>, U)): (seq<T>, U)
  {
    (xs + r.0, r.1)
  }

  lemma PrefixNone<T, U>(r: (seq<T>, U))
    ensures Prefix([], r) == r
  {
    assert [] + r.0 == r.0;
  }

  lemma PrefixSnoc<T, U>(xs: seq<T>, x: T, r: (seq<T>, U))
    ensures Prefix(xs, ([x] + r.0, r.1)) == Prefix(xs + [x], r)
  {
    assert xs + ([x] + r.0) == (xs + [x]) + r.0;
  }

  lemma Snoc<T>(xs: seq<T>, x: T, ys: seq<T>)
    ensures xs + ([x] + ys) == (xs + [x]) + ys
  {
  }

  lemma PrefixAll<T, U>(xs: seq<T>, u: U)
    ensures Prefix(xs, ([], u)) == (xs, u)
  {
    assert xs + [] == xs;
  }

  lemma {:induction false} TimesStep(times: seq<Time>, t: Time, es: seq<Entry>, rest: seq<Entry>)
    requires es != [] && ReadRepeats(es[1..]).1 == rest && t == ToTime(es[0].value, ReadRepeats(es[1..]).0)
    ensures Prefix(times, ReadTimes(es)) == if At(rest, 't') then Prefix(times + [t], ReadTimes(rest))
            else (times + [t], rest)
  {
    hide ToTime, ReadRepeats;
    if At(rest, 't') {
      PrefixSnoc(times, t, ReadTimes(rest));
    }
  }

  /** split_values, the separators first. */
  method SkipSeparators(p: string, sep: char) returns (q: string)
    ensures q == SkipSep(p, sep)
  {
    q := p;
    while q != "" && q[0] == sep
      invariant SkipSep(q, sep) == SkipSep(p, sep)
      decreases |q|
    {
      q := q[1..];
    }
  }

  /** split_values. */
  method SplitValues(text: string, sep: char, fmt: string) returns (fields: seq<Field>, p: string)
    ensures (fields, p) == Split(text, sep, fmt)
  {
    p := SkipSeparators(text, sep);
    ghost var start := p;
    fields := [];
    assert fmt[0..] == fmt && fmt[|fmt|..] == "";
    PrefixNone(Conversions(p, sep, fmt));
    hide Convert, Prefix;
    for i := 0 to |fmt|
      invariant Conversions(start, sep, fmt) == Prefix(fields, Conversions(p, sep, fmt[i..]))
    {
      var (field, rest) := Convert(p, sep, fmt[i]);
      assert fmt[i..][1..] == fmt[i + 1..];
      PrefixSnoc(fields, field, Conversions(rest, sep, fmt[i + 1..]));
      fields := fields + [field];
      p := rest;
    }
    PrefixAll(fields, p);
  }

  /** The loops over the numbers left in a line. */
  method ReadNumbers(text: string, c: char) returns (ns: seq<int>)
    requires c != 's'
    ensures ns == ToNumbers(text, c)
  {
    var value := text;
    ns := [];
    while value != ""
      invariant ns + ToNumbers(value, c) == ToNumbers(text, c)
      decreases |value|
    {
      var fields, rest := SplitValues(value, ' ', [c]);
      Snoc(ns, fields[0].n, ToNumbers(rest, c));
      ns := ns + [fields[0].n];
      value := rest;
    }
  }

  method ReadZoneList(text: string) returns (zs: seq<Zone>)
    ensures zs == ToZones(text)
  {
    var value := text;
    zs := [];
    hide Split;
    while value != ""
      invariant zs + ToZones(value) == ToZones(text)
      decreases |value|
    {
      var fields, rest := SplitValues(value, ' ', "tt");
      Snoc(zs, Zone(fields[0].n, fields[1].n), ToZones(rest));
      zs := zs + [Zone(fields[0].n, fields[1].n)];
      value := rest;
    }
  }

  /** The text pointer p and the current key and value of sdp_parse. */
  class Reader {
    var p: string
    var entry: Option<Entry>

    /** The current entry and those that can still be loaded. */
    function Ahead(): seq<Entry>
      reads this
    {
      match entry
      case None => []
      case Some(e) => [e] + Entries(p)
    }

    constructor (text: string)
      ensures Ahead() == Entries(text)
    {
      p, entry := text, None;
      new;
      LoadNextEntry();
    }

    /** load_next_entry. */
    method LoadNextEntry()
      modifies this
      ensures Ahead() == Entries(old(p))
    {
      var endl := EndOfLine(p);
      if endl < 2 || p[1] != '=' {
        p, entry := "", None;
        return;
      }
      var next := endl;
      while next < |p| && (p[next] == '\r' || p[next] == '\n')
        invariant endl <= next <= |p| && p == old(p)
        invariant SkipBreaks(p, next) == SkipBreaks(p, endl)
      {
        next := next + 1;
      }
      entry := Some(Entry(p[0], p[2..endl]));
      p := p[next..];
    }

    predicate Sees(key: char)
      reads this
      ensures Sees(key) <==> At(Ahead(), key)
    {
      entry.Some? && entry.value.key == key
    }

    /** Uses up the current entry. */
    method Next() returns (value: string)
      requires Ahead() != []
      modifies this
      ensures [old(Ahead())[0]] + Ahead() == old(Ahead()) && value == old(Ahead())[0].value
    {
      value := entry.value.value;
      LoadNextEntry();
    }

    method LoadFacultative(key: char) returns (field: Option<string>)
      modifies this
      ensures (field, Ahead()) == Facultative(old(Ahead()), key)
    {
      field := None;
      if Sees(key) {
        var value := Next();
        field := Some(value);
      }
    }

    method LoadMultiple(key: char) returns (field: seq<string>)
      modifies this
      ensures (field, Ahead()) == Multiple(old(Ahead()), key)
    {
      field := [];
      ghost var es := Ahead();
      PrefixNone(Multiple(es, key));
      hide Prefix;
      while Sees(key)
        invariant Multiple(es, key) == Prefix(field, Multiple(Ahead(), key))
        decreases |Ahead()|
      {
        var value := Next();
        PrefixSnoc(field, value, Multiple(Ahead(), key));
        field := field + [value];
      }
      PrefixAll(field, Ahead());
    }

    method GetConnInfo() returns (conn: Option<Connection>)
      modifies this
      ensures (conn, Ahead()) == ReadConnection(old(Ahead()))
    {
      conn := None;
      if Sees('c') {
        var value := Next();
        var fields, _ := SplitValues(value, ' ', "sss");
        conn := Some(Connection(fields[0].text, fields[1].text, fields[2].text));
      }
    }

    method GetBandwidthInfo() returns (bw: seq<Bandwidth>)
      modifies this
      ensures (bw, Ahead()) == ReadBandwidths(old(Ahead()))
    {
      bw := [];
      ghost var es := Ahead();
      PrefixNone(ReadBandwidths(es));
      hide Prefix, Split;
      while Sees('b')
        invariant ReadBandwidths(es) == Prefix(bw, ReadBandwidths(Ahead()))
        decreases |Ahead()|
      {
        var value := Next();
        var fields, _ := SplitValues(value, ':', "ss");
        PrefixSnoc(bw, ToBandwidth(value), ReadBandwidths(Ahead()));
        bw := bw + [Bandwidth(fields[0].text, fields[1].text)];
      }
      PrefixAll(bw, Ahead());
    }

    static method GetRepeat(value: string) returns (repeat: Repeat)
      ensures repeat == ToRepeat(value)
    {
      var fields, rest := SplitValues(value, ' ', "tt");
      var offsets := ReadNumbers(rest, 't');
      repeat := Repeat(fields[0].n, fields[1].n, offsets);
    }

    method GetRepeats() returns (repeats: seq<Repeat>)
      modifies this
      ensures (repeats, Ahead()) == ReadRepeats(old(Ahead()))
    {
      repeats := [];
      ghost var es := Ahead();
      PrefixNone(ReadRepeats(es));
      hide Prefix, ToRepeat;
      while Sees('r')
        invariant ReadRepeats(es) == Prefix(repeats, ReadRepeats(Ahead()))
        decreases |Ahead()|
      {
        var value := Next();
        var repeat := GetRepeat(value);
        PrefixSnoc(repeats, repeat, ReadRepeats(Ahead()));
        repeats := repeats + [repeat];
      }
      PrefixAll(repeats, Ahead());
    }

    method GetTimes() returns (times: seq<Time>)
      requires Ahead() != []
      modifies this
      ensures (times, Ahead()) == ReadTimes(old(Ahead()))
    {
      times := [];
      ghost var es := Ahead();
      PrefixNone(ReadTimes(es));
      hide Prefix, ToTime, ReadRepeats, ReadTimes;
      var more := true;
      while more
        invariant if more then Ahead() != [] && ReadTimes(es) == Prefix(times, ReadTimes(Ahead()))
                  else ReadTimes(es) == (times, Ahead())
        decreases more, |Ahead()|
      {
        ghost var here := Ahead();
        var t := GetTime();
        more := Sees('t');
        TimesStep(times, t, here, Ahead());
        times := times + [t];
      }
    }

    /** A time line and its repeats. */
    method GetTime() returns (t: Time)
      requires Ahead() != []
      modifies this
      ensures var (rs, rest) := ReadRepeats(old(Ahead())[1..]);
              t == ToTime(old(Ahead())[0].value, rs) && Ahead() == rest
      ensures |Ahead()| < |old(Ahead())|
    {
      var value := Next();
      var fields, _ := SplitValues(value, ' ', "tt");
      var repeats := GetRepeats();
      t := Time(fields[0].n, fields[1].n, repeats);
    }

    method GetZones() returns (zones: seq<Zone>)
      modifies this
      ensures (zones, Ahead()) == ReadZones(old(Ahead()))
    {
      zones := [];
      if Sees('z') {
        var value := Next();
        zones := ReadZoneList(value);
      }
    }

    static method GetInfo(text: string) returns (info: Info)
      ensures info == ToInfo(text)
    {
      hide Split, StrTol, ToNumbers, ToInt;
      var kind, value := SplitValues(text, ' ', "s");
      var (port, used) := StrTol(value);
      value := value[used..];
      var portN := 0;
      if value != "" && value[0] == '/' {
        var (n, m) := StrTol(value[1..]);
        portN := ToInt(n);
        value := value[1 + m..];
      }
      var proto, rest := SplitValues(value, ' ', "s");
      var fmt := ReadNumbers(rest, 'i');
      info := Info(kind[0].text, ToInt(port), portN, proto[0].text, fmt);
    }

    method GetMedias() returns (medias: seq<Media>)
      modifies this
      ensures medias == ReadMedias(old(Ahead()))
    {
      medias := [];
      ghost var es := Ahead();
      hide ReadMedia, Entries;
      while Sees('m')
        invariant ReadMedias(es) == medias + ReadMedias(Ahead())
        decreases |Ahead()|
      {
        var m := GetMedia();
        Snoc(medias, m, ReadMedias(Ahead()));
        medias := medias + [m];
      }
    }

    method GetMedia() returns (media: Media)
      requires Ahead() != []
      modifies this
      ensures (media, Ahead()) == ReadMedia(old(Ahead()))
    {
      var value := Next();
      var info := GetInfo(value);
      var title := LoadFacultative('i');
      var conn := GetConnInfo();
      var bw := GetBandwidthInfo();
      var encryptKey := LoadFacultative('k');
      var attributes := LoadMultiple('a');
      media := Media(info, title, conn, bw, encryptKey, attributes);
    }
  }

  /** sdp_parse. */
  method SdpParse(payload: string) returns (outcome: Outcome)
    ensures outcome == Parse(Entries(payload))
    ensures outcome == NullDereferenced <==> Leads(Entries(payload)) && HeadOnly(Entries(payload)[3..], 1)
  {
    OutcomeExactly(Entries(payload));
    var r := new Reader(payload);
    hide ToOrigin, ReadConnection, ReadBandwidths, ReadTimes, ReadZones, ReadMedias, Facultative, Multiple, Split,
        Entries;
    hide HeadOnly, Leads;
    if !r.Sees('v') {
      return Failed;
    }
    var version := r.Next();
    if version != "0" {
      return Failed;
    }
    if !r.Sees('o') {
      return Failed;
    }
    var originText := r.Next();
    var origin := GetOrigin(originText);
    if !r.Sees('s') {
      return Failed;
    }
    var name := r.Next();
    assert r.Ahead() == Entries(payload)[3..];
    var head := GetHead(r);
    if r.entry.None? {
      assert r.Ahead() == [];
      return NullDereferenced;
    }
    var times := r.GetTimes();
    var zones := r.GetZones();
    var encryptKey := r.LoadFacultative('k');
    var attributes := r.LoadMultiple('a');
    var medias := r.GetMedias();
    outcome := Parsed(Session(0, origin, name, head.information, head.uri, head.emails, head.phones, head.conn, head.bw,
                              times, zones, encryptKey, attributes, medias));
  }

  method GetOrigin(value: string) returns (origin: Origin)
    ensures origin == ToOrigin(value)
  {
    var fs, _ := SplitValues(value, ' ', "sllsss");
    origin := Origin(fs[0].text, fs[1].n, fs[2].n, fs[3].text, fs[4].text, fs[5].text);
  }

  method GetHead(r: Reader) returns (head: Head)
    modifies r
    ensures (head, r.Ahead()) == ReadHead(old(r.Ahead()))
  {
    hide ReadConnection, ReadBandwidths, Facultative, Multiple, Entries;
    var information := r.LoadFacultative('i');
    var uri := r.LoadFacultative('u');
    var emails := r.LoadMultiple('e');
    var phones := r.LoadMultiple('p');
    var conn := r.GetConnInfo();
    var bw := r.GetBandwidthInfo();
    head := Head(information, uri, emails, phones, conn, bw);
  }
}
