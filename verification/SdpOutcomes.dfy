/** Which texts sdp_parse accepts, refuses, or dereferences a null pointer on, told by their keys alone (sdp.c). */
module SdpOutcomes {
  import opened SdpTexts
  import opened SdpFields
  import opened SdpSessions
  import opened SdpRoundTrips

  /** The mandatory first three lines. */
  predicate Leads(es: seq<Entry>)
  {
    |es| >= 3 && es[0] == Entry('v', "0") && es[1].key == 'o' && es[2].key == 's'
  }

  /** A key of a line in front of the time lines. */
  predicate HeadKey(key: char)
  {
    1 <= Rank(key) <= 6
  }

  predicate Repeatable(key: char)
  {
    key == 'e' || key == 'p' || key == 'b'
  }

  /** The entries are, in this order, at most one i, at most one u, any number of e and of p, at most one c, any number
      of b, from the key of rank n on; and nothing else. */
  predicate HeadOnly(es: seq<Entry>, n: nat)
  {
    es == []
    || (var key := es[0].key;
        HeadKey(key) && n <= Rank(key) && HeadOnly(es[1..], if Repeatable(key) then Rank(key) else Rank(key) + 1))
  }

  lemma {:induction false} FacultativeShape(es: seq<Entry>, key: char)
    requires HeadKey(key) && !Repeatable(key)
    ensures HeadOnly(es, Rank(key)) <==> HeadOnly(Facultative(es, key).1, Rank(key) + 1)
  {
  }

  lemma {:induction false} MultipleShape(es: seq<Entry>, key: char)
    requires Repeatable(key)
    ensures HeadOnly(es, Rank(key)) <==> HeadOnly(Multiple(es, key).1, Rank(key) + 1)
  {
    if At(es, key) {
      MultipleShape(es[1..], key);
    }
  }

  lemma {:induction false} ConnectionShape(es: seq<Entry>)
    ensures HeadOnly(es, 5) <==> HeadOnly(ReadConnection(es).1, 6)
  {
  }

  lemma {:induction false} BandwidthsShape(es: seq<Entry>)
    ensures HeadOnly(es, 6) <==> ReadBandwidths(es).1 == []
  {
    if At(es, 'b') {
      BandwidthsShape(es[1..]);
    }
  }

  /** The parser runs out of lines in front of the time lines exactly on entries of that shape. */
  lemma {:induction false} HeadExactly(es: seq<Entry>)
    ensures ReadHead(es).1 == [] <==> HeadOnly(es, 1)
  {
    var es1 := Facultative(es, 'i').1;
    var es2 := Facultative(es1, 'u').1;
    var es3 := Multiple(es2, 'e').1;
    var es4 := Multiple(es3, 'p').1;
    var es5 := ReadConnection(es4).1;
    assert ReadHead(es).1 == ReadBandwidths(es5).1;
    FacultativeShape(es, 'i');
    FacultativeShape(es1, 'u');
    MultipleShape(es2, 'e');
    MultipleShape(es3, 'p');
    ConnectionShape(es4);
    BandwidthsShape(es5);
    assert Rank('i') == 1 && Rank('u') == 2 && Rank('e') == 3 && Rank('p') == 4;
    hide HeadOnly, Facultative, Multiple, ReadConnection, ReadBandwidths, ReadHead, Rank;
  }

  /** The outcome, for all inputs: refused exactly without the three lines; a null pointer dereferenced exactly when
      only lines of the head follow them; else parsed. */
  lemma OutcomeExactly(es: seq<Entry>)
    ensures Parse(es) == Failed <==> !Leads(es)
    ensures Parse(es) == NullDereferenced <==> Leads(es) && HeadOnly(es[3..], 1)
    ensures Parse(es).Parsed? <==> Leads(es) && !HeadOnly(es[3..], 1)
  {
    if Leads(es) {
      HeadExactly(es[3..]);
    }
    hide HeadOnly, ReadHead, ReadTimes, ReadZones, Facultative, Multiple, ReadMedias, ToOrigin;
  }

  /** Three lines of that kind. */
  function BareEntries(): seq<Entry>
  {
    [Entry('v', "0"), Entry('o', "x"), Entry('s', "x")]
  }

  lemma BareText()
    ensures Lines(BareEntries()) == "v=0\no=x\ns=x\n"
  {
    var es := BareEntries();
    assert Lines(es[2..]) == "s=x\n" && es[1..][1..] == es[2..];
    assert Lines(es[1..]) == "o=x\ns=x\n";
    assert Lines(es) == "v=0\no=x\ns=x\n";
  }

  lemma BareClean()
    ensures forall e :: e in BareEntries() ==> Clean(e)
    ensures Leads(BareEntries()) && BareEntries()[3..] == []
  {
  }

  lemma NoTimeLine()
    ensures Parse(Entries("v=0\no=x\ns=x\n")) == NullDereferenced
  {
    BareText();
    BareClean();
    OutcomeExactly(BareEntries());
    assert HeadOnly([], 1);
    hide Parse, Entries, Lines, HeadOnly, BareEntries, Clean, Leads;
    EntriesOfLines(BareEntries());
  }

  /** A line with another key where the first time line is due is taken for one, and lost. */
  lemma AttributeForTime(origin: string, name: string, value: string)
    requires value != "" && !IsSpace(value[0]) && !IsDigit(value[0]) && value[0] != '-' && value[0] != '+'
    ensures var o := Parse([Entry('v', "0"), Entry('o', origin), Entry('s', name), Entry('a', value)]);
            o.Parsed? && o.s.times == [Time(0, 0, [])] && o.s.attributes == []
  {
    var line := Entry('a', value);
    var es := [Entry('v', "0"), Entry('o', origin), Entry('s', name), line];
    assert es[1..][0] == es[1] && es[2..][0] == es[2] && es[3..] == [line];
    assert ReadHead([line]).1 == [line];
    assert [line][1..] == [];
    NoNumbers(value);
    hide Split, ToOrigin;
  }

  lemma NoNumbers(value: string)
    requires value != "" && !IsSpace(value[0]) && !IsDigit(value[0]) && value[0] != '-' && value[0] != '+'
    ensures Split(value, ' ', "tt").0 == [Number(0), Number(0)]
  {
    assert value[0..] == value;
    assert StrTol(value) == (0, 0);
    assert StrTol("") == (0, 0);
    assert "tt"[1..] == "t" && "t"[1..] == "";
    hide StrTol;
  }
}
