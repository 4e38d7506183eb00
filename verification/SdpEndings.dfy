/** Which line endings a description may have (load_next_entry of sdp.c; section 5 of RFC 4566 ends every line with CR
    LF, and lets a parser accept a LF alone). */
module SdpEndings {
  import opened Bytes
  import opened SdpTexts
  import opened SdpFields
  import opened SdpSessions
  import opened SdpRoundTrips

  /** Only CRs and LFs. */
  predicate Gap(g: string)
  {
    forall x :: 0 <= x < |g| ==> g[x] == '\r' || g[x] == '\n'
  }

  function LineText(e: Entry): (t: string)
    ensures |t| == 2 + |e.value|
  {
    [e.key] + "=" + e.value
  }

  /** The entries as lines, each with its own gap behind it. */
  function Spread(es: seq<Entry>, gs: seq<string>): string
    requires |gs| == |es|
  {
    if es == [] then "" else LineText(es[0]) + gs[0] + Spread(es[1..], gs[1..])
  }

  ghost predicate HasCrLf(p: string)
  {
    exists x: nat :: x < |p| && CrLfAt(p, x)
  }

  ghost predicate AnyCrLf(gs: seq<string>)
  {
    gs != [] && (HasCrLf(gs[0]) || AnyCrLf(gs[1..]))
  }

  /** A gap that ends its line right, with `later` to come: it begins with CR LF; or with LF, and no CR LF is to come;
      or nothing at all is to come. */
  ghost predicate EndsRight(g: string, later: seq<string>)
  {
    || CrLfAt(g, 0)
    || (g != "" && g[0] == '\n' && !HasCrLf(g) && !AnyCrLf(later))
    || (g == "" && later == [])
  }

  ghost predicate AllEndRight(gs: seq<string>)
  {
    gs == [] || (EndsRight(gs[0], gs[1..]) && AllEndRight(gs[1..]))
  }

  predicate AllClean(es: seq<Entry>)
  {
    es == [] || (Clean(es[0]) && AllClean(es[1..]))
  }

  predicate AllGaps(gs: seq<string>)
  {
    gs == [] || (Gap(gs[0]) && AllGaps(gs[1..]))
  }

  /** No break at the front. */
  predicate NoBreakFirst(p: string)
  {
    p == "" || (p[0] != '\r' && p[0] != '\n')
  }

  lemma {:induction false} SpreadFirst(es: seq<Entry>, gs: seq<string>)
    requires |gs| == |es| && AllClean(es)
    ensures NoBreakFirst(Spread(es, gs)) && (es == [] <==> Spread(es, gs) == "")
  {
  }

  lemma {:induction false} FindsCrLf(p: string)
    ensures FindCrLf(p, 0) < |p| <==> HasCrLf(p)
  {
    if HasCrLf(p) {
      var x: nat :| x < |p| && CrLfAt(p, x);
    }
  }

  lemma CleanLine(e: Entry)
    requires Clean(e)
    ensures NoBreaks(LineText(e))
  {
  }

  lemma CrLfInGap(a: string, g: string, rest: string)
    requires NoBreaks(a) && NoBreakFirst(rest)
    ensures HasCrLf(a + g + rest) <==> HasCrLf(g) || HasCrLf(rest)
  {
    var p := a + g + rest;
    forall x: nat | x < |g| && CrLfAt(g, x) ensures CrLfAt(p, |a| + x) {
    }
    forall x: nat | x < |rest| && CrLfAt(rest, x) ensures CrLfAt(p, |a| + |g| + x) {
    }
    forall x: nat | x < |p| && CrLfAt(p, x) ensures HasCrLf(g) || HasCrLf(rest) {
      if |a| <= x < |a| + |g| {
        assert CrLfAt(g, x - |a|);
      } else if |a| + |g| <= x {
        assert CrLfAt(rest, x - |a| - |g|);
      }
    }
  }

  lemma {:induction false} SpreadCrLf(es: seq<Entry>, gs: seq<string>)
    requires |gs| == |es| && AllClean(es)
    ensures HasCrLf(Spread(es, gs)) <==> AnyCrLf(gs)
  {
    hide HasCrLf, LineText, Clean;
    if es == [] {
      EmptyHasNone();
    } else {
      SpreadFirst(es[1..], gs[1..]);
      SpreadCrLf(es[1..], gs[1..]);
      CleanLine(es[0]);
      CrLfInGap(LineText(es[0]), gs[0], Spread(es[1..], gs[1..]));
    }
  }

  lemma EmptyHasNone()
    ensures !HasCrLf("")
  {
  }

  /** Where a line ends: right behind its own text exactly when its gap ends it right. */
  lemma {:induction false} EndsExactly(a: string, g: string, rest: string, later: seq<string>)
    requires NoBreaks(a) && Gap(g) && NoBreakFirst(rest)
    requires (rest == "" <==> later == []) && (HasCrLf(rest) <==> AnyCrLf(later))
    ensures EndOfLine(a + g + rest) == |a| <==> EndsRight(g, later)
  {
    var p := a + g + rest;
    CrLfInGap(a, g, rest);
    FindsCrLf(p);
    hide HasCrLf, AnyCrLf;
    assert CrLfAt(p, |a|) <==> CrLfAt(g, 0) by {
      FirstCrLf(a, g, rest);
    }
    assert g != "" ==> p[|a|] == g[0];
    assert g == "" && rest != "" ==> p[|a|] == rest[0];
  }

  lemma FirstCrLf(a: string, g: string, rest: string)
    requires NoBreaks(a) && NoBreakFirst(rest)
    ensures CrLfAt(a + g + rest, |a|) <==> CrLfAt(g, 0)
  {
    var p := a + g + rest;
    assert |g| == 1 && rest != "" ==> p[|a| + 1] == rest[0];
    assert |g| == 0 && rest != "" ==> p[|a|] == rest[0];
  }

  lemma {:induction false} SkipsGap(p: string, i: nat, j: nat)
    requires i <= j <= |p| && Gap(p[i..j]) && NoBreakFirst(p[j..])
    ensures SkipBreaks(p, i) == j
    decreases j - i
  {
    if i < j {
      assert p[i] == p[i..j][0];
      assert p[i + 1..j] == p[i..j][1..];
      SkipsGap(p, i + 1, j);
    } else if j < |p| {
      assert p[j] == p[j..][0];
    }
  }

  /** Loading a text gives its entries back exactly when every gap ends its line right: CR LF lines may be followed by
      LF lines, but not the other way round, as a CR LF anywhere behind hides every LF in front of it. */
  lemma {:induction false} EndingsExactly(es: seq<Entry>, gs: seq<string>)
    requires |gs| == |es| && AllClean(es) && AllGaps(gs)
    ensures Entries(Spread(es, gs)) == es <==> AllEndRight(gs)
  {
    hide EndsRight, EndOfLine, Clean, Gap, NoBreaks;
    if es == [] {
      assert NextEntry("") == None;
    } else {
      var a, g, rest := LineText(es[0]), gs[0], Spread(es[1..], gs[1..]);
      var p := a + g + rest;
      SpreadFirst(es[1..], gs[1..]);
      SpreadCrLf(es[1..], gs[1..]);
      CleanLine(es[0]);
      EndsExactly(a, g, rest, gs[1..]);
      EndingsExactly(es[1..], gs[1..]);
      if EndOfLine(p) == |a| {
        LoadsFirst(es[0], g, rest);
      } else {
        OtherEntry(p, es);
      }
    }
  }

  lemma {:induction false} LoadsFirst(e: Entry, g: string, rest: string)
    requires Gap(g) && NoBreakFirst(rest) && EndOfLine(LineText(e) + g + rest) == 2 + |e.value|
    ensures var es := Entries(LineText(e) + g + rest); es != [] && es[0] == e && es[1..] == Entries(rest)
  {
    hide EndOfLine, Gap, SkipBreaks;
    var a, p := LineText(e), LineText(e) + g + rest;
    assert p[|a|..|a| + |g|] == g && p[|a| + |g|..] == rest;
    SkipsGap(p, |a|, |a| + |g|);
    assert p[2..|a|] == e.value;
    assert NextEntry(p) == Some((e, rest));
  }

  lemma {:induction false} OtherEntry(p: string, es: seq<Entry>)
    requires es != [] && EndOfLine(p) != 2 + |es[0].value|
    ensures Entries(p) != es
  {
    hide EndOfLine;
  }

  function Times(n: nat, g: string): (gs: seq<string>)
    ensures |gs| == n
  {
    if n == 0 then [] else [g] + Times(n - 1, g)
  }

  lemma {:induction false} AlikeEndRight(n: nat, g: string)
    requires g == "\n" || g == "\r\n"
    ensures AllEndRight(Times(n, g)) && AllGaps(Times(n, g)) && (g == "\n" ==> !AnyCrLf(Times(n, g)))
  {
    assert CrLfAt("\r\n", 0);
    if n > 0 {
      AlikeEndRight(n - 1, g);
    }
  }

  lemma {:induction false} AllAreClean(es: seq<Entry>)
    requires forall e :: e in es ==> Clean(e)
    ensures AllClean(es)
  {
    if es != [] {
      assert es[0] in es;
      AllAreClean(es[1..]);
    }
  }

  /** A session is printed with LF. Sent with CR LF at every line, as the standard has it, or with any gaps that end
      their lines right, it parses to the same session exactly when its version is 0 and it has a time entry. */
  lemma {:induction false} RoundTripAnyEnding(s: Session, gs: seq<string>)
    requires OkFields(s) && |gs| == |Printout(s)| && AllGaps(gs) && AllEndRight(gs)
    ensures Parse(Entries(Spread(Printout(s), gs))) == Parsed(s) <==> s.protoVersion == 0 && s.times != []
  {
    hide Parse, Printout, OkFields, Entries, Spread, Lines, Clean, AllGaps;
    PrintoutQuiet(s);
    AllAreClean(Printout(s));
    EndingsExactly(Printout(s), gs);
    RoundTripExactly(s);
    EntriesOfLines(Printout(s));
  }

  /** For any clean entries, all lines may end in CR LF, or all in LF. */
  lemma {:induction false} AlikeLoads(es: seq<Entry>, g: string)
    requires AllClean(es) && (g == "\n" || g == "\r\n")
    ensures Entries(Spread(es, Times(|es|, g))) == es
  {
    AlikeEndRight(|es|, g);
    EndingsExactly(es, Times(|es|, g));
    hide Entries, Spread, AllClean, AllGaps, AllEndRight;
  }

  /** One LF in front of CR LF lines, and a description is refused: its version line does not end before the second
      line. */
  lemma {:induction false} MixedFails(rest: string)
    requires HasCrLf(rest)
    ensures Parse(Entries("v=0\n" + rest)) == Failed
  {
    hide Entries, SkipBreaks;
    var p := "v=0\n" + rest;
    LateCrLf(rest);
    assert EndOfLine(p) >= 4;
    FirstValue(p);
    VersionFails(Entries(p));
  }

  lemma LateCrLf(rest: string)
    requires HasCrLf(rest)
    ensures HasCrLf("v=0\n" + rest)
  {
    var x: nat :| x < |rest| && CrLfAt(rest, x);
    assert CrLfAt("v=0\n" + rest, 4 + x);
  }

  lemma {:induction false} FirstValue(p: string)
    ensures Entries(p) == [] || |Entries(p)[0].value| == EndOfLine(p) - 2
  {
    hide EndOfLine;
  }

  lemma VersionFails(es: seq<Entry>)
    requires es == [] || |es[0].value| != 1
    ensures Parse(es) == Failed
  {
    hide ReadHead, ReadTimes, ReadZones, ReadMedias, Facultative, Multiple;
  }
}
