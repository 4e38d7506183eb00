/** The text level of sdp.c: lines, separated fields and decimal numbers. The source cuts its buffer into pieces by
    writing NULs into it; here the pieces are strings of their own. */
module SdpTexts {
  import opened Bytes

  /** A line: its key letter and what stands behind the equals sign. */
  datatype Entry = Entry(key: char, value: string)

  /** Whether a CR LF stands at position x. */
  predicate CrLfAt(p: string, x: nat)
  {
    x + 1 < |p| && p[x] == '\r' && p[x + 1] == '\n'
  }

  /** Where a substring, or a character, first occurs; behind the end if nowhere. */
  function FindCrLf(p: string, i: nat): (e: nat)
    requires i <= |p|
    ensures i <= e <= |p|
    ensures forall x :: i <= x < e ==> !CrLfAt(p, x)
    ensures e < |p| ==> CrLfAt(p, e)
    decreases |p| - i
  {
    if i + 1 >= |p| then |p| else if p[i] == '\r' && p[i + 1] == '\n' then i else FindCrLf(p, i + 1)
  }

  function Find(p: string, c: char, i: nat): (e: nat)
    requires i <= |p|
    ensures i <= e <= |p|
    ensures forall x :: i <= x < e ==> p[x] != c
    ensures e < |p| ==> p[e] == c
    decreases |p| - i
  {
    if i == |p| || p[i] == c then i else Find(p, c, i + 1)
  }

  /** Where the first line ends: at the first CR LF of the whole text if there is one, else at the first LF. */
  function EndOfLine(p: string): (e: nat)
    ensures e <= |p|
  {
    var e := FindCrLf(p, 0);
    if e < |p| then e else Find(p, '\n', 0)
  }

  /** Behind any line breaks from i on. */
  function SkipBreaks(p: string, i: nat): (e: nat)
    requires i <= |p|
    ensures i <= e <= |p|
    decreases |p| - i
  {
    if i < |p| && (p[i] == '\r' || p[i] == '\n') then SkipBreaks(p, i + 1) else i
  }

  /** load_next_entry: the line and the rest, unless the line is no entry. */
  function NextEntry(p: string): Option<(Entry, string)>
  {
    var e := EndOfLine(p);
    if e < 2 || p[1] != '=' then None else Some((Entry(p[0], p[2..e]), p[SkipBreaks(p, e)..]))
  }

  /** All entries that can be loaded one after the other. */
  function Entries(p: string): seq<Entry>
    decreases |p|
  {
    match NextEntry(p)
    case None => []
    case Some((entry, rest)) => [entry] + Entries(rest)
  }

  /** Lines as they are printed. */
  function Lines(es: seq<Entry>): string
  {
    if es == [] then "" else [es[0].key] + "=" + es[0].value + "\n" + Lines(es[1..])
  }

  predicate NoBreaks(s: string)
  {
    '\r' !in s && '\n' !in s
  }

  predicate Clean(e: Entry)
  {
    e.key != '\r' && e.key != '\n' && NoBreaks(e.value)
  }

  lemma {:induction false} LinesHaveNoCr(es: seq<Entry>)
    requires forall e :: e in es ==> Clean(e)
    ensures '\r' !in Lines(es)
    ensures es != [] ==> Lines(es) != "" && Lines(es)[0] != '\n' && Lines(es)[0] != '\r'
  {
    if es != [] {
      assert es[0] in es;
      LinesHaveNoCr(es[1..]);
    }
  }

  lemma {:induction false} NoCrLf(p: string, i: nat)
    requires i <= |p| && '\r' !in p
    ensures FindCrLf(p, i) == |p|
    decreases |p| - i
  {
    if i + 1 < |p| { NoCrLf(p, i + 1); }
  }

  lemma {:induction false} Found(p: string, c: char, i: nat, e: nat)
    requires i <= e < |p| && p[e] == c && forall x :: i <= x < e ==> p[x] != c
    ensures Find(p, c, i) == e
  {
  }

  /** Printed lines are loaded again as they were. */
  lemma {:induction false} EntriesOfLines(es: seq<Entry>)
    requires forall e :: e in es ==> Clean(e)
    ensures Entries(Lines(es)) == es
  {
    hide NextEntry, Clean;
    if es == [] {
      NothingLoads();
    } else {
      assert es[0] in es;
      LinesHaveNoCr(es[1..]);
      LineLoads(es[0], Lines(es[1..]));
      EntriesOfLines(es[1..]);
    }
  }

  lemma NothingLoads()
    ensures NextEntry("") == None
  {
  }

  /** The first of such lines, and where the next one begins. */
  lemma LineLoads(entry: Entry, rest: string)
    requires Clean(entry) && '\r' !in rest && (rest != "" ==> rest[0] != '\n')
    ensures NextEntry([entry.key] + "=" + entry.value + "\n" + rest) == Some((entry, rest))
  {
    hide FindCrLf, Find, SkipBreaks;
    var v, p := entry.value, [entry.key] + "=" + entry.value + "\n" + rest;
    var e := 2 + |v|;
    LineParts(entry, rest);
    NoCrLf(p, 0);
    Found(p, '\n', 0, e);
    assert p[2..e] == v;
    OneBreak(p, e);
  }

  lemma LineParts(entry: Entry, rest: string)
    requires Clean(entry) && '\r' !in rest
    ensures var p, e := [entry.key] + "=" + entry.value + "\n" + rest, 2 + |entry.value|;
            '\r' !in p && p[e] == '\n' && p[e + 1..] == rest && forall x :: 0 <= x < e ==> p[x] != '\n'
  {
  }

  lemma OneBreak(p: string, e: nat)
    requires e < |p| && p[e] == '\n' && (e + 1 < |p| ==> p[e + 1] != '\n' && p[e + 1] != '\r')
    ensures SkipBreaks(p, e) == e + 1
  {
    assert SkipBreaks(p, e + 1) == e + 1;
  }
}
