/** What split_values makes of text that no printer wrote: runs of separators, blanks and signs in front of numbers,
    numbers too large or missing (sdp.c). */
module SdpLoose {
  import opened SdpFields

  // ---- Separators ----

  function Seps(sep: char, n: nat): (s: string)
    ensures |s| == n && forall i :: 0 <= i < n ==> s[i] == sep
  {
    seq(n, _ => sep)
  }

  /** Fields with gs[i] separators behind field i. */
  function Spaced(fs: seq<Field>, gs: seq<nat>, sep: char): string
    requires |gs| == |fs|
  {
    if fs == [] then "" else Printed(fs[0]) + Seps(sep, gs[0]) + Spaced(fs[1..], gs[1..], sep)
  }

  /** At least one separator between two fields. */
  predicate Apart(gs: seq<nat>)
  {
    forall i :: 0 <= i < |gs| - 1 ==> gs[i] > 0
  }

  lemma {:induction false} SkipRun(sep: char, n: nat, rest: string)
    requires rest == "" || rest[0] != sep
    ensures SkipSep(Seps(sep, n) + rest, sep) == rest
  {
    if n == 0 {
      assert Seps(sep, 0) + rest == rest;
    } else {
      assert (Seps(sep, n) + rest)[1..] == Seps(sep, n - 1) + rest;
      SkipRun(sep, n - 1, rest);
    }
  }

  lemma FieldFirst(f: Field, sep: char, c: char)
    requires IsSep(sep) && Sound(f, sep, c)
    ensures Printed(f) != "" && Printed(f)[0] != sep
  {
    FieldBack(f, sep, c, "");
  }

  lemma {:induction false} SpacedFirst(fs: seq<Field>, gs: seq<nat>, sep: char, fmt: string)
    requires |gs| == |fs| && IsSep(sep) && AllSound(fs, sep, fmt)
    ensures var p := Spaced(fs, gs, sep); p == "" || p[0] != sep
  {
    if fs != [] {
      FieldFirst(fs[0], sep, fmt[0]);
    }
  }

  /** A field ends at the first separator, and all separators behind it are passed over. */
  lemma {:induction false} FieldSkips(f: Field, sep: char, c: char, rest: string)
    requires IsSep(sep) && Sound(f, sep, c) && (rest == "" || rest[0] == sep)
    ensures Convert(Printed(f) + rest, sep, c) == (f, SkipSep(rest, sep))
  {
    hide StrTol, Decimal, SkipSep, Token;
    var s := Printed(f);
    assert (s + rest)[|s|..] == rest;
    match f
    case Text(text) => TokenBack(text, sep, rest);
    case Number(n) =>
      NumberBack(n, rest);
  }

  lemma {:induction false} SpacedBack(fs: seq<Field>, gs: seq<nat>, sep: char, fmt: string)
    requires |gs| == |fs| && IsSep(sep) && AllSound(fs, sep, fmt) && Apart(gs)
    ensures Conversions(Spaced(fs, gs, sep), sep, fmt) == (fs, "")
    decreases |fs|
  {
    hide Convert, Sound, Printed, SkipSep;
    if fs != [] {
      var rest := Spaced(fs[1..], gs[1..], sep);
      var tail := Seps(sep, gs[0]) + rest;
      SpacedFirst(fs[1..], gs[1..], sep, fmt[1..]);
      SkipRun(sep, gs[0], rest);
      assert Spaced(fs, gs, sep) == Printed(fs[0]) + tail;
      assert |fs| == 1 ==> rest == "";
      assert tail == "" || tail[0] == sep;
      FieldSkips(fs[0], sep, fmt[0], tail);
      SpacedBack(fs[1..], gs[1..], sep, fmt[1..]);
      assert [fs[0]] + fs[1..] == fs;
    }
  }

  /** Any number of separators counts as one, and those in front of the first field and behind the last as none. */
  lemma {:induction false} SplitSpaced(g: nat, fs: seq<Field>, gs: seq<nat>, sep: char, fmt: string)
    requires |gs| == |fs| && IsSep(sep) && AllSound(fs, sep, fmt) && Apart(gs)
    ensures Split(Seps(sep, g) + Spaced(fs, gs, sep), sep, fmt) == (fs, "")
  {
    hide Spaced, Conversions, SkipSep;
    SpacedFirst(fs, gs, sep, fmt);
    SkipRun(sep, g, Spaced(fs, gs, sep));
    SpacedBack(fs, gs, sep, fmt);
  }

  // ---- Numbers ----

  /** Blanks, tabs and the like. */
  predicate Blanks(w: string)
  {
    forall i :: 0 <= i < |w| ==> w[i] == ' ' || 9 <= w[i] as int <= 13
  }

  predicate AllDigits(ds: string)
  {
    forall i :: 0 <= i < |ds| ==> '0' <= ds[i] <= '9'
  }

  lemma {:induction false} SpacesCounted(w: string, rest: string)
    requires Blanks(w) && (rest == "" || !(rest[0] == ' ' || 9 <= rest[0] as int <= 13))
    ensures CountSpaces(w + rest) == |w|
  {
    if w == "" {
      assert w + rest == rest;
    } else {
      assert (w + rest)[1..] == w[1..] + rest;
      SpacesCounted(w[1..], rest);
    }
  }

  /** The text begins with exactly k digits. */
  predicate DigitsFirst(t: string, k: nat)
  {
    k <= |t| && AllDigits(t[..k]) && (k < |t| ==> !('0' <= t[k] <= '9'))
  }

  /** A number is read behind blanks and a sign, digit by digit whatever their number, and held within 64 bits. */
  lemma NumberRead(w: string, sign: string, t: string, k: nat)
    requires Blanks(w) && (sign == "" || sign == "+" || sign == "-")
    requires 0 < k && DigitsFirst(t, k)
    ensures var v := if sign == "-" then -(Decimals(t[..k]) as int) else Decimals(t[..k]);
            StrTol(w + (sign + t))
            == (if v > 9223372036854775807 then 9223372036854775807
                else if v < -9223372036854775808 then -9223372036854775808 else v,
                |w| + |sign| + k)
  {
    hide Decimals, Leading, StrTol, CountSpaces, Blanks;
    assert '0' <= t[0] <= '9' by {
      assert t[0] == t[..k][0];
    }
    DigitsRead(t, k);
    NumberThere(w, sign, t);
  }

  lemma DigitsRead(t: string, k: nat)
    requires DigitsFirst(t, k)
    ensures Leading(t) == (Decimals(t[..k]) as int, k)
  {
    hide Decimals;
    DigitsCounted(t[..k], t[k..]);
    assert t[..k] + t[k..] == t;
  }

  lemma NumberThere(w: string, sign: string, t: string)
    requires Blanks(w) && (sign == "" || sign == "+" || sign == "-")
    requires t != "" && '0' <= t[0] <= '9' && Leading(t).1 > 0
    ensures StrTol(w + (sign + t)) == (Clamp(if sign == "-" then -Leading(t).0 else Leading(t).0),
                                       |w| + |sign| + Leading(t).1)
  {
    hide Leading, StrTol, CountSpaces, Blanks;
    var s := w + (sign + t);
    SpacesCounted(w, sign + t);
    assert s[|w|] == if sign == "" then t[0] else sign[0];
    assert s[|w| + |sign|..] == t;
    NumberAt(s, |w|, sign == "-", |w| + |sign|);
  }

  lemma {:induction false} NumberAt(s: string, w: nat, minus: bool, from: nat)
    requires CountSpaces(s) == w && w < |s| && from <= |s| && Leading(s[from..]).1 > 0
    requires (from == w && !minus && s[w] != '+' && s[w] != '-')
             || (from == w + 1 && s[w] == if minus then '-' else '+')
    ensures var (v, d) := Leading(s[from..]); StrTol(s) == (Clamp(if minus then -v else v), from + d)
  {
    hide Leading, CountSpaces, Clamp;
  }

  /** Where there is no digit behind blanks and a sign there is no number. */
  lemma NumberMissing(w: string, sign: string, rest: string)
    requires Blanks(w) && (sign == "" || sign == "+" || sign == "-")
    requires rest == "" || !('0' <= rest[0] <= '9')
    requires sign == "" && rest != "" ==>
               rest[0] != '+' && rest[0] != '-' && rest[0] != ' ' && !(9 <= rest[0] as int <= 13)
    ensures StrTol(w + sign + rest) == (0, 0)
  {
    var s := w + sign + rest;
    assert s == w + (sign + rest);
    SpacesCounted(w, sign + rest);
    assert s[|w| + |sign|..] == rest;
  }

  /** What a conversion yields at the end of the text. */
  function Nothing(c: char): Field
  {
    if c == 's' then Text("") else Number(0)
  }

  lemma {:induction false} NothingLeft(sep: char, fmt: string)
    ensures var fs := Conversions("", sep, fmt).0; Conversions("", sep, fmt).1 == ""
    ensures forall i :: 0 <= i < |fmt| ==> Conversions("", sep, fmt).0[i] == Nothing(fmt[i])
  {
    if fmt != "" {
      NumberMissing("", "", "");
      NothingLeft(sep, fmt[1..]);
    }
  }

  /** If a number is missing, so is all that follows on the line: the numbers are 0 and the texts empty. */
  lemma {:induction false} RestIsLost(p: string, sep: char, fmt: string)
    requires fmt != "" && fmt[0] != 's' && StrTol(p) == (0, 0)
    ensures Conversions(p, sep, fmt).1 == ""
    ensures forall i :: 0 <= i < |fmt| ==> Conversions(p, sep, fmt).0[i] == Nothing(fmt[i])
  {
    hide StrTol;
    NothingLeft(sep, fmt[1..]);
  }

  /** The conversions i and l take no unit: what is behind the digits stays, and an int is what fits 32 bits. */
  lemma {:induction false} IntegerRead(n: int, sep: char, c: char, rest: string)
    requires -LONGMAX - 1 <= n <= LONGMAX && (c == 'i' || c == 'l') && (rest == "" || !('0' <= rest[0] <= '9'))
    ensures Convert(Decimal(n) + rest, sep, c) == (Number(if c == 'i' then ToInt(n) else n), SkipSep(rest, sep))
  {
    hide StrTol, Decimal, SkipSep, ToInt;
    NumberBack(n, rest);
    assert (Decimal(n) + rest)[|Decimal(n)|..] == rest;
  }

  /** A number too large for an int is stored modulo 2^32. */
  lemma IntWraps(v: int)
    ensures -0x8000_0000 <= ToInt(v) < 0x8000_0000 && (v - ToInt(v)) % 0x1_0000_0000 == 0
  {
  }
}
