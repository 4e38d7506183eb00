/** split_values of sdp.c, and what printing with single separators does with it. */
module SdpFields {

  /** A value read by the conversion s, l, i or t. */
  datatype Field = Text(text: string) | Number(n: int)

  const LONGMAX: int := 0x7FFF_FFFF_FFFF_FFFF

  predicate IsDigit(c: char)
  {
    '0' <= c <= '9'
  }

  /** Whether strtol passes over a character in front of a number. */
  predicate IsSpace(c: char)
  {
    c == ' ' || '\t' <= c <= '\r'
  }

  function CountSpaces(s: string): (n: nat)
    ensures n <= |s|
  {
    if s != "" && IsSpace(s[0]) then 1 + CountSpaces(s[1..]) else 0
  }

  function CountDigits(s: string): (n: nat)
    ensures n <= |s|
    ensures forall i :: 0 <= i < n ==> IsDigit(s[i])
  {
    if s != "" && IsDigit(s[0]) then 1 + CountDigits(s[1..]) else 0
  }

  function Decimals(s: string): nat
    requires forall i :: 0 <= i < |s| ==> IsDigit(s[i])
  {
    if s == "" then 0
    else
      assert IsDigit(s[|s| - 1]);
      10 * Decimals(s[..|s| - 1]) + (s[|s| - 1] as int - '0' as int)
  }

  function Clamp(v: int): int
  {
    if v > LONGMAX then LONGMAX else if v < -LONGMAX - 1 then -LONGMAX - 1 else v
  }

  /** strtol in base ten, for 64-bit longs: the number, and how many characters it takes up. */
  function StrTol(s: string): (r: (int, nat))
    ensures r.1 <= |s|
  {
    var w := CountSpaces(s);
    var minus := w < |s| && s[w] == '-';
    var from := if minus || (w < |s| && s[w] == '+') then w + 1 else w;
    var (v, d) := Leading(s[from..]);
    if d == 0 then (0, 0) else (Clamp(if minus then -v else v), from + d)
  }

  /** The digits a text begins with: their number, and how many there are. */
  function Leading(s: string): (r: (int, nat))
    ensures r.1 <= |s|
  {
    (Decimals(s[..CountDigits(s)]), CountDigits(s))
  }

  /** A long stored in a 32-bit int. */
  function ToInt(v: int): int
  {
    (v + 0x8000_0000) % 0x1_0000_0000 - 0x8000_0000
  }

  function SkipSep(p: string, sep: char): (r: string)
    ensures |r| <= |p| && (p != "" && p[0] == sep ==> |r| < |p|)
    ensures r == "" || r[0] != sep
  {
    if p != "" && p[0] == sep then SkipSep(p[1..], sep) else p
  }

  /** The characters in front of the first separator. */
  function Token(p: string, sep: char): (t: string)
    ensures |t| <= |p| && t == p[..|t|]
  {
    if p == "" || p[0] == sep then "" else [p[0]] + Token(p[1..], sep)
  }

  /** A number of seconds, with the unit that may stand behind it, and how many characters the unit takes up. */
  function Seconds(v: int, unit: string): (int, nat)
  {
    if unit == "" then (v, 0)
    else if unit[0] == 'd' then (v * 86400, 1)
    else if unit[0] == 'h' then (v * 3600, 1)
    else if unit[0] == 'm' then (v * 60, 1)
    else (v, 0)
  }

  /** One conversion: the field and the rest of the text, which is lost if there is no number where one should be. */
  function Convert(p: string, sep: char, c: char): (r: (Field, string))
    ensures |r.1| <= |p| && (p != "" && p[0] != sep ==> |r.1| < |p|)
    ensures r.1 == "" || r.1[0] != sep
    ensures r.0.Text? <==> c == 's'
  {
    if c == 's' then
      var t := Token(p, sep);
      (Text(t), SkipSep(p[|t|..], sep))
    else
      var (v, n) := StrTol(p);
      if n == 0 then (Number(0), "")
      else if c == 't' then
        var (seconds, m) := Seconds(v, p[n..]);
        (Number(seconds), SkipSep(p[n + m..], sep))
      else (Number(if c == 'i' then ToInt(v) else v), SkipSep(p[n..], sep))
  }

  function Conversions(p: string, sep: char, fmt: string): (r: (seq<Field>, string))
    ensures |r.0| == |fmt| && |r.1| <= |p|
    ensures fmt != "" && p != "" && p[0] != sep ==> |r.1| < |p|
    ensures forall i :: 0 <= i < |fmt| ==> (r.0[i].Text? <==> fmt[i] == 's')
    decreases |fmt|
  {
    if fmt == "" then ([], p)
    else
      var (f, rest) := Convert(p, sep, fmt[0]);
      var (fs, end) := Conversions(rest, sep, fmt[1..]);
      ([f] + fs, end)
  }

  /** split_values. */
  function Split(p: string, sep: char, fmt: string): (r: (seq<Field>, string))
    ensures |r.0| == |fmt| && |r.1| <= |p|
    ensures fmt != "" && p != "" ==> |r.1| < |p|
    ensures forall i :: 0 <= i < |fmt| ==> (r.0[i].Text? <==> fmt[i] == 's')
  {
    Conversions(SkipSep(p, sep), sep, fmt)
  }

  /** %d and its like. */
  function Digits(n: nat): string
  {
    (if n < 10 then "" else Digits(n / 10)) + [(n % 10 + '0' as int) as char]
  }

  function Decimal(n: int): string
  {
    if n < 0 then "-" + Digits(-n) else Digits(n)
  }

  function Printed(f: Field): string
  {
    match f
    case Text(text) => text
    case Number(n) => Decimal(n)
  }

  /** Fields in a row, one separator between any two. */
  function Join(fs: seq<Field>, sep: char): string
  {
    if fs == [] then "" else if |fs| == 1 then Printed(fs[0]) else Printed(fs[0]) + [sep] + Join(fs[1..], sep)
  }

  lemma {:induction false} DigitsBack(n: nat)
    ensures Digits(n) != "" && forall i :: 0 <= i < |Digits(n)| ==> IsDigit(Digits(n)[i])
    ensures Decimals(Digits(n)) == n
  {
    if n >= 10 {
      DigitsBack(n / 10);
      assert Digits(n)[..|Digits(n)| - 1] == Digits(n / 10);
    }
  }

  /** Whether a number ends in front of this text. */
  predicate NoDigitFirst(s: string)
  {
    s == "" || !IsDigit(s[0])
  }

  lemma {:induction false} DigitsCounted(s: string, rest: string)
    requires NoDigitFirst(rest) && forall i :: 0 <= i < |s| ==> IsDigit(s[i])
    ensures CountDigits(s + rest) == |s|
  {
    if s == "" {
      assert s + rest == rest;
    } else {
      assert (s + rest)[1..] == s[1..] + rest;
      DigitsCounted(s[1..], rest);
    }
  }

  /** A printed number is read as itself, to its end. */
  lemma NumberBack(n: int, rest: string)
    requires -LONGMAX - 1 <= n <= LONGMAX && NoDigitFirst(rest)
    ensures StrTol(Decimal(n) + rest) == (n, |Decimal(n)|)
    ensures Decimal(n) != "" && !IsSpace(Decimal(n)[0])
  {
    hide Digits, Leading, StrTol;
    var m := if n < 0 then -n else n;
    LeadingBack(m, rest);
    var t := Digits(m) + rest;
    assert t[0] == Digits(m)[0];
    if n < 0 {
      assert Decimal(n) + rest == "-" + t;
      Negative(t);
    } else {
      Plain(t);
    }
  }

  lemma Plain(t: string)
    requires t != "" && IsDigit(t[0]) && Leading(t).1 > 0
    ensures StrTol(t) == (Clamp(Leading(t).0), Leading(t).1)
  {
    assert t[0..] == t;
    hide Leading;
  }

  lemma Negative(t: string)
    requires t != "" && IsDigit(t[0]) && Leading(t).1 > 0
    ensures StrTol("-" + t) == (Clamp(-Leading(t).0), 1 + Leading(t).1)
  {
    assert ("-" + t)[1..] == t;
    hide Leading;
  }

  lemma {:induction false} LeadingBack(n: nat, rest: string)
    requires NoDigitFirst(rest)
    ensures Leading(Digits(n) + rest) == (n, |Digits(n)|)
    ensures Digits(n) != "" && IsDigit(Digits(n)[0])
  {
    DigitsBack(n);
    DigitsCounted(Digits(n), rest);
    assert (Digits(n) + rest)[..|Digits(n)|] == Digits(n);
  }

  /** A field that can be printed in a row and read again by conversion c. */
  predicate Sound(f: Field, sep: char, c: char)
  {
    match f
    case Text(text) => c == 's' && text != "" && sep !in text
    case Number(n) =>
      if c == 'i' then -0x8000_0000 <= n <= 0x7FFF_FFFF
      else (c == 'l' || c == 't') && -LONGMAX - 1 <= n <= LONGMAX
  }

  /** The separators of the format. */
  predicate IsSep(sep: char)
  {
    sep == ' ' || sep == ':'
  }

  /** What may stand behind a field: nothing, or one separator and something else. */
  predicate Follows(rest: string, sep: char)
  {
    rest == "" || (rest[0] == sep && (|rest| == 1 || rest[1] != sep))
  }

  lemma {:induction false} TokenBack(t: string, sep: char, rest: string)
    requires sep !in t && (rest == "" || rest[0] == sep)
    ensures Token(t + rest, sep) == t
  {
    if t == "" {
      assert t + rest == rest;
    } else {
      assert (t + rest)[1..] == t[1..] + rest;
      TokenBack(t[1..], sep, rest);
    }
  }

  /** A printed field is read again, and the text goes on behind the separator. */
  lemma FieldBack(f: Field, sep: char, c: char, rest: string)
    requires IsSep(sep) && Sound(f, sep, c) && Follows(rest, sep)
    ensures Convert(Printed(f) + rest, sep, c) == (f, if rest == "" then "" else rest[1..])
    ensures Printed(f) != "" && Printed(f)[0] != sep
  {
    match f
    case Text(text) => TextBack(text, sep, rest);
    case Number(n) => IntegerBack(n, sep, c, rest);
  }

  lemma TextBack(text: string, sep: char, rest: string)
    requires text != "" && sep !in text && Follows(rest, sep)
    ensures Convert(text + rest, sep, 's') == (Text(text), if rest == "" then "" else rest[1..])
  {
    TokenBack(text, sep, rest);
    SkipOne(rest, sep);
    assert (text + rest)[|text|..] == rest;
    hide Token, SkipSep;
  }

  lemma IntegerBack(n: int, sep: char, c: char, rest: string)
    requires IsSep(sep) && Sound(Number(n), sep, c) && Follows(rest, sep)
    ensures Convert(Decimal(n) + rest, sep, c) == (Number(n), if rest == "" then "" else rest[1..])
    ensures Decimal(n) != "" && Decimal(n)[0] != sep
  {
    hide StrTol, Decimal, SkipSep, Token, Seconds;
    var s := Decimal(n);
    NumberBack(n, rest);
    FirstOfNumber(n);
    SkipOne(rest, sep);
    assert (s + rest)[|s|..] == rest;
    PlainSeconds(n, sep, rest);
  }

  /** The seconds in a unit of time: a day, an hour or a minute. */
  function UnitSeconds(unit: char): nat
    requires unit == 'd' || unit == 'h' || unit == 'm'
  {
    if unit == 'd' then 24 * 60 * 60 else if unit == 'h' then 60 * 60 else 60
  }

  /** A time printed with a unit behind it is read in seconds. */
  lemma TimeBack(n: int, unit: char, sep: char, rest: string)
    requires -LONGMAX - 1 <= n <= LONGMAX && IsSep(sep) && Follows(rest, sep)
    requires unit == 'd' || unit == 'h' || unit == 'm'
    ensures Convert(Decimal(n) + ([unit] + rest), sep, 't')
         == (Number(n * UnitSeconds(unit)), if rest == "" then "" else rest[1..])
  {
    hide StrTol, Decimal, SkipSep, Token;
    var s := Decimal(n);
    NumberBack(n, [unit] + rest);
    SkipOne(rest, sep);
    assert (s + ([unit] + rest))[|s|..] == [unit] + rest;
    assert (s + ([unit] + rest))[|s| + 1..] == rest;
  }

  lemma PlainSeconds(n: int, sep: char, rest: string)
    requires IsSep(sep) && Follows(rest, sep)
    ensures Seconds(n, rest) == (n, 0)
  {
  }

  lemma {:induction false} SkipOne(rest: string, sep: char)
    requires Follows(rest, sep)
    ensures SkipSep(rest, sep) == if rest == "" then "" else rest[1..]
  {
    if rest != "" {
      assert SkipSep(rest[1..], sep) == rest[1..];
    }
  }

  lemma FirstOfNumber(n: int)
    ensures Decimal(n) != "" && (Decimal(n)[0] == '-' || IsDigit(Decimal(n)[0]))
  {
    if n >= 0 { DigitsBack(n); }
  }

  /** All fields are sound for the conversions of a format. */
  predicate AllSound(fs: seq<Field>, sep: char, fmt: string)
  {
    |fs| == |fmt| && (fs == [] || (Sound(fs[0], sep, fmt[0]) && AllSound(fs[1..], sep, fmt[1..])))
  }

  lemma {:induction false} JoinBack(fs: seq<Field>, sep: char, fmt: string, rest: string)
    requires IsSep(sep) && fs != [] && AllSound(fs, sep, fmt) && Follows(rest, sep)
    ensures Conversions(Join(fs, sep) + rest, sep, fmt) == (fs, if rest == "" then "" else rest[1..])
    ensures Join(fs, sep) != "" && Join(fs, sep)[0] != sep
    decreases fs
  {
    assert fmt == [fmt[0]] + fmt[1..] && fs == [fs[0]] + fs[1..];
    if |fs| == 1 {
      FieldBack(fs[0], sep, fmt[0], rest);
      First(Printed(fs[0]) + rest, sep, fmt[0], fmt[1..], fs[0], if rest == "" then "" else rest[1..]);
    } else {
      JoinBack(fs[1..], sep, fmt[1..], rest);
      hide Sound, Printed, Convert, Follows, Conversions, Join;
      MoreBack(fs[0], fs[1..], sep, fmt[0], fmt[1..], rest, if rest == "" then "" else rest[1..]);
    }
  }

  lemma {:induction false} MoreBack(f: Field, fs: seq<Field>, sep: char, c: char, fmt: string, rest: string,
                                    end: string)
    requires IsSep(sep) && Sound(f, sep, c) && fs != [] && Join(fs, sep) != "" && Join(fs, sep)[0] != sep
    requires Conversions(Join(fs, sep) + rest, sep, fmt) == (fs, end)
    ensures Conversions(Join([f] + fs, sep) + rest, sep, [c] + fmt) == ([f] + fs, end)
    ensures Join([f] + fs, sep) != "" && Join([f] + fs, sep)[0] != sep
  {
    var tail := Join(fs, sep);
    assert ([f] + fs)[1..] == fs;
    assert Join([f] + fs, sep) == Printed(f) + [sep] + tail;
    hide Join, Sound, Printed, Convert, Conversions;
    FieldThere(f, sep, c, tail, rest);
    JoinText(Printed(f), sep, tail, rest);
    First(Printed(f) + ([sep] + tail + rest), sep, c, fmt, f, tail + rest);
  }

  lemma JoinText(s: string, sep: char, tail: string, rest: string)
    ensures s + [sep] + tail + rest == s + ([sep] + tail + rest)
  {
  }

  lemma FieldThere(f: Field, sep: char, c: char, tail: string, rest: string)
    requires IsSep(sep) && Sound(f, sep, c) && tail != "" && tail[0] != sep
    ensures Convert(Printed(f) + ([sep] + tail + rest), sep, c) == (f, tail + rest)
    ensures Printed(f) != "" && Printed(f)[0] != sep
  {
    var more := [sep] + tail + rest;
    assert more[1..] == tail + rest;
    FieldBack(f, sep, c, more);
  }

  lemma {:induction false} First(p: string, sep: char, c: char, fmt: string, f: Field, mid: string)
    requires Convert(p, sep, c) == (f, mid)
    ensures Conversions(p, sep, [c] + fmt) == ([f] + Conversions(mid, sep, fmt).0, Conversions(mid, sep, fmt).1)
  {
    hide Convert;
    assert ([c] + fmt)[1..] == fmt;
  }

  /** Fields printed in a row are read again, with the rest of the text behind the separator left over. */
  lemma {:induction false} SplitBack(fs: seq<Field>, sep: char, fmt: string, rest: string)
    requires IsSep(sep) && fs != [] && AllSound(fs, sep, fmt) && Follows(rest, sep)
    ensures Split(Join(fs, sep) + rest, sep, fmt) == (fs, if rest == "" then "" else rest[1..])
  {
    JoinBack(fs, sep, fmt, rest);
  }
}
