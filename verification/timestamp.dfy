/** SubRip timestamps `HH:MM:SS,mmm`: the formatter that truncates a time in
    seconds to whole milliseconds, and the parser the caption merge uses to
    read them back. */
module Timestamp {
  import opened Wrappers
  import opened Text
  import opened Decimal

  /** The four printed fields of a timestamp. */
  datatype Fields = Fields(hours: nat, minutes: nat, seconds: nat, millis: nat)

  predicate InRange(f: Fields) {
    f.minutes < 60 && f.seconds < 60 && f.millis < 1000
  }

  /** The number of milliseconds a field tuple denotes. */
  function Total(f: Fields): nat {
    ((f.hours * 3600 + f.minutes * 60 + f.seconds) * 1000) + f.millis
  }

  /** The source's `int(...)` and the two `divmod`s, on a whole number of
      milliseconds: hours are never wrapped at 24. */
  function ToFields(ms: nat): (f: Fields)
    ensures InRange(f)
    ensures Total(f) == ms
  {
    var total := ms / 1000;
    Fields(total / 3600, (total % 3600) / 60, (total % 3600) % 60, ms % 1000)
  }

  /** The field split is the inverse of `Total` on in-range fields. */
  lemma ToFieldsOfTotal(f: Fields)
    requires InRange(f)
    ensures ToFields(Total(f)) == f
  {
    var secs := f.hours * 3600 + f.minutes * 60 + f.seconds;
    assert Total(f) / 1000 == secs;
    assert Total(f) % 1000 == f.millis;
    assert secs / 3600 == f.hours;
    assert secs % 3600 == f.minutes * 60 + f.seconds;
  }

  function Render(f: Fields): string {
    ZeroPad(f.hours, 2) + ":" + ZeroPad(f.minutes, 2) + ":" + ZeroPad(f.seconds, 2) + "," + ZeroPad(f.millis, 3)
  }

  function FormatMillis(ms: nat): string {
    Render(ToFields(ms))
  }

  /** Whole milliseconds in a non-negative time: truncation, not rounding. */
  function Millis(t: real): (ms: nat)
    requires t >= 0.0
    ensures ms as real <= t * 1000.0 < ms as real + 1.0
  {
    (t * 1000.0).Floor
  }

  /** `format_timestamp`: whole seconds by `int`, the fraction times 1000 by
      `int`, then hours and minutes by `divmod`. */
  function FormatTimestamp(t: real): string
    requires t >= 0.0
  {
    var total := t.Floor;
    var millis := ((t - total as real) * 1000.0).Floor;
    Render(Fields(total / 3600, (total % 3600) / 60, (total % 3600) % 60, millis))
  }

  /** Formatting a time prints the fields of its truncated millisecond count. */
  lemma FormatTimestampIsMillis(t: real)
    requires t >= 0.0
    ensures FormatTimestamp(t) == FormatMillis(Millis(t))
  {
    var total := t.Floor;
    var ms := Millis(t);
    assert 1000 * total <= ms < 1000 * total + 1000;
    assert ms / 1000 == total;
    assert ((t - total as real) * 1000.0).Floor == ms % 1000;
  }

  /** The characters a printed timestamp is made of. */
  predicate StampChar(c: char) {
    IsDigit(c) || c == ':' || c == ','
  }

  /** A printed timestamp is digits, colons and a comma, and ends in a
      digit. */
  lemma FormatChars(t: real)
    requires t >= 0.0
    ensures |FormatTimestamp(t)| > 0
    ensures forall i :: 0 <= i < |FormatTimestamp(t)| ==> StampChar(FormatTimestamp(t)[i])
    ensures IsDigit(FormatTimestamp(t)[|FormatTimestamp(t)| - 1])
  {
    FormatTimestampIsMillis(t);
    var f := ToFields(Millis(t));
    var h, m, s, x := ZeroPad(f.hours, 2), ZeroPad(f.minutes, 2), ZeroPad(f.seconds, 2), ZeroPad(f.millis, 3);
    var r := Render(f);
    assert r == h + ":" + m + ":" + s + "," + x;
    forall i | 0 <= i < |r|
      ensures StampChar(r[i])
    {
      if i >= |r| - |x| {
        assert r[i] == x[i - (|r| - |x|)];
      }
    }
    assert r[|r| - 1] == x[|x| - 1];
  }

  // ---------------------------------------------------------------------
  // parsing

  datatype TimeError =
    | NotThreeFields     // `h, m, rest = s.split(":")` does not unpack
    | NotTwoSecondFields // `s, ms = rest.split(",")` does not unpack
    | NotAnInteger       // some field is not a numeral for `int()`

  datatype Numerals = Numerals(hours: string, minutes: string, seconds: string, millis: string)

  /** The two unpacking splits of `parse_srt_time`. */
  function SplitFields(s: string): (r: Result<Numerals, TimeError>)
    ensures r.Success? ==> s == r.value.hours + ":" + r.value.minutes + ":" + r.value.seconds + "," + r.value.millis
    ensures r.Success? ==> ':' !in r.value.hours && ':' !in r.value.minutes && ':' !in r.value.seconds + "," + r.value.millis
    ensures r.Success? ==> ',' !in r.value.seconds && ',' !in r.value.millis
  {
    var parts := Split(s, ":");
    if |parts| != 3 then Failure(NotThreeFields)
    else
      var secs := Split(parts[2], ",");
      if |secs| != 2 then Failure(NotTwoSecondFields)
      else
        FieldsRejoin(s, parts, secs);
        Success(Numerals(parts[0], parts[1], secs[0], secs[1]))
  }

  /** The four pieces of the two splits join back to the text, and none
      holds a separator it was split at. */
  lemma FieldsRejoin(s: string, parts: seq<string>, secs: seq<string>)
    requires parts == Split(s, ":") && |parts| == 3
    requires secs == Split(parts[2], ",") && |secs| == 2
    ensures s == parts[0] + ":" + parts[1] + ":" + secs[0] + "," + secs[1]
    ensures ':' !in parts[0] && ':' !in parts[1] && ':' !in secs[0] + "," + secs[1]
    ensures ',' !in secs[0] && ',' !in secs[1]
  {
    SplitRejoin(s, ":");
    SplitRejoin(parts[2], ",");
    Regroup(parts[0] + ":" + parts[1] + ":", secs[0], ",", secs[1]);
    FieldsFree(s, parts, secs);
  }

  /** A split into three (or two) pieces joins back to the text. */
  lemma SplitRejoin(s: string, sep: string)
    requires |sep| > 0
    ensures |Split(s, sep)| == 2 ==> s == Split(s, sep)[0] + sep + Split(s, sep)[1]
    ensures |Split(s, sep)| == 3 ==> s == Split(s, sep)[0] + sep + Split(s, sep)[1] + sep + Split(s, sep)[2]
  {
    JoinSplit(s, sep);
    if |Split(s, sep)| == 2 {
      JoinTwo(Split(s, sep), sep);
    }
    if |Split(s, sep)| == 3 {
      JoinThree(Split(s, sep), sep);
    }
  }

  lemma Regroup(a: string, x: string, y: string, z: string)
    ensures a + (x + y + z) == a + x + y + z
  {
  }

  lemma FieldsFree(s: string, parts: seq<string>, secs: seq<string>)
    requires parts == Split(s, ":") && |parts| == 3
    requires secs == Split(parts[2], ",") && |secs| == 2
    ensures ':' !in parts[0] && ':' !in parts[1] && ':' !in parts[2]
    ensures ',' !in secs[0] && ',' !in secs[1]
  {
    SplitPartsFree(s, ':');
    SplitPartsFree(parts[2], ',');
  }

  /** A field `int()` accepts: a non-empty run of ASCII digits. */
  predicate IsNumeral(s: string) {
    |s| > 0 && AllDigits(s)
  }

  /** `parse_srt_time`: hours, minutes and seconds as integers plus the
      millisecond field divided by 1000. */
  function ParseSrtTime(s: string): (r: Result<real, TimeError>)
    ensures r.Success? ==> r.value >= 0.0
  {
    var n :- SplitFields(s);
    if !(IsNumeral(n.hours) && IsNumeral(n.minutes) && IsNumeral(n.seconds) && IsNumeral(n.millis)) then
      Failure(NotAnInteger)
    else
      var whole := DigitsValue(n.hours) * 3600 + DigitsValue(n.minutes) * 60 + DigitsValue(n.seconds);
      Success(whole as real + DigitsValue(n.millis) as real / 1000.0)
  }

  /** No piece of a split contains the separator. */
  lemma SplitPartsFree(s: string, c: char)
    ensures forall i :: 0 <= i < |Split(s, [c])| ==> c !in Split(s, [c])[i]
    decreases |s|
  {
    var k := FindFrom(s, [c], 0);
    if k < |s| {
      SplitPartsFree(s[k + 1..], c);
      assert Split(s, [c]) == [s[..k]] + Split(s[k + 1..], [c]);
    }
    if c in s[..k] {
      var j :| 0 <= j < k && s[..k][j] == c;
      assert OccursAt(s, [c], j);
    }
  }

  // ---------------------------------------------------------------------
  // round trips

  lemma DigitsFree(s: string, c: char)
    requires AllDigits(s) && !IsDigit(c)
    ensures c !in s
  {
  }

  lemma SplitColons(h: string, m: string, sx: string)
    requires AllDigits(h) && AllDigits(m) && ':' !in sx
    ensures Split(h + ":" + m + ":" + sx, ":") == [h, m, sx]
  {
    DigitsFree(h, ':');
    DigitsFree(m, ':');
    SeparableSingle(h, ':');
    SeparableSingle(m, ':');
    SeparableSingle(sx, ':');
    JoinThree([h, m, sx], ":");
    SplitJoin([h, m, sx], ":");
  }

  lemma SplitComma(s: string, x: string)
    requires AllDigits(s) && AllDigits(x)
    ensures ':' !in s + "," + x
    ensures Split(s + "," + x, ",") == [s, x]
  {
    DigitsFree(s, ':');
    DigitsFree(x, ':');
    DigitsFree(s, ',');
    SeparableSingle(s, ',');
    SeparableSingle(x, ',');
    JoinTwo([s, x], ",");
    SplitJoin([s, x], ",");
  }

  /** Splitting a rendered timestamp recovers the four padded numerals. */
  lemma SplitRender(f: Fields)
    ensures SplitFields(Render(f)) == Success(Numerals(ZeroPad(f.hours, 2), ZeroPad(f.minutes, 2), ZeroPad(f.seconds, 2), ZeroPad(f.millis, 3)))
  {
    var h, m, s, x := ZeroPad(f.hours, 2), ZeroPad(f.minutes, 2), ZeroPad(f.seconds, 2), ZeroPad(f.millis, 3);
    SplitComma(s, x);
    SplitColons(h, m, s + "," + x);
    assert Render(f) == h + ":" + m + ":" + (s + "," + x);
  }

  /** Reading back a timestamp printed from a whole number of milliseconds
      gives exactly that time. */
  lemma ParseFormatMillis(ms: nat)
    ensures ParseSrtTime(FormatMillis(ms)) == Success(ms as real / 1000.0)
  {
    ParseRender(ToFields(ms));
  }

  /** Rendered fields read back as their total, in seconds. */
  lemma ParseRender(f: Fields)
    ensures ParseSrtTime(Render(f)) == Success(Total(f) as real / 1000.0)
  {
    SplitRender(f);
    ParsePadded(Render(f), f);
  }

  /** Text that splits into the padded fields parses to their total. */
  lemma ParsePadded(s: string, f: Fields)
    requires SplitFields(s) == Success(Numerals(ZeroPad(f.hours, 2), ZeroPad(f.minutes, 2), ZeroPad(f.seconds, 2), ZeroPad(f.millis, 3)))
    ensures ParseSrtTime(s) == Success(Total(f) as real / 1000.0)
  {
    PaddedValues(f);
    ParseDigits(s, SplitFields(s).value, f.hours, f.minutes, f.seconds, f.millis);
    assert Fields(f.hours, f.minutes, f.seconds, f.millis) == f;
  }

  lemma PaddedValues(f: Fields)
    ensures IsNumeral(ZeroPad(f.hours, 2)) && DigitsValue(ZeroPad(f.hours, 2)) == f.hours
    ensures IsNumeral(ZeroPad(f.minutes, 2)) && DigitsValue(ZeroPad(f.minutes, 2)) == f.minutes
    ensures IsNumeral(ZeroPad(f.seconds, 2)) && DigitsValue(ZeroPad(f.seconds, 2)) == f.seconds
    ensures IsNumeral(ZeroPad(f.millis, 3)) && DigitsValue(ZeroPad(f.millis, 3)) == f.millis
  {
    ZeroPadValue(f.hours, 2);
    ZeroPadValue(f.minutes, 2);
    ZeroPadValue(f.seconds, 2);
    ZeroPadValue(f.millis, 3);
  }

  lemma ParseDigits(s: string, n: Numerals, h: nat, m: nat, sec: nat, ms: nat)
    requires SplitFields(s) == Success(n)
    requires IsNumeral(n.hours) && IsNumeral(n.minutes) && IsNumeral(n.seconds) && IsNumeral(n.millis)
    requires DigitsValue(n.hours) == h && DigitsValue(n.minutes) == m
    requires DigitsValue(n.seconds) == sec && DigitsValue(n.millis) == ms
    ensures ParseSrtTime(s) == Success(Total(Fields(h, m, sec, ms)) as real / 1000.0)
  {
    MillisSplit(Fields(h, m, sec, ms));
  }

  lemma MillisSplit(f: Fields)
    ensures Total(f) as real / 1000.0 == (f.hours * 3600 + f.minutes * 60 + f.seconds) as real + f.millis as real / 1000.0
  {
  }

  /** For a time that is a whole number of milliseconds, parsing the printed
      timestamp gives the time back. */
  lemma ParseFormat(t: real)
    requires t >= 0.0
    requires Millis(t) as real == t * 1000.0
    ensures ParseSrtTime(FormatTimestamp(t)) == Success(t)
  {
    var ms := Millis(t);
    FormatTimestampIsMillis(t);
    ParseFormatMillis(ms);
    assert ms as real / 1000.0 == t;
  }

  /** For any time, the printed timestamp reads back to a value at most one
      millisecond below it. */
  lemma FormatTruncates(t: real)
    requires t >= 0.0
    ensures ParseSrtTime(FormatTimestamp(t)).Success?
    ensures var v := ParseSrtTime(FormatTimestamp(t)).value; v <= t < v + 0.001
  {
    FormatTimestampIsMillis(t);
    ParseFormatMillis(Millis(t));
  }

  /** The strings the formatter can print: two-digit minutes and seconds below
      60, three-digit milliseconds, and hours of at least two digits whose
      only leading zero is padding. */
  predicate Canonical(s: string) {
    var r := SplitFields(s);
    r.Success? &&
    var n := r.value;
    IsNumeral(n.hours) && IsNumeral(n.minutes) && IsNumeral(n.seconds) && IsNumeral(n.millis) &&
    |n.minutes| == 2 && |n.seconds| == 2 && |n.millis| == 3 &&
    |n.hours| >= 2 && (|n.hours| == 2 || n.hours[0] != '0') &&
    DigitsValue(n.minutes) < 60 && DigitsValue(n.seconds) < 60
  }

  /** Everything the formatter prints is canonical. */
  lemma FormatIsCanonical(t: real)
    requires t >= 0.0
    ensures Canonical(FormatTimestamp(t))
  {
    FormatTimestampIsMillis(t);
    var f := ToFields(Millis(t));
    SplitRender(f);
    ZeroPadValue(f.minutes, 2);
    ZeroPadValue(f.seconds, 2);
    ZeroPadLength(f.minutes, 2);
    ZeroPadLength(f.seconds, 2);
    ZeroPadLength(f.millis, 3);
    NatToStringLength(f.hours);
    var h := ZeroPad(f.hours, 2);
    if |h| > 2 {
      assert h == NatToString(f.hours);
    }
  }

  /** Printing what was parsed from a canonical string gives the string back. */
  lemma FormatParseCanonical(s: string)
    requires Canonical(s)
    ensures ParseSrtTime(s).Success?
    ensures ParseSrtTime(s).value >= 0.0
    ensures FormatTimestamp(ParseSrtTime(s).value) == s
  {
    var n := SplitFields(s).value;
    var f := Fields(DigitsValue(n.hours), DigitsValue(n.minutes), DigitsValue(n.seconds), DigitsValue(n.millis));
    var t := ParseSrtTime(s).value;
    var whole := f.hours * 3600 + f.minutes * 60 + f.seconds;
    assert t * 1000.0 == (whole * 1000 + f.millis) as real;
    assert Millis(t) == Total(f);
    FormatTimestampIsMillis(t);
    ToFieldsOfTotal(f);
    ZeroPadOfValue(n.hours, 2);
    ZeroPadOfValue(n.minutes, 2);
    ZeroPadOfValue(n.seconds, 2);
    ZeroPadOfValue(n.millis, 3);
  }
}
