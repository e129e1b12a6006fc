/** The narration step of `audio_converter`: author and translator names, the
    introduction sentence, chunk file names, and the caption sidecar that
    pairs every audio file with the text spoken in it. Speech synthesis is an
    injected function from text to audio segments. */
module Narration {
  import opened Text
  import opened Decimal
  import opened Seqs
  import opened SentenceStreamer
  import opened Timeline
  import opened Editions
  import opened Listing

  // ---------------------------------------------------------------------
  // format_name

  /** The pattern `,\s*\d{4}-\d{4}` matches at the start of `s`. Digits are
      not whitespace, so `\s*` can only match the whole whitespace run. */
  predicate DateAtStart(s: string) {
    |s| > 0 && s[0] == ',' &&
    var j := 1 + LeadingCount(s[1..], IsSpace);
    j + 9 <= |s| && AllDigits(s[j..j + 4]) && s[j + 4] == '-' && AllDigits(s[j + 5..j + 9])
  }

  /** The length of the match `DateAtStart` finds. */
  function DateLength(s: string): (n: nat)
    requires DateAtStart(s)
    ensures 10 <= n <= |s|
  {
    1 + LeadingCount(s[1..], IsSpace) + 9
  }

  /** `re.sub(r",\s*\d{4}-\d{4}", "", s)`: one left-to-right scan that deletes
      each match and resumes right after it. */
  function RemoveDates(s: string): (r: string)
    ensures |r| <= |s|
    decreases |s|
  {
    if |s| == 0 then ""
    else if DateAtStart(s) then RemoveDates(s[DateLength(s)..])
    else [s[0]] + RemoveDates(s[1..])
  }

  predicate IsYear(y: string) {
    |y| == 4 && AllDigits(y)
  }

  /** A life-span suffix as the catalogue writes it: `,` then whitespace then
      `YYYY-YYYY`. */
  function DateSpan(gap: string, born: string, died: string): string {
    "," + gap + born + "-" + died
  }

  /** The scan at a character that starts no match keeps it. */
  lemma RemoveDatesKeepFirst(s: string)
    requires |s| > 0 && !DateAtStart(s)
    ensures RemoveDates(s) == [s[0]] + RemoveDates(s[1..])
  {
  }

  /** The scan at a match deletes it. */
  lemma RemoveDatesDropMatch(s: string)
    requires DateAtStart(s)
    ensures RemoveDates(s) == RemoveDates(s[DateLength(s)..])
  {
  }

  /** Text without a comma passes through the scan unchanged. */
  lemma {:induction false} RemoveDatesKeeps(a: string, b: string)
    requires ',' !in a
    ensures RemoveDates(a + b) == a + RemoveDates(b)
    decreases |a|
  {
    if |a| == 0 {
      assert a + b == b;
    } else {
      var s := a + b;
      assert s[0] == a[0];
      assert a[0] in a;
      RemoveDatesKeepFirst(s);
      assert s[1..] == a[1..] + b;
      assert forall c :: c in a[1..] ==> c in a;
      RemoveDatesKeeps(a[1..], b);
      assert a == [a[0]] + a[1..];
    }
  }

  lemma {:induction false} LeadingSpaces(gap: string, x: string)
    requires AllSpace(gap)
    requires |x| > 0 && !IsSpace(x[0])
    ensures LeadingCount(gap + x, IsSpace) == |gap|
    decreases |gap|
  {
    if |gap| == 0 {
      assert gap + x == x;
    } else {
      assert (gap + x)[1..] == gap[1..] + x;
      LeadingSpaces(gap[1..], x);
    }
  }

  /** The span at the start of `s` matches the pattern, with length
      `|gap| + 10`. */
  lemma DateSpanMatches(gap: string, born: string, died: string, rest: string)
    requires AllSpace(gap) && IsYear(born) && IsYear(died)
    ensures DateAtStart(DateSpan(gap, born, died) + rest)
    ensures DateLength(DateSpan(gap, born, died) + rest) == |gap| + 10
  {
    var tail := born + "-" + died + rest;
    SpanRegroup(gap, born, died, rest);
    YearsAtStart(born, died, rest);
    MatchAfterGap(DateSpan(gap, born, died) + rest, gap, tail);
  }

  lemma SpanRegroup(gap: string, born: string, died: string, rest: string)
    ensures DateSpan(gap, born, died) + rest == "," + (gap + (born + "-" + died + rest))
  {
  }

  lemma YearsAtStart(born: string, died: string, rest: string)
    requires IsYear(born) && IsYear(died)
    ensures var tail := born + "-" + died + rest;
      |tail| >= 9 && AllDigits(tail[..4]) && tail[4] == '-' && AllDigits(tail[5..9])
  {
    var tail := born + "-" + died + rest;
    assert tail[..4] == born;
    assert tail[5..9] == died;
  }

  /** A comma, whitespace, then `YYYY-YYYY`: a match of length `|gap| + 10`. */
  lemma MatchAfterGap(s: string, gap: string, tail: string)
    requires s == "," + (gap + tail) && AllSpace(gap)
    requires |tail| >= 9 && AllDigits(tail[..4]) && tail[4] == '-' && AllDigits(tail[5..9])
    ensures DateAtStart(s) && DateLength(s) == |gap| + 10
  {
    assert s[1..] == gap + tail;
    LeadingSpaces(gap, tail);
    var j := 1 + |gap|;
    assert s[j..] == tail;
    assert s[j..j + 4] == tail[..4];
    assert s[j + 5..j + 9] == tail[5..9];
  }

  /** A life-span suffix is deleted, whatever follows it. */
  lemma RemoveDatesSpan(gap: string, born: string, died: string, rest: string)
    requires AllSpace(gap) && IsYear(born) && IsYear(died)
    ensures RemoveDates(DateSpan(gap, born, died) + rest) == RemoveDates(rest)
  {
    var s := DateSpan(gap, born, died) + rest;
    DateSpanMatches(gap, born, died, rest);
    RemoveDatesDropMatch(s);
    assert s[|gap| + 10..] == rest;
  }

  lemma RemoveDatesSpanAlone(gap: string, born: string, died: string)
    requires AllSpace(gap) && IsYear(born) && IsYear(died)
    ensures RemoveDates(DateSpan(gap, born, died)) == ""
  {
    RemoveDatesSpan(gap, born, died, "");
    assert DateSpan(gap, born, died) + "" == DateSpan(gap, born, died);
  }

  /** A comma followed by whitespace and then something other than a digit
      starts no match. */
  lemma NoDateAfterGap(gap: string, u: string)
    requires AllSpace(gap)
    requires |u| > 0 && !IsSpace(u[0]) && !IsDigit(u[0])
    ensures !DateAtStart("," + gap + u)
  {
    var s := "," + gap + u;
    assert s[1..] == gap + u;
    LeadingSpaces(gap, u);
    var j := 1 + |gap|;
    if j + 9 <= |s| {
      assert s[j..j + 4][0] == u[0];
    }
  }

  /** A comma right before another comma is kept. */
  lemma KeepDoubledComma(u: string)
    requires |u| > 0 && u[0] == ','
    ensures RemoveDates("," + u) == [','] + RemoveDates(u)
  {
    NoDateAfterGap("", u);
    assert "," + "" + u == "," + u;
    RemoveDatesKeepFirst("," + u);
    assert ("," + u)[1..] == u;
  }

  /** The scan is a single pass: deleting a span can bring a comma next to
      a later `YYYY-YYYY`, and that new span survives. */
  lemma RemoveDatesSinglePass(born: string, died: string, born2: string, died2: string)
    requires IsYear(born) && IsYear(died) && IsYear(born2) && IsYear(died2)
    ensures RemoveDates("," + DateSpan("", born, died) + born2 + "-" + died2) == DateSpan("", born2, died2)
    ensures DateAtStart(DateSpan("", born2, died2))
  {
    var t := born2 + "-" + died2;
    TwoSpansRegroup(DateSpan("", born, died), born2, died2);
    SecondSpanKept(born, died, t);
    YearsNoComma(born2, died2);
    RemoveDatesNoComma(t);
    SpanOfYears(born2, died2);
    SpanAlone(born2, died2);
  }

  lemma TwoSpansRegroup(d: string, born2: string, died2: string)
    ensures "," + d + born2 + "-" + died2 == "," + (d + (born2 + "-" + died2))
  {
  }

  /** Text without a comma is its own scan. */
  lemma RemoveDatesNoComma(t: string)
    requires ',' !in t
    ensures RemoveDates(t) == t
  {
    RemoveDatesKeeps(t, "");
    assert t + "" == t;
  }

  lemma SpanOfYears(born: string, died: string)
    ensures [','] + (born + "-" + died) == DateSpan("", born, died)
  {
  }

  /** A bare span matches. */
  lemma SpanAlone(born: string, died: string)
    requires IsYear(born) && IsYear(died)
    ensures DateAtStart(DateSpan("", born, died))
  {
    DateSpanMatches("", born, died, "");
    assert DateSpan("", born, died) + "" == DateSpan("", born, died);
  }

  lemma SecondSpanKept(born: string, died: string, t: string)
    requires IsYear(born) && IsYear(died)
    ensures RemoveDates("," + (DateSpan("", born, died) + t)) == [','] + RemoveDates(t)
  {
    var d := DateSpan("", born, died);
    KeepDoubledComma(d + t);
    RemoveDatesSpan("", born, died, t);
  }

  lemma YearsNoComma(born: string, died: string)
    requires IsYear(born) && IsYear(died)
    ensures ',' !in born + "-" + died
  {
    var t := born + "-" + died;
    assert forall i :: 0 <= i < |t| ==> t[i] == '-' || IsDigit(t[i]);
  }

  /** Every character of the stripped text occurs in the text. */
  lemma StripChars(s: string, c: char)
    requires c in Strip(s)
    ensures c in s
  {
    var t := s[LeadingCount(s, IsSpace)..];
    var r := t[..TrailingStart(t, IsSpace)];
    assert Strip(s) == r;
    var i :| 0 <= i < |r| && r[i] == c;
    assert t[i] == c;
    assert s[LeadingCount(s, IsSpace) + i] == c;
  }

  /** A string without a comma has no comma to find. */
  lemma NoCommaNotFound(s: string)
    requires ',' !in s
    ensures FindFrom(s, ",", 0) == |s|
  {
    forall k: nat | k + 1 <= |s|
      ensures !OccursAt(s, ",", k)
    {
      assert s[k..k + 1][0] == s[k];
    }
    FindFromNone(s, ",");
  }

  /** The second half of `format_name`: at the first comma, the stripped
      text after it, a space, then the stripped text before it. */
  function SwapAtComma(name: string): (r: string)
    ensures |r| <= |name|
  {
    var k := FindFrom(name, ",", 0);
    if k == |name| then name
    else Strip(name[k + 1..]) + " " + Strip(name[..k])
  }

  /** `format_name`: delete the life spans, strip, and turn "Last, First"
      into "First Last" around the first comma. */
  function FormatName(raw: string): (r: string)
    ensures |r| <= |raw|
  {
    SwapAtComma(Strip(RemoveDates(raw)))
  }

  /** A name without a comma is only stripped. */
  lemma FormatNameNoComma(raw: string)
    requires ',' !in raw
    ensures FormatName(raw) == Strip(raw)
  {
    RemoveDatesKeeps(raw, "");
    assert raw + "" == raw;
    var name := Strip(raw);
    forall c | c in name
      ensures c in raw
    {
      StripChars(raw, c);
    }
    NoCommaNotFound(name);
  }

  /** The catalogue's "Last, First" and "Last, First, YYYY-YYYY" forms both
      become "First Last". */
  lemma FormatNameLastFirst(last: string, first: string, gap: string, born: string, died: string)
    requires ',' !in last && ',' !in first
    requires Trimmed(last)
    requires |first| > 0 && Trimmed(first) && !IsDigit(first[0])
    requires AllSpace(gap) && IsYear(born) && IsYear(died)
    ensures FormatName(last + ", " + first) == first + " " + last
    ensures FormatName(last + ", " + first + DateSpan(gap, born, died)) == first + " " + last
  {
    FormatNameSwap(last, first, "");
    assert last + ", " + first + "" == last + ", " + first;
    RemoveDatesSpanAlone(gap, born, died);
    FormatNameSwap(last, first, DateSpan(gap, born, died));
  }

  /** After a comma-free surname, ", First" survives the scan when the
      first name does not start with a digit. */
  lemma RemoveDatesGivenName(first: string, tail: string)
    requires ',' !in first
    requires |first| > 0 && !IsSpace(first[0]) && !IsDigit(first[0])
    requires RemoveDates(tail) == ""
    ensures RemoveDates(", " + first + tail) == ", " + first
  {
    var u := first + tail;
    assert ", " + first + tail == ", " + u;
    CommaSpaceKept(u);
    RemoveDatesKeeps(first, tail);
    assert first + "" == first;
  }

  /** A comma and a space before something that is neither whitespace nor a
      digit start no match, and are kept. */
  lemma CommaSpaceKept(u: string)
    requires |u| > 0 && !IsSpace(u[0]) && !IsDigit(u[0])
    ensures RemoveDates(", " + u) == ", " + RemoveDates(u)
  {
    NoDateAfterCommaSpace(u);
    KeepStep(", " + u, ',', " " + u);
    KeepStep(" " + u, ' ', u);
    CommaSpaceGlue(RemoveDates(", " + u), RemoveDates(" " + u), RemoveDates(u));
  }

  /** The scan keeps a first character that starts no match. */
  lemma KeepStep(s: string, c: char, t: string)
    requires |s| > 0 && !DateAtStart(s) && s[0] == c && s[1..] == t
    ensures RemoveDates(s) == [c] + RemoveDates(t)
  {
  }

  lemma CommaSpaceGlue(a: string, b: string, r: string)
    requires a == [','] + b && b == [' '] + r
    ensures a == ", " + r
  {
  }

  lemma NoDateAfterCommaSpace(u: string)
    requires |u| > 0 && !IsSpace(u[0]) && !IsDigit(u[0])
    ensures !DateAtStart(", " + u)
  {
    var s := ", " + u;
    assert s[1..] == " " + u;
    LeadingSpaces(" ", u);
    if 11 <= |s| {
      assert s[2..6][0] == u[0];
    }
  }

  /** The scan keeps "Last, First" and deletes a trailing life span. */
  lemma RemoveDatesLastFirst(last: string, first: string, tail: string)
    requires ',' !in last && ',' !in first
    requires |first| > 0 && !IsSpace(first[0]) && !IsDigit(first[0])
    requires RemoveDates(tail) == ""
    ensures RemoveDates(last + ", " + first + tail) == last + ", " + first
  {
    var rest := ", " + first + tail;
    RemoveDatesGivenName(first, tail);
    RemoveDatesKeeps(last, rest);
    assert last + ", " + first + tail == last + rest;
  }

  /** In "Last, First" the first comma follows the surname. */
  lemma CommaAfterSurname(last: string, first: string)
    requires ',' !in last
    ensures FindFrom(last + ", " + first, ",", 0) == |last|
  {
    var name := last + ", " + first;
    var k := |last|;
    assert name[k] == ',';
    assert name[k..k + 1] == [name[k]];
    forall j: nat | j < k
      ensures !OccursAt(name, ",", j)
    {
      assert name[j] == last[j];
    }
    FindFromIs(name, ",", 0, k);
  }

  /** "Last, First" with trimmed parts is trimmed. */
  lemma LastFirstTrimmed(last: string, first: string)
    requires Trimmed(last)
    requires |first| > 0 && Trimmed(first)
    ensures Trimmed(last + ", " + first)
  {
    var name := last + ", " + first;
    assert name[|name| - 1] == first[|first| - 1];
    assert last == [] || name[0] == last[0];
  }

  /** The swap turns "Last, First" into "First Last". */
  lemma SwapLastFirst(last: string, first: string)
    requires ',' !in last
    requires Trimmed(last)
    requires |first| > 0 && Trimmed(first)
    ensures SwapAtComma(last + ", " + first) == first + " " + last
  {
    var name := last + ", " + first;
    CommaAfterSurname(last, first);
    var k := |last|;
    assert name[k + 1..] == " " + first;
    assert name[..k] == last;
    StripOneSpace(first);
    StripTrimmed(last);
  }

  lemma FormatNameSwap(last: string, first: string, tail: string)
    requires ',' !in last && ',' !in first
    requires Trimmed(last)
    requires |first| > 0 && Trimmed(first) && !IsDigit(first[0])
    requires RemoveDates(tail) == ""
    ensures FormatName(last + ", " + first + tail) == first + " " + last
  {
    RemoveDatesLastFirst(last, first, tail);
    SwapLastFirst(last, first);
    LastFirstTrimmed(last, first);
    StripTrimmed(last + ", " + first);
  }

  lemma StripOneSpace(w: string)
    requires |w| > 0 && Trimmed(w)
    ensures Strip(" " + w) == w
  {
    var s := " " + w;
    assert s[1..] == w;
    assert !IsSpace(w[0]);
    assert LeadingCount(s[1..], IsSpace) == 0;
    assert LeadingCount(s, IsSpace) == 1;
    assert s[1..] == w;
    assert !IsSpace(w[|w| - 1]);
    assert TrailingStart(w, IsSpace) == |w|;
  }

  // ---------------------------------------------------------------------
  // the introduction

  /** `metadata.get(key, default)`. */
  function Get(meta: map<string, string>, key: string, default: string): string {
    if key in meta then meta[key] else default
  }

  function Title(meta: map<string, string>): string {
    Get(meta, "Title", "Unknown Title")
  }

  function Author(meta: map<string, string>): string {
    FormatName(Get(meta, "Author", "Unknown Author"))
  }

  /** The translator as spoken: nothing when the stripped record reads
      "none" in any letter case, the formatted name otherwise. */
  function Translator(meta: map<string, string>): string {
    var raw := Strip(Get(meta, "Translator", ""));
    if Lower(raw) == "none" then "" else FormatName(raw)
  }

  const Welcome: string := "Welcome, to the audiobook edition of "

  function Closing(ed: Edition, translated: bool): string {
    match ed
    case Current => "Sit back, relax, and enjoy."
    case Legacy =>
      if translated then "Let the words transport you to another time and place."
      else "Sit back, relax, and enjoy the story as it unfolds."
  }

  /** What follows the title in the sentence without a translator. */
  function PlainTail(author: string, ed: Edition): string {
    " by " + author + ". " + Closing(ed, false)
  }

  /** What follows the title in the sentence crediting a translator. */
  function TranslatedTail(author: string, translator: string, ed: Edition): string {
    ", written by " + author + " and beautifully translated by " + translator + ". " + Closing(ed, true)
  }

  function PlainIntro(title: string, author: string, ed: Edition): string {
    (Welcome + title) + PlainTail(author, ed)
  }

  function TranslatedIntro(title: string, author: string, translator: string, ed: Edition): string {
    (Welcome + title) + TranslatedTail(author, translator, ed)
  }

  /** The introduction sentence of `process_introduction_audio`. */
  function IntroText(meta: map<string, string>, ed: Edition): (r: string)
    ensures StartsWith(r, Welcome + Title(meta))
  {
    var title, author, t := Title(meta), Author(meta), Translator(meta);
    PrefixOfAppend(Welcome + title, PlainTail(author, ed));
    PrefixOfAppend(Welcome + title, TranslatedTail(author, t, ed));
    if t != "" then TranslatedIntro(title, author, t, ed)
    else PlainIntro(title, author, ed)
  }

  lemma PrefixOfAppend(w: string, tail: string)
    ensures StartsWith(w + tail, w)
  {
    assert (w + tail)[..|w|] == w;
  }

  lemma SuffixOfAppend(w: string, tail: string)
    ensures EndsWith(w + tail, tail)
  {
    assert (w + tail)[|w|..] == tail;
  }

  lemma CharAfterPrefix(w: string, tail: string)
    requires |tail| > 0
    ensures (w + tail)[|w|] == tail[0]
  {
  }

  /** For the same title the two sentences differ right after it. */
  lemma TemplatesDiffer(title: string, author: string, author': string, translator: string, ed: Edition, ed': Edition)
    ensures PlainIntro(title, author, ed) != TranslatedIntro(title, author', translator, ed')
  {
    var w := Welcome + title;
    var p, t := PlainTail(author, ed), TranslatedTail(author', translator, ed');
    assert p[0] == ' ' && t[0] == ',';
    CharAfterPrefix(w, p);
    CharAfterPrefix(w, t);
  }

  /** The plain sentence is chosen exactly when there is no translator to
      name; otherwise the translator is credited. */
  lemma IntroSentence(meta: map<string, string>, ed: Edition)
    ensures IntroText(meta, ed) == PlainIntro(Title(meta), Author(meta), ed) <==> Translator(meta) == ""
    ensures Translator(meta) != "" ==>
      IntroText(meta, ed) == TranslatedIntro(Title(meta), Author(meta), Translator(meta), ed)
  {
    TemplatesDiffer(Title(meta), Author(meta), Author(meta), Translator(meta), ed, ed);
  }

  /** A blank record, or one reading "none", names no translator. */
  lemma TranslatorBlank(meta: map<string, string>)
    requires "Translator" !in meta || Lower(Strip(meta["Translator"])) == "none" || AllSpace(meta["Translator"])
    ensures Translator(meta) == ""
  {
    var raw := Strip(Get(meta, "Translator", ""));
    if Lower(raw) != "none" {
      assert raw == "";
      FormatNameEmpty();
    }
  }

  lemma FormatNameEmpty()
    ensures FormatName("") == ""
  {
    assert RemoveDates("") == "";
    assert Strip("") == "";
    assert FindFrom("", ",", 0) == 0;
  }

  /** The introduction depends on the record only through the title, the
      author and the translator. */
  lemma IntroSame(meta: map<string, string>, meta': map<string, string>, ed: Edition)
    requires Title(meta) == Title(meta') && Author(meta) == Author(meta')
    requires Translator(meta) == Translator(meta')
    ensures IntroText(meta, ed) == IntroText(meta', ed)
  {
  }

  /** A missing translator, one that reads "none" in any letter case, and a
      blank one all give the same introduction. */
  lemma NoTranslator(meta: map<string, string>, ed: Edition)
    requires "Translator" in meta
    requires Lower(Strip(meta["Translator"])) == "none" || AllSpace(meta["Translator"])
    ensures Translator(meta) == ""
    ensures IntroText(meta, ed) == IntroText(meta - {"Translator"}, ed)
  {
    var m' := meta - {"Translator"};
    TranslatorBlank(meta);
    TranslatorBlank(m');
    assert Get(m', "Title", "Unknown Title") == Get(meta, "Title", "Unknown Title");
    assert Get(m', "Author", "Unknown Author") == Get(meta, "Author", "Unknown Author");
    IntroSame(meta, m', ed);
  }

  /** A catalogue translator "Last, First" is credited as "First Last". */
  lemma NamedTranslator(meta: map<string, string>, last: string, first: string, ed: Edition)
    requires "Translator" in meta && meta["Translator"] == last + ", " + first
    requires ',' !in last && ',' !in first
    requires Trimmed(last)
    requires |first| > 0 && Trimmed(first) && !IsDigit(first[0])
    ensures Translator(meta) == first + " " + last
    ensures IntroText(meta, ed) == TranslatedIntro(Title(meta), Author(meta), first + " " + last, ed)
  {
    var raw := last + ", " + first;
    LastFirstTrimmed(last, first);
    StripTrimmed(raw);
    NotNone(raw, |last|);
    NamedFormat(last, first);
    assert |first + " " + last| > 0;
  }

  /** A text with a comma at `k` does not read "none" in any case. */
  lemma NotNone(raw: string, k: nat)
    requires k < |raw| && raw[k] == ','
    ensures Lower(raw) != "none"
  {
    assert Lower(raw)[k] == ',';
  }

  lemma NamedFormat(last: string, first: string)
    requires ',' !in last && ',' !in first
    requires Trimmed(last)
    requires |first| > 0 && Trimmed(first) && !IsDigit(first[0])
    ensures FormatName(last + ", " + first) == first + " " + last
  {
    FormatNameSwap(last, first, "");
    assert last + ", " + first + "" == last + ", " + first;
    assert RemoveDates("") == "";
  }

  /** Missing title and author are spoken as "Unknown Title" and "Unknown
      Author". */
  lemma IntroDefaults(meta: map<string, string>)
    requires "Title" !in meta && "Author" !in meta
    ensures Title(meta) == "Unknown Title"
    ensures Author(meta) == "Unknown Author"
  {
    FormatNameTrimmed(Get(meta, "Author", "Unknown Author"));
  }

  /** A trimmed name without a comma is spoken as written. */
  lemma FormatNameTrimmed(raw: string)
    requires ',' !in raw && Trimmed(raw)
    ensures FormatName(raw) == raw
  {
    FormatNameNoComma(raw);
    StripTrimmed(raw);
  }

  /** A text ending in one suffix does not end in another whose
      second-to-last character differs. */
  lemma EndsDiffer(r: string, x: string, y: string)
    requires EndsWith(r, x) && |x| >= 2 && |y| >= 2
    requires x[|x| - 2] != y[|y| - 2]
    ensures !EndsWith(r, y)
  {
    assert r[|r| - 2] == x[|x| - 2];
  }

  /** The sentence ends with the closing of its edition and template. */
  lemma IntroEnds(meta: map<string, string>, ed: Edition)
    ensures EndsWith(IntroText(meta, ed), Closing(ed, Translator(meta) != ""))
  {
    var title, author, t := Title(meta), Author(meta), Translator(meta);
    if t != "" {
      TailEnds(Welcome + title, ", written by " + author + " and beautifully translated by " + t + ". ", Closing(ed, true));
    } else {
      TailEnds(Welcome + title, " by " + author + ". ", Closing(ed, false));
    }
  }

  lemma TailEnds(w: string, middle: string, closing: string)
    ensures EndsWith(w + (middle + closing), closing)
  {
    SuffixOfAppend(w + middle, closing);
    assert w + (middle + closing) == (w + middle) + closing;
  }

  /** The current introduction always closes with "Sit back, relax, and
      enjoy."; the older one closes with "... the story as it unfolds."
      exactly when no translator is named. */
  lemma IntroClosing(meta: map<string, string>)
    ensures EndsWith(IntroText(meta, Current), "Sit back, relax, and enjoy.")
    ensures EndsWith(IntroText(meta, Legacy), "Sit back, relax, and enjoy the story as it unfolds.") <==> Translator(meta) == ""
    ensures EndsWith(IntroText(meta, Legacy), "Let the words transport you to another time and place.") <==> Translator(meta) != ""
  {
    var plain, words := Closing(Legacy, false), Closing(Legacy, true);
    IntroEnds(meta, Current);
    IntroEnds(meta, Legacy);
    assert plain[|plain| - 2] == 's' && words[|words| - 2] == 'e';
    var r := IntroText(meta, Legacy);
    if Translator(meta) == "" {
      EndsDiffer(r, plain, words);
    } else {
      EndsDiffer(r, words, plain);
    }
  }

  // ---------------------------------------------------------------------
  // audio files and the caption sidecar

  /** Audio as a sequence of samples. */
  type Audio = seq<int>

  /** The file an utterance with id `id` is written to, inside its folder. */
  function AudioName(id: string): string {
    id + ".wav"
  }

  /** `f"{chunk_id:06d}"`. */
  function ChunkId(n: nat): (r: string)
    ensures AllDigits(r) && |r| >= 6
  {
    ZeroPad(n, 6)
  }

  /** Writing the segments one after another to the same path. */
  function WriteSegments(files: map<string, Audio>, path: string, segments: seq<Audio>): map<string, Audio>
    decreases |segments|
  {
    if |segments| == 0 then files
    else WriteSegments(files[path := segments[0]], path, segments[1..])
  }

  /** Every segment overwrites the one before: only the last survives, and
      no other file changes. */
  lemma {:induction false} WriteSegmentsLast(files: map<string, Audio>, path: string, segments: seq<Audio>)
    ensures WriteSegments(files, path, segments)
         == if |segments| == 0 then files else files[path := segments[|segments| - 1]]
    decreases |segments|
  {
    if |segments| > 0 {
      var f := files[path := segments[0]];
      WriteSegmentsLast(f, path, segments[1..]);
      if |segments| > 1 {
        assert f[path := segments[|segments| - 1]] == files[path := segments[|segments| - 1]];
      }
    }
  }

  datatype Written = Written(path: string, text: string, files: map<string, Audio>)

  /** `convert_to_audio`: `synthesize` stands for the speech pipeline and
      yields the audio segments of a text. */
  function ConvertToAudio(text: string, id: string, dir: string, synthesize: string -> seq<Audio>,
                          files: map<string, Audio>): (r: Written)
    ensures r.text == text
    ensures '/' !in id ==> Basename(r.path) == AudioName(id)
    ensures var segments := synthesize(text);
      r.files == if |segments| == 0 then files else files[r.path := segments[|segments| - 1]]
  {
    var path := dir + "/" + AudioName(id);
    WriteSegmentsLast(files, path, synthesize(text));
    AudioPathBasename(dir, id);
    Written(path, text, WriteSegments(files, path, synthesize(text)))
  }

  /** The base name of a chunk's path is its file name. */
  lemma AudioPathBasename(dir: string, id: string)
    ensures '/' !in id ==> Basename(dir + "/" + AudioName(id)) == AudioName(id)
  {
    if '/' !in id {
      assert '/' !in AudioName(id);
      BasenameAfterSlash(dir, AudioName(id));
    }
  }

  /** The introduction's sidecar: a single record naming
      `introduction.wav`. */
  function IntroSidecar(intro: string): seq<Entry> {
    [Entry(AudioName("introduction"), intro)]
  }

  /** The introduction always captions: every introduction sentence starts
      with the welcome, so its cues run from 0 to the length of its audio. */
  lemma IntroCaptions(meta: map<string, string>, d: Duration)
    ensures GenerateSrt(IntroSidecar(IntroText(meta, Current)), [d]).Success?
    ensures var cues := GenerateSrt(IntroSidecar(IntroText(meta, Current)), [d]).value;
      |cues| > 0 && cues[0].start == 0.0 && cues[|cues| - 1].end == d
  {
    var intro := IntroText(meta, Current);
    assert intro[0] == Welcome[0];
    SingleEntryCaptions(Entry(AudioName("introduction"), intro), d);
  }

  lemma SingleEntryCaptions(e: Entry, d: Duration)
    requires !AllSpace(e.text)
    ensures GenerateSrt([e], [d]).Success?
    ensures var cues := GenerateSrt([e], [d]).value;
      |cues| > 0 && cues[0].start == 0.0 && cues[|cues| - 1].end == d
  {
    GenerateSrtTimeline([e], [d]);
    assert Sum([d]) == d + Sum([]);
  }

  datatype Narrated = Narrated(sidecar: seq<Entry>, files: map<string, Audio>)

  /** The chunk loop of `process_texts_to_audio`, from chunk number `next`
      on: each chunk is spoken into its numbered file and recorded under that
      file's base name. */
  function NarrateFrom(chunks: seq<string>, next: nat, dir: string, synthesize: string -> seq<Audio>,
                       files: map<string, Audio>): Narrated
    decreases |chunks|
  {
    if |chunks| == 0 then Narrated([], files)
    else
      var w := ConvertToAudio(chunks[0], ChunkId(next), dir, synthesize, files);
      var rest := NarrateFrom(chunks[1..], next + 1, dir, synthesize, w.files);
      Narrated([Entry(Basename(w.path), w.text)] + rest.sidecar, rest.files)
  }

  /** One record per chunk, in order, naming the chunk's numbered file and
      holding its text. */
  lemma {:induction false} NarrateSidecar(chunks: seq<string>, next: nat, dir: string,
                                          synthesize: string -> seq<Audio>, files: map<string, Audio>)
    ensures |NarrateFrom(chunks, next, dir, synthesize, files).sidecar| == |chunks|
    ensures forall i :: 0 <= i < |chunks| ==>
      NarrateFrom(chunks, next, dir, synthesize, files).sidecar[i] == Entry(AudioName(ChunkId(next + i)), chunks[i])
    decreases |chunks|
  {
    if |chunks| > 0 {
      var w := ConvertToAudio(chunks[0], ChunkId(next), dir, synthesize, files);
      assert '/' !in ChunkId(next) by {
        DigitsFree(ChunkId(next), '/');
      }
      NarrateSidecar(chunks[1..], next + 1, dir, synthesize, w.files);
    }
  }

  lemma DigitsFree(s: string, c: char)
    requires AllDigits(s) && !IsDigit(c)
    ensures c !in s
  {
  }

  /** The sidecar of a chapter: chunk `i` of the stream is recorded as
      `ChunkId(i).wav` with the chunk as its text. */
  function ChapterSidecar(lines: seq<string>, choose: nat -> Draw, dir: string,
                          synthesize: string -> seq<Audio>, files: map<string, Audio>): seq<Entry> {
    NarrateFrom(Stream(lines, choose), 0, dir, synthesize, files).sidecar
  }

  /** The chapter's captions show exactly the text of the chapter file, and
      end where the chunk audio ends. */
  lemma ChapterCaptions(lines: seq<string>, choose: nat -> Draw, dir: string,
                        synthesize: string -> seq<Audio>, files: map<string, Audio>, durations: seq<Duration>)
    requires |durations| == |Stream(lines, choose)|
    ensures |ChapterSidecar(lines, choose, dir, synthesize, files)| == |durations|
    ensures EntryTexts(ChapterSidecar(lines, choose, dir, synthesize, files)) == Stream(lines, choose)
    ensures var r := GenerateSrt(ChapterSidecar(lines, choose, dir, synthesize, files), durations);
      r.Success? ==>
        Visible(Concat(Texts(r.value))) == Visible(Concat(lines)) &&
        (|r.value| > 0 ==> r.value[|r.value| - 1].end == Sum(durations))
  {
    var chunks := Stream(lines, choose);
    var sidecar := ChapterSidecar(lines, choose, dir, synthesize, files);
    NarrateSidecar(chunks, 0, dir, synthesize, files);
    assert EntryTexts(sidecar) == chunks;
    GenerateSrtTimeline(sidecar, durations);
    StreamPreservesText(lines, choose);
  }

  /** Below a million chunks, the file names sort in playback order. */
  lemma ChunkNamesOrdered(i: nat, j: nat)
    requires i < 1000000 && j < 1000000
    ensures LexLess(AudioName(ChunkId(i)), AudioName(ChunkId(j))) <==> i < j
  {
    assert Pow10(6) == 1000000;
    ZeroPadOrder(i, j, 6);
    ZeroPadLength(i, 6);
    ZeroPadLength(j, 6);
    LexLessSuffix(ChunkId(i), ChunkId(j), ".wav");
  }

  /** Different chunk numbers name different files. */
  lemma ChunkNamesDistinct(i: nat, j: nat)
    requires i != j
    ensures AudioName(ChunkId(i)) != AudioName(ChunkId(j))
  {
    if AudioName(ChunkId(i)) == AudioName(ChunkId(j)) {
      var a, b := ChunkId(i), ChunkId(j);
      assert |a| == |b|;
      assert a == AudioName(a)[..|a|];
      assert b == AudioName(b)[..|b|];
      ZeroPadInjective(i, j, 6);
    }
  }

  // ---------------------------------------------------------------------
  // chapters

  /** Index of the last `c` in `s`, or -1. */
  function LastIndex(s: string, c: char): (r: int)
    ensures -1 <= r < |s|
    ensures r >= 0 ==> s[r] == c
    ensures forall j :: r < j < |s| ==> s[j] != c
    decreases |s|
  {
    if |s| == 0 then -1
    else if s[|s| - 1] == c then |s| - 1
    else LastIndex(s[..|s| - 1], c)
  }

  /** `os.path.splitext(p)[0]`: cut at the last dot of the last path
      component, unless only dots precede it in that component. */
  function SplitExtRoot(p: string): string {
    var sep := LastIndex(p, '/');
    var dot := LastIndex(p, '.');
    if dot > sep && exists k :: sep < k < dot && p[k] != '.' then p[..dot] else p
  }

  /** A chapter file `name.txt` is the chapter `name`, unless the name is
      only dots. */
  lemma ChapterName(name: string)
    requires '/' !in name
    ensures (exists k :: 0 <= k < |name| && name[k] != '.') ==> SplitExtRoot(name + ".txt") == name
    ensures (forall k :: 0 <= k < |name| ==> name[k] == '.') ==> SplitExtRoot(name + ".txt") == name + ".txt"
  {
    var p := name + ".txt";
    assert p[|name|] == '.';
    assert LastIndex(p, '.') == |name|;
    assert LastIndex(p, '/') == -1;
    assert p[..|name|] == name;
    if exists k :: 0 <= k < |name| && name[k] != '.' {
      var k :| 0 <= k < |name| && name[k] != '.';
      assert p[k] == name[k];
    }
    if forall k :: 0 <= k < |name| ==> name[k] == '.' {
      forall k | -1 < k < |name|
        ensures p[k] == '.'
      {
        assert p[k] == name[k];
      }
    }
  }

  datatype Chapter = Chapter(name: string, sidecar: seq<Entry>)

  /** `process_texts_to_audio`: every `.txt` file of the listing is one
      chapter, narrated into the folder named after it with chunk numbers
      starting again at 0. `chunksOf` gives the streamed chunks of a file.
      The folder is emptied after each chapter, so no file carries over. */
  function ProcessTexts(names: seq<string>, outputDir: string, chunksOf: string -> seq<string>,
                        synthesize: string -> seq<Audio>): (r: seq<Chapter>)
    ensures |r| == |WithSuffix(names, ".txt")|
  {
    var txt := WithSuffix(names, ".txt");
    seq(|txt|, k requires 0 <= k < |txt| =>
      var name := SplitExtRoot(txt[k]);
      Chapter(name, NarrateFrom(chunksOf(txt[k]), 0, PathJoin(outputDir, name), synthesize, map[]).sidecar))
  }

  /** Chunk numbers restart in every chapter: chunk `i` of any chapter is
      `ChunkId(i).wav`. */
  lemma ChaptersRestart(names: seq<string>, outputDir: string, chunksOf: string -> seq<string>,
                        synthesize: string -> seq<Audio>, k: nat, i: nat)
    requires k < |WithSuffix(names, ".txt")| && i < |chunksOf(WithSuffix(names, ".txt")[k])|
    ensures var c := ProcessTexts(names, outputDir, chunksOf, synthesize)[k];
      |c.sidecar| == |chunksOf(WithSuffix(names, ".txt")[k])| &&
      c.sidecar[i] == Entry(AudioName(ChunkId(i)), chunksOf(WithSuffix(names, ".txt")[k])[i])
  {
    var txt := WithSuffix(names, ".txt");
    var name := SplitExtRoot(txt[k]);
    NarrateSidecar(chunksOf(txt[k]), 0, PathJoin(outputDir, name), synthesize, map[]);
  }

  /** The older `process_texts_to_audio`: one counter for the whole run, so
      the chunk files of all chapters, written to one folder, share a single
      numbering. `ids[k][j]` is the id of chunk `j` of chapter `k`. */
  function LegacyIds(chapters: seq<seq<string>>, next: nat): (ids: seq<seq<string>>)
    ensures |ids| == |chapters|
    ensures forall k :: 0 <= k < |chapters| ==> |ids[k]| == |chapters[k]|
    decreases |chapters|
  {
    if |chapters| == 0 then []
    else
      [seq(|chapters[0]|, j requires 0 <= j < |chapters[0]| => ChunkId(next + j))]
      + LegacyIds(chapters[1..], next + |chapters[0]|)
  }

  /** Chunk `j` of chapter `k` is numbered after every chunk of the chapters
      before it. */
  lemma {:induction false} LegacyIdsAt(chapters: seq<seq<string>>, next: nat, k: nat, j: nat)
    requires k < |chapters| && j < |chapters[k]|
    ensures LegacyIds(chapters, next)[k][j] == ChunkId(next + |Flatten(chapters[..k])| + j)
    decreases k
  {
    if k == 0 {
      LegacyIdsFirst(chapters, next, j);
    } else {
      var tail, next' := chapters[1..], next + |chapters[0]|;
      LegacyIdsAt(tail, next', k - 1, j);
      LegacyIdsLater(chapters, next, k);
      PrefixCountCons(chapters, k);
      var m := next' + |Flatten(tail[..k - 1])| + j;
      assert m == next + |Flatten(chapters[..k])| + j;
    }
  }

  /** The first chapter's chunks are numbered from `next`. */
  lemma LegacyIdsFirst(chapters: seq<seq<string>>, next: nat, j: nat)
    requires 0 < |chapters| && j < |chapters[0]|
    ensures LegacyIds(chapters, next)[0][j] == ChunkId(next + |Flatten(chapters[..0])| + j)
  {
    assert chapters[..0] == [];
  }

  /** A later chapter's ids are those of the run without the first chapter,
      numbered on after it. */
  lemma LegacyIdsLater(chapters: seq<seq<string>>, next: nat, k: nat)
    requires 0 < k < |chapters|
    ensures LegacyIds(chapters, next)[k] == LegacyIds(chapters[1..], next + |chapters[0]|)[k - 1]
  {
  }

  lemma PrefixCountCons(chapters: seq<seq<string>>, k: nat)
    requires 0 < k <= |chapters|
    ensures |Flatten(chapters[..k])| == |chapters[0]| + |Flatten(chapters[1..][..k - 1])|
  {
    assert chapters[..k] == [chapters[0]] + chapters[1..][..k - 1];
    FlattenCons(chapters[0], chapters[1..][..k - 1]);
  }

  /** The number of chunks before chapter `k` grows with `k` by at least
      each chapter's size. */
  lemma PrefixCount(chapters: seq<seq<string>>, k: nat, k': nat)
    requires k < k' <= |chapters|
    ensures |Flatten(chapters[..k])| + |chapters[k]| <= |Flatten(chapters[..k'])|
  {
    assert chapters[..k'] == chapters[..k] + ([chapters[k]] + chapters[k + 1..k']);
    FlattenAppend(chapters[..k], [chapters[k]] + chapters[k + 1..k']);
    FlattenCons(chapters[k], chapters[k + 1..k']);
  }

  /** Different chunks of a run have different positions in it. */
  lemma LegacyPositionsDistinct(chapters: seq<seq<string>>, k: nat, j: nat, k': nat, j': nat)
    requires k < |chapters| && j < |chapters[k]|
    requires k' < |chapters| && j' < |chapters[k']|
    requires (k, j) != (k', j')
    ensures |Flatten(chapters[..k])| + j != |Flatten(chapters[..k'])| + j'
  {
    if k < k' {
      PrefixCount(chapters, k, k');
    } else if k' < k {
      PrefixCount(chapters, k', k);
    }
  }

  /** No two chunks of a run share a file name, across all chapters, and
      none is named like the introduction. */
  lemma LegacyIdsUnique(chapters: seq<seq<string>>, k: nat, j: nat, k': nat, j': nat)
    requires k < |chapters| && j < |chapters[k]|
    requires k' < |chapters| && j' < |chapters[k']|
    requires (k, j) != (k', j')
    ensures LegacyIds(chapters, 0)[k][j] != LegacyIds(chapters, 0)[k'][j']
    ensures LegacyIds(chapters, 0)[k][j] != "Introduction"
  {
    LegacyIdsAt(chapters, 0, k, j);
    LegacyIdsAt(chapters, 0, k', j');
    var n := |Flatten(chapters[..k])| + j;
    var n' := |Flatten(chapters[..k'])| + j';
    LegacyPositionsDistinct(chapters, k, j, k', j');
    if ChunkId(n) == ChunkId(n') {
      ZeroPadInjective(n, n', 6);
    }
    IntroductionIsNoChunk(n);
  }

  lemma IntroductionIsNoChunk(n: nat)
    ensures ChunkId(n) != "Introduction"
  {
    assert !IsDigit("Introduction"[0]);
    assert ChunkId(n)[0] != 'I';
  }
}
