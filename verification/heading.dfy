/** `strip_redundant_heading`: the first line of a chapter's text is dropped
    when it repeats the chapter title or is a bare `Chapter 12` / `XIV.`
    heading. Line boundaries are those of `str.splitlines`. */
module Heading {
  import opened Text
  import opened Ebook

  /** The line boundaries of `str.splitlines`: line feed, carriage return,
      vertical tab, form feed, the separators 0x1C..0x1E, next line, and the
      Unicode line and paragraph separators. */
  predicate IsLineBreak(c: char) {
    c == '\n' || c == '\r' || c == '\U{0B}' || c == '\U{0C}' || '\U{1C}' <= c <= '\U{1E}' ||
    c == '\U{85}' || c == '\U{2028}' || c == '\U{2029}'
  }

  predicate IsLineChar(c: char) { !IsLineBreak(c) }

  /** `s.splitlines()`: the lines without their terminators, `\r\n` counting
      as one terminator and a final terminator opening no empty line. */
  function SplitLines(s: string): (r: seq<string>)
    ensures r == [] <==> s == []
    decreases |s|
  {
    if s == [] then []
    else
      var k := LeadingCount(s, IsLineChar);
      if k == |s| then [s]
      else
        [s[..k]] + SplitLines(s[k + BreakLength(s, k)..])
  }

  /** The length of the line boundary at `k`: two for `\r\n`, one otherwise. */
  function BreakLength(s: string, k: nat): (n: nat)
    requires k < |s|
    ensures 1 <= n <= |s| - k
    ensures n == 2 <==> s[k] == '\r' && k + 1 < |s| && s[k + 1] == '\n'
  {
    if s[k] == '\r' && k + 1 < |s| && s[k + 1] == '\n' then 2 else 1
  }

  /** Text whose only line boundary is the line feed. */
  predicate OnlyLineFeeds(s: string) {
    forall i :: 0 <= i < |s| ==> IsLineBreak(s[i]) ==> s[i] == '\n'
  }

  /** Joining the lines with `\n` gives the text back when `\n` is its only
      line boundary and it does not end with one. */
  lemma {:induction false} JoinSplitLines(s: string)
    requires OnlyLineFeeds(s)
    requires s == [] || s[|s| - 1] != '\n'
    ensures Join(SplitLines(s), "\n") == s
    decreases |s|
  {
    if s != [] {
      var k := LeadingCount(s, IsLineChar);
      if k == |s| {
        SplitLinesSingle(s);
      } else {
        FeedRest(s, k);
        JoinSplitLines(s[k + 1..]);
        JoinAtFeed(s, k);
      }
    }
  }

  /** What follows the first line feed of such a text is again such a text,
      and not empty. */
  lemma FeedRest(s: string, k: nat)
    requires k < |s| && !IsLineChar(s[k])
    requires OnlyLineFeeds(s) && s[|s| - 1] != '\n'
    ensures s[k] == '\n' && k + 1 < |s|
    ensures OnlyLineFeeds(s[k + 1..]) && s[k + 1..][|s[k + 1..]| - 1] != '\n'
  {
    var rest := s[k + 1..];
    assert forall i :: 0 <= i < |rest| ==> rest[i] == s[k + 1 + i];
  }

  /** The inductive step: the first line, a feed, and the rest joined back. */
  lemma JoinAtFeed(s: string, k: nat)
    requires k + 1 < |s| && LeadingCount(s, IsLineChar) == k && s[k] == '\n'
    requires Join(SplitLines(s[k + 1..]), "\n") == s[k + 1..]
    ensures Join(SplitLines(s), "\n") == s
  {
    var h, rest := s[..k], s[k + 1..];
    AroundFeed(s, k);
    assert forall j :: 0 <= j < |h| ==> IsLineChar(h[j]);
    SplitLinesHead(h, rest);
    assert SplitLines(rest) != [];
    JoinCons(h, SplitLines(rest), "\n");
  }

  lemma AroundFeed(s: string, k: nat)
    requires k < |s| && s[k] == '\n'
    ensures s == s[..k] + "\n" + s[k + 1..]
  {
    assert s == s[..k] + s[k..k + 1] + s[k + 1..];
  }

  lemma JoinCons(h: string, tail: seq<string>, sep: string)
    requires tail != []
    ensures Join([h] + tail, sep) == h + sep + Join(tail, sep)
  {
    assert ([h] + tail)[1..] == tail;
  }

  /** A line without boundaries, a line feed and more text: the first line
      is split off. */
  lemma SplitLinesHead(h: string, body: string)
    requires forall j :: 0 <= j < |h| ==> IsLineChar(h[j])
    ensures SplitLines(h + "\n" + body) == [h] + SplitLines(body)
  {
    var s := h + "\n" + body;
    LeadingCountIs(s, IsLineChar, |h|);
    assert s[..|h|] == h;
    assert s[|h| + 1..] == body;
  }

  /** A text without line boundaries is one line. */
  lemma SplitLinesSingle(h: string)
    requires h != []
    requires forall j :: 0 <= j < |h| ==> IsLineChar(h[j])
    ensures SplitLines(h) == [h]
  {
    LeadingCountIs(h, IsLineChar, |h|);
  }

  // ---------------------------------------------------------------------
  // normalising

  /** `re.sub(r"\W+", "", s)`: only the word characters, in order. */
  function WordChars(s: string): (r: string)
    ensures |r| <= |s|
    ensures forall i :: 0 <= i < |r| ==> IsWordChar(r[i])
    ensures (forall i :: 0 <= i < |s| ==> IsWordChar(s[i])) ==> r == s
    ensures (forall i :: 0 <= i < |s| ==> !IsWordChar(s[i])) ==> r == []
    decreases |s|
  {
    if s == [] then []
    else if IsWordChar(s[0]) then [s[0]] + WordChars(s[1..])
    else WordChars(s[1..])
  }

  /** The comparison form of a title or line: word characters, lower-cased. */
  function Normalize(s: string): string {
    Lower(WordChars(s))
  }

  // ---------------------------------------------------------------------
  // the bare heading pattern

  /** The class `[ivxlcdm\d]` under IGNORECASE. */
  predicate IsHeadingChar(c: char) { IsNumeralLetterAnyCase(c) || IsDigit(c) }

  /** `[ivxlcdm\d]+\.*$`: a run of numeral letters and digits, then dots to
      the end. */
  predicate NumberWithDots(s: string) {
    var e := LeadingCount(s, IsHeadingChar);
    e > 0 && forall i :: e <= i < |s| ==> s[i] == '.'
  }

  /** `re.match(r"^(chapter\s*)?[ivxlcdm\d]+\.*$", line, re.IGNORECASE)`.
      The optional group needs no backtracking: without it, a line that
      spells `chapter` fails at its `h`. */
  predicate BareHeading(line: string) {
    NumberWithDots(line) || (|line| >= 7 && SpellsChapter(line[..7]) && NumberWithDots(LStrip(line[7..])))
  }

  /** The two reasons to drop the first line: the normalised title and line
      contain one another, or the line is a bare heading. */
  predicate Redundant(title: string, line: string) {
    var nt, nf := Normalize(title), Normalize(line);
    Contains(nt, nf) || Contains(nf, nt) || BareHeading(line)
  }

  /** `strip_redundant_heading(title, content)`: the text without its first
      line when that line is redundant, the content untouched otherwise and
      whenever the content is only whitespace. */
  function StripRedundantHeading(title: string, content: string): (r: string)
    ensures AllSpace(content) ==> r == content
    ensures r == content || Trimmed(r)
  {
    var lines := SplitLines(Strip(content));
    if lines == [] then content
    else if Redundant(title, Strip(lines[0])) then
      var r := Strip(Join(lines[1..], "\n"));
      StripTrimmed(Join(lines[1..], "\n"));
      r
    else content
  }

  // ---------------------------------------------------------------------
  // properties

  /** The first line of `h + "\n" + body`, for a first line with no
      whitespace at its start and a trimmed, non-empty body of `\n`-separated
      lines: dropped exactly when redundant, and then the body is what is
      left. */
  lemma HeadingRule(title: string, h: string, body: string)
    requires h != [] && !IsSpace(h[0])
    requires forall j :: 0 <= j < |h| ==> IsLineChar(h[j])
    requires body != [] && Trimmed(body) && OnlyLineFeeds(body)
    ensures Redundant(title, Strip(h)) ==> StripRedundantHeading(title, h + "\n" + body) == body
    ensures !Redundant(title, Strip(h)) ==> StripRedundantHeading(title, h + "\n" + body) == h + "\n" + body
  {
    var s := h + "\n" + body;
    assert Trimmed(s) by {
      assert s[0] == h[0];
      assert s[|s| - 1] == body[|body| - 1];
    }
    StripTrimmed(s);
    SplitLinesHead(h, body);
    var lines := SplitLines(s);
    assert lines[0] == h;
    assert lines[1..] == SplitLines(body);
    JoinSplitLines(body);
    StripTrimmed(body);
  }

  /** A text that is a single redundant line becomes empty. */
  lemma HeadingOnly(title: string, h: string)
    requires h != [] && Trimmed(h)
    requires forall j :: 0 <= j < |h| ==> IsLineChar(h[j])
    requires Redundant(title, h)
    ensures StripRedundantHeading(title, h) == ""
  {
    StripTrimmed(h);
    SplitLinesSingle(h);
    assert SplitLines(h)[1..] == [];
  }

  /** Every string contains the empty string: a first line with no word
      character at all (`***`, `* * *`) is always redundant. */
  lemma SymbolLineRedundant(title: string, line: string)
    requires forall i :: 0 <= i < |line| ==> !IsWordChar(line[i])
    ensures Redundant(title, line)
  {
    assert OccursAt(Normalize(title), Normalize(line), 0);
  }

  /** A first line that repeats the title up to case and punctuation is
      redundant. */
  lemma RepeatedTitleRedundant(title: string, line: string)
    requires Normalize(line) == Normalize(title)
    ensures Redundant(title, line)
  {
    var n := Normalize(title);
    assert n[0..|n|] == n;
    assert OccursAt(n, n, 0);
  }

  /** A run of digits or numeral letters with trailing dots (`12`, `XIV.`)
      is a bare heading. */
  lemma NumberHeading(run: string, dots: string)
    requires run != [] && forall i :: 0 <= i < |run| ==> IsHeadingChar(run[i])
    requires forall i :: 0 <= i < |dots| ==> dots[i] == '.'
    ensures BareHeading(run + dots)
  {
    var s := run + dots;
    if dots != [] {
      assert s[|run|] == dots[0];
    }
    LeadingCountIs(s, IsHeadingChar, |run|);
  }

  /** `chapter` in any case, optional whitespace and a numbered heading is a
      bare heading. */
  lemma ChapterHeading(kw: string, gap: string, run: string, dots: string)
    requires SpellsChapter(kw) && AllSpace(gap)
    requires run != [] && forall i :: 0 <= i < |run| ==> IsHeadingChar(run[i])
    requires forall i :: 0 <= i < |dots| ==> dots[i] == '.'
    ensures BareHeading(kw + gap + run + dots)
  {
    var s := kw + gap + run + dots;
    assert s[..7] == kw;
    var t := s[7..];
    assert t == gap + (run + dots);
    assert !IsSpace(run[0]);
    LeadingCountIs(t, IsSpace, |gap|);
    assert LStrip(t) == run + dots;
    NumberHeading(run, dots);
  }

  /** A line that starts with anything but a digit or a numeral letter (the
      `c` of `chapter` is one) is no bare heading. */
  lemma OtherLineNotBare(line: string)
    requires line != [] && !IsHeadingChar(line[0])
    ensures !BareHeading(line)
  {
  }
}
