/** The EPUB chapter extractor's string rules: safe file names, the
    clean-up of chapter titles (Roman numerals to digits) and of chapter
    bodies (a first line that repeats the title), the table-of-contents title
    and skip rules, the search for where a chapter ends, and the names and
    bodies of the saved chapter files. */
module Ebook {
  import opened Wrappers
  import opened Seqs
  import opened Text
  import opened Decimal
  import opened Roman
  import opened Editions

  // ---------------------------------------------------------------------
  // sanitize_filename

  /** The nine characters the file-name class removes: backslash, slash,
      star, question mark, colon, double quote, angle brackets and bar. */
  predicate IsForbidden(c: char) {
    c == '\\' || c == '/' || c == '*' || c == '?' || c == ':' || c == '"' || c == '<' || c == '>' || c == '|'
  }

  /** The class substitution: every forbidden character removed, the others
      kept in order. */
  function RemoveForbidden(s: string): (r: string)
    ensures |r| <= |s|
    ensures forall i :: 0 <= i < |r| ==> !IsForbidden(r[i])
    ensures (forall i :: 0 <= i < |s| ==> !IsForbidden(s[i])) ==> r == s
    decreases |s|
  {
    if |s| == 0 then ""
    else
      var rest := RemoveForbidden(s[1..]);
      assert forall i :: 1 <= i < |s| ==> s[i] == s[1..][i - 1];
      if IsForbidden(s[0]) then rest else [s[0]] + rest
  }

  /** `sanitize_filename`: drop the forbidden characters, strip, and turn
      each space into an underscore. */
  function SanitizeFilename(title: string): (r: string)
    ensures forall i :: 0 <= i < |r| ==> !IsForbidden(r[i]) && r[i] != ' '
    ensures Trimmed(r)
  {
    var kept := RemoveForbidden(title);
    var stripped := Strip(kept);
    assert forall i :: 0 <= i < |stripped| ==> !IsForbidden(stripped[i]) by {
      forall i | 0 <= i < |stripped|
        ensures !IsForbidden(stripped[i])
      {
        StripIsSlice(kept);
      }
    }
    ReplaceChar(stripped, ' ', '_')
  }

  /** What `strip()` returns is a slice of its argument. */
  lemma StripIsSlice(s: string)
    ensures exists a: nat, b: nat :: a <= b <= |s| && Strip(s) == s[a..b]
  {
    var t := s[LeadingCount(s, IsSpace)..];
    assert Strip(s) == s[LeadingCount(s, IsSpace)..LeadingCount(s, IsSpace) + TrailingStart(t, IsSpace)];
  }

  /** The names `sanitize_filename` leaves alone are exactly the names it can
      return: trimmed, with no forbidden character and no space. */
  lemma SanitizeFixed(s: string)
    ensures SanitizeFilename(s) == s <==> (Trimmed(s) && forall i :: 0 <= i < |s| ==> !IsForbidden(s[i]) && s[i] != ' ')
  {
    if Trimmed(s) && forall i :: 0 <= i < |s| ==> !IsForbidden(s[i]) && s[i] != ' ' {
      StripTrimmed(s);
      assert ReplaceChar(s, ' ', '_') == s;
    }
  }

  /** Sanitizing twice is sanitizing once. */
  lemma SanitizeIdempotent(s: string)
    ensures SanitizeFilename(SanitizeFilename(s)) == SanitizeFilename(s)
  {
    SanitizeFixed(SanitizeFilename(s));
  }

  // ---------------------------------------------------------------------
  // convert_title_roman_numerals

  /** The class `[IVXLCDM]` under IGNORECASE. */
  predicate IsNumeralLetterAnyCase(c: char) { IsNumeralLetter(ToUpper(c)) }

  /** The IGNORECASE match of one letter: `c` is the lower-case letter `l`
      or its capital `u`. */
  predicate Letter(c: char, l: char, u: char) {
    c == l || c == u
  }

  /** The IGNORECASE matches of the three keywords, letter by letter. */
  predicate SpellsChapter(s: string) {
    |s| == 7 && Letter(s[0], 'c', 'C') && Letter(s[1], 'h', 'H') && Letter(s[2], 'a', 'A') && Letter(s[3], 'p', 'P') &&
    Letter(s[4], 't', 'T') && Letter(s[5], 'e', 'E') && Letter(s[6], 'r', 'R')
  }

  predicate SpellsBook(s: string) {
    |s| == 4 && Letter(s[0], 'b', 'B') && Letter(s[1], 'o', 'O') && Letter(s[2], 'o', 'O') && Letter(s[3], 'k', 'K')
  }

  predicate SpellsPart(s: string) {
    |s| == 4 && Letter(s[0], 'p', 'P') && Letter(s[1], 'a', 'A') && Letter(s[2], 'r', 'R') && Letter(s[3], 't', 'T')
  }

  /** `Chapter`, `Book` or `Part` in any case at the start of `s`: its
      length, or 0. */
  function KeywordLength(s: string): (n: nat)
    ensures n <= |s|
  {
    if |s| >= 7 && SpellsChapter(s[..7]) then 7
    else if |s| >= 4 && (SpellsBook(s[..4]) || SpellsPart(s[..4])) then 4
    else 0
  }

  /** A match of `(Chapter|Book|Part)\s+([IVXLCDM]+)\b` at the start of a
      string: where the numeral starts and where the match ends. */
  datatype KeywordMatch = KeywordMatch(keyword: nat, numeral: nat, end: nat)

  /** The pattern at the start of `s`, which the scan only tries where a word
      boundary precedes. The greedy runs need no backtracking: a shorter
      whitespace run is followed by whitespace and a shorter numeral by a
      letter, and neither can continue the match. */
  function MatchKeyword(s: string): (m: Option<KeywordMatch>)
    ensures m.Some? ==> 0 < m.value.keyword < m.value.numeral < m.value.end <= |s|
  {
    var k := KeywordLength(s);
    if k == 0 then None else MatchAfterKeyword(s, k)
  }

  /** The rest of the pattern once a keyword of length `k` has matched. */
  function MatchAfterKeyword(s: string, k: nat): (m: Option<KeywordMatch>)
    requires 0 < k <= |s|
    ensures m.Some? ==> 0 < m.value.keyword < m.value.numeral < m.value.end <= |s|
  {
    var g := k + LeadingCount(s[k..], IsSpace);
    if g == k then None
    else
      var e := g + LeadingCount(s[g..], IsNumeralLetterAnyCase);
      if e == g then None
      else if e < |s| && IsWordChar(s[e]) then None
      else Some(KeywordMatch(k, g, e))
  }

  /** `roman_to_int(x) or x`: the value's digits, or the numeral itself when
      the value is `None` or 0. */
  function NumeralText(numeral: string): string {
    var v := RomanToInt(numeral);
    if v.Some? && v.value != 0 then NatToString(v.value) else numeral
  }

  /** A non-empty run of numeral letters in any case is always converted: the
      fallback to the numeral itself never applies. */
  lemma NumeralTextConverts(numeral: string)
    requires |numeral| > 0
    requires forall i :: 0 <= i < |numeral| ==> IsNumeralLetterAnyCase(numeral[i])
    ensures RomanToInt(numeral).Some?
    ensures NumeralText(numeral) == NatToString(RomanToInt(numeral).value)
  {
  }

  /** The first substitution, as `re.sub` performs it: leftmost matches, left
      to right, never overlapping; `afterWord` says whether the character
      before `s` in the original title is a word character, which rules out
      the `\b` in front of the keyword. */
  function KeywordRule(s: string, afterWord: bool): string
    decreases |s|
  {
    if |s| == 0 then ""
    else
      var m := if afterWord then None else MatchKeyword(s);
      if m.Some? then
        var x := m.value;
        s[..x.keyword] + " " + NumeralText(s[x.numeral..x.end]) + KeywordRule(s[x.end..], true)
      else [s[0]] + KeywordRule(s[1..], IsWordChar(s[0]))
  }

  /** The second substitution: `^([IVXLCDM]+)(\.?)(\s|$)` without
      IGNORECASE, so only an upper-case numeral at the very start, followed
      by an optional dot and then whitespace or the end. */
  function LeadingRule(s: string): string {
    var e := LeadingCount(s, IsNumeralLetter);
    if e == 0 then s
    else if e < |s| && s[e] == '.' then
      if e + 1 == |s| || IsSpace(s[e + 1]) then NumeralText(s[..e]) + s[e..] else s
    else if e == |s| || IsSpace(s[e]) then NumeralText(s[..e]) + s[e..]
    else s
  }

  /** `convert_title_roman_numerals`. */
  function ConvertTitle(title: string): string {
    LeadingRule(KeywordRule(title, false))
  }

  predicate IsKeyword(kw: string) {
    SpellsChapter(kw) || SpellsBook(kw) || SpellsPart(kw)
  }

  lemma KeywordLengthOf(kw: string, rest: string)
    requires IsKeyword(kw)
    ensures KeywordLength(kw + rest) == |kw|
  {
    var s := kw + rest;
    assert s[..|kw|] == kw;
    if !SpellsChapter(kw) && |s| >= 7 {
      assert s[..7][0] == kw[0];
    }
  }

  /** A non-empty run of `[IVXLCDM]` letters in any case. */
  predicate IsNumeralRun(x: string) {
    |x| > 0 && forall i :: 0 <= i < |x| ==> IsNumeralLetterAnyCase(x[i])
  }

  lemma GapRun(s: string, k: nat, g: nat)
    requires k < g < |s|
    requires AllSpace(s[k..g]) && !IsSpace(s[g])
    ensures LeadingCount(s[k..], IsSpace) == g - k
  {
    var t := s[k..];
    assert forall i :: 0 <= i < g - k ==> t[i] == s[k..g][i];
    assert t[g - k] == s[g];
    LeadingCountIs(t, IsSpace, g - k);
  }

  lemma NumeralRunEnd(s: string, g: nat, e: nat)
    requires g < e <= |s|
    requires IsNumeralRun(s[g..e])
    requires e == |s| || !IsWordChar(s[e])
    ensures LeadingCount(s[g..], IsNumeralLetterAnyCase) == e - g
  {
    var t := s[g..];
    assert forall i :: 0 <= i < e - g ==> t[i] == s[g..e][i];
    if e < |s| {
      assert t[e - g] == s[e];
      assert !IsNumeralLetterAnyCase(s[e]);
    }
    LeadingCountIs(t, IsNumeralLetterAnyCase, e - g);
  }

  /** The match of the pattern read off its three runs. */
  lemma MatchAfterKeywordAt(s: string, k: nat, g: nat, e: nat)
    requires 0 < k < g < e <= |s|
    requires AllSpace(s[k..g]) && IsNumeralRun(s[g..e])
    requires e == |s| || !IsWordChar(s[e])
    ensures MatchAfterKeyword(s, k) == Some(KeywordMatch(k, g, e))
  {
    assert s[g..e][0] == s[g];
    assert !IsSpace(s[g]);
    GapRun(s, k, g);
    NumeralRunEnd(s, g, e);
    MatchAfterKeywordRuns(s, k, g, e);
  }

  /** The match once the lengths of the gap and of the numeral are known. */
  lemma MatchAfterKeywordRuns(s: string, k: nat, g: nat, e: nat)
    requires 0 < k < g < e <= |s|
    requires LeadingCount(s[k..], IsSpace) == g - k
    requires LeadingCount(s[g..], IsNumeralLetterAnyCase) == e - g
    requires e == |s| || !IsWordChar(s[e])
    ensures MatchAfterKeyword(s, k) == Some(KeywordMatch(k, g, e))
  {
  }

  /** The pattern matches a keyword, a whitespace gap and a numeral that
      ends at a word boundary, and nothing longer. */
  lemma MatchKeywordOf(s: string, k: nat, g: nat, e: nat)
    requires k < g < e <= |s|
    requires IsKeyword(s[..k])
    requires AllSpace(s[k..g]) && IsNumeralRun(s[g..e])
    requires e == |s| || !IsWordChar(s[e])
    ensures MatchKeyword(s) == Some(KeywordMatch(k, g, e))
  {
    KeywordLengthOf(s[..k], s[k..]);
    assert s[..k] + s[k..] == s;
    MatchAfterKeywordAt(s, k, g, e);
  }

  /** `Chapter`, `Book` or `Part` in any case, whitespace, and a numeral in
      any case that ends at a word boundary become the keyword as written, one
      space and the numeral's value; the scan goes on after the numeral. */
  lemma KeywordConverts(kw: string, gap: string, numeral: string, rest: string)
    requires IsKeyword(kw)
    requires |gap| > 0 && AllSpace(gap)
    requires IsNumeralRun(numeral)
    requires rest == "" || !IsWordChar(rest[0])
    ensures RomanToInt(numeral).Some?
    ensures KeywordRule(kw + gap + numeral + rest, false) == kw + " " + NatToString(RomanToInt(numeral).value) + KeywordRule(rest, true)
  {
    var s := kw + gap + numeral + rest;
    var k, g, e := |kw|, |kw| + |gap|, |kw| + |gap| + |numeral|;
    Slices4(kw, gap, numeral, rest);
    if rest != "" {
      assert s[e] == rest[0];
    }
    MatchKeywordOf(s, k, g, e);
    NumeralTextConverts(numeral);
  }

  /** An upper-case numeral at the start, an optional dot, then whitespace or
      the end: the numeral becomes its value and the rest is kept. */
  lemma LeadingConverts(numeral: string, dot: string, rest: string)
    requires |numeral| > 0 && forall i :: 0 <= i < |numeral| ==> IsNumeralLetter(numeral[i])
    requires dot == "" || dot == "."
    requires rest == "" || IsSpace(rest[0])
    ensures RomanToInt(numeral).Some?
    ensures LeadingRule(numeral + dot + rest) == NatToString(RomanToInt(numeral).value) + dot + rest
  {
    var t := dot + rest;
    NumeralTextConverts(numeral);
    var digits := NatToString(RomanToInt(numeral).value);
    DotThenSpace(dot, rest);
    NumeralThen(numeral, t, digits);
    Regroup3(numeral, dot, rest);
    Regroup3(digits, dot, rest);
  }

  lemma Regroup3(a: string, b: string, c: string)
    ensures a + b + c == a + (b + c)
  {
  }

  /** An optional dot then whitespace or the end is what may follow the
      numeral. */
  lemma DotThenSpace(dot: string, rest: string)
    requires dot == "" || dot == "."
    requires rest == "" || IsSpace(rest[0])
    ensures var t := dot + rest;
      t == [] || IsSpace(t[0]) || (t[0] == '.' && (|t| == 1 || IsSpace(t[1])))
  {
    if dot == "." {
      assert (dot + rest)[1..] == rest;
    } else {
      assert dot + rest == rest;
    }
  }

  /** A numeral run followed by an allowed follower is replaced by its
      digits. */
  lemma NumeralThen(numeral: string, t: string, digits: string)
    requires |numeral| > 0 && forall i :: 0 <= i < |numeral| ==> IsNumeralLetter(numeral[i])
    requires NumeralText(numeral) == digits
    requires t == [] || IsSpace(t[0]) || (t[0] == '.' && (|t| == 1 || IsSpace(t[1])))
    ensures LeadingRule(numeral + t) == digits + t
  {
    var s := numeral + t;
    var e := |numeral|;
    LeadingCountIs(s, IsNumeralLetter, e);
    assert s[..e] == numeral;
    assert s[e..] == t;
    LeadingRuleAt(s, e, digits);
  }

  /** The second substitution where the numeral run ends at `e` and is
      followed by what the pattern wants. */
  lemma LeadingRuleAt(s: string, e: nat, digits: string)
    requires 0 < e <= |s| && LeadingCount(s, IsNumeralLetter) == e
    requires NumeralText(s[..e]) == digits
    requires e == |s| || IsSpace(s[e]) || (s[e] == '.' && (e + 1 == |s| || IsSpace(s[e + 1])))
    ensures LeadingRule(s) == digits + s[e..]
  {
  }

  /** An upper-case numeral followed by anything but an optional dot and
      whitespace (or the end) is left alone. */
  lemma LeadingKept(numeral: string, rest: string)
    requires |numeral| > 0 && forall i :: 0 <= i < |numeral| ==> IsNumeralLetter(numeral[i])
    requires |rest| > 0 && !IsNumeralLetter(rest[0]) && !IsSpace(rest[0])
    requires rest[0] == '.' ==> |rest| > 1 && !IsSpace(rest[1])
    ensures LeadingRule(numeral + rest) == numeral + rest
  {
    var s := numeral + rest;
    LeadingCountIs(s, IsNumeralLetter, |numeral|);
  }

  /** The second substitution leaves a title that starts with a keyword
      followed by a space alone. */
  lemma LeadingRuleSkipsKeyword(kw: string, tail: string)
    requires IsKeyword(kw)
    ensures LeadingRule(kw + tail) == kw + tail
  {
    var t := kw + tail;
    assert ToLower(kw[0]) in "cbp" && ToLower(kw[1]) in "hoa";
    assert t[0] == kw[0] && t[1] == kw[1];
    if IsNumeralLetter(t[0]) {
      assert t == [t[0]] + t[1..];
      LeadingKept([t[0]], t[1..]);
    }
  }

  /** A whole `Chapter XIV`-style heading comes out as `Chapter 14`: the
      second substitution does not touch the keyword. */
  lemma HeadingConverted(kw: string, gap: string, numeral: string)
    requires IsKeyword(kw)
    requires |gap| > 0 && AllSpace(gap)
    requires IsNumeralRun(numeral)
    ensures RomanToInt(numeral).Some?
    ensures ConvertTitle(kw + gap + numeral) == kw + " " + NatToString(RomanToInt(numeral).value)
  {
    var digits := NatToString(RomanToInt(numeral).value);
    KeywordConvertsWhole(kw, gap, numeral);
    LeadingRuleSkipsKeyword(kw, " " + digits);
    assert kw + (" " + digits) == kw + " " + digits;
    ConvertTitleOf(kw + gap + numeral, kw + " " + digits);
  }

  /** The first substitution on a heading with nothing after the numeral. */
  lemma KeywordConvertsWhole(kw: string, gap: string, numeral: string)
    requires IsKeyword(kw)
    requires |gap| > 0 && AllSpace(gap)
    requires IsNumeralRun(numeral)
    ensures RomanToInt(numeral).Some?
    ensures KeywordRule(kw + gap + numeral, false) == kw + " " + NatToString(RomanToInt(numeral).value)
  {
    KeywordConverts(kw, gap, numeral, "");
    assert kw + gap + numeral + "" == kw + gap + numeral;
    assert KeywordRule("", true) == "";
  }

  lemma ConvertTitleOf(t: string, x: string)
    requires KeywordRule(t, false) == x && LeadingRule(x) == x
    ensures ConvertTitle(t) == x
  {
  }
}
