/** The chapter-video step of `video_generator`: the title shown for a
    chapter file, the chapter text read back from the file, the list of
    chapter videos to make for a folder, the word wrap of the title card and
    the search for the largest font size at which the card fits. Fonts are
    injected measures: a width and a height for a text at a font size. */
module Video {
  import opened Wrappers
  import opened Seqs
  import opened Text
  import opened Decimal
  import opened Wrap
  import opened Editions
  import opened Ebook
  import opened Listing
  import Toc
  import Narration

  // ---------------------------------------------------------------------
  // format_chapter_title

  /** `re.sub(r'^\d+_', '', name)`: a leading run of digits with the
      underscore after it is dropped, once. */
  function DropIndexPrefix(s: string): (r: string)
    ensures r == s || (|r| + 2 <= |s| && s[|s| - |r|..] == r && s[|s| - |r| - 1] == '_' &&
                       AllDigits(s[..|s| - |r| - 1]))
  {
    var n := LeadingCount(s, IsDigit);
    if 0 < n < |s| && s[n] == '_' then
      assert AllDigits(s[..n]);
      s[n + 1..]
    else s
  }

  /** The leading digits of a saved chapter's name and the underscore after
      them are what goes. */
  lemma DropIndexPrefixOf(digits: string, rest: string)
    requires digits != [] && AllDigits(digits)
    ensures DropIndexPrefix(digits + "_" + rest) == rest
  {
    var s := digits + "_" + rest;
    LeadingCountIs(s, IsDigit, |digits|);
    assert s[|digits| + 1..] == rest;
  }

  /** A name that does not open with digits and an underscore is kept. */
  lemma DropIndexPrefixNone(s: string)
    requires LeadingCount(s, IsDigit) == 0 || LeadingCount(s, IsDigit) == |s| ||
             s[LeadingCount(s, IsDigit)] != '_'
    ensures DropIndexPrefix(s) == s
  {
  }

  /** The number `\b0+(\d+)\b` keeps: the digits without their leading zeros,
      or a single zero when all of them are zeros. */
  function Unpadded(d: string): (r: string)
    requires d != [] && AllDigits(d)
    ensures r != [] && AllDigits(r)
    ensures |r| > 1 ==> r[0] != '0'
    ensures |r| <= |d| && d[|d| - |r|..] == r
    ensures forall i :: 0 <= i < |d| - |r| ==> d[i] == '0'
    decreases |d|
  {
    if |d| > 1 && d[0] == '0' then
      var r := Unpadded(d[1..]);
      assert d[1..][|d| - 1 - |r|..] == d[|d| - |r|..];
      assert forall i :: 1 <= i < |d| - |r| ==> d[i] == d[1..][i - 1];
      r
    else d
  }

  /** Dropping the padding leaves the numeral `str(int(d))`. */
  lemma UnpaddedValue(d: string)
    requires d != [] && AllDigits(d)
    ensures Unpadded(d) == NatToString(DigitsValue(d))
  {
    var r := Unpadded(d);
    UnpaddedSameValue(d);
    CanonicalNumeral(r);
  }

  lemma UnpaddedSameValue(d: string)
    requires d != [] && AllDigits(d)
    ensures DigitsValue(Unpadded(d)) == DigitsValue(d)
  {
    var r := Unpadded(d);
    var k := |d| - |r|;
    ZerosThen(d, k);
    ZerosPrefixValue(k, r);
  }

  /** Digits whose first `k` are zeros are `k` zeros and the rest. */
  lemma ZerosThen(d: string, k: nat)
    requires k <= |d|
    requires forall i :: 0 <= i < k ==> d[i] == '0'
    ensures d == Zeros(k) + d[k..]
  {
    var z := Zeros(k);
    assert d[..k] == z;
    assert d == d[..k] + d[k..];
  }

  /** The digit run at the start of `s` is a number the pattern rewrites: it
      starts with a zero, has a second digit, and ends the word. */
  predicate PaddedAtStart(s: string) {
    var n := LeadingCount(s, IsDigit);
    n >= 2 && s[0] == '0' && (n == |s| || !IsWordChar(s[n]))
  }

  /** `re.sub(r'\b0+(\d+)\b', r'\1', s)`, scanning from the left;
      `afterWord` says whether the character before `s` is a word character,
      in which case no match can start here. */
  function Unpad(s: string, afterWord: bool): (r: string)
    ensures |r| <= |s|
    decreases |s|
  {
    if s == [] then []
    else if !afterWord && PaddedAtStart(s) then
      var n := LeadingCount(s, IsDigit);
      Unpadded(s[..n]) + Unpad(s[n..], true)
    else
      [s[0]] + Unpad(s[1..], IsWordChar(s[0]))
  }

  /** A padded number at the start is rewritten as a whole. */
  lemma UnpadMatch(s: string)
    requires PaddedAtStart(s)
    ensures Unpad(s, false) == Unpadded(s[..LeadingCount(s, IsDigit)]) + Unpad(s[LeadingCount(s, IsDigit)..], true)
  {
  }

  /** Anywhere else the first character is copied. */
  lemma UnpadCopy(s: string, afterWord: bool)
    requires s != [] && (afterWord || !PaddedAtStart(s))
    ensures Unpad(s, afterWord) == [s[0]] + Unpad(s[1..], IsWordChar(s[0]))
  {
  }

  /** Text without a zero has no padded number and is left alone. */
  lemma {:induction false} UnpadNoZero(s: string, afterWord: bool)
    requires '0' !in s
    ensures Unpad(s, afterWord) == s
    decreases |s|
  {
    if s != [] {
      UnpadCopy(s, afterWord);
      assert s == [s[0]] + s[1..];
      UnpadNoZero(s[1..], IsWordChar(s[0]));
    }
  }

  /** The rewrite brings in nothing but digits: no underscore appears. */
  lemma {:induction false} UnpadNoUnderscore(s: string, afterWord: bool)
    requires '_' !in s
    ensures '_' !in Unpad(s, afterWord)
    decreases |s|
  {
    if s != [] {
      if !afterWord && PaddedAtStart(s) {
        var n := LeadingCount(s, IsDigit);
        UnpadNoUnderscore(s[n..], true);
        MatchNoUnderscore(s);
      } else {
        assert s[0] in s;
        UnpadNoUnderscore(s[1..], IsWordChar(s[0]));
        UnpadCopy(s, afterWord);
      }
    }
  }

  lemma MatchNoUnderscore(s: string)
    requires PaddedAtStart(s)
    requires '_' !in Unpad(s[LeadingCount(s, IsDigit)..], true)
    ensures '_' !in Unpad(s, false)
  {
    var n := LeadingCount(s, IsDigit);
    UnpadMatch(s);
    var u := Unpadded(s[..n]);
    assert forall i :: 0 <= i < |u| ==> IsDigit(u[i]);
  }

  /** `format_chapter_title(name)`: no index prefix, underscores shown as
      spaces, and padded numbers without their leading zeros. */
  function FormatChapterTitle(name: string): (r: string)
    ensures '_' !in r
    ensures |r| <= |name|
  {
    var spaced := ReplaceChar(DropIndexPrefix(name), '_', ' ');
    assert '_' !in spaced by {
      forall i | 0 <= i < |spaced|
        ensures spaced[i] != '_'
      {
      }
    }
    UnpadNoUnderscore(spaced, false);
    Unpad(spaced, false)
  }

  /** The word characters after a word character are copied as they are. */
  lemma {:induction false} UnpadInWord(w: string, rest: string)
    requires forall i :: 0 <= i < |w| ==> IsWordChar(w[i])
    ensures Unpad(w + rest, true) == w + Unpad(rest, true)
    decreases |w|
  {
    if w != [] {
      InWordHead(w, rest);
      UnpadInWord(w[1..], rest);
      ConsConcat(w, Unpad(rest, true));
    } else {
      assert w + rest == rest;
    }
  }

  lemma InWordHead(w: string, rest: string)
    requires w != []
    ensures Unpad(w + rest, true) == [w[0]] + Unpad(w[1..] + rest, IsWordChar(w[0]))
  {
    UnpadCopy(w + rest, true);
    assert (w + rest)[1..] == w[1..] + rest;
  }

  /** A number standing as a word of its own is shown as `str(int(d))`:
      `07` becomes `7`, `000` becomes `0`, `12` stays. */
  lemma UnpadNumber(d: string, rest: string)
    requires d != [] && AllDigits(d)
    requires rest == [] || !IsWordChar(rest[0])
    ensures Unpad(d + rest, false) == NatToString(DigitsValue(d)) + Unpad(rest, true)
  {
    UnpaddedValue(d);
    if |d| >= 2 && d[0] == '0' {
      UnpadPaddedNumber(d, rest);
    } else {
      UnpadPlainNumber(d, rest);
    }
  }

  lemma UnpadPaddedNumber(d: string, rest: string)
    requires |d| >= 2 && d[0] == '0' && AllDigits(d)
    requires rest == [] || !IsWordChar(rest[0])
    ensures Unpad(d + rest, false) == Unpadded(d) + Unpad(rest, true)
  {
    var s := d + rest;
    DigitRun(d, rest);
    assert PaddedAtStart(s);
    UnpadMatch(s);
  }

  lemma UnpadPlainNumber(d: string, rest: string)
    requires d != [] && AllDigits(d) && (|d| == 1 || d[0] != '0')
    requires rest == [] || !IsWordChar(rest[0])
    ensures Unpad(d + rest, false) == d + Unpad(rest, true)
  {
    UnpadPlainHead(d, rest);
    WordDigits(d[1..]);
    UnpadInWord(d[1..], rest);
    ConsConcat(d, Unpad(rest, true));
  }

  /** An unpadded number opening the text: its first digit is copied. */
  lemma UnpadPlainHead(d: string, rest: string)
    requires d != [] && AllDigits(d) && (|d| == 1 || d[0] != '0')
    requires rest == [] || !IsWordChar(rest[0])
    ensures Unpad(d + rest, false) == [d[0]] + Unpad(d[1..] + rest, true)
  {
    var s := d + rest;
    DigitRun(d, rest);
    assert IsWordChar(s[0]);
    UnpadCopy(s, false);
    assert s[1..] == d[1..] + rest;
  }

  lemma WordDigits(t: string)
    requires AllDigits(t)
    ensures forall i :: 0 <= i < |t| ==> IsWordChar(t[i])
  {
  }

  /** Putting the first character back in front. */
  lemma ConsConcat(d: string, u: string)
    requires d != []
    ensures [d[0]] + (d[1..] + u) == d + u
  {
    assert d == [d[0]] + d[1..];
  }

  /** The digit run of `d + rest` is `d` when `rest` opens with no digit. */
  lemma DigitRun(d: string, rest: string)
    requires AllDigits(d)
    requires rest == [] || !IsWordChar(rest[0])
    ensures LeadingCount(d + rest, IsDigit) == |d|
    ensures (d + rest)[..|d|] == d && (d + rest)[|d|..] == rest
  {
    var s := d + rest;
    if rest != [] {
      assert s[|d|] == rest[0];
    }
    LeadingCountIs(s, IsDigit, |d|);
  }

  /** A number glued to the letters after it is no word of its own and keeps
      its zeros: `07b` stays. */
  lemma UnpadGluedNumber(d: string, c: char, rest: string)
    requires d != [] && AllDigits(d)
    requires IsWordChar(c) && !IsDigit(c)
    ensures Unpad(d + [c] + rest, false) == d + [c] + Unpad(rest, true)
  {
    var w := d + [c];
    GluedHead(d, c, rest);
    WordDigits(d);
    UnpadInWord(w[1..], rest);
    ConsConcat(w, Unpad(rest, true));
  }

  /** A number glued to a letter is not rewritten: its first digit is
      copied. */
  lemma GluedHead(d: string, c: char, rest: string)
    requires d != [] && AllDigits(d)
    requires IsWordChar(c) && !IsDigit(c)
    ensures Unpad(d + [c] + rest, false) == [d[0]] + Unpad((d + [c])[1..] + rest, true)
  {
    var s := d + [c] + rest;
    assert s[|d|] == c;
    LeadingCountIs(s, IsDigit, |d|);
    UnpadCopy(s, false);
    assert s[1..] == (d + [c])[1..] + rest;
  }

  /** After a character that is no word character, the scan starts afresh. */
  lemma UnpadAfterBreak(c: char, rest: string, afterWord: bool)
    requires !IsWordChar(c)
    ensures Unpad([c] + rest, afterWord) == [c] + Unpad(rest, false)
  {
    UnpadCopy([c] + rest, afterWord);
    assert ([c] + rest)[1..] == rest;
  }

  /** The name, without extension, of the file a chapter titled `title` is
      saved to as number `k`. */
  function SavedRoot(k: nat, title: string): string {
    ZeroPad(k, 3) + "_" + SanitizeFilename(title)
  }

  /** The saved file's name is its root and `.txt`, and the root is what
      `splitext` gives back. */
  lemma SavedRootName(k: nat, title: string)
    ensures Toc.SavedName(k, title) == SavedRoot(k, title) + ".txt"
    ensures Narration.SplitExtRoot(Toc.SavedName(k, title)) == SavedRoot(k, title)
  {
    var pad, san := ZeroPad(k, 3), SanitizeFilename(title);
    Glue(pad, san);
    Narration.ChapterName(pad + "_" + san);
  }

  /** A numbered root: no slash, not only dots, and the name with `.txt`
      glued on. */
  lemma Glue(pad: string, san: string)
    requires pad != [] && AllDigits(pad)
    requires forall i :: 0 <= i < |san| ==> !IsForbidden(san[i])
    ensures pad + ("_" + san + ".txt") == (pad + "_" + san) + ".txt"
    ensures '/' !in pad + "_" + san
    ensures exists j :: 0 <= j < |pad + "_" + san| && (pad + "_" + san)[j] != '.'
  {
    var root := pad + "_" + san;
    assert root[0] == pad[0];
    forall i | 0 <= i < |root|
      ensures root[i] != '/'
    {
      if i > |pad| {
        assert root[i] == san[i - |pad| - 1];
      }
    }
  }

  /** The title of the chapter file saved as number `k`: the sanitized
      chapter title with its underscores shown as spaces and its padded
      numbers unpadded. */
  lemma SavedChapterTitle(k: nat, title: string)
    ensures FormatChapterTitle(Narration.SplitExtRoot(Toc.SavedName(k, title))) ==
            Unpad(ReplaceChar(SanitizeFilename(title), '_', ' '), false)
  {
    SavedRootName(k, title);
    DropIndexPrefixOf(ZeroPad(k, 3), SanitizeFilename(title));
  }

  /** A trimmed title with no forbidden character, no underscore and no zero
      comes back as it was: the video shows the title the chapter was saved
      under. */
  lemma SavedTitleRoundTrip(k: nat, title: string)
    requires Trimmed(title)
    requires forall i :: 0 <= i < |title| ==> !IsForbidden(title[i]) && title[i] != '_' && title[i] != '0'
    ensures FormatChapterTitle(Narration.SplitExtRoot(Toc.SavedName(k, title))) == title
  {
    SavedChapterTitle(k, title);
    SanitizeClean(title);
    SpacesBack(title);
    UnpadNoZero(title, false);
  }

  /** A clean title is only respaced by `sanitize_filename`. */
  lemma SanitizeClean(title: string)
    requires Trimmed(title)
    requires forall i :: 0 <= i < |title| ==> !IsForbidden(title[i])
    ensures SanitizeFilename(title) == ReplaceChar(title, ' ', '_')
  {
    StripTrimmed(title);
  }

  /** Without underscores, the spaces turned into underscores come back. */
  lemma SpacesBack(t: string)
    requires '_' !in t
    ensures ReplaceChar(ReplaceChar(t, ' ', '_'), '_', ' ') == t
  {
  }

  // ---------------------------------------------------------------------
  // reading a chapter file back

  /** The chapter text of a saved file: what follows the first separator,
      split off once; nothing when the file has no separator, which makes
      the file skipped. */
  function ChapterContent(raw: string): (r: Option<string>)
    ensures r.None? <==> !Contains(raw, Toc.Separator)
    ensures r.Some? ==> |r.value| + |Toc.Separator| <= |raw| && EndsWith(raw, r.value)
    ensures r.Some? ==> var k := |raw| - |r.value| - |Toc.Separator|;
      OccursAt(raw, Toc.Separator, k) && forall j: nat :: j < k ==> !OccursAt(raw, Toc.Separator, j)
  {
    var k := FindFrom(raw, Toc.Separator, 0);
    FindFromNone(raw, Toc.Separator);
    if k == |raw| then None else Some(raw[k + |Toc.Separator|..])
  }

  /** A chapter saved by the current parser reads back as its text, when the
      title does not run into the separator. */
  lemma ContentOfSaved(c: Toc.Chapter)
    requires Separable(c.title, Toc.Separator)
    ensures ChapterContent(Toc.SavedBody(c, Current)) == Some(c.content)
  {
    var sep := Toc.Separator;
    var s := Toc.SavedBody(c, Current);
    assert s == (c.title + sep) + c.content;
    forall j: nat | j < |c.title|
      ensures !OccursAt(s, sep, j)
    {
      assert !OccursAt(c.title + sep, sep, j);
      assert s[j..j + |sep|] == (c.title + sep)[j..j + |sep|];
    }
    assert s[|c.title|..|c.title| + |sep|] == sep;
    FindFromIs(s, sep, 0, |c.title|);
    assert s[|c.title| + |sep|..] == c.content;
  }

  /** A title on one line never runs into the separator, which opens with a
      line feed. */
  lemma OneLineTitleSeparable(title: string)
    requires '\n' !in title
    ensures Separable(title, Toc.Separator)
  {
    var sep := Toc.Separator;
    forall k: nat | k < |title|
      ensures !OccursAt(title + sep, sep, k)
    {
      assert (title + sep)[k] == title[k];
      if k + |sep| <= |title + sep| {
        assert (title + sep)[k..k + |sep|][0] == title[k];
      }
    }
  }

  /** A chapter saved by the older parser holds its text alone, and is
      skipped unless the text itself contains the separator. */
  lemma LegacySavedSkipped(c: Toc.Chapter)
    requires !Contains(c.content, Toc.Separator)
    ensures ChapterContent(Toc.SavedBody(c, Legacy)).None?
  {
  }

  // ---------------------------------------------------------------------
  // process_chapters_from_directory

  /** One chapter video to make: its title, the chapter text, and the
      chapter's narration. */
  datatype Job = Job(title: string, content: string, audio: string)

  /** The job for a chapter file `file` whose text is `content`: the audio
      is the `.wav` of the same name in the audio folder. */
  function JobFor(file: string, content: string, audioDir: string): Job {
    var root := Narration.SplitExtRoot(file);
    Job(FormatChapterTitle(root), content, PathJoin(audioDir, root + ".wav"))
  }

  /** The jobs for `files`, in order, skipping the files whose text is
      missing (`contents[i]` is the chapter text of `files[i]`). */
  function JobsFrom(files: seq<string>, contents: seq<Option<string>>, audioDir: string): (r: seq<Job>)
    requires |contents| == |files|
    ensures |r| <= |files|
    decreases |files|
  {
    if files == [] then []
    else
      var rest := JobsFrom(files[1..], contents[1..], audioDir);
      match contents[0]
      case None => rest
      case Some(content) => [JobFor(files[0], content, audioDir)] + rest
  }

  /** The chapter text of each file, read through `read`. */
  function Contents(files: seq<string>, inputDir: string, read: string -> string): (r: seq<Option<string>>)
    ensures |r| == |files|
    ensures forall i :: 0 <= i < |files| ==> r[i] == ChapterContent(read(PathJoin(inputDir, files[i])))
  {
    seq(|files|, i requires 0 <= i < |files| => ChapterContent(read(PathJoin(inputDir, files[i]))))
  }

  /** `process_chapters_from_directory`: a job for every `.txt` file of the
      listing that has the separator, in name order. `read` gives the text
      of a file by its path. */
  function ChapterJobs(names: seq<string>, inputDir: string, audioDir: string, read: string -> string): seq<Job> {
    var files := Listed(names, ".txt");
    JobsFrom(files, Contents(files, inputDir, read), audioDir)
  }

  /** When every file has the separator, there is one job per file, in
      order. */
  lemma {:induction false} JobsAllRead(files: seq<string>, contents: seq<Option<string>>, audioDir: string)
    requires |contents| == |files|
    requires forall i :: 0 <= i < |files| ==> contents[i].Some?
    ensures |JobsFrom(files, contents, audioDir)| == |files|
    ensures forall i :: 0 <= i < |files| ==>
      JobsFrom(files, contents, audioDir)[i] == JobFor(files[i], contents[i].value, audioDir)
    decreases |files|
  {
    if files != [] {
      JobsAllRead(files[1..], contents[1..], audioDir);
      var r := JobsFrom(files, contents, audioDir);
      assert r == [JobFor(files[0], contents[0].value, audioDir)] + JobsFrom(files[1..], contents[1..], audioDir);
      forall i | 0 <= i < |files|
        ensures r[i] == JobFor(files[i], contents[i].value, audioDir)
      {
        if i > 0 {
          assert files[i] == files[1..][i - 1] && contents[i] == contents[1..][i - 1];
        }
      }
    }
  }

  /** When no file has the separator, there is nothing to do. */
  lemma {:induction false} JobsNoneRead(files: seq<string>, contents: seq<Option<string>>, audioDir: string)
    requires |contents| == |files|
    requires forall i :: 0 <= i < |files| ==> contents[i].None?
    ensures JobsFrom(files, contents, audioDir) == []
    decreases |files|
  {
    if files != [] {
      assert contents[0].None?;
      JobsNoneRead(files[1..], contents[1..], audioDir);
    }
  }

  /** The jobs do not depend on the order of the folder listing. */
  lemma JobsIndependent(a: seq<string>, b: seq<string>, inputDir: string, audioDir: string, read: string -> string)
    requires multiset(a) == multiset(b)
    ensures ChapterJobs(a, inputDir, audioDir, read) == ChapterJobs(b, inputDir, audioDir, read)
  {
    ListedIndependent(a, b, ".txt");
  }

  /** The video job of the chapter the current parser saved as number `k`:
      the saved title shown as a title, the chapter's text, and the
      narration named after the file. */
  lemma SavedChapterJob(c: Toc.Chapter, k: nat, audioDir: string)
    requires Separable(c.title, Toc.Separator)
    ensures ChapterContent(Toc.SavedBody(c, Current)) == Some(c.content)
    ensures JobFor(Toc.SavedName(k, c.title), c.content, audioDir) ==
      Job(Unpad(ReplaceChar(SanitizeFilename(c.title), '_', ' '), false), c.content,
          PathJoin(audioDir, SavedRoot(k, c.title) + ".wav"))
  {
    ContentOfSaved(c);
    SavedChapterTitle(k, c.title);
    SavedRootName(k, c.title);
  }

  // ---------------------------------------------------------------------
  // wrap_text

  /** The lines of `wrap_text(line, font)`, where `fits` is "renders no
      wider than the card". The loop keeps the line in progress as a string
      and grows it by `(current + " " + w).strip()`; it makes the greedy
      lines of the words. */
  method WrapText(line: string, fits: string -> bool) returns (lines: seq<string>)
    ensures lines == Pack(Words(line), fits)
    ensures forall i :: 0 <= i < |lines| ==> lines[i] != [] && (fits(lines[i]) || lines[i] in Words(line))
    ensures Words(Join(lines, " ")) == Words(line)
  {
    var words := Words(line);
    lines := [];
    var current := "";
    ghost var cur: seq<string> := [];
    ghost var groups: seq<seq<string>> := [];
    var i := 0;
    while i < |words|
      invariant i <= |words|
      invariant forall k :: 0 <= k < |cur| ==> IsWord(cur[k])
      invariant current == Join(cur, " ")
      invariant current == [] <==> cur == []
      invariant lines == JoinEach(groups)
      invariant groups + PackFrom(cur, words[i..], fits) == PackGroups(words, fits)
    {
      var w := words[i];
      var trial := Strip(current + " " + w);
      TrialIsJoin(cur, w);
      PackFromStep(cur, words[i..], fits);
      assert words[i..][1..] == words[i + 1..];
      if fits(trial) {
        current := trial;
        cur := cur + [w];
      } else {
        if current != "" {
          JoinEachSnoc(groups, cur);
          Regroup(groups, cur, PackFrom([w], words[i + 1..], fits));
          lines := lines + [current];
          groups := groups + [cur];
        }
        current := w;
        cur := [w];
        assert Join(cur, " ") == w;
      }
      i := i + 1;
    }
    assert words[i..] == [];
    if current != "" {
      JoinEachSnoc(groups, cur);
      lines := lines + [current];
      groups := groups + [cur];
    }
    assert groups == PackGroups(words, fits);
    PackLines(words, fits);
  }

  lemma Regroup(groups: seq<seq<string>>, cur: seq<string>, rest: seq<seq<string>>)
    ensures (groups + [cur]) + rest == groups + ([cur] + rest)
  {
  }

  lemma JoinEachSnoc(groups: seq<seq<string>>, cur: seq<string>)
    ensures JoinEach(groups + [cur]) == JoinEach(groups) + [Join(cur, " ")]
  {
  }

  /** One step of the packer: the word joins the group in progress, or the
      group (if any) is closed and the word opens the next. */
  lemma PackFromStep(cur: seq<string>, words: seq<string>, fits: string -> bool)
    requires |words| > 0
    ensures fits(Join(cur + [words[0]], " ")) ==> PackFrom(cur, words, fits) == PackFrom(cur + [words[0]], words[1..], fits)
    ensures !fits(Join(cur + [words[0]], " ")) && cur != [] ==> PackFrom(cur, words, fits) == [cur] + PackFrom([words[0]], words[1..], fits)
    ensures !fits(Join(cur + [words[0]], " ")) && cur == [] ==> PackFrom(cur, words, fits) == PackFrom([words[0]], words[1..], fits)
  {
  }

  /** The trial line is the line in progress with the word added: the
      group joined by single spaces, never empty. */
  lemma TrialIsJoin(cur: seq<string>, w: string)
    requires forall k :: 0 <= k < |cur| ==> IsWord(cur[k])
    requires IsWord(w)
    ensures Strip(Join(cur, " ") + " " + w) == Join(cur + [w], " ")
    ensures Join(cur + [w], " ") != []
  {
    JoinTrimmed(cur + [w]);
    if cur == [] {
      TrialFirst(w);
    } else {
      TrialMore(cur, w);
    }
  }

  lemma TrialFirst(w: string)
    requires IsWord(w)
    ensures Strip(Join([], " ") + " " + w) == Join([] + [w], " ")
  {
    assert [] + [w] == [w];
    assert Join([], " ") + " " + w == [' '] + w;
    StripDropSpace(w);
  }

  lemma TrialMore(cur: seq<string>, w: string)
    requires |cur| > 0 && forall k :: 0 <= k < |cur| ==> IsWord(cur[k])
    requires IsWord(w)
    ensures Strip(Join(cur, " ") + " " + w) == Join(cur + [w], " ")
  {
    JoinAppend(cur, [w]);
    JoinTrimmed(cur);
    GlueTrimmed(Join(cur, " "), w);
  }

  /** `(" " + w).strip()` is `w` for a word. */
  lemma StripDropSpace(w: string)
    requires IsWord(w)
    ensures Strip([' '] + w) == w
  {
    var s := [' '] + w;
    LeadingCountIs(s, IsSpace, 1);
    assert s[1..] == w;
    assert Trimmed(w);
    StripTrimmed(w);
  }

  /** Two trimmed texts glued by a space make a trimmed text. */
  lemma GlueTrimmed(a: string, w: string)
    requires a != [] && Trimmed(a) && IsWord(w)
    ensures Strip(a + " " + w) == a + " " + w
  {
    var s := a + " " + w;
    assert s[0] == a[0];
    assert s[|s| - 1] == w[|w| - 1];
    StripTrimmed(s);
  }

  /** Words joined by spaces make a non-empty trimmed text. */
  lemma {:induction false} JoinTrimmed(ws: seq<string>)
    requires |ws| > 0
    requires forall k :: 0 <= k < |ws| ==> IsWord(ws[k])
    ensures Join(ws, " ") != [] && Trimmed(Join(ws, " "))
    decreases |ws|
  {
    assert IsWord(ws[0]);
    if |ws| > 1 {
      JoinTrimmed(ws[1..]);
      var t := Join(ws[1..], " ");
      var s := ws[0] + " " + t;
      assert Join(ws, " ") == s;
      assert s[0] == ws[0][0];
      assert s[|s| - 1] == t[|t| - 1];
    } else {
      assert Join(ws, " ") == ws[0];
    }
  }

  // ---------------------------------------------------------------------
  // the title card

  /** The rendering measures of the font file: the width of a text and the
      height of its bounding box, at a font size. */
  datatype Font = Font(width: (nat, string) -> nat, height: (nat, string) -> nat)

  /** The three texts of the title card. */
  datatype Card = Card(book: string, author: string, chapter: string)

  const SmallestSize: nat := 10
  const LargestSize: nat := 120
  /** The space between two lines of the card. */
  const LineGap: nat := 10

  /** `int(size * 0.8)`: the size of the author and chapter lines. For the
      sizes searched the float product never falls below an integer it
      should reach, so this is the exact four fifths rounded down. */
  function SubSize(size: nat): (r: nat)
    ensures r <= size && 5 * r <= 4 * size < 5 * (r + 1)
  {
    size * 4 / 5
  }

  /** `sum(heights) + 10 * (len(heights) - 1)`: the lines stacked with a gap
      between neighbours (an empty card counts as minus one gap). */
  function TotalHeight(heights: seq<nat>): (r: int)
    ensures r + LineGap == SumNat(heights) + LineGap * |heights|
  {
    SumNat(heights) + LineGap * (|heights| - 1)
  }

  /** Stacking two blocks of lines puts one gap between them. */
  lemma TotalHeightAppend(a: seq<nat>, b: seq<nat>)
    ensures TotalHeight(a + b) == TotalHeight(a) + LineGap + TotalHeight(b)
  {
    SumNatAppend(a, b);
  }

  /** The height of each line at a size. */
  function LineHeights(lines: seq<string>, font: Font, size: nat): (r: seq<nat>)
    ensures |r| == |lines|
    ensures forall i :: 0 <= i < |lines| ==> r[i] == font.height(size, lines[i])
  {
    seq(|lines|, i requires 0 <= i < |lines| => font.height(size, lines[i]))
  }

  /** The lines of one text of the card at a size, wrapped to the card's
      width. */
  function CardLines(text: string, font: Font, size: nat, maxWidth: nat): seq<string> {
    Pack(Words(text), s => font.width(size, s) <= maxWidth)
  }

  /** The heights of all lines of the card at font size `size`: the book
      title at that size, author and chapter title at four fifths of it. */
  function CardHeights(card: Card, font: Font, size: nat, maxWidth: nat): seq<nat> {
    var sub := SubSize(size);
    LineHeights(CardLines(card.book, font, size, maxWidth), font, size) +
    LineHeights(CardLines(card.author, font, sub, maxWidth), font, sub) +
    LineHeights(CardLines(card.chapter, font, sub, maxWidth), font, sub)
  }

  /** The card fits at a size when its lines stack no higher than the
      card. */
  predicate FitsAt(card: Card, font: Font, size: nat, maxWidth: nat, maxHeight: int) {
    TotalHeight(CardHeights(card, font, size, maxWidth)) <= maxHeight
  }

  /** Every size below a fitting one fits too: the assumption the search
      rests on. */
  predicate Monotone(fits: nat -> bool) {
    forall a, b :: SmallestSize <= a <= b <= LargestSize && fits(b) ==> fits(a)
  }

  /** The binary search of `generate_static_text_image` over the sizes 10
      to 120: a size that fits, and when fitting is monotone in the size, the
      largest one; nothing (the "too tall" error) exactly when even the
      smallest size does not fit. */
  method LargestFit(fits: nat -> bool) returns (best: Option<nat>)
    ensures best.Some? ==> SmallestSize <= best.value <= LargestSize && fits(best.value)
    ensures Monotone(fits) ==> (best.None? <==> !fits(SmallestSize))
    ensures Monotone(fits) && best.Some? ==> forall s :: best.value < s <= LargestSize ==> !fits(s)
  {
    var low, high := SmallestSize, LargestSize;
    best := None;
    while low <= high
      invariant SmallestSize <= low <= high + 1 <= LargestSize + 1
      invariant best.Some? ==> SmallestSize < low && best.value == low - 1 && fits(best.value)
      invariant best.None? ==> low == SmallestSize
      invariant Monotone(fits) ==> forall s :: high < s <= LargestSize ==> !fits(s)
      invariant Monotone(fits) ==> forall s :: SmallestSize <= s < low ==> fits(s)
      decreases high - low + 1
    {
      var mid := (low + high) / 2;
      if fits(mid) {
        best := Some(mid);
        low := mid + 1;
      } else {
        high := mid - 1;
      }
    }
  }

  /** The font size of the title card, or nothing when the card is too tall
      even at the smallest size. */
  method CardFontSize(card: Card, font: Font, maxWidth: nat, maxHeight: int) returns (best: Option<nat>)
    ensures best.Some? ==> SmallestSize <= best.value <= LargestSize && FitsAt(card, font, best.value, maxWidth, maxHeight)
    ensures Monotone((s: nat) => FitsAt(card, font, s, maxWidth, maxHeight)) ==>
      (best.None? <==> !FitsAt(card, font, SmallestSize, maxWidth, maxHeight))
    ensures Monotone((s: nat) => FitsAt(card, font, s, maxWidth, maxHeight)) && best.Some? ==>
      forall s :: best.value < s <= LargestSize ==> !FitsAt(card, font, s, maxWidth, maxHeight)
  {
    var fits := (s: nat) => FitsAt(card, font, s, maxWidth, maxHeight);
    best := LargestFit(fits);
    assert forall s: nat :: fits(s) == FitsAt(card, font, s, maxWidth, maxHeight);
  }

  /** A card with no words at all stacks no line and fits any card. */
  lemma EmptyCardFits(card: Card, font: Font, size: nat, maxWidth: nat, maxHeight: int)
    requires Words(card.book) == [] && Words(card.author) == [] && Words(card.chapter) == []
    requires maxHeight >= 0
    ensures FitsAt(card, font, size, maxWidth, maxHeight)
  {
  }
}
