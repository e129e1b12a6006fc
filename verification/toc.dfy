/** Chapter extraction from an EPUB: the walk over the table of contents
    (part prefixes, skipped entries, the next-fragment search), the fallback
    heading scan, and the numbered files the chosen chapters are saved to.
    Reading a document's text is a parameter: the HTML traversal is not part
    of this model. */
module Toc {
  import opened Wrappers
  import opened Seqs
  import opened Text
  import opened Decimal
  import opened Editions
  import opened Ebook
  import opened Heading

  /** The first element of a `(head, children)` pair of the table of
      contents. */
  datatype PartHead =
    | LinkHead(title: string)
      /** An `epub.Section`; `text` is what `str()` prints for it. */
    | SectionHead(title: string, text: string)
      /** Any other head, read through `str()`. */
    | OtherHead(text: string)

  datatype TocItem =
    | Link(title: string, href: string)
    | Part(head: PartHead, children: seq<TocItem>)
      /** Anything that is neither a link nor a pair: passed over. */
    | Other

  datatype Chapter = Chapter(title: string, content: string)

  /** The title a part contributes to the prefix. The current edition reads
      a section's own title; the legacy one prints the section object. */
  function PartTitle(head: PartHead, ed: Edition): (r: string)
    ensures Trimmed(r)
  {
    var t := match head
      case LinkHead(title) => title
      case SectionHead(title, text) => if ed == Current then title else text
      case OtherHead(text) => text;
    StripTrimmed(t);
    Strip(t)
  }

  /** Entries the walk passes over: `cover`, `title page`, `copyright`, and
      anything starting with `by`, in any case. */
  predicate Skipped(title: string) {
    var t := Lower(title);
    t == "cover" || t == "title page" || t == "copyright" || StartsWith(t, "by")
  }

  predicate IsDashOrSpace(c: char) { c == ' ' || c == '-' }

  /** No space or hyphen at either end: what `strip(" -")` returns. */
  predicate DashTrimmed(s: string) {
    s == [] || (!IsDashOrSpace(s[0]) && !IsDashOrSpace(s[|s| - 1]))
  }

  /** `f"{prefix} - {title}".strip(" -")`. */
  function FullTitle(prefix: string, title: string): (r: string)
    ensures DashTrimmed(r)
  {
    StripWhere(prefix + " - " + title, IsDashOrSpace)
  }

  /** At the top level the title stands alone. */
  lemma FullTitleTop(title: string)
    requires title != [] && DashTrimmed(title)
    ensures FullTitle("", title) == title
  {
    var s := "" + " - " + title;
    assert s == " - " + title;
    LeadingCountIs(s, IsDashOrSpace, 3);
    assert s[3..] == title;
    StripWhereTail(title);
  }

  /** Under a part the title follows the part's prefix after ` - `. */
  lemma FullTitleNested(prefix: string, title: string)
    requires prefix != [] && DashTrimmed(prefix)
    requires title != [] && DashTrimmed(title)
    ensures FullTitle(prefix, title) == prefix + " - " + title
  {
    var s := prefix + " - " + title;
    assert s[0] == prefix[0];
    assert s[|s| - 1] == title[|title| - 1];
    StripWhereNoop(s, IsDashOrSpace);
  }

  /** An empty title under a part leaves just the prefix. */
  lemma FullTitleEmpty(prefix: string)
    requires prefix != [] && DashTrimmed(prefix)
    ensures FullTitle(prefix, "") == prefix
  {
    var s := prefix + " - " + "";
    assert s == prefix + " - ";
    assert s[0] == prefix[0];
    StripWhereHead(prefix);
  }

  lemma StripWhereTail(t: string)
    requires t != [] && DashTrimmed(t)
    ensures StripWhere((" - " + t)[3..], IsDashOrSpace) == t
  {
    assert (" - " + t)[3..] == t;
    StripWhereNoop(t, IsDashOrSpace);
  }

  lemma StripWhereHead(p: string)
    requires p != [] && DashTrimmed(p)
    ensures StripWhere(p + " - ", IsDashOrSpace) == p
  {
    var s := p + " - ";
    assert s[0] == p[0];
    LeadingCountIs(s, IsDashOrSpace, 0);
    TrailingStartIs(s, IsDashOrSpace, |p|);
    assert s[..|p|] == p;
  }

  // ---------------------------------------------------------------------
  // documents and fragments

  /** The first document whose file name ends with `file`, as
      `next(d for d in documents if d.file_name.endswith(file))`. */
  function FindDocument(docs: seq<string>, file: string): (r: Option<nat>)
    ensures r.Some? ==> r.value < |docs| && EndsWith(docs[r.value], file)
    ensures r.Some? ==> forall j :: 0 <= j < r.value ==> !EndsWith(docs[j], file)
    ensures r.None? <==> forall j :: 0 <= j < |docs| ==> !EndsWith(docs[j], file)
    decreases |docs|
  {
    if docs == [] then None
    else if EndsWith(docs[0], file) then Some(0)
    else
      var r := FindDocument(docs[1..], file);
      assert forall j :: 1 <= j < |docs| ==> docs[j] == docs[1..][j - 1];
      if r.None? then None else Some(r.value + 1)
  }

  /** The file part and the fragment of an `href`, split at `#`. */
  function HrefFile(href: string): string {
    Split(href, "#")[0]
  }

  function HrefFragment(href: string): Option<string> {
    var parts := Split(href, "#");
    if |parts| > 1 then Some(parts[1]) else None
  }

  /** The fragment where the current chapter ends: taken from the first link
      after position `j`, and only when that link points into the same file
      and has a fragment. Entries that are not links are passed over; the
      first link ends the search either way. */
  function NextFragment(items: seq<TocItem>, j: nat, file: string): (r: Option<string>)
    requires j <= |items|
    decreases |items| - j
  {
    if j == |items| then None
    else match items[j]
      case Link(_, href) =>
        if HrefFile(href) == file && HrefFragment(href).Some? then HrefFragment(href) else None
      case _ => NextFragment(items, j + 1, file)
  }

  /** Only the first link after `j` decides the next fragment. */
  lemma NextFragmentFirstLink(items: seq<TocItem>, j: nat, k: nat, file: string)
    requires j <= k < |items| && items[k].Link?
    requires forall m :: j <= m < k ==> !items[m].Link?
    ensures NextFragment(items, j, file)
      == if HrefFile(items[k].href) == file then HrefFragment(items[k].href) else None
  {
    NextFragmentSkipsTo(items, j, k, file);
    NextFragmentAtLink(items, k, file);
  }

  /** Entries that are not links are passed over. */
  lemma {:induction false} NextFragmentSkipsTo(items: seq<TocItem>, j: nat, k: nat, file: string)
    requires j <= k < |items|
    requires forall m :: j <= m < k ==> !items[m].Link?
    ensures NextFragment(items, j, file) == NextFragment(items, k, file)
    decreases k - j
  {
    if j < k {
      NextFragmentSkip(items, j, file);
      NextFragmentSkipsTo(items, j + 1, k, file);
    }
  }

  lemma NextFragmentSkip(items: seq<TocItem>, j: nat, file: string)
    requires j < |items| && !items[j].Link?
    ensures NextFragment(items, j, file) == NextFragment(items, j + 1, file)
  {
  }

  lemma NextFragmentAtLink(items: seq<TocItem>, k: nat, file: string)
    requires k < |items| && items[k].Link?
    ensures NextFragment(items, k, file)
      == if HrefFile(items[k].href) == file then HrefFragment(items[k].href) else None
  {
  }

  /** With no link after `j` there is no next fragment. */
  lemma {:induction false} NextFragmentNoLink(items: seq<TocItem>, j: nat, file: string)
    requires j <= |items|
    requires forall m :: j <= m < |items| ==> !items[m].Link?
    ensures NextFragment(items, j, file) == None
    decreases |items| - j
  {
    if j < |items| {
      NextFragmentNoLink(items, j + 1, file);
    }
  }

  // ---------------------------------------------------------------------
  // the walk

  /** Where a chapter's text is read from: a document, the fragment it starts
      at (`None` for the whole document) and the fragment where it stops. */
  datatype Source = Source(doc: nat, fragment: Option<string>, next: Option<string>)

  /** The chapter kept for a title and its non-empty text: the current
      edition drops a redundant first line (against the title as it was) and
      converts the title's numerals; the legacy edition keeps both as read. */
  function MakeChapter(title: string, content: string, ed: Edition): Chapter {
    match ed
    case Current => Chapter(ConvertTitle(title), StripRedundantHeading(title, content))
    case Legacy => Chapter(title, content)
  }

  /** What one link of the table of contents adds: nothing for a skipped
      title, a file no document matches, or empty text; one chapter
      otherwise. An empty fragment reads the whole document, like a missing
      one. */
  function LinkChapters(items: seq<TocItem>, idx: nat, prefix: string, docs: seq<string>,
                        read: Source -> string, ed: Edition): (r: seq<Chapter>)
    requires idx < |items| && items[idx].Link?
    ensures |r| <= 1
    ensures ed == Legacy ==> forall i :: 0 <= i < |r| ==> r[i].content != "" && DashTrimmed(r[i].title)
    ensures Skipped(Strip(items[idx].title)) ==> r == []
  {
    var title := Strip(items[idx].title);
    if Skipped(title) then []
    else
      var file := HrefFile(items[idx].href);
      var fragment := HrefFragment(items[idx].href);
      match FindDocument(docs, file)
      case None => []
      case Some(d) =>
        var start := if fragment == Some("") then None else fragment;
        var content := read(Source(d, start, NextFragment(items, idx + 1, file)));
        if content == "" then [] else [MakeChapter(FullTitle(prefix, title), content, ed)]
  }

  /** The number of links in the table of contents from position `idx` on,
      parts included. */
  function LinkCount(items: seq<TocItem>, idx: nat): nat
    requires idx <= |items|
    decreases items, |items| - idx, 1
  {
    if idx == |items| then 0
    else ItemLinks(items, idx) + LinkCount(items, idx + 1)
  }

  /** The links of one entry: itself, or those of a part's children. */
  function ItemLinks(items: seq<TocItem>, idx: nat): nat
    requires idx < |items|
    decreases items, |items| - idx, 0
  {
    match items[idx]
    case Link(_, _) => 1
    case Part(_, children) => LinkCount(children, 0)
    case Other => 0
  }

  /** `process_toc_items(items[idx:], prefix)`: the chapters in reading
      order, a part's children under the part's title. */
  function TocChapters(items: seq<TocItem>, idx: nat, prefix: string, docs: seq<string>,
                       read: Source -> string, ed: Edition): (r: seq<Chapter>)
    requires idx <= |items|
    ensures |r| <= LinkCount(items, idx)
    ensures ed == Legacy ==> forall i :: 0 <= i < |r| ==> r[i].content != "" && DashTrimmed(r[i].title)
    decreases items, |items| - idx, 1
  {
    if idx == |items| then []
    else ItemChapters(items, idx, prefix, docs, read, ed) + TocChapters(items, idx + 1, prefix, docs, read, ed)
  }

  /** The chapters of one entry: a link's chapter, a part's children under
      the part's title, nothing for anything else. */
  function ItemChapters(items: seq<TocItem>, idx: nat, prefix: string, docs: seq<string>,
                        read: Source -> string, ed: Edition): (r: seq<Chapter>)
    requires idx < |items|
    ensures |r| <= ItemLinks(items, idx)
    ensures ed == Legacy ==> forall i :: 0 <= i < |r| ==> r[i].content != "" && DashTrimmed(r[i].title)
    decreases items, |items| - idx, 0
  {
    match items[idx]
    case Link(_, _) => LinkChapters(items, idx, prefix, docs, read, ed)
    case Part(head, children) => TocChapters(children, 0, FullTitle(prefix, PartTitle(head, ed)), docs, read, ed)
    case Other => []
  }

  // ---------------------------------------------------------------------
  // the two editions

  /** The current edition's clean-up of a chapter as the legacy edition
      reads it. */
  function Cleanup(c: Chapter): Chapter {
    Chapter(ConvertTitle(c.title), StripRedundantHeading(c.title, c.content))
  }

  /** One link gives the same chapter in both editions, up to the clean-up. */
  lemma LinkChaptersEditions(items: seq<TocItem>, idx: nat, prefix: string, docs: seq<string>,
                             read: Source -> string)
    requires idx < |items| && items[idx].Link?
    ensures LinkChapters(items, idx, prefix, docs, read, Current)
         == Map(Cleanup, LinkChapters(items, idx, prefix, docs, read, Legacy))
  {
    var l := LinkChapters(items, idx, prefix, docs, read, Legacy);
    if l != [] {
      assert l[1..] == [];
    }
  }

  /** The table of contents has no section heads, the one kind of head the
      editions title differently. */
  predicate SectionFree(items: seq<TocItem>, idx: nat)
    requires idx <= |items|
    decreases items, |items| - idx
  {
    idx == |items| ||
    ((match items[idx]
      case Part(head, children) => !head.SectionHead? && SectionFree(children, 0)
      case _ => true)
     && SectionFree(items, idx + 1))
  }

  /** Without section heads the current edition finds the same chapters as
      the legacy one, each cleaned up. */
  lemma {:induction false} EditionsAgree(items: seq<TocItem>, idx: nat, prefix: string, docs: seq<string>,
                                         read: Source -> string)
    requires idx <= |items| && SectionFree(items, idx)
    ensures TocChapters(items, idx, prefix, docs, read, Current)
         == Map(Cleanup, TocChapters(items, idx, prefix, docs, read, Legacy))
    decreases items, |items| - idx, 1
  {
    if idx < |items| {
      assert SectionFree(items, idx + 1);
      EditionsAgree(items, idx + 1, prefix, docs, read);
      ItemEditionsAgree(items, idx, prefix, docs, read);
      TocStep(items, idx, prefix, docs, read, Current);
      TocStep(items, idx, prefix, docs, read, Legacy);
      CleanupAppend(ItemChapters(items, idx, prefix, docs, read, Current),
                    ItemChapters(items, idx, prefix, docs, read, Legacy),
                    TocChapters(items, idx + 1, prefix, docs, read, Current),
                    TocChapters(items, idx + 1, prefix, docs, read, Legacy));
    }
  }

  lemma TocStep(items: seq<TocItem>, idx: nat, prefix: string, docs: seq<string>,
                read: Source -> string, ed: Edition)
    requires idx < |items|
    ensures TocChapters(items, idx, prefix, docs, read, ed)
         == ItemChapters(items, idx, prefix, docs, read, ed) + TocChapters(items, idx + 1, prefix, docs, read, ed)
  {
  }

  lemma CleanupAppend(hereC: seq<Chapter>, hereL: seq<Chapter>, restC: seq<Chapter>, restL: seq<Chapter>)
    requires hereC == Map(Cleanup, hereL) && restC == Map(Cleanup, restL)
    ensures hereC + restC == Map(Cleanup, hereL + restL)
  {
    MapAppend(Cleanup, hereL, restL);
  }

  /** One entry of a table of contents without section heads: the same
      chapters in both editions, up to the clean-up. */
  lemma {:induction false} ItemEditionsAgree(items: seq<TocItem>, idx: nat, prefix: string, docs: seq<string>,
                                             read: Source -> string)
    requires idx < |items| && SectionFree(items, idx)
    ensures ItemChapters(items, idx, prefix, docs, read, Current)
         == Map(Cleanup, ItemChapters(items, idx, prefix, docs, read, Legacy))
    decreases items, |items| - idx, 0
  {
    match items[idx]
    case Link(_, _) =>
      LinkChaptersEditions(items, idx, prefix, docs, read);
    case Part(head, children) =>
      assert PartTitle(head, Current) == PartTitle(head, Legacy) by {
        assert !head.SectionHead?;
      }
      EditionsAgree(children, 0, FullTitle(prefix, PartTitle(head, Legacy)), docs, read);
    case Other =>
  }

  // ---------------------------------------------------------------------
  // the fallback scan

  /** A heading the fallback scan found (`Chapter` or `Book` in an `h1`..`h3`)
      with the texts of the elements after it up to the next such heading. */
  datatype Found = Found(header: string, texts: seq<string>)

  /** The fallback: a chapter for every heading followed by at least one
      element. The test is on the list of elements, so elements without text
      still make a chapter, with empty content. */
  function FallbackChapters(found: seq<Found>, ed: Edition): (r: seq<Chapter>)
    ensures |r| <= |found|
    ensures |r| == 0 <==> forall i :: 0 <= i < |found| ==> found[i].texts == []
    decreases |found|
  {
    if found == [] then []
    else
      var rest := FallbackChapters(found[1..], ed);
      assert forall i :: 1 <= i < |found| ==> found[i] == found[1..][i - 1];
      if found[0].texts == [] then rest
      else [MakeChapter(Strip(found[0].header), Strip(Join(found[0].texts, "\n")), ed)] + rest
  }

  /** A heading followed only by elements without text gives a chapter with
      empty content in both editions. */
  lemma FallbackKeepsEmpty(header: string, n: nat, ed: Edition)
    requires n > 0
    ensures FallbackChapters([Found(header, seq(n, _ => ""))], ed)[0].content == ""
  {
    var texts: seq<string> := seq(n, _ => "");
    JoinOfEmpty(texts);
    var c := Strip(Join(texts, "\n"));
    assert AllSpace(Join(texts, "\n"));
    assert c == "";
    assert FallbackChapters([Found(header, texts)][1..], ed) == [];
  }

  /** Empty strings joined by line feeds are all whitespace. */
  lemma {:induction false} JoinOfEmpty(texts: seq<string>)
    requires forall i :: 0 <= i < |texts| ==> texts[i] == ""
    ensures AllSpace(Join(texts, "\n"))
    decreases |texts|
  {
    if |texts| > 1 {
      JoinOfEmpty(texts[1..]);
      assert Join(texts, "\n") == "" + "\n" + Join(texts[1..], "\n");
    }
  }

  /** `extract_chapters_from_epub`: the table of contents first, the heading
      scan only when the walk found nothing. */
  function ExtractChapters(toc: seq<TocItem>, docs: seq<string>, read: Source -> string,
                           found: seq<Found>, ed: Edition): (r: seq<Chapter>)
    ensures r == [] <==> TocChapters(toc, 0, "", docs, read, ed) == [] && forall i :: 0 <= i < |found| ==> found[i].texts == []
    ensures TocChapters(toc, 0, "", docs, read, ed) != [] ==> r == TocChapters(toc, 0, "", docs, read, ed)
  {
    var chapters := TocChapters(toc, 0, "", docs, read, ed);
    if chapters != [] then chapters else FallbackChapters(found, ed)
  }

  // ---------------------------------------------------------------------
  // choosing and saving

  /** One entry of the selection list. */
  datatype Choice = Choice(name: string, value: nat, enabled: bool)

  /** The selection list: `NN. title`, numbered from 1, valued by position.
      The current edition starts with nothing ticked, the legacy one with
      everything. */
  function Choices(chapters: seq<Chapter>, ed: Edition): (r: seq<Choice>)
    ensures |r| == |chapters|
    ensures forall i :: 0 <= i < |r| ==> r[i].value == i && r[i].enabled == (ed == Legacy)
    ensures forall i :: 0 <= i < |r| ==> NumberedAs(r[i].name, i + 1, chapters[i].title)
  {
    seq(|chapters|, i requires 0 <= i < |chapters| => ChoiceAt(chapters, i, ed))
  }

  /** `name` is a numeral of value `n`, a dot, a space and `title`. */
  predicate NumberedAs(name: string, n: nat, title: string) {
    var d := |name| - |title| - 2;
    d >= 1 && EndsWith(name, ". " + title) && AllDigits(name[..d]) && DigitsValue(name[..d]) == n
  }

  function ChoiceAt(chapters: seq<Chapter>, i: nat, ed: Edition): (c: Choice)
    requires i < |chapters|
    ensures c.value == i && c.enabled == (ed == Legacy)
    ensures NumberedAs(c.name, i + 1, chapters[i].title)
  {
    var number := ZeroPad(i + 1, 2);
    var tail := ". " + chapters[i].title;
    var name := number + tail;
    assert name[..|number|] == number;
    assert name[|name| - |tail|..] == tail;
    ZeroPadValue(i + 1, 2);
    Choice(name, i, ed == Legacy)
  }

  /** The marker between a saved chapter's title and its text. */
  const Separator := "\n\n......\n\n"

  /** `f"{k:03d}_{sanitize_filename(title)}.txt"`. */
  function SavedName(k: nat, title: string): string {
    ZeroPad(k, 3) + NameTail(title)
  }

  function NameTail(title: string): string {
    "_" + SanitizeFilename(title) + ".txt"
  }

  /** What a chapter's file holds: title, separator and text in the current
      edition, the text alone in the legacy one. */
  function SavedBody(c: Chapter, ed: Edition): string {
    match ed
    case Current => c.title + Separator + c.content
    case Legacy => c.content
  }

  datatype SavedFile = SavedFile(path: string, body: string)

  function FileFor(chapter: Chapter, k: nat, dir: string, ed: Edition): SavedFile {
    SavedFile(PathJoin(dir, SavedName(k, chapter.title)), SavedBody(chapter, ed))
  }

  /** `choose_and_save_chapters` after the selection: the selected chapters
      in selection order, numbered from 001, each in its own file of
      `dir`. Nothing is written when nothing is selected. */
  method SaveChapters(chapters: seq<Chapter>, selected: seq<nat>, dir: string, ed: Edition)
    returns (files: seq<SavedFile>)
    requires forall i :: 0 <= i < |selected| ==> selected[i] < |chapters|
    ensures |files| == |selected|
    ensures forall i :: 0 <= i < |files| ==>
      files[i].path == PathJoin(dir, SavedName(i + 1, chapters[selected[i]].title)) &&
      files[i].body == SavedBody(chapters[selected[i]], ed)
  {
    files := [];
    var k := 0;
    while k < |selected|
      invariant k <= |selected| && |files| == k
      invariant SavedPrefix(files, chapters, selected, dir, ed)
    {
      SaveStep(files, chapters, selected, dir, ed);
      files := files + [FileFor(chapters[selected[k]], k + 1, dir, ed)];
      k := k + 1;
    }
  }

  /** The files written for the first `|files|` selections. */
  predicate SavedPrefix(files: seq<SavedFile>, chapters: seq<Chapter>, selected: seq<nat>, dir: string, ed: Edition) {
    |files| <= |selected| &&
    forall i :: 0 <= i < |files| ==> selected[i] < |chapters| && files[i] == FileFor(chapters[selected[i]], i + 1, dir, ed)
  }

  lemma SaveStep(files: seq<SavedFile>, chapters: seq<Chapter>, selected: seq<nat>, dir: string, ed: Edition)
    requires |files| < |selected| && selected[|files|] < |chapters|
    requires SavedPrefix(files, chapters, selected, dir, ed)
    ensures SavedPrefix(files + [FileFor(chapters[selected[|files|]], |files| + 1, dir, ed)], chapters, selected, dir, ed)
  {
    var f := FileFor(chapters[selected[|files|]], |files| + 1, dir, ed);
    var all := files + [f];
    forall i | 0 <= i < |all|
      ensures selected[i] < |chapters| && all[i] == FileFor(chapters[selected[i]], i + 1, dir, ed)
    {
      if i < |files| {
        assert all[i] == files[i];
      }
    }
  }

  /** Below a thousand files the numbers keep the file names in selection
      order: name order is save order. */
  lemma SavedNamesOrdered(j: nat, k: nat, a: string, b: string)
    requires 1 <= j < k < 1000
    ensures LexLess(SavedName(j, a), SavedName(k, b))
  {
    ZeroPadLength(j, 3);
    ZeroPadLength(k, 3);
    assert Pow10(3) == 1000;
    ZeroPadOrder(j, k, 3);
    LexLessEqualLength(ZeroPad(j, 3), ZeroPad(k, 3), NameTail(a), NameTail(b));
  }

  /** The number in front makes every saved name distinct. */
  lemma SavedNamesDistinct(j: nat, k: nat, a: string, b: string)
    requires j != k && j < 1000 && k < 1000
    ensures SavedName(j, a) != SavedName(k, b)
  {
    ZeroPadLength(j, 3);
    ZeroPadLength(k, 3);
    assert Pow10(3) == 1000;
    if SavedName(j, a) == SavedName(k, b) {
      assert SavedName(j, a)[..3] == ZeroPad(j, 3);
      assert SavedName(k, b)[..3] == ZeroPad(k, 3);
      ZeroPadInjective(j, k, 3);
    }
  }

  /** From the thousandth file on the number takes four digits and sorts
      before the earlier ones: `1000_...` comes before `999_...`. */
  lemma ThousandthSortsFirst(a: string, b: string)
    ensures LexLess(SavedName(1000, b), SavedName(999, a))
  {
    assert NatToString(1000) == "1000";
    assert NatToString(999) == "999";
    var s, t := SavedName(1000, b), SavedName(999, a);
    assert s[0] == '1' && t[0] == '9';
  }
}
