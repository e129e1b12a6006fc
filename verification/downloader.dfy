/** The pure rules inside `get_gutenberg_metadata_epub`: the book id read
    from the page address, the record table of the book page folded into a
    dictionary with its defaults, the choice of EPUB link, the host prefix
    of a relative link and the name the EPUB is saved under. The page itself
    is an input: its status, the rows of its `bibrec` table and the `href`
    of every link, in document order. */
module Downloader {
  import opened Wrappers
  import opened Text
  import Editions
  import Narration

  datatype DownloadError = InvalidUrl | FetchFailed | NoEpubLink

  // ---------------------------------------------------------------------
  // the book id

  /** A `/` followed by a digit: where `re.search(r'/(\d+)', url)` can match. */
  predicate IdAt(url: string, k: nat) {
    k + 1 < |url| && url[k] == '/' && IsDigit(url[k + 1])
  }

  /** No match starts anywhere in `s`. */
  predicate NoIdIn(s: string) {
    forall k: nat :: k < |s| ==> !IdAt(s, k)
  }

  /** The leftmost match position at or after `k`, or `|url|`. */
  function FirstIdAt(url: string, k: nat): (r: nat)
    requires k <= |url|
    ensures k <= r <= |url|
    ensures r < |url| ==> IdAt(url, r)
    ensures forall j: nat :: k <= j < r ==> !IdAt(url, j)
    decreases |url| - k
  {
    if k == |url| then |url|
    else if IdAt(url, k) then k
    else FirstIdAt(url, k + 1)
  }

  /** `re.search(r'/(\d+)', url).group(1)`: the digits after the leftmost
      `/` that has one, as many as follow; a ValueError when no `/` is
      followed by a digit. */
  function BookId(url: string): (r: Result<string, DownloadError>)
    ensures r.Failure? <==> NoIdIn(url)
    ensures r.Failure? ==> r.error == InvalidUrl
    ensures r.Success? ==> r.value != [] && AllDigits(r.value)
  {
    var k := FirstIdAt(url, 0);
    if k == |url| then Failure(InvalidUrl)
    else
      var tail := url[k + 1..];
      var n := LeadingCount(tail, IsDigit);
      assert n > 0 by {
        assert tail[0] == url[k + 1];
        LeadingCountIs(tail[..1], IsDigit, 1);
        LeadingCountAtLeast(tail, 1);
      }
      Success(tail[..n])
  }

  /** At least `m` digits open `s` when its first `m` characters are digits. */
  lemma LeadingCountAtLeast(s: string, m: nat)
    requires m <= |s|
    requires forall i :: 0 <= i < m ==> IsDigit(s[i])
    ensures LeadingCount(s, IsDigit) >= m
    decreases m
  {
    if m > 0 {
      LeadingCountAtLeast(s[1..], m - 1);
    }
  }

  /** An address whose first `/`-and-digit is `"/" + id`, the id ending at
      a non-digit or at the end, gives that id: the address of
      `gutenberg.org/ebooks/1342` gives `1342`. */
  lemma BookIdOf(prefix: string, id: string, rest: string)
    requires NoIdIn(prefix)
    requires id != [] && AllDigits(id)
    requires rest == [] || !IsDigit(rest[0])
    ensures BookId(prefix + "/" + id + rest) == Success(id)
  {
    var url := prefix + "/" + id + rest;
    var k := |prefix|;
    forall j: nat | j < k
      ensures !IdAt(url, j)
    {
      assert url[j] == prefix[j];
      if j + 1 < k {
        assert url[j + 1] == prefix[j + 1];
        assert !IdAt(prefix, j);
      } else {
        assert url[j + 1] == '/';
      }
    }
    assert url[k + 1] == id[0];
    assert IdAt(url, k);
    assert FirstIdAt(url, 0) == k by {
      FirstIdAtIs(url, 0, k);
    }
    var tail := url[k + 1..];
    assert tail == id + rest;
    if rest != [] {
      assert tail[|id|] == rest[0];
    }
    LeadingCountIs(tail, IsDigit, |id|);
    assert tail[..|id|] == id;
  }

  lemma FirstIdAtIs(url: string, k: nat, m: nat)
    requires k <= m < |url| && IdAt(url, m)
    requires forall j: nat :: k <= j < m ==> !IdAt(url, j)
    ensures FirstIdAt(url, k) == m
    decreases m - k
  {
    if k < m {
      FirstIdAtIs(url, k + 1, m);
    }
  }

  // ---------------------------------------------------------------------
  // the record table

  /** A row of the `bibrec` table: the text of its `th` and of its `td`,
      each absent when the row has no such cell. */
  datatype Row = Row(header: Option<string>, value: Option<string>)

  /** The row has both cells and its header reads `h`. */
  predicate Gives(r: Row, h: string) {
    r.header == Some(h) && r.value.Some?
  }

  /** Row `i` gives `h` and no later row does. */
  predicate LastGiving(rows: seq<Row>, i: nat, h: string) {
    i < |rows| && Gives(rows[i], h) && forall j :: i < j < |rows| ==> !Gives(rows[j], h)
  }

  /** The loop over the rows: every row with both cells sets
      `metadata[header] = value`, in order. */
  function Record(rows: seq<Row>): (m: map<string, string>)
    ensures forall h :: h in m ==> exists i :: 0 <= i < |rows| && Gives(rows[i], h)
    decreases |rows|
  {
    if rows == [] then map[]
    else
      var init, r := rows[..|rows| - 1], rows[|rows| - 1];
      var m := Record(init);
      assert forall i :: 0 <= i < |init| ==> init[i] == rows[i];
      if r.header.Some? && r.value.Some? then m[r.header.value := r.value.value] else m
  }

  /** A header is recorded with the value of the last row that gives it:
      a later row with the same header overwrites an earlier one. */
  lemma {:induction false} RecordLatest(rows: seq<Row>, i: nat, h: string)
    requires LastGiving(rows, i, h)
    ensures h in Record(rows) && Record(rows)[h] == rows[i].value.value
    decreases |rows|
  {
    var init := rows[..|rows| - 1];
    if i < |rows| - 1 {
      assert !Gives(rows[|rows| - 1], h);
      assert init[i] == rows[i];
      assert LastGiving(init, i, h) by {
        forall j | i < j < |init|
          ensures !Gives(init[j], h)
        {
          assert init[j] == rows[j];
        }
      }
      RecordLatest(init, i, h);
    }
  }

  /** Every header some complete row gives is recorded. */
  lemma {:induction false} RecordHas(rows: seq<Row>, i: nat, h: string)
    requires i < |rows| && Gives(rows[i], h)
    ensures h in Record(rows)
    decreases |rows|
  {
    var init := rows[..|rows| - 1];
    if i < |rows| - 1 && !Gives(rows[|rows| - 1], h) {
      assert init[i] == rows[i];
      RecordHas(init, i, h);
    }
  }

  /** `metadata` after the table: empty when the page has no `bibrec`
      table. */
  function Metadata(table: Option<seq<Row>>): (m: map<string, string>)
    ensures table.None? ==> m == map[]
  {
    match table
    case None => map[]
    case Some(rows) => Record(rows)
  }

  // ---------------------------------------------------------------------
  // the returned record

  datatype Info = Info(title: string, author: string, translator: string)

  const UnknownField: string := "Unknown"
  const NoneField: string := "None"

  /** The three fields with their defaults: "Unknown" for a missing title
      or author, "None" for a missing translator. */
  function BookInfo(meta: map<string, string>): (r: Info)
    ensures "Title" in meta ==> r.title == meta["Title"]
    ensures "Title" !in meta ==> r.title == UnknownField
    ensures "Author" in meta ==> r.author == meta["Author"]
    ensures "Author" !in meta ==> r.author == UnknownField
    ensures "Translator" in meta ==> r.translator == meta["Translator"]
    ensures "Translator" !in meta ==> r.translator == NoneField
  {
    Info(Narration.Get(meta, "Title", UnknownField),
         Narration.Get(meta, "Author", UnknownField),
         Narration.Get(meta, "Translator", NoneField))
  }

  /** The dictionary handed on to the narration. */
  function AsDict(info: Info): (d: map<string, string>)
    ensures d.Keys == {"Title", "Author", "Translator"}
    ensures d["Title"] == info.title && d["Author"] == info.author && d["Translator"] == info.translator
  {
    map["Title" := info.title, "Author" := info.author, "Translator" := info.translator]
  }

  /** A book page with no translator row gives the introduction without a
      translator: the default "None" reads as no translator. */
  lemma NoTranslatorRowPlainIntro(table: Option<seq<Row>>, ed: Editions.Edition)
    requires table.Some? ==> forall i :: 0 <= i < |table.value| ==> !Gives(table.value[i], "Translator")
    ensures Narration.Translator(AsDict(BookInfo(Metadata(table)))) == ""
    ensures Narration.IntroText(AsDict(BookInfo(Metadata(table))), ed) ==
            Narration.IntroText(AsDict(BookInfo(Metadata(table))) - {"Translator"}, ed)
  {
    var d := AsDict(BookInfo(Metadata(table)));
    assert "Translator" !in Metadata(table);
    assert d["Translator"] == "None";
    assert Strip("None") == "None" by {
      StripTrimmed("None");
    }
    assert Lower("None") == "none";
    Narration.NoTranslator(d, ed);
  }

  // ---------------------------------------------------------------------
  // the EPUB link

  /** The suffixes of a downloadable EPUB. */
  predicate Allowed(href: string) {
    EndsWith(href, ".epub3.images") || EndsWith(href, ".epub.images") ||
    EndsWith(href, ".epub.noimages") || EndsWith(href, ".epub")
  }

  /** An allowed link to the EPUB without images, which ends the search. */
  predicate Preferred(href: string) {
    Allowed(href) && Contains(href, "epub.noimages")
  }

  /** The loop over the links from `chosen` on: a preferred link is taken
      at once, the first other allowed link is kept unless one was kept
      already. */
  function SelectFrom(hrefs: seq<string>, chosen: Option<string>): (r: Option<string>)
    ensures chosen.Some? ==> r.Some?
    decreases |hrefs|
  {
    if hrefs == [] then chosen
    else
      var h := hrefs[0];
      if Allowed(h) then
        if Contains(h, "epub.noimages") then Some(h)
        else SelectFrom(hrefs[1..], if chosen.None? then Some(h) else chosen)
      else SelectFrom(hrefs[1..], chosen)
  }

  /** The EPUB link of the page, or "No EPUB link found". */
  function SelectEpubLink(hrefs: seq<string>): (r: Result<string, DownloadError>)
    ensures r.Success? ==> r.value in hrefs && Allowed(r.value)
    ensures r.Failure? ==> r.error == NoEpubLink
  {
    var c := SelectFrom(hrefs, None);
    SelectFromIn(hrefs, None);
    match c
    case None => Failure(NoEpubLink)
    case Some(l) => Success(l)
  }

  lemma {:induction false} SelectFromIn(hrefs: seq<string>, chosen: Option<string>)
    requires chosen.Some? ==> Allowed(chosen.value)
    ensures SelectFrom(hrefs, chosen).Some? ==>
      Allowed(SelectFrom(hrefs, chosen).value) &&
      (SelectFrom(hrefs, chosen) == chosen || SelectFrom(hrefs, chosen).value in hrefs)
    decreases |hrefs|
  {
    if hrefs != [] {
      var h := hrefs[0];
      if Allowed(h) && !Contains(h, "epub.noimages") {
        SelectFromIn(hrefs[1..], if chosen.None? then Some(h) else chosen);
      } else if !Allowed(h) {
        SelectFromIn(hrefs[1..], chosen);
      }
    }
  }

  /** The position of the first link satisfying `p`, or `|s|`. */
  function FirstOf(s: seq<string>, p: string -> bool): (r: nat)
    ensures r <= |s|
    ensures r < |s| ==> p(s[r])
    ensures forall j :: 0 <= j < r ==> !p(s[j])
    decreases |s|
  {
    if s == [] then 0
    else if p(s[0]) then 0
    else 1 + FirstOf(s[1..], p)
  }

  /** The preference as a reference rule: the first preferred link, else
      the link already kept, else the first allowed link. */
  function Preference(hrefs: seq<string>, chosen: Option<string>): Option<string> {
    var a, b := FirstOf(hrefs, Preferred), FirstOf(hrefs, Allowed);
    if a < |hrefs| then Some(hrefs[a])
    else if chosen.Some? then chosen
    else if b < |hrefs| then Some(hrefs[b])
    else None
  }

  /** The loop follows the reference rule from any kept link on. */
  lemma {:induction false} SelectFromFirst(hrefs: seq<string>, chosen: Option<string>)
    ensures SelectFrom(hrefs, chosen) == Preference(hrefs, chosen)
    decreases |hrefs|
  {
    if hrefs != [] {
      var h := hrefs[0];
      if !Allowed(h) {
        SelectFromFirst(hrefs[1..], chosen);
        PreferenceSkip(hrefs, chosen);
      } else if !Contains(h, "epub.noimages") {
        var kept := if chosen.None? then Some(h) else chosen;
        SelectFromFirst(hrefs[1..], kept);
        PreferenceKeep(hrefs, chosen);
      }
    }
  }

  /** A link without an allowed suffix changes nothing. */
  lemma PreferenceSkip(hrefs: seq<string>, chosen: Option<string>)
    requires hrefs != [] && !Allowed(hrefs[0])
    ensures Preference(hrefs, chosen) == Preference(hrefs[1..], chosen)
  {
    FirstOfStep(hrefs, Preferred);
    FirstOfStep(hrefs, Allowed);
  }

  /** An allowed link with images is kept unless one was kept already. */
  lemma PreferenceKeep(hrefs: seq<string>, chosen: Option<string>)
    requires hrefs != [] && Allowed(hrefs[0]) && !Contains(hrefs[0], "epub.noimages")
    ensures Preference(hrefs, chosen) == Preference(hrefs[1..], if chosen.None? then Some(hrefs[0]) else chosen)
  {
    FirstOfStep(hrefs, Preferred);
  }

  lemma FirstOfStep(s: seq<string>, p: string -> bool)
    requires s != [] && !p(s[0])
    ensures FirstOf(s, p) == 1 + FirstOf(s[1..], p)
    ensures FirstOf(s, p) < |s| ==> s[FirstOf(s, p)] == s[1..][FirstOf(s[1..], p)]
  {
  }

  /** `epub_link`: the first link to the EPUB without images; failing that
      the first link with an allowed suffix; failing that an error. */
  lemma SelectEpubLinkRule(hrefs: seq<string>)
    ensures
      var a, b := FirstOf(hrefs, Preferred), FirstOf(hrefs, Allowed);
      SelectEpubLink(hrefs) ==
        if a < |hrefs| then Success(hrefs[a])
        else if b < |hrefs| then Success(hrefs[b])
        else Failure(NoEpubLink)
  {
    SelectFromFirst(hrefs, None);
  }

  // ---------------------------------------------------------------------
  // the download target

  const Host: string := "https://www.gutenberg.org"

  /** A site-relative link gets the host in front; any other is kept. */
  function AbsoluteLink(link: string): (r: string)
    ensures StartsWith(link, "/") ==> StartsWith(r, Host) && r[|Host|..] == link
    ensures !StartsWith(link, "/") ==> r == link
  {
    if StartsWith(link, "/") then Host + link else link
  }

  /** Prefixing twice changes nothing more. */
  lemma AbsoluteLinkIdempotent(link: string)
    ensures AbsoluteLink(AbsoluteLink(link)) == AbsoluteLink(link)
  {
    if StartsWith(link, "/") {
      assert (Host + link)[0] == 'h';
    }
  }

  /** The EPUB's name: the title with spaces as underscores and `.epub`. */
  function EpubName(title: string): (r: string)
    ensures ' ' !in r && EndsWith(r, ".epub")
    ensures |r| == |title| + 5
  {
    var r := ReplaceChar(title, ' ', '_') + ".epub";
    assert r[|r| - 5..] == ".epub";
    r
  }

  /** `os.path.join(output_dir, f"{title.replace(' ', '_')}.epub")`: inside
      the output folder for a title without `/`, its base name the EPUB's
      name. */
  lemma EpubFileInFolder(dir: string, title: string)
    requires dir != [] && dir[|dir| - 1] != '/'
    requires '/' !in title
    ensures PathJoin(dir, EpubName(title)) == dir + "/" + EpubName(title)
    ensures Basename(PathJoin(dir, EpubName(title))) == EpubName(title)
  {
    var name := EpubName(title);
    assert '/' !in name by {
      forall i | 0 <= i < |name|
        ensures name[i] != '/'
      {
        if i < |title| {
          assert title[i] in title;
        }
      }
    }
    assert !StartsWith(name, "/") by {
      assert name[0] in name;
    }
    assert !EndsWith(dir, "/");
    BasenameAfterSlash(dir, name);
  }

  // ---------------------------------------------------------------------
  // the whole call

  /** What the book page offers: the answer's status, the record table and
      the `href` of every link in document order. */
  datatype Page = Page(status: int, table: Option<seq<Row>>, hrefs: seq<string>)

  /** The outcome: the book record, the file the EPUB is saved to and the
      link it is fetched from. */
  datatype Download = Download(info: Info, file: string, link: string)

  /** `get_gutenberg_metadata_epub(url, output_dir)` up to the download: the
      address must hold a book id, the page must answer 200, and it must
      offer an EPUB link. */
  function GetMetadataEpub(url: string, page: Page, outputDir: string): (r: Result<Download, DownloadError>)
    ensures r.Failure? <==> NoIdIn(url) || page.status != 200 || forall i :: 0 <= i < |page.hrefs| ==> !Allowed(page.hrefs[i])
    ensures NoIdIn(url) ==> r == Failure(InvalidUrl)
    ensures !NoIdIn(url) && page.status != 200 ==> r == Failure(FetchFailed)
    ensures r.Success? ==> EndsWith(r.value.file, EpubName(r.value.info.title))
    ensures r.Success? ==> StartsWith(r.value.link, Host) || !StartsWith(r.value.link, "/")
  {
    var _ :- BookId(url);
    if page.status != 200 then Failure(FetchFailed)
    else
      var info := BookInfo(Metadata(page.table));
      SelectEpubLinkRule(page.hrefs);
      var link :- SelectEpubLink(page.hrefs);
      var name := EpubName(info.title);
      assert !StartsWith(name, "/") ==> EndsWith(PathJoin(outputDir, name), name);
      assert StartsWith(name, "/") ==> PathJoin(outputDir, name) == name;
      Success(Download(info, PathJoin(outputDir, name), AbsoluteLink(link)))
  }
}
