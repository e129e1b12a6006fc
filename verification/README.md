# narrato-ai pipeline core, in Dafny

narrato-ai turns a Project Gutenberg book into an audiobook with captions and
chapter videos. The pipeline runs these steps:

1. Download the book page and its EPUB.
2. Split the EPUB into chapter files.
3. Stream each chapter as chunks of two or three sentences.
4. Speak each chunk into a numbered `.wav` file and record a caption sidecar.
5. Turn the sidecar into a SubRip caption timeline.
6. Merge the chunk audio and the caption tracks.
7. Name and title the chapter videos.

This project models the deterministic core of that pipeline. It does so as
pure Dafny functions over strings, sequences and numbers, and proves what the
code promises about them. Speech, HTML, the network, audio files and video
drawing are parameters or are left out.

The repository keeps two copies of several steps: a current one in the `utils`
package and an older one at the top level. Where the copies differ, the
operation takes an `Editions.Edition` (`Current` or `Legacy`) and both are
modelled. The older `sentence_streamer.py` and `downloader.py` match the
`utils` copies line for line in the modelled parts (sentence_streamer.py:4-34,
downloader.py:7-56), so one model serves both.

Modules, in pipeline order:

- **Supporting modules**
  - `Wrappers`: `Option` and `Result`.
  - `Seqs`: `Map`, `Flatten`, `Sum` and `SumNat`.
  - `Text`: `str.strip`, `split` and `join`, `os.path.join` and `basename`,
    and code-point ordering of strings.
  - `Decimal`: digit strings, `str(int)` and `f"{n:0Wd}"`.
  - `Editions`: the two copies.
  - `Listing`: `sorted([f for f in os.listdir(d) if f.endswith(ext)])`.
- **`Downloader`**: book id, metadata record and defaults, the EPUB-link
  preference, link prefixing and the file name.
- **`Ebook`**, **`Roman`**, **`Heading`**, **`Toc`**:
  - `sanitize_filename`, `roman_to_int` and `convert_title_roman_numerals`;
  - `strip_redundant_heading`;
  - the table-of-contents walk (part prefixes, skipped entries, the
    next-fragment search), and the fallback heading scan;
  - the selection list, and the saved chapter files.
- **`SentenceStreamer`**: `stream_sentences`. This is a fold over the lines of
  a file, with state (`carry`, `pending`). The random chunk size is an
  injected chooser.
- **`Narration`**:
  - `format_name` and the introduction sentence;
  - `convert_to_audio`;
  - chunk ids and the caption sidecar of `process_texts_to_audio`;
  - the global chunk counter of the legacy copy.
- **`Timestamp`**, **`Wrap`**, **`Timeline`**, **`SrtMerge`**:
  - `format_timestamp` and `parse_srt_time`;
  - `break_into_lines`;
  - the timing loop of `generate_srt_from_subtitles_json`;
  - `merge_srt_files`.
- **`AudioMerge`**: `merge_audio_files`, where audio is a sequence of samples.
- **`Video`**:
  - `format_chapter_title`;
  - the separator split of `process_chapters_from_directory`;
  - `wrap_text` and the font-size binary search of
    `generate_static_text_image`, with fonts as measure functions.

Time is a Dafny `real` in seconds, so line shares `d/n` and prefix sums are
exact. A rendered timestamp truncates to whole milliseconds, as
`int((t - int(t)) * 1000)` does.

The models show some behaviours of the code that are easy to miss:

- `format_name` removes date spans in a single pass: `",,1900-19501900-1950"`
  becomes `",1900-1950"` (`Narration.RemoveDatesSinglePass`).
- `convert_to_audio` writes every speech segment to the same path, so only the
  last segment survives (`Narration.WriteSegmentsLast`).
- The table-of-contents skip rule `startswith("by")` also skips a chapter
  titled "Bygones".
- A file holding only blank lines streams one empty chunk
  (`SentenceStreamer.BlankLineYieldsEmptyChunk`). The carry `" "` is truthy,
  and its strip is `""`.
- The three-digit save numbering stops sorting in order at the thousandth file
  (`Toc.ThousandthSortsFirst`).
- `merge_audio_files` does not deduplicate: an introduction that also lies in
  the merged folder is read twice (`AudioMerge.IntroReadTwice`). `menu.py:51`
  passes the lower-case `introduction.wav`, while the legacy converter it
  imports writes `Introduction.wav` (audio_converter.py:48). On a case-sensitive file system
  the read of the introduction fails. On a case-insensitive one the
  introduction is read first and again after the six-digit chunk files, since
  `I` sorts after the digits.
- The legacy downloader's default translator `"None"` yields the plain
  introduction, the same as a missing translator
  (`Downloader.NoTranslatorRowPlainIntro`).
- The `or m.group(2)` fallback of the keyword rule never applies: every run of
  `[IVXLCDM]` letters has a value (`Roman.RomanToInt`).

## Model

| member | source | states |
|---|---|---|
| Text.StripWhere | utils/ebook_parser.py:146 | `strip(" -")`: the result has no stripped character at either end, and it is empty exactly when every character is one to strip |
| Text.Strip | utils/sentence_streamer.py:11 | `str.strip()` leaves no whitespace at either end, and it is empty exactly when the text is all whitespace |
| Text.StripTrimmed | utils/sentence_streamer.py:11 | stripping is idempotent, and it leaves a text unchanged exactly when the text has no whitespace at either end |
| Text.Split | utils/subtitle_generator.py:69 | `str.split(sep)` always returns at least one part |
| Text.SplitJoin | utils/subtitle_generator.py:69 | splitting the join of parts that do not hold the separator gives back the same parts |
| Text.JoinSplit | utils/subtitle_generator.py:87 | joining the parts of a split with the separator rebuilds the text |
| Text.ReplaceChar | utils/video_generator.py:281 | `str.replace` of one character: the same length, with every occurrence of the character replaced and every other position kept |
| Text.PathJoin | audio_merger.py:12 | `os.path.join`: an absolute second part replaces the first; otherwise the result ends with the second part |
| Text.Basename | utils/audio_converter.py:116 | `os.path.basename` has no `/` and is a suffix of the path |
| Text.BasenameAfterSlash | utils/audio_converter.py:116 | the base name of `dir + "/" + name`, for a name without `/`, is the name |
| Decimal.DigitsValue | utils/subtitle_generator.py:94 | `int()` of a digit string is below 10 to the power of its length |
| Decimal.NatToString | utils/ebook_parser.py:55 | `str(n)` is a nonempty digit string with no leading zero |
| Decimal.NatToStringValue | utils/ebook_parser.py:55 | reading `str(n)` back gives n |
| Decimal.CanonicalNumeral | utils/subtitle_generator.py:94 | a digit string without a leading zero is `str` of its own value |
| Decimal.ZeroPad | utils/audio_converter.py:106 | `f"{n:0Wd}"` is a digit string of at least W characters |
| Decimal.ZeroPadValue | utils/audio_converter.py:106 | a padded number reads back as the number |
| Decimal.ZeroPadLength | utils/audio_converter.py:106 | a number below 10^W pads to exactly W digits |
| Decimal.ZeroPadInjective | utils/audio_converter.py:106 | different numbers pad to different strings |
| Decimal.ZeroPadOrder | utils/audio_converter.py:106 | below 10^W, the string order of padded numbers is their numeric order, in both directions |
| Decimal.LexLessDigits | audio_merger.py:9 | for digit strings of equal length, string order equals numeric order |
| Listing.WithSuffix | audio_merger.py:9 | the filter keeps exactly the names ending with the extension |
| Listing.WithSuffixCount | audio_merger.py:9 | the filter keeps every copy of a matching name and no copy of any other |
| Listing.WithSuffixPermutation | audio_merger.py:9 | listings that are permutations of each other filter to permutations of each other |
| Listing.WithSuffixIgnores | audio_merger.py:9 | adding a name without the extension changes nothing |
| Listing.SortNames | audio_merger.py:9 | `sorted()` is a permutation of its input in ascending order |
| Listing.SortedUnique | audio_merger.py:9 | two ascending arrangements of the same names are equal |
| Listing.SortIndependent | audio_merger.py:9 | sorting forgets the order of the listing |
| Listing.Listed | utils/video_generator.py:293 | the listed files are in ascending order, and are exactly the names with the extension |
| Listing.ListedIndependent | utils/video_generator.py:293 | two listings of the same folder, in any order, give the same files in the same order |
| Listing.SortedFixed | audio_merger.py:9 | a listing already in ascending order is its own sorted form |
| Downloader.FirstIdAt | utils/downloader.py:8 | `re.search(r'/(\d+)')` finds the first `/` followed by a digit, with none before it |
| Downloader.BookId | utils/downloader.py:8-11 | fails with the invalid-URL error exactly when no `/` is followed by a digit; otherwise the id is a nonempty digit run |
| Downloader.BookIdOf | utils/downloader.py:8-11 | in a URL whose first `/digit` opens the id, the id is the whole digit run |
| Downloader.Record | utils/downloader.py:22-28 | every recorded header comes from a row that has both a header and a value |
| Downloader.RecordLatest | utils/downloader.py:22-28 | a header's value is the value of the last row that gives it: later rows overwrite earlier ones |
| Downloader.RecordHas | utils/downloader.py:25-28 | every header given by a complete row is recorded |
| Downloader.Metadata | utils/downloader.py:19-21 | a page without the `bibrec` table gives an empty record |
| Downloader.BookInfo | utils/downloader.py:30-32 | title and author are the recorded values or "Unknown"; the translator is the recorded value or "None" |
| Downloader.AsDict | utils/downloader.py:102 | the returned dictionary has exactly the keys Title, Author and Translator, holding the three values |
| Downloader.NoTranslatorRowPlainIntro | utils/downloader.py:32 | a page with no Translator row gives the default "None", which the introduction treats as no translator |
| Downloader.SelectFrom | utils/downloader.py:39-48 | once a candidate has been chosen, the scan ends with a link |
| Downloader.SelectEpubLink | utils/downloader.py:39-50 | a selected link is one of the page's links and has an allowed EPUB suffix; failure is the no-EPUB error |
| Downloader.SelectFromIn | utils/downloader.py:40-48 | the scan ends with an allowed link, either the candidate it started with or one of the links |
| Downloader.SelectFromFirst | utils/downloader.py:39-48 | the scan loop equals the preference rule for every list of links |
| Downloader.Preference | utils/downloader.py:39-48 | the reference rule for the scan: the first `epub.noimages` link, else the candidate already kept, else the first allowed link; `Downloader.SelectFromFirst` proves the loop equals it |
| Downloader.SelectEpubLinkRule | utils/downloader.py:39-50 | the first `epub.noimages` link wins; otherwise the first allowed link wins; otherwise the no-EPUB error |
| Downloader.AbsoluteLink | utils/downloader.py:52-53 | a link starting with `/` gets the Gutenberg host in front; any other link is unchanged |
| Downloader.AbsoluteLinkIdempotent | utils/downloader.py:52-53 | prefixing twice is prefixing once |
| Downloader.EpubName | utils/downloader.py:56 | the file name has no space, ends with `.epub`, and is five characters longer than the title |
| Downloader.EpubFileInFolder | utils/downloader.py:55-56 | the EPUB file lies directly in the output folder, under the title-derived name |
| Downloader.GetMetadataEpub | utils/downloader.py:7-56 | fails exactly when the id is missing, the fetch fails or no link is allowed, reporting the invalid id before the failed fetch; on success the file is named after the title and the link is absolute or not rooted |
| Ebook.RemoveForbidden | utils/ebook_parser.py:9 | removes every character of `\ / * ? : " < > \|`, and leaves a text without them unchanged |
| Ebook.SanitizeFilename | utils/ebook_parser.py:9 | the file name has no forbidden character, no space, and no whitespace at either end |
| Ebook.SanitizeFixed | utils/ebook_parser.py:9 | a title is left unchanged exactly when it is trimmed and has no forbidden character or space |
| Ebook.SanitizeIdempotent | utils/ebook_parser.py:9 | sanitizing twice is sanitizing once |
| Ebook.KeywordLength | utils/ebook_parser.py:54 | a keyword match at the start, in any case, fits in the text |
| Ebook.MatchKeyword | utils/ebook_parser.py:54 | a match of `(Chapter\|Book\|Part)\s+([IVXLCDM]+)\b` orders keyword, gap and numeral inside the text |
| Ebook.MatchAfterKeyword | utils/ebook_parser.py:54 | a match after a keyword has a whitespace gap followed by a numeral run |
| Ebook.MatchAfterKeywordAt | utils/ebook_parser.py:54 | whitespace, then a numeral run that ends at a word boundary, is the match |
| Ebook.MatchKeywordOf | utils/ebook_parser.py:54 | a keyword, whitespace and a bounded numeral run is the match, with its exact positions |
| Ebook.NumeralTextConverts | utils/ebook_parser.py:55 | a numeral of any case has a value, and the replacement text is that value in decimal |
| Ebook.NumeralText | utils/ebook_parser.py:55 | the replacement `roman_to_int(m.group(2)) or m.group(2)`; `Ebook.NumeralTextConverts` states it is the numeral's value in decimal |
| Ebook.KeywordRule | utils/ebook_parser.py:53-58 | the first `re.sub`, leftmost and non-overlapping; `Ebook.KeywordConverts` and `Ebook.KeywordConvertsWhole` state what it does to a match and that the scan resumes after it |
| Ebook.KeywordConverts | utils/ebook_parser.py:53-58 | "keyword, whitespace, numeral" becomes "keyword, one space, decimal value", and the scan goes on after it |
| Ebook.KeywordConvertsWhole | utils/ebook_parser.py:53-58 | a title that is exactly a keyword heading converts to "keyword N" |
| Ebook.LeadingConverts | utils/ebook_parser.py:60-64 | a leading upper-case numeral, an optional dot, and then a space or the end, becomes its value, keeping the dot and the rest |
| Ebook.LeadingKept | utils/ebook_parser.py:60-64 | a leading numeral followed by anything other than a space, the end, or a dot before a space or the end, is left alone |
| Ebook.LeadingRuleSkipsKeyword | utils/ebook_parser.py:60-64 | the leading rule does not touch a title that starts with a keyword |
| Ebook.LeadingRule | utils/ebook_parser.py:60-64 | the second `re.sub`, anchored at the start and case-sensitive; `Ebook.LeadingConverts`, `Ebook.LeadingKept` and `Ebook.LeadingRuleSkipsKeyword` state when it converts and when it keeps the title |
| Ebook.ConvertTitle | utils/ebook_parser.py:45-66 | `convert_title_roman_numerals`, the keyword rule then the leading rule; `Ebook.HeadingConverted` states its result on a keyword heading |
| Ebook.HeadingConverted | utils/ebook_parser.py:45-66 | `convert_title_roman_numerals("Chapter XIV")` is `"Chapter 14"`, for any keyword, gap and numeral run |
| Roman.Scan | utils/ebook_parser.py:33-42 | the scan succeeds exactly when every letter is a numeral letter, and then it is at least the number of letters |
| Roman.RomanToInt | utils/ebook_parser.py:29-42 | returns None exactly when some letter, upper-cased, is not in IVXLCDM; the empty string gives 0 and any other numeral a positive value |
| Roman.RomanCaseInsensitive | utils/ebook_parser.py:30 | numerals that agree after upper-casing have the same value |
| Roman.ScanNoPairs | utils/ebook_parser.py:33-42 | without subtractive pairs the value is the sum of the letters, so IIII is 4 |
| Roman.TableRow | utils/ebook_parser.py:12-26 | every key of the map is one letter of its value or a subtractive pair of its value |
| Roman.ScanToRomanFrom | utils/ebook_parser.py:12-42 | the scan reads the greedy numeral built from the table back as its number |
| Roman.RomanToIntCanonical | utils/ebook_parser.py:12-42 | every canonical numeral, in upper or lower case, reads back as its value, e.g. XIV as 14 |
| Roman.ToRomanFrom | utils/ebook_parser.py:12-26 | an independent encoder that takes the largest table row that fits; `Roman.ScanToRomanFrom` states the decoder reads it back |
| Roman.ToRoman | utils/ebook_parser.py:12-26 | the canonical numeral of a number, the partner of `roman_to_int`; `Roman.RomanToIntCanonical` states it decodes to the number in either case |
| Heading.SplitLines | utils/ebook_parser.py:70 | `splitlines()` is empty exactly for the empty text |
| Heading.BreakLength | utils/ebook_parser.py:70 | a line break is two characters exactly when it is `\r\n` |
| Heading.JoinSplitLines | utils/ebook_parser.py:82 | joining the lines of line-feed text with `\n` gives the text back |
| Heading.WordChars | utils/ebook_parser.py:75-76 | `re.sub(r"\W+", "")` keeps exactly the word characters, in order |
| Heading.Normalize | utils/ebook_parser.py:75-76 | the word characters, lower-cased; `Heading.WordChars` states which characters stay, and `Heading.RepeatedTitleRedundant` what equal forms imply |
| Heading.StripRedundantHeading | utils/ebook_parser.py:69-87 | blank content is returned as it is; otherwise the result is the content itself or a trimmed text |
| Heading.HeadingRule | utils/ebook_parser.py:69-87 | the first line is dropped and the rest returned exactly when that line is redundant; otherwise the content is unchanged |
| Heading.HeadingOnly | utils/ebook_parser.py:82 | content that is only a redundant heading becomes empty |
| Heading.SymbolLineRedundant | utils/ebook_parser.py:75-81 | a first line without word characters normalizes to "", which lies in every title, so it is dropped |
| Heading.RepeatedTitleRedundant | utils/ebook_parser.py:78-81 | a first line that normalizes like the title is dropped |
| Heading.NumberHeading | utils/ebook_parser.py:84 | a run of numeral letters or digits, then dots, is a bare heading |
| Heading.ChapterHeading | utils/ebook_parser.py:84 | "chapter" in any case, optional whitespace, then a number and dots, is a bare heading |
| Heading.OtherLineNotBare | utils/ebook_parser.py:84 | a line starting with anything but a numeral letter, digit or "chapter" is not a bare heading |
| Heading.BareHeading | utils/ebook_parser.py:84 | the match of `^(chapter\s*)?[ivxlcdm\d]+\.*$` ignoring case; `Heading.NumberHeading`, `Heading.ChapterHeading` and `Heading.OtherLineNotBare` state which lines match |
| Heading.Redundant | utils/ebook_parser.py:74-85 | either normalised form contains the other, or the line is a bare heading; `Heading.HeadingRule` states that exactly such a first line is dropped |
| Toc.PartTitle | utils/ebook_parser.py:139-144 | a part's title is stripped |
| Toc.FullTitle | utils/ebook_parser.py:158 | the full title has no space or hyphen at either end |
| Toc.FullTitleTop | utils/ebook_parser.py:158 | at the top level a clean title is its own full title |
| Toc.FullTitleNested | utils/ebook_parser.py:146 | under a clean prefix, a clean title becomes `prefix - title` |
| Toc.FullTitleEmpty | utils/ebook_parser.py:146 | an empty title leaves the prefix as it is |
| Toc.FindDocument | utils/ebook_parser.py:164-171 | the document found is the first one whose file name ends with the link's file; nothing is found exactly when none does |
| Toc.NextFragmentFirstLink | ebook_parser.py:95-103 | the next fragment comes from the first link after the entry: its fragment if it points into the same file, nothing otherwise |
| Toc.NextFragmentSkipsTo | ebook_parser.py:95-103 | entries that are not links are passed over |
| Toc.NextFragmentSkip | ebook_parser.py:97 | one entry that is not a link is passed over |
| Toc.NextFragmentAtLink | ebook_parser.py:97-103 | the search stops at the first link either way |
| Toc.NextFragmentNoLink | ebook_parser.py:95-103 | with no later link there is no next fragment |
| Toc.NextFragment | utils/ebook_parser.py:177-185 | the next-fragment search; `Toc.NextFragmentFirstLink` and `Toc.NextFragmentNoLink` state that the first later link decides it |
| Toc.MakeChapter | utils/ebook_parser.py:192-195 | the chapter kept for a title and its text; `Toc.LinkChapters` and `Toc.LinkChaptersEditions` state how the two copies build it |
| Toc.Cleanup | utils/ebook_parser.py:193-194 | the heading drop and numeral conversion of the current copy; `Toc.EditionsAgree` states that it is all that separates the two walks |
| Toc.LinkChapters | utils/ebook_parser.py:149-195 | a link gives at most one chapter and none for a skipped title; in the legacy copy the chapter's text is nonempty and its title clean |
| Toc.TocChapters | utils/ebook_parser.py:134-147 | the walk gives at most one chapter per link, and in the legacy copy only nonempty chapters with clean titles |
| Toc.ItemChapters | utils/ebook_parser.py:135-147 | an entry gives at most as many chapters as it has links |
| Toc.LinkChaptersEditions | utils/ebook_parser.py:192-195 | the current copy's chapter for a link is the legacy chapter with its heading dropped and its numerals converted |
| Toc.EditionsAgree | utils/ebook_parser.py:134-197 | on a contents list without sections, the current walk is the legacy walk followed by that clean-up of each chapter |
| Toc.ItemEditionsAgree | utils/ebook_parser.py:134-147 | the same agreement for a single entry and its children |
| Toc.FallbackChapters | utils/ebook_parser.py:199-222 | the scan gives at most one chapter per heading, and none exactly when no heading is followed by an element |
| Toc.FallbackKeepsEmpty | utils/ebook_parser.py:216-222 | a heading followed only by textless elements still gives a chapter, with empty text |
| Toc.ExtractChapters | utils/ebook_parser.py:197-199 | the contents walk wins when it finds anything; the heading scan is used only when it finds nothing; the result is empty exactly when both are |
| Toc.Choices | utils/ebook_parser.py:233-236 | one choice per chapter, valued by position, named `NN. title` from 1; none ticked in the current copy and all in the legacy one |
| Toc.ChoiceAt | utils/ebook_parser.py:234 | a choice's name is the number i+1, a dot, a space and the title |
| Toc.SaveChapters | utils/ebook_parser.py:248-259 | one file per selected chapter, in selection order, named `NNN_<sanitized>.txt` from 001, holding title, separator and text (current) or the text alone (legacy) |
| Toc.SavedNamesOrdered | utils/ebook_parser.py:250-252 | below 1000, the file names sort in save order |
| Toc.SavedNamesDistinct | utils/ebook_parser.py:250-252 | below 1000, different save numbers give different names |
| Toc.ThousandthSortsFirst | utils/ebook_parser.py:250 | the thousandth file's name sorts before the 999th |
| Toc.SavedName | utils/ebook_parser.py:250-252 | `f"{k:03d}_{sanitize_filename(title)}.txt"`; `Toc.SavedNamesOrdered`, `Toc.SavedNamesDistinct` and `Toc.ThousandthSortsFirst` state how the names sort |
| Toc.SavedBody | utils/ebook_parser.py:259 | what a chapter file holds; `Video.ContentOfSaved` and `Video.LegacySavedSkipped` state what reading it back gives |
| SentenceStreamer.NextBreak | utils/sentence_streamer.py:5 | finds the first place where `(?<=[.!?])\s+` can start, with none before it |
| SentenceStreamer.SplitSentences | utils/sentence_streamer.py:12 | the split has one more fragment than removed whitespace runs |
| SentenceStreamer.SplitSentencesWeave | utils/sentence_streamer.py:12 | putting the removed whitespace back between the fragments rebuilds the text exactly |
| SentenceStreamer.SplitSentencesGaps | utils/sentence_streamer.py:5 | every removed run is nonempty whitespace right after `.`, `!` or `?` |
| SentenceStreamer.SplitSentencesNoBreak | utils/sentence_streamer.py:12 | no fragment holds a split point |
| SentenceStreamer.SplitSentencesMaximal | utils/sentence_streamer.py:5 | `\s+` takes the whole run: no fragment after the first starts with whitespace |
| SentenceStreamer.SplitSentencesVisible | utils/sentence_streamer.py:12 | splitting loses only whitespace |
| SentenceStreamer.EndsSentenceIsSearch | utils/sentence_streamer.py:14 | the end-of-sentence test is the search for `[.!?]["']?\s*$` |
| SentenceStreamer.FeedVisible | utils/sentence_streamer.py:11-17 | the released fragments and the new carry hold exactly the old carry's and the line's non-space text |
| SentenceStreamer.FeedCarry | utils/sentence_streamer.py:14-17 | the new carry is empty, or an unfinished sentence with no split point |
| SentenceStreamer.Feed | utils/sentence_streamer.py:11-17 | one line appended to the carry and split; `SentenceStreamer.FeedVisible` and `SentenceStreamer.FeedCarry` state what is released and kept |
| SentenceStreamer.LastFragmentUnfinished | utils/sentence_streamer.py:17 | when the text does not end a sentence, the fragment kept back is unfinished and unsplittable |
| SentenceStreamer.Drain | utils/sentence_streamer.py:21-25 | one random draw per chunk emitted |
| SentenceStreamer.DrainConserves | utils/sentence_streamer.py:21-25 | the chunks, then what is left, are the pending fragments in order; fewer than two are left |
| SentenceStreamer.DrainSizes | utils/sentence_streamer.py:22 | every chunk has 2 or 3 fragments: the size drawn for it, or for a last chunk the whole remaining list |
| SentenceStreamer.DrainShort | utils/sentence_streamer.py:21 | fewer than two pending fragments emit nothing |
| SentenceStreamer.Stream | utils/sentence_streamer.py:4-31 | one chunk per group of fragments; the lemmas below say what the groups are |
| SentenceStreamer.StepSpec | utils/sentence_streamer.py:10-25 | one line keeps the state invariant, sets the new carry, passes fragments through in order, and emits only 2-3 fragment chunks |
| SentenceStreamer.Step | utils/sentence_streamer.py:10-25 | one iteration of the line loop; `SentenceStreamer.StepSpec` states it |
| SentenceStreamer.RunConserves | utils/sentence_streamer.py:10-25 | over all lines, the chunks then the pending list are exactly the released fragments, in order |
| SentenceStreamer.RunSizes | utils/sentence_streamer.py:21-25 | every chunk emitted inside the loop has 2 or 3 fragments |
| SentenceStreamer.Run | utils/sentence_streamer.py:10-25 | the whole line loop; `SentenceStreamer.RunConserves` and `SentenceStreamer.RunSizes` state it |
| SentenceStreamer.FlushAfterRun | utils/sentence_streamer.py:27-31 | the flush adds the pending fragments and then the stripped carry |
| SentenceStreamer.Flush | utils/sentence_streamer.py:27-31 | the code after the loop; `SentenceStreamer.FlushAfterRun` states it |
| SentenceStreamer.StreamConservesFragments | utils/sentence_streamer.py:19-31 | every fragment of the file is in exactly one chunk, and in file order |
| SentenceStreamer.StreamShape | utils/sentence_streamer.py:21-31 | the stream is the loop's 2-3 fragment chunks followed by at most one flush chunk of 1 or 2 fragments |
| SentenceStreamer.StreamGroups | utils/sentence_streamer.py:4-31 | the fragment groups of the chunks; `SentenceStreamer.StreamConservesFragments` and `SentenceStreamer.StreamShape` state them |
| SentenceStreamer.SingleFragmentOnlyLast | utils/sentence_streamer.py:27-31 | only the last chunk can hold a single fragment |
| SentenceStreamer.AllFragmentsVisible | utils/sentence_streamer.py:11-28 | the fragments hold exactly the non-space text of the file |
| SentenceStreamer.StreamPreservesText | utils/sentence_streamer.py:8-31 | the chunks hold exactly the non-space text of the file, in order |
| SentenceStreamer.EmptyFileNoChunks | utils/sentence_streamer.py:8-31 | an empty file yields no chunk |
| SentenceStreamer.BlankLineYieldsEmptyChunk | utils/sentence_streamer.py:27-31 | a file of one blank line yields one empty chunk |
| Narration.DateLength | utils/audio_converter.py:28 | a `, YYYY-YYYY` match is at least ten characters and fits in the text |
| Narration.RemoveDates | utils/audio_converter.py:28 | removing matches never lengthens the name |
| Narration.RemoveDatesKeepFirst | utils/audio_converter.py:28 | where no match starts, the character is kept and the scan moves on by one |
| Narration.RemoveDatesDropMatch | utils/audio_converter.py:28 | a match is removed whole and the scan continues after it |
| Narration.RemoveDatesKeeps | utils/audio_converter.py:28 | text without a comma is kept as it is |
| Narration.DateSpanMatches | utils/audio_converter.py:28 | a comma, any whitespace, then `YYYY-YYYY` is a match, of length gap + 10 |
| Narration.RemoveDatesSpan | utils/audio_converter.py:28 | a date span is removed and the rest is scanned on |
| Narration.RemoveDatesSpanAlone | utils/audio_converter.py:28 | a name that is only a date span becomes empty |
| Narration.NoDateAfterGap | utils/audio_converter.py:28 | a comma followed by whitespace and then not a digit is no match |
| Narration.KeepDoubledComma | utils/audio_converter.py:28 | the first of two commas is kept |
| Narration.RemoveDatesSinglePass | utils/audio_converter.py:28 | one pass: removing a span can leave a new span in the result, which stays |
| Narration.RemoveDatesNoComma | utils/audio_converter.py:28 | a name without a comma is untouched |
| Narration.SecondSpanKept | utils/audio_converter.py:28 | a span right after a comma is consumed by the match that starts at the comma before it |
| Narration.SwapAtComma | utils/audio_converter.py:30-33 | swapping never lengthens the name |
| Narration.FormatName | utils/audio_converter.py:27-34 | the formatted name is never longer than the raw one |
| Narration.FormatNameNoComma | utils/audio_converter.py:28-34 | a name without a comma is only stripped |
| Narration.FormatNameLastFirst | utils/audio_converter.py:27-34 | "Last, First" becomes "First Last", with or without a trailing date span |
| Narration.RemoveDatesGivenName | utils/audio_converter.py:28 | a given name after ", " survives, and only date spans after it go |
| Narration.CommaSpaceKept | utils/audio_converter.py:28 | ", " before a non-digit is no match and is kept |
| Narration.RemoveDatesLastFirst | utils/audio_converter.py:28 | "Last, First" followed by date spans keeps exactly "Last, First" |
| Narration.CommaAfterSurname | utils/audio_converter.py:31 | the first comma of "Last, First" is right after the surname |
| Narration.SwapLastFirst | utils/audio_converter.py:30-33 | the two stripped parts around the first comma are swapped with one space |
| Narration.FormatNameSwap | utils/audio_converter.py:27-34 | "Last, First" followed by date spans formats as "First Last" |
| Narration.IntroText | utils/audio_converter.py:48-58 | the introduction begins with the welcome and then the title |
| Narration.TemplatesDiffer | utils/audio_converter.py:48-58 | the sentences with and without a translator never coincide |
| Narration.IntroSentence | utils/audio_converter.py:43-58 | the plain sentence is used exactly when the spoken translator is empty, and the translated one otherwise |
| Narration.TranslatorBlank | utils/audio_converter.py:43-46 | a missing, blank or "none" (in any case) translator is not spoken |
| Narration.Translator | utils/audio_converter.py:43-46 | the translator as spoken; `Narration.TranslatorBlank`, `Narration.NoTranslator` and `Narration.NamedTranslator` state when it is empty and how a name is credited |
| Narration.PlainIntro | utils/audio_converter.py:55-58 | the sentence without a translator; `Narration.IntroSentence`, `Narration.TemplatesDiffer` and `Narration.IntroEnds` state when it is used and how it ends |
| Narration.TranslatedIntro | utils/audio_converter.py:49-53 | the sentence with a translator; `Narration.IntroSentence` and `Narration.NamedTranslator` state when it is used and whom it credits |
| Narration.FormatNameEmpty | utils/audio_converter.py:27-34 | the empty name formats to the empty name |
| Narration.IntroSame | utils/audio_converter.py:41-58 | the introduction depends only on title, author and spoken translator |
| Narration.NoTranslator | utils/audio_converter.py:43-46 | a "none" or blank translator gives the same introduction as no translator key |
| Narration.NamedTranslator | utils/audio_converter.py:43-53 | a translator "Last, First" is credited as "First Last" in the translated sentence |
| Narration.NamedFormat | utils/audio_converter.py:27-34 | "Last, First" formats as "First Last" |
| Narration.IntroDefaults | utils/audio_converter.py:41-42 | without Title and Author the sentence names "Unknown Title" by "Unknown Author" |
| Narration.Title | utils/audio_converter.py:41 | `metadata.get("Title", "Unknown Title")`; `Narration.IntroDefaults` states the default |
| Narration.Author | utils/audio_converter.py:42-45 | the formatted author or the default; `Narration.IntroDefaults` states the default |
| Narration.FormatNameTrimmed | utils/audio_converter.py:28-34 | a trimmed name without a comma is unchanged |
| Narration.IntroEnds | utils/audio_converter.py:49-58 | the introduction ends with the closing of its copy and template |
| Narration.IntroClosing | audio_converter.py:36-46 | the current copy always ends "Sit back, relax, and enjoy."; the legacy copy ends "...as it unfolds." exactly without a translator and "...another time and place." exactly with one |
| Narration.ChunkId | utils/audio_converter.py:106 | a chunk id is a digit string of at least six characters |
| Narration.WriteSegmentsLast | utils/audio_converter.py:22-23 | writing the segments to one path leaves only the last segment there, and no other file changes |
| Narration.WriteSegments | utils/audio_converter.py:22-23 | the segment loop over a file store; `Narration.WriteSegmentsLast` states that only the last segment survives |
| Narration.AudioName | utils/audio_converter.py:20 | `<id>.wav`; `Narration.ConvertToAudio` and `Narration.AudioPathBasename` state the path and the recorded name |
| Narration.ConvertToAudio | utils/audio_converter.py:18-24 | returns the input text, a path whose base name is `<id>.wav`, and the last synthesized segment stored at that path |
| Narration.AudioPathBasename | utils/audio_converter.py:116 | the sidecar's file name is the chunk's `.wav` name |
| Narration.IntroCaptions | utils/audio_converter.py:60-75 | the introduction's single-record sidecar always captions, from 0 to the length of its audio |
| Narration.IntroSidecar | utils/audio_converter.py:60-65 | the one-record sidecar of the introduction; `Narration.IntroCaptions` states its captions |
| Narration.SingleEntryCaptions | utils/audio_converter.py:65-75 | a single record with visible text captions from 0 to its audio length |
| Narration.NarrateSidecar | utils/audio_converter.py:99-118 | one record per chunk, in order: chunk i from `next` is recorded as `<ChunkId(next+i)>.wav` with the chunk's text |
| Narration.NarrateFrom | utils/audio_converter.py:105-118 | the chunk loop; `Narration.NarrateSidecar` states its sidecar |
| Narration.ChapterCaptions | utils/audio_converter.py:105-133 | the chapter sidecar lists the streamed chunks in order; its captions show exactly the chapter's non-space text and end at the total audio length |
| Narration.ChapterSidecar | utils/audio_converter.py:105-118 | the sidecar of one chapter; `Narration.ChapterCaptions` and `Narration.ChaptersRestart` state its records and captions |
| Narration.ChunkNamesOrdered | utils/audio_converter.py:106 | below 10^6, chunk file names sort exactly as their numbers do |
| Narration.ChunkNamesDistinct | utils/audio_converter.py:106 | different chunk numbers give different file names |
| Narration.LastIndex | utils/audio_converter.py:93 | the last position of a character, with none after it, or -1 |
| Narration.ChapterName | utils/audio_converter.py:93 | `splitext("name.txt")[0]` is the name, unless the name is all dots |
| Narration.SplitExtRoot | utils/audio_converter.py:93 | `os.path.splitext(p)[0]`; `Narration.ChapterName` and `Video.SavedRootName` state it on chapter file names |
| Narration.ProcessTexts | utils/audio_converter.py:91-92 | one chapter per `.txt` file of the input folder |
| Narration.ChaptersRestart | utils/audio_converter.py:99-118 | in every chapter, chunk i is recorded as `<ChunkId(i)>.wav`: numbering restarts at 0 |
| Narration.LegacyIds | audio_converter.py:56-73 | one id per chunk, chapter by chapter |
| Narration.LegacyIdsAt | audio_converter.py:56-73 | a legacy chunk's id is its position across all chapters |
| Narration.LegacyIdsUnique | audio_converter.py:56-73 | legacy ids are distinct across chapters and never the introduction's id |
| Narration.IntroductionIsNoChunk | audio_converter.py:48 | no chunk id equals "Introduction" |
| Timestamp.ToFields | utils/subtitle_generator.py:11-12 | the `divmod` split keeps minutes and seconds below 60 and milliseconds below 1000, leaves hours unbounded, and preserves the total |
| Timestamp.ToFieldsOfTotal | utils/subtitle_generator.py:11-12 | fields in range are recovered from their total |
| Timestamp.Millis | utils/subtitle_generator.py:8-10 | milliseconds are truncated: ms ≤ 1000·t < ms + 1 |
| Timestamp.FormatTimestamp | utils/subtitle_generator.py:7-13 | `format_timestamp`; `Timestamp.FormatTimestampIsMillis`, `Timestamp.FormatIsCanonical`, `Timestamp.FormatChars`, `Timestamp.ParseFormat` and `Timestamp.FormatTruncates` state its shape and that it reads back to the time, truncated |
| Timestamp.FormatTimestampIsMillis | utils/subtitle_generator.py:7-13 | a timestamp depends only on the truncated milliseconds |
| Timestamp.SplitFields | utils/subtitle_generator.py:92-93 | success means exactly three `:` fields and two `,` fields, and the parts rebuild the text |
| Timestamp.ParseSrtTime | utils/subtitle_generator.py:91-94 | a parsed time is not negative |
| Timestamp.ParseFormatMillis | utils/subtitle_generator.py:91-94 | a timestamp formatted from whole milliseconds parses back to them |
| Timestamp.ParseRender | utils/subtitle_generator.py:91-94 | rendered fields parse back to their total |
| Timestamp.ParseFormat | utils/subtitle_generator.py:7-13 | for a whole-millisecond time, parse after format is the identity |
| Timestamp.FormatTruncates | utils/subtitle_generator.py:7-13 | formatting then parsing loses less than one millisecond and never rounds up |
| Timestamp.FormatIsCanonical | utils/subtitle_generator.py:13 | every formatted timestamp is canonical: at least two hour digits, two minute and two second digits below 60, and three millisecond digits |
| Timestamp.FormatChars | utils/subtitle_generator.py:13 | a timestamp is nonempty, holds only digits, `:` and `,`, and ends in a digit |
| Timestamp.FormatParseCanonical | utils/subtitle_generator.py:91-94 | format after parse is the identity on canonical timestamps |
| Wrap.Words | utils/video_generator.py:56 | `str.split()` gives nonempty words without whitespace |
| Wrap.WordsConcat | utils/video_generator.py:56 | the words together are the non-space text |
| Wrap.WordsEmpty | utils/video_generator.py:56 | there are no words exactly when the text is all whitespace |
| Wrap.WordsJoin | utils/video_generator.py:56 | splitting words joined by single spaces gives the words back |
| Wrap.PackFromGreedy | utils/video_generator.py:59-68 | the loop from any state gives a greedy packing of the remaining words |
| Wrap.PackFrom | utils/video_generator.py:59-68 | the loop from a group in progress; `Wrap.PackFromGreedy` states its result |
| Wrap.Greedy | utils/video_generator.py:59-68 | the reference definition of a greedy wrap, without the algorithm: the groups hold the words in order, each fits or is one word, and each closed because the next word did not fit |
| Wrap.PackIsGreedy | utils/video_generator.py:59-68 | the packing is greedy: each line is as long as fits, and a line that does not fit is a single word |
| Wrap.GreedyIsPack | utils/video_generator.py:59-68 | a grouping is greedy exactly when it is the packing, so the greedy packing is unique |
| Wrap.Pack | utils/video_generator.py:55-69 | the lines of `wrap_text`; `Wrap.PackIsGreedy`, `Wrap.GreedyIsPack` and `Wrap.PackLines` state them |
| Wrap.PackLines | utils/video_generator.py:59-69 | no line is empty, each line fits or is a single word, and the lines hold the words in order |
| Wrap.Chop | utils/subtitle_generator.py:16-18 | a long word is cut into nonempty pieces of at most the width that rebuild the word |
| Wrap.Pieces | utils/subtitle_generator.py:16-18 | every piece is nonempty and at most the width |
| Wrap.PiecesConcat | utils/subtitle_generator.py:16-18 | the pieces rebuild the words |
| Wrap.PiecesEmpty | utils/subtitle_generator.py:16-18 | there are no pieces exactly when there are no words |
| Wrap.BreakIntoLinesSpec | utils/subtitle_generator.py:16-18 | every line has 1 to 80 characters, there are no lines exactly for blank text, and the lines keep the text's non-space characters |
| Wrap.BreakIntoLines | utils/subtitle_generator.py:16-18 | `break_into_lines`; `Wrap.BreakIntoLinesSpec` states it |
| Timeline.EntryCues | utils/subtitle_generator.py:46-52 | one cue per wrapped line |
| Timeline.SharesProduct | utils/subtitle_generator.py:51 | adding the line share j times advances the clock by j times the share |
| Timeline.Wrapped | utils/subtitle_generator.py:43 | each entry is wrapped on its own, in order |
| Timeline.EntryCuesAt | utils/subtitle_generator.py:46-52 | cue j of an entry is numbered index + j and runs from clock + j shares to clock + (j+1) shares, showing line j |
| Timeline.EntryCuesEnds | utils/subtitle_generator.py:46-51 | an entry's cues start at the clock and end after all its shares |
| Timeline.AdvanceByDuration | utils/subtitle_generator.py:44-51 | the clock advances by exactly the entry's duration |
| Timeline.GenerateFailsOnEmpty | utils/subtitle_generator.py:43-44 | the loop fails, by division by zero, exactly when some entry wraps to no line |
| Timeline.GenerateNumbering | utils/subtitle_generator.py:34-52 | one cue per wrapped line, numbered consecutively from the first index |
| Timeline.EntryCuesContiguous | utils/subtitle_generator.py:46-51 | inside an entry each cue ends where the next starts |
| Timeline.GenerateSpan | utils/subtitle_generator.py:33-51 | the cues start at the clock and end at the clock plus the sum of the durations |
| Timeline.GenerateContiguous | utils/subtitle_generator.py:46-51 | across all entries each cue ends exactly where the next one starts |
| Timeline.GenerateEntry | utils/subtitle_generator.py:36-52 | entry k's cues follow the lines of earlier entries, numbered on, from the clock plus the sum of earlier durations |
| Timeline.GenerateNonNegative | utils/subtitle_generator.py:47-48 | no cue starts or ends before the clock |
| Timeline.GenerateTexts | utils/subtitle_generator.py:46-50 | the cues show the wrapped lines in order |
| Timeline.Generate | utils/subtitle_generator.py:36-52 | the entry loop from a cue number and a clock; `Timeline.GenerateFailsOnEmpty`, `Timeline.GenerateNumbering`, `Timeline.GenerateSpan`, `Timeline.GenerateContiguous` and `Timeline.GenerateEntry` state it |
| Timeline.WrappedVisible | utils/subtitle_generator.py:43 | wrapping loses only whitespace |
| Timeline.GenerateSrtTimeline | utils/subtitle_generator.py:32-52 | fails exactly when some text is blank; otherwise cues are numbered from 1, contiguous, from 0 to the total duration, 1 to 80 characters each, and hold exactly the sidecar's non-space text |
| Timeline.GenerateSrt | utils/subtitle_generator.py:32-52 | the caption timeline of a sidecar; `Timeline.GenerateSrtTimeline` states it |
| SrtMerge.Blocks | utils/subtitle_generator.py:69 | a track has at least one block |
| SrtMerge.ParseBlock | utils/subtitle_generator.py:72-78 | a block of fewer than two lines is skipped, and only such a block; the block fails with the two-times error exactly when its second line does not split at ` --> ` into two parts, and with a time error only when a part does not parse; a caption has the two parsed times, both non-negative, and the lines from the third on |
| SrtMerge.ParseTrack | utils/subtitle_generator.py:68-69 | one result per block, in order, and every caption's times are not negative |
| SrtMerge.RenderAll | utils/subtitle_generator.py:80-81 | one rendered block per merged caption, in order |
| SrtMerge.ParseTracks | utils/subtitle_generator.py:65-69 | every caption file is read on its own, in order |
| SrtMerge.Place | utils/subtitle_generator.py:76-82 | one merged caption per caption of the track |
| SrtMerge.PlaceAt | utils/subtitle_generator.py:76-82 | caption i of a track keeps its text, is shifted by the offset and is numbered index + i |
| SrtMerge.MergeBlocksIsPlace | utils/subtitle_generator.py:71-82 | a track fails exactly when reading one of its blocks fails; otherwise its short blocks are skipped and its captions shifted and numbered on |
| SrtMerge.Captions | utils/subtitle_generator.py:71-78 | one track's captions; `SrtMerge.MergeBlocksIsPlace` relates them to the merged blocks |
| SrtMerge.MergeBlocks | utils/subtitle_generator.py:71-82 | the block loop of one track; `SrtMerge.MergeBlocksIsPlace` states it |
| SrtMerge.MergeFails | utils/subtitle_generator.py:65-82 | the merge fails exactly when some zipped track has a block that fails |
| SrtMerge.MergeZip | utils/subtitle_generator.py:65 | tracks or durations beyond the shorter list are ignored |
| SrtMerge.MergeNumbering | utils/subtitle_generator.py:62-82 | merged captions are numbered consecutively |
| SrtMerge.MergeNonNegative | utils/subtitle_generator.py:61-78 | a non-negative starting offset gives non-negative times |
| SrtMerge.MergeTrack | utils/subtitle_generator.py:61-84 | caption i of track k lands after the captions of earlier tracks, shifted by the sum of the earlier durations and numbered on |
| SrtMerge.MergeFrom | utils/subtitle_generator.py:65-84 | the loop over zipped tracks; `SrtMerge.MergeFails`, `SrtMerge.MergeZip`, `SrtMerge.MergeNumbering` and `SrtMerge.MergeTrack` state it |
| SrtMerge.MergeSrtFails | utils/subtitle_generator.py:60-87 | the merged file is written exactly when every caption file paired with an audio file reads without error |
| SrtMerge.MergeSrt | utils/subtitle_generator.py:60-87 | `merge_srt_files`; `SrtMerge.MergeSrtFails` states when it fails, `SrtMerge.MergeTrack` where each caption lands, and `SrtMerge.ReadRendered` that each written block reads back |
| SrtMerge.TimeLine | utils/subtitle_generator.py:80 | the time line of a block; `SrtMerge.TimeLineSplits` states that it splits back into the two timestamps |
| SrtMerge.TimeLineSplits | utils/subtitle_generator.py:74-80 | splitting a written time line at ` --> ` gives the two timestamps |
| SrtMerge.RenderedLines | utils/subtitle_generator.py:69-81 | the lines of a written block are its number, its time line and its text lines |
| SrtMerge.RenderNumbered | utils/subtitle_generator.py:80-81 | one output block; `SrtMerge.ReadRendered` states that it reads back as its caption |
| SrtMerge.ReadRendered | utils/subtitle_generator.py:71-81 | a written block reads back as the caption it was written from, when its times are whole milliseconds, no text line holds a line break, and the last text line does not end in whitespace |
| AudioMerge.IntroPaths | audio_merger.py:7-8 | the introduction is read exactly when a nonempty path is given |
| AudioMerge.WavFiles | audio_merger.py:9-12 | one file read per listed `.wav` name |
| AudioMerge.MergePaths | audio_merger.py:7-13 | the introduction first, then the folder's files |
| AudioMerge.MergeStartsWithIntro | audio_merger.py:5-14 | the merged audio is the introduction followed by the folder's merge when a path is given, and just the folder's merge otherwise |
| AudioMerge.MergeAudio | audio_merger.py:4-14 | `combined` after the loop; `AudioMerge.MergeStartsWithIntro`, `AudioMerge.MergeLength` and `AudioMerge.MergeIndependent` state it |
| AudioMerge.FlattenLength | audio_merger.py:14 | concatenation adds lengths |
| AudioMerge.MergeLength | audio_merger.py:11-14 | the merged length is the sum of the lengths of all files read |
| AudioMerge.MergeIndependent | audio_merger.py:9 | the order in which the folder lists its files does not matter |
| AudioMerge.MergeIgnores | audio_merger.py:9 | a file without the `.wav` suffix is not read |
| AudioMerge.IntroReadTwice | audio_merger.py:7-14 | an introduction that also lies in the folder is read first and again among the files |
| AudioMerge.WavFileAt | audio_merger.py:9-12 | every `.wav` name of the folder is read from the folder |
| AudioMerge.ChunkFiles | utils/audio_converter.py:106 | the chunk files of n chunks are `<ChunkId(i)>.wav` in chunk order |
| AudioMerge.ChunkFilesSorted | audio_merger.py:9 | below 10^6 chunks, the chunk files are already in sorted order |
| AudioMerge.ChunkFilesWav | audio_merger.py:9 | every chunk file has the `.wav` suffix |
| AudioMerge.ChunksMergeInOrder | audio_merger.py:9-14 | chunk files listed in any order are merged in chunk order |
| Video.DropIndexPrefix | utils/video_generator.py:280 | the result is the name, or what follows its first `digits_` |
| Video.DropIndexPrefixOf | utils/video_generator.py:280 | `digits_rest` becomes `rest` |
| Video.DropIndexPrefixNone | utils/video_generator.py:280 | a name not starting with `digits_` is unchanged |
| Video.Unpadded | utils/video_generator.py:282 | only leading zeros go, at least one digit stays, and no zero leads a longer result |
| Video.UnpaddedValue | utils/video_generator.py:282 | the unpadded number is `str` of its value |
| Video.UnpaddedSameValue | utils/video_generator.py:282 | unpadding keeps the value |
| Video.Unpad | utils/video_generator.py:282 | the zero rule never lengthens the title |
| Video.UnpadMatch | utils/video_generator.py:282 | at a word start, a padded number loses its leading zeros and the scan goes on inside the word |
| Video.UnpadCopy | utils/video_generator.py:282 | any other character is copied |
| Video.UnpadNoZero | utils/video_generator.py:282 | a title without a zero is unchanged |
| Video.UnpadNoUnderscore | utils/video_generator.py:281-282 | the zero rule adds no underscore |
| Video.FormatChapterTitle | utils/video_generator.py:279-283 | the chapter title has no underscore and is no longer than the name |
| Video.UnpadInWord | utils/video_generator.py:282 | digits inside a word are kept |
| Video.UnpadNumber | utils/video_generator.py:282 | a standalone number becomes `str` of its value, e.g. 007 becomes 7 and 000 becomes 0 |
| Video.UnpadPaddedNumber | utils/video_generator.py:282 | a standalone number with a leading zero loses its padding |
| Video.UnpadPlainNumber | utils/video_generator.py:282 | a standalone number without padding is unchanged |
| Video.UnpadGluedNumber | utils/video_generator.py:282 | digits glued to a letter are not a standalone number and are kept |
| Video.UnpadAfterBreak | utils/video_generator.py:282 | a non-word character is copied and starts a new word |
| Video.SavedRootName | utils/video_generator.py:307-308 | `splitext` of a saved chapter file gives its name without `.txt` |
| Video.SavedRoot | utils/ebook_parser.py:250-252 | the saved file name without `.txt`; `Video.SavedRootName` states it is what `splitext` gives |
| Video.SavedChapterTitle | utils/video_generator.py:308 | the title shown for the k-th saved file is the sanitized title with `_` as spaces and numbers unpadded |
| Video.SavedTitleRoundTrip | utils/video_generator.py:308 | a clean title without `_` or `0` comes back unchanged from its saved file name |
| Video.SanitizeClean | utils/ebook_parser.py:9 | for a clean trimmed title, sanitizing only turns spaces into `_` |
| Video.SpacesBack | utils/video_generator.py:281 | turning spaces into `_` and back gives back a text without `_` |
| Video.ChapterContent | utils/video_generator.py:301-305 | no content exactly when the separator is missing; otherwise the content is everything after the first separator |
| Video.ContentOfSaved | utils/video_generator.py:305 | reading a file saved by the current copy gives back the chapter's text, when the title holds no separator |
| Video.OneLineTitleSeparable | utils/video_generator.py:305 | a one-line title never holds the separator |
| Video.LegacySavedSkipped | utils/video_generator.py:301-303 | a file saved by the legacy copy, whose text lacks the separator, is skipped |
| Video.JobsFrom | utils/video_generator.py:295-309 | at most one video per chapter file |
| Video.Contents | utils/video_generator.py:296-305 | every chapter file is read from the input folder and split |
| Video.JobsAllRead | utils/video_generator.py:295-309 | with every file separable, one video per file, in order |
| Video.JobsNoneRead | utils/video_generator.py:301-303 | with no file separable, no video |
| Video.JobsIndependent | utils/video_generator.py:293 | the chapter videos do not depend on the listing order |
| Video.ChapterJobs | utils/video_generator.py:293-309 | the videos of a folder; `Video.JobsAllRead`, `Video.JobsNoneRead` and `Video.JobsIndependent` state them |
| Video.SavedChapterJob | utils/video_generator.py:305-309 | a saved chapter yields its text, its display title and its audio path `<saved name>.wav` |
| Video.JobFor | utils/video_generator.py:305-309 | the video for one chapter file; `Video.SavedChapterJob` states it for a saved chapter |
| Video.WrapText | utils/video_generator.py:55-69 | the loop computes the greedy packing: no empty line, each line fits or is a single word, and the words are kept in order |
| Video.SubSize | utils/video_generator.py:76-77 | `int(mid * 0.8)` is the largest r with 5r ≤ 4·mid |
| Video.TotalHeight | utils/video_generator.py:92 | the total height is the sum of line heights plus 10 for each gap between lines |
| Video.TotalHeightAppend | utils/video_generator.py:92 | the heights of two blocks of lines add, with one gap between them |
| Video.LineHeights | utils/video_generator.py:88-90 | one height per line, as the font measures it |
| Video.CardHeights | utils/video_generator.py:79-91 | the line heights of the three wrapped texts; `Video.LineHeights` states them for one text |
| Video.FitsAt | utils/video_generator.py:79-93 | the fit test at a size; `Video.CardFontSize` and `Video.EmptyCardFits` state what it decides |
| Video.LargestFit | utils/video_generator.py:71-100 | a size found lies in [10, 120] and fits; when fitting shrinks with size, nothing is found exactly when 10 does not fit, and no larger size fits |
| Video.CardFontSize | utils/video_generator.py:71-100 | the chosen size lies in [10, 120] and fits the title card; when fitting shrinks with size, nothing is found exactly when size 10 does not fit, and no larger size up to 120 fits |
| Video.EmptyCardFits | utils/video_generator.py:92-93 | a card with no words fits at any size |

## Left out

- Speech synthesis (`KPipeline`, utils/audio_converter.py:15-23) is the injected `synthesize` function. Audio durations (`get_audio_duration`, utils/subtitle_generator.py:21-25) are inputs.
- File, JSON and folder effects are not modelled: `open`/`write`, `json.dump`, `makedirs`, the removal of chunk files (utils/audio_converter.py:135-138), and the export of the merged audio (audio_merger.py:16). A folder listing is a sequence of distinct names in unspecified order.
- `merge_audio_files` is imported by utils/audio_converter.py from utils/audio_merger.py, which is not part of this model. Only the top-level audio_merger.py is modelled.
- The calls in utils/audio_converter.py:124-134 that merge a chapter's audio and write its captions are not composed into one function. Their parts are `AudioMerge.MergeAudio` (with no introduction) and `Timeline.GenerateSrt` over `Narration.ChapterSidecar`.
- HTML and EPUB traversal is not modelled: BeautifulSoup, ebooklib, `extract_chapter_text` and `soup.get_text()`. Reading a chapter's text is the injected `read`. The fallback scan receives the headings and element texts it found.
- The checkbox prompt of `choose_and_save_chapters` is not modelled. The selected indices are an input.
- The EPUB and cover downloads are not modelled: `requests`, the progress bar, and the cover image at utils/downloader.py:78-100. The page fetch is a `Page` with its status code, table rows and link targets. The `book_id` is computed but unused by the source.
- Gemini calls (utils/ai_workflows.py), video compositing and image drawing in utils/video_generator.py, and the CLI menus (main.py, menu.py) are out of scope.
- Regular expressions are hand-written predicates over ASCII. `\s` is the ASCII whitespace Python's `str.isspace` accepts, `\w` is ASCII letters, digits and `_`, and case folding is ASCII only. Unicode digits and letters are not modelled.
- `random.choice([2, 3])` is the injected chooser `choose`, indexed by the number of draws made so far.
- Timestamp.Millis: models `timedelta` and float truncation on exact reals, not binary floating point. A time whose float product lands just below a whole millisecond may differ by one millisecond.
- Timestamp.ParseSrtTime: accepts only nonempty ASCII digit fields. Python's `int()` also accepts a sign, surrounding whitespace and `_` separators, which are not modelled.
- SrtMerge.ParseBlock: inherits the digit-only reading of `int()` above. The division `int(ms) / 1000` is exact. `SrtMerge.ReadRendered` reads back only blocks whose times are whole milliseconds, whose text lines have no line break, and whose last text line does not end in whitespace, since `strip()` and `split("\n")` would change any other.
- Wrap.BreakIntoLinesSpec: `textwrap.wrap` is modelled as a greedy word wrap. Words longer than the width are cut into width-sized pieces on their own lines. Hyphen breaking and textwrap's filling of a long word's head onto the current line are not modelled. The model joins a line's words with one space, while textwrap keeps a run of spaces inside a line: `"a  b"` stays as it is. textwrap splits on `string.whitespace`, which excludes `\x1c`-`\x1f`, while the model's `IsSpace` includes them.
- Video.SubSize: `int(mid * 0.8)` is taken as the exact floor of 4·mid/5. The double nearest 0.8 lies just above 4/5, so the float product never falls below an integer it should reach.
- Video.LargestFit: the "largest fitting size" promise holds only for a fit test that is monotone in the size, as for real fonts. For any other test, only "the result fits and lies in [10, 120]" is stated.
- Video.CardFontSize: the same restriction as `Video.LargestFit`. Glyph measures (`textlength`, `getbbox`) are the abstract `Font`.
- Downloader.Record: header and value cells arrive already stripped, as `get_text(strip=True)` returns them.
