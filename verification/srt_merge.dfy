/** `merge_srt_files`: caption tracks read back block by block, shifted by
    the total duration of the audio files before them, and renumbered into
    one track. */
module SrtMerge {
  import opened Wrappers
  import opened Text
  import opened Seqs
  import opened Decimal
  import opened Timestamp
  import opened Timeline

  datatype MergeError =
    | NotTwoTimes            // `start, end = line.split(" --> ")` does not unpack
    | BadTime(e: TimeError)  // `parse_srt_time` raised

  /** A caption read from a block: its times and its text lines. */
  datatype Caption = Caption(start: real, end: real, lines: seq<string>)

  /** A caption of the merged track, with its new number. */
  datatype Numbered = Numbered(index: nat, start: real, end: real, lines: seq<string>)

  /** `f.read().strip().split("\n\n")`. */
  function Blocks(text: string): (r: seq<string>)
    ensures |r| >= 1
  {
    Split(Strip(text), "\n\n")
  }

  /** `block.strip().split("\n")`. */
  function BlockLines(block: string): (r: seq<string>)
    ensures |r| >= 1
  {
    Split(Strip(block), "\n")
  }

  function Time(s: string): Result<real, MergeError> {
    match ParseSrtTime(s)
    case Success(t) => Success(t)
    case Failure(e) => Failure(BadTime(e))
  }

  /** One block: skipped (`None`) when it has fewer than two lines; otherwise
      the second line must split into two timestamps, and the lines after it
      are the text. */
  function ParseBlock(block: string): (r: Result<Option<Caption>, MergeError>)
    ensures r == Success(None) <==> |BlockLines(block)| < 2
    ensures r == Failure(NotTwoTimes) <==>
      |BlockLines(block)| >= 2 && |Split(BlockLines(block)[1], " --> ")| != 2
    ensures r.Failure? && r.error.BadTime? ==>
      |BlockLines(block)| >= 2 &&
      (var times := Split(BlockLines(block)[1], " --> ");
       |times| == 2 && (ParseSrtTime(times[0]).Failure? || ParseSrtTime(times[1]).Failure?))
    ensures r.Success? && r.value.Some? ==>
      |BlockLines(block)| >= 2 &&
      (var times := Split(BlockLines(block)[1], " --> ");
       |times| == 2 &&
       ParseSrtTime(times[0]) == Success(r.value.value.start) &&
       ParseSrtTime(times[1]) == Success(r.value.value.end) &&
       r.value.value.lines == BlockLines(block)[2..])
    ensures r.Success? && r.value.Some? ==> r.value.value.start >= 0.0 && r.value.value.end >= 0.0
  {
    var lines := BlockLines(block);
    if |lines| < 2 then Success(None)
    else
      var times := Split(lines[1], " --> ");
      if |times| != 2 then Failure(NotTwoTimes)
      else
        var start :- Time(times[0]);
        var end :- Time(times[1]);
        Success(Some(Caption(start, end, lines[2..])))
  }

  /** What reading each block of a track gives, in block order. */
  type Parsed = Result<Option<Caption>, MergeError>

  /** Every block of a track read on its own; reading is pure, so reading
      them in the loop or beforehand is the same. */
  function ParseTrack(track: string): (r: seq<Parsed>)
    ensures TimesNonNegative(r)
    ensures |r| == |Blocks(track)|
    ensures forall i :: 0 <= i < |r| ==> r[i] == ParseBlock(Blocks(track)[i])
  {
    var blocks := Blocks(track);
    seq(|blocks|, i requires 0 <= i < |blocks| => ParseBlock(blocks[i]))
  }

  predicate TimesNonNegative(blocks: seq<Parsed>) {
    forall i :: 0 <= i < |blocks| && blocks[i].Success? && blocks[i].value.Some? ==>
      blocks[i].value.value.start >= 0.0 && blocks[i].value.value.end >= 0.0
  }

  /** The inner loop over one track's blocks: each caption is shifted by the
      offset and numbered on from `index`. */
  function MergeBlocks(blocks: seq<Parsed>, index: nat, offset: real): (r: Result<seq<Numbered>, MergeError>)
    decreases |blocks|
  {
    if |blocks| == 0 then Success([])
    else
      var c :- blocks[0];
      match c
      case None => MergeBlocks(blocks[1..], index, offset)
      case Some(cap) =>
        var rest :- MergeBlocks(blocks[1..], index + 1, offset);
        Success([Numbered(index, cap.start + offset, cap.end + offset, cap.lines)] + rest)
  }

  /** The outer loop over `zip(srt_paths, audio_paths)`: `tracks[k]` are the
      read blocks of the `k`-th caption file and `durations[k]` the length of
      the `k`-th audio file. */
  function MergeFrom(tracks: seq<seq<Parsed>>, durations: seq<Duration>, index: nat, offset: real): (r: Result<seq<Numbered>, MergeError>)
    decreases |tracks|
  {
    if |tracks| == 0 || |durations| == 0 then Success([])
    else
      var here :- MergeBlocks(tracks[0], index, offset);
      var rest :- MergeFrom(tracks[1..], durations[1..], index + |here|, offset + durations[0]);
      Success(here + rest)
  }

  /** `f"{index}\n{start} --> {end}\n" + "\n".join(lines[2:]) + "\n"`. */
  function RenderNumbered(n: Numbered): string
    requires n.start >= 0.0 && n.end >= 0.0
  {
    NatToString(n.index) + "\n" + TimeLine(n.start, n.end) + "\n" + Join(n.lines, "\n") + "\n"
  }

  /** `f"{format_timestamp(start)} --> {format_timestamp(end)}"`. */
  function TimeLine(start: real, end: real): string
    requires start >= 0.0 && end >= 0.0
  {
    FormatTimestamp(start) + " --> " + FormatTimestamp(end)
  }

  // ---------------------------------------------------------------------
  // reading a written block back

  /** A caption the writer can print so that the reader gets it back: times
      in whole milliseconds, text lines without a line feed, and a last line
      that `strip()` leaves alone. */
  predicate Readable(n: Numbered) {
    n.start >= 0.0 && n.end >= 0.0 &&
    Millis(n.start) as real == n.start * 1000.0 && Millis(n.end) as real == n.end * 1000.0 &&
    (forall i :: 0 <= i < |n.lines| ==> '\n' !in n.lines[i]) &&
    (n.lines == [] || (n.lines[|n.lines| - 1] != [] && !IsSpace(n.lines[|n.lines| - 1][|n.lines[|n.lines| - 1]| - 1])))
  }

  /** Reading back a block the merge wrote gives the caption it printed:
      the block is kept, its times parse to the printed ones and its text
      lines come back unchanged. */
  lemma ReadRendered(n: Numbered)
    requires Readable(n)
    ensures ParseBlock(RenderNumbered(n)) == Success(Some(Caption(n.start, n.end, n.lines)))
  {
    RenderedLines(n);
    TimeLineSplits(n.start, n.end);
    ParseFormat(n.start);
    ParseFormat(n.end);
    ParseBlockOf(RenderNumbered(n), NatToString(n.index), TimeLine(n.start, n.end),
                 FormatTimestamp(n.start), FormatTimestamp(n.end), n.lines, n.start, n.end);
  }

  /** The lines of a printed block are its number, its time line and its
      text lines. */
  lemma RenderedLines(n: Numbered)
    requires Readable(n)
    ensures BlockLines(RenderNumbered(n)) == [NatToString(n.index), TimeLine(n.start, n.end)] + n.lines
  {
    var a, b := FormatTimestamp(n.start), FormatTimestamp(n.end);
    FormatChars(n.start);
    FormatChars(n.end);
    StampLine(a, b);
    RenderedIs(n);
    ReadLines(NatToString(n.index), TimeLine(n.start, n.end), n.lines);
  }

  /** The time line splits back into the two printed timestamps. */
  lemma TimeLineSplits(start: real, end: real)
    requires start >= 0.0 && end >= 0.0
    ensures Split(TimeLine(start, end), " --> ") == [FormatTimestamp(start), FormatTimestamp(end)]
  {
    FormatChars(start);
    FormatChars(end);
    TimesLine(FormatTimestamp(start), FormatTimestamp(end));
  }

  /** A block whose lines are a number, a time line of two readable
      timestamps and some text reads as that caption. */
  lemma ParseBlockOf(block: string, idx: string, tsl: string, a: string, b: string,
                     lines: seq<string>, start: real, end: real)
    requires BlockLines(block) == [idx, tsl] + lines
    requires Split(tsl, " --> ") == [a, b]
    requires ParseSrtTime(a) == Success(start) && ParseSrtTime(b) == Success(end)
    ensures ParseBlock(block) == Success(Some(Caption(start, end, lines)))
  {
    assert BlockLines(block)[1] == tsl;
    assert BlockLines(block)[2..] == lines;
  }

  lemma RenderedIs(n: Numbered)
    requires n.start >= 0.0 && n.end >= 0.0
    ensures RenderNumbered(n) == NatToString(n.index) + "\n" + TimeLine(n.start, n.end) + "\n" + Join(n.lines, "\n") + "\n"
  {
  }

  /** The time line holds no line feed and ends in a digit. */
  lemma StampLine(a: string, b: string)
    requires forall i :: 0 <= i < |a| ==> StampChar(a[i])
    requires b != [] && forall i :: 0 <= i < |b| ==> StampChar(b[i])
    ensures a + " --> " + b != [] && '\n' !in a + " --> " + b && !IsSpace((a + " --> " + b)[|a + " --> " + b| - 1])
  {
    var tsl := a + (" --> " + b);
    assert forall k :: 0 <= k < |tsl| ==> tsl[k] != '\n';
    assert tsl[|tsl| - 1] == b[|b| - 1];
    assert a + " --> " + b == tsl;
  }

  /** The lines of a printed block: the number, the time line and the text
      lines, when none holds a line feed and the last one is trimmed at its
      end. */
  lemma ReadLines(idx: string, tsl: string, lines: seq<string>)
    requires idx != [] && AllDigits(idx)
    requires tsl != [] && '\n' !in tsl && !IsSpace(tsl[|tsl| - 1])
    requires forall i :: 0 <= i < |lines| ==> '\n' !in lines[i]
    requires lines == [] || (lines[|lines| - 1] != [] && !IsSpace(lines[|lines| - 1][|lines[|lines| - 1]| - 1]))
    ensures BlockLines(idx + "\n" + tsl + "\n" + Join(lines, "\n") + "\n") == [idx, tsl] + lines
  {
    var parts := [idx, tsl] + lines;
    BlockText(idx, tsl, lines);
    forall i | 0 <= i < |parts|
      ensures Separable(parts[i], "\n")
    {
      if i == 0 {
        assert forall k :: 0 <= k < |idx| ==> idx[k] != '\n';
      } else if i >= 2 {
        assert parts[i] == lines[i - 2];
      }
      SeparableSingle(parts[i], '\n');
    }
    SplitJoin(parts, "\n");
  }

  /** The time line `a --> b` of two printed timestamps splits back into
      them. */
  lemma TimesLine(a: string, b: string)
    requires forall i :: 0 <= i < |a| ==> StampChar(a[i])
    requires forall i :: 0 <= i < |b| ==> StampChar(b[i])
    ensures Split(a + " --> " + b, " --> ") == [a, b]
  {
    SeparableFirst(a, " --> ");
    SeparableFirst(b, " --> ");
    JoinTwo([a, b], " --> ");
    SplitJoin([a, b], " --> ");
  }

  /** Text without the first character of the separator cannot hold it. */
  lemma SeparableFirst(p: string, sep: string)
    requires |sep| > 0
    requires forall i :: 0 <= i < |p| ==> p[i] != sep[0]
    ensures Separable(p, sep)
  {
    forall k: nat | k < |p|
      ensures !OccursAt(p + sep, sep, k)
    {
      assert (p + sep)[k] == p[k];
    }
  }

  /** The printed block is the lines it consists of, joined by line feeds,
      followed by line feeds only, which `strip()` removes. */
  lemma BlockText(idx: string, tsl: string, lines: seq<string>)
    requires idx != [] && AllDigits(idx)
    requires tsl != [] && !IsSpace(tsl[|tsl| - 1])
    requires lines == [] || (lines[|lines| - 1] != [] && !IsSpace(lines[|lines| - 1][|lines[|lines| - 1]| - 1]))
    ensures Strip(idx + "\n" + tsl + "\n" + Join(lines, "\n") + "\n") == Join([idx, tsl] + lines, "\n")
  {
    var parts := [idx, tsl] + lines;
    var j := Join(parts, "\n");
    var body := Join(lines, "\n");
    var block := idx + "\n" + tsl + "\n" + body + "\n";
    assert parts[1..] == [tsl] + lines;
    if lines == [] {
      JoinTwo(parts, "\n");
      assert block == j + "\n\n";
      StripSuffix(j, "\n\n");
    } else {
      assert Join(parts[1..], "\n") == tsl + "\n" + body;
      assert j == idx + "\n" + (tsl + "\n" + body);
      assert block == j + "\n";
      JoinLast(lines, "\n");
      assert j[|j| - 1] == body[|body| - 1];
      StripSuffix(j, "\n");
    }
  }

  /** `strip()` of trimmed text followed by whitespace is the text. */
  lemma StripSuffix(j: string, suffix: string)
    requires j != [] && !IsSpace(j[0]) && !IsSpace(j[|j| - 1])
    requires AllSpace(suffix)
    ensures Strip(j + suffix) == j
  {
    var s := j + suffix;
    LeadingCountIs(s, IsSpace, 0);
    assert s[0..] == s;
    TrailingStartIs(s, IsSpace, |j|);
    assert s[..|j|] == j;
  }

  /** A join ends with its last part, so it ends in that part's last
      character. */
  lemma {:induction false} JoinLast(parts: seq<string>, sep: string)
    requires |parts| > 0 && parts[|parts| - 1] != []
    ensures |Join(parts, sep)| > 0
    ensures Join(parts, sep)[|Join(parts, sep)| - 1] == parts[|parts| - 1][|parts[|parts| - 1]| - 1]
    decreases |parts|
  {
    if |parts| > 1 {
      JoinLast(parts[1..], sep);
    }
  }

  predicate NonNegative(out: seq<Numbered>) {
    forall i :: 0 <= i < |out| ==> out[i].start >= 0.0 && out[i].end >= 0.0
  }

  function RenderAll(out: seq<Numbered>): (r: seq<string>)
    requires NonNegative(out)
    ensures |r| == |out|
    ensures forall i :: 0 <= i < |out| ==> r[i] == RenderNumbered(out[i])
  {
    seq(|out|, i requires 0 <= i < |out| => RenderNumbered(out[i]))
  }

  function ParseTracks(files: seq<string>): (r: seq<seq<Parsed>>)
    ensures |r| == |files|
    ensures forall k :: 0 <= k < |files| ==> r[k] == ParseTrack(files[k])
  {
    seq(|files|, k requires 0 <= k < |files| => ParseTrack(files[k]))
  }

  /** The merged file: numbering from 1, offset from 0, blocks joined by a
      blank line. */
  function MergeSrt(files: seq<string>, durations: seq<Duration>): Result<string, MergeError> {
    var tracks := ParseTracks(files);
    var out :- MergeFrom(tracks, durations, 1, 0.0);
    MergeNonNegative(tracks, durations, 1, 0.0);
    Success(Join(RenderAll(out), "\n"))
  }

  // ---------------------------------------------------------------------
  // one track, independently of numbering and offset

  /** The captions of one track, in block order, skipping short blocks. */
  function Captions(blocks: seq<Parsed>): Result<seq<Caption>, MergeError>
    decreases |blocks|
  {
    if |blocks| == 0 then Success([])
    else
      var c :- blocks[0];
      var rest :- Captions(blocks[1..]);
      match c
      case None => Success(rest)
      case Some(cap) => Success([cap] + rest)
  }

  /** Captions shifted by an offset and numbered on from `index`. */
  function Place(caps: seq<Caption>, index: nat, offset: real): (r: seq<Numbered>)
    ensures |r| == |caps|
    decreases |caps|
  {
    if |caps| == 0 then []
    else [Numbered(index, caps[0].start + offset, caps[0].end + offset, caps[0].lines)] + Place(caps[1..], index + 1, offset)
  }

  /** A caption with a new number and both times shifted by an offset. */
  function Shifted(cap: Caption, index: nat, offset: real): Numbered {
    Numbered(index, cap.start + offset, cap.end + offset, cap.lines)
  }

  /** The `i`-th placed caption: number `index + i`, both times shifted by
      the offset, lines unchanged. */
  lemma {:induction false} PlaceAt(caps: seq<Caption>, index: nat, offset: real, i: nat)
    requires i < |caps|
    ensures Place(caps, index, offset)[i] == Shifted(caps[i], index + i, offset)
    decreases i
  {
    if i > 0 {
      PlaceAt(caps[1..], index + 1, offset, i - 1);
    }
  }

  lemma PlaceCons(cap: Caption, rest: seq<Caption>, index: nat, offset: real)
    ensures Place([cap] + rest, index, offset) ==
      [Numbered(index, cap.start + offset, cap.end + offset, cap.lines)] + Place(rest, index + 1, offset)
  {
    assert ([cap] + rest)[1..] == rest;
  }

  /** Merging a track's blocks is reading its captions, then shifting every
      one of them by the offset and numbering them consecutively; it fails
      exactly when reading fails. */
  lemma {:induction false} MergeBlocksIsPlace(blocks: seq<Parsed>, index: nat, offset: real)
    ensures MergeBlocks(blocks, index, offset).Success? <==> Captions(blocks).Success?
    ensures Captions(blocks).Success? ==>
      MergeBlocks(blocks, index, offset).value == Place(Captions(blocks).value, index, offset)
    decreases |blocks|
  {
    if |blocks| > 0 {
      var c := blocks[0];
      if c.Success? {
        match c.value
        case None =>
          MergeBlocksIsPlace(blocks[1..], index, offset);
        case Some(cap) =>
          MergeBlocksIsPlace(blocks[1..], index + 1, offset);
          if Captions(blocks[1..]).Success? {
            PlaceCons(cap, Captions(blocks[1..]).value, index, offset);
          }
      }
    }
  }

  // ---------------------------------------------------------------------
  // the whole merge

  function Zip(tracks: seq<seq<Parsed>>, durations: seq<Duration>): nat {
    if |tracks| <= |durations| then |tracks| else |durations|
  }

  function CaptionsOf(track: seq<Parsed>): Result<seq<Caption>, MergeError> {
    Captions(track)
  }

  /** The number of captions the tracks contribute. */
  function CaptionCount(tracks: seq<seq<Parsed>>): nat
    decreases |tracks|
  {
    if |tracks| == 0 then 0
    else (if CaptionsOf(tracks[0]).Success? then |CaptionsOf(tracks[0]).value| else 0) + CaptionCount(tracks[1..])
  }

  /** One step of the outer loop, on success: the first track's captions,
      placed at the current number and offset, come before the rest. */
  lemma MergeStep(tracks: seq<seq<Parsed>>, durations: seq<Duration>, index: nat, offset: real)
    requires |tracks| > 0 && |durations| > 0
    requires MergeFrom(tracks, durations, index, offset).Success?
    ensures CaptionsOf(tracks[0]).Success?
    ensures MergeFrom(tracks[1..], durations[1..], index + |CaptionsOf(tracks[0]).value|, offset + durations[0]).Success?
    ensures MergeFrom(tracks, durations, index, offset).value ==
      Place(CaptionsOf(tracks[0]).value, index, offset) +
      MergeFrom(tracks[1..], durations[1..], index + |CaptionsOf(tracks[0]).value|, offset + durations[0]).value
  {
    MergeBlocksIsPlace(tracks[0], index, offset);
  }

  /** The merge fails exactly when one of the paired tracks has a block whose
      timestamp line cannot be read. */
  lemma {:induction false} MergeFails(tracks: seq<seq<Parsed>>, durations: seq<Duration>, index: nat, offset: real)
    ensures MergeFrom(tracks, durations, index, offset).Failure? <==>
      exists k :: 0 <= k < Zip(tracks, durations) && CaptionsOf(tracks[k]).Failure?
    decreases |tracks|
  {
    if |tracks| > 0 && |durations| > 0 {
      MergeBlocksIsPlace(tracks[0], index, offset);
      if CaptionsOf(tracks[0]).Success? {
        var n := |CaptionsOf(tracks[0]).value|;
        MergeFails(tracks[1..], durations[1..], index + n, offset + durations[0]);
        if exists k :: 0 <= k < Zip(tracks, durations) && CaptionsOf(tracks[k]).Failure? {
          var k :| 0 <= k < Zip(tracks, durations) && CaptionsOf(tracks[k]).Failure?;
          assert k > 0 && tracks[1..][k - 1] == tracks[k];
        }
        if exists k :: 0 <= k < Zip(tracks[1..], durations[1..]) && CaptionsOf(tracks[1..][k]).Failure? {
          var k :| 0 <= k < Zip(tracks[1..], durations[1..]) && CaptionsOf(tracks[1..][k]).Failure?;
          assert tracks[k + 1] == tracks[1..][k];
        }
      }
    }
  }

  /** Excess tracks or audio files beyond the shorter list are ignored. */
  lemma {:induction false} MergeZip(tracks: seq<seq<Parsed>>, durations: seq<Duration>, index: nat, offset: real)
    ensures MergeFrom(tracks, durations, index, offset) ==
      MergeFrom(tracks[..Zip(tracks, durations)], durations[..Zip(tracks, durations)], index, offset)
    decreases |tracks|
  {
    var z := Zip(tracks, durations);
    if |tracks| > 0 && |durations| > 0 {
      var t, d := tracks[..z], durations[..z];
      assert t[0] == tracks[0] && d[0] == durations[0];
      assert t[1..] == tracks[1..][..Zip(tracks[1..], durations[1..])];
      assert d[1..] == durations[1..][..Zip(tracks[1..], durations[1..])];
      var here := MergeBlocks(tracks[0], index, offset);
      if here.Success? {
        MergeZip(tracks[1..], durations[1..], index + |here.value|, offset + durations[0]);
      }
    }
  }

  /** Merged captions are numbered consecutively from the first number. */
  lemma {:induction false} MergeNumbering(tracks: seq<seq<Parsed>>, durations: seq<Duration>, index: nat, offset: real)
    requires MergeFrom(tracks, durations, index, offset).Success?
    ensures forall i :: 0 <= i < |MergeFrom(tracks, durations, index, offset).value| ==>
      MergeFrom(tracks, durations, index, offset).value[i].index == index + i
    decreases |tracks|
  {
    if |tracks| > 0 && |durations| > 0 {
      MergeStep(tracks, durations, index, offset);
      var caps := CaptionsOf(tracks[0]).value;
      MergeNumbering(tracks[1..], durations[1..], index + |caps|, offset + durations[0]);
      forall i | 0 <= i < |caps|
        ensures Place(caps, index, offset)[i].index == index + i
      {
        PlaceAt(caps, index, offset, i);
      }
    }
  }

  /** With a non-negative offset, every merged time is non-negative. */
  lemma {:induction false} MergeNonNegative(tracks: seq<seq<Parsed>>, durations: seq<Duration>, index: nat, offset: real)
    requires offset >= 0.0
    requires forall k :: 0 <= k < |tracks| ==> TimesNonNegative(tracks[k])
    ensures MergeFrom(tracks, durations, index, offset).Success? ==> NonNegative(MergeFrom(tracks, durations, index, offset).value)
    decreases |tracks|
  {
    if |tracks| > 0 && |durations| > 0 && MergeFrom(tracks, durations, index, offset).Success? {
      MergeStep(tracks, durations, index, offset);
      var caps := CaptionsOf(tracks[0]).value;
      CaptionsNonNegative(tracks[0]);
      MergeNonNegative(tracks[1..], durations[1..], index + |caps|, offset + durations[0]);
      forall i | 0 <= i < |caps|
        ensures Place(caps, index, offset)[i].start >= 0.0 && Place(caps, index, offset)[i].end >= 0.0
      {
        PlaceAt(caps, index, offset, i);
      }
    }
  }

  /** Times read from blocks are never negative. */
  lemma {:induction false} CaptionsNonNegative(blocks: seq<Parsed>)
    requires TimesNonNegative(blocks)
    ensures Captions(blocks).Success? ==>
      forall i :: 0 <= i < |Captions(blocks).value| ==> Captions(blocks).value[i].start >= 0.0 && Captions(blocks).value[i].end >= 0.0
    decreases |blocks|
  {
    if |blocks| > 0 {
      assert TimesNonNegative(blocks[1..]) by {
        forall i | 0 <= i < |blocks| - 1
          ensures blocks[1..][i] == blocks[i + 1]
        {
        }
      }
      CaptionsNonNegative(blocks[1..]);
    }
  }

  /** The captions of track `k` appear in the merge right after those of the
      tracks before it, numbered on from there, with start and end both
      shifted by the durations of all earlier audio files and text lines
      unchanged. */
  lemma {:induction false} MergeTrack(tracks: seq<seq<Parsed>>, durations: seq<Duration>, index: nat, offset: real, k: nat, i: nat)
    requires k < Zip(tracks, durations)
    requires MergeFrom(tracks, durations, index, offset).Success?
    ensures CaptionsOf(tracks[k]).Success?
    ensures i < |CaptionsOf(tracks[k]).value| ==>
      CaptionCount(tracks[..k]) + i < |MergeFrom(tracks, durations, index, offset).value| &&
      MergeFrom(tracks, durations, index, offset).value[CaptionCount(tracks[..k]) + i] ==
        Shifted(CaptionsOf(tracks[k]).value[i], index + CaptionCount(tracks[..k]) + i, offset + Sum(durations[..k]))
    decreases k, 1
  {
    if k == 0 {
      MergeStep(tracks, durations, index, offset);
      assert tracks[..0] == [] && durations[..0] == [];
      if i < |CaptionsOf(tracks[0]).value| {
        MergeFirstTrack(tracks, durations, index, offset, i);
      }
    } else {
      MergeLaterTrack(tracks, durations, index, offset, k, i);
    }
  }

  /** The merged file is written exactly when every caption file paired
      with an audio file reads without error. */
  lemma MergeSrtFails(files: seq<string>, durations: seq<Duration>)
    ensures MergeSrt(files, durations).Failure? <==>
      exists k :: 0 <= k < Zip(ParseTracks(files), durations) && CaptionsOf(ParseTrack(files[k])).Failure?
  {
    MergeFails(ParseTracks(files), durations, 1, 0.0);
  }

  lemma MergeLaterTrack(tracks: seq<seq<Parsed>>, durations: seq<Duration>, index: nat, offset: real, k: nat, i: nat)
    requires 0 < k < Zip(tracks, durations)
    requires MergeFrom(tracks, durations, index, offset).Success?
    ensures CaptionsOf(tracks[k]).Success?
    ensures i < |CaptionsOf(tracks[k]).value| ==>
      CaptionCount(tracks[..k]) + i < |MergeFrom(tracks, durations, index, offset).value| &&
      MergeFrom(tracks, durations, index, offset).value[CaptionCount(tracks[..k]) + i] ==
        Shifted(CaptionsOf(tracks[k]).value[i], index + CaptionCount(tracks[..k]) + i, offset + Sum(durations[..k]))
    decreases k, 0
  {
    MergeStep(tracks, durations, index, offset);
    var n := |CaptionsOf(tracks[0]).value|;
    var here := Place(CaptionsOf(tracks[0]).value, index, offset);
    var rest := MergeFrom(tracks[1..], durations[1..], index + n, offset + durations[0]).value;
    MergeTrack(tracks[1..], durations[1..], index + n, offset + durations[0], k - 1, i);
    TrackAfterFirst(tracks, durations, index, offset, k, i, here, rest);
  }

  /** The inductive step of `MergeTrack`: track `k` of the whole list is
      track `k - 1` of the list after the first, shifted past the first
      track's captions and audio duration. */
  lemma TrackAfterFirst(tracks: seq<seq<Parsed>>, durations: seq<Duration>, index: nat, offset: real, k: nat, i: nat,
                        here: seq<Numbered>, rest: seq<Numbered>)
    requires 0 < k < |tracks| && k < |durations|
    requires CaptionsOf(tracks[0]).Success? && |here| == |CaptionsOf(tracks[0]).value|
    requires CaptionsOf(tracks[1..][k - 1]).Success?
    requires i < |CaptionsOf(tracks[1..][k - 1]).value| ==>
      CaptionCount(tracks[1..][..k - 1]) + i < |rest| &&
      rest[CaptionCount(tracks[1..][..k - 1]) + i] ==
        Shifted(CaptionsOf(tracks[1..][k - 1]).value[i], index + |here| + CaptionCount(tracks[1..][..k - 1]) + i,
                offset + durations[0] + Sum(durations[1..][..k - 1]))
    ensures CaptionsOf(tracks[k]).Success?
    ensures i < |CaptionsOf(tracks[k]).value| ==>
      CaptionCount(tracks[..k]) + i < |here + rest| &&
      (here + rest)[CaptionCount(tracks[..k]) + i] ==
        Shifted(CaptionsOf(tracks[k]).value[i], index + CaptionCount(tracks[..k]) + i, offset + Sum(durations[..k]))
  {
    assert tracks[1..][k - 1] == tracks[k];
    CaptionCountPrefix(tracks, k);
    SumPrefix(durations, k);
    if i < |CaptionsOf(tracks[k]).value| {
      var c := CaptionCount(tracks[1..][..k - 1]);
      assert (here + rest)[|here| + c + i] == rest[c + i];
    }
  }

  lemma MergeFirstTrack(tracks: seq<seq<Parsed>>, durations: seq<Duration>, index: nat, offset: real, i: nat)
    requires 0 < Zip(tracks, durations)
    requires MergeFrom(tracks, durations, index, offset).Success?
    requires CaptionsOf(tracks[0]).Success? && i < |CaptionsOf(tracks[0]).value|
    ensures i < |MergeFrom(tracks, durations, index, offset).value|
    ensures MergeFrom(tracks, durations, index, offset).value[i] == Shifted(CaptionsOf(tracks[0]).value[i], index + i, offset)
  {
    MergeStep(tracks, durations, index, offset);
    var caps := CaptionsOf(tracks[0]).value;
    var here := Place(caps, index, offset);
    var rest := MergeFrom(tracks[1..], durations[1..], index + |caps|, offset + durations[0]).value;
    PlaceAt(caps, index, offset, i);
    assert (here + rest)[i] == here[i];
  }

  lemma CaptionCountPrefix(tracks: seq<seq<Parsed>>, k: nat)
    requires 0 < k <= |tracks| && CaptionsOf(tracks[0]).Success?
    ensures CaptionCount(tracks[..k]) == |CaptionsOf(tracks[0]).value| + CaptionCount(tracks[1..][..k - 1])
  {
    assert tracks[..k][1..] == tracks[1..][..k - 1];
  }
}
