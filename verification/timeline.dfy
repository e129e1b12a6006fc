/** The caption timeline of one chapter: every sidecar entry's text is
    wrapped into display lines, each line gets an equal share of the entry's
    audio duration, and the cues follow each other on one running clock that
    starts at zero. */
module Timeline {
  import opened Wrappers
  import opened Text
  import opened Seqs
  import opened Decimal
  import opened Wrap
  import opened Timestamp

  /** A duration in seconds, as read from an audio file. */
  type Duration = r: real | r >= 0.0

  /** One sidecar record: the chunk's audio file name and its text. */
  datatype Entry = Entry(audio: string, text: string)

  /** One caption: its number, start and end in seconds, and its line. */
  datatype Cue = Cue(index: nat, start: real, end: real, text: string)

  /** `duration / len(lines)` with no lines. */
  datatype SrtError = ZeroDivision

  /** The display lines of an entry, wrapped at the default 80 columns. */
  function LinesOf(e: Entry): seq<string> {
    BreakIntoLines(e.text, MaxChars)
  }

  /** The inner loop over one entry's lines: each cue runs from the clock to
      the clock plus the share, and the clock moves on by the share. */
  function EntryCues(lines: seq<string>, index: nat, clock: real, share: real): (r: seq<Cue>)
    ensures |r| == |lines|
    decreases |lines|
  {
    if |lines| == 0 then []
    else [Cue(index, clock, clock + share, lines[0])] + EntryCues(lines[1..], index + 1, clock + share, share)
  }

  /** `line_duration`: an equal share of the entry's duration per line. */
  function Share(lines: seq<string>, d: Duration): real
    requires |lines| > 0
  {
    d / |lines| as real
  }

  /** The time `j` lines take: the share added once per line, as the loop's
      `current_time += line_duration` does. */
  function Shares(j: nat, share: real): (t: real)
    ensures share >= 0.0 ==> 0.0 <= t
  {
    if j == 0 then 0.0 else Shares(j - 1, share) + share
  }

  /** Repeated addition of the share is multiplication by the count. */
  lemma {:induction false} SharesProduct(j: nat, share: real)
    ensures Shares(j, share) == j as real * share
  {
    if j > 0 {
      SharesProduct(j - 1, share);
      assert (j - 1) as real * share + share == j as real * share;
    }
  }

  /** The clock after an entry's lines: one share added per line. */
  function Advance(lines: seq<string>, d: Duration, clock: real): real
    requires |lines| > 0
  {
    clock + Shares(|lines|, Share(lines, d))
  }

  /** The outer loop of `generate_srt_from_subtitles_json`, from cue number
      `index` and clock `clock`: `wrapped[k]` are the display lines of the
      `k`-th entry and `durations[k]` the length of its audio file. */
  function Generate(wrapped: seq<seq<string>>, durations: seq<Duration>, index: nat, clock: real): Result<seq<Cue>, SrtError>
    requires |durations| == |wrapped|
    decreases |wrapped|
  {
    if |wrapped| == 0 then Success([])
    else
      var lines := wrapped[0];
      if |lines| == 0 then Failure(ZeroDivision)
      else
        var rest :- Generate(wrapped[1..], durations[1..], index + |lines|, Advance(lines, durations[0], clock));
        Success(EntryCues(lines, index, clock, Share(lines, durations[0])) + rest)
  }

  /** Every entry's text wrapped into display lines. */
  function Wrapped(entries: seq<Entry>): (r: seq<seq<string>>)
    ensures |r| == |entries|
    ensures forall k :: 0 <= k < |entries| ==> r[k] == LinesOf(entries[k])
  {
    seq(|entries|, k requires 0 <= k < |entries| => LinesOf(entries[k]))
  }

  /** The whole chapter: numbering from 1, clock from 0. */
  function GenerateSrt(entries: seq<Entry>, durations: seq<Duration>): Result<seq<Cue>, SrtError>
    requires |durations| == |entries|
  {
    Generate(Wrapped(entries), durations, 1, 0.0)
  }

  // ---------------------------------------------------------------------
  // one entry

  /** The `j`-th cue of an entry: number `index + j`, from `j` shares after
      the clock to `j + 1` shares after it, carrying line `j`. */
  lemma {:induction false} EntryCuesAt(lines: seq<string>, index: nat, clock: real, share: real, j: nat)
    requires j < |lines|
    ensures EntryCues(lines, index, clock, share)[j] ==
      Cue(index + j, clock + Shares(j, share), clock + Shares(j + 1, share), lines[j])
    decreases j
  {
    if j > 0 {
      EntryCuesAt(lines[1..], index + 1, clock + share, share, j - 1);
      assert Shares(j + 1, share) == Shares(j, share) + share;
      assert Shares(j, share) == Shares(j - 1, share) + share;
      assert EntryCues(lines, index, clock, share)[j] == EntryCues(lines[1..], index + 1, clock + share, share)[j - 1];
    }
  }

  /** An entry's cues run from the clock to `n` shares later. */
  lemma EntryCuesEnds(lines: seq<string>, index: nat, clock: real, share: real)
    requires |lines| > 0
    ensures EntryCues(lines, index, clock, share)[0].start == clock
    ensures EntryCues(lines, index, clock, share)[|lines| - 1].end == clock + Shares(|lines|, share)
  {
    EntryCuesAt(lines, index, clock, share, 0);
    EntryCuesAt(lines, index, clock, share, |lines| - 1);
  }

  /** All lines of an entry together last exactly the entry's duration: the
      clock advances by the duration. */
  lemma AdvanceByDuration(lines: seq<string>, d: Duration, clock: real)
    requires |lines| > 0
    ensures Advance(lines, d, clock) == clock + d
  {
    var n := |lines| as real;
    SharesProduct(|lines|, d / n);
    assert n * (d / n) == d;
  }

  // ---------------------------------------------------------------------
  // the whole timeline

  function LineCount(wrapped: seq<seq<string>>): (n: nat)
    decreases |wrapped|
  {
    if |wrapped| == 0 then 0 else |wrapped[0]| + LineCount(wrapped[1..])
  }

  predicate Contiguous(cues: seq<Cue>) {
    forall i :: 0 <= i < |cues| - 1 ==> cues[i].end == cues[i + 1].start
  }

  /** One step of the outer loop, on success: the entry has lines, and its
      cues come before those of the remaining wrapped. */
  lemma GenerateStep(wrapped: seq<seq<string>>, durations: seq<Duration>, index: nat, clock: real)
    requires |durations| == |wrapped| && |wrapped| > 0
    requires Generate(wrapped, durations, index, clock).Success?
    ensures |wrapped[0]| > 0
    ensures Generate(wrapped[1..], durations[1..], index + |wrapped[0]|, Advance(wrapped[0], durations[0], clock)).Success?
    ensures Generate(wrapped, durations, index, clock).value ==
      EntryCues(wrapped[0], index, clock, Share(wrapped[0], durations[0])) +
      Generate(wrapped[1..], durations[1..], index + |wrapped[0]|, Advance(wrapped[0], durations[0], clock)).value
  {
  }

  /** Generation fails exactly when some entry has no lines, and then no
      cue is produced at all. */
  lemma {:induction false} GenerateFailsOnEmpty(wrapped: seq<seq<string>>, durations: seq<Duration>, index: nat, clock: real)
    requires |durations| == |wrapped|
    ensures Generate(wrapped, durations, index, clock).Failure? <==>
      exists k :: 0 <= k < |wrapped| && wrapped[k] == []
    decreases |wrapped|
  {
    if |wrapped| > 0 {
      var lines := wrapped[0];
      if |lines| > 0 {
        GenerateFailsOnEmpty(wrapped[1..], durations[1..], index + |lines|, Advance(lines, durations[0], clock));
        if exists k :: 0 <= k < |wrapped| && wrapped[k] == [] {
          var k :| 0 <= k < |wrapped| && wrapped[k] == [];
          assert k > 0 && wrapped[1..][k - 1] == wrapped[k];
        }
        if exists k :: 0 <= k < |wrapped| - 1 && wrapped[1..][k] == [] {
          var k :| 0 <= k < |wrapped| - 1 && wrapped[1..][k] == [];
          assert wrapped[k + 1] == wrapped[1..][k];
        }
      }
    }
  }

  /** Cue numbers rise by one per line from the first number, and there is
      one cue per wrapped line. */
  lemma {:induction false} GenerateNumbering(wrapped: seq<seq<string>>, durations: seq<Duration>, index: nat, clock: real)
    requires |durations| == |wrapped|
    requires Generate(wrapped, durations, index, clock).Success?
    ensures |Generate(wrapped, durations, index, clock).value| == LineCount(wrapped)
    ensures forall i :: 0 <= i < |Generate(wrapped, durations, index, clock).value| ==>
      Generate(wrapped, durations, index, clock).value[i].index == index + i
    decreases |wrapped|
  {
    if |wrapped| > 0 {
      var lines := wrapped[0];
      var share := Share(wrapped[0], durations[0]);
      var clock' := Advance(wrapped[0], durations[0], clock);
      GenerateStep(wrapped, durations, index, clock);
      GenerateNumbering(wrapped[1..], durations[1..], index + |lines|, clock');
      var here := EntryCues(lines, index, clock, share);
      var rest := Generate(wrapped[1..], durations[1..], index + |lines|, clock').value;
      forall i | 0 <= i < |here|
        ensures here[i].index == index + i
      {
        EntryCuesAt(lines, index, clock, share, i);
      }
    }
  }

  /** An entry's cues are contiguous, from the clock to `n` shares later. */
  lemma EntryCuesContiguous(lines: seq<string>, index: nat, clock: real, share: real)
    requires |lines| > 0
    ensures Contiguous(EntryCues(lines, index, clock, share))
    ensures EntryCues(lines, index, clock, share)[0].start == clock
    ensures EntryCues(lines, index, clock, share)[|lines| - 1].end == clock + Shares(|lines|, share)
  {
    var cues := EntryCues(lines, index, clock, share);
    forall i | 0 <= i < |cues| - 1
      ensures cues[i].end == cues[i + 1].start
    {
      EntryCuesAt(lines, index, clock, share, i);
      EntryCuesAt(lines, index, clock, share, i + 1);
    }
    EntryCuesAt(lines, index, clock, share, 0);
    EntryCuesAt(lines, index, clock, share, |lines| - 1);
  }

  lemma ContiguousAppend(a: seq<Cue>, b: seq<Cue>)
    requires Contiguous(a) && Contiguous(b) && |a| > 0
    requires |b| > 0 ==> a[|a| - 1].end == b[0].start
    ensures Contiguous(a + b)
    ensures (a + b)[0] == a[0]
    ensures (a + b)[|a + b| - 1] == if |b| > 0 then b[|b| - 1] else a[|a| - 1]
  {
    var c := a + b;
    forall i | 0 <= i < |c| - 1
      ensures c[i].end == c[i + 1].start
    {
      if i + 1 < |a| {
      } else if i + 1 == |a| {
        assert c[i + 1] == b[0];
      } else {
        assert c[i] == b[i - |a|] && c[i + 1] == b[i - |a| + 1];
      }
    }
  }

  /** The cues start at the clock and the last ends at the clock plus the
      total audio duration. */
  lemma {:induction false} GenerateSpan(wrapped: seq<seq<string>>, durations: seq<Duration>, index: nat, clock: real)
    requires |durations| == |wrapped|
    requires Generate(wrapped, durations, index, clock).Success?
    ensures |wrapped| > 0 <==> |Generate(wrapped, durations, index, clock).value| > 0
    ensures |wrapped| > 0 ==> Generate(wrapped, durations, index, clock).value[0].start == clock
    ensures |wrapped| > 0 ==> Generate(wrapped, durations, index, clock).value[|Generate(wrapped, durations, index, clock).value| - 1].end == clock + Sum(durations)
    decreases |wrapped|
  {
    if |wrapped| > 0 {
      var lines := wrapped[0];
      var n := |lines|;
      var share := Share(wrapped[0], durations[0]);
      var clock' := Advance(wrapped[0], durations[0], clock);
      GenerateStep(wrapped, durations, index, clock);
      GenerateSpan(wrapped[1..], durations[1..], index + n, clock');
      var here := EntryCues(lines, index, clock, share);
      var rest := Generate(wrapped[1..], durations[1..], index + n, clock').value;
      EntryCuesEnds(lines, index, clock, share);
      AdvanceByDuration(wrapped[0], durations[0], clock);
      var all := here + rest;
      assert Generate(wrapped, durations, index, clock).value == all;
      assert all[0] == here[0];
      assert Sum(durations) == durations[0] + Sum(durations[1..]);
      if |rest| > 0 {
        assert all[|all| - 1] == rest[|rest| - 1];
      } else {
        assert |wrapped| == 1;
        assert all[|all| - 1] == here[n - 1];
      }
    }
  }

  /** Each cue ends exactly where the next one starts. */
  lemma {:induction false} GenerateContiguous(wrapped: seq<seq<string>>, durations: seq<Duration>, index: nat, clock: real)
    requires |durations| == |wrapped|
    requires Generate(wrapped, durations, index, clock).Success?
    ensures Contiguous(Generate(wrapped, durations, index, clock).value)
    decreases |wrapped|
  {
    if |wrapped| > 0 {
      var lines := wrapped[0];
      var n := |lines|;
      var share := Share(wrapped[0], durations[0]);
      var clock' := Advance(wrapped[0], durations[0], clock);
      GenerateStep(wrapped, durations, index, clock);
      GenerateContiguous(wrapped[1..], durations[1..], index + n, clock');
      GenerateSpan(wrapped[1..], durations[1..], index + n, clock');
      var rest := Generate(wrapped[1..], durations[1..], index + n, clock').value;
      EntryThenContiguous(lines, index, clock, share, rest);
    }
  }

  /** An entry's cues followed by contiguous cues that start where the
      entry ends are contiguous. */
  lemma EntryThenContiguous(lines: seq<string>, index: nat, clock: real, share: real, rest: seq<Cue>)
    requires |lines| > 0 && Contiguous(rest)
    requires |rest| > 0 ==> rest[0].start == clock + Shares(|lines|, share)
    ensures Contiguous(EntryCues(lines, index, clock, share) + rest)
  {
    EntryCuesContiguous(lines, index, clock, share);
    ContiguousAppend(EntryCues(lines, index, clock, share), rest);
  }

  /** The cues of entry `k` sit right after the lines of the wrapped before
      it: numbered on from `index` plus those lines, starting at the clock
      plus the durations before it, each lasting the entry's share. */
  lemma {:induction false} GenerateEntry(wrapped: seq<seq<string>>, durations: seq<Duration>, index: nat, clock: real, k: nat)
    requires |durations| == |wrapped| && k < |wrapped|
    requires Generate(wrapped, durations, index, clock).Success?
    ensures |wrapped[k]| > 0
    ensures LineCount(wrapped[..k]) + |wrapped[k]| <= |Generate(wrapped, durations, index, clock).value|
    ensures Generate(wrapped, durations, index, clock).value[LineCount(wrapped[..k])..LineCount(wrapped[..k]) + |wrapped[k]|] ==
      EntryCues(wrapped[k], index + LineCount(wrapped[..k]), clock + Sum(durations[..k]), Share(wrapped[k], durations[k]))
    decreases k, 1
  {
    if k == 0 {
      GenerateFirstEntry(wrapped, durations, index, clock);
    } else {
      GenerateLaterEntry(wrapped, durations, index, clock, k);
    }
  }

  lemma GenerateLaterEntry(wrapped: seq<seq<string>>, durations: seq<Duration>, index: nat, clock: real, k: nat)
    requires |durations| == |wrapped| && 0 < k < |wrapped|
    requires Generate(wrapped, durations, index, clock).Success?
    ensures |wrapped[k]| > 0
    ensures LineCount(wrapped[..k]) + |wrapped[k]| <= |Generate(wrapped, durations, index, clock).value|
    ensures Generate(wrapped, durations, index, clock).value[LineCount(wrapped[..k])..LineCount(wrapped[..k]) + |wrapped[k]|] ==
      EntryCues(wrapped[k], index + LineCount(wrapped[..k]), clock + Sum(durations[..k]), Share(wrapped[k], durations[k]))
    decreases k, 0
  {
    var n := |wrapped[0]|;
    var clock' := Advance(wrapped[0], durations[0], clock);
    GenerateStep(wrapped, durations, index, clock);
    AdvanceByDuration(wrapped[0], durations[0], clock);
    var here := EntryCues(wrapped[0], index, clock, Share(wrapped[0], durations[0]));
    var rest := Generate(wrapped[1..], durations[1..], index + n, clock').value;
    GenerateEntry(wrapped[1..], durations[1..], index + n, clock', k - 1);
    EntryAfterFirst(wrapped, durations, index, clock, k, here, rest);
  }

  /** The inductive step of `GenerateEntry`: entry `k` of the whole list is
      entry `k - 1` of the list after the first, shifted past the first
      entry's cues and duration. */
  lemma EntryAfterFirst(wrapped: seq<seq<string>>, durations: seq<Duration>, index: nat, clock: real, k: nat,
                        here: seq<Cue>, rest: seq<Cue>)
    requires |durations| == |wrapped| && 0 < k < |wrapped| && |here| == |wrapped[0]|
    requires |wrapped[1..][k - 1]| > 0
    requires LineCount(wrapped[1..][..k - 1]) + |wrapped[1..][k - 1]| <= |rest|
    requires rest[LineCount(wrapped[1..][..k - 1])..LineCount(wrapped[1..][..k - 1]) + |wrapped[1..][k - 1]|] ==
      EntryCues(wrapped[1..][k - 1], index + |here| + LineCount(wrapped[1..][..k - 1]),
                clock + durations[0] + Sum(durations[1..][..k - 1]), Share(wrapped[1..][k - 1], durations[1..][k - 1]))
    ensures |wrapped[k]| > 0
    ensures LineCount(wrapped[..k]) + |wrapped[k]| <= |here + rest|
    ensures (here + rest)[LineCount(wrapped[..k])..LineCount(wrapped[..k]) + |wrapped[k]|] ==
      EntryCues(wrapped[k], index + LineCount(wrapped[..k]), clock + Sum(durations[..k]), Share(wrapped[k], durations[k]))
  {
    var c := LineCount(wrapped[1..][..k - 1]);
    var m := |wrapped[k]|;
    assert wrapped[1..][k - 1] == wrapped[k];
    assert durations[1..][k - 1] == durations[k];
    LineCountPrefix(wrapped, k);
    SumPrefix(durations, k);
    SliceAfter(here, rest, c, m, rest[c..c + m]);
  }

  lemma GenerateFirstEntry(wrapped: seq<seq<string>>, durations: seq<Duration>, index: nat, clock: real)
    requires |durations| == |wrapped| && 0 < |wrapped|
    requires Generate(wrapped, durations, index, clock).Success?
    ensures |wrapped[0]| > 0
    ensures LineCount(wrapped[..0]) + |wrapped[0]| <= |Generate(wrapped, durations, index, clock).value|
    ensures Generate(wrapped, durations, index, clock).value[LineCount(wrapped[..0])..LineCount(wrapped[..0]) + |wrapped[0]|] ==
      EntryCues(wrapped[0], index + LineCount(wrapped[..0]), clock + Sum(durations[..0]), Share(wrapped[0], durations[0]))
  {
    GenerateStep(wrapped, durations, index, clock);
    assert wrapped[..0] == [] && durations[..0] == [];
    var here := EntryCues(wrapped[0], index, clock, Share(wrapped[0], durations[0]));
    var rest := Generate(wrapped[1..], durations[1..], index + |wrapped[0]|, Advance(wrapped[0], durations[0], clock)).value;
    assert (here + rest)[0..|wrapped[0]|] == here;
  }

  lemma LineCountPrefix(wrapped: seq<seq<string>>, k: nat)
    requires 0 < k <= |wrapped|
    ensures LineCount(wrapped[..k]) == |wrapped[0]| + LineCount(wrapped[1..][..k - 1])
  {
    assert wrapped[..k][1..] == wrapped[1..][..k - 1];
  }

  lemma SumPrefix(xs: seq<real>, k: nat)
    requires 0 < k <= |xs|
    ensures Sum(xs[..k]) == xs[0] + Sum(xs[1..][..k - 1])
  {
    assert xs[..k][1..] == xs[1..][..k - 1];
  }

  lemma SliceAfter<T>(a: seq<T>, b: seq<T>, c: nat, m: nat, x: seq<T>)
    requires c + m <= |b| && b[c..c + m] == x
    ensures |a| + c + m <= |a + b|
    ensures (a + b)[|a| + c..|a| + c + m] == x
  {
  }

  /** Every cue starts at or after `clock` and ends no earlier than it
      starts. */
  predicate CuesFrom(cues: seq<Cue>, clock: real) {
    forall i :: 0 <= i < |cues| ==> clock <= cues[i].start <= cues[i].end
  }

  /** Every cue lies at or after a non-negative clock and ends no earlier
      than it starts. */
  lemma {:induction false} GenerateNonNegative(wrapped: seq<seq<string>>, durations: seq<Duration>, index: nat, clock: real)
    requires |durations| == |wrapped| && clock >= 0.0
    requires Generate(wrapped, durations, index, clock).Success?
    ensures CuesFrom(Generate(wrapped, durations, index, clock).value, clock)
    decreases |wrapped|
  {
    if |wrapped| > 0 {
      var lines := wrapped[0];
      var share := Share(lines, durations[0]);
      var clock' := Advance(lines, durations[0], clock);
      GenerateStep(wrapped, durations, index, clock);
      AdvanceByDuration(lines, durations[0], clock);
      GenerateNonNegative(wrapped[1..], durations[1..], index + |lines|, clock');
      EntryCuesFrom(lines, index, clock, share);
      CuesFromAppend(EntryCues(lines, index, clock, share),
                     Generate(wrapped[1..], durations[1..], index + |lines|, clock').value, clock, clock');
    }
  }

  /** The cues of one entry step forward from the clock by a non-negative
      share. */
  lemma {:induction false} EntryCuesFrom(lines: seq<string>, index: nat, clock: real, share: real)
    requires share >= 0.0
    ensures CuesFrom(EntryCues(lines, index, clock, share), clock)
    decreases |lines|
  {
    if |lines| > 0 {
      EntryCuesFrom(lines[1..], index + 1, clock + share, share);
      CuesFromAppend([Cue(index, clock, clock + share, lines[0])],
                     EntryCues(lines[1..], index + 1, clock + share, share), clock, clock + share);
    }
  }

  lemma CuesFromAppend(a: seq<Cue>, b: seq<Cue>, clock: real, clock': real)
    requires CuesFrom(a, clock) && CuesFrom(b, clock') && clock <= clock'
    ensures CuesFrom(a + b, clock)
  {
    forall i | 0 <= i < |a + b|
      ensures clock <= (a + b)[i].start <= (a + b)[i].end
    {
      if i >= |a| {
        assert (a + b)[i] == b[i - |a|];
      }
    }
  }

  function Texts(cues: seq<Cue>): (r: seq<string>)
    ensures |r| == |cues|
    ensures forall i :: 0 <= i < |cues| ==> r[i] == cues[i].text
  {
    seq(|cues|, i requires 0 <= i < |cues| => cues[i].text)
  }

  function EntryTexts(entries: seq<Entry>): (r: seq<string>)
    ensures |r| == |entries|
    ensures forall i :: 0 <= i < |entries| ==> r[i] == entries[i].text
  {
    seq(|entries|, i requires 0 <= i < |entries| => entries[i].text)
  }

  /** The cues carry the wrapped lines, one each, in order. */
  lemma {:induction false} GenerateTexts(wrapped: seq<seq<string>>, durations: seq<Duration>, index: nat, clock: real)
    requires |durations| == |wrapped|
    requires Generate(wrapped, durations, index, clock).Success?
    ensures Texts(Generate(wrapped, durations, index, clock).value) == Flatten(wrapped)
    decreases |wrapped|
  {
    if |wrapped| > 0 {
      var lines := wrapped[0];
      var n := |lines|;
      var share := Share(lines, durations[0]);
      var clock' := Advance(lines, durations[0], clock);
      GenerateStep(wrapped, durations, index, clock);
      GenerateTexts(wrapped[1..], durations[1..], index + n, clock');
      var here := EntryCues(lines, index, clock, share);
      var rest := Generate(wrapped[1..], durations[1..], index + n, clock').value;
      EntryCuesTexts(lines, index, clock, share);
      TextsJoin(here, rest, lines, wrapped[1..]);
      assert wrapped == [lines] + wrapped[1..];
    }
  }

  lemma TextsJoin(here: seq<Cue>, rest: seq<Cue>, lines: seq<string>, tail: seq<seq<string>>)
    requires Texts(here) == lines && Texts(rest) == Flatten(tail)
    ensures Texts(here + rest) == Flatten([lines] + tail)
  {
    TextsAppend(here, rest);
    FlattenCons(lines, tail);
  }

  /** An entry's cues carry its lines, in order. */
  lemma {:induction false} EntryCuesTexts(lines: seq<string>, index: nat, clock: real, share: real)
    ensures Texts(EntryCues(lines, index, clock, share)) == lines
    decreases |lines|
  {
    if |lines| > 0 {
      var cues := EntryCues(lines, index, clock, share);
      var rest := EntryCues(lines[1..], index + 1, clock + share, share);
      EntryCuesTexts(lines[1..], index + 1, clock + share, share);
      assert cues == [Cue(index, clock, clock + share, lines[0])] + rest;
      assert Texts(cues) == [lines[0]] + Texts(rest);
      assert lines == [lines[0]] + lines[1..];
    }
  }

  lemma TextsAppend(a: seq<Cue>, b: seq<Cue>)
    ensures Texts(a + b) == Texts(a) + Texts(b)
  {
  }

  /** The wrapped lines of all entries show exactly the visible characters of
      the entries' texts, in order. */
  lemma {:induction false} WrappedVisible(entries: seq<Entry>)
    ensures Visible(Concat(Flatten(Wrapped(entries)))) == Visible(Concat(EntryTexts(entries)))
    decreases |entries|
  {
    if |entries| > 0 {
      var lines := LinesOf(entries[0]);
      WrappedCons(entries);
      EntryTextsCons(entries);
      WrappedVisible(entries[1..]);
      BreakIntoLinesSpec(entries[0].text, MaxChars);
      VisibleCons(lines, entries[0].text, Wrapped(entries[1..]), EntryTexts(entries[1..]));
    }
  }

  lemma WrappedCons(entries: seq<Entry>)
    requires |entries| > 0
    ensures Wrapped(entries) == [LinesOf(entries[0])] + Wrapped(entries[1..])
  {
  }

  lemma EntryTextsCons(entries: seq<Entry>)
    requires |entries| > 0
    ensures EntryTexts(entries) == [entries[0].text] + EntryTexts(entries[1..])
  {
  }

  /** One entry's lines in front of the others' keep the visible text in
      step with the entry's text in front of theirs. */
  lemma VisibleCons(lines: seq<string>, text: string, wrapped: seq<seq<string>>, texts: seq<string>)
    requires Visible(Concat(lines)) == Visible(text)
    requires Visible(Concat(Flatten(wrapped))) == Visible(Concat(texts))
    ensures Visible(Concat(Flatten([lines] + wrapped))) == Visible(Concat([text] + texts))
  {
    FlattenCons(lines, wrapped);
    ConcatAppend(lines, Flatten(wrapped));
    VisibleAppend(Concat(lines), Concat(Flatten(wrapped)));
    VisibleConcatCons(text, texts);
    VisibleAppend(text, Concat(texts));
  }

  /** The chapter's captions: numbered 1, 2, 3, ...; the first starts at zero,
      each ends where the next starts and the last ends after the total audio
      duration; each shows one non-empty line of at most 80 characters, and
      together they show exactly the visible characters of the entries. It
      fails, by division by zero, exactly when some entry's text is empty or
      blank. */
  lemma GenerateSrtTimeline(entries: seq<Entry>, durations: seq<Duration>)
    requires |durations| == |entries|
    ensures GenerateSrt(entries, durations).Failure? <==> exists k :: 0 <= k < |entries| && AllSpace(entries[k].text)
    ensures GenerateSrt(entries, durations).Success? ==>
      var cues := GenerateSrt(entries, durations).value;
      (forall i :: 0 <= i < |cues| ==> cues[i].index == i + 1) &&
      Contiguous(cues) &&
      (|cues| > 0 <==> |entries| > 0) &&
      (|cues| > 0 ==> cues[0].start == 0.0 && cues[|cues| - 1].end == Sum(durations)) &&
      (forall i :: 0 <= i < |cues| ==> 0 < |cues[i].text| <= MaxChars) &&
      Visible(Concat(Texts(cues))) == Visible(Concat(EntryTexts(entries)))
  {
    var w := Wrapped(entries);
    GenerateFailsOnEmpty(w, durations, 1, 0.0);
    forall k | 0 <= k < |entries|
      ensures w[k] == [] <==> AllSpace(entries[k].text)
    {
      BreakIntoLinesSpec(entries[k].text, MaxChars);
    }
    if GenerateSrt(entries, durations).Failure? {
      var k :| 0 <= k < |w| && w[k] == [];
      assert AllSpace(entries[k].text);
    } else {
      var cues := GenerateSrt(entries, durations).value;
      GenerateNumbering(w, durations, 1, 0.0);
      GenerateContiguous(w, durations, 1, 0.0);
      GenerateSpan(w, durations, 1, 0.0);
      GenerateTexts(w, durations, 1, 0.0);
      WrappedVisible(entries);
      forall i | 0 <= i < |cues|
        ensures 0 < |cues[i].text| <= MaxChars
      {
        FlattenIndex(w, i);
        var k :| 0 <= k < |w| && cues[i].text in w[k];
        BreakIntoLinesSpec(entries[k].text, MaxChars);
      }
    }
  }
}
