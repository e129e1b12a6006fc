/** The sentence streamer: a text file, read line by line, becomes chunks of
    two or three sentence fragments. The state is a `carry` (an unfinished
    tail of text) and a `pending` list of fragments; the random chunk size is
    an injected chooser indexed by the number of draws made so far. */
module SentenceStreamer {
  import opened Text
  import opened Seqs

  predicate IsTerminal(c: char) { c == '.' || c == '!' || c == '?' }

  predicate IsQuote(c: char) { c == '"' || c == '\'' }

  /** Position `k` is where the split pattern `(?<=[.!?])\s+` can start. */
  predicate IsBreak(s: string, k: nat) {
    0 < k < |s| && IsTerminal(s[k - 1]) && IsSpace(s[k])
  }

  predicate NoBreak(s: string) {
    forall k: nat | k < |s| :: !IsBreak(s, k)
  }

  function NextBreak(s: string, i: nat): (k: nat)
    requires i <= |s|
    ensures i <= k <= |s|
    ensures k < |s| ==> IsBreak(s, k)
    ensures forall j: nat :: i <= j < k ==> !IsBreak(s, j)
    decreases |s| - i
  {
    if i == |s| then |s| else if IsBreak(s, i) then i else NextBreak(s, i + 1)
  }

  /** The fragments `re.split` returns, and the whitespace runs it removed. */
  datatype SentenceSplit = SentenceSplit(fragments: seq<string>, gaps: seq<string>)

  /** `fragments[0] + gaps[0] + fragments[1] + ... + fragments[n]`. */
  function Weave(fragments: seq<string>, gaps: seq<string>): string
    requires |fragments| == |gaps| + 1
    decreases |gaps|
  {
    if |gaps| == 0 then fragments[0]
    else fragments[0] + gaps[0] + Weave(fragments[1..], gaps[1..])
  }

  /** `re.split(r'(?<=[.!?])\s+', s)`: cut at every maximal whitespace run that
      follows a terminal punctuation mark. */
  function SplitSentences(s: string): (r: SentenceSplit)
    ensures |r.fragments| == |r.gaps| + 1
    decreases |s|
  {
    var k := NextBreak(s, 0);
    if k == |s| then SentenceSplit([s], [])
    else
      var e := k + LeadingCount(s[k..], IsSpace);
      var rest := SplitSentences(s[e..]);
      SentenceSplit([s[..k]] + rest.fragments, [s[k..e]] + rest.gaps)
  }

  /** Putting the removed runs back gives the input. */
  lemma {:induction false} SplitSentencesWeave(s: string)
    ensures var r := SplitSentences(s); Weave(r.fragments, r.gaps) == s
    decreases |s|
  {
    var k := NextBreak(s, 0);
    if k < |s| {
      var e := k + LeadingCount(s[k..], IsSpace);
      var t := s[e..];
      SplitSentencesWeave(t);
      var rest := SplitSentences(t);
      var r := SplitSentences(s);
      assert r.fragments[1..] == rest.fragments;
      assert r.gaps[1..] == rest.gaps;
      assert s == s[..k] + s[k..e] + s[e..];
    }
  }

  /** Gap `g` is a non-empty whitespace run right after fragment `f`, which
      ends in a terminal mark. */
  predicate GapAfterTerminal(f: string, g: string) {
    |g| > 0 && AllSpace(g) && |f| > 0 && IsTerminal(f[|f| - 1])
  }

  /** Every removed run is non-empty whitespace right after a terminal mark. */
  lemma {:induction false} SplitSentencesGaps(s: string)
    ensures forall i :: 0 <= i < |SplitSentences(s).gaps| ==>
      GapAfterTerminal(SplitSentences(s).fragments[i], SplitSentences(s).gaps[i])
    decreases |s|
  {
    var k := NextBreak(s, 0);
    if k < |s| {
      var e := k + LeadingCount(s[k..], IsSpace);
      var t := s[e..];
      SplitSentencesGaps(t);
      var r := SplitSentences(s);
      var rest := SplitSentences(t);
      assert r.fragments == [s[..k]] + rest.fragments;
      assert r.gaps == [s[k..e]] + rest.gaps;
      assert IsSpace(s[k..][0]);
      assert s[..k][k - 1] == s[k - 1];
      assert GapAfterTerminal(s[..k], s[k..e]);
      forall i | 1 <= i < |r.gaps|
        ensures GapAfterTerminal(r.fragments[i], r.gaps[i])
      {
        assert r.gaps[i] == rest.gaps[i - 1];
        assert r.fragments[i] == rest.fragments[i - 1];
        assert GapAfterTerminal(rest.fragments[i - 1], rest.gaps[i - 1]);
      }
    }
  }

  /** No fragment still holds a place where the pattern matches. */
  lemma {:induction false} SplitSentencesNoBreak(s: string)
    ensures forall i :: 0 <= i < |SplitSentences(s).fragments| ==> NoBreak(SplitSentences(s).fragments[i])
    decreases |s|
  {
    var k := NextBreak(s, 0);
    if k < |s| {
      var e := k + LeadingCount(s[k..], IsSpace);
      var t := s[e..];
      SplitSentencesNoBreak(t);
      var r := SplitSentences(s);
      var rest := SplitSentences(t);
      assert r.fragments[1..] == rest.fragments;
      forall j: nat | j < k
        ensures !IsBreak(s[..k], j)
      {
        assert !IsBreak(s, j);
        if 0 < j {
          assert s[..k][j - 1] == s[j - 1] && s[..k][j] == s[j];
        }
      }
      assert r.fragments[0] == s[..k];
      forall i | 1 <= i < |r.fragments|
        ensures NoBreak(r.fragments[i])
      {
        assert r.fragments[i] == rest.fragments[i - 1];
        assert NoBreak(rest.fragments[i - 1]);
      }
    }
  }

  /** Runs are maximal: a fragment after a run does not start with
      whitespace. */
  lemma {:induction false} SplitSentencesMaximal(s: string)
    ensures forall i :: 0 < i < |SplitSentences(s).fragments| ==>
      SplitSentences(s).fragments[i] == [] || !IsSpace(SplitSentences(s).fragments[i][0])
    decreases |s|
  {
    var k := NextBreak(s, 0);
    if k < |s| {
      var e := k + LeadingCount(s[k..], IsSpace);
      var t := s[e..];
      SplitSentencesMaximal(t);
      var r := SplitSentences(s);
      var rest := SplitSentences(t);
      assert r.fragments[1..] == rest.fragments;
      if r.fragments[1] != [] {
        SplitSentencesWeave(t);
        WeaveStartsWithFirst(rest.fragments, rest.gaps);
        assert t[0] == s[e];
        assert rest.fragments[0][0] == s[e];
      }
    }
  }

  lemma WeaveStartsWithFirst(fragments: seq<string>, gaps: seq<string>)
    requires |fragments| == |gaps| + 1
    ensures StartsWith(Weave(fragments, gaps), fragments[0])
  {
  }

  /** `re.search(r'[.!?]["\']?\s*$', s)` succeeds: after trailing whitespace,
      the text ends with a terminal mark, optionally followed by one quote. */
  predicate EndsSentence(s: string) {
    var t := RStrip(s);
    |t| >= 1 &&
    (IsTerminal(t[|t| - 1]) || (|t| >= 2 && IsQuote(t[|t| - 1]) && IsTerminal(t[|t| - 2])))
  }

  /** The pattern matches at position `p`. */
  predicate SentenceEndAt(s: string, p: nat) {
    p < |s| && IsTerminal(s[p]) &&
    (AllSpace(s[p + 1..]) || (p + 1 < |s| && IsQuote(s[p + 1]) && AllSpace(s[p + 2..])))
  }

  /** `EndsSentence` is the regex search: it holds exactly when some position
      starts a match. */
  lemma EndsSentenceIsSearch(s: string)
    ensures EndsSentence(s) <==> exists p: nat :: SentenceEndAt(s, p)
  {
    var n := TrailingStart(s, IsSpace);
    var t := RStrip(s);
    assert t == s[..n];
    if EndsSentence(s) {
      if IsTerminal(t[|t| - 1]) {
        assert SentenceEndAt(s, n - 1);
      } else {
        assert s[n - 1] == t[|t| - 1];
        assert SentenceEndAt(s, n - 2);
      }
    }
    if exists p: nat :: SentenceEndAt(s, p) {
      var p: nat :| SentenceEndAt(s, p);
      if AllSpace(s[p + 1..]) {
        assert n == p + 1 by {
          assert !IsSpace(s[p]);
        }
      } else {
        assert n == p + 2 by {
          assert !IsSpace(s[p + 1]);
        }
      }
    }
  }

  // -----------------------------------------------------------------------
  // one line

  datatype Fed = Fed(released: seq<string>, carry: string)

  /** Append a stripped line to the carry after one space, split, and either
      release everything (the text ends a sentence) or hold the last fragment
      back as the new carry. */
  function Feed(carry: string, line: string): (r: Fed)
  {
    var buffer := carry + " " + Strip(line);
    var frags := SplitSentences(buffer).fragments;
    if EndsSentence(buffer) then Fed(frags, "")
    else Fed(frags[..|frags| - 1], frags[|frags| - 1])
  }

  lemma {:induction false} VisibleWeave(fragments: seq<string>, gaps: seq<string>)
    requires |fragments| == |gaps| + 1
    requires forall i :: 0 <= i < |gaps| ==> AllSpace(gaps[i])
    ensures Visible(Weave(fragments, gaps)) == Visible(Concat(fragments))
    decreases |gaps|
  {
    var f0, fs := fragments[0], fragments[1..];
    assert Concat(fragments) == f0 + Concat(fs);
    if |gaps| == 0 {
      assert Concat(fs) == "";
      assert f0 + "" == f0;
    } else {
      var g0, gs := gaps[0], gaps[1..];
      var w := Weave(fs, gs);
      assert Weave(fragments, gaps) == f0 + g0 + w;
      VisibleWeave(fs, gs);
      VisibleAppend(f0 + g0, w);
      VisibleAppend(f0, g0);
      VisibleOfSpaces(g0);
      VisibleAppend(f0, Concat(fs));
      assert Visible(f0) + "" == Visible(f0);
    }
  }

  /** A suffix cannot end a sentence unless the whole text does. */
  lemma EndsSentenceSuffix(pre: string, s: string)
    requires EndsSentence(s)
    ensures EndsSentence(pre + s)
  {
    EndsSentenceIsSearch(s);
    var p: nat :| SentenceEndAt(s, p);
    var w := pre + s;
    assert w[|pre| + p + 1..] == s[p + 1..];
    if p + 1 < |s| {
      assert w[|pre| + p + 2..] == s[p + 2..];
    }
    assert SentenceEndAt(w, |pre| + p);
    EndsSentenceIsSearch(w);
  }

  /** The buffer of a line shows the carry's text, then the line's. */
  lemma BufferVisible(carry: string, line: string)
    ensures Visible(carry + " " + Strip(line)) == Visible(carry) + Visible(line)
  {
    SpaceJoinVisible(carry, Strip(line));
    VisibleStrip(line);
  }

  lemma SpaceJoinVisible(a: string, b: string)
    ensures Visible(a + " " + b) == Visible(a) + Visible(b)
  {
    VisibleAppend(a + " ", b);
    VisibleAppend(a, " ");
    VisibleOfSpaces(" ");
  }

  /** Splitting removes only whitespace. */
  lemma SplitSentencesVisible(s: string)
    ensures Visible(Concat(SplitSentences(s).fragments)) == Visible(s)
  {
    var sp := SplitSentences(s);
    SplitSentencesWeave(s);
    SplitSentencesGaps(s);
    VisibleWeave(sp.fragments, sp.gaps);
  }

  lemma ConcatSnoc(parts: seq<string>)
    requires |parts| > 0
    ensures Concat(parts[..|parts| - 1]) + parts[|parts| - 1] == Concat(parts)
  {
    var n := |parts| - 1;
    assert parts == parts[..n] + [parts[n]];
    ConcatAppend(parts[..n], [parts[n]]);
    assert Concat([parts[n]]) == parts[n] + "";
  }

  lemma VisibleConcatSnoc(parts: seq<string>)
    requires |parts| > 0
    ensures Visible(Concat(parts[..|parts| - 1])) + Visible(parts[|parts| - 1]) == Visible(Concat(parts))
  {
    ConcatSnoc(parts);
    VisibleAppend(Concat(parts[..|parts| - 1]), parts[|parts| - 1]);
  }

  /** Feeding a line loses and invents no visible character. */
  lemma FeedVisible(carry: string, line: string)
    ensures Visible(Concat(Feed(carry, line).released)) + Visible(Feed(carry, line).carry)
         == Visible(carry) + Visible(line)
  {
    var buffer := carry + " " + Strip(line);
    BufferVisible(carry, line);
    SplitSentencesVisible(buffer);
    var frags := SplitSentences(buffer).fragments;
    if EndsSentence(buffer) {
      assert Feed(carry, line) == Fed(frags, "");
      assert Visible("") == "";
    } else {
      assert Feed(carry, line) == Fed(frags[..|frags| - 1], frags[|frags| - 1]);
      VisibleConcatSnoc(frags);
    }
  }

  /** The carry a line leaves is empty or an unfinished fragment: it does not
      end a sentence and holds no split point. */
  lemma FeedCarry(carry: string, line: string)
    ensures Feed(carry, line).carry == "" ||
      (!EndsSentence(Feed(carry, line).carry) && NoBreak(Feed(carry, line).carry))
  {
    var buffer := carry + " " + Strip(line);
    if !EndsSentence(buffer) {
      LastFragmentUnfinished(buffer);
    }
  }

  /** When a text does not end a sentence, neither does its last fragment,
      and that fragment holds no split point. */
  lemma LastFragmentUnfinished(buffer: string)
    requires !EndsSentence(buffer)
    ensures var frags := SplitSentences(buffer).fragments;
      !EndsSentence(frags[|frags| - 1]) && NoBreak(frags[|frags| - 1])
  {
    var sp := SplitSentences(buffer);
    var frags := sp.fragments;
    var n := |frags| - 1;
    SplitSentencesNoBreak(buffer);
    SplitSentencesWeave(buffer);
    WeaveEndsWithLast(frags, sp.gaps);
    TailUnfinished(buffer, frags[n]);
  }

  /** A text that ends no sentence has no tail that does. */
  lemma TailUnfinished(buffer: string, last: string)
    requires !EndsSentence(buffer) && EndsWith(buffer, last)
    ensures !EndsSentence(last)
  {
    var pre := buffer[..|buffer| - |last|];
    assert buffer == pre + last;
    if EndsSentence(last) {
      EndsSentenceSuffix(pre, last);
    }
  }

  lemma WeaveEndsWithLast(fragments: seq<string>, gaps: seq<string>)
    requires |fragments| == |gaps| + 1
    ensures EndsWith(Weave(fragments, gaps), fragments[|fragments| - 1])
    decreases |gaps|
  {
    if |gaps| > 0 {
      WeaveEndsWithLast(fragments[1..], gaps[1..]);
    }
  }

  // -----------------------------------------------------------------------
  // chunking

  /** One draw of `random.choice([2, 3])`. */
  type Draw = d: nat | d == 2 || d == 3 witness 2

  datatype Drained = Drained(groups: seq<seq<string>>, rest: seq<string>, draws: nat)

  /** `while len(pending) >= 2`: take `min(draw, len(pending))` fragments
      from the front, one draw per chunk. */
  function Drain(pending: seq<string>, choose: nat -> Draw, draws: nat): (r: Drained)
    ensures r.draws == draws + |r.groups|
    decreases |pending|
  {
    if |pending| < 2 then Drained([], pending, draws)
    else
      var size := if choose(draws) <= |pending| then choose(draws) else |pending|;
      var next := Drain(pending[size..], choose, draws + 1);
      Drained([pending[..size]] + next.groups, next.rest, next.draws)
  }

  /** Draining keeps the fragments in order, drops none, and leaves fewer
      than two behind. */
  lemma {:induction false} DrainConserves(pending: seq<string>, choose: nat -> Draw, draws: nat)
    ensures Flatten(Drain(pending, choose, draws).groups) + Drain(pending, choose, draws).rest == pending
    ensures |Drain(pending, choose, draws).rest| < 2
    decreases |pending|
  {
    if |pending| >= 2 {
      var size := if choose(draws) <= |pending| then choose(draws) else |pending|;
      var tail := pending[size..];
      DrainConserves(tail, choose, draws + 1);
      var next := Drain(tail, choose, draws + 1);
      DrainUnfold(pending, choose, draws, size, next);
      FlattenConsRest(pending[..size], next.groups, next.rest, tail);
      assert pending[..size] + tail == pending;
    }
  }

  /** One chunk taken, then the rest drained. */
  lemma DrainUnfold(pending: seq<string>, choose: nat -> Draw, draws: nat, size: nat, next: Drained)
    requires |pending| >= 2
    requires size == if choose(draws) <= |pending| then choose(draws) else |pending|
    requires next == Drain(pending[size..], choose, draws + 1)
    ensures Drain(pending, choose, draws) == Drained([pending[..size]] + next.groups, next.rest, next.draws)
  {
  }

  lemma FlattenConsRest(x: seq<string>, groups: seq<seq<string>>, rest: seq<string>, tail: seq<string>)
    requires Flatten(groups) + rest == tail
    ensures Flatten([x] + groups) + rest == x + tail
  {
    FlattenCons(x, groups);
  }

  /** Chunk `i` takes exactly draw number `draws + i`, unless it is the last
      chunk and empties the list; each chunk holds 2 or 3 fragments. */
  lemma {:induction false} DrainSizes(pending: seq<string>, choose: nat -> Draw, draws: nat)
    ensures forall i :: 0 <= i < |Drain(pending, choose, draws).groups| ==>
      2 <= |Drain(pending, choose, draws).groups[i]| <= 3
    ensures forall i :: 0 <= i < |Drain(pending, choose, draws).groups| ==>
      |Drain(pending, choose, draws).groups[i]| == choose(draws + i) ||
      (i == |Drain(pending, choose, draws).groups| - 1 && Drain(pending, choose, draws).rest == [])
    decreases |pending|
  {
    if |pending| >= 2 {
      var size := if choose(draws) <= |pending| then choose(draws) else |pending|;
      var tail := pending[size..];
      DrainSizes(tail, choose, draws + 1);
      var next := Drain(tail, choose, draws + 1);
      var r := Drain(pending, choose, draws);
      assert r.groups == [pending[..size]] + next.groups;
      if size < choose(draws) {
        assert tail == [];
        assert next.groups == [] && next.rest == [];
      }
      forall i | 1 <= i < |r.groups|
        ensures 2 <= |r.groups[i]| <= 3
        ensures |r.groups[i]| == choose(draws + i) || (i == |r.groups| - 1 && r.rest == [])
      {
        assert r.groups[i] == next.groups[i - 1];
        assert draws + i == (draws + 1) + (i - 1);
      }
    }
  }

  /** Fewer than two pending fragments: nothing to drain. */
  lemma DrainShort(pending: seq<string>, choose: nat -> Draw, draws: nat)
    requires |pending| < 2
    ensures Drain(pending, choose, draws) == Drained([], pending, draws)
  {
  }

  // -----------------------------------------------------------------------
  // the whole file

  datatype Streamer = Streamer(carry: string, pending: seq<string>, draws: nat)

  const Start := Streamer("", [], 0)

  datatype Stepped = Stepped(state: Streamer, groups: seq<seq<string>>)

  /** One iteration of the line loop. */
  function Step(st: Streamer, line: string, choose: nat -> Draw): (r: Stepped)
  {
    var fed := Feed(st.carry, line);
    var d := Drain(st.pending + fed.released, choose, st.draws);
    Stepped(Streamer(fed.carry, d.rest, d.draws), d.groups)
  }

  /** The line loop over the remaining lines. */
  function Run(st: Streamer, lines: seq<string>, choose: nat -> Draw): (r: Stepped)
    decreases |lines|
  {
    if |lines| == 0 then Stepped(st, [])
    else
      var s := Step(st, lines[0], choose);
      var rest := Run(s.state, lines[1..], choose);
      Stepped(rest.state, s.groups + rest.groups)
  }

  /** After the loop: append the stripped carry if there is one, and emit
      whatever is pending as one last chunk. */
  function Flush(st: Streamer): seq<seq<string>> {
    var pending := FlushPending(st);
    if pending != [] then [pending] else []
  }

  function FlushPending(st: Streamer): seq<string> {
    st.pending + CarryTail(st.carry)
  }

  /** `if buffer: sentence_buffer.append(buffer.strip())`. */
  function CarryTail(carry: string): seq<string> {
    if carry != "" then [Strip(carry)] else []
  }

  /** The fragment groups of `stream_sentences`, one per yielded chunk. */
  function StreamGroups(lines: seq<string>, choose: nat -> Draw): seq<seq<string>> {
    var r := Run(Start, lines, choose);
    r.groups + Flush(r.state)
  }

  /** `stream_sentences`: each chunk is its fragments joined by single spaces. */
  function Stream(lines: seq<string>, choose: nat -> Draw): (chunks: seq<string>)
    ensures |chunks| == |StreamGroups(lines, choose)|
  {
    JoinEach(StreamGroups(lines, choose))
  }

  // -----------------------------------------------------------------------
  // reference: the fragments released by the line loop, ignoring chunking

  /** Fragments released by feeding every line, and the final carry. */
  function Released(carry: string, lines: seq<string>): Fed
    decreases |lines|
  {
    if |lines| == 0 then Fed([], carry)
    else
      var f := Feed(carry, lines[0]);
      var rest := Released(f.carry, lines[1..]);
      Fed(f.released + rest.released, rest.carry)
  }

  /** Every fragment the file produces: those released line by line, then
      the stripped final carry. */
  function AllFragments(lines: seq<string>): seq<string> {
    var r := Released("", lines);
    r.released + CarryTail(r.carry)
  }

  /** The state the line loop keeps between lines: fewer than two pending
      fragments, and a carry that is empty or an unfinished fragment. */
  predicate Inv(st: Streamer) {
    |st.pending| < 2 && (st.carry == "" || (!EndsSentence(st.carry) && NoBreak(st.carry)))
  }

  predicate LoopSized(g: seq<string>) { 2 <= |g| <= 3 }

  /** One line keeps the invariant; the chunks it emits followed by what is
      pending are the fragments pending before followed by those released. */
  lemma StepSpec(st: Streamer, line: string, choose: nat -> Draw)
    requires Inv(st)
    ensures Inv(Step(st, line, choose).state)
    ensures Step(st, line, choose).state.carry == Feed(st.carry, line).carry
    ensures Flatten(Step(st, line, choose).groups) + Step(st, line, choose).state.pending
         == st.pending + Feed(st.carry, line).released
    ensures forall i :: 0 <= i < |Step(st, line, choose).groups| ==> LoopSized(Step(st, line, choose).groups[i])
  {
    var fed := Feed(st.carry, line);
    FeedCarry(st.carry, line);
    var p := st.pending + fed.released;
    DrainConserves(p, choose, st.draws);
    DrainSizes(p, choose, st.draws);
  }

  /** The loop invariant over the whole file: the invariant holds after every
      line, and the chunks emitted followed by pending are exactly the
      fragments released so far. */
  lemma {:induction false} RunConserves(st: Streamer, lines: seq<string>, choose: nat -> Draw)
    requires Inv(st)
    ensures Inv(Run(st, lines, choose).state)
    ensures Run(st, lines, choose).state.carry == Released(st.carry, lines).carry
    ensures Flatten(Run(st, lines, choose).groups) + Run(st, lines, choose).state.pending
         == st.pending + Released(st.carry, lines).released
    decreases |lines|
  {
    if |lines| > 0 {
      var s := Step(st, lines[0], choose);
      var fed := Feed(st.carry, lines[0]);
      StepSpec(st, lines[0], choose);
      var tail := lines[1..];
      RunConserves(s.state, tail, choose);
      var rest := Run(s.state, tail, choose);
      var relRest := Released(fed.carry, tail);
      assert Run(st, lines, choose) == Stepped(rest.state, s.groups + rest.groups);
      assert Released(st.carry, lines) == Fed(fed.released + relRest.released, relRest.carry);
      FlattenAppend(s.groups, rest.groups);
      AppendChain(Flatten(s.groups), Flatten(rest.groups), st.pending, s.state.pending,
                  rest.state.pending, fed.released, relRest.released);
    }
  }

  /** Every chunk of the line loop holds 2 or 3 fragments. */
  lemma {:induction false} RunSizes(st: Streamer, lines: seq<string>, choose: nat -> Draw)
    requires Inv(st)
    ensures forall i :: 0 <= i < |Run(st, lines, choose).groups| ==> LoopSized(Run(st, lines, choose).groups[i])
    decreases |lines|
  {
    if |lines| > 0 {
      var s := Step(st, lines[0], choose);
      StepSpec(st, lines[0], choose);
      var tail := lines[1..];
      RunSizes(s.state, tail, choose);
      var rest := Run(s.state, tail, choose);
      assert Run(st, lines, choose).groups == s.groups + rest.groups;
      SizedAppend(s.groups, rest.groups);
    }
  }

  lemma SizedAppend(a: seq<seq<string>>, b: seq<seq<string>>)
    requires forall i :: 0 <= i < |a| ==> LoopSized(a[i])
    requires forall i :: 0 <= i < |b| ==> LoopSized(b[i])
    ensures forall i :: 0 <= i < |a + b| ==> LoopSized((a + b)[i])
  {
    forall i | 0 <= i < |a + b|
      ensures LoopSized((a + b)[i])
    {
      if i >= |a| {
        assert (a + b)[i] == b[i - |a|];
      }
    }
  }

  /** No fragment is dropped or duplicated and order is kept: the chunks'
      fragments, in order, are exactly the fragments of the file, whatever the
      chooser draws. */
  lemma StreamConservesFragments(lines: seq<string>, choose: nat -> Draw)
    ensures Flatten(StreamGroups(lines, choose)) == AllFragments(lines)
  {
    RunConserves(Start, lines, choose);
    var r := Run(Start, lines, choose);
    var rel := Released("", lines);
    assert [] + rel.released == rel.released;
    FlushAfterRun(r, rel);
  }

  /** The loop's chunks, then the flush, flatten to the released fragments
      and the stripped carry. */
  lemma FlushAfterRun(r: Stepped, rel: Fed)
    requires r.state.carry == rel.carry
    requires Flatten(r.groups) + r.state.pending == rel.released
    ensures Flatten(r.groups + Flush(r.state)) == rel.released + CarryTail(rel.carry)
  {
    FlattenAppend(r.groups, Flush(r.state));
    FlushFlatten(r.state);
    AppendAssoc(Flatten(r.groups), r.state.pending, CarryTail(rel.carry));
  }

  lemma AppendAssoc<T>(a: seq<T>, b: seq<T>, c: seq<T>)
    ensures a + (b + c) == (a + b) + c
  {
  }

  /** What the flush emits, flattened, is what is pending followed by the
      stripped carry. */
  lemma FlushFlatten(st: Streamer)
    ensures Flatten(Flush(st)) == FlushPending(st)
  {
    var p := FlushPending(st);
    if p != [] {
      FlattenCons(p, []);
      assert p + [] == p;
    }
  }

  /** Chunk shape: every chunk of the line loop has 2 or 3 fragments; at most
      one chunk follows from the flush, and it has 1 or 2. */
  lemma StreamShape(lines: seq<string>, choose: nat -> Draw)
    ensures StreamGroups(lines, choose) == Run(Start, lines, choose).groups + Flush(Run(Start, lines, choose).state)
    ensures forall i :: 0 <= i < |Run(Start, lines, choose).groups| ==> LoopSized(Run(Start, lines, choose).groups[i])
    ensures |Flush(Run(Start, lines, choose).state)| <= 1
    ensures forall g :: g in Flush(Run(Start, lines, choose).state) ==> 1 <= |g| <= 2
  {
    RunSizes(Start, lines, choose);
    RunConserves(Start, lines, choose);
  }

  /** Only the last chunk can be a single fragment. */
  lemma SingleFragmentOnlyLast(lines: seq<string>, choose: nat -> Draw, i: nat)
    requires i < |StreamGroups(lines, choose)|
    requires |StreamGroups(lines, choose)[i]| == 1
    ensures i == |StreamGroups(lines, choose)| - 1
  {
    StreamShape(lines, choose);
    var r := Run(Start, lines, choose);
    var g := StreamGroups(lines, choose);
    assert g == r.groups + Flush(r.state);
  }

  /** The released fragments and the carry hold exactly the visible text of
      the lines fed so far. */
  lemma {:induction false} ReleasedVisible(carry: string, lines: seq<string>)
    ensures Visible(Concat(Released(carry, lines).released)) + Visible(Released(carry, lines).carry)
         == Visible(carry) + Visible(Concat(lines))
    decreases |lines|
  {
    if |lines| == 0 {
      assert Visible("") == "";
      assert Concat(lines) == "";
    } else {
      var f := Feed(carry, lines[0]);
      FeedVisible(carry, lines[0]);
      var tail := lines[1..];
      ReleasedVisible(f.carry, tail);
      var rest := Released(f.carry, tail);
      assert Released(carry, lines) == Fed(f.released + rest.released, rest.carry);
      assert Concat(lines) == lines[0] + Concat(tail);
      VisibleChain(f.released, rest.released, carry, f.carry, rest.carry, lines[0], tail);
    }
  }

  lemma VisibleChain(a: seq<string>, b: seq<string>, c0: string, c1: string, c2: string,
                     l0: string, ls: seq<string>)
    requires Visible(Concat(a)) + Visible(c1) == Visible(c0) + Visible(l0)
    requires Visible(Concat(b)) + Visible(c2) == Visible(c1) + Visible(Concat(ls))
    ensures Visible(Concat(a + b)) + Visible(c2) == Visible(c0) + Visible(l0 + Concat(ls))
  {
    VisibleConcatAppend(a, b);
    VisibleAppend(l0, Concat(ls));
    AppendChain(Visible(Concat(a)), Visible(Concat(b)), Visible(c0), Visible(c1), Visible(c2),
                Visible(l0), Visible(Concat(ls)));
  }

  /** The visible text of every fragment of the file is the visible text of
      the file. */
  lemma AllFragmentsVisible(lines: seq<string>)
    ensures Visible(Concat(AllFragments(lines))) == Visible(Concat(lines))
  {
    var r := Released("", lines);
    ReleasedVisible("", lines);
    assert Visible("") == "";
    var tail := CarryTail(r.carry);
    assert AllFragments(lines) == r.released + tail;
    VisibleConcatAppend(r.released, tail);
    if r.carry != "" {
      assert Concat(tail) == Strip(r.carry) + "";
      assert Strip(r.carry) + "" == Strip(r.carry);
      VisibleStrip(r.carry);
    } else {
      assert Concat(tail) == "";
    }
    assert Visible(Concat(tail)) == Visible(r.carry);
    assert "" + Visible(Concat(lines)) == Visible(Concat(lines));
  }

  /** The non-whitespace text of the chunks, in order, is the non-whitespace
      text of the file: nothing is lost, nothing is repeated. */
  lemma StreamPreservesText(lines: seq<string>, choose: nat -> Draw)
    ensures Visible(Concat(Stream(lines, choose))) == Visible(Concat(lines))
  {
    var g := StreamGroups(lines, choose);
    StreamConservesFragments(lines, choose);
    VisibleJoinEach(g);
    AllFragmentsVisible(lines);
  }

  /** An empty file yields no chunks. */
  lemma EmptyFileNoChunks(choose: nat -> Draw)
    ensures Stream([], choose) == []
  {
  }

  /** A file of one blank line yields one empty chunk: the carry " " is
      non-empty, and its stripped form "" is flushed. */
  lemma BlankLineYieldsEmptyChunk(choose: nat -> Draw)
    ensures Stream([""], choose) == [""]
  {
    var buffer := "" + " " + Strip("");
    assert buffer == " ";
    assert NextBreak(buffer, 0) == 1;
    assert SplitSentences(buffer).fragments == [" "];
    assert RStrip(buffer) == "";
    assert !EndsSentence(buffer);
    assert Feed("", "") == Fed([], " ");
    assert Drain([], choose, 0) == Drained([], [], 0);
    var st := Run(Start, [""], choose);
    assert st.state == Streamer(" ", [], 0);
    assert st.groups == [];
    assert Strip(" ") == "";
    assert CarryTail(" ") == [""];
    assert FlushPending(st.state) == [] + [""] == [""];
    assert Flush(st.state) == [[""]];
    assert StreamGroups([""], choose) == [[""]];
    assert Join([""], " ") == "";
  }
}
