/** Greedy word wrapping. One packer serves both wrappers of the pipeline:
    caption lines (`break_into_lines`, by character count) and title-card
    lines (`wrap_text`, by a rendered-width measure). */
module Wrap {
  import opened Text
  import opened Seqs

  /** A word of `str.split()`: non-empty, no whitespace. */
  predicate IsWord(w: string) {
    |w| > 0 && forall i :: 0 <= i < |w| ==> !IsSpace(w[i])
  }

  /** `s.split()`: the maximal runs of non-whitespace, in order. */
  function Words(s: string): (r: seq<string>)
    ensures forall i :: 0 <= i < |r| ==> IsWord(r[i])
    decreases |s|
  {
    if |s| == 0 then []
    else if IsSpace(s[0]) then Words(s[1..])
    else
      var n := LeadingCount(s, IsVisible);
      [s[..n]] + Words(s[n..])
  }

  /** Splitting keeps every visible character, in order, and nothing else. */
  lemma {:induction false} WordsConcat(s: string)
    ensures Concat(Words(s)) == Visible(s)
    decreases |s|
  {
    if |s| > 0 && !IsSpace(s[0]) {
      var n := LeadingCount(s, IsVisible);
      var w, t := s[..n], s[n..];
      WordsConcat(t);
      assert Words(s) == [w] + Words(t);
      assert Concat([w] + Words(t)) == w + Concat(Words(t));
      assert s == w + t;
      VisibleAppend(w, t);
      VisibleOfWord(w);
    } else if |s| > 0 {
      WordsConcat(s[1..]);
      assert s == [s[0]] + s[1..];
      VisibleAppend([s[0]], s[1..]);
      VisibleOfSpaces([s[0]]);
    }
  }

  /** A text splits into no words exactly when it is all whitespace. */
  lemma WordsEmpty(s: string)
    ensures Words(s) == [] <==> AllSpace(s)
  {
    WordsConcat(s);
    VisibleEmpty(s);
    if Words(s) != [] {
      assert Concat(Words(s)) == Words(s)[0] + Concat(Words(s)[1..]);
      assert IsWord(Words(s)[0]);
    }
  }

  lemma {:induction false} VisibleEmpty(s: string)
    ensures Visible(s) == "" <==> AllSpace(s)
    decreases |s|
  {
    if |s| > 0 {
      VisibleEmpty(s[1..]);
      assert AllSpace(s) <==> IsSpace(s[0]) && AllSpace(s[1..]);
    }
  }

  lemma {:induction false} WordsOfWord(w: string, rest: string)
    requires IsWord(w)
    requires rest == [] || IsSpace(rest[0])
    ensures Words(w + rest) == [w] + Words(rest)
  {
    var s := w + rest;
    assert s[0] == w[0];
    var n := LeadingCount(s, IsVisible);
    assert forall i :: 0 <= i < |w| ==> s[i] == w[i] && IsVisible(s[i]);
    LeadingCountAt(s, |w|);
    assert s[..n] == w;
    assert s[n..] == rest;
  }

  lemma LeadingCountAt(s: string, k: nat)
    requires k <= |s|
    requires forall i :: 0 <= i < k ==> IsVisible(s[i])
    requires k == |s| || !IsVisible(s[k])
    ensures LeadingCount(s, IsVisible) == k
    decreases k
  {
    if k > 0 {
      LeadingCountAt(s[1..], k - 1);
    }
  }

  /** Splitting inverts joining with single spaces. */
  lemma {:induction false} WordsJoin(ws: seq<string>)
    requires forall i :: 0 <= i < |ws| ==> IsWord(ws[i])
    ensures Words(Join(ws, " ")) == ws
    decreases |ws|
  {
    if |ws| == 1 {
      WordsOfWord(ws[0], "");
      assert ws[0] + "" == ws[0];
    } else if |ws| > 1 {
      var rest := Join(ws[1..], " ");
      WordsJoin(ws[1..]);
      assert Join(ws, " ") == ws[0] + (" " + rest);
      WordsOfWord(ws[0], " " + rest);
      assert (" " + rest)[1..] == rest;
    }
  }

  // -----------------------------------------------------------------------
  // greedy packing

  /** Pack `words` into groups, `cur` being the group in progress: a word
      joins the group when the group's text with it still fits; otherwise the
      group is closed (if non-empty) and the word opens the next one. */
  function PackFrom(cur: seq<string>, words: seq<string>, fits: string -> bool): seq<seq<string>>
    decreases |words|
  {
    if |words| == 0 then (if cur != [] then [cur] else [])
    else if fits(Join(cur + [words[0]], " ")) then PackFrom(cur + [words[0]], words[1..], fits)
    else (if cur != [] then [cur] else []) + PackFrom([words[0]], words[1..], fits)
  }

  function PackGroups(words: seq<string>, fits: string -> bool): seq<seq<string>> {
    PackFrom([], words, fits)
  }

  /** The lines of a greedy wrap. */
  function Pack(words: seq<string>, fits: string -> bool): seq<string> {
    JoinEach(PackGroups(words, fits))
  }

  /** Every word added to a group after its first left the group fitting. */
  predicate GroupOk(g: seq<string>, fits: string -> bool) {
    |g| > 0 && forall k :: 2 <= k <= |g| ==> fits(Join(g[..k], " "))
  }

  /** The next group's first word would not have fitted on line `i`. */
  predicate Closed(groups: seq<seq<string>>, i: nat, fits: string -> bool)
    requires i + 1 < |groups| && |groups[i + 1]| > 0
  {
    !fits(Join(groups[i] + [groups[i + 1][0]], " "))
  }

  /** The greedy wrap, stated without the algorithm: the groups cover the
      words in order, every group grew only while it fitted, and each group
      was closed because the next word did not fit. */
  predicate Greedy(groups: seq<seq<string>>, words: seq<string>, fits: string -> bool) {
    && Flatten(groups) == words
    && (forall i :: 0 <= i < |groups| ==> GroupOk(groups[i], fits))
    && (forall i :: 0 <= i < |groups| - 1 ==> Closed(groups, i, fits))
  }

  lemma GroupOkExtend(g: seq<string>, w: string, fits: string -> bool)
    requires GroupOk(g, fits) && fits(Join(g + [w], " "))
    ensures GroupOk(g + [w], fits)
  {
    var h := g + [w];
    forall k | 2 <= k <= |h|
      ensures fits(Join(h[..k], " "))
    {
      if k <= |g| {
        assert h[..k] == g[..k];
      } else {
        assert h[..k] == h;
      }
    }
  }

  lemma GroupOkSingle(w: string, fits: string -> bool)
    ensures GroupOk([w], fits)
  {
  }

  /** The packer produces a greedy wrap of the group in progress followed by
      the remaining words, whose first group extends the group in progress. */
  lemma {:induction false} PackFromGreedy(cur: seq<string>, words: seq<string>, fits: string -> bool)
    requires cur == [] || GroupOk(cur, fits)
    ensures Greedy(PackFrom(cur, words, fits), cur + words, fits)
    ensures cur != [] ==> |PackFrom(cur, words, fits)| > 0 && cur <= PackFrom(cur, words, fits)[0]
    decreases |words|
  {
    var gs := PackFrom(cur, words, fits);
    if |words| == 0 {
      if cur != [] {
        FlattenCons(cur, []);
        assert cur + [] == cur;
      }
      assert cur + words == cur;
    } else {
      var w, ws := words[0], words[1..];
      assert cur + words == (cur + [w]) + ws;
      if fits(Join(cur + [w], " ")) {
        if cur == [] {
          GroupOkSingle(w, fits);
        } else {
          GroupOkExtend(cur, w, fits);
        }
        PackFromGreedy(cur + [w], ws, fits);
      } else {
        GroupOkSingle(w, fits);
        PackFromGreedy([w], ws, fits);
        var rest := PackFrom([w], ws, fits);
        if cur != [] {
          assert gs == [cur] + rest;
          FlattenCons(cur, rest);
          assert cur + words == cur + ([w] + ws);
          forall i | 0 <= i < |gs|
            ensures GroupOk(gs[i], fits)
          {
            if i > 0 {
              assert gs[i] == rest[i - 1];
            }
          }
          forall i | 0 <= i < |gs| - 1
            ensures Closed(gs, i, fits)
          {
            if i == 0 {
              assert gs[1][0] == w;
            } else {
              assert gs[i] == rest[i - 1] && gs[i + 1] == rest[i];
              assert Closed(rest, i - 1, fits);
            }
          }
        } else {
          assert gs == [] + rest;
          assert gs == rest;
        }
      }
    }
  }

  /** The packer is a greedy wrap. */
  lemma PackIsGreedy(words: seq<string>, fits: string -> bool)
    ensures Greedy(PackGroups(words, fits), words, fits)
  {
    PackFromGreedy([], words, fits);
    assert [] + words == words;
  }

  lemma {:induction false} FlattenNonEmptyGroups(gs: seq<seq<string>>)
    requires forall i :: 0 <= i < |gs| ==> |gs[i]| > 0
    ensures Flatten(gs) == [] <==> gs == []
  {
    if |gs| > 0 {
      assert Flatten(gs) == gs[0] + Flatten(gs[1..]);
    }
  }

  /** A greedy wrap whose first group starts with `cur` is what the packer
      builds from `cur`. */
  lemma {:induction false} GreedyUniqueFrom(gs: seq<seq<string>>, cur: seq<string>, words: seq<string>, fits: string -> bool)
    requires cur != []
    requires Greedy(gs, cur + words, fits)
    requires |gs| > 0 && cur <= gs[0]
    ensures gs == PackFrom(cur, words, fits)
    decreases |words|
  {
    var g0 := gs[0];
    var tail := gs[1..];
    assert gs == [g0] + tail;
    FlattenCons(g0, tail);
    assert Flatten(gs) == g0 + Flatten(tail);
    if |words| == 0 {
      assert g0 + Flatten(tail) == cur;
      assert g0 == cur;
    } else {
      var w, ws := words[0], words[1..];
      if |g0| > |cur| {
        // the word joined the first group
        assert g0[|cur|] == (g0 + Flatten(tail))[|cur|] == (cur + words)[|cur|] == w;
        assert g0[..|cur| + 1] == cur + [w];
        assert GroupOk(g0, fits);
        assert fits(Join(cur + [w], " "));
        assert cur + words == (cur + [w]) + ws;
        GreedyUniqueFrom(gs, cur + [w], ws, fits);
      } else {
        // the first group is exactly `cur`; the word opens the next group
        assert g0 == cur;
        assert (cur + Flatten(tail))[|cur|..] == Flatten(tail);
        assert (cur + words)[|cur|..] == words;
        assert Flatten(tail) == words;
        assert forall i :: 0 <= i < |tail| ==> |tail[i]| > 0 by {
          forall i | 0 <= i < |tail| ensures |tail[i]| > 0 {
            assert tail[i] == gs[i + 1];
          }
        }
        FlattenNonEmptyGroups(tail);
        var g1 := tail[0];
        FlattenCons(g1, tail[1..]);
        assert tail == [g1] + tail[1..];
        assert g1[0] == w;
        assert Closed(gs, 0, fits);
        assert !fits(Join(cur + [w], " "));
        assert Greedy(tail, [w] + ws, fits) by {
          forall i | 0 <= i < |tail| ensures GroupOk(tail[i], fits) {
            assert tail[i] == gs[i + 1];
          }
          forall i | 0 <= i < |tail| - 1 ensures Closed(tail, i, fits) {
            assert tail[i] == gs[i + 1] && tail[i + 1] == gs[i + 2];
            assert Closed(gs, i + 1, fits);
          }
          assert words == [w] + ws;
        }
        assert [w] <= g1;
        GreedyUniqueFrom(tail, [w], ws, fits);
      }
    }
  }

  /** The greedy wrap is unique: a grouping is greedy exactly when it is the
      packer's. */
  lemma GreedyIsPack(gs: seq<seq<string>>, words: seq<string>, fits: string -> bool)
    ensures Greedy(gs, words, fits) <==> gs == PackGroups(words, fits)
  {
    PackIsGreedy(words, fits);
    if Greedy(gs, words, fits) {
      if |words| == 0 {
        FlattenNonEmptyGroups(gs);
      } else {
        FlattenNonEmptyGroups(gs);
        var g0 := gs[0];
        assert Flatten(gs) == g0 + Flatten(gs[1..]);
        assert g0[0] == words[0];
        assert [words[0]] <= g0;
        assert words == [words[0]] + words[1..];
        GreedyUniqueFrom(gs, [words[0]], words[1..], fits);
        PackFirstWord(words, fits);
      }
    }
  }

  /** The first word always opens the first group. */
  lemma PackFirstWord(words: seq<string>, fits: string -> bool)
    requires |words| > 0
    ensures PackGroups(words, fits) == PackFrom([words[0]], words[1..], fits)
  {
    assert [] + [words[0]] == [words[0]];
  }

  /** Each line of a greedy wrap is non-empty, and either fits or holds a
      single word. */
  lemma PackLines(words: seq<string>, fits: string -> bool)
    requires forall i :: 0 <= i < |words| ==> IsWord(words[i])
    ensures forall i :: 0 <= i < |Pack(words, fits)| ==> |Pack(words, fits)[i]| > 0
    ensures forall i :: 0 <= i < |Pack(words, fits)| ==>
      fits(Pack(words, fits)[i]) || Pack(words, fits)[i] in words
    ensures Words(Join(Pack(words, fits), " ")) == words
  {
    var gs := PackGroups(words, fits);
    PackIsGreedy(words, fits);
    var lines := Pack(words, fits);
    forall i | 0 <= i < |gs|
      ensures |lines[i]| > 0
      ensures fits(lines[i]) || lines[i] in words
    {
      var g := gs[i];
      assert GroupOk(g, fits);
      FlattenMember(gs, i);
      assert g[0] in words;
      JoinNonEmpty(g, words);
      if |g| >= 2 {
        assert g[..|g|] == g;
      } else {
        assert Join(g, " ") == g[0];
      }
    }
    PackWordsJoin(gs, words);
  }

  lemma {:induction false} FlattenMember(gs: seq<seq<string>>, i: nat)
    requires i < |gs|
    ensures forall x :: x in gs[i] ==> x in Flatten(gs)
  {
    if i > 0 {
      FlattenMember(gs[1..], i - 1);
      assert gs[i] == gs[1..][i - 1];
    }
    assert Flatten(gs) == gs[0] + Flatten(gs[1..]);
  }

  lemma JoinNonEmpty(g: seq<string>, words: seq<string>)
    requires |g| > 0
    requires forall x :: x in g ==> x in words
    requires forall i :: 0 <= i < |words| ==> IsWord(words[i])
    ensures |Join(g, " ")| >= |g[0]| > 0
  {
    assert g[0] in words;
    if |g| > 1 {
      assert Join(g, " ") == g[0] + " " + Join(g[1..], " ");
    }
  }

  /** Joining the lines with spaces gives the words joined with spaces. */
  lemma {:induction false} JoinGroups(gs: seq<seq<string>>)
    requires forall i :: 0 <= i < |gs| ==> |gs[i]| > 0
    ensures Join(JoinEach(gs), " ") == Join(Flatten(gs), " ")
    decreases |gs|
  {
    if |gs| > 1 {
      var tail := gs[1..];
      JoinGroups(tail);
      assert JoinEach(gs)[1..] == JoinEach(tail);
      assert Flatten(gs) == gs[0] + Flatten(tail);
      FlattenNonEmptyGroups(tail);
      JoinAppend(gs[0], Flatten(tail));
    } else if |gs| == 1 {
      assert Flatten(gs) == gs[0] + [];
      assert gs[0] + [] == gs[0];
    }
  }

  lemma {:induction false} JoinAppend(a: seq<string>, b: seq<string>)
    requires |a| > 0 && |b| > 0
    ensures Join(a + b, " ") == Join(a, " ") + " " + Join(b, " ")
    decreases |a|
  {
    if |a| == 1 {
      assert (a + b)[1..] == b;
    } else {
      JoinAppend(a[1..], b);
      assert (a + b)[1..] == a[1..] + b;
    }
  }

  lemma PackWordsJoin(gs: seq<seq<string>>, words: seq<string>)
    requires Flatten(gs) == words
    requires forall i :: 0 <= i < |gs| ==> |gs[i]| > 0
    requires forall i :: 0 <= i < |words| ==> IsWord(words[i])
    ensures Words(Join(JoinEach(gs), " ")) == words
  {
    JoinGroups(gs);
    WordsJoin(words);
  }

  // -----------------------------------------------------------------------
  // caption lines

  /** `break_into_lines`' default `max_chars`. */
  const MaxChars: nat := 80

  /** A word longer than the width is cut into width-sized pieces, the last
      one possibly shorter. */
  function Chop(w: string, width: nat): (r: seq<string>)
    requires width >= 1
    ensures Concat(r) == w
    ensures forall i :: 0 <= i < |r| ==> 0 < |r[i]| <= width
    decreases |w|
  {
    if |w| == 0 then []
    else if |w| <= width then
      assert Concat([w]) == w + "";
      [w]
    else
      var rest := Chop(w[width..], width);
      assert Concat([w[..width]] + rest) == w[..width] + Concat(rest);
      assert w == w[..width] + w[width..];
      [w[..width]] + rest
  }

  /** The words of a text, each cut to the width. */
  function Pieces(words: seq<string>, width: nat): (r: seq<string>)
    requires width >= 1
    ensures forall i :: 0 <= i < |r| ==> 0 < |r[i]| <= width
    decreases |words|
  {
    if |words| == 0 then []
    else
      var c := Chop(words[0], width);
      var rest := Pieces(words[1..], width);
      assert forall i :: |c| <= i < |c + rest| ==> (c + rest)[i] == rest[i - |c|];
      c + rest
  }

  lemma {:induction false} PiecesConcat(words: seq<string>, width: nat)
    requires width >= 1
    ensures Concat(Pieces(words, width)) == Concat(words)
    decreases |words|
  {
    if |words| > 0 {
      var c := Chop(words[0], width);
      var rest := Pieces(words[1..], width);
      PiecesConcat(words[1..], width);
      ConcatAppend(c, rest);
      assert Concat(words) == words[0] + Concat(words[1..]);
    }
  }

  lemma {:induction false} PiecesEmpty(words: seq<string>, width: nat)
    requires width >= 1
    requires forall i :: 0 <= i < |words| ==> IsWord(words[i])
    ensures Pieces(words, width) == [] <==> words == []
  {
    if |words| > 0 {
      assert IsWord(words[0]);
    }
  }

  /** `textwrap.wrap(text, width)`, as a greedy wrap of the text's words by
      character count, over-long words cut into width-sized pieces. */
  function BreakIntoLines(text: string, width: nat): seq<string>
    requires width >= 1
  {
    Pack(Pieces(Words(text), width), (s: string) => |s| <= width)
  }

  lemma VisibleIdempotent(s: string)
    ensures Visible(Visible(s)) == Visible(s)
  {
    VisibleOfVisible(s);
    VisibleOfWord(Visible(s));
  }

  lemma {:induction false} VisibleOfVisible(s: string)
    ensures forall i :: 0 <= i < |Visible(s)| ==> !IsSpace(Visible(s)[i])
    decreases |s|
  {
    if |s| > 0 {
      VisibleOfVisible(s[1..]);
    }
  }

  /** Caption lines: none is empty or longer than the width; there are none
      exactly when the text is blank; and together they show the text's
      visible characters in order, none lost or added. */
  lemma BreakIntoLinesSpec(text: string, width: nat)
    requires width >= 1
    ensures forall i :: 0 <= i < |BreakIntoLines(text, width)| ==>
      0 < |BreakIntoLines(text, width)[i]| <= width
    ensures BreakIntoLines(text, width) == [] <==> AllSpace(text)
    ensures Visible(Concat(BreakIntoLines(text, width))) == Visible(text)
  {
    var words := Words(text);
    var pieces := Pieces(words, width);
    var fits := (s: string) => |s| <= width;
    var gs := PackGroups(pieces, fits);
    var lines := BreakIntoLines(text, width);
    PackIsGreedy(pieces, fits);
    assert lines == JoinEach(gs);
    forall i | 0 <= i < |lines|
      ensures 0 < |lines[i]| <= width
    {
      var g := gs[i];
      assert GroupOk(g, fits);
      if |g| >= 2 {
        assert g[..|g|] == g;
        assert Join(g, " ") == g[0] + " " + Join(g[1..], " ");
      } else {
        FlattenMember(gs, i);
        assert g[0] in pieces;
        assert Join(g, " ") == g[0];
      }
    }
    WordsEmpty(text);
    PiecesEmpty(words, width);
    FlattenNonEmptyGroups(gs);
    VisibleJoinEach(gs);
    PiecesConcat(words, width);
    WordsConcat(text);
    VisibleIdempotent(text);
  }
}
