/** Character classes and the handful of Python string operations the
    pipeline relies on (strip, split, join, find, startswith, ...), written
    over `string == seq<char>`. Character classes are the ASCII subset of
    Python's Unicode ones. */
module Text {
  import opened Seqs

  /** `str.isspace` on ASCII: tab, line feed, vertical tab, form feed,
      carriage return, the separators 0x1C..0x1F, and space. */
  predicate IsSpace(c: char) {
    c == ' ' || '\t' <= c <= '\r' || '\U{1C}' <= c <= '\U{1F}'
  }

  predicate IsDigit(c: char) { '0' <= c <= '9' }

  predicate IsUpper(c: char) { 'A' <= c <= 'Z' }

  predicate IsLower(c: char) { 'a' <= c <= 'z' }

  /** The regex class `\w`: letters, digits and underscore. */
  predicate IsWordChar(c: char) { IsDigit(c) || IsUpper(c) || IsLower(c) || c == '_' }

  function ToUpper(c: char): char {
    if IsLower(c) then (c as int - 32) as char else c
  }

  function ToLower(c: char): char {
    if IsUpper(c) then (c as int + 32) as char else c
  }

  function Upper(s: string): (r: string)
    ensures |r| == |s|
    ensures forall i :: 0 <= i < |s| ==> r[i] == ToUpper(s[i])
  {
    seq(|s|, i requires 0 <= i < |s| => ToUpper(s[i]))
  }

  function Lower(s: string): (r: string)
    ensures |r| == |s|
    ensures forall i :: 0 <= i < |s| ==> r[i] == ToLower(s[i])
  {
    seq(|s|, i requires 0 <= i < |s| => ToLower(s[i]))
  }

  predicate AllSpace(s: string) {
    forall i :: 0 <= i < |s| ==> IsSpace(s[i])
  }

  predicate AllDigits(s: string) {
    forall i :: 0 <= i < |s| ==> IsDigit(s[i])
  }

  // ---------------------------------------------------------------------
  // strip

  /** Number of leading characters satisfying `p`. */
  function LeadingCount(s: string, p: char -> bool): (n: nat)
    ensures n <= |s|
    ensures forall i :: 0 <= i < n ==> p(s[i])
    ensures n < |s| ==> !p(s[n])
  {
    if |s| == 0 || !p(s[0]) then 0 else 1 + LeadingCount(s[1..], p)
  }

  /** The leading run is exactly the first `k` characters when they satisfy
      `p` and the next one does not. */
  lemma LeadingCountIs(s: string, p: char -> bool, k: nat)
    requires k <= |s|
    requires forall i :: 0 <= i < k ==> p(s[i])
    requires k == |s| || !p(s[k])
    ensures LeadingCount(s, p) == k
    decreases k
  {
    if k > 0 {
      LeadingCountIs(s[1..], p, k - 1);
    }
  }

  /** Index after the last character not satisfying `p` (0 if none). */
  function TrailingStart(s: string, p: char -> bool): (n: nat)
    ensures n <= |s|
    ensures forall i :: n <= i < |s| ==> p(s[i])
    ensures n > 0 ==> !p(s[n - 1])
  {
    if |s| == 0 || !p(s[|s| - 1]) then |s| else TrailingStart(s[..|s| - 1], p)
  }

  /** The trailing run is exactly the characters from `k` on when they
      satisfy `p` and the one before does not. */
  lemma TrailingStartIs(s: string, p: char -> bool, k: nat)
    requires k <= |s|
    requires forall i :: k <= i < |s| ==> p(s[i])
    requires k == 0 || !p(s[k - 1])
    ensures TrailingStart(s, p) == k
    decreases |s| - k
  {
    if k < |s| {
      assert forall i :: k <= i < |s| - 1 ==> s[..|s| - 1][i] == s[i];
      TrailingStartIs(s[..|s| - 1], p, k);
    }
  }

  /** `s.strip(chars)`: drop the characters satisfying `p` from both ends. */
  function StripWhere(s: string, p: char -> bool): (r: string)
    ensures |r| <= |s|
    ensures r == [] || (!p(r[0]) && !p(r[|r| - 1]))
    ensures (forall i :: 0 <= i < |s| ==> p(s[i])) <==> r == []
  {
    var t := s[LeadingCount(s, p)..];
    var r := t[..TrailingStart(t, p)];
    assert r != [] ==> !p(r[0]) by {
      if r != [] { assert r[0] == t[0]; }
    }
    assert (exists i :: 0 <= i < |s| && !p(s[i])) ==> r != [] by {
      if exists i :: 0 <= i < |s| && !p(s[i]) {
        var i :| 0 <= i < |s| && !p(s[i]);
        assert LeadingCount(s, p) <= i;
        assert !p(t[i - LeadingCount(s, p)]);
      }
    }
    r
  }

  /** `s.strip()`. */
  function Strip(s: string): (r: string)
    ensures |r| <= |s|
    ensures r == [] || (!IsSpace(r[0]) && !IsSpace(r[|r| - 1]))
    ensures AllSpace(s) <==> r == []
  {
    StripWhere(s, IsSpace)
  }

  /** `s.lstrip()`. */
  function LStrip(s: string): (r: string)
    ensures r == [] || !IsSpace(r[0])
  {
    s[LeadingCount(s, IsSpace)..]
  }

  /** `s.rstrip()`. */
  function RStrip(s: string): (r: string)
    ensures r == [] || !IsSpace(r[|r| - 1])
  {
    s[..TrailingStart(s, IsSpace)]
  }

  /** No whitespace at either end: what `strip()` returns. */
  predicate Trimmed(s: string) {
    s == [] || (!IsSpace(s[0]) && !IsSpace(s[|s| - 1]))
  }

  /** `strip()` is the identity exactly on trimmed strings. */
  lemma StripTrimmed(s: string)
    ensures Trimmed(Strip(s))
    ensures Strip(s) == s <==> Trimmed(s)
  {
    if Trimmed(s) {
      StripWhereNoop(s, IsSpace);
    }
  }

  lemma StripWhereNoop(s: string, p: char -> bool)
    requires s == [] || (!p(s[0]) && !p(s[|s| - 1]))
    ensures StripWhere(s, p) == s
  {
  }

  // ---------------------------------------------------------------------
  // join, find, split

  /** `sep.join(parts)`. */
  function Join(parts: seq<string>, sep: string): string
    decreases |parts|
  {
    if |parts| == 0 then ""
    else if |parts| == 1 then parts[0]
    else parts[0] + sep + Join(parts[1..], sep)
  }

  lemma JoinTwo(parts: seq<string>, sep: string)
    requires |parts| == 2
    ensures Join(parts, sep) == parts[0] + sep + parts[1]
  {
    assert Join(parts[1..], sep) == parts[1];
  }

  lemma JoinThree(parts: seq<string>, sep: string)
    requires |parts| == 3
    ensures Join(parts, sep) == parts[0] + sep + parts[1] + sep + parts[2]
  {
    JoinTwo(parts[1..], sep);
  }

  /** `"".join(parts)`. */
  function Concat(parts: seq<string>): string
    decreases |parts|
  {
    if |parts| == 0 then "" else parts[0] + Concat(parts[1..])
  }

  predicate OccursAt(s: string, sub: string, k: nat) {
    k + |sub| <= |s| && s[k..k + |sub|] == sub
  }

  /** `sub in s`. */
  predicate Contains(s: string, sub: string) {
    exists k: nat | k <= |s| :: OccursAt(s, sub, k)
  }

  predicate StartsWith(s: string, prefix: string) {
    |prefix| <= |s| && s[..|prefix|] == prefix
  }

  predicate EndsWith(s: string, suffix: string) {
    |suffix| <= |s| && s[|s| - |suffix|..] == suffix
  }

  /** First occurrence of `sub` at or after `k`, or `|s|` when there is none. */
  function FindFrom(s: string, sub: string, k: nat): (r: nat)
    requires |sub| > 0
    requires k <= |s|
    ensures k <= r <= |s|
    ensures r < |s| ==> OccursAt(s, sub, r)
    ensures forall j: nat :: k <= j < r ==> !OccursAt(s, sub, j)
    decreases |s| - k
  {
    if k == |s| then |s|
    else if OccursAt(s, sub, k) then k
    else FindFrom(s, sub, k + 1)
  }

  lemma FindFromIs(s: string, sub: string, k: nat, m: nat)
    requires |sub| > 0
    requires k <= m <= |s|
    requires m == |s| || OccursAt(s, sub, m)
    requires forall j: nat :: k <= j < m ==> !OccursAt(s, sub, j)
    ensures FindFrom(s, sub, k) == m
    decreases m - k
  {
    if k < m {
      FindFromIs(s, sub, k + 1, m);
    }
  }

  lemma FindFromNone(s: string, sub: string)
    requires |sub| > 0
    ensures FindFrom(s, sub, 0) == |s| <==> !Contains(s, sub)
  {
    if FindFrom(s, sub, 0) < |s| {
      assert OccursAt(s, sub, FindFrom(s, sub, 0));
    }
  }

  /** `s.split(sep)` for a non-empty separator: leftmost non-overlapping
      occurrences. */
  function Split(s: string, sep: string): (r: seq<string>)
    requires |sep| > 0
    ensures |r| >= 1
    decreases |s|
  {
    var k := FindFrom(s, sep, 0);
    if k == |s| then [s] else [s[..k]] + Split(s[k + |sep|..], sep)
  }

  /** `p` followed by the separator contains no occurrence of the separator
      starting inside `p`: splitting `p + sep + rest` cuts exactly after `p`. */
  predicate Separable(p: string, sep: string) {
    forall k: nat :: k < |p| ==> !OccursAt(p + sep, sep, k)
  }

  /** Splitting a join gives back the parts when no part interferes with the
      separator. */
  lemma {:induction false} SplitJoin(parts: seq<string>, sep: string)
    requires |sep| > 0
    requires |parts| >= 1
    requires forall i :: 0 <= i < |parts| ==> Separable(parts[i], sep)
    ensures Split(Join(parts, sep), sep) == parts
    decreases |parts|
  {
    var p := parts[0];
    if |parts| == 1 {
      forall j: nat | j < |p|
        ensures !OccursAt(p, sep, j)
      {
        assert !OccursAt(p + sep, sep, j);
        if j + |sep| <= |p| {
          assert (p + sep)[j..j + |sep|] == p[j..j + |sep|];
        }
      }
      FindFromIs(p, sep, 0, |p|);
    } else {
      var rest := Join(parts[1..], sep);
      var s := p + sep + rest;
      assert Join(parts, sep) == s;
      forall j: nat | j < |p|
        ensures !OccursAt(s, sep, j)
      {
        assert !OccursAt(p + sep, sep, j);
        assert s[j..j + |sep|] == (p + sep)[j..j + |sep|];
      }
      assert s[|p|..|p| + |sep|] == sep;
      FindFromIs(s, sep, 0, |p|);
      assert s[..|p|] == p;
      assert s[|p| + |sep|..] == rest;
      SplitJoin(parts[1..], sep);
    }
  }

  /** Joining the pieces of a split with the same separator gives back the
      string. */
  lemma {:induction false} JoinSplit(s: string, sep: string)
    requires |sep| > 0
    ensures Join(Split(s, sep), sep) == s
    decreases |s|
  {
    var k := FindFrom(s, sep, 0);
    if k < |s| {
      var rest := s[k + |sep|..];
      var tail := Split(rest, sep);
      JoinSplit(rest, sep);
      assert Split(s, sep) == [s[..k]] + tail;
      assert Join(Split(s, sep), sep) == s[..k] + sep + Join(tail, sep);
      assert s == s[..k] + s[k..k + |sep|] + rest;
    }
  }

  lemma SeparableSingle(p: string, c: char)
    requires c !in p
    ensures Separable(p, [c])
  {
    forall k: nat | k < |p|
      ensures !OccursAt(p + [c], [c], k)
    {
      assert (p + [c])[k] == p[k];
    }
  }

  lemma SplitNoSep(s: string, c: char)
    requires c !in s
    ensures Split(s, [c]) == [s]
  {
    forall j: nat | j < |s|
      ensures !OccursAt(s, [c], j)
    {
      assert s[j..j + 1] == [s[j]];
    }
    FindFromIs(s, [c], 0, |s|);
  }

  // ---------------------------------------------------------------------
  // character maps and filters

  /** `s.replace(a, b)` for single characters. */
  function ReplaceChar(s: string, a: char, b: char): (r: string)
    ensures |r| == |s|
    ensures forall i :: 0 <= i < |s| ==> r[i] == (if s[i] == a then b else s[i])
  {
    seq(|s|, i requires 0 <= i < |s| => if s[i] == a then b else s[i])
  }

  predicate IsVisible(c: char) { !IsSpace(c) }

  /** The non-whitespace characters of `s`, in order: the text a reader
      sees, whatever the spacing. */
  function Visible(s: string): string
    decreases |s|
  {
    if |s| == 0 then ""
    else if IsSpace(s[0]) then Visible(s[1..])
    else [s[0]] + Visible(s[1..])
  }

  lemma {:induction false} VisibleAppend(a: string, b: string)
    ensures Visible(a + b) == Visible(a) + Visible(b)
    decreases |a|
  {
    if |a| > 0 {
      assert (a + b)[1..] == a[1..] + b;
      VisibleAppend(a[1..], b);
    } else {
      assert a + b == b;
    }
  }

  lemma {:induction false} VisibleOfSpaces(s: string)
    requires AllSpace(s)
    ensures Visible(s) == ""
    decreases |s|
  {
    if |s| > 0 {
      VisibleOfSpaces(s[1..]);
    }
  }

  /** Text without whitespace is all visible. */
  lemma {:induction false} VisibleOfWord(s: string)
    requires forall i :: 0 <= i < |s| ==> !IsSpace(s[i])
    ensures Visible(s) == s
    decreases |s|
  {
    if |s| > 0 {
      VisibleOfWord(s[1..]);
    }
  }

  /** Stripping only ever removes whitespace. */
  lemma VisibleStrip(s: string)
    ensures Visible(Strip(s)) == Visible(s)
  {
    var l := LeadingCount(s, IsSpace);
    var t := s[l..];
    var e := TrailingStart(t, IsSpace);
    assert Strip(s) == t[..e];
    VisibleSplitAt(s, l);
    VisibleSplitAt(t, e);
    SpacePrefix(s, l);
    SpaceSuffix(t, e);
  }

  lemma VisibleSplitAt(s: string, k: nat)
    requires k <= |s|
    ensures Visible(s) == Visible(s[..k]) + Visible(s[k..])
  {
    assert s == s[..k] + s[k..];
    VisibleAppend(s[..k], s[k..]);
  }

  lemma SpacePrefix(s: string, l: nat)
    requires l == LeadingCount(s, IsSpace)
    ensures Visible(s[..l]) == ""
  {
    VisibleOfSpaces(s[..l]);
  }

  lemma SpaceSuffix(t: string, e: nat)
    requires e == TrailingStart(t, IsSpace)
    ensures Visible(t[e..]) == ""
  {
    VisibleOfSpaces(t[e..]);
  }

  lemma VisibleConcatCons(p: string, rest: seq<string>)
    ensures Concat([p] + rest) == p + Concat(rest)
  {
    assert ([p] + rest)[1..] == rest;
  }

  lemma ConcatAppend(a: seq<string>, b: seq<string>)
    ensures Concat(a + b) == Concat(a) + Concat(b)
  {
    if |a| > 0 {
      assert (a + b)[1..] == a[1..] + b;
      ConcatAppend(a[1..], b);
    } else {
      assert a + b == b;
    }
  }

  /** Joining with spaces adds nothing visible. */
  lemma VisibleJoinSpace(parts: seq<string>)
    ensures Visible(Join(parts, " ")) == Visible(Concat(parts))
  {
    if |parts| > 1 {
      VisibleJoinSpace(parts[1..]);
      VisibleAppend(parts[0] + " ", Join(parts[1..], " "));
      VisibleAppend(parts[0], " ");
      VisibleOfSpaces(" ");
      VisibleAppend(parts[0], Concat(parts[1..]));
    } else if |parts| == 1 {
      assert Concat(parts[1..]) == "";
      assert Concat(parts) == parts[0] + "";
      assert parts[0] + "" == parts[0];
    }
  }

  // ---------------------------------------------------------------------
  // lexicographic order (Python's `<` on str, by code point)

  predicate LexLess(a: string, b: string)
    decreases |a|
  {
    |b| > 0 && (|a| == 0 || a[0] < b[0] || (a[0] == b[0] && LexLess(a[1..], b[1..])))
  }

  lemma LexLessIrreflexive(a: string)
    ensures !LexLess(a, a)
  {
  }

  lemma LexLessTransitive(a: string, b: string, c: string)
    requires LexLess(a, b) && LexLess(b, c)
    ensures LexLess(a, c)
  {
    if |a| > 0 && a[0] == b[0] && b[0] == c[0] {
      LexLessTransitive(a[1..], b[1..], c[1..]);
    }
  }

  lemma LexLessTotal(a: string, b: string)
    requires a != b
    ensures LexLess(a, b) || LexLess(b, a)
  {
    if |a| > 0 && |b| > 0 && a[0] == b[0] {
      assert a == [a[0]] + a[1..];
      assert b == [b[0]] + b[1..];
      LexLessTotal(a[1..], b[1..]);
    }
  }

  lemma LexLessAsymmetric(a: string, b: string)
    requires LexLess(a, b)
    ensures !LexLess(b, a)
  {
    if |a| > 0 && a[0] == b[0] {
      LexLessAsymmetric(a[1..], b[1..]);
    }
  }

  /** A common prefix does not change the order. */
  lemma LexLessPrefix(p: string, a: string, b: string)
    ensures LexLess(p + a, p + b) <==> LexLess(a, b)
  {
    if |p| > 0 {
      assert (p + a)[1..] == p[1..] + a;
      assert (p + b)[1..] == p[1..] + b;
      LexLessPrefix(p[1..], a, b);
    } else {
      assert p + a == a;
      assert p + b == b;
    }
  }

  /** Strings of equal length compare the same after a common suffix. */
  lemma LexLessSuffix(a: string, b: string, x: string)
    requires |a| == |b|
    ensures LexLess(a + x, b + x) <==> LexLess(a, b)
  {
    if |a| > 0 {
      assert (a + x)[1..] == a[1..] + x;
      assert (b + x)[1..] == b[1..] + x;
      LexLessSuffix(a[1..], b[1..], x);
    } else {
      assert a + x == x && b + x == x;
      LexLessIrreflexive(x);
    }
  }

  /** Strings of equal length that compare one way still do after anything
      is appended to each. */
  lemma LexLessEqualLength(a: string, b: string, x: string, y: string)
    requires |a| == |b| && LexLess(a, b)
    ensures LexLess(a + x, b + y)
  {
    if a[0] == b[0] {
      assert (a + x)[1..] == a[1..] + x;
      assert (b + y)[1..] == b[1..] + y;
      LexLessEqualLength(a[1..], b[1..], x, y);
    }
  }

  // ---------------------------------------------------------------------
  // paths

  /** `os.path.join(a, b)` for two POSIX components. */
  function PathJoin(a: string, b: string): (r: string)
    ensures StartsWith(b, "/") ==> r == b
    ensures !StartsWith(b, "/") ==> EndsWith(r, b)
  {
    if StartsWith(b, "/") then b
    else if a == "" || EndsWith(a, "/") then a + b
    else a + "/" + b
  }

  /** `os.path.basename(p)`: everything after the last '/'. */
  function Basename(p: string): (r: string)
    ensures '/' !in r
    ensures EndsWith(p, r)
    decreases |p|
  {
    if |p| == 0 then ""
    else if p[|p| - 1] == '/' then ""
    else Basename(p[..|p| - 1]) + [p[|p| - 1]]
  }

  lemma BasenameAfterSlash(dir: string, name: string)
    requires '/' !in name
    ensures Basename(dir + "/" + name) == name
    decreases |name|
  {
    var p := dir + "/" + name;
    if |name| == 0 {
      assert p == dir + "/";
      assert p[|p| - 1] == '/';
    } else {
      var n := name[..|name| - 1];
      var c := name[|name| - 1];
      assert name == n + [c];
      assert p == (dir + "/" + n) + [c];
      assert p[..|p| - 1] == dir + "/" + n;
      assert c in name;
      BasenameAfterSlash(dir, n);
    }
  }

  lemma VisibleConcatAppend(a: seq<string>, b: seq<string>)
    ensures Visible(Concat(a + b)) == Visible(Concat(a)) + Visible(Concat(b))
  {
    ConcatAppend(a, b);
    VisibleAppend(Concat(a), Concat(b));
  }

  /** Each group of words joined by single spaces. */
  function JoinEach(g: seq<seq<string>>): (r: seq<string>)
    ensures |r| == |g|
    ensures forall i :: 0 <= i < |g| ==> r[i] == Join(g[i], " ")
  {
    seq(|g|, i requires 0 <= i < |g| => Join(g[i], " "))
  }

  /** Joining each group with spaces shows the same text as the flattened
      groups. */
  lemma {:induction false} VisibleJoinEach(g: seq<seq<string>>)
    ensures Visible(Concat(JoinEach(g))) == Visible(Concat(Flatten(g)))
    decreases |g|
  {
    if |g| > 0 {
      var c := JoinEach(g);
      var c' := JoinEach(g[1..]);
      assert c == [Join(g[0], " ")] + c';
      VisibleJoinEach(g[1..]);
      VisibleConcatCons(Join(g[0], " "), c');
      VisibleAppend(Join(g[0], " "), Concat(c'));
      VisibleJoinSpace(g[0]);
      FlattenCons(g[0], g[1..]);
      assert g == [g[0]] + g[1..];
      VisibleConcatAppend(g[0], Flatten(g[1..]));
    }
  }
}
