/** A folder listing as the pipeline reads it: the names with a given
    extension, put in Python's `sorted` order. The listing itself comes in
    no particular order; sorting makes every later step independent of it. */
module Listing {
  import opened Text

  /** `[f for f in names if f.endswith(suffix)]`. */
  function WithSuffix(names: seq<string>, suffix: string): (r: seq<string>)
    ensures forall f :: f in r <==> f in names && EndsWith(f, suffix)
    decreases |names|
  {
    if |names| == 0 then []
    else if EndsWith(names[0], suffix) then [names[0]] + WithSuffix(names[1..], suffix)
    else WithSuffix(names[1..], suffix)
  }

  /** The filter keeps every copy of a matching name and no copy of any
      other. */
  lemma {:induction false} WithSuffixCount(names: seq<string>, suffix: string, f: string)
    ensures multiset(WithSuffix(names, suffix))[f] == if EndsWith(f, suffix) then multiset(names)[f] else 0
    decreases |names|
  {
    if |names| > 0 {
      WithSuffixCount(names[1..], suffix, f);
      assert names == [names[0]] + names[1..];
    }
  }

  /** Listing the same names in another order keeps the same names. */
  lemma WithSuffixPermutation(a: seq<string>, b: seq<string>, suffix: string)
    requires multiset(a) == multiset(b)
    ensures multiset(WithSuffix(a, suffix)) == multiset(WithSuffix(b, suffix))
  {
    forall f
      ensures multiset(WithSuffix(a, suffix))[f] == multiset(WithSuffix(b, suffix))[f]
    {
      WithSuffixCount(a, suffix, f);
      WithSuffixCount(b, suffix, f);
    }
  }

  /** Names that do not end with the suffix add nothing. */
  lemma {:induction false} WithSuffixIgnores(names: seq<string>, other: string, suffix: string)
    requires !EndsWith(other, suffix)
    ensures WithSuffix(names + [other], suffix) == WithSuffix(names, suffix)
    decreases |names|
  {
    if |names| == 0 {
      assert names + [other] == [other];
    } else {
      assert (names + [other])[1..] == names[1..] + [other];
      WithSuffixIgnores(names[1..], other, suffix);
    }
  }

  // ---------------------------------------------------------------------
  // sorted

  /** No name is greater than a name after it. */
  predicate Sorted(s: seq<string>) {
    forall i, j :: 0 <= i < j < |s| ==> !LexLess(s[j], s[i])
  }

  /** "Not less than" chains. */
  lemma NotLessTransitive(a: string, b: string, c: string)
    requires !LexLess(b, a) && !LexLess(c, b)
    ensures !LexLess(c, a)
  {
    if LexLess(c, a) && a != b {
      LexLessTotal(a, b);
      LexLessTransitive(c, a, b);
    }
  }

  /** A name no greater than every name of a sorted sequence can go in
      front of it. */
  lemma ConsSorted(x: string, s: seq<string>)
    requires Sorted(s)
    requires forall k :: 0 <= k < |s| ==> !LexLess(s[k], x)
    ensures Sorted([x] + s)
  {
    var r := [x] + s;
    forall i, j | 0 <= i < j < |r|
      ensures !LexLess(r[j], r[i])
    {
      assert r[j] == s[j - 1];
      if i > 0 {
        assert r[i] == s[i - 1];
      }
    }
  }

  lemma SortedTail(s: seq<string>)
    requires Sorted(s) && |s| > 0
    ensures Sorted(s[1..])
  {
    var t := s[1..];
    forall i, j | 0 <= i < j < |t|
      ensures !LexLess(t[j], t[i])
    {
      assert t[i] == s[i + 1] && t[j] == s[j + 1];
    }
  }

  /** One step of insertion sort: `x` goes before the first name not less
      than it. */
  function Insert(x: string, s: seq<string>): (r: seq<string>)
    ensures multiset(r) == multiset(s) + multiset{x}
    decreases |s|
  {
    if s == [] || !LexLess(s[0], x) then [x] + s
    else
      assert s == [s[0]] + s[1..];
      [s[0]] + Insert(x, s[1..])
  }

  lemma {:induction false} InsertSorted(x: string, s: seq<string>)
    requires Sorted(s)
    ensures Sorted(Insert(x, s))
    decreases |s|
  {
    if s == [] || !LexLess(s[0], x) {
      forall k | 0 <= k < |s|
        ensures !LexLess(s[k], x)
      {
        if k > 0 {
          NotLessTransitive(x, s[0], s[k]);
        }
      }
      ConsSorted(x, s);
    } else {
      var t := Insert(x, s[1..]);
      SortedTail(s);
      InsertSorted(x, s[1..]);
      forall k | 0 <= k < |t|
        ensures !LexLess(t[k], s[0])
      {
        assert t[k] in multiset(t);
        if t[k] == x {
          LexLessAsymmetric(s[0], x);
        } else {
          assert t[k] in multiset(s[1..]);
          var m :| 0 <= m < |s[1..]| && s[1..][m] == t[k];
          assert s[m + 1] == t[k];
        }
      }
      ConsSorted(s[0], t);
    }
  }

  /** `sorted(names)`: the same names, in ascending order. */
  function SortNames(s: seq<string>): (r: seq<string>)
    ensures multiset(r) == multiset(s)
    ensures Sorted(r)
    decreases |s|
  {
    if s == [] then []
    else
      var t := SortNames(s[1..]);
      InsertSorted(s[0], t);
      assert s == [s[0]] + s[1..];
      Insert(s[0], t)
  }

  /** A sorted arrangement of a collection of names is unique. */
  lemma {:induction false} SortedUnique(a: seq<string>, b: seq<string>)
    requires Sorted(a) && Sorted(b)
    requires multiset(a) == multiset(b)
    ensures a == b
    decreases |a|
  {
    if |a| > 0 {
      assert a[0] in multiset(b);
      assert b[0] in multiset(a);
      SortedHeadLeast(b, a[0]);
      SortedHeadLeast(a, b[0]);
      if a[0] != b[0] {
        LexLessTotal(a[0], b[0]);
      }
      DropHead(a, b);
      SortedTail(a);
      SortedTail(b);
      SortedUnique(a[1..], b[1..]);
      assert a == [a[0]] + a[1..];
      assert b == [b[0]] + b[1..];
    }
  }

  /** The first name of a sorted sequence is no greater than any of its
      names. */
  lemma SortedHeadLeast(s: seq<string>, x: string)
    requires Sorted(s) && x in s
    ensures !LexLess(x, s[0])
  {
    var k :| 0 <= k < |s| && s[k] == x;
    if k > 0 {
      assert !LexLess(s[k], s[0]);
    } else {
      LexLessIrreflexive(x);
    }
  }

  lemma DropHead(a: seq<string>, b: seq<string>)
    requires |a| > 0 && |b| > 0 && a[0] == b[0]
    requires multiset(a) == multiset(b)
    ensures multiset(a[1..]) == multiset(b[1..])
  {
    assert a == [a[0]] + a[1..];
    assert b == [b[0]] + b[1..];
    forall f
      ensures multiset(a[1..])[f] == multiset(b[1..])[f]
    {
      assert multiset(a)[f] == multiset([a[0]])[f] + multiset(a[1..])[f];
      assert multiset(b)[f] == multiset([b[0]])[f] + multiset(b[1..])[f];
    }
  }

  /** Sorting forgets the order of the listing. */
  lemma SortIndependent(a: seq<string>, b: seq<string>)
    requires multiset(a) == multiset(b)
    ensures SortNames(a) == SortNames(b)
  {
    SortedUnique(SortNames(a), SortNames(b));
  }

  /** The sorted names with the suffix, whatever the order of the
      listing. */
  function Listed(names: seq<string>, suffix: string): (r: seq<string>)
    ensures Sorted(r)
    ensures forall f :: f in r <==> f in names && EndsWith(f, suffix)
  {
    var kept := WithSuffix(names, suffix);
    var r := SortNames(kept);
    assert forall f :: f in r <==> f in multiset(kept);
    r
  }

  /** Two listings of the same folder give the same names in the same
      order. */
  lemma ListedIndependent(a: seq<string>, b: seq<string>, suffix: string)
    requires multiset(a) == multiset(b)
    ensures Listed(a, suffix) == Listed(b, suffix)
  {
    WithSuffixPermutation(a, b, suffix);
    SortIndependent(WithSuffix(a, suffix), WithSuffix(b, suffix));
  }

  /** A listing already in ascending order is its own sorted form. */
  lemma SortedFixed(s: seq<string>)
    requires Sorted(s)
    ensures SortNames(s) == s
  {
    SortedUnique(SortNames(s), s);
  }
}
