/** Generic sequence helpers: mapping, flattening and sums. */
module Seqs {

  /** `[f(x) for x in xs]`. */
  function Map<T, U>(f: T -> U, xs: seq<T>): (r: seq<U>)
    ensures |r| == |xs|
    decreases |xs|
  {
    if xs == [] then [] else [f(xs[0])] + Map(f, xs[1..])
  }

  lemma {:induction false} MapAppend<T, U>(f: T -> U, a: seq<T>, b: seq<T>)
    ensures Map(f, a + b) == Map(f, a) + Map(f, b)
    decreases |a|
  {
    if a == [] {
      assert a + b == b;
    } else {
      assert (a + b)[1..] == a[1..] + b;
      MapAppend(f, a[1..], b);
    }
  }

  function Flatten<T>(xss: seq<seq<T>>): (r: seq<T>)
    decreases |xss|
  {
    if |xss| == 0 then [] else xss[0] + Flatten(xss[1..])
  }

  lemma FlattenAppend<T>(a: seq<seq<T>>, b: seq<seq<T>>)
    ensures Flatten(a + b) == Flatten(a) + Flatten(b)
  {
    if |a| > 0 {
      assert (a + b)[1..] == a[1..] + b;
      FlattenAppend(a[1..], b);
    } else {
      assert a + b == b;
    }
  }

  lemma FlattenCons<T>(x: seq<T>, rest: seq<seq<T>>)
    ensures Flatten([x] + rest) == x + Flatten(rest)
  {
    assert ([x] + rest)[1..] == rest;
  }

  /** Every element of a flattening comes from one of the flattened parts. */
  lemma {:induction false} FlattenIndex<T>(xss: seq<seq<T>>, i: nat)
    requires i < |Flatten(xss)|
    ensures exists k :: 0 <= k < |xss| && Flatten(xss)[i] in xss[k]
    decreases |xss|
  {
    if i < |xss[0]| {
      assert Flatten(xss)[i] == xss[0][i];
    } else {
      FlattenIndex(xss[1..], i - |xss[0]|);
      var k :| 0 <= k < |xss| - 1 && Flatten(xss[1..])[i - |xss[0]|] in xss[1..][k];
      assert xss[1..][k] == xss[k + 1];
    }
  }

  /** Two conservation steps chain: if `a` and `c1` split `c0 + l0`, and
      `b` and `c2` split `c1 + ls`, then `a`, `b`, `c2` split `c0 + l0 + ls`. */
  lemma AppendChain<T>(a: seq<T>, b: seq<T>, c0: seq<T>, c1: seq<T>, c2: seq<T>, l0: seq<T>, ls: seq<T>)
    requires a + c1 == c0 + l0
    requires b + c2 == c1 + ls
    ensures a + b + c2 == c0 + (l0 + ls)
  {
    calc {
      a + b + c2;
      a + (b + c2);
      a + (c1 + ls);
      (a + c1) + ls;
    }
  }

  /** The four pieces of a four-part concatenation, read back by slicing. */
  lemma Slices4<T>(a: seq<T>, b: seq<T>, c: seq<T>, d: seq<T>)
    ensures var s := a + b + c + d;
      s[..|a|] == a && s[|a|..|a| + |b|] == b && s[|a| + |b|..|a| + |b| + |c|] == c &&
      s[|a| + |b| + |c|..] == d
  {
  }

  function Sum(xs: seq<real>): real
    decreases |xs|
  {
    if |xs| == 0 then 0.0 else xs[0] + Sum(xs[1..])
  }

  lemma SumAppend(a: seq<real>, b: seq<real>)
    ensures Sum(a + b) == Sum(a) + Sum(b)
  {
    if |a| > 0 {
      assert (a + b)[1..] == a[1..] + b;
      SumAppend(a[1..], b);
    } else {
      assert a + b == b;
    }
  }

  lemma SumSnoc(a: seq<real>, x: real)
    ensures Sum(a + [x]) == Sum(a) + x
  {
    SumAppend(a, [x]);
  }

  function SumNat(xs: seq<nat>): nat
    decreases |xs|
  {
    if |xs| == 0 then 0 else xs[0] + SumNat(xs[1..])
  }

  lemma SumNatAppend(a: seq<nat>, b: seq<nat>)
    ensures SumNat(a + b) == SumNat(a) + SumNat(b)
  {
    if |a| > 0 {
      assert (a + b)[1..] == a[1..] + b;
      SumNatAppend(a[1..], b);
    } else {
      assert a + b == b;
    }
  }
}
