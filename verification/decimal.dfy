/** Decimal numerals: Python's `str(n)`, `int(s)` on digit strings, and the
    zero-padded format `f"{n:0wd}"`, with the facts the pipeline's naming
    and timestamp rules depend on. */
module Decimal {
  import opened Text

  function Pow10(n: nat): (r: nat)
    ensures r >= 1
  {
    if n == 0 then 1 else 10 * Pow10(n - 1)
  }

  lemma Pow10Monotone(a: nat, b: nat)
    requires a <= b
    ensures Pow10(a) <= Pow10(b)
    decreases b
  {
    if a < b {
      Pow10Monotone(a, b - 1);
    }
  }

  function DigitChar(d: nat): (c: char)
    requires d < 10
    ensures IsDigit(c)
  {
    ('0' as int + d) as char
  }

  function DigitValue(c: char): (d: nat)
    requires IsDigit(c)
    ensures d < 10
  {
    c as int - '0' as int
  }

  lemma LeadingDigitBound(d: nat, p: nat, rest: nat)
    requires d < 10 && rest < p
    ensures d * p + rest < 10 * p
    ensures d * p + rest >= d * p
  {
  }

  /** `int(s)` for a string of ASCII digits (the empty string reads as 0). */
  function DigitsValue(s: string): (v: nat)
    requires AllDigits(s)
    ensures v < Pow10(|s|)
  {
    if |s| == 0 then 0
    else
      var rest := DigitsValue(s[1..]);
      LeadingDigitBound(DigitValue(s[0]), Pow10(|s| - 1), rest);
      DigitValue(s[0]) * Pow10(|s| - 1) + rest
  }

  lemma DigitsValueAppend(s: string, c: char)
    requires AllDigits(s) && IsDigit(c)
    ensures AllDigits(s + [c])
    ensures DigitsValue(s + [c]) == DigitsValue(s) * 10 + DigitValue(c)
  {
    if |s| > 0 {
      var t := s + [c];
      assert t[1..] == s[1..] + [c];
      assert t[0] == s[0];
      DigitsValueAppend(s[1..], c);
      var d0, p, r := DigitValue(s[0]), Pow10(|s| - 1), DigitsValue(s[1..]);
      assert Pow10(|t| - 1) == 10 * p;
      assert DigitsValue(t) == d0 * (10 * p) + (r * 10 + DigitValue(c));
      ShiftDigit(d0, p, r);
    } else {
      assert s + [c] == [c];
    }
  }

  lemma ShiftDigit(d: nat, p: nat, r: nat)
    ensures d * (10 * p) + r * 10 == (d * p + r) * 10
  {
  }

  lemma MulLe(a: nat, b: nat, p: nat)
    requires a <= b
    ensures a * p <= b * p
  {
  }

  /** A smaller leading digit gives a smaller numeral, whatever follows. */
  lemma LeadingDigitLess(x: nat, y: nat, x': nat, y': nat, p: nat)
    requires y < p && x < x'
    ensures x * p + y < x' * p + y'
  {
    assert x * p + y < (x + 1) * p;
    MulLe(x + 1, x', p);
  }

  /** A leading digit is pinned down by the value of the numeral. */
  lemma LeadingDigitUnique(x: nat, y: nat, x': nat, y': nat, p: nat)
    requires y < p && y' < p
    requires x * p + y == x' * p + y'
    ensures x == x' && y == y'
  {
    if x < x' {
      LeadingDigitLess(x, y, x', y', p);
    } else if x' < x {
      LeadingDigitLess(x', y', x, y, p);
    }
  }

  /** `str(n)`: the shortest decimal numeral of `n`. */
  function NatToString(n: nat): (r: string)
    ensures |r| >= 1 && AllDigits(r)
    ensures |r| > 1 ==> r[0] != '0'
    decreases n
  {
    if n < 10 then [DigitChar(n)]
    else
      var p := NatToString(n / 10);
      assert (p + [DigitChar(n % 10)])[0] == p[0];
      p + [DigitChar(n % 10)]
  }

  lemma {:induction false} NatToStringValue(n: nat)
    ensures DigitsValue(NatToString(n)) == n
    decreases n
  {
    if n >= 10 {
      NatToStringValue(n / 10);
      DigitsValueAppend(NatToString(n / 10), DigitChar(n % 10));
    }
  }

  /** A numeral without a redundant leading zero has the length its value
      needs: at least 10^(len-1) and below 10^len. */
  lemma {:induction false} NatToStringLength(n: nat)
    ensures n < Pow10(|NatToString(n)|)
    ensures |NatToString(n)| > 1 ==> Pow10(|NatToString(n)| - 1) <= n
  {
    var r := NatToString(n);
    NatToStringValue(n);
    if |r| > 1 {
      LeadingDigitAtLeast(r);
    }
  }

  /** A numeral whose first digit is not zero is at least 10^(len-1). */
  lemma LeadingDigitAtLeast(s: string)
    requires AllDigits(s) && |s| >= 1 && s[0] != '0'
    ensures DigitsValue(s) >= Pow10(|s| - 1)
  {
    assert DigitValue(s[0]) >= 1;
    MulLe(1, DigitValue(s[0]), Pow10(|s| - 1));
  }

  /** Two numerals of the same length and value are the same string. */
  lemma {:induction false} SameValueSameDigits(a: string, b: string)
    requires AllDigits(a) && AllDigits(b) && |a| == |b|
    requires DigitsValue(a) == DigitsValue(b)
    ensures a == b
    decreases |a|
  {
    if |a| > 0 {
      LeadingDigitUnique(DigitValue(a[0]), DigitsValue(a[1..]), DigitValue(b[0]), DigitsValue(b[1..]), Pow10(|a| - 1));
      assert a[0] == b[0];
      SameValueSameDigits(a[1..], b[1..]);
      assert a == [a[0]] + a[1..];
      assert b == [b[0]] + b[1..];
    }
  }

  /** On numerals of equal length, string order is numeric order. */
  lemma {:induction false} LexLessDigits(a: string, b: string)
    requires AllDigits(a) && AllDigits(b) && |a| == |b|
    ensures LexLess(a, b) <==> DigitsValue(a) < DigitsValue(b)
    decreases |a|
  {
    if |a| > 0 {
      if a[0] == b[0] {
        LexLessDigits(a[1..], b[1..]);
        SameLeadingDigit(a, b);
      } else {
        DifferentLeadingDigit(a, b);
      }
    }
  }

  /** Numerals of equal length with the same first digit compare as their
      tails. */
  lemma SameLeadingDigit(a: string, b: string)
    requires AllDigits(a) && AllDigits(b) && |a| == |b| > 0 && a[0] == b[0]
    ensures DigitsValue(a) < DigitsValue(b) <==> DigitsValue(a[1..]) < DigitsValue(b[1..])
  {
  }

  /** Numerals of equal length with different first digits compare as those
      digits. */
  lemma DifferentLeadingDigit(a: string, b: string)
    requires AllDigits(a) && AllDigits(b) && |a| == |b| > 0 && a[0] != b[0]
    ensures DigitsValue(a) < DigitsValue(b) <==> a[0] < b[0]
  {
    if a[0] < b[0] {
      SmallerLeadingDigit(a, b);
    } else {
      SmallerLeadingDigit(b, a);
    }
  }

  lemma SmallerLeadingDigit(a: string, b: string)
    requires AllDigits(a) && AllDigits(b) && |a| == |b| > 0 && a[0] < b[0]
    ensures DigitsValue(a) < DigitsValue(b)
  {
    DigitsValueHead(a);
    DigitsValueHead(b);
    LeadingDigitLess(DigitValue(a[0]), DigitsValue(a[1..]), DigitValue(b[0]), DigitsValue(b[1..]), Pow10(|a| - 1));
  }

  /** The value of a numeral splits at its first digit. */
  lemma DigitsValueHead(a: string)
    requires AllDigits(a) && |a| > 0
    ensures DigitsValue(a[1..]) < Pow10(|a| - 1)
    ensures DigitsValue(a) == DigitValue(a[0]) * Pow10(|a| - 1) + DigitsValue(a[1..])
  {
  }

  function Zeros(k: nat): (r: string)
    ensures |r| == k && AllDigits(r)
    ensures forall i :: 0 <= i < k ==> r[i] == '0'
  {
    seq(k, i => '0')
  }

  lemma {:induction false} ZerosPrefixValue(k: nat, s: string)
    requires AllDigits(s)
    ensures AllDigits(Zeros(k) + s)
    ensures DigitsValue(Zeros(k) + s) == DigitsValue(s)
    decreases k
  {
    if k > 0 {
      assert (Zeros(k) + s)[1..] == Zeros(k - 1) + s;
      ZerosPrefixValue(k - 1, s);
    } else {
      assert Zeros(k) + s == s;
    }
  }

  /** `f"{n:0{w}d}"`: the numeral of `n`, left-padded with zeros to width `w`
      and never truncated. */
  function ZeroPad(n: nat, w: nat): (r: string)
    ensures AllDigits(r)
    ensures |r| >= w
  {
    var d := NatToString(n);
    if |d| >= w then d else Zeros(w - |d|) + d
  }

  lemma ZeroPadValue(n: nat, w: nat)
    ensures DigitsValue(ZeroPad(n, w)) == n
  {
    var d := NatToString(n);
    NatToStringValue(n);
    if |d| < w {
      ZerosPrefixValue(w - |d|, d);
    }
  }

  /** A value below 10^w fills exactly `w` digits. */
  lemma ZeroPadLength(n: nat, w: nat)
    requires w >= 1 && n < Pow10(w)
    ensures |ZeroPad(n, w)| == w
  {
    var d := NatToString(n);
    NatToStringLength(n);
    if |d| > w {
      Pow10Monotone(w, |d| - 1);
    }
  }

  /** Padding inverts reading for numerals whose only leading zeros are
      padding: exactly `w` digits, or more without a leading zero. */
  lemma ZeroPadOfValue(s: string, w: nat)
    requires AllDigits(s) && |s| >= w && |s| >= 1
    requires |s| == w || s[0] != '0'
    ensures ZeroPad(DigitsValue(s), w) == s
  {
    var v := DigitsValue(s);
    ZeroPadValue(v, w);
    if |s| == w {
      ZeroPadLength(v, w);
    } else {
      NumeralLength(s);
    }
    SameValueSameDigits(ZeroPad(v, w), s);
  }

  /** A numeral without a leading zero is the shortest one of its value. */
  lemma NumeralLength(s: string)
    requires AllDigits(s) && |s| >= 1 && s[0] != '0'
    ensures |NatToString(DigitsValue(s))| == |s|
  {
    var v := DigitsValue(s);
    NatToStringLength(v);
    LeadingDigitAtLeast(s);
    SameMagnitude(v, |NatToString(v)|, |s|);
  }

  /** A numeral without padding is `str` of its value. */
  lemma CanonicalNumeral(s: string)
    requires AllDigits(s) && |s| >= 1
    requires |s| > 1 ==> s[0] != '0'
    ensures NatToString(DigitsValue(s)) == s
  {
    var v := DigitsValue(s);
    NatToStringValue(v);
    if |s| > 1 {
      NumeralLength(s);
    } else {
      assert v < Pow10(1) == 10;
    }
    SameValueSameDigits(NatToString(v), s);
  }

  /** Two lengths whose powers of ten bracket the same value agree. */
  lemma SameMagnitude(v: nat, m: nat, k: nat)
    requires m >= 1 && k >= 1
    requires v < Pow10(m) && (m > 1 ==> Pow10(m - 1) <= v)
    requires v < Pow10(k) && Pow10(k - 1) <= v
    ensures m == k
  {
    if m < k {
      Pow10Monotone(m, k - 1);
    }
    if m > k {
      Pow10Monotone(k, m - 1);
    }
  }

  /** Zero padding is injective. */
  lemma ZeroPadInjective(n: nat, m: nat, w: nat)
    requires ZeroPad(n, w) == ZeroPad(m, w)
    ensures n == m
  {
    ZeroPadValue(n, w);
    ZeroPadValue(m, w);
  }

  /** Below 10^w, zero-padded numerals sort as their values do. */
  lemma ZeroPadOrder(n: nat, m: nat, w: nat)
    requires w >= 1 && n < Pow10(w) && m < Pow10(w)
    ensures LexLess(ZeroPad(n, w), ZeroPad(m, w)) <==> n < m
  {
    ZeroPadLength(n, w);
    ZeroPadLength(m, w);
    ZeroPadValue(n, w);
    ZeroPadValue(m, w);
    LexLessDigits(ZeroPad(n, w), ZeroPad(m, w));
  }
}
