/** Roman numerals as the chapter-title cleanup reads them: a left-to-right
    scan over the upper-cased numeral that tries a two-letter key of the
    numeral table before a single letter, with the canonical encoder as an
    independent reference. */
module Roman {
  import opened Wrappers
  import opened Text

  /** The single-letter keys of the numeral table (0 for any other
      character). */
  function LetterValue(c: char): nat {
    match c
    case 'M' => 1000
    case 'D' => 500
    case 'C' => 100
    case 'L' => 50
    case 'X' => 10
    case 'V' => 5
    case 'I' => 1
    case _ => 0
  }

  /** The two-letter keys of the numeral table, the subtractive pairs (0 for
      any other pair). */
  function PairValue(a: char, b: char): nat {
    if a == 'C' && b == 'M' then 900
    else if a == 'C' && b == 'D' then 400
    else if a == 'X' && b == 'C' then 90
    else if a == 'X' && b == 'L' then 40
    else if a == 'I' && b == 'X' then 9
    else if a == 'I' && b == 'V' then 4
    else 0
  }

  /** An upper-case letter of the class `[IVXLCDM]`. */
  predicate IsNumeralLetter(c: char) { LetterValue(c) > 0 }

  /** A pair key is made of two numeral letters. */
  lemma PairLetters(a: char, b: char)
    requires PairValue(a, b) > 0
    ensures IsNumeralLetter(a) && IsNumeralLetter(b)
  {
  }

  /** The scan of `roman_to_int` over an already upper-cased string: `None`
      exactly when some character is not a numeral letter, the empty string
      reads as 0, and every letter adds at least one. */
  function Scan(u: string): (r: Option<nat>)
    ensures r.Some? <==> forall i :: 0 <= i < |u| ==> IsNumeralLetter(u[i])
    ensures r.Some? ==> r.value >= |u|
    decreases |u|
  {
    if |u| == 0 then Some(0)
    else if |u| >= 2 && PairValue(u[0], u[1]) > 0 then
      PairLetters(u[0], u[1]);
      var rest := Scan(u[2..]);
      assert forall i :: 2 <= i < |u| ==> u[i] == u[2..][i - 2];
      if rest.None? then None else Some(PairValue(u[0], u[1]) + rest.value)
    else if IsNumeralLetter(u[0]) then
      var rest := Scan(u[1..]);
      assert forall i :: 1 <= i < |u| ==> u[i] == u[1..][i - 1];
      if rest.None? then None else Some(LetterValue(u[0]) + rest.value)
    else None
  }

  /** `roman_to_int`: the scan after `upper()`. */
  function RomanToInt(roman: string): (r: Option<nat>)
    ensures r.Some? <==> forall i :: 0 <= i < |roman| ==> IsNumeralLetter(ToUpper(roman[i]))
    ensures roman == "" ==> r == Some(0)
    ensures r.Some? && roman != "" ==> r.value > 0
  {
    var u := Upper(roman);
    assert forall i :: 0 <= i < |roman| ==> u[i] == ToUpper(roman[i]);
    Scan(u)
  }

  /** Case does not matter: strings that agree after `upper()` read alike. */
  lemma RomanCaseInsensitive(a: string, b: string)
    requires |a| == |b|
    requires forall i :: 0 <= i < |a| ==> ToUpper(a[i]) == ToUpper(b[i])
    ensures RomanToInt(a) == RomanToInt(b)
  {
    assert Upper(a) == Upper(b);
  }

  // ---------------------------------------------------------------------
  // greedy summation of non-canonical numerals

  /** No two neighbouring letters form a subtractive pair. */
  predicate NoPairs(u: string) {
    forall i :: 0 <= i < |u| - 1 ==> PairValue(u[i], u[i + 1]) == 0
  }

  function LetterSum(u: string): nat
    decreases |u|
  {
    if |u| == 0 then 0 else LetterValue(u[0]) + LetterSum(u[1..])
  }

  /** A string of numeral letters with no subtractive pair reads as the plain
      sum of its letters, whatever their order: "IIII" is 4 and "IC" is 101. */
  lemma {:induction false} ScanNoPairs(u: string)
    requires forall i :: 0 <= i < |u| ==> IsNumeralLetter(u[i])
    requires NoPairs(u)
    ensures Scan(u) == Some(LetterSum(u))
    decreases |u|
  {
    if |u| > 0 {
      if |u| >= 2 {
        assert PairValue(u[0], u[1]) == 0;
      }
      assert forall i :: 0 <= i < |u| - 1 ==> u[1..][i] == u[i + 1];
      ScanNoPairs(u[1..]);
    }
  }

  // ---------------------------------------------------------------------
  // the canonical encoder

  /** The numeral table in the order the source declares it: values
      descending, each with its key. */
  const Table: seq<(nat, string)> := [
    (1000, "M"), (900, "CM"), (500, "D"), (400, "CD"), (100, "C"), (90, "XC"),
    (50, "L"), (40, "XL"), (10, "X"), (9, "IX"), (5, "V"), (4, "IV"), (1, "I")
  ]

  /** Facts about one row of the table: its key reads back as its value, and
      its first letter is worth no more than the whole key. */
  lemma TableRow(t: nat)
    requires t < 13
    ensures 1 <= |Table[t].1| <= 2
    ensures |Table[t].1| == 1 ==> LetterValue(Table[t].1[0]) == Table[t].0 && IsNumeralLetter(Table[t].1[0])
    ensures |Table[t].1| == 2 ==> PairValue(Table[t].1[0], Table[t].1[1]) == Table[t].0
    ensures LetterValue(Table[t].1[0]) <= Table[t].0
  {
    if t == 0 { } else if t == 1 { } else if t == 2 { } else if t == 3 { }
    else if t == 4 { } else if t == 5 { } else if t == 6 { } else if t == 7 { }
    else if t == 8 { } else if t == 9 { } else if t == 10 { } else if t == 11 { }
    else { assert t == 12; }
  }

  /** Greedy encoding from row `t` on: take the largest key that fits. */
  function ToRomanFrom(n: nat, t: nat): string
    requires t < 13
    decreases n, 13 - t
  {
    if n == 0 then ""
    else if Table[t].0 <= n then Table[t].1 + ToRomanFrom(n - Table[t].0, t)
    else if t == 12 then ""
    else ToRomanFrom(n, t + 1)
  }

  /** The canonical numeral of `n` ("XIV" for 14, "MCMXC" for 1990). */
  function ToRoman(n: nat): string {
    ToRomanFrom(n, 0)
  }

  /** The greedy state: a row below the first is only reached with a value
      smaller than the row before it. */
  predicate GreedyState(n: nat, t: nat) {
    t < 13 && (t == 0 || n < Table[t - 1].0)
  }

  /** The first letter the encoder writes is worth at most the value left. */
  lemma {:induction false} FirstLetterBound(n: nat, t: nat)
    requires t < 13 && n > 0
    ensures |ToRomanFrom(n, t)| > 0
    ensures LetterValue(ToRomanFrom(n, t)[0]) <= n
    decreases n, 13 - t
  {
    if Table[t].0 <= n {
      TableRow(t);
      var s := ToRomanFrom(n, t);
      assert s == Table[t].1 + ToRomanFrom(n - Table[t].0, t);
      assert s[0] == Table[t].1[0];
    } else if t < 12 {
      FirstLetterBound(n, t + 1);
    }
  }

  /** A single-letter key never pairs with the letter the encoder writes
      next: after `C` less than 300 is left, after `X` less than 30, after
      `I` less than 3. */
  lemma NoPairAfterSingle(n: nat, t: nat)
    requires GreedyState(n, t) && Table[t].0 <= n && |Table[t].1| == 1
    requires n - Table[t].0 > 0
    ensures |ToRomanFrom(n - Table[t].0, t)| > 0
    ensures PairValue(Table[t].1[0], ToRomanFrom(n - Table[t].0, t)[0]) == 0
  {
    var m := n - Table[t].0;
    FirstLetterBound(m, t);
    var d := ToRomanFrom(m, t)[0];
    TableRow(t);
    if t == 4 {
      assert m < 300;
    } else if t == 8 {
      assert m < 30;
    } else if t == 12 {
      assert m < 3;
    } else {
      assert Table[t].1[0] !in "CXI" by {
        if t == 0 { } else if t == 2 { } else if t == 6 { } else { assert t == 10; }
      }
    }
  }

  /** Reading back a canonical numeral written from a greedy state gives the
      value it was written from. */
  lemma {:induction false} ScanToRomanFrom(n: nat, t: nat)
    requires GreedyState(n, t)
    ensures Scan(ToRomanFrom(n, t)) == Some(n)
    decreases n, 13 - t
  {
    if n == 0 {
    } else if Table[t].0 <= n {
      var m := n - Table[t].0;
      assert GreedyState(m, t);
      ScanToRomanFrom(m, t);
      ScanKeyStep(n, t);
    } else if t < 12 {
      ScanToRomanFrom(n, t + 1);
    }
  }

  /** One step of the read-back: the key the encoder writes first is read
      first, and the rest reads as the rest of the value. */
  lemma ScanKeyStep(n: nat, t: nat)
    requires GreedyState(n, t) && n > 0 && Table[t].0 <= n
    requires Scan(ToRomanFrom(n - Table[t].0, t)) == Some(n - Table[t].0)
    ensures Scan(ToRomanFrom(n, t)) == Some(n)
  {
    TableRow(t);
    ToRomanKey(n, t);
    if |Table[t].1| == 2 {
      ScanPairStep(n, t);
    } else {
      ScanSingleStep(n, t);
    }
  }

  lemma ScanPairStep(n: nat, t: nat)
    requires t < 13 && Table[t].0 <= n && |Table[t].1| == 2
    requires PairValue(Table[t].1[0], Table[t].1[1]) == Table[t].0
    requires Scan(ToRomanFrom(n - Table[t].0, t)) == Some(n - Table[t].0)
    ensures Scan(Table[t].1 + ToRomanFrom(n - Table[t].0, t)) == Some(n)
  {
    ScanPair(Table[t].1, ToRomanFrom(n - Table[t].0, t), n - Table[t].0);
  }

  lemma ScanSingleStep(n: nat, t: nat)
    requires GreedyState(n, t) && Table[t].0 <= n && |Table[t].1| == 1
    requires LetterValue(Table[t].1[0]) == Table[t].0 && IsNumeralLetter(Table[t].1[0])
    requires Scan(ToRomanFrom(n - Table[t].0, t)) == Some(n - Table[t].0)
    ensures Scan(Table[t].1 + ToRomanFrom(n - Table[t].0, t)) == Some(n)
  {
    var rest := ToRomanFrom(n - Table[t].0, t);
    if |rest| > 0 {
      NoPairAfterSingle(n, t);
    }
    ScanSingleKey(Table[t].1, rest, n - Table[t].0);
  }

  /** The encoder writes the key of a row that fits, then goes on. */
  lemma ToRomanKey(n: nat, t: nat)
    requires t < 13 && n > 0 && Table[t].0 <= n
    ensures ToRomanFrom(n, t) == Table[t].1 + ToRomanFrom(n - Table[t].0, t)
  {
  }

  lemma ScanSingleKey(key: string, rest: string, v: nat)
    requires |key| == 1 && IsNumeralLetter(key[0])
    requires |rest| > 0 ==> PairValue(key[0], rest[0]) == 0
    requires Scan(rest) == Some(v)
    ensures Scan(key + rest) == Some(LetterValue(key[0]) + v)
  {
    ScanSingle(key[0], rest, v);
    assert [key[0]] == key;
  }

  lemma ScanPair(key: string, rest: string, v: nat)
    requires |key| == 2 && PairValue(key[0], key[1]) > 0
    requires Scan(rest) == Some(v)
    ensures Scan(key + rest) == Some(PairValue(key[0], key[1]) + v)
  {
    var s := key + rest;
    assert s[0] == key[0] && s[1] == key[1];
    assert s[2..] == rest;
  }

  lemma ScanSingle(c: char, rest: string, v: nat)
    requires IsNumeralLetter(c)
    requires |rest| > 0 ==> PairValue(c, rest[0]) == 0
    requires Scan(rest) == Some(v)
    ensures Scan([c] + rest) == Some(LetterValue(c) + v)
  {
    var s := [c] + rest;
    assert s[0] == c;
    assert s[1..] == rest;
    if |rest| > 0 {
      assert s[1] == rest[0];
    }
  }

  /** On canonical numerals `roman_to_int` gives the standard value, in
      either case. */
  lemma RomanToIntCanonical(n: nat)
    ensures RomanToInt(ToRoman(n)) == Some(n)
    ensures RomanToInt(Lower(ToRoman(n))) == Some(n)
  {
    var s := ToRoman(n);
    ScanToRomanFrom(n, 0);
    assert Upper(s) == s by {
      UpperOfNumeral(n, 0);
    }
    RomanCaseInsensitive(Lower(s), s);
  }

  /** The encoder writes upper-case letters only. */
  lemma {:induction false} UpperOfNumeral(n: nat, t: nat)
    requires t < 13
    ensures forall i :: 0 <= i < |ToRomanFrom(n, t)| ==> IsUpper(ToRomanFrom(n, t)[i])
    decreases n, 13 - t
  {
    if n == 0 {
    } else if Table[t].0 <= n {
      TableRow(t);
      UpperOfNumeral(n - Table[t].0, t);
      var key := Table[t].1;
      assert forall i :: 0 <= i < |key| ==> IsUpper(key[i]) by {
        if |key| == 2 {
          assert PairValue(key[0], key[1]) > 0;
          PairLetters(key[0], key[1]);
        }
      }
    } else if t < 12 {
      UpperOfNumeral(n, t + 1);
    }
  }
}
