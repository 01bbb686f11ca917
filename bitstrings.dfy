/**
 * Distance bitstrings and the two measures on them, `Compare` and
 * `CalcScore` (src/matchpatch.c, match.c). A bitstring is a `char` buffer
 * whose bins hold '0' or '1'; the last slot holds the terminator.
 */
module Bitstrings {
  import opened Common

  /** Length of a distance bitstring buffer, terminator included. */
  const MAXDIST: nat := 32

  /** Number of '1' characters among the first `n` of `s`. */
  function CountOnes(s: seq<char>, n: nat): (c: nat)
    requires n <= |s|
    ensures c <= n
  {
    if n == 0 then 0 else CountOnes(s, n - 1) + (if s[n - 1] == '1' then 1 else 0)
  }

  /** Number of positions among the first `n` where both strings hold '1' (`NMatch`). */
  function CountBoth(a: seq<char>, b: seq<char>, n: nat): (c: nat)
    requires n <= |a| && n <= |b|
    ensures c <= CountOnes(a, n) && c <= CountOnes(b, n)
  {
    if n == 0 then 0
    else CountBoth(a, b, n - 1) + (if a[n - 1] == '1' && b[n - 1] == '1' then 1 else 0)
  }

  /** The larger of the two '1' counts: the denominator of the score. */
  function Denominator(a: seq<char>, b: seq<char>, n: nat): nat
    requires n <= |a| && n <= |b|
  {
    Max(CountOnes(a, n), CountOnes(b, n))
  }

  /**
   * The percentage `100 * NMatch / MAX(CountStr1, CountStr2)` both functions
   * compute. When neither string has a '1' the C code divides 0.0 by 0.0,
   * a NaN; that is `None` here.
   */
  function Score(a: seq<char>, b: seq<char>, n: nat): (r: Option<real>)
    requires n <= |a| && n <= |b|
    ensures r.None? <==> CountOnes(a, n) == 0 && CountOnes(b, n) == 0
    ensures r.Some? ==> 0.0 <= r.value <= 100.0
  {
    var d := Denominator(a, b, n);
    if d == 0 then None
    else
      var m := CountBoth(a, b, n);
      DivAtMost((100 * m) as real, d as real, 100.0);
      DivAtLeast((100 * m) as real, d as real, 0.0);
      Some((100 * m) as real / d as real)
  }

  /**
   * The strings match (`Compare` returns FALSE) when the score is at least
   * `accuracy`. A NaN compares false with everything, so two empty strings
   * never match.
   */
  predicate Matches(a: seq<char>, b: seq<char>, n: nat, accuracy: real)
    requires n <= |a| && n <= |b|
  {
    var s := Score(a, b, n);
    s.Some? && s.value >= accuracy
  }

  lemma {:induction false} CountBothSymmetric(a: seq<char>, b: seq<char>, n: nat)
    requires n <= |a| && n <= |b|
    ensures CountBoth(a, b, n) == CountBoth(b, a, n)
  {
    if n > 0 { CountBothSymmetric(a, b, n - 1); }
  }

  /** Both measures are symmetric in their two strings. */
  lemma ScoreSymmetric(a: seq<char>, b: seq<char>, n: nat, accuracy: real)
    requires n <= |a| && n <= |b|
    ensures Score(a, b, n) == Score(b, a, n)
    ensures Matches(a, b, n, accuracy) == Matches(b, a, n, accuracy)
  {
    CountBothSymmetric(a, b, n);
  }

  /** Two bitstrings with no bin set never match, whatever the accuracy. */
  lemma EmptyNeverMatches(a: seq<char>, b: seq<char>, n: nat, accuracy: real)
    requires n <= |a| && n <= |b|
    requires CountOnes(a, n) == 0 && CountOnes(b, n) == 0
    ensures !Matches(a, b, n, accuracy)
  {
  }

  /** The match test in cross-multiplied form: no division is needed. */
  lemma MatchesCrossMultiplied(a: seq<char>, b: seq<char>, n: nat, accuracy: real)
    requires n <= |a| && n <= |b|
    ensures Matches(a, b, n, accuracy) <==> CrossMatch(CountBoth(a, b, n), Denominator(a, b, n), accuracy)
  {
    CrossMultiply(Score(a, b, n), CountBoth(a, b, n), Denominator(a, b, n), accuracy);
  }

  /** `100 * m >= accuracy * d` with a positive denominator `d`. */
  predicate CrossMatch(m: nat, d: nat, accuracy: real)
  {
    d > 0 && (100 * m) as real >= accuracy * d as real
  }

  lemma CrossMultiply(s: Option<real>, m: nat, d: nat, accuracy: real)
    requires d == 0 ==> s == None
    requires d > 0 ==> s == Some((100 * m) as real / d as real)
    ensures (s.Some? && s.value >= accuracy) <==> CrossMatch(m, d, accuracy)
  {
    if d > 0 {
      DivAtLeast((100 * m) as real, d as real, accuracy);
    }
  }

  lemma DivAtMost(x: real, d: real, c: real)
    requires d > 0.0
    ensures x / d <= c <==> x <= c * d
  {
    var q := x / d;
    assert q * d == x;
    if q <= c { assert (c - q) * d >= 0.0; } else { assert (q - c) * d > 0.0; }
  }

  lemma DivAtLeast(x: real, d: real, c: real)
    requires d > 0.0
    ensures x / d >= c <==> x >= c * d
  {
    var q := x / d;
    assert q * d == x;
    if q >= c { assert (q - c) * d >= 0.0; } else { assert (c - q) * d > 0.0; }
  }

  /** A zero score: the strings share no bin although one of them has some. */
  lemma ZeroScore(a: seq<char>, b: seq<char>, n: nat)
    requires n <= |a| && n <= |b|
    requires Score(a, b, n).Some?
    ensures Score(a, b, n).value == 0.0 <==> CountBoth(a, b, n) == 0
  {
  }

  /**
   * `Compare(str1, str2, len)`: FALSE when the strings match, TRUE when they
   * do not (src/matchpatch.c:847-871, match.c:797-821).
   */
  method Compare(str1: seq<char>, str2: seq<char>, len: nat, accuracy: real) returns (differ: bool)
    requires len <= |str1| && len <= |str2|
    ensures differ == !Matches(str1, str2, len, accuracy)
  {
    var countStr1, countStr2, nMatch := 0, 0, 0;
    var i := 0;
    while i < len
      invariant 0 <= i <= len
      invariant countStr1 == CountOnes(str1, i) && countStr2 == CountOnes(str2, i)
      invariant nMatch == CountBoth(str1, str2, i)
    {
      if str1[i] == '1' { countStr1 := countStr1 + 1; }
      if str2[i] == '1' { countStr2 := countStr2 + 1; }
      if str1[i] == '1' && str2[i] == '1' { nMatch := nMatch + 1; }
      i := i + 1;
    }
    var denominator := Max(countStr1, countStr2);
    if denominator > 0 && (100 * nMatch) as real / denominator as real >= accuracy {
      differ := false;
    } else {
      differ := true;
    }
  }

  /**
   * `CalcScore(str1, str2, len)`: the percentage score, `None` for the 0/0
   * NaN (src/matchpatch.c:882-898, match.c:831-847).
   */
  method CalcScore(str1: seq<char>, str2: seq<char>, len: nat) returns (score: Option<real>)
    requires len <= |str1| && len <= |str2|
    ensures score == Score(str1, str2, len)
  {
    var countStr1, countStr2, nMatch := 0, 0, 0;
    var i := 0;
    while i < len
      invariant 0 <= i <= len
      invariant countStr1 == CountOnes(str1, i) && countStr2 == CountOnes(str2, i)
      invariant nMatch == CountBoth(str1, str2, i)
    {
      if str1[i] == '1' { countStr1 := countStr1 + 1; }
      if str2[i] == '1' { countStr2 := countStr2 + 1; }
      if str1[i] == '1' && str2[i] == '1' { nMatch := nMatch + 1; }
      i := i + 1;
    }
    var denominator := Max(countStr1, countStr2);
    score := if denominator == 0 then None else Some((100 * nMatch) as real / denominator as real);
  }
}
