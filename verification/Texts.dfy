/** Text the way the formats here use it: splitting on separators, and decimal numerals. */
module Texts {

  predicate Lacks(s: string, sep: char -> bool) {
    forall i | 0 <= i < |s| :: !sep(s[i])
  }

  /** Split on every separator. There is always at least one part, and parts
      may be empty, as with Rust's `split` and Python's `str.split(sep)`. */
  function Split(s: string, sep: char -> bool): (parts: seq<string>)
    ensures |parts| >= 1
    ensures forall k | 0 <= k < |parts| :: Lacks(parts[k], sep)
  {
    if s == [] then [[]]
    else
      var before, c := Split(s[..|s| - 1], sep), s[|s| - 1];
      if sep(c) then before + [[]] else before[..|before| - 1] + [before[|before| - 1] + [c]]
  }

  lemma {:induction false} SplitLacking(s: string, sep: char -> bool)
    requires Lacks(s, sep)
    ensures Split(s, sep) == [s]
  {
    if s != [] {
      SplitLacking(s[..|s| - 1], sep);
      assert s == s[..|s| - 1] + [s[|s| - 1]];
    }
  }

  /** What follows the last separator is the last part. */
  lemma {:induction false} SplitAtLast(x: string, c: char, s: string, sep: char -> bool)
    requires sep(c) && Lacks(s, sep)
    ensures Split(x + [c] + s, sep) == Split(x, sep) + [s]
  {
    if s == [] {
      assert x + [c] + s == x + [c];
      assert (x + [c])[..|x|] == x;
    } else {
      var init, last := s[..|s| - 1], s[|s| - 1];
      SplitAtLast(x, c, init, sep);
      var whole := x + [c] + s;
      assert whole[..|whole| - 1] == x + [c] + init;
      assert s == init + [last];
      assert Split(x, sep) + [init + [last]] == (Split(x, sep) + [init])[..|Split(x, sep)|] + [init + [last]];
    }
  }

  /** The last separator is where it is. */
  lemma {:induction false} LastSeparatorIsUnique(x: string, s: string, y: string, t: string, c: char, sep: char -> bool)
    requires sep(c) && Lacks(s, sep) && Lacks(t, sep)
    requires x + [c] + s == y + [c] + t
    ensures x == y && s == t
  {
    var whole := x + [c] + s;
    assert whole[|x|] == c && whole[|y|] == c;
    assert |s| == |t|;
    assert whole[..|x|] == x && whole[..|y|] == y;
    assert whole[|x| + 1..] == s && whole[|y| + 1..] == t;
  }

  // ---- Decimal numerals ----------------------------------------------------

  function DigitChar(d: nat): (c: char)
    requires d < 10
    ensures '0' <= c <= '9' && c as int - '0' as int == d
  {
    ('0' as int + d) as char
  }

  predicate IsDigit(c: char) {
    '0' <= c <= '9'
  }

  predicate IsNumeral(s: string) {
    s != [] && forall i | 0 <= i < |s| :: IsDigit(s[i])
  }

  function Decimal(n: nat): (s: string)
    ensures IsNumeral(s)
  {
    if n < 10 then [DigitChar(n)] else Decimal(n / 10) + [DigitChar(n % 10)]
  }

  function ValueOf(s: string): nat
    requires IsNumeral(s)
  {
    var last := s[|s| - 1] as int - '0' as int;
    if |s| == 1 then last else 10 * ValueOf(s[..|s| - 1]) + last
  }

  lemma {:induction false} DecimalReadsBack(n: nat)
    ensures ValueOf(Decimal(n)) == n
  {
    if n >= 10 {
      DecimalReadsBack(n / 10);
      assert Decimal(n)[..|Decimal(n)| - 1] == Decimal(n / 10);
    }
  }

  lemma {:induction false} DecimalIsInjective(m: nat, n: nat)
    requires Decimal(m) == Decimal(n)
    ensures m == n
  {
    DecimalReadsBack(m);
    DecimalReadsBack(n);
  }

  /** A numeral without a superfluous leading zero. */
  predicate IsCanonical(s: string) {
    IsNumeral(s) && (|s| > 1 ==> s[0] != '0')
  }

  lemma {:induction false} DecimalIsCanonical(n: nat)
    ensures IsCanonical(Decimal(n)) && (Decimal(n)[0] == '0' ==> n == 0)
  {
    if n >= 10 {
      DecimalIsCanonical(n / 10);
    }
  }

  lemma {:induction false} CanonicalIsPositive(s: string)
    requires IsCanonical(s) && s[0] != '0'
    ensures ValueOf(s) >= 1
  {
    if |s| > 1 {
      CanonicalIsPositive(s[..|s| - 1]);
    }
  }

  lemma {:induction false} DecimalSnoc(n: nat, d: nat)
    requires n >= 1 && d < 10
    ensures Decimal(10 * n + d) == Decimal(n) + [DigitChar(d)]
  {
  }

  /** Every canonical numeral is the one its value prints. */
  lemma {:induction false} CanonicalReprints(s: string)
    requires IsCanonical(s)
    ensures Decimal(ValueOf(s)) == s
  {
    var init, last := s[..|s| - 1], s[|s| - 1] as int - '0' as int;
    assert IsDigit(s[|s| - 1]);
    if |s| > 1 {
      CanonicalReprints(init);
      CanonicalIsPositive(init);
      DecimalSnoc(ValueOf(init), last);
      assert s == init + [DigitChar(last)];
    }
  }
}
