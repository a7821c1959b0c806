/** Character and string primitives shared by the backend and the frontend
    helpers: ASCII case mapping, prefix and substring tests, and decimal
    rendering of natural numbers. */
module Text {

  /** ASCII lower-casing of one character; other characters are unchanged. */
  function LowerChar(c: char): char
  {
    if 'A' <= c <= 'Z' then (c as int + 32) as char else c
  }

  /** ASCII upper-casing of one character; other characters are unchanged. */
  function UpperChar(c: char): (u: char)
    ensures 'A' <= u <= 'Z' <==> 'A' <= c <= 'Z' || 'a' <= c <= 'z'
    ensures LowerChar(u) == LowerChar(c)
  {
    if 'a' <= c <= 'z' then (c as int - 32) as char else c
  }

  /** Character-wise lower-casing of a string: no ASCII capital is left, and
      every character is kept up to ASCII case. */
  function Lower(s: string): (r: string)
    ensures |r| == |s|
    ensures forall i :: 0 <= i < |r| ==> !('A' <= r[i] <= 'Z')
    ensures forall i :: 0 <= i < |s| ==> UpperChar(r[i]) == UpperChar(s[i])
  {
    seq(|s|, i requires 0 <= i < |s| => LowerChar(s[i]))
  }

  /** Lower-casing twice is lower-casing once. */
  lemma LowerIdempotent(s: string)
    ensures Lower(Lower(s)) == Lower(s)
  {
  }

  predicate StartsWith(s: string, prefix: string)
  {
    |prefix| <= |s| && s[..|prefix|] == prefix
  }

  /** `pat` occurs in `text` starting at index `i`. */
  predicate OccursAt(text: string, pat: string, i: nat)
  {
    i + |pat| <= |text| && text[i..i + |pat|] == pat
  }

  /** A slice of the tail is the slice one further along. */
  lemma SliceOfTail(text: string, i: nat, n: nat)
    requires i + 1 + n <= |text|
    ensures text[i + 1..i + 1 + n] == text[1..][i..i + n]
  {
  }

  /** Literal substring search, scanning the start positions left to right. */
  function Occurs(text: string, pat: string): (r: bool)
    ensures r <==> exists i: nat :: OccursAt(text, pat, i)
    decreases |text|
  {
    if StartsWith(text, pat) then
      assert OccursAt(text, pat, 0);
      true
    else if |text| <= |pat| then
      assert forall i: nat :: !OccursAt(text, pat, i) by {
        forall i: nat ensures !OccursAt(text, pat, i) {
          if i == 0 {
          } else {
            assert i + |pat| > |text|;
          }
        }
      }
      false
    else
      var rest := Occurs(text[1..], pat);
      assert forall i: nat :: OccursAt(text, pat, i + 1) <==> OccursAt(text[1..], pat, i) by {
        forall i: nat ensures OccursAt(text, pat, i + 1) <==> OccursAt(text[1..], pat, i) {
          if i + 1 + |pat| <= |text| {
            SliceOfTail(text, i, |pat|);
          }
        }
      }
      if rest then
        var j: nat :| OccursAt(text[1..], pat, j);
        assert OccursAt(text, pat, j + 1);
        true
      else
        assert forall i: nat :: !OccursAt(text, pat, i) by {
          forall i: nat ensures !OccursAt(text, pat, i) {
            if i > 0 {
              assert !OccursAt(text[1..], pat, i - 1);
            }
          }
        }
        false
  }

  /** Case-insensitive literal substring test: both sides are lower-cased. */
  predicate ContainsIgnoringCase(text: string, pat: string)
  {
    Occurs(Lower(text), Lower(pat))
  }

  predicate IsDigit(c: char)
  {
    '0' <= c <= '9'
  }

  predicate AllDigits(s: string)
  {
    forall i :: 0 <= i < |s| ==> IsDigit(s[i])
  }

  function DigitChar(d: nat): (c: char)
    requires d < 10
    ensures IsDigit(c)
    ensures c as int - '0' as int == d
  {
    ('0' as int + d) as char
  }

  function Pow10(k: nat): (p: nat)
    ensures p >= 1
  {
    if k == 0 then 1 else 10 * Pow10(k - 1)
  }

  lemma {:induction false} Pow10Add(a: nat, b: nat)
    ensures Pow10(a + b) == Pow10(a) * Pow10(b)
  {
    if a > 0 {
      Pow10Add(a - 1, b);
      assert Pow10(a + b) == 10 * Pow10(a - 1 + b);
    }
  }

  /** The first digit of the decimal form of a positive number: the `d` with
      d·10^k <= n < (d+1)·10^k for some k. */
  function LeadingDigit(n: nat): (d: nat)
    requires n >= 1
    ensures 1 <= d <= 9
    ensures exists k: nat :: d * Pow10(k) <= n < (d + 1) * Pow10(k)
    decreases n
  {
    if n < 10 then
      assert n * Pow10(0) <= n < (n + 1) * Pow10(0);
      n
    else
      var d := LeadingDigit(n / 10);
      LeadingDigitOfTenfold(n, d);
      d
  }

  /** A power of ten starts with the digit 1. */
  lemma {:induction false} LeadingDigitOfPower(k: nat)
    ensures LeadingDigit(Pow10(k)) == 1
  {
    if k > 0 {
      LeadingDigitOfPower(k - 1);
      assert Pow10(k) / 10 == Pow10(k - 1);
    }
  }

  /** A leading digit of n / 10 is one of n. */
  lemma LeadingDigitOfTenfold(n: nat, d: nat)
    requires exists k: nat :: d * Pow10(k) <= n / 10 < (d + 1) * Pow10(k)
    ensures exists k: nat :: d * Pow10(k) <= n < (d + 1) * Pow10(k)
  {
    var k: nat :| d * Pow10(k) <= n / 10 < (d + 1) * Pow10(k);
    var p := Pow10(k);
    assert Pow10(k + 1) == 10 * p;
    assert d * Pow10(k + 1) == 10 * (d * p);
    assert (d + 1) * Pow10(k + 1) == 10 * ((d + 1) * p);
    assert 10 * (n / 10) <= n < 10 * (n / 10) + 10;
  }

  /** The number a string of decimal digits denotes. */
  function DecimalValue(s: string): nat
    requires AllDigits(s)
  {
    if s == [] then 0
    else DecimalValue(s[..|s| - 1]) * 10 + (s[|s| - 1] as int - '0' as int)
  }

  /** How a JavaScript number that is a non-negative integer renders in a
      string concatenation: decimal digits, no leading zero. */
  function NatToDecimal(n: nat): (r: string)
    ensures |r| >= 1
    ensures AllDigits(r)
    ensures r[0] != '0' || r == "0"
    ensures DecimalValue(r) == n
    decreases n
  {
    if n < 10 then [DigitChar(n)]
    else
      var prefix := NatToDecimal(n / 10);
      var r := prefix + [DigitChar(n % 10)];
      assert r[..|r| - 1] == prefix;
      r
  }
}
