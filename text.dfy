/** Character classes and the small string conversions the normaliser relies on:
    `parseInt(_, 10)` on a run of digits, `String(n)` for an integer, `padStart`,
    and `toLowerCase` on the ASCII letters a month name is made of. */
module Text {

  /** `\d` of a JavaScript regular expression (ASCII digits only, even under the `i` flag). */
  predicate IsDigit(c: char) {
    '0' <= c <= '9'
  }

  /** `[A-Za-z]`; under the `i` flag without `u` no non-ASCII character folds onto one of these. */
  predicate IsAsciiLetter(c: char) {
    'A' <= c <= 'Z' || 'a' <= c <= 'z'
  }

  /** `\s` of a JavaScript regular expression: the WhiteSpace and LineTerminator code points. */
  predicate IsSpace(c: char) {
    c == '\t' || c == '\n' || c == '\U{000B}' || c == '\U{000C}' || c == '\r' || c == ' '
    || c == '\U{00A0}' || c == '\U{1680}' || ('\U{2000}' <= c <= '\U{200A}')
    || c == '\U{2028}' || c == '\U{2029}' || c == '\U{202F}' || c == '\U{205F}'
    || c == '\U{3000}' || c == '\U{FEFF}'
  }

  /** Every character of s[i..j] satisfies `p` (and the range lies inside `s`). The
      quantifier fires only on an application of `p` itself, which keeps the wide
      character classes from being unfolded at every index the solver meets; AllInAt
      reads one index out of it. */
  predicate AllIn(s: string, i: nat, j: nat, p: char -> bool) {
    i <= j <= |s| && forall k {:trigger p(s[k])} :: i <= k < j ==> p(s[k])
  }

  lemma AllInAt(s: string, i: nat, j: nat, p: char -> bool, k: nat)
    requires AllIn(s, i, j, p) && i <= k < j
    ensures p(s[k])
  {
  }

  predicate AllDigits(s: string) {
    forall k :: 0 <= k < |s| ==> IsDigit(s[k])
  }

  function Pow10(k: nat): (r: nat)
    ensures r >= 1
  {
    if k == 0 then 1 else 10 * Pow10(k - 1)
  }

  function DigitValue(c: char): (d: nat)
    requires IsDigit(c)
    ensures d < 10
  {
    c as int - '0' as int
  }

  function DigitChar(d: nat): (c: char)
    requires d < 10
    ensures IsDigit(c) && DigitValue(c) == d
  {
    ('0' as int + d) as char
  }

  /** `parseInt(s, 10)` for a string made only of digits (what every capture group here holds). */
  function DecimalValue(s: string): (n: nat)
    requires AllDigits(s)
    ensures n < Pow10(|s|)
  {
    if s == [] then 0 else 10 * DecimalValue(s[..|s| - 1]) + DigitValue(s[|s| - 1])
  }

  /** `String(n)` for a non-negative integer: shortest decimal form, no leading zero. */
  function NatToString(n: nat): (s: string)
    ensures |s| >= 1 && AllDigits(s)
    ensures s[0] == '0' ==> n == 0
    ensures n < 10 <==> |s| == 1
    ensures 10 <= n < 100 ==> |s| == 2
  {
    if n < 10 then [DigitChar(n)] else NatToString(n / 10) + [DigitChar(n % 10)]
  }

  /** `String(n)` for any integer. */
  function IntToString(n: int): (s: string)
    ensures |s| >= 1
    ensures n >= 0 ==> AllDigits(s)
    ensures n < 0 ==> s[0] == '-'
  {
    if n < 0 then "-" + NatToString(-n) else NatToString(n)
  }

  /** `s.padStart(len, [fill])`: fill characters are put in front until the length is `len`. */
  function PadStart(s: string, len: nat, fill: char): (r: string)
    ensures |r| == if |s| >= len then |s| else len
    ensures r[|r| - |s|..] == s
    ensures forall k :: 0 <= k < |r| - |s| ==> r[k] == fill
    decreases len - |s|
  {
    if |s| >= len then s else PadStart([fill] + s, len, fill)
  }

  /** `pad = n => String(n).padStart(2, '0')` (public/index.js:131), written out: only
      the one-character strings, those of 0..9, get a leading zero. */
  function Pad(n: int): (r: string)
    ensures 0 <= n <= 99 ==> |r| == 2 && AllDigits(r)
    ensures |IntToString(n)| >= 2 ==> r == IntToString(n)
  {
    if 0 <= n < 10 then "0" + IntToString(n) else IntToString(n)
  }

  /** Pad is `padStart(2, '0')` applied to `String(n)`, for every integer. */
  lemma PadIsPadStart(n: int)
    ensures Pad(n) == PadStart(IntToString(n), 2, '0')
  {
    var s := IntToString(n);
    if 0 <= n < 10 {
      assert PadStart(s, 2, '0') == PadStart(['0'] + s, 2, '0');
    }
  }

  /** Read back as a number, a padded value in 0..99 is that value. */
  lemma PadTwoDigits(n: int)
    requires 0 <= n <= 99
    ensures |Pad(n)| == 2 && AllDigits(Pad(n)) && DecimalValue(Pad(n)) == n
  {
    NatToStringValue(n);
    if n < 10 {
      assert Pad(n)[..1] == "0";
    }
  }

  /** `String(n)` of a year from 1000 on is four or more digits holding the year, exactly
      four up to 9999. */
  lemma FullYearText(n: int)
    requires n >= 1000
    ensures |IntToString(n)| >= 4 && AllDigits(IntToString(n)) && DecimalValue(IntToString(n)) == n
    ensures n <= 9999 ==> |IntToString(n)| == 4
  {
    assert Pow10(3) == 1000 && Pow10(4) == 10000;
    NatToStringAtLeast(n, 3);
    if n <= 9999 {
      NatToStringAtMost(n, 4);
    }
    NatToStringValue(n);
  }

  /** `String(n)` of a year below 1000 has at most three characters or starts with `-`. */
  lemma ShortYearText(n: int)
    requires n < 1000
    ensures |IntToString(n)| <= 3 || IntToString(n)[0] == '-'
  {
    if n >= 0 {
      assert Pow10(3) == 1000;
      NatToStringAtMost(n, 3);
    }
  }

  /** The digits Pad writes for a value in 0..99, spelled out. */
  lemma PadDigits(n: nat)
    requires n < 100
    ensures Pad(n) == [DigitChar(n / 10), DigitChar(n % 10)]
  {
    if n >= 10 {
      assert NatToString(n / 10) == [DigitChar(n / 10)];
    }
  }

  /** The digits `String(n)` writes for a four-digit year, spelled out. */
  lemma YearDigits(n: nat)
    requires 1000 <= n < 10000
    ensures IntToString(n) == [DigitChar(n / 1000), DigitChar(n / 100 % 10), DigitChar(n / 10 % 10), DigitChar(n % 10)]
  {
    assert NatToString(n / 1000) == [DigitChar(n / 1000)];
    assert NatToString(n / 100) == NatToString(n / 1000) + [DigitChar(n / 100 % 10)];
    assert NatToString(n / 10) == NatToString(n / 100) + [DigitChar(n / 10 % 10)];
  }

  /** `toLowerCase` on the characters that reach it here: the ASCII letters `[A-Za-z]+`
      captures (under `/i` without `u` the class stays ASCII). Other characters are kept,
      which is not what `toLowerCase` does with non-ASCII letters such as `À`. */
  function LowerChar(c: char): (l: char)
    ensures IsAsciiLetter(c) ==> 'a' <= l <= 'z'
    ensures 'A' <= c <= 'Z' ==> l as int - 'a' as int == c as int - 'A' as int
    ensures !('A' <= c <= 'Z') ==> l == c
  {
    if 'A' <= c <= 'Z' then (c as int + 32) as char else c
  }

  function Lower(s: string): (r: string)
    ensures |r| == |s|
    ensures forall k :: 0 <= k < |s| ==> r[k] == LowerChar(s[k])
  {
    if s == [] then [] else [LowerChar(s[0])] + Lower(s[1..])
  }

  /** `String` followed by `parseInt` gives back any non-negative integer. */
  lemma {:induction false} NatToStringValue(n: nat)
    ensures DecimalValue(NatToString(n)) == n
  {
    if n >= 10 {
      var s := NatToString(n);
      assert s[..|s| - 1] == NatToString(n / 10);
      NatToStringValue(n / 10);
    }
  }

  /** `parseInt` followed by `String` gives back any digit string without a superfluous leading zero. */
  lemma {:induction false} NatToStringOfDecimal(s: string)
    requires |s| >= 1 && AllDigits(s)
    requires s[0] == '0' ==> |s| == 1
    ensures NatToString(DecimalValue(s)) == s
  {
    var n := DecimalValue(s);
    if |s| == 1 {
      assert s == [s[0]];
    } else {
      var init := s[..|s| - 1];
      LeadingDigitBound(init);
      assert n / 10 == DecimalValue(init) && n % 10 == DigitValue(s[|s| - 1]);
      NatToStringOfDecimal(init);
      assert s == init + [s[|s| - 1]];
    }
  }

  /** `String(n)` has exactly `k` digits when 10^(k-1) <= n < 10^k. */
  lemma {:induction false} NatToStringSize(n: nat, k: nat)
    requires 1 <= k && Pow10(k - 1) <= n < Pow10(k)
    ensures |NatToString(n)| == k
  {
    if k > 1 {
      assert Pow10(k - 1) == 10 * Pow10(k - 2);
      NatToStringSize(n / 10, k - 1);
    }
  }

  /** A number of at least 10^k has more than k digits. */
  lemma {:induction false} NatToStringAtLeast(n: nat, k: nat)
    requires Pow10(k) <= n
    ensures |NatToString(n)| > k
  {
    if k > 0 {
      NatToStringAtLeast(n / 10, k - 1);
    }
  }

  /** A number below 10^k has at most k digits. */
  lemma {:induction false} NatToStringAtMost(n: nat, k: nat)
    requires 1 <= k && n < Pow10(k)
    ensures |NatToString(n)| <= k
  {
    if n >= 10 {
      NatToStringAtMost(n / 10, k - 1);
    }
  }

  /** Two digit strings of the same length with the same value are the same string. */
  lemma {:induction false} DecimalInjective(a: string, b: string)
    requires |a| == |b| && AllDigits(a) && AllDigits(b) && DecimalValue(a) == DecimalValue(b)
    ensures a == b
  {
    if a != [] {
      var n := |a| - 1;
      assert DigitValue(a[n]) == DigitValue(b[n]);
      DecimalInjective(a[..n], b[..n]);
      assert a == a[..n] + [a[n]] && b == b[..n] + [b[n]];
    }
  }

  /** A digit string starts with a non-zero digit exactly when its value reaches the
      power of ten below its length. */
  lemma {:induction false} LeadingDigit(s: string)
    requires |s| >= 1 && AllDigits(s)
    ensures s[0] != '0' <==> DecimalValue(s) >= Pow10(|s| - 1)
  {
    if |s| > 1 {
      var init := s[..|s| - 1];
      assert init[0] == s[0];
      LeadingDigit(init);
    }
  }

  /** A digit string that does not start with `0` denotes a positive number. */
  lemma {:induction false} LeadingDigitBound(s: string)
    requires |s| >= 1 && AllDigits(s) && s[0] != '0'
    ensures DecimalValue(s) >= 1
  {
    if |s| > 1 {
      LeadingDigitBound(s[..|s| - 1]);
    }
  }
}
