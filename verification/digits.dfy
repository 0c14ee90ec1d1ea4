/** Character classes and decimal text shared by the parsers and formatters.

    The regex classes `\d` and `\w` and chrono's digit scanner are modelled on
    ASCII; `LexLess` is Rust's `str` order (code-point lexicographic). */
module Digits {

  predicate IsDigit(c: char) {
    '0' <= c <= '9'
  }

  predicate IsAsciiLetter(c: char) {
    ('a' <= c <= 'z') || ('A' <= c <= 'Z')
  }

  /** The regex class `\w` on ASCII. */
  predicate IsWordChar(c: char) {
    IsDigit(c) || IsAsciiLetter(c) || c == '_'
  }

  predicate AllDigits(s: string) {
    forall i :: 0 <= i < |s| ==> IsDigit(s[i])
  }

  predicate AllWordChars(s: string) {
    forall i :: 0 <= i < |s| ==> IsWordChar(s[i])
  }

  function DigitValue(c: char): int
    requires IsDigit(c)
  {
    c as int - '0' as int
  }

  function DigitChar(n: int): char
    requires 0 <= n < 10
  {
    (n + '0' as int) as char
  }

  /** The value of a string of decimal digits, most significant first. */
  function DecimalValue(s: string): nat
    requires AllDigits(s)
  {
    if |s| == 0 then 0 else DecimalValue(s[..|s| - 1]) * 10 + DigitValue(s[|s| - 1])
  }

  function Pow10(n: nat): nat {
    if n == 0 then 1 else 10 * Pow10(n - 1)
  }

  /** The last `width` decimal digits of `n`, zero-padded: chrono's `%0<width>`
      for values below `10^width`. */
  function FixedDigits(n: nat, width: nat): (r: string)
    ensures |r| == width && AllDigits(r)
  {
    if width == 0 then [] else FixedDigits(n / 10, width - 1) + [DigitChar(n % 10)]
  }

  /** Reading a fixed-width rendering back gives the number rendered. */
  lemma {:induction false} FixedDigitsValue(n: nat, width: nat)
    requires n < Pow10(width)
    ensures DecimalValue(FixedDigits(n, width)) == n
  {
    if width > 0 {
      var front := FixedDigits(n / 10, width - 1);
      var s := FixedDigits(n, width);
      assert s[..|s| - 1] == front;
      FixedDigitsValue(n / 10, width - 1);
    }
  }

  /** Every digit string is the fixed-width rendering of its own value. */
  lemma {:induction false} DecimalValueFixed(s: string)
    requires AllDigits(s)
    ensures DecimalValue(s) < Pow10(|s|)
    ensures FixedDigits(DecimalValue(s), |s|) == s
    decreases |s|
  {
    if |s| > 0 {
      var front := s[..|s| - 1];
      DecimalValueFixed(front);
      var v := DecimalValue(front);
      var d := DigitValue(s[|s| - 1]);
      assert (v * 10 + d) / 10 == v && (v * 10 + d) % 10 == d;
      assert DigitChar(d) == s[|s| - 1];
      assert s == front + [s[|s| - 1]];
    }
  }

  lemma FixedDigitsInjective(x: nat, y: nat, width: nat)
    requires x < Pow10(width) && y < Pow10(width)
    ensures FixedDigits(x, width) == FixedDigits(y, width) <==> x == y
  {
    FixedDigitsValue(x, width);
    FixedDigitsValue(y, width);
  }

  /** A digit string's value is at least the value of any of its prefixes. */
  lemma {:induction false} DecimalValuePrefix(s: string, i: nat)
    requires AllDigits(s) && i <= |s|
    ensures DecimalValue(s[..i]) <= DecimalValue(s)
    decreases |s| - i
  {
    if i < |s| {
      var t := s[..i + 1];
      assert t[..|t| - 1] == s[..i];
      assert DecimalValue(t) == DecimalValue(s[..i]) * 10 + DigitValue(s[i]);
      DecimalValuePrefix(s, i + 1);
    } else {
      assert s[..i] == s;
    }
  }

  /** Rust's `str` order: lexicographic by code point, a proper prefix first. */
  predicate LexLess(a: string, b: string) {
    if |a| == 0 then |b| > 0
    else if |b| == 0 then false
    else a[0] < b[0] || (a[0] == b[0] && LexLess(a[1..], b[1..]))
  }

  /** Comparing two concatenations whose first parts have equal length. */
  lemma {:induction false} LexConcat(a1: string, a2: string, b1: string, b2: string)
    requires |a1| == |b1|
    ensures LexLess(a1 + a2, b1 + b2) <==> LexLess(a1, b1) || (a1 == b1 && LexLess(a2, b2))
  {
    if |a1| > 0 {
      assert (a1 + a2)[1..] == a1[1..] + a2;
      assert (b1 + b2)[1..] == b1[1..] + b2;
      LexConcat(a1[1..], a2, b1[1..], b2);
      if a1[0] == b1[0] && a1[1..] == b1[1..] {
        assert a1 == [a1[0]] + a1[1..];
        assert b1 == [b1[0]] + b1[1..];
      }
    } else {
      assert a1 + a2 == a2;
      assert b1 + b2 == b2;
    }
  }

  /** Equal-width zero-padded numbers sort as text exactly as they sort as numbers. */
  lemma {:induction false} FixedDigitsOrder(x: nat, y: nat, width: nat)
    requires x < Pow10(width) && y < Pow10(width)
    ensures LexLess(FixedDigits(x, width), FixedDigits(y, width)) <==> x < y
  {
    if width > 0 {
      var fx := FixedDigits(x / 10, width - 1);
      var fy := FixedDigits(y / 10, width - 1);
      LexConcat(fx, [DigitChar(x % 10)], fy, [DigitChar(y % 10)]);
      FixedDigitsOrder(x / 10, y / 10, width - 1);
      FixedDigitsInjective(x / 10, y / 10, width - 1);
    }
  }
}
