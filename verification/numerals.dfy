/** Decimal integer text, standing in for `int.Parse` on the year fields:
    a non-empty run of ASCII digits denotes a natural number, and every
    other text is a format error. */
module Numerals {
  import opened Wrappers

  predicate IsDigit(c: char) {
    '0' <= c <= '9'
  }

  /** A non-empty string of decimal digits (leading zeros allowed). */
  predicate IsNumeral(s: string) {
    |s| > 0 && forall i :: 0 <= i < |s| ==> IsDigit(s[i])
  }

  function DigitValue(c: char): (d: nat)
    requires IsDigit(c)
    ensures d < 10
  {
    (c as int) - ('0' as int)
  }

  function DigitChar(d: nat): (c: char)
    requires d < 10
    ensures IsDigit(c) && DigitValue(c) == d
  {
    (('0' as int) + d) as char
  }

  /** The number denoted by a string of digits, most significant first. */
  function Value(s: string): nat
    requires forall i :: 0 <= i < |s| ==> IsDigit(s[i])
  {
    if |s| == 0 then 0
    else Value(s[..|s| - 1]) * 10 + DigitValue(s[|s| - 1])
  }

  /** The canonical decimal text of `n`: no leading zero unless `n` is 0. */
  function Show(n: nat): (s: string)
    ensures IsNumeral(s)
    ensures |s| > 1 ==> s[0] != '0'
  {
    if n < 10 then [DigitChar(n)]
    else Show(n / 10) + [DigitChar(n % 10)]
  }

  /** The text parsed as a number, or `None` when it is not a numeral. */
  function Parse(s: string): (r: Option<nat>)
  {
    if IsNumeral(s) then Some(Value(s)) else None
  }

  /** Parsing the canonical text of a number gives the number back. */
  lemma {:induction false} ParseShow(n: nat)
    ensures Parse(Show(n)) == Some(n)
  {
    if n >= 10 {
      ParseShow(n / 10);
      var s := Show(n);
      assert s[..|s| - 1] == Show(n / 10);
    } else {
      var s := Show(n);
      assert s == [DigitChar(n)];
      assert s[..0] == [];
      assert Value(s) == Value(s[..0]) * 10 + DigitValue(s[0]);
    }
  }

  /** A numeral without superfluous leading zeros is the canonical text of
      the number it parses to. */
  lemma {:induction false} ShowParse(s: string)
    requires IsNumeral(s)
    requires |s| == 1 || s[0] != '0'
    ensures Parse(s).Some? && Show(Parse(s).value) == s
  {
    if |s| > 1 {
      var p := s[..|s| - 1];
      assert p[0] == s[0];
      ShowParse(p);
      PositiveValue(p);
      var n := Value(s);
      assert n / 10 == Value(p) && n % 10 == DigitValue(s[|s| - 1]);
      assert s == p + [s[|s| - 1]];
    } else {
      assert s[..0] == [];
      assert Value(s) == DigitValue(s[0]);
      assert s == [DigitChar(DigitValue(s[0]))];
    }
  }

  /** A numeral starting with a non-zero digit denotes a positive number. */
  lemma {:induction false} PositiveValue(s: string)
    requires IsNumeral(s) && s[0] != '0'
    ensures Value(s) > 0
  {
    if |s| > 1 {
      PositiveValue(s[..|s| - 1]);
    }
  }
}
