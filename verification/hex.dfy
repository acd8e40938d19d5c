/** Lower-case hexadecimal formatting: Python's `f"{x:0{width}x}"` and
    its inverse `int(s, 16)`.

    The format writes the digits of `x` without a prefix and pads them on
    the left with `'0'` up to `width` characters; a value with more digits
    than `width` keeps all of them.
 */
module Hex {
  import opened Bits

  /** The character for one hexadecimal digit. */
  function Digit(d: nat): (c: char)
    requires d < 16
    ensures IsDigit(c) && DigitValue(c) == d
  {
    if d < 10 then ('0' as int + d) as char else ('a' as int + d - 10) as char
  }

  predicate IsDigit(c: char) {
    '0' <= c <= '9' || 'a' <= c <= 'f'
  }

  /** The value of one lower-case hexadecimal digit. */
  function DigitValue(c: char): (d: nat)
    requires IsDigit(c)
    ensures d < 16
  {
    if c <= '9' then c as int - '0' as int else c as int - 'a' as int + 10
  }

  predicate AllDigits(s: string) {
    forall i :: 0 <= i < |s| ==> IsDigit(s[i])
  }

  /** `format(x, 'x')`: the shortest digit string, `"0"` for zero. */
  function Digits(x: nat): (s: string)
    ensures |s| >= 1 && AllDigits(s)
    decreases x
  {
    if x < 16 then [Digit(x)] else Digits(x / 16) + [Digit(x % 16)]
  }

  /** `int(s, 16)` for a string of lower-case digits; the empty string reads as 0. */
  function Value(s: string): nat
    requires AllDigits(s)
  {
    if |s| == 0 then 0 else Value(s[..|s| - 1]) * 16 + DigitValue(s[|s| - 1])
  }

  /** `f"{x:0{width}x}"`. */
  function Format(x: nat, width: nat): (s: string)
    ensures AllDigits(s)
    ensures |s| == if |Digits(x)| < width then width else |Digits(x)|
  {
    var d := Digits(x);
    if |d| < width then seq(width - |d|, _ => '0') + d else d
  }

  /** Leading zeros do not change the value. */
  lemma {:induction false} ZerosValue(n: nat, s: string)
    requires AllDigits(s)
    ensures AllDigits(seq(n, _ => '0') + s) && Value(seq(n, _ => '0') + s) == Value(s)
    decreases |s|
  {
    var z := seq(n, _ => '0');
    if |s| == 0 {
      assert z + s == z;
      ZerosOnly(n);
    } else {
      var init := s[..|s| - 1];
      ZerosValue(n, init);
      assert (z + s)[..|z + s| - 1] == z + init;
    }
  }

  lemma {:induction false} ZerosOnly(n: nat)
    ensures AllDigits(seq(n, _ => '0')) && Value(seq(n, _ => '0')) == 0
  {
    if n > 0 {
      ZerosOnly(n - 1);
      assert seq(n, _ => '0')[..n - 1] == seq(n - 1, _ => '0');
    }
  }

  /** Reading the digits of `x` gives `x`. */
  lemma {:induction false} DigitsValue(x: nat)
    ensures Value(Digits(x)) == x
    decreases x
  {
    if x >= 16 {
      DigitsValue(x / 16);
      var d := Digits(x);
      assert d[..|d| - 1] == Digits(x / 16);
    }
  }

  /** Reading a formatted value gives the value back, whatever the width. */
  lemma {:induction false} FormatValue(x: nat, width: nat)
    ensures Value(Format(x, width)) == x
  {
    var d := Digits(x);
    DigitsValue(x);
    if |d| < width {
      ZerosValue(width - |d|, d);
    }
  }

  /** A value below `16^n` has at most `n` digits. */
  lemma {:induction false} DigitsWidth(x: nat, n: nat)
    requires n >= 1 && x < Pow2(4 * n)
    ensures |Digits(x)| <= n
    decreases n
  {
    Pow2Values();
    if x >= 16 {
      Pow2Add(4 * (n - 1), 4);
      DivBoundGeneral(x, 16, Pow2(4 * (n - 1)));
      if n == 1 {
        assert false;
      }
      DigitsWidth(x / 16, n - 1);
    }
  }

  /** A value below `16^width` formats to exactly `width` characters. */
  lemma {:induction false} FormatWidth(x: nat, width: nat)
    requires width >= 1 && x < Pow2(4 * width)
    ensures |Format(x, width)| == width
  {
    DigitsWidth(x, width);
  }
}
