/** Decimal digits: zero-padded rendering of numbers and reading them back. */
module Digits {

  /** A decimal digit. Python's `\d` and int() also accept other Unicode digits;
      the model keeps to the ASCII ones (see README). */
  predicate IsDigit(c: char) {
    '0' <= c <= '9'
  }

  predicate AllDigits(s: string) {
    forall i :: 0 <= i < |s| ==> IsDigit(s[i])
  }

  function DigitValue(c: char): (n: nat)
    requires IsDigit(c)
    ensures n < 10
  {
    c as int - '0' as int
  }

  function Digit(n: nat): (c: char)
    requires n < 10
    ensures IsDigit(c) && DigitValue(c) == n
  {
    ('0' as int + n) as char
  }

  function Pow10(k: nat): (p: nat)
    ensures p >= 1
  {
    if k == 0 then 1 else 10 * Pow10(k - 1)
  }

  /** The last `width` decimal digits of n, with leading zeros (what `%02d`,
      `%04d` and strftime's numeric fields print for numbers that fit). */
  function Pad(n: nat, width: nat): (s: string)
    ensures |s| == width && AllDigits(s)
  {
    if width == 0 then [] else Pad(n / 10, width - 1) + [Digit(n % 10)]
  }

  /** The value of a string of decimal digits. */
  function Number(s: string): nat
    requires AllDigits(s)
  {
    if s == [] then 0 else 10 * Number(s[..|s| - 1]) + DigitValue(s[|s| - 1])
  }

  /** Reading back a padded number gives the number, when it fits the width. */
  lemma {:induction false} NumberOfPad(n: nat, width: nat)
    requires n < Pow10(width)
    ensures Number(Pad(n, width)) == n
  {
    if width > 0 {
      var q, p := n / 10, Pow10(width - 1);
      assert 10 * q <= n < 10 * p;
      NumberOfPad(q, width - 1);
      var s := Pad(n, width);
      assert s == Pad(q, width - 1) + [Digit(n % 10)];
      assert s[..|s| - 1] == Pad(q, width - 1);
      assert Number(s) == 10 * q + n % 10;
    }
  }

  /** Padding the value of a digit string to its own length gives the string back. */
  lemma {:induction false} PadOfNumber(s: string)
    requires AllDigits(s)
    ensures Number(s) < Pow10(|s|)
    ensures Pad(Number(s), |s|) == s
  {
    if s != [] {
      var init := s[..|s| - 1];
      PadOfNumber(init);
      var n := Number(s);
      assert n / 10 == Number(init) && n % 10 == DigitValue(s[|s| - 1]);
      assert s == init + [s[|s| - 1]];
    }
  }

  /** The two-digit case spelled out, as the clock and date fields use it. */
  lemma PadTwo(n: nat)
    requires n < 100
    ensures Pad(n, 2) == [Digit(n / 10), Digit(n % 10)]
  {
    assert Pad(n, 2) == Pad(n / 10, 1) + [Digit(n % 10)];
    assert Pad(n / 10, 1) == [Digit(n / 10 % 10)];
  }

  lemma NumberTwo(s: string)
    requires |s| == 2 && AllDigits(s)
    ensures Number(s) == 10 * DigitValue(s[0]) + DigitValue(s[1])
  {
    var init := s[..1];
    assert init[..0] == [];
    assert Number(init) == DigitValue(s[0]);
  }
}
