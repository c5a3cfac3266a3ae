/**
 * Decimal rendering of integers (`String(n)`, `Date.now()` in a file name) and
 * `String.prototype.padStart` with a one-character fill, together with the
 * digit value that reads a rendered number back.
 */
module Numerals {

  predicate IsDigit(c: char) {
    '0' <= c <= '9'
  }

  predicate AllDigits(s: string) {
    forall k :: 0 <= k < |s| ==> IsDigit(s[k])
  }

  function DigitChar(d: nat): (c: char)
    requires d < 10
    ensures IsDigit(c) && c as int - '0' as int == d
  {
    ('0' as int + d) as char
  }

  function DigitValue(c: char): nat
    requires IsDigit(c)
  {
    c as int - '0' as int
  }

  function Pow10(k: nat): (p: nat)
    ensures p > 0
  {
    if k == 0 then 1 else 10 * Pow10(k - 1)
  }

  /** `String(n)` for 0 <= n < 10^21 (larger numbers render in exponent notation): its digits, most significant first, no leading zero. */
  function Decimal(n: nat): (s: string)
    ensures 0 < |s| && AllDigits(s)
    ensures forall k: nat :: 0 < k ==> (|s| <= k <==> n < Pow10(k))
  {
    if n < 10 then
      assert forall k: nat :: k > 0 ==> Pow10(k) >= 10 by {
        forall k: nat | k > 0 ensures Pow10(k) >= 10 { assert Pow10(k) == 10 * Pow10(k - 1); }
      }
      [DigitChar(n)]
    else
      var r := Decimal(n / 10) + [DigitChar(n % 10)];
      assert forall k: nat :: 0 < k ==> (|r| <= k <==> n < Pow10(k)) by {
        forall k: nat | 0 < k ensures |r| <= k <==> n < Pow10(k) {
          if k > 1 {
            assert Pow10(k) == 10 * Pow10(k - 1);
            assert n / 10 < Pow10(k - 1) <==> n < 10 * Pow10(k - 1);
          }
        }
      }
      r
  }

  /** `String(n)` starts with a zero only for zero itself. */
  lemma {:induction false} DecimalNoLeadingZero(n: nat)
    ensures Decimal(n)[0] == '0' ==> n == 0
  {
    if n >= 10 {
      DecimalNoLeadingZero(n / 10);
      assert Decimal(n)[0] == Decimal(n / 10)[0];
    }
  }

  /** The number a string of decimal digits denotes; leading zeros allowed. */
  function Value(s: string): nat
    requires AllDigits(s)
  {
    if s == [] then 0 else Value(s[..|s| - 1]) * 10 + DigitValue(s[|s| - 1])
  }

  /** `c` repeated `k` times. */
  function Repeat(c: char, k: nat): (r: string)
    ensures |r| == k
    ensures forall i :: 0 <= i < k ==> r[i] == c
  {
    if k == 0 then [] else Repeat(c, k - 1) + [c]
  }

  /**
   * `s.padStart(width, fill)`: fills on the left up to `width` characters and
   * never truncates a string that is already as long.
   */
  function PadStart(s: string, width: nat, fill: char): (r: string)
    ensures |r| == if |s| >= width then |s| else width
    ensures r[|r| - |s|..] == s
    ensures forall k :: 0 <= k < |r| - |s| ==> r[k] == fill
  {
    if |s| >= width then s else Repeat(fill, width - |s|) + s
  }

  /** Reading a rendered number back gives the number. */
  lemma {:induction false} ValueOfDecimal(n: nat)
    ensures Value(Decimal(n)) == n
  {
    var s := Decimal(n);
    if n >= 10 {
      assert s[..|s| - 1] == Decimal(n / 10);
      ValueOfDecimal(n / 10);
    }
  }

  lemma {:induction false} ValueOfZeros(k: nat)
    ensures AllDigits(Repeat('0', k)) && Value(Repeat('0', k)) == 0
  {
    if k > 0 {
      var z := Repeat('0', k);
      assert z[..k - 1] == Repeat('0', k - 1);
      ValueOfZeros(k - 1);
    }
  }

  /** Zero padding on the left does not change the value of a digit string. */
  lemma {:induction false} ValueIgnoresLeadingZeros(k: nat, s: string)
    requires AllDigits(s)
    ensures AllDigits(Repeat('0', k) + s)
    ensures Value(Repeat('0', k) + s) == Value(s)
  {
    var t := Repeat('0', k) + s;
    if s == [] {
      assert t == Repeat('0', k);
      ValueOfZeros(k);
    } else {
      var s' := s[..|s| - 1];
      assert t[..|t| - 1] == Repeat('0', k) + s';
      ValueIgnoresLeadingZeros(k, s');
    }
  }

  /** Zero padding keeps a rendered number readable: its digits still give the number. */
  lemma ValueOfPadded(n: nat, width: nat)
    ensures AllDigits(PadStart(Decimal(n), width, '0'))
    ensures Value(PadStart(Decimal(n), width, '0')) == n
  {
    var d := Decimal(n);
    ValueOfDecimal(n);
    if |d| < width {
      ValueIgnoresLeadingZeros(width - |d|, d);
    }
  }
}
