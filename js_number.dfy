/**
 * The few JavaScript number and string built-ins that the quiz metrics rely on,
 * stated over unbounded integers: `Math.round(part / whole * 100)` for a
 * non-negative ratio, the truncating remainder `%`, `Number.prototype.toString`
 * on integers and `String.prototype.padStart`. A decimal reader is given beside
 * `toString` as its inverse.
 */
module JsNumber {
  import opened QuizTypes

  /**
   * `Math.round((part / whole) * 100)` computed exactly: the integer nearest to
   * 100 * part / whole, a tie rounding up (as `Math.round` does for a
   * non-negative argument).
   */
  function RoundPercent(part: nat, whole: nat): (r: nat)
    requires whole > 0
    ensures 2 * whole * r <= 200 * part + whole < 2 * whole * (r + 1)
  {
    (200 * part + whole) / (2 * whole)
  }

  /** A share of a whole is between 0 and 100 percent. */
  lemma RoundPercentAtMost100(part: nat, whole: nat)
    requires 0 < whole && part <= whole
    ensures RoundPercent(part, whole) <= 100
  {
    var r := RoundPercent(part, whole);
    if r >= 101 {
      assert 2 * whole * r >= 2 * whole * 101 by {
        MulMonotone(2 * whole, 101, r);
      }
      assert false;
    }
  }

  /** A larger share never rounds to a smaller percentage. */
  lemma RoundPercentMonotone(part0: nat, part1: nat, whole: nat)
    requires 0 < whole && part0 <= part1
    ensures RoundPercent(part0, whole) <= RoundPercent(part1, whole)
  {
    var r0, r1 := RoundPercent(part0, whole), RoundPercent(part1, whole);
    if r0 > r1 {
      assert 2 * whole * r0 >= 2 * whole * (r1 + 1) by {
        MulMonotone(2 * whole, r1 + 1, r0);
      }
      assert false;
    }
  }

  /** Nothing is 0 percent and everything is 100 percent. */
  lemma RoundPercentEnds(whole: nat)
    requires whole > 0
    ensures RoundPercent(0, whole) == 0
    ensures RoundPercent(whole, whole) == 100
  {
    var r0, r1 := RoundPercent(0, whole), RoundPercent(whole, whole);
    if r0 >= 1 {
      MulMonotone(2 * whole, 1, r0);
      assert false;
    }
    if r1 >= 101 {
      MulMonotone(2 * whole, 101, r1);
      assert false;
    }
    if r1 <= 99 {
      MulMonotone(2 * whole, r1 + 1, 100);
      assert false;
    }
  }

  lemma MulMonotone(k: nat, a: int, b: int)
    requires a <= b
    ensures k * a <= k * b
  {
  }

  /**
   * JavaScript's `a % b` for a positive divisor: the remainder of division
   * truncated toward zero, which takes the sign of the dividend.
   */
  function TruncRem(a: int, b: int): (r: int)
    requires b > 0
    ensures a >= 0 ==> 0 <= r < b
    ensures a < 0 ==> -b < r <= 0
    ensures r == a - b * TruncQuot(a, b)
  {
    if a >= 0 then a % b else -((-a) % b)
  }

  /** Integer division truncated toward zero, the quotient that goes with `%`. */
  function TruncQuot(a: int, b: int): int
    requires b > 0
  {
    if a >= 0 then a / b else -((-a) / b)
  }

  predicate IsDigit(c: char) {
    '0' <= c <= '9'
  }

  predicate AllDigits(s: string) {
    forall i :: 0 <= i < |s| ==> IsDigit(s[i])
  }

  function DigitChar(d: nat): (c: char)
    requires d < 10
    ensures IsDigit(c) && c as int == '0' as int + d
  {
    ('0' as int + d) as char
  }

  function DigitValue(c: char): (d: nat)
    requires IsDigit(c)
    ensures d < 10 && DigitChar(d) == c
  {
    (c as int - '0' as int) as nat
  }

  /**
   * `n.toString()` for a non-negative integer: its decimal digits, with no
   * leading zero unless the number is 0.
   */
  function NatToString(n: nat): (s: string)
    ensures |s| >= 1 && AllDigits(s)
    ensures s[0] == '0' ==> n == 0
  {
    if n < 10 then [DigitChar(n)] else NatToString(n / 10) + [DigitChar(n % 10)]
  }

  /** `i.toString()` for any integer: a minus sign before the digits of a negative number. */
  function IntToString(i: int): (s: string)
    ensures |s| >= 1 && (s[0] == '-' <==> i < 0)
    ensures i >= 0 ==> s == NatToString(i)
    ensures i < 0 ==> s == "-" + NatToString(-i)
  {
    if i < 0 then "-" + NatToString(-i) else NatToString(i)
  }

  /** The number a string of decimal digits denotes. */
  function DigitsValue(s: string): nat
    requires AllDigits(s)
  {
    if s == [] then 0 else 10 * DigitsValue(s[..|s| - 1]) + DigitValue(s[|s| - 1])
  }

  /** Reading back what `toString` wrote gives the number again. */
  lemma {:induction false} NatToStringRoundTrip(n: nat)
    ensures DigitsValue(NatToString(n)) == n
  {
    var s := NatToString(n);
    if n >= 10 {
      NatToStringRoundTrip(n / 10);
      assert s[..|s| - 1] == NatToString(n / 10);
    }
  }

  /** Two digits denote ten times the first plus the second. */
  lemma DigitsValueTwo(a: nat, b: nat)
    requires a < 10 && b < 10
    ensures DigitsValue([DigitChar(a), DigitChar(b)]) == 10 * a + b
  {
    var s := [DigitChar(a), DigitChar(b)];
    assert s[..1] == [DigitChar(a)];
    assert s[..1][..0] == [];
    assert DigitValue(DigitChar(a)) == a && DigitValue(DigitChar(b)) == b;
    assert DigitsValue(s[..1]) == a;
  }

  /** Reads a signed decimal integer: an optional `-` followed by at least one digit. */
  function ReadInt(s: string): Option<int> {
    if |s| > 1 && s[0] == '-' && AllDigits(s[1..]) then Some(-(DigitsValue(s[1..]) as int))
    else if |s| > 0 && AllDigits(s) then Some(DigitsValue(s))
    else None
  }

  /** Reading back what `toString` wrote for any integer, negative ones included, gives the integer again. */
  lemma IntToStringRoundTrip(i: int)
    ensures ReadInt(IntToString(i)) == Some(i)
  {
    if i < 0 {
      NatToStringRoundTrip(-i);
      assert IntToString(i)[1..] == NatToString(-i);
    } else {
      NatToStringRoundTrip(i);
    }
  }

  /** Integer writing is one-to-one. */
  lemma IntToStringInjective(i: int, j: int)
    requires IntToString(i) == IntToString(j)
    ensures i == j
  {
    IntToStringRoundTrip(i);
    IntToStringRoundTrip(j);
  }

  /** Decimal writing is one-to-one. */
  lemma NatToStringInjective(m: nat, n: nat)
    requires NatToString(m) == NatToString(n)
    ensures m == n
  {
    NatToStringRoundTrip(m);
    NatToStringRoundTrip(n);
  }

  /** A number below 100 written with `padStart(2, '0')` is exactly its two decimal digits. */
  lemma TwoDigits(n: nat)
    requires n < 100
    ensures PadStart(NatToString(n), 2, '0') == [DigitChar(n / 10), DigitChar(n % 10)]
  {
    if n >= 10 {
      assert NatToString(n / 10) == [DigitChar(n / 10)];
    }
  }

  /**
   * `s.padStart(len, c)`: `s` preceded by as many copies of `c` as it lacks to
   * reach length `len`; a string already that long is returned unchanged.
   */
  function PadStart(s: string, len: nat, c: char): (r: string)
    ensures |r| == if |s| < len then len else |s|
    ensures r[|r| - |s|..] == s
    ensures forall i :: 0 <= i < |r| - |s| ==> r[i] == c
  {
    if |s| < len then seq(len - |s|, _ => c) + s else s
  }
}
