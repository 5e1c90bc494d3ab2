/**
 * The number operations the components rely on, restricted to the integer
 * values they are applied to: `Math.ceil` of a quotient of two integers and
 * the decimal text a template literal prints for an integer.
 */
module JsNumber {

  /** `Math.ceil(a / b)` for integers `a >= 0`, `b > 0`: the least multiple count covering `a`. */
  function CeilDiv(a: nat, b: nat): (r: nat)
    requires b > 0
    ensures a <= r * b < a + b
  {
    (a + b - 1) / b
  }

  /** Ceiling division never decreases when the dividend grows. */
  lemma CeilDivMonotone(a1: nat, a2: nat, b: nat)
    requires b > 0 && a1 <= a2
    ensures CeilDiv(a1, b) <= CeilDiv(a2, b)
  {
    var r1, r2 := CeilDiv(a1, b), CeilDiv(a2, b);
    if r1 > r2 {
      assert (r2 + 1) * b <= r1 * b by { MulMonotone(r2 + 1, r1, b); }
      assert false;
    }
  }

  lemma MulMonotone(x: nat, y: nat, b: nat)
    requires x <= y
    ensures x * b <= y * b
  {
  }

  /** The decimal digit character for `d < 10`. */
  function DigitChar(d: nat): (c: char)
    requires d < 10
    ensures '0' <= c <= '9'
  {
    (('0' as int) + d) as char
  }

  /** The value of a decimal digit character. */
  function DigitValue(c: char): (d: nat)
    requires '0' <= c <= '9'
    ensures d < 10
  {
    (c as int) - ('0' as int)
  }

  predicate IsDigits(s: string) {
    forall i :: 0 <= i < |s| ==> '0' <= s[i] <= '9'
  }

  /**
   * The text `${n}` prints for a non-negative integer: decimal, no leading
   * zeros. A JavaScript number prints in exponent form from 10^21 on; the
   * counts and timestamps printed here stay far below that.
   */
  function NatToString(n: nat): (r: string)
    ensures |r| >= 1 && IsDigits(r)
    ensures r[0] == '0' ==> n == 0
  {
    if n < 10 then [DigitChar(n)] else NatToString(n / 10) + [DigitChar(n % 10)]
  }

  /** Reads a string of decimal digits back as a number. */
  function ParseNat(s: string): nat
    requires IsDigits(s)
  {
    if s == [] then 0 else ParseNat(s[..|s| - 1]) * 10 + DigitValue(s[|s| - 1])
  }

  /** Printing a number and reading it back gives the number: the text is unambiguous. */
  lemma {:induction false} ParseNatToString(n: nat)
    ensures ParseNat(NatToString(n)) == n
  {
    var r := NatToString(n);
    if n < 10 {
      assert r[..0] == [];
    } else {
      var prefix := NatToString(n / 10);
      assert r[..|r| - 1] == prefix;
      ParseNatToString(n / 10);
    }
  }

  /** The text `${i}` prints for an integer below 10^21 in magnitude. */
  function IntToString(i: int): string
  {
    if i < 0 then "-" + NatToString(-i) else NatToString(i)
  }
}
