/** Decimal rendering of integers, as Python's `str(int)` (and an f-string) writes them. */
module Decimal {

  predicate IsDigit(ch: char) {
    '0' <= ch <= '9'
  }

  predicate AllDigits(s: string) {
    forall i :: 0 <= i < |s| ==> IsDigit(s[i])
  }

  function DigitChar(d: nat): (ch: char)
    requires d < 10
    ensures IsDigit(ch)
    ensures ch as int - '0' as int == d
  {
    ('0' as int + d) as char
  }

  function DigitValue(ch: char): nat
    requires IsDigit(ch)
  {
    ch as int - '0' as int
  }

  /** Base-10 text of a natural number, most significant digit first, without leading zeros. */
  function NatText(n: nat): (s: string)
    ensures |s| >= 1
    ensures AllDigits(s)
    ensures s[0] == '0' <==> n == 0
    ensures n == 0 ==> s == "0"
    decreases n
  {
    if n < 10 then [DigitChar(n)] else NatText(n / 10) + [DigitChar(n % 10)]
  }

  /** Text of an arbitrary integer: a leading minus sign for negative values. */
  function IntText(n: int): (s: string)
    ensures |s| >= 1
    ensures s[0] == '-' <==> n < 0
    ensures n >= 0 ==> AllDigits(s)
  {
    if n < 0 then "-" + NatText(-n) else NatText(n)
  }

  /** Reads a string of digits back as a number (the empty string reads as 0). */
  function ParseNat(s: string): nat
    requires AllDigits(s)
    decreases |s|
  {
    if |s| == 0 then 0 else ParseNat(s[..|s| - 1]) * 10 + DigitValue(s[|s| - 1])
  }

  /** Reading back the rendered text of `n` gives `n`. */
  lemma {:induction false} ParseNatText(n: nat)
    ensures ParseNat(NatText(n)) == n
    decreases n
  {
    var s := NatText(n);
    if n < 10 {
      assert s[..|s| - 1] == [];
    } else {
      var t := NatText(n / 10);
      assert s[..|s| - 1] == t;
      ParseNatText(n / 10);
    }
  }

  /** Distinct naturals are rendered as distinct texts. */
  lemma NatTextInjective(a: nat, b: nat)
    requires NatText(a) == NatText(b)
    ensures a == b
  {
    ParseNatText(a);
    ParseNatText(b);
  }

  /** Distinct integers are rendered as distinct texts. */
  lemma IntTextInjective(a: int, b: int)
    ensures IntText(a) == IntText(b) ==> a == b
  {
    if IntText(a) == IntText(b) {
      if a >= 0 && b >= 0 {
        NatTextInjective(a, b);
      } else if a < 0 && b < 0 {
        var ta, tb := NatText(-a), NatText(-b);
        assert IntText(a) == "-" + ta && IntText(b) == "-" + tb;
        assert ta == IntText(a)[1..] && tb == IntText(b)[1..];
        NatTextInjective(-a, -b);
      }
    }
  }
}
