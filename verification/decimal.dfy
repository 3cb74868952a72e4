/**
 * Decimal rendering of natural numbers, used by the gateway to build node
 * identifiers (`node-<n>`) and probe URLs (`http://copilot-node-<n>:4141`).
 * The parser is the inverse that shows rendering is injective.
 */
module Decimal {

  predicate IsDigit(c: char) {
    '0' <= c <= '9'
  }

  function DigitChar(d: nat): (c: char)
    requires d < 10
    ensures IsDigit(c)
    ensures c as int - '0' as int == d
  {
    ('0' as int + d) as char
  }

  /** Base-ten rendering without leading zeros. */
  function NatToDecimal(n: nat): (s: string)
    ensures |s| >= 1
    ensures forall k | 0 <= k < |s| :: IsDigit(s[k])
    ensures s[0] == '0' ==> n == 0
    decreases n
  {
    if n < 10 then [DigitChar(n)] else NatToDecimal(n / 10) + [DigitChar(n % 10)]
  }

  /** Reads a string of digits back as a number (most significant digit first). */
  function ParseDecimal(s: string): nat
    requires forall k | 0 <= k < |s| :: IsDigit(s[k])
    decreases |s|
  {
    if |s| == 0 then 0
    else
      assert IsDigit(s[|s| - 1]);
      ParseDecimal(s[..|s| - 1]) * 10 + (s[|s| - 1] as int - '0' as int)
  }

  lemma {:induction false} ParseRendersBack(n: nat)
    ensures ParseDecimal(NatToDecimal(n)) == n
    decreases n
  {
    if n >= 10 {
      var s := NatToDecimal(n);
      var front := NatToDecimal(n / 10);
      assert s == front + [DigitChar(n % 10)];
      assert s[..|s| - 1] == front;
      ParseRendersBack(n / 10);
    }
  }

  lemma NatToDecimalInjective(a: nat, b: nat)
    requires NatToDecimal(a) == NatToDecimal(b)
    ensures a == b
  {
    ParseRendersBack(a);
    ParseRendersBack(b);
  }

  /** A fixed prefix followed by a rendered number determines the number. */
  lemma PrefixedDecimalInjective(prefix: string, a: nat, b: nat)
    requires prefix + NatToDecimal(a) == prefix + NatToDecimal(b)
    ensures a == b
  {
    var sa := prefix + NatToDecimal(a);
    var sb := prefix + NatToDecimal(b);
    assert sa[|prefix|..] == NatToDecimal(a);
    assert sb[|prefix|..] == NatToDecimal(b);
    NatToDecimalInjective(a, b);
  }
}
