/** Decimal rendering of natural numbers, as JavaScript's `String(n)` does for array
    indices, and its inverse. */
module Decimal {
  import opened Options

  function Digit(d: nat): char
    requires d < 10
  {
    "0123456789"[d]
  }

  function DigitValue(c: char): Option<nat> {
    if '0' <= c <= '9' then Some(c as int - '0' as int) else None
  }

  /** `String(n)`: the shortest decimal spelling, most significant digit first. */
  function NatToString(n: nat): (r: string)
    ensures |r| >= 1
    decreases n
  {
    if n < 10 then [Digit(n)] else NatToString(n / 10) + [Digit(n % 10)]
  }

  /** Only digits appear in a rendered number. */
  lemma {:induction false} NatToStringDigits(n: nat)
    ensures forall i :: 0 <= i < |NatToString(n)| ==> '0' <= NatToString(n)[i] <= '9'
    decreases n
  {
    if n >= 10 {
      NatToStringDigits(n / 10);
    }
  }

  /** Reads a non-empty run of decimal digits. */
  function ParseNat(s: string): Option<nat>
    decreases |s|
  {
    if |s| == 0 then None
    else if |s| == 1 then DigitValue(s[0])
    else
      match (ParseNat(s[..|s| - 1]), DigitValue(s[|s| - 1]))
      case (Some(hi), Some(lo)) => Some(10 * hi + lo)
      case _ => None
  }

  /** Parsing a rendered number gives the number back. */
  lemma {:induction false} ParseNatToString(n: nat)
    ensures ParseNat(NatToString(n)) == Some(n)
    decreases n
  {
    if n >= 10 {
      ParseNatToString(n / 10);
      var s := NatToString(n);
      assert s[..|s| - 1] == NatToString(n / 10);
    }
  }

  /** Distinct numbers have distinct spellings. */
  lemma NatToStringInjective(m: nat, n: nat)
    requires NatToString(m) == NatToString(n)
    ensures m == n
  {
    ParseNatToString(m);
    ParseNatToString(n);
  }
}
