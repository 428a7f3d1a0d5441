/** Decimal text of natural numbers, as printf and the stream operators write it. */
module Numbers {

  function Digit(d: nat): char
    requires d < 10
  {
    ('0' as int + d) as char
  }

  function NatText(n: nat): string {
    if n < 10 then [Digit(n)] else NatText(n / 10) + [Digit(n % 10)]
  }

  /** The value of a digit of any base up to 36, or 36. */
  function DigitValue(c: char): nat {
    if '0' <= c <= '9' then c as int - '0' as int
    else if 'a' <= c <= 'z' then c as int - 'a' as int + 10
    else if 'A' <= c <= 'Z' then c as int - 'A' as int + 10
    else 36
  }

  /** The number that a digit string denotes. */
  function Accumulate(s: string, base: int): int {
    if s == "" then 0 else base * Accumulate(s[..|s| - 1], base) + DigitValue(s[|s| - 1])
  }

  /** Printing in decimal and reading back is the identity. */
  lemma {:induction false} NatTextDigits(n: nat)
    ensures |NatText(n)| > 0
    ensures forall c :: c in NatText(n) ==> '0' <= c <= '9'
    ensures Accumulate(NatText(n), 10) == n
  {
    if n < 10 {
      assert NatText(n)[..0] == "";
    } else {
      NatTextDigits(n / 10);
      assert NatText(n)[..|NatText(n)| - 1] == NatText(n / 10);
    }
  }

  lemma NatTextInjective(n: nat, m: nat)
    requires NatText(n) == NatText(m)
    ensures n == m
  {
    NatTextDigits(n);
    NatTextDigits(m);
  }
}
