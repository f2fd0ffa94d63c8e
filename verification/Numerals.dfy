/** Decimal numerals, as `String(n)` writes a non-negative integer. */
module Numerals {

  function Decimal(n: nat): string {
    if n < 10 then ["0123456789"[n]] else Decimal(n / 10) + ["0123456789"[n % 10]]
  }

  /** The number a row of digits stands for. */
  function Number(s: string): int {
    if s == [] then 0 else 10 * Number(s[..|s| - 1]) + (s[|s| - 1] as int - '0' as int)
  }

  /** A numeral stands for its number, in digits and without a leading zero. */
  lemma {:induction false} DecimalReads(n: nat)
    ensures Decimal(n) != [] && Number(Decimal(n)) == n
    ensures forall c :: c in Decimal(n) ==> '0' <= c <= '9'
    ensures n > 0 ==> Decimal(n)[0] != '0'
  {
    var s := Decimal(n);
    if n >= 10 {
      DecimalReads(n / 10);
      assert s[..|s| - 1] == Decimal(n / 10) && s[|s| - 1] == "0123456789"[n % 10];
    } else {
      assert Number(s) == 10 * Number(s[..0]) + (s[0] as int - '0' as int);
    }
  }

  /** Different numbers, different numerals. */
  lemma DecimalFaithful(m: nat, n: nat)
    requires Decimal(m) == Decimal(n)
    ensures m == n
  {
    DecimalReads(m);
    DecimalReads(n);
  }

  lemma DecimalHasNoColon(n: nat)
    ensures ':' !in Decimal(n)
  {
    DecimalReads(n);
  }

  lemma DecimalEndsInDigit(n: nat)
    ensures Decimal(n) != [] && '0' <= Decimal(n)[|Decimal(n)| - 1] <= '9'
  {
    DecimalReads(n);
    assert Decimal(n)[|Decimal(n)| - 1] in Decimal(n);
  }
}
