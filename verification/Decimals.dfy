/** Numbers written in decimal. */
module Decimals {
  import opened Bytes

  predicate IsDigit(c: byte) { 0x30 <= c <= 0x39 }

  /** The decimal value of a run of digits; an empty run is 0. */
  function Value(run: seq<byte>): int {
    if run == [] then 0 else 10 * Value(run[..|run| - 1]) + (run[|run| - 1] as int - 0x30)
  }

  predicate AllDigits(run: seq<byte>) { forall i | 0 <= i < |run| :: IsDigit(run[i]) }

  lemma {:induction false} ValueNonNegative(run: seq<byte>)
    requires AllDigits(run)
    ensures Value(run) >= 0
  {
    if run != [] {
      assert IsDigit(run[|run| - 1]);
      ValueNonNegative(run[..|run| - 1]);
    }
  }

  function Decimal(n: nat): (s: seq<byte>)
    ensures s != []
  {
    if n < 10 then [0x30 + n] else Decimal(n / 10) + [0x30 + n % 10]
  }

  lemma {:induction false} DecimalValue(n: nat)
    ensures AllDigits(Decimal(n)) && Value(Decimal(n)) == n
  {
    if n >= 10 {
      DecimalValue(n / 10);
      assert Decimal(n)[..|Decimal(n)| - 1] == Decimal(n / 10);
    } else {
      assert Decimal(n)[..0] == [];
    }
  }

  lemma OneDigit(a: byte)
    ensures Value([a]) == a as int - 0x30
  {
    assert [a][..0] == [];
  }

  lemma TwoDigits(a: byte, b: byte)
    ensures Value([a, b]) == 10 * (a as int - 0x30) + b as int - 0x30
  {
    assert [a, b][..1] == [a];
    OneDigit(a);
  }
}
