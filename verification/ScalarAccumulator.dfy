/** The 64-limb accumulation that ends SignExchangeHash: r + k * a in base 256, before reduction. */
module ScalarAccumulator {
  import opened Bits
  import opened Bytes

  const KEY_SIZE := 32
  const LIMBS := 64
  const INT64_LIMIT := 0x8000_0000_0000_0000

  /** The number whose base-256 limbs are `s`, least significant first. Limbs may exceed a byte. */
  function Value(s: seq<int>): int {
    if s == [] then 0 else s[0] + 256 * Value(s[1..])
  }

  function Weight(n: nat): (w: int)
    ensures w > 0
  {
    if n == 0 then 1 else 256 * Weight(n - 1)
  }

  lemma {:induction false} WeightAdds(m: nat, n: nat)
    ensures Weight(m + n) == Weight(m) * Weight(n)
  {
    if m > 0 {
      WeightAdds(m - 1, n);
      assert 256 * (Weight(m - 1) * Weight(n)) == 256 * Weight(m - 1) * Weight(n);
    }
  }

  /** A limb counts 2^8 times the one before it. */
  lemma {:induction false} WeightIs(n: nat)
    ensures Weight(n) == Pow2(8 * n)
  {
    if n > 0 {
      WeightIs(n - 1);
      PowAdds(8, 8 * (n - 1));
      PowTable();
    }
  }

  /** Adding to one limb adds that limb's weight times as much. */
  lemma {:induction false} ValueUpdate(s: seq<int>, n: nat, v: int)
    requires n < |s|
    ensures Value(s[n := s[n] + v]) == Value(s) + v * Weight(n)
  {
    var t := s[n := s[n] + v];
    if n == 0 {
      assert t[1..] == s[1..];
    } else {
      assert t[1..] == s[1..][n - 1 := s[1..][n - 1] + v];
      ValueUpdate(s[1..], n - 1, v);
      assert 256 * (v * Weight(n - 1)) == v * (256 * Weight(n - 1));
    }
  }

  lemma {:induction false} ValueSnoc(s: seq<int>, d: int)
    ensures Value(s + [d]) == Value(s) + d * Weight(|s|)
  {
    if s != [] {
      assert (s + [d])[1..] == s[1..] + [d];
      ValueSnoc(s[1..], d);
      assert 256 * (d * Weight(|s| - 1)) == d * (256 * Weight(|s| - 1));
    } else {
      assert ([] + [d])[1..] == [];
    }
  }

  lemma {:induction false} ValueZeros(n: nat)
    ensures Value(seq(n, _ => 0)) == 0
  {
    if n > 0 {
      assert seq(n, _ => 0)[1..] == seq(n - 1, _ => 0);
      ValueZeros(n - 1);
    }
  }

  lemma {:induction false} ValuePad(s: seq<int>, n: nat)
    ensures Value(s + seq(n, _ => 0)) == Value(s)
  {
    if s == [] {
      assert s + seq(n, _ => 0) == seq(n, _ => 0);
      ValueZeros(n);
    } else {
      assert (s + seq(n, _ => 0))[1..] == s[1..] + seq(n, _ => 0);
      ValuePad(s[1..], n);
    }
  }

  function Ints(s: seq<byte>): (r: seq<int>)
    ensures |r| == |s| && forall i | 0 <= i < |s| :: r[i] == s[i]
  {
    seq(|s|, i requires 0 <= i < |s| => s[i])
  }

  /** The value of a prefix grows by one weighted digit at a time. */
  lemma PrefixValue(s: seq<byte>, i: nat)
    requires i < |s|
    ensures Value(Ints(s[..i + 1])) == Value(Ints(s[..i])) + s[i] * Weight(i)
  {
    assert Ints(s[..i + 1]) == Ints(s[..i]) + [s[i]];
    ValueSnoc(Ints(s[..i]), s[i]);
  }

  lemma NoDigits(s: seq<byte>)
    ensures Value(Ints(s[..0])) == 0
  {
  }

  lemma Distribute(d: int, w: int, sum: int, e: int, v: int)
    ensures d * w * (sum + e * v) == d * w * sum + d * e * (w * v)
  {
    assert d * w * (e * v) == d * e * (w * v);
  }

  function Product(a: byte, b: byte): (p: int)
    ensures 0 <= p <= 255 * 255
  {
    assert a as int * b as int <= a as int * 255;
    a as int * b as int
  }

  /** One term of the product, put at its place. */
  lemma TermAdded(s: seq<int>, i: nat, j: nat, k: seq<byte>, a: seq<byte>, sum: int)
    requires i < |k| && j < |a| && i + j < |s|
    requires Value(s) == sum + k[i] * Weight(i) * Value(Ints(a[..j]))
    ensures Value(s[i + j := s[i + j] + Product(k[i], a[j])]) == sum + k[i] * Weight(i) * Value(Ints(a[..j + 1]))
  {
    ValueUpdate(s, i + j, Product(k[i], a[j]));
    WeightAdds(i, j);
    PrefixValue(a, j);
    Distribute(k[i], Weight(i), Value(Ints(a[..j])), a[j], Weight(j));
  }

  lemma RowAdded(i: nat, k: seq<byte>, a: int, r: int)
    requires i < |k|
    ensures r + Value(Ints(k[..i])) * a + k[i] * Weight(i) * a == r + Value(Ints(k[..i + 1])) * a
  {
    PrefixValue(k, i);
  }

  function Limit(n: nat): int { 255 + n * (255 * 255) }

  /** Adds k[i] * a to the accumulator, `i` limbs up. */
  method AddRow(x: array<int>, i: nat, k: seq<byte>, a: seq<byte>)
    requires x.Length == LIMBS && |k| == |a| == KEY_SIZE && i < KEY_SIZE
    requires forall m | 0 <= m < LIMBS :: 0 <= x[m] <= Limit(i)
    modifies x
    ensures Value(x[..]) == Value(old(x[..])) + k[i] * Weight(i) * Value(Ints(a))
    ensures forall m | 0 <= m < LIMBS :: 0 <= x[m] <= Limit(i + 1)
    ensures x[LIMBS - 1] == old(x[LIMBS - 1])
  {
    hide Value, Ints, Product;
    assert Value(Ints(a[..0])) == 0 by { NoDigits(a); }
    for j := 0 to KEY_SIZE
      invariant Value(x[..]) == Value(old(x[..])) + k[i] * Weight(i) * Value(Ints(a[..j]))
      invariant forall m | 0 <= m < LIMBS :: 0 <= x[m] <= Limit(if i <= m < i + j then i + 1 else i)
      invariant x[LIMBS - 1] == old(x[LIMBS - 1])
    {
      TermAdded(x[..], i, j, k, a, Value(old(x[..])));
      ghost var s := x[..];
      x[i + j] := x[i + j] + Product(k[i], a[j]);
      assert x[..] == s[i + j := s[i + j] + Product(k[i], a[j])];
    }
    assert a[..KEY_SIZE] == a;
  }

  /** The accumulator holds r + k * a exactly; no limb overflows, and the last one is never touched. */
  method Accumulate(r: seq<byte>, k: seq<byte>, a: seq<byte>) returns (x: array<int>)
    requires |r| == |k| == |a| == 32
    ensures fresh(x) && x.Length == 64
    ensures Value(x[..]) == Value(Ints(r)) + Value(Ints(k)) * Value(Ints(a))
    ensures forall m | 0 <= m < LIMBS :: 0 <= x[m] <= 255 + 32 * 255 * 255 < INT64_LIMIT
    ensures x[LIMBS - 1] == 0
  {
    x := new int[LIMBS](_ => 0);
    for i := 0 to KEY_SIZE
      invariant x[..] == Ints(r[..i]) + seq(LIMBS - i, _ => 0)
    {
      x[i] := r[i];
    }
    assert r[..KEY_SIZE] == r;
    ValuePad(Ints(r), LIMBS - KEY_SIZE);
    NoDigits(k);
    for i := 0 to KEY_SIZE
      invariant Value(x[..]) == Value(Ints(r)) + Value(Ints(k[..i])) * Value(Ints(a))
      invariant forall m | 0 <= m < LIMBS :: 0 <= x[m] <= Limit(i)
      invariant x[LIMBS - 1] == 0
    {
      AddRow(x, i, k, a);
      RowAdded(i, k, Value(Ints(a)), Value(Ints(r)));
    }
    assert k[..KEY_SIZE] == k;
  }
}
