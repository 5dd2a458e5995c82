/** Powers of two and bitwise or, on natural numbers. */
module Bits {
  /** Bitwise or of two natural numbers. */
  function BitOr(a: nat, b: nat): nat {
    if a == 0 then b
    else if b == 0 then a
    else (if a % 2 == 1 || b % 2 == 1 then 1 else 0) + 2 * BitOr(a / 2, b / 2)
  }

  function Pow2(k: nat): (r: nat)
    ensures r > 0
  {
    if k == 0 then 1 else 2 * Pow2(k - 1)
  }

  lemma {:induction false} PowIncreases(m: nat, n: nat)
    requires m < n
    ensures Pow2(m) < Pow2(n)
    decreases n
  {
    if m < n - 1 { PowIncreases(m, n - 1); }
  }

  lemma PowInjective(m: nat, n: nat)
    ensures Pow2(m) == Pow2(n) <==> m == n
  {
    if m < n { PowIncreases(m, n); }
    if n < m { PowIncreases(n, m); }
  }

  lemma PowTable()
    ensures Pow2(8) == 0x100 && Pow2(31) == 0x8000_0000 && Pow2(32) == 0x1_0000_0000
  {
    assert Pow2(4) == 16;
    assert Pow2(8) == 0x100;
    assert Pow2(12) == 0x1000;
    assert Pow2(16) == 0x1_0000;
    assert Pow2(20) == 0x10_0000;
    assert Pow2(24) == 0x100_0000;
    assert Pow2(28) == 0x1000_0000;
  }

  lemma {:induction false} PowAdds(m: nat, n: nat)
    ensures Pow2(m + n) == Pow2(m) * Pow2(n)
  {
    if n > 0 { PowAdds(m, n - 1); }
  }

  /** Bit `i` of a number. */
  predicate Bit(x: nat, i: nat) {
    if i == 0 then x % 2 == 1 else Bit(x / 2, i - 1)
  }

  /** A bit of the or is set exactly if it is set in one of the two. */
  lemma {:induction false} OrBits(a: nat, b: nat, i: nat)
    ensures Bit(BitOr(a, b), i) <==> Bit(a, i) || Bit(b, i)
    decreases i
  {
    if a == 0 {
      ZeroBits(i);
    } else if b == 0 {
      ZeroBits(i);
    } else {
      OrSplits(a, b);
      hide BitOr;
      if i > 0 { OrBits(a / 2, b / 2, i - 1); }
    }
  }

  lemma OrSplits(a: nat, b: nat)
    requires a > 0 && b > 0
    ensures BitOr(a, b) / 2 == BitOr(a / 2, b / 2)
    ensures BitOr(a, b) % 2 == 1 <==> a % 2 == 1 || b % 2 == 1
  {
    var low := if a % 2 == 1 || b % 2 == 1 then 1 else 0;
    assert BitOr(a, b) == low + 2 * BitOr(a / 2, b / 2);
  }

  lemma {:induction false} ZeroBits(i: nat)
    ensures !Bit(0, i)
  {
    if i > 0 { ZeroBits(i - 1); }
  }

  lemma OrHalves(x: nat, m: nat)
    requires m > 0
    ensures BitOr(x, 2 * m - 1) / 2 == BitOr(x / 2, m - 1)
  {
    assert (2 * m - 1) / 2 == m - 1;
    if x > 0 {
      var low := if x % 2 == 1 || (2 * m - 1) % 2 == 1 then 1 else 0;
      assert BitOr(x, 2 * m - 1) == low + 2 * BitOr(x / 2, m - 1);
    }
  }

  lemma DivTwice(x: nat, m: nat)
    requires m > 0
    ensures x / (2 * m) == (x / 2) / m
  {
    var q, r := x / 2 / m, x / 2 % m;
    assert x / 2 == q * m + r;
    var s := 2 * r + x % 2;
    assert x == q * (2 * m) + s && 0 <= s < 2 * m;
    DivOf(q, 2 * m, s);
  }

  lemma DivOf(q: nat, m: nat, r: nat)
    requires r < m
    ensures (q * m + r) / m == q
  {
    var n := q * m + r;
    var p := n / m;
    if p < q {
      MulLe(p + 1, q, m);
    } else if p > q {
      MulLe(q + 1, p, m);
    }
  }

  lemma MulLe(a: nat, b: nat, m: nat)
    requires a <= b
    ensures a * m <= b * m
  {
  }

  lemma DivCovers(size: nat, m: nat)
    requires m > 0
    ensures (size / m) * m >= size <==> size % m == 0
    ensures size < (size / m + 1) * m
  {
    var q := size / m;
    assert size == q * m + size % m;
    assert (q + 1) * m == q * m + m;
  }
}
