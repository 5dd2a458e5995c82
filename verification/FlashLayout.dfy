/** How many sectors EraseFlashPartition erases, and when that covers the partition. */
module FlashLayout {
  import opened Bits

  function EraseBlockCount(size: nat, sector: nat): nat
    requires sector > 0
  {
    BitOr(size, sector - 1) / sector
  }

  /** What is above the bits that `m`, a power of two, stands for. */
  function Above(x: nat, m: nat): nat
    requires m > 0
  {
    x / m
  }

  /** Setting the low `k` bits does not change what is above them. */
  lemma {:induction false} OrKeepsHighBits(x: nat, k: nat)
    ensures Above(BitOr(x, Pow2(k) - 1), Pow2(k)) == Above(x, Pow2(k))
  {
    hide Above, BitOr;
    if k == 0 {
      OrZero(x);
    } else {
      var m := Pow2(k - 1);
      assert Pow2(k) == 2 * m;
      hide Pow2;
      OrKeepsHighBits(x / 2, k - 1);
      OrOneBitMore(x, m);
    }
  }

  lemma OrZero(x: nat)
    ensures BitOr(x, 0) == x
  {
  }

  lemma OrOneBitMore(x: nat, m: nat)
    requires m > 0 && Above(BitOr(x / 2, m - 1), m) == Above(x / 2, m)
    ensures Above(BitOr(x, 2 * m - 1), 2 * m) == Above(x, 2 * m)
  {
    hide BitOr;
    DivTwice(BitOr(x, 2 * m - 1), m);
    OrHalves(x, m);
    DivTwice(x, m);
  }

  /** With power-of-two sectors, the erase takes the whole sectors that fit in the partition: it reaches the
      end exactly when the partition is a whole number of sectors. */
  lemma EraseCoversExactly(size: nat, k: nat)
    ensures EraseBlockCount(size, Pow2(k)) == size / Pow2(k)
    ensures EraseBlockCount(size, Pow2(k)) * Pow2(k) >= size <==> size % Pow2(k) == 0
    ensures size < (EraseBlockCount(size, Pow2(k)) + 1) * Pow2(k)
  {
    hide BitOr, Pow2;
    OrKeepsHighBits(size, k);
    DivCovers(size, Pow2(k));
  }

  /** One sector short: 6000 bytes in 4096-byte sectors. */
  lemma EraseFallsShort()
    ensures EraseBlockCount(6000, 4096) * 4096 < 6000
  {
    assert Pow2(12) == 4096 by {
      assert Pow2(4) == 16;
      assert Pow2(8) == 256;
    }
    EraseCoversExactly(6000, 12);
  }
}
