/** Two places where the storage code, read with 64-bit arithmetic and
    its loop bounds exactly as written, disagrees with what it is
    evidently meant to do; the corrected behaviour is what the rest of
    the model uses. */
module Findings {
  import opened Bytes
  import NgramStorage
  import Emmagrammer

  const U64: nat := 0x1_0000_0000_0000_0000

  // ---------------------------------------------------------------------
  // calc_max_index wraps around in 64 bits

  /** `maxindex *= (gram_max + 1)` repeated n times in a `uint64_t`. */
  function PowU64(radix: nat, n: nat): (r: nat)
    ensures r < U64
  {
    if n == 0 then 1 else (PowU64(radix, n - 1) * radix) % U64
  }

  /** `calc_max_index` as written: the product and the final `+ 1` both
      wrap modulo 2^64. */
  function MaxIndexU64(gramMax: nat, n: nat): (r: nat)
    ensures r < U64
  {
    (PowU64(gramMax + 1, n) + 1) % U64
  }

  /** While the exact value fits in 64 bits the two agree. */
  lemma {:induction false} PowU64Exact(radix: nat, n: nat)
    requires radix >= 1 && Pow(radix, n) < U64
    ensures PowU64(radix, n) == Pow(radix, n)
  {
    if n > 0 {
      PowPositive(radix, n - 1);
      var p: nat := Pow(radix, n - 1);
      MulLe(1, radix, p);
      PowU64Exact(radix, n - 1);
      WrapStep(p, radix, Pow(radix, n));
    }
  }

  lemma WrapStep(p: nat, radix: nat, q: nat)
    requires q == radix * p && q < U64
    ensures (p * radix) % U64 == q
  {
    SmallMod(q);
  }

  lemma SmallMod(x: nat)
    requires x < U64
    ensures x % U64 == x
  {
  }

  lemma MaxIndexExact(gramMax: nat, n: nat)
    requires Pow(gramMax + 1, n) + 1 < U64
    ensures MaxIndexU64(gramMax, n) == NgramStorage.MaxIndex(gramMax, n)
  {
    PowU64Exact(gramMax + 1, n);
    SmallMod(Pow(gramMax + 1, n) + 1);
  }

  /** `create 255 8` passes the parameter checks, yet 256^8 = 2^64
      wraps to 0, so `maxindex` is 1 and the bit array is one byte long,
      while the n-gram ff ff ff ff ff ff ff ff addresses bit 2^64 - 1. */
  lemma MaxIndexWraps()
    ensures Emmagrammer.Create(255, 8).Ok?
    ensures MaxIndexU64(255, 8) == 1
    ensures NgramStorage.MaxIndex(255, 8) == U64 + 1
  {
    WrappedPowers();
    ExactPowers();
  }

  lemma WrappedPowers()
    ensures PowU64(256, 8) == 0
  {
    assert PowU64(256, 1) == 0x100;
    assert PowU64(256, 2) == 0x1_0000;
    assert PowU64(256, 3) == 0x100_0000;
    assert PowU64(256, 4) == 0x1_0000_0000;
    assert PowU64(256, 5) == 0x100_0000_0000;
    assert PowU64(256, 6) == 0x1_0000_0000_0000;
    assert PowU64(256, 7) == 0x100_0000_0000_0000;
  }

  lemma ExactPowers()
    ensures Pow(256, 8) == U64
  {
    assert Pow(256, 1) == 0x100;
    assert Pow(256, 2) == 0x1_0000;
    assert Pow(256, 3) == 0x100_0000;
    assert Pow(256, 4) == 0x1_0000_0000;
    assert Pow(256, 5) == 0x100_0000_0000;
    assert Pow(256, 6) == 0x1_0000_0000_0000;
    assert Pow(256, 7) == 0x100_0000_0000_0000;
  }

  // ---------------------------------------------------------------------
  // population_count skips the last partial byte

  lemma {:induction false} ClearCount(bits: seq<bv8>, m: nat)
    requires m <= 8 * |bits|
    requires forall a :: 0 <= a < m ==> !NgramStorage.Bit(bits, a)
    ensures NgramStorage.CountSetBits(bits, m) == 0
  {
    if m > 0 {
      ClearCount(bits, m - 1);
    }
  }

  /** With gram_max 2 and n 3, `maxindex` is 28: the loop scans 28 / 8 = 3
      bytes (addresses 0..23), but the n-gram 02 02 00 has address 24, in
      the fourth byte. After storing it the count `population_count` takes
      is still 0, while the whole-array count is 1. */
  lemma PopulationCountMissesLastByte()
    ensures var s := NgramStorage.Empty(2, 3);
            var g: seq<uint8> := [2, 2, 0];
            && NgramStorage.ValidNgram(s, g) && NgramStorage.Reachable(s, g)
            && NgramStorage.Contains(NgramStorage.Set(s, g), g)
            && NgramStorage.MaxIndex(2, 3) / 8 == 3
            && NgramStorage.CountSetBits(NgramStorage.Set(s, g).bits, 8 * 3) == 0
            && NgramStorage.CountSetBits(NgramStorage.Set(s, g).bits, 8 * |s.bits|) == 1
  {
    var s := NgramStorage.Empty(2, 3);
    var g: seq<uint8> := [2, 2, 0];
    assert Pow(3, 3) == 27;
    assert NgramStorage.ValidNgram(s, g);
    NgramStorage.ValidIsReachable(s, g);
    var a := NgramStorage.Addr(s, g);
    assert a == 24 by {
      assert g[..2] == [2, 2] && g[..2][..1] == [2] && g[..2][..1][..0] == [];
      assert NgramStorage.Address(3, g[..2][..1][..0]) == 0;
      assert NgramStorage.Address(3, g[..2][..1]) == 2;
      assert NgramStorage.Address(3, g[..2]) == 8;
    }
    NgramStorage.SetThenContains(s, g, g);
    NgramStorage.CountAfterSetBit(s.bits, a, 24);
    ClearCount(s.bits, 24);
    NgramStorage.SetRaisesCount(s, g);
    NgramStorage.EmptyContainsNothing(2, 3, g);
    ClearCount(s.bits, 8 * |s.bits|);
  }
}
