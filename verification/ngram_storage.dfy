/** The n-gram bit-set store of ngram-storage.c without its mmap plumbing:
    sizing, mixed-radix addressing, setting and testing one bit per
    n-gram, and the bit-density statistic. */
module NgramStorage {
  import opened Wrappers
  import opened Bytes

  /** Size of the scratch parse buffer that follows the header. */
  const MaxNgramBuffer: nat := 0x1000
  /** The metadata union `header[1L << 16]`. */
  const HeaderUnionSize: nat := 0x1_0000
  /** `last_fold_tranform_table[256]`. */
  const FoldTableSize: nat := 256
  /** `sizeof(struct Ngram_Storage)`: header union, scratch buffer and fold
      table; the flexible `bits[]` member adds nothing. */
  const StructSize: nat := HeaderUnionSize + MaxNgramBuffer + FoldTableSize

  /** Byte offsets of the parts of the mapped file, in file order. */
  const ScratchOffset: nat := HeaderUnionSize
  const FoldTableOffset: nat := ScratchOffset + MaxNgramBuffer
  const BitsOffset: nat := FoldTableOffset + FoldTableSize

  /** `calc_max_index`: every address an n-gram can have, plus one guard slot. */
  function MaxIndex(gramMax: int, n: nat): (r: nat)
    requires 0 <= gramMax
    ensures r >= 2
  {
    PowPositive(gramMax + 1, n);
    Pow(gramMax + 1, n) + 1
  }

  /** Bytes of the bit array: `maxindex / 8 + 1`. */
  function BitArrayBytes(gramMax: int, n: nat): nat
    requires 0 <= gramMax
  {
    MaxIndex(gramMax, n) / 8 + 1
  }

  /** `calc_size`: the structure followed by the bit array, long enough
      that the byte of every address below maxindex, the highest one
      included, lies inside the file. */
  function CalcSize(gramMax: int, n: nat): (r: nat)
    requires 0 <= gramMax
    ensures BitsOffset + (MaxIndex(gramMax, n) - 1) / 8 < r
  {
    StructSize + MaxIndex(gramMax, n) / 8 + 1
  }

  // ---------------------------------------------------------------------
  // Addressing

  /** The n-gram read as a most-significant-digit-first number in base
      `radix`: `pos = grams[0]; pos = pos * radix + grams[i]`. */
  function Address(radix: nat, g: seq<uint8>): nat
  {
    if |g| == 0 then 0 else Address(radix, g[..|g| - 1]) * radix + g[|g| - 1]
  }

  /** Every symbol is at most `gramMax`. */
  ghost predicate SymbolsBelow(gramMax: int, g: seq<uint8>)
  {
    forall i :: 0 <= i < |g| ==> g[i] <= gramMax
  }

  /** Every symbol after the first is at most `gramMax`: what the
      assertions in the address loop check. */
  ghost predicate TailBelow(gramMax: int, g: seq<uint8>)
  {
    forall i :: 1 <= i < |g| ==> g[i] <= gramMax
  }

  /** Multiplying by a non-negative factor keeps an order. */
  lemma {:induction false} AddressBound(gramMax: int, g: seq<uint8>)
    requires 0 <= gramMax
    requires SymbolsBelow(gramMax, g)
    ensures Address(gramMax + 1, g) < Pow(gramMax + 1, |g|)
  {
    if |g| > 0 {
      var p := g[..|g| - 1];
      assert SymbolsBelow(gramMax, p);
      AddressBound(gramMax, p);
      var radix := gramMax + 1;
      var a := Address(radix, p);
      var big := Pow(radix, |p|);
      MulLe(a, big - 1, radix);
      assert a * radix <= big * radix - radix;
      assert Pow(radix, |g|) == radix * big;
    }
  }

  /** The byte an n-gram of valid symbols addresses lies inside the file
      that `calc_size` lays out. */
  lemma NgramByteInRegion(gramMax: int, n: nat, g: seq<uint8>)
    requires 0 <= gramMax && |g| == n && SymbolsBelow(gramMax, g)
    ensures Address(gramMax + 1, g) < MaxIndex(gramMax, n) - 1
    ensures BitsOffset + Address(gramMax + 1, g) / 8 < CalcSize(gramMax, n)
  {
    AddressBound(gramMax, g);
  }

  /** The inverse of `Address`: the `k` base-`radix` digits of `a`. */
  function Decode(radix: nat, k: nat, a: nat): (r: seq<int>)
    requires radix >= 1
    ensures |r| == k
  {
    if k == 0 then [] else Decode(radix, k - 1, a / radix) + [a % radix]
  }

  /** Decoding an address gives back the n-gram (the encoding is invertible). */
  lemma {:induction false} DecodeAddress(gramMax: int, g: seq<uint8>)
    requires 0 <= gramMax
    requires SymbolsBelow(gramMax, g)
    ensures Decode(gramMax + 1, |g|, Address(gramMax + 1, g)) == g
  {
    if |g| > 0 {
      var p := g[..|g| - 1];
      assert SymbolsBelow(gramMax, p);
      DecodeAddress(gramMax, p);
      DivModOfDigit(Address(gramMax + 1, p), gramMax + 1, g[|g| - 1]);
      assert g == p + [g[|g| - 1]];
    }
  }

  /** Distinct n-grams of one length have distinct addresses. Only the
      symbols after the first need be at most `gramMax`: a larger first
      symbol only scales the leading digit. */
  lemma {:induction false} AddressInjective(gramMax: int, g: seq<uint8>, h: seq<uint8>)
    requires 0 <= gramMax
    requires TailBelow(gramMax, g) && TailBelow(gramMax, h)
    requires |g| == |h|
    requires Address(gramMax + 1, g) == Address(gramMax + 1, h)
    ensures g == h
  {
    if |g| == 1 {
      assert Address(gramMax + 1, g) == g[0] && Address(gramMax + 1, h) == h[0];
      assert g == [g[0]] && h == [h[0]];
    } else if |g| > 1 {
      var radix := gramMax + 1;
      var pg, ph := g[..|g| - 1], h[..|h| - 1];
      var x, y := g[|g| - 1], h[|h| - 1];
      assert x <= gramMax && y <= gramMax;
      SameDigits(Address(radix, pg), x, Address(radix, ph), y, radix);
      assert TailBelow(gramMax, pg) && TailBelow(gramMax, ph);
      AddressInjective(gramMax, pg, ph);
      assert g == pg + [x] && h == ph + [y];
    }
  }

  /** Two numbers with the same value in base `radix` have the same last
      digit and the same leading part. */
  lemma SameDigits(a: nat, x: nat, b: nat, y: nat, radix: nat)
    requires x < radix && y < radix
    requires a * radix + x == b * radix + y
    ensures a == b && x == y
  {
    DivModOfDigit(a, radix, x);
    DivModOfDigit(b, radix, y);
  }

  // ---------------------------------------------------------------------
  // Bits

  /** `1 << k` for a bit position 0..7. */
  function Mask(k: nat): bv8
    requires k < 8
  {
    if k == 0 then 0x01 else if k == 1 then 0x02 else if k == 2 then 0x04
    else if k == 3 then 0x08 else if k == 4 then 0x10 else if k == 5 then 0x20
    else if k == 6 then 0x40 else 0x80
  }

  /** Bit `a & 7` of byte `a >> 3`. */
  predicate Bit(bits: seq<bv8>, a: nat)
    requires a / 8 < |bits|
  {
    bits[a / 8] & Mask(a % 8) != 0
  }

  lemma OrMask(x: bv8, j: nat, k: nat)
    requires j < 8 && k < 8
    ensures ((x | Mask(k)) & Mask(j) != 0) == (j == k || x & Mask(j) != 0)
  {
  }

  /** `bits[pos >> 3] |= 1 << (pos & 7)`. */
  function SetBit(bits: seq<bv8>, a: nat): (r: seq<bv8>)
    requires a / 8 < |bits|
    ensures |r| == |bits|
    ensures forall b :: 0 <= b < 8 * |bits| ==> (Bit(r, b) <==> Bit(bits, b) || b == a)
  {
    var r := bits[a / 8 := bits[a / 8] | Mask(a % 8)];
    forall b | 0 <= b < 8 * |bits|
      ensures Bit(r, b) <==> Bit(bits, b) || b == a
    {
      if b / 8 == a / 8 {
        OrMask(bits[a / 8], b % 8, a % 8);
      }
    }
    r
  }

  // ---------------------------------------------------------------------
  // The store

  /** Parameters `create_ngram_storage` can lay out. */
  predicate ValidParams(gramMax: int, n: int)
  {
    0 <= gramMax <= 255 && n >= 1
  }

  /** The mapped bit array together with the two parameters it was sized for. */
  datatype Store = Store(gramMax: int, n: int, bits: seq<bv8>)

  ghost predicate Valid(s: Store)
  {
    ValidParams(s.gramMax, s.n) && |s.bits| == BitArrayBytes(s.gramMax, s.n)
  }

  /** A freshly created store: every bit clear (the file is zero-filled). */
  function Empty(gramMax: int, n: int): (s: Store)
    requires ValidParams(gramMax, n)
    ensures Valid(s)
    ensures forall a :: 0 <= a < 8 * |s.bits| ==> !Bit(s.bits, a)
  {
    Store(gramMax, n, seq(BitArrayBytes(gramMax, n), _ => 0 as bv8))
  }

  /** An n-gram the store is sized for: `n` symbols, each at most `gram_max`. */
  ghost predicate ValidNgram(s: Store, g: seq<uint8>)
  {
    |g| == s.n && SymbolsBelow(s.gramMax, g)
  }

  /** An n-gram `set_ngram` and `find_ngram` act on without failing: `n`
      symbols, the assertions on the symbols after the first hold, and the
      addressed byte lies inside the bit array. The first symbol is not
      checked, so it may exceed `gram_max` as long as the byte is there. */
  ghost predicate Reachable(s: Store, g: seq<uint8>)
  {
    0 <= s.gramMax && |g| == s.n && TailBelow(s.gramMax, g) && Address(s.gramMax + 1, g) / 8 < |s.bits|
  }

  /** Every n-gram the store is sized for can be reached, below the guard
      slot. */
  lemma ValidIsReachable(s: Store, g: seq<uint8>)
    requires Valid(s)
    ensures ValidNgram(s, g) ==> Reachable(s, g) && Address(s.gramMax + 1, g) < MaxIndex(s.gramMax, s.n) - 1
  {
    if ValidNgram(s, g) {
      AddressBound(s.gramMax, g);
    }
  }

  function Addr(s: Store, g: seq<uint8>): (a: nat)
    requires Valid(s) && Reachable(s, g)
    ensures ValidNgram(s, g) ==> a < MaxIndex(s.gramMax, s.n) - 1
    ensures a / 8 < |s.bits|
  {
    ValidIsReachable(s, g);
    Address(s.gramMax + 1, g)
  }

  /** The effect of `set_ngram` on an n-gram it can reach. */
  function Set(s: Store, g: seq<uint8>): (r: Store)
    requires Valid(s) && Reachable(s, g)
    ensures Valid(r) && r.gramMax == s.gramMax && r.n == s.n
    ensures forall b :: 0 <= b < 8 * |s.bits| ==> (Bit(r.bits, b) <==> Bit(s.bits, b) || b == Addr(s, g))
  {
    s.(bits := SetBit(s.bits, Addr(s, g)))
  }

  /** What `find_ngram` tests: the n-gram's bit. */
  predicate Contains(s: Store, g: seq<uint8>)
    requires Valid(s) && Reachable(s, g)
  {
    Bit(s.bits, Addr(s, g))
  }

  /** After `set_ngram(g)`, `find_ngram(h)` is nonzero exactly for `g` and
      for what was already present. */
  lemma SetThenContains(s: Store, g: seq<uint8>, h: seq<uint8>)
    requires Valid(s) && Reachable(s, g) && Reachable(s, h)
    ensures Contains(Set(s, g), h) <==> h == g || Contains(s, h)
  {
    if Addr(s, h) == Addr(s, g) {
      AddressInjective(s.gramMax, g, h);
    }
  }

  /** Setting an n-gram twice is the same as setting it once. */
  lemma SetIdempotent(s: Store, g: seq<uint8>)
    requires Valid(s) && Reachable(s, g)
    ensures Set(Set(s, g), g) == Set(s, g)
  {
    var a := Addr(s, g);
    var once := Set(s, g).bits;
    assert once[a / 8] | Mask(a % 8) == once[a / 8];
    assert Set(Set(s, g), g).bits == once;
  }

  /** A fresh store contains nothing. */
  lemma EmptyContainsNothing(gramMax: int, n: int, g: seq<uint8>)
    requires ValidParams(gramMax, n) && Reachable(Empty(gramMax, n), g)
    ensures !Contains(Empty(gramMax, n), g)
  {
  }

  /** The address loop shared by `set_ngram` and `find_ngram`. Only
      `grams[1..n-1]` are checked (an assertion in the source): a failing
      one is reported by its index. `grams[0]` is not checked; when the
      position it leads to lies past the bit array the access is out of
      bounds, reported as index 0. */
  method NgramAddress(s: Store, grams: seq<uint8>) returns (r: Result<nat, nat>)
    requires Valid(s) && |grams| == s.n
    ensures r.Ok? <==> Reachable(s, grams)
    ensures r.Ok? ==> r.value == Addr(s, grams)
    ensures ValidNgram(s, grams) ==> r.Ok?
    ensures r.Err? && r.error > 0 ==> && r.error < s.n && grams[r.error] > s.gramMax
                                      && TailBelow(s.gramMax, grams[..r.error])
    ensures r == Err(0) <==> TailBelow(s.gramMax, grams) && !Reachable(s, grams)
  {
    var pos: nat := grams[0];
    var i := 1;
    assert grams[..1] == [grams[0]];
    assert grams[..1][..0] == [];
    while i < s.n
      invariant 1 <= i <= s.n
      invariant TailBelow(s.gramMax, grams[..i])
      invariant pos == Address(s.gramMax + 1, grams[..i])
    {
      if grams[i] > s.gramMax {
        return Err(i);
      }
      assert grams[..i + 1][..i] == grams[..i];
      pos := pos * (s.gramMax + 1) + grams[i];
      i := i + 1;
    }
    assert grams[..i] == grams;
    ValidIsReachable(s, grams);
    if pos / 8 >= |s.bits| {
      return Err(0);
    }
    return Ok(pos);
  }

  /** `set_ngram`: ORs in the n-gram's bit; a failed assertion or an
      access past the bit array is an error. */
  method SetNgram(s: Store, grams: seq<uint8>) returns (r: Result<Store, nat>)
    requires Valid(s) && |grams| == s.n
    ensures r.Ok? <==> Reachable(s, grams)
    ensures r.Ok? ==> r.value == Set(s, grams)
    ensures ValidNgram(s, grams) ==> r.Ok?
  {
    var pos := NgramAddress(s, grams);
    if pos.Err? {
      return Err(pos.error);
    }
    var p := pos.value;
    var bits := s.bits[p / 8 := s.bits[p / 8] | Mask(p % 8)];
    return Ok(s.(bits := bits));
  }

  /** `find_ngram`: the masked byte, nonzero iff the n-gram is present;
      the store is not changed. */
  method FindNgram(s: Store, grams: seq<uint8>) returns (r: Result<bv8, nat>)
    requires Valid(s) && |grams| == s.n
    ensures r.Ok? <==> Reachable(s, grams)
    ensures r.Ok? ==> (r.value != 0 <==> Contains(s, grams))
    ensures r.Ok? ==> r.value == 0 || r.value == Mask(Addr(s, grams) % 8)
    ensures ValidNgram(s, grams) ==> r.Ok?
  {
    var pos := NgramAddress(s, grams);
    if pos.Err? {
      return Err(pos.error);
    }
    var p := pos.value;
    return Ok(s.bits[p / 8] & Mask(p % 8));
  }

  // ---------------------------------------------------------------------
  // Population count

  /** The nibble-folding popcount of `population_count`. */
  function NibbleFold(v: bv8): bv8
  {
    var a := (v & 0x55) + ((v >> 1) & 0x55);
    var b := (a & 0x33) + ((a >> 2) & 0x33);
    (b & 0x0f) + ((b >> 4) & 0x0f)
  }

  function BitValue(v: bv8, k: nat): nat
    requires k < 8
  {
    if v & Mask(k) != 0 then 1 else 0
  }

  /** The number of 1-bits of a byte, bit by bit. */
  function OnesIn(v: bv8): nat
  {
    BitValue(v, 0) + BitValue(v, 1) + BitValue(v, 2) + BitValue(v, 3)
    + BitValue(v, 4) + BitValue(v, 5) + BitValue(v, 6) + BitValue(v, 7)
  }

  /** The fold is a popcount: it equals the number of 1-bits (so 0..8). */
  lemma NibbleFoldCounts(v: bv8)
    ensures NibbleFold(v) as int == OnesIn(v)
    ensures OnesIn(v) <= 8
  {
  }

  /** Set bits among the addresses below `m`. */
  function CountSetBits(bits: seq<bv8>, m: nat): nat
    requires m <= 8 * |bits|
  {
    if m == 0 then 0 else CountSetBits(bits, m - 1) + (if Bit(bits, m - 1) then 1 else 0)
  }

  /** The 1-bits among the lowest `j` bits of a byte. */
  function OnesBelow(v: bv8, j: nat): nat
    requires j <= 8
  {
    if j == 0 then 0 else OnesBelow(v, j - 1) + BitValue(v, j - 1)
  }

  lemma OnesInBelow(v: bv8)
    ensures OnesIn(v) == OnesBelow(v, 8)
  {
    assert OnesBelow(v, 1) == BitValue(v, 0);
    assert OnesBelow(v, 2) == OnesBelow(v, 1) + BitValue(v, 1);
    assert OnesBelow(v, 3) == OnesBelow(v, 2) + BitValue(v, 2);
    assert OnesBelow(v, 4) == OnesBelow(v, 3) + BitValue(v, 3);
    assert OnesBelow(v, 5) == OnesBelow(v, 4) + BitValue(v, 4);
    assert OnesBelow(v, 6) == OnesBelow(v, 5) + BitValue(v, 5);
    assert OnesBelow(v, 7) == OnesBelow(v, 6) + BitValue(v, 6);
  }

  lemma CountStep(bits: seq<bv8>, i: nat, j: nat)
    requires i < |bits| && j < 8
    ensures CountSetBits(bits, 8 * i + j + 1) == CountSetBits(bits, 8 * i + j) + BitValue(bits[i], j)
  {
    assert (8 * i + j) / 8 == i && (8 * i + j) % 8 == j;
  }

  /** The first `j` addresses of byte `i` contribute its lowest `j` bits. */
  lemma {:induction false} PartialByte(bits: seq<bv8>, i: nat, j: nat)
    requires i < |bits| && j <= 8
    ensures CountSetBits(bits, 8 * i + j) == CountSetBits(bits, 8 * i) + OnesBelow(bits[i], j)
  {
    if j > 0 {
      PartialByte(bits, i, j - 1);
      CountStep(bits, i, j - 1);
    }
  }

  /** The eight addresses of byte `i` contribute its number of 1-bits. */
  lemma ByteBits(bits: seq<bv8>, i: nat)
    requires i < |bits|
    ensures CountSetBits(bits, 8 * i + 8) == CountSetBits(bits, 8 * i) + OnesIn(bits[i])
  {
    PartialByte(bits, i, 8);
    OnesInBelow(bits[i]);
  }

  /** Setting one bit raises the count below `m` by one exactly when the bit
      is new and below `m`. */
  lemma {:induction false} CountAfterSetBit(bits: seq<bv8>, a: nat, m: nat)
    requires a / 8 < |bits| && m <= 8 * |bits|
    ensures CountSetBits(SetBit(bits, a), m)
            == CountSetBits(bits, m) + (if a < m && !Bit(bits, a) then 1 else 0)
  {
    if m > 0 {
      CountAfterSetBit(bits, a, m - 1);
    }
  }

  /** `population_count`'s loop as written: it folds the first
      `maxindex / 8` bytes and divides by that byte count. */
  method PopulationCount(s: Store) returns (count: nat, scanned: nat)
    requires Valid(s)
    ensures scanned == MaxIndex(s.gramMax, s.n) / 8
    ensures count == CountSetBits(s.bits, 8 * scanned)
    ensures count <= 8 * scanned
  {
    var limit := MaxIndex(s.gramMax, s.n) / 8;
    count := 0;
    var i := 0;
    while i < limit
      invariant 0 <= i <= limit
      invariant count == CountSetBits(s.bits, 8 * i)
      invariant count <= 8 * i
    {
      NibbleFoldCounts(s.bits[i]);
      ByteBits(s.bits, i);
      count := count + NibbleFold(s.bits[i]) as int;
      i := i + 1;
    }
    scanned := i;
  }

  /** The `double` the source returns: 0.0 / 0 is not a number. */
  datatype Density = NotANumber | Ratio(value: real)

  function DensityOf(count: nat, scanned: nat): (d: Density)
    requires count <= 8 * scanned
    ensures d.NotANumber? <==> scanned == 0
    ensures d.Ratio? ==> 0.0 <= d.value <= 8.0
  {
    if scanned == 0 then NotANumber
    else
      assert count as real <= 8.0 * scanned as real;
      Ratio(count as real / scanned as real)
  }

  /** The statistic scanning the whole bit array, so that every address a
      stored n-gram can have is counted. */
  method PopulationCountAll(s: Store) returns (count: nat, scanned: nat)
    requires Valid(s)
    ensures scanned == |s.bits| && scanned > 0
    ensures count == CountSetBits(s.bits, 8 * scanned)
    ensures count <= 8 * scanned
  {
    count := 0;
    var i := 0;
    while i < |s.bits|
      invariant 0 <= i <= |s.bits|
      invariant count == CountSetBits(s.bits, 8 * i)
      invariant count <= 8 * i
    {
      NibbleFoldCounts(s.bits[i]);
      ByteBits(s.bits, i);
      count := count + NibbleFold(s.bits[i]) as int;
      i := i + 1;
    }
    scanned := i;
  }

  /** Recording a new n-gram raises the whole-array count by exactly one;
      recording a present one leaves it alone. */
  lemma SetRaisesCount(s: Store, g: seq<uint8>)
    requires Valid(s) && Reachable(s, g)
    ensures CountSetBits(Set(s, g).bits, 8 * |s.bits|)
            == CountSetBits(s.bits, 8 * |s.bits|) + (if Contains(s, g) then 0 else 1)
  {
    CountAfterSetBit(s.bits, Addr(s, g), 8 * |s.bits|);
  }
}
