/** The metadata block at the start of a storage file: what
    `create_ngram_storage` writes and the consistency check that
    `open_ngram_storage` applies to it, as a pure predicate over the header
    record and the live file's (device, inode, size). */
module StorageHeader {
  import opened Wrappers
  import opened Bytes
  import opened NgramStorage

  const MajorVersion: nat := 1
  const MinorVersion: nat := 3

  /** Bytes of the `MAGIC` field. */
  const MagicFieldSize: nat := 29

  /** `STORAGE_MAGIC`, "⚗ n-GRAM LOCAL STORAGE\x04", as UTF-8 bytes: the
      alembic sign takes three bytes. */
  const StorageMagic: seq<uint8> :=
    [0xE2, 0x9A, 0x97, 0x20, 0x6E, 0x2D, 0x47, 0x52, 0x41, 0x4D, 0x20,
     0x4C, 0x4F, 0x43, 0x41, 0x4C, 0x20, 0x53, 0x54, 0x4F, 0x52, 0x41, 0x47, 0x45, 0x04]

  /** The subset of `struct stat` the header keeps. */
  datatype FileId = FileId(dev: int, ino: int, size: int)

  /** The header fields. `combinations` is held exactly (the source keeps
      a `long double`). `gram_max` and `n` are `int` fields in the source
      and are read back without a sign check; they are naturals here, so a
      header holding a negative value is outside the model. */
  datatype Header = Header(
    magic: seq<uint8>,
    majorVersion: int,
    minorVersion: int,
    gramMax: nat,
    n: nat,
    maxIndex: int,
    size: int,
    combinations: int,
    fstat: FileId,
    counter: int)

  /** `strcmp(STORAGE_MAGIC, MAGIC) == 0`: the magic bytes followed by the
      terminating NUL. */
  predicate MagicMatches(field: seq<uint8>)
  {
    |field| > |StorageMagic| && field[..|StorageMagic|] == StorageMagic && field[|StorageMagic|] == 0
  }

  /** The magic string and its terminator fit the field (the assertion in
      `open_ngram_storage`). */
  lemma MagicFitsField()
    ensures |StorageMagic| < MagicFieldSize
    ensures MagicMatches(StorageMagic + seq(MagicFieldSize - |StorageMagic|, _ => 0))
  {
  }

  /** The header `create_ngram_storage` leaves in a zero-filled file of the
      computed size, with the stat of the file after creation. */
  function CreateHeader(gramMax: int, n: int, created: FileId): (h: Header)
    requires ValidParams(gramMax, n)
    ensures MagicMatches(h.magic) && |h.magic| == MagicFieldSize
    ensures h.majorVersion == MajorVersion && h.minorVersion == MinorVersion
    ensures h.gramMax == gramMax && h.n == n
    ensures h.maxIndex == Pow(gramMax + 1, n) + 1
    ensures h.size == StructSize + h.maxIndex / 8 + 1
    ensures h.combinations == Pow(gramMax, n)
    ensures h.fstat == created && h.counter == 0
  {
    Header(StorageMagic + seq(MagicFieldSize - |StorageMagic|, _ => 0),
           MajorVersion, MinorVersion, gramMax, n,
           MaxIndex(gramMax, n), CalcSize(gramMax, n), Pow(gramMax, n),
           created, 0)
  }

  /** Why `open_ngram_storage` refuses a file, in the order it checks. */
  datatype OpenError =
    | BadMagic
    | SizeMismatch
    | GramMaxMismatch
    | NMismatch
    | MaxIndexMismatch
    | CombinationsMismatch
    | MovedDev
    | MovedIno
    | MovedSize

  /** The checks of `open_ngram_storage`. The parameters are read through
      the first, header-sized mapping (`probe`), the remaining fields through
      the full mapping (`mapped`); `live` is the stat taken before opening. */
  function OpenCheck(probe: Header, mapped: Header, live: FileId): (r: Result<(), OpenError>)
    ensures r.Ok? <==>
      && MagicMatches(probe.magic)
      && mapped.gramMax == probe.gramMax && mapped.n == probe.n
      && mapped.size == CalcSize(probe.gramMax, probe.n)
      && mapped.maxIndex == MaxIndex(probe.gramMax, probe.n)
      && mapped.combinations == Pow(probe.gramMax, probe.n)
      && mapped.fstat == live
  {
    var gramMax := probe.gramMax;
    var n := probe.n;
    if !MagicMatches(probe.magic) then Err(BadMagic)
    else if mapped.size != CalcSize(gramMax, n) then Err(SizeMismatch)
    else if mapped.gramMax != gramMax then Err(GramMaxMismatch)
    else if mapped.n != n then Err(NMismatch)
    else if mapped.maxIndex != MaxIndex(gramMax, n) then Err(MaxIndexMismatch)
    else if mapped.combinations != Pow(gramMax, n) then Err(CombinationsMismatch)
    else if mapped.fstat.dev != live.dev then Err(MovedDev)
    else if mapped.fstat.ino != live.ino then Err(MovedIno)
    else if mapped.fstat.size != live.size then Err(MovedSize)
    else Ok(())
  }

  /** Opening the header a create wrote, on the same unchanged file, succeeds. */
  lemma CreateThenOpen(gramMax: int, n: int, id: FileId)
    requires ValidParams(gramMax, n)
    ensures OpenCheck(CreateHeader(gramMax, n, id), CreateHeader(gramMax, n, id), id) == Ok(())
  {
  }

  /** A well-formed header passes exactly when the live file still has the
      device, inode and size recorded at creation; otherwise the first field
      that differs is named. */
  lemma TamperedFileRefused(gramMax: int, n: int, created: FileId, live: FileId)
    requires ValidParams(gramMax, n)
    ensures var h := CreateHeader(gramMax, n, created);
      && (created.dev != live.dev ==> OpenCheck(h, h, live) == Err(MovedDev))
      && (created.dev == live.dev && created.ino != live.ino ==> OpenCheck(h, h, live) == Err(MovedIno))
      && (created.dev == live.dev && created.ino == live.ino && created.size != live.size
          ==> OpenCheck(h, h, live) == Err(MovedSize))
  {
  }

  /** Read through one consistent mapping, the `gram_max` and `n` checks
      compare a field with itself and cannot fail. */
  lemma ParameterChecksVacuous(h: Header, live: FileId)
    ensures OpenCheck(h, h, live) != Err(GramMaxMismatch)
    ensures OpenCheck(h, h, live) != Err(NMismatch)
  {
  }

  /** The version fields are written but not checked on open. */
  lemma VersionNotChecked(probe: Header, mapped: Header, live: FileId, major: int, minor: int)
    ensures OpenCheck(probe.(majorVersion := major, minorVersion := minor),
                      mapped.(majorVersion := major, minorVersion := minor), live)
            == OpenCheck(probe, mapped, live)
  {
  }

  // ---------------------------------------------------------------------
  // Layout of the header union (x86-64 System V: `long double` is 16 bytes
  // with 16-byte alignment, `struct stat` 144 bytes with 8-byte alignment).

  type Alignment = a: int | a >= 1 witness 1

  /** A struct member: its size and its alignment in bytes. */
  datatype CField = CField(size: nat, align: Alignment)

  function AlignUp(x: nat, a: nat): (r: nat)
    requires a >= 1
    ensures x <= r < x + a && r % a == 0
  {
    if x % a == 0 then x
    else
      DivModOfDigit(x / a + 1, a, 0);
      assert x + (a - x % a) == (x / a + 1) * a;
      x + (a - x % a)
  }

  /** `offsets` is where C places the members of a struct: each member at
      the first position aligned for it after the end of the one before. */
  ghost predicate IsCLayout(fields: seq<CField>, offsets: seq<nat>)
  {
    && |offsets| == |fields|
    && (forall i :: 0 <= i < |fields| ==>
          offsets[i] == AlignUp(if i == 0 then 0 else offsets[i - 1] + fields[i - 1].size, fields[i].align))
  }

  /** In such a layout members are aligned and never overlap one another. */
  lemma CLayoutDisjoint(fields: seq<CField>, offsets: seq<nat>)
    requires IsCLayout(fields, offsets)
    ensures forall i :: 0 <= i < |fields| ==> offsets[i] % fields[i].align == 0
    ensures forall i, j :: 0 <= i < j < |fields| ==> offsets[i] + fields[i].size <= offsets[j]
  {
    forall i | 0 <= i < |fields|
      ensures offsets[i] % fields[i].align == 0
    {
      assert offsets[i] == AlignUp(if i == 0 then 0 else offsets[i - 1] + fields[i - 1].size, fields[i].align);
    }
    forall i, j | 0 <= i < j < |fields|
      ensures offsets[i] + fields[i].size <= offsets[j]
    {
      var k := i + 1;
      assert offsets[k] == AlignUp(offsets[i] + fields[i].size, fields[k].align);
      while k < j
        invariant i + 1 <= k <= j
        invariant offsets[i] + fields[i].size <= offsets[k]
      {
        assert offsets[k + 1] == AlignUp(offsets[k] + fields[k].size, fields[k + 1].align);
        k := k + 1;
      }
    }
  }

  /** MAGIC, majorversion, minorversion, gram_max, n, maxindex, SIZE,
      combinations, fstat, counter. */
  const HeaderFields: seq<CField> := [
    CField(29, 1), CField(4, 4), CField(2, 2), CField(4, 4), CField(4, 4),
    CField(8, 8), CField(8, 8), CField(16, 16), CField(144, 8), CField(8, 8)]

  const HeaderOffsets: seq<nat> := [0, 32, 36, 40, 44, 48, 56, 64, 80, 224]

  /** The header fields are laid out at `HeaderOffsets`, every one of them
      inside the `1 << 16`-byte union; the scratch buffer, the fold table and
      the bit array follow the union in that order. */
  lemma HeaderLayout()
    ensures IsCLayout(HeaderFields, HeaderOffsets)
    ensures forall i :: 0 <= i < |HeaderFields| ==> HeaderOffsets[i] + HeaderFields[i].size <= HeaderUnionSize
    ensures HeaderUnionSize <= ScratchOffset < FoldTableOffset < BitsOffset == StructSize
  {
    var f := HeaderFields;
    var o := HeaderOffsets;
    assert f[0] == CField(29, 1) && o[0] == 0 && AlignUp(0, 1) == 0;
    assert f[1] == CField(4, 4) && o[1] == 32 && AlignUp(29, 4) == 32;
    assert f[2] == CField(2, 2) && o[2] == 36 && AlignUp(36, 2) == 36;
    assert f[3] == CField(4, 4) && o[3] == 40 && AlignUp(38, 4) == 40;
    assert f[4] == CField(4, 4) && o[4] == 44 && AlignUp(44, 4) == 44;
    assert f[5] == CField(8, 8) && o[5] == 48 && AlignUp(48, 8) == 48;
    assert f[6] == CField(8, 8) && o[6] == 56 && AlignUp(56, 8) == 56;
    assert f[7] == CField(16, 16) && o[7] == 64 && AlignUp(64, 16) == 64;
    assert f[8] == CField(144, 8) && o[8] == 80 && AlignUp(80, 8) == 80;
    assert f[9] == CField(8, 8) && o[9] == 224 && AlignUp(224, 8) == 224;
  }
}
