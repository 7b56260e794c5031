/** `simichunks`: the set of all length-n chunks (substrings) of a file,
    kept as a sorted list without duplicates, narrowed by intersection
    with the chunks of further files and of a stored chunk set, and by
    difference with a chunk set to subtract. */
module SimiChunks {
  import opened Wrappers
  import opened Bytes

  /** A chunk: the bytes of a `std::string`. */
  type Chunk = seq<uint8>

  /** Why a step throws. */
  datatype ChunkError =
    | Unreadable             // the `Chunker` constructor could not load the file
    | WindowPastEnd          // the window end underflowed: a file shorter than n - 1 bytes
    | DifferentChunkSize     // a stored set was written for another n
    | BadLength(chunk: Chunk) // a stored chunk whose length is not n
    | NoFiles                // `filenames.at(0)` with no file name

  /** A stored chunk set as the JSON file holds it: `N` and the chunks. */
  datatype StoredSet = StoredSet(n: nat, chunks: seq<Chunk>)

  /** `substr(pos, n)` for a position at least n bytes before the end. */
  function ChunkAt(data: seq<uint8>, pos: nat, n: nat): Chunk
    requires pos + n <= |data|
  {
    data[pos..pos + n]
  }

  /** `y` is the chunk at some position of `data`. */
  ghost predicate Occurs(y: Chunk, data: seq<uint8>)
  {
    exists k: nat :: k + |y| <= |data| && ChunkAt(data, k, |y|) == y
  }

  /** The `Chunker` iteration: positions 0 .. size - n, each giving
      `substr(pos, n)`. The end position `size - n + 1` is unsigned; when
      the file is shorter than n - 1 bytes it wraps around to nearly 2^64.
      The chunk vector's range constructor measures that range first, finds
      it longer than a vector can hold and throws `std::length_error`, so
      no chunk is read. */
  function Windows(data: seq<uint8>, n: nat): (r: Result<seq<Chunk>, ChunkError>)
    ensures r.Err? <==> |data| + 1 < n
    ensures r.Ok? ==> |r.value| == |data| + 1 - n
    ensures r.Ok? ==> forall y :: y in r.value <==> |y| == n && Occurs(y, data)
  {
    if |data| + 1 < n then Err(WindowPastEnd)
    else
      var ws := seq(|data| + 1 - n, k requires 0 <= k <= |data| - n => ChunkAt(data, k, n));
      assert forall y :: |y| == n && Occurs(y, data) ==> y in ws by {
        forall y | |y| == n && Occurs(y, data) ensures y in ws {
          var k: nat :| k + |y| <= |data| && ChunkAt(data, k, |y|) == y;
          assert ws[k] == y;
        }
      }
      Ok(ws)
  }

  /** `calculate_chunks`: the sorted, duplicate-free chunks of a file. */
  function CalculateChunks(data: seq<uint8>, n: nat): (r: Result<seq<Chunk>, ChunkError>)
    ensures r.Err? <==> |data| + 1 < n
    ensures r.Ok? ==> StrictlySorted(r.value)
    ensures r.Ok? ==> forall y :: y in r.value <==> |y| == n && Occurs(y, data)
  {
    var ws :- Windows(data, n);
    Ok(SortUnique(ws))
  }

  /** The chunks of a file that may not have loaded. */
  function FileChunks(file: Option<seq<uint8>>, n: nat): (r: Result<seq<Chunk>, ChunkError>)
    ensures r.Ok? <==> file.Some? && n <= |file.value| + 1
  {
    match file
    case None => Err(Unreadable)
    case Some(data) => CalculateChunks(data, n)
  }

  /** The first chunk of a list whose length is not n. */
  function FirstBadLength(cs: seq<Chunk>, n: nat): (r: Option<Chunk>)
    ensures r.None? <==> forall i :: 0 <= i < |cs| ==> |cs[i]| == n
    ensures r.Some? ==> r.value in cs && |r.value| != n
    ensures r.Some? ==> exists k :: 0 <= k < |cs| && cs[k] == r.value && forall i :: 0 <= i < k ==> |cs[i]| == n
  {
    if |cs| == 0 then None
    else if |cs[0]| != n then Some(cs[0])
    else
      var r := FirstBadLength(cs[1..], n);
      assert forall i :: 1 <= i < |cs| ==> cs[i] == cs[1..][i - 1];
      if r.Some? then
        var k :| 0 <= k < |cs[1..]| && cs[1..][k] == r.value && forall i :: 0 <= i < k ==> |cs[1..][i]| == n;
        assert cs[k + 1] == r.value && forall i :: 0 <= i < k + 1 ==> |cs[i]| == n;
        r
      else r
  }

  /** `ChunkSetReader`: the stored N must equal n; the chunks are sorted
      and made unique, and then every one must have length n (the first
      offending one in sorted order is reported). */
  function ReadChunkSet(n: nat, stored: StoredSet): (r: Result<seq<Chunk>, ChunkError>)
    ensures r.Ok? <==> stored.n == n && forall i :: 0 <= i < |stored.chunks| ==> |stored.chunks[i]| == n
    ensures r == Err(DifferentChunkSize) <==> stored.n != n
    ensures r.Err? ==> r.error == DifferentChunkSize || r.error.BadLength?
    ensures r.Err? && r.error.BadLength? ==> r.error.chunk in stored.chunks && |r.error.chunk| != n
    ensures r.Err? && r.error.BadLength? ==>
              forall y :: y in stored.chunks && LexLess(y, r.error.chunk) ==> |y| == n
    ensures r.Ok? ==> StrictlySorted(r.value) && forall y :: y in r.value <==> y in stored.chunks
  {
    if stored.n != n then Err(DifferentChunkSize)
    else
      var cs := SortUnique(stored.chunks);
      match FirstBadLength(cs, n)
      case Some(c) =>
        FirstInSortedOrder(cs, n, c);
        Err(BadLength(c))
      case None =>
        assert forall i :: 0 <= i < |stored.chunks| ==> stored.chunks[i] in cs;
        Ok(cs)
  }

  /** In a strictly sorted list, every chunk below the first one of the
      wrong length has length n: it is the first the sanity loop meets. */
  lemma FirstInSortedOrder(cs: seq<Chunk>, n: nat, c: Chunk)
    requires StrictlySorted(cs) && FirstBadLength(cs, n) == Some(c)
    ensures forall y :: y in cs && LexLess(y, c) ==> |y| == n
  {
    var k :| 0 <= k < |cs| && cs[k] == c && forall i :: 0 <= i < k ==> |cs[i]| == n;
    forall y | y in cs && LexLess(y, c)
      ensures |y| == n
    {
      var j :| 0 <= j < |cs| && cs[j] == y;
      if j == k {
        LexIrreflexive(y);
      } else if j > k {
        LexAsymmetric(c, y);
      }
    }
  }

  // ---------------------------------------------------------------------
  // Merging sorted lists

  /** Everything in a strictly sorted list lies above its head. */
  lemma AboveHead(a: seq<Chunk>, y: Chunk)
    requires StrictlySorted(a) && |a| > 0 && y in a[1..]
    ensures LexLess(a[0], y)
  {
  }

  /** A value below the head of a strictly sorted list is not in it. */
  lemma BelowHeadAbsent(a: seq<Chunk>, y: Chunk)
    requires StrictlySorted(a) && |a| > 0 && LexLess(y, a[0])
    ensures y !in a
  {
    if y in a {
      var k :| 0 <= k < |a| && a[k] == y;
      if k == 0 {
        LexIrreflexive(y);
      } else {
        LexAsymmetric(y, a[0]);
      }
    }
  }

  /** `std::set_intersection` over strictly sorted lists. */
  function Intersect(a: seq<Chunk>, b: seq<Chunk>): (r: seq<Chunk>)
    requires StrictlySorted(a) && StrictlySorted(b)
    ensures StrictlySorted(r)
    ensures forall y :: y in r <==> y in a && y in b
    decreases |a| + |b|
  {
    if |a| == 0 || |b| == 0 then []
    else if a[0] == b[0] then
      var rest := Intersect(a[1..], b[1..]);
      assert forall y :: y in rest ==> LexLess(a[0], y);
      forall y | y in a && y in b ensures y in [a[0]] + rest {
        if y != a[0] {
          assert y in a[1..];
          AboveHead(a, y);
          if y == b[0] { LexIrreflexive(y); }
          assert y in b[1..];
        }
      }
      [a[0]] + rest
    else if LexLess(a[0], b[0]) then
      BelowHeadAbsent(b, a[0]);
      Intersect(a[1..], b)
    else
      LexTotal(a[0], b[0]);
      BelowHeadAbsent(a, b[0]);
      Intersect(a, b[1..])
  }

  /** `std::set_difference` over strictly sorted lists. */
  function Difference(a: seq<Chunk>, b: seq<Chunk>): (r: seq<Chunk>)
    requires StrictlySorted(a) && StrictlySorted(b)
    ensures StrictlySorted(r)
    ensures forall y :: y in r <==> y in a && y !in b
    decreases |a| + |b|
  {
    if |a| == 0 then []
    else if |b| == 0 then a
    else if LexLess(a[0], b[0]) then
      var rest := Difference(a[1..], b);
      BelowHeadAbsent(b, a[0]);
      assert forall y :: y in rest ==> LexLess(a[0], y);
      [a[0]] + rest
    else if a[0] == b[0] then
      var rest := Difference(a[1..], b[1..]);
      forall y | y in a && y !in b ensures y in rest {
        assert y != a[0] && y in a[1..];
      }
      forall y | y in rest ensures y !in b {
        AboveHead(a, y);
        if y == b[0] { LexIrreflexive(y); }
      }
      rest
    else
      LexTotal(a[0], b[0]);
      BelowHeadAbsent(a, b[0]);
      Difference(a, b[1..])
  }

  // ---------------------------------------------------------------------
  // The program

  /** `get_initial_chunks`: the first file's chunks, intersected with the
      stored set when one is named and opens (`None` otherwise). */
  function InitialChunks(n: nat, first: Option<seq<uint8>>, storage: Option<StoredSet>): (r: Result<seq<Chunk>, ChunkError>)
    ensures r.Ok? ==> first.Some? && StrictlySorted(r.value)
    ensures r.Ok? ==> forall y :: y in r.value <==>
                        && |y| == n && Occurs(y, first.value)
                        && (storage.Some? ==> y in storage.value.chunks)
  {
    var cs :- FileChunks(first, n);
    match storage
    case None => Ok(cs)
    case Some(st) =>
      var other :- ReadChunkSet(n, st);
      Ok(Intersect(cs, other))
  }

  /** `y` is a chunk of every further file whose chunks could be computed. */
  ghost predicate InEveryRead(y: Chunk, n: nat, files: seq<Option<seq<uint8>>>)
  {
    forall i :: 0 <= i < |files| && FileChunks(files[i], n).Ok? ==> y in FileChunks(files[i], n).value
  }

  /** The loop over the further files: a file whose chunks cannot be
      computed is reported and leaves the running set as it was. */
  function NarrowByFiles(cs: seq<Chunk>, n: nat, files: seq<Option<seq<uint8>>>): (r: seq<Chunk>)
    requires StrictlySorted(cs)
    ensures StrictlySorted(r)
    decreases |files|
  {
    if |files| == 0 then cs
    else
      var init := files[..|files| - 1];
      var acc := NarrowByFiles(cs, n, init);
      match FileChunks(files[|files| - 1], n)
      case Err(_) => acc
      case Ok(other) => Intersect(acc, other)
  }

  /** After the loop, a chunk remains exactly when it was in the initial
      set and in every file that was processed without error. */
  lemma {:induction false} NarrowedChunks(cs: seq<Chunk>, n: nat, files: seq<Option<seq<uint8>>>, y: Chunk)
    requires StrictlySorted(cs)
    ensures y in NarrowByFiles(cs, n, files) <==> y in cs && InEveryRead(y, n, files)
    decreases |files|
  {
    if |files| > 0 {
      var init := files[..|files| - 1];
      NarrowedChunks(cs, n, init, y);
      assert forall i :: 0 <= i < |init| ==> init[i] == files[i];
      if y in cs && InEveryRead(y, n, init) && !InEveryRead(y, n, files) {
        var i :| 0 <= i < |files| && FileChunks(files[i], n).Ok? && y !in FileChunks(files[i], n).value;
        assert i == |files| - 1;
      }
    }
  }

  /** `main` after option parsing: `files` are the named files in order
      (`None` for one that cannot be loaded), `storage` the `-S` chunk set
      when named and openable, `subtract` the `-s` chunk set when named. */
  function Run(n: nat, files: seq<Option<seq<uint8>>>, storage: Option<StoredSet>, subtract: Option<StoredSet>): (r: Result<seq<Chunk>, ChunkError>)
    ensures |files| == 0 ==> r == Err(NoFiles)
    ensures r.Ok? ==> StrictlySorted(r.value)
  {
    if |files| == 0 then Err(NoFiles)
    else
      var initial :- InitialChunks(n, files[0], storage);
      var cs := NarrowByFiles(initial, n, files[1..]);
      match subtract
      case None => Ok(cs)
      case Some(st) =>
        var other :- ReadChunkSet(n, st);
        Ok(Difference(cs, other))
  }

  /** The chunks reported are exactly those of length n that occur in the
      first file, are in the stored set if there is one, occur in every
      further file that could be processed, and are not in the subtracted
      set. */
  lemma RunChunks(n: nat, files: seq<Option<seq<uint8>>>, storage: Option<StoredSet>, subtract: Option<StoredSet>, y: Chunk)
    requires Run(n, files, storage, subtract).Ok?
    ensures y in Run(n, files, storage, subtract).value <==>
              && |y| == n && Occurs(y, files[0].value)
              && (storage.Some? ==> y in storage.value.chunks)
              && InEveryRead(y, n, files[1..])
              && (subtract.Some? ==> y !in subtract.value.chunks)
  {
    var initial := InitialChunks(n, files[0], storage).value;
    NarrowedChunks(initial, n, files[1..], y);
  }

  /** A file that cannot be processed leaves the running set unchanged. */
  lemma FailedFileKeepsSet(cs: seq<Chunk>, n: nat, files: seq<Option<seq<uint8>>>)
    requires StrictlySorted(cs) && |files| > 0 && FileChunks(files[|files| - 1], n).Err?
    ensures NarrowByFiles(cs, n, files) == NarrowByFiles(cs, n, files[..|files| - 1])
  {
  }

  /** A file shorter than n - 1 bytes makes the window end wrap around;
      one of exactly n - 1 bytes has no chunks at all. */
  lemma ShortFiles(data: seq<uint8>, n: nat)
    ensures |data| + 2 == n ==> CalculateChunks(data, n) == Err(WindowPastEnd)
    ensures |data| + 1 == n ==> CalculateChunks(data, n) == Ok([])
  {
  }

  /** With n = 0 every position gives the empty chunk, so the set holds
      just that one. */
  lemma EmptyChunks(data: seq<uint8>)
    ensures CalculateChunks(data, 0) == Ok([[]])
  {
    var r := CalculateChunks(data, 0).value;
    assert ChunkAt(data, 0, 0) == [];
    assert [] in r;
    StrictlySortedUnique(r, [[]]);
  }
}
