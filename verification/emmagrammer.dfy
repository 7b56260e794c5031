/** The `emmagrammer` command-line tool: the parameter bounds of `create`,
    the per-line loops of `store` and `recall`, the window loop of
    `ngramify`, and the fold/transform table that `foltran` builds from
    range arguments and applies to its input. */
module Emmagrammer {
  import opened Wrappers
  import opened Bytes
  import opened HexText
  import opened FileFormat
  import NgramStorage
  import NgramParse
  import Ngramify

  /** `ERROR_CLI_PARAM`, the exit status of every argument error. */
  const ErrorCliParam: nat := 1

  // ---------------------------------------------------------------------
  // create

  /** Why `create` refuses its arguments (each exits with `ErrorCliParam`). */
  datatype CreateError = GramMaxOutOfRange | NOutOfRange

  /** `command_create` after `atoi`: gram_max must lie in [1..255] and n in
      [1..16], checked in that order; the new store is empty. */
  function Create(gramMax: int, n: int): (r: Result<NgramStorage.Store, CreateError>)
    ensures r.Ok? <==> 1 <= gramMax <= 255 && 1 <= n <= 16
    ensures r == Err(GramMaxOutOfRange) <==> !(1 <= gramMax <= 255)
    ensures r.Ok? ==> && NgramStorage.Valid(r.value)
                      && r.value.gramMax == gramMax && r.value.n == n
                      && forall a :: 0 <= a < 8 * |r.value.bits| ==> !NgramStorage.Bit(r.value.bits, a)
  {
    if gramMax < 1 || gramMax > 255 then Err(GramMaxOutOfRange)
    else if n < 1 || n > 16 then Err(NOutOfRange)
    else Ok(NgramStorage.Empty(gramMax, n))
  }

  // ---------------------------------------------------------------------
  // store and recall

  /** The n-gram `ngram_from_string_into` hands to `set_ngram`: a line
      with fewer than n hex tokens (at least one) is refused, otherwise
      the low bytes of its first tokens. */
  function StoreGram(n: nat, text: string): (r: Option<seq<uint8>>)
    ensures r.Some? <==> |Tokens(text, 0)| >= NgramParse.Needed(n)
    ensures r.Some? ==> |r.value| == NgramParse.Needed(n)
    ensures r.Some? ==> forall i :: 0 <= i < |r.value| ==> r.value[i] == Low8(Tokens(text, 0)[i])
  {
    var ts := Tokens(text, 0);
    if |ts| >= NgramParse.Needed(n) then Some(Low8s(ts[..NgramParse.Needed(n)])) else None
  }

  /** The first n bytes of what `ngram_from_string` reads, which
      `find_ngram` looks up: refused when fewer than n tokens are read
      into the buffer of `MaxNgramBuffer` bytes. */
  function RecallGram(n: nat, text: string): (r: Option<seq<uint8>>)
    ensures r.Some? <==> |Tokens(text, 0)| >= n && n <= NgramStorage.MaxNgramBuffer
    ensures r.Some? ==> |r.value| == n
    ensures r.Some? ==> forall i :: 0 <= i < n ==> r.value[i] == Low8(Tokens(text, 0)[i])
  {
    var ts := Tokens(text, 0);
    var read := if |ts| < NgramStorage.MaxNgramBuffer then |ts| else NgramStorage.MaxNgramBuffer;
    if read >= n then Some(Low8s(ts[..n])) else None
  }

  /** `store`'s reading of one line through the parser's own loop. */
  method ParseStoreLine(n: nat, text: string) returns (r: Option<seq<uint8>>)
    ensures r == StoreGram(n, text)
  {
    r := NgramParse.NgramFromStringInto(n, text);
  }

  /** `recall`'s reading of one line through the parser's own loop: the
      bytes read, of which `find_ngram` uses the first n. */
  method ParseRecallLine(n: nat, text: string) returns (r: Option<seq<uint8>>)
    ensures r == RecallGram(n, text)
  {
    var read := NgramParse.NgramFromString(n, text);
    if read.None? {
      return None;
    }
    r := Some(read.value[..n]);
    assert r.value == Low8s(Tokens(text, 0)[..n]);
  }

  /** Both readers agree for every n from 1 to the buffer size. */
  lemma GramsAgree(n: nat, text: string)
    requires 1 <= n <= NgramStorage.MaxNgramBuffer
    ensures StoreGram(n, text) == RecallGram(n, text)
  {
  }

  /** A symbol list `set_ngram` and `find_ngram` can act on: the
      assertions on the symbols after the first hold and the addressed
      byte lies inside the bit array. */
  predicate Addressable(s: NgramStorage.Store, g: seq<uint8>)
    ensures Addressable(s, g) <==> NgramStorage.Reachable(s, g)
  {
    && 0 <= s.gramMax && |g| == s.n
    && (forall i | 1 <= i < |g| :: g[i] <= s.gramMax)
    && NgramStorage.Address(s.gramMax + 1, g) / 8 < |s.bits|
  }

  /** What `store` reads from each line. */
  function StoreGrams(n: nat, lines: seq<string>): (r: seq<Option<seq<uint8>>>)
    ensures |r| == |lines| && forall i :: 0 <= i < |lines| ==> r[i] == StoreGram(n, lines[i])
  {
    seq(|lines|, i requires 0 <= i < |lines| => StoreGram(n, lines[i]))
  }

  /** What `recall` reads from each line. */
  function RecallGrams(n: nat, lines: seq<string>): (r: seq<Option<seq<uint8>>>)
    ensures |r| == |lines| && forall i :: 0 <= i < |lines| ==> r[i] == RecallGram(n, lines[i])
  {
    seq(|lines|, i requires 0 <= i < |lines| => RecallGram(n, lines[i]))
  }

  /** Every n-gram read is one the store can address. */
  ghost predicate AllAddressable(s: NgramStorage.Store, gs: seq<Option<seq<uint8>>>)
  {
    forall i :: 0 <= i < |gs| && gs[i].Some? ==> NgramStorage.Reachable(s, gs[i].value)
  }

  /** The `store` loop over input lines, given what each line reads as: a
      line that does not read as an n-gram is reported and skipped; an
      n-gram with a later symbol above gram_max stops the program (an
      assertion), and so does one whose first symbol carries its position
      past the bit array, reported by its line index. A first symbol above
      gram_max whose bit lies inside the array is stored like any other. */
  function StoreAll(s: NgramStorage.Store, gs: seq<Option<seq<uint8>>>): (r: Result<NgramStorage.Store, nat>)
    requires NgramStorage.Valid(s)
    ensures r.Ok? <==> AllAddressable(s, gs)
    ensures r.Err? ==> && r.error < |gs| && gs[r.error].Some?
                       && !NgramStorage.Reachable(s, gs[r.error].value)
                       && AllAddressable(s, gs[..(r.error)])
    ensures r.Ok? ==> NgramStorage.Valid(r.value) && r.value.gramMax == s.gramMax && r.value.n == s.n
    decreases |gs|
  {
    if |gs| == 0 then Ok(s)
    else
      var init := gs[..|gs| - 1];
      assert forall i :: 0 <= i < |init| ==> init[i] == gs[i];
      match StoreAll(s, init)
      case Err(e) =>
        assert init[..e] == gs[..e];
        Err(e)
      case Ok(t) =>
        match gs[|gs| - 1]
        case None => Ok(t)
        case Some(g) =>
          if !Addressable(t, g) then
            assert gs[..|gs| - 1] == init;
            Err(|gs| - 1)
          else Ok(NgramStorage.Set(t, g))
  }

  /** `command_store` reading lines from standard input. */
  function StoreLines(s: NgramStorage.Store, lines: seq<string>): (r: Result<NgramStorage.Store, nat>)
    requires NgramStorage.Valid(s)
    ensures r.Ok? <==> AllAddressable(s, StoreGrams(s.n, lines))
    ensures r.Err? ==> && r.error < |lines| && StoreGram(s.n, lines[r.error]).Some?
                       && !NgramStorage.Reachable(s, StoreGram(s.n, lines[r.error]).value)
                       && AllAddressable(s, StoreGrams(s.n, lines[..(r.error)]))
    ensures r.Ok? ==> && NgramStorage.Valid(r.value) && r.value.gramMax == s.gramMax && r.value.n == s.n
                      && forall h :: NgramStorage.Reachable(s, h) ==>
                           (NgramStorage.Contains(r.value, h) <==>
                            NgramStorage.Contains(s, h) || Held(StoreGrams(s.n, lines), h))
  {
    var gs := StoreGrams(s.n, lines);
    match StoreAll(s, gs)
    case Err(e) =>
      assert StoreGrams(s.n, lines[..e]) == gs[..e];
      Err(e)
    case Ok(t) =>
      StoredContentsAll(s, gs);
      Ok(t)
  }

  /** `StoredContents` for every n-gram at once. */
  lemma StoredContentsAll(s: NgramStorage.Store, gs: seq<Option<seq<uint8>>>)
    requires NgramStorage.Valid(s) && StoreAll(s, gs).Ok?
    ensures forall h :: NgramStorage.Reachable(s, h) ==>
              (NgramStorage.Contains(StoreAll(s, gs).value, h) <==> NgramStorage.Contains(s, h) || Held(gs, h))
  {
    forall h | NgramStorage.Reachable(s, h)
      ensures NgramStorage.Contains(StoreAll(s, gs).value, h) <==> NgramStorage.Contains(s, h) || Held(gs, h)
    {
      StoredContents(s, gs, h);
    }
  }

  /** Some line reads as `h`. */
  ghost predicate Held(gs: seq<Option<seq<uint8>>>, h: seq<uint8>)
  {
    exists i :: 0 <= i < |gs| && gs[i] == Some(h)
  }

  lemma HeldSnoc(gs: seq<Option<seq<uint8>>>, h: seq<uint8>)
    requires |gs| > 0
    ensures Held(gs, h) <==> Held(gs[..|gs| - 1], h) || gs[|gs| - 1] == Some(h)
  {
    var init := gs[..|gs| - 1];
    if Held(gs, h) {
      var i :| 0 <= i < |gs| && gs[i] == Some(h);
      if i < |init| {
        assert init[i] == Some(h);
      }
    }
    if Held(init, h) {
      var i :| 0 <= i < |init| && init[i] == Some(h);
      assert gs[i] == Some(h);
    }
  }

  /** After `store`, an n-gram is present exactly when it was before or
      some line held it. */
  lemma {:induction false} StoredContents(s: NgramStorage.Store, gs: seq<Option<seq<uint8>>>, h: seq<uint8>)
    requires NgramStorage.Valid(s) && StoreAll(s, gs).Ok? && NgramStorage.Reachable(s, h)
    ensures NgramStorage.Contains(StoreAll(s, gs).value, h) <==> NgramStorage.Contains(s, h) || Held(gs, h)
    decreases |gs|
  {
    if |gs| > 0 {
      var init := gs[..|gs| - 1];
      StoreStep(s, gs);
      StoredContents(s, init, h);
      HeldSnoc(gs, h);
      var g := gs[|gs| - 1];
      if g.Some? {
        NgramStorage.SetThenContains(StoreAll(s, init).value, g.value, h);
      }
    }
  }

  /** One more line: the store after it, from the store before it. */
  lemma StoreStep(s: NgramStorage.Store, gs: seq<Option<seq<uint8>>>)
    requires NgramStorage.Valid(s) && |gs| > 0 && StoreAll(s, gs).Ok?
    ensures StoreAll(s, gs[..|gs| - 1]).Ok?
    ensures var t := StoreAll(s, gs[..|gs| - 1]).value;
            var g := gs[|gs| - 1];
            && (g.None? ==> StoreAll(s, gs).value == t)
            && (g.Some? ==> NgramStorage.Reachable(t, g.value)
                            && StoreAll(s, gs).value == NgramStorage.Set(t, g.value))
  {
  }

  /** The indices of the lines whose n-gram the store holds. */
  ghost function Found(s: NgramStorage.Store, gs: seq<Option<seq<uint8>>>): set<int>
    requires NgramStorage.Valid(s)
  {
    set i | 0 <= i < |gs| && gs[i].Some? && NgramStorage.Reachable(s, gs[i].value)
                                         && NgramStorage.Contains(s, gs[i].value)
  }

  /** One more line adds its index to `Found` exactly when it is found. */
  lemma FoundSnoc(s: NgramStorage.Store, gs: seq<Option<seq<uint8>>>)
    requires NgramStorage.Valid(s) && |gs| > 0
    ensures var g := gs[|gs| - 1];
            |Found(s, gs)| == |Found(s, gs[..|gs| - 1])|
              + (if g.Some? && NgramStorage.Reachable(s, g.value) && NgramStorage.Contains(s, g.value) then 1 else 0)
  {
    var init := gs[..|gs| - 1];
    var g := gs[|gs| - 1];
    var last: set<int> := if g.Some? && NgramStorage.Reachable(s, g.value) && NgramStorage.Contains(s, g.value) then {|gs| - 1} else {};
    assert Found(s, gs) == Found(s, init) + last;
    assert Found(s, init) !! last;
  }

  /** The `recall` loop over input lines, given what each line reads as:
      `counter` counts every line, `found` the lines whose n-gram is
      present; the result is (found, counter). A line whose n-gram fails
      an assertion or lies past the bit array stops the program. */
  function RecallAll(s: NgramStorage.Store, gs: seq<Option<seq<uint8>>>): (r: Result<(nat, nat), nat>)
    requires NgramStorage.Valid(s)
    ensures r.Ok? <==> AllAddressable(s, gs)
    ensures r.Err? ==> && r.error < |gs| && gs[r.error].Some?
                       && !NgramStorage.Reachable(s, gs[r.error].value)
                       && AllAddressable(s, gs[..(r.error)])
    ensures r.Ok? ==> r.value.1 == |gs| && r.value.0 == |Found(s, gs)|
    ensures r.Ok? ==> r.value.0 <= r.value.1
    decreases |gs|
  {
    if |gs| == 0 then Ok((0, 0))
    else
      var init := gs[..|gs| - 1];
      assert forall i :: 0 <= i < |init| ==> init[i] == gs[i];
      match RecallAll(s, init)
      case Err(e) => Err(e)
      case Ok((found, counter)) =>
        match gs[|gs| - 1]
        case None =>
          FoundSnoc(s, gs);
          Ok((found, counter + 1))
        case Some(g) =>
          if !Addressable(s, g) then Err(|gs| - 1)
          else
            FoundSnoc(s, gs);
            Ok((found + (if NgramStorage.Contains(s, g) then 1 else 0), counter + 1))
  }

  /** `command_recall` reading lines from standard input. */
  function RecallLines(s: NgramStorage.Store, lines: seq<string>): (r: Result<(nat, nat), nat>)
    requires NgramStorage.Valid(s)
    ensures r.Ok? <==> AllAddressable(s, RecallGrams(s.n, lines))
    ensures r.Ok? ==> r.value.1 == |lines| && r.value.0 == |Found(s, RecallGrams(s.n, lines))|
    ensures r.Err? ==> && r.error < |lines| && RecallGram(s.n, lines[r.error]).Some?
                       && !NgramStorage.Reachable(s, RecallGram(s.n, lines[r.error]).value)
                       && AllAddressable(s, RecallGrams(s.n, lines[..(r.error)]))
  {
    var gs := RecallGrams(s.n, lines);
    match RecallAll(s, gs)
    case Err(e) =>
      assert RecallGrams(s.n, lines[..e]) == gs[..e];
      Err(e)
    case Ok(v) => Ok(v)
  }

  /** How many lines read as an n-gram. */
  function ParsedCount(gs: seq<Option<seq<uint8>>>): (c: nat)
    ensures c <= |gs|
    decreases |gs|
  {
    if |gs| == 0 then 0 else ParsedCount(gs[..|gs| - 1]) + (if gs[|gs| - 1].Some? then 1 else 0)
  }

  /** Recalling the lines just stored finds every line that reads as an
      n-gram, and counts every line. */
  lemma StoreThenRecall(s: NgramStorage.Store, lines: seq<string>)
    requires NgramStorage.Valid(s) && s.n <= NgramStorage.MaxNgramBuffer
    requires StoreLines(s, lines).Ok?
    ensures var gs := RecallGrams(s.n, lines);
            RecallLines(StoreLines(s, lines).value, lines) == Ok((ParsedCount(gs), |lines|))
  {
    var gs := StoreGrams(s.n, lines);
    forall i | 0 <= i < |lines|
      ensures gs[i] == RecallGrams(s.n, lines)[i]
    {
      GramsAgree(s.n, lines[i]);
    }
    assert gs == RecallGrams(s.n, lines);
    var t := StoreAll(s, gs).value;
    forall i | 0 <= i < |gs| && gs[i].Some?
      ensures NgramStorage.Reachable(t, gs[i].value) && NgramStorage.Contains(t, gs[i].value)
    {
      StoredContents(s, gs, gs[i].value);
    }
    RecallAllFound(t, gs);
  }

  lemma {:induction false} RecallAllFound(t: NgramStorage.Store, gs: seq<Option<seq<uint8>>>)
    requires NgramStorage.Valid(t)
    requires forall i :: 0 <= i < |gs| && gs[i].Some? ==>
               NgramStorage.Reachable(t, gs[i].value) && NgramStorage.Contains(t, gs[i].value)
    ensures RecallAll(t, gs) == Ok((ParsedCount(gs), |gs|))
    decreases |gs|
  {
    if |gs| > 0 {
      var init := gs[..|gs| - 1];
      assert forall i :: 0 <= i < |init| ==> init[i] == gs[i];
      RecallAllFound(t, init);
    }
  }

  /** With gram_max 2 and n 3 the line `03 00 00` has a first symbol
      above gram_max, which no assertion checks: its position 27 lies in
      the fourth and last byte of the bit array, so `store` sets that bit
      and `recall` then finds the line. */
  lemma FirstSymbolUnchecked()
    ensures var s := NgramStorage.Empty(2, 3);
            var g: seq<uint8> := [3, 0, 0];
            var t := StoreAll(s, [Some(g)]);
            && !NgramStorage.ValidNgram(s, g)
            && t.Ok? && NgramStorage.Reachable(t.value, g) && NgramStorage.Contains(t.value, g)
            && NgramStorage.Addr(s, g) == 27
            && RecallAll(t.value, [Some(g)]) == Ok((1, 1))
  {
    var s := NgramStorage.Empty(2, 3);
    var g: seq<uint8> := [3, 0, 0];
    assert Pow(3, 3) == 27;
    assert NgramStorage.Address(3, g) == 27 by {
      assert g[..2] == [3, 0] && g[..2][..1] == [3] && g[..2][..1][..0] == [];
      assert NgramStorage.Address(3, g[..2][..1][..0]) == 0;
      assert NgramStorage.Address(3, g[..2][..1]) == 3;
      assert NgramStorage.Address(3, g[..2]) == 9;
    }
    assert !NgramStorage.ValidNgram(s, g) by { assert g[0] > 2; }
    assert NgramStorage.Reachable(s, g);
    var gs := [Some(g)];
    assert gs[..0] == [];
    var t := NgramStorage.Set(s, g);
    assert StoreAll(s, gs) == Ok(t);
    NgramStorage.SetThenContains(s, g, g);
    RecallAllFound(t, gs);
    assert ParsedCount(gs[..0]) == 0;
  }

  // ---------------------------------------------------------------------
  // ngramify

  /** `command_ngramify`: the ring-buffer loop of the stand-alone tool
      with the store's n (at most 32 slots), printing each window as
      `" %02X"` bytes; every line reads back as its window. */
  method CommandNgramify(n: nat, data: seq<uint8>) returns (lines: seq<string>)
    requires 1 <= n <= 32
    ensures |lines| == if |data| >= n then |data| - n + 1 else 0
    ensures forall k :: 0 <= k < |lines| ==> lines[k] == HexBytes(data[k..k + n], ZeroPaddedUpper)
    ensures forall k :: 0 <= k < |lines| ==> ReadNgramLine(n, lines[k]) == Ok(data[k..k + n])
  {
    lines := Ngramify.NgramifyLines(n, data, false);
    forall k | 0 <= k < |lines|
      ensures lines[k] == HexBytes(data[k..k + n], ZeroPaddedUpper)
      ensures ReadNgramLine(n, lines[k]) == Ok(data[k..k + n])
    {
      assert Ngramify.FormatLine(data[k..k + n], false) == HexBytes(data[k..k + n], ZeroPaddedUpper) + "";
      Ngramify.FormatLineRoundTrip(data[k..k + n], false);
    }
  }
}
