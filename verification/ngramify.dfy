/** `ngramify`: print a header and then every length-n window of the input,
    one per line, as space-separated upper-case hex bytes, read through a
    ring buffer of n slots. */
module Ngramify {
  import opened Wrappers
  import opened Bytes
  import opened HexText
  import opened FileFormat

  /** `MAX_N_GRAM`: the ring buffer's capacity; n must stay below it. */
  const MaxNGram: int := 1024

  /** What `isprint` accepts in the C locale. */
  predicate Printable(b: uint8)
  {
    0x20 <= b <= 0x7e
  }

  /** The verbose column: each byte as a character, '.' where it is not
      printable. */
  function Shown(w: seq<uint8>): (s: string)
    ensures |s| == |w|
    ensures forall i :: 0 <= i < |w| ==> s[i] == if Printable(w[i]) then w[i] as char else '.'
  {
    seq(|w|, i requires 0 <= i < |w| => if Printable(w[i]) then w[i] as char else '.')
  }

  /** One output line, without its newline. */
  function FormatLine(w: seq<uint8>, verbose: bool): string
  {
    HexBytes(w, ZeroPaddedUpper) + (if verbose then "\t| " + Shown(w) else "")
  }

  /** Every printed line is read back by `read_ngram_line` as its window,
      in verbose mode too. */
  lemma FormatLineRoundTrip(w: seq<uint8>, verbose: bool)
    ensures ReadNgramLine(|w|, FormatLine(w, verbose)) == Ok(w)
  {
    var tail := if verbose then "\t| " + Shown(w) else "";
    assert FormatLine(w, verbose) == HexBytes(w, ZeroPaddedUpper) + tail;
    ReadHexRow(w, ZeroPaddedUpper, tail);
  }

  /** The window as the ring buffer holds it, oldest slot first. */
  function RingWindow(buf: seq<int>, skip: nat, n: nat): seq<int>
    requires |buf| == n > 0
  {
    seq(n, i requires 0 <= i < n => buf[(i + skip) % n])
  }

  /** The ring buffer holds data[skip..skip+n] with data[j] in slot j % n. */
  ghost predicate RingHolds(buf: seq<int>, data: seq<uint8>, skip: nat, n: nat)
    requires |buf| == n > 0
  {
    forall j :: skip <= j < skip + n && j < |data| ==> buf[j % n] == data[j]
  }

  lemma RingWindowIs(buf: seq<int>, data: seq<uint8>, skip: nat, n: nat)
    requires |buf| == n > 0 && skip + n <= |data|
    requires RingHolds(buf, data, skip, n)
    ensures RingWindow(buf, skip, n) == data[skip..skip + n]
  {
    forall i | 0 <= i < n
      ensures RingWindow(buf, skip, n)[i] == data[skip..skip + n][i]
    {
      assert buf[(skip + i) % n] == data[skip + i];
    }
  }

  /** Refilling the slot of the oldest byte with the next one moves the
      window along by one. */
  lemma RingAdvance(buf: seq<int>, data: seq<uint8>, skip: nat, n: nat)
    requires |buf| == n > 0 && skip + n < |data|
    requires RingHolds(buf, data, skip, n)
    ensures RingHolds(buf[skip % n := data[skip + n] as int], data, skip + 1, n)
  {
    var nb := buf[skip % n := data[skip + n] as int];
    forall j | skip + 1 <= j < skip + 1 + n && j < |data|
      ensures nb[j % n] == data[j]
    {
      if j == skip + n {
        ModShift(skip, n);
      } else {
        ModDistinct(skip, j, n);
      }
    }
  }

  /** The length-n windows of `data`, in order. */
  function Windows(data: seq<uint8>, n: nat): (ws: seq<seq<uint8>>)
    requires n >= 1
    ensures |ws| == if |data| >= n then |data| - n + 1 else 0
    ensures forall k :: 0 <= k < |ws| ==> ws[k] == data[k..k + n]
  {
    if |data| < n then [] else seq(|data| - n + 1, k requires 0 <= k < |data| - n + 1 => data[k..k + n])
  }

  /** The loop of `ngramify`: fill n slots, then print the current window
      and refill the oldest slot until `fgetc` reports the end. For input
      length L it prints L - n + 1 lines when L >= n and none otherwise;
      line k is the window data[k..k+n]. The windows are collected in
      order and formatted afterwards, which prints the same lines. */
  method NgramifyLines(n: int, data: seq<uint8>, verbose: bool) returns (lines: seq<string>)
    requires 1 <= n < MaxNGram
    ensures |lines| == if |data| >= n then |data| - n + 1 else 0
    ensures forall k :: 0 <= k < |lines| ==> lines[k] == FormatLine(data[k..k + n], verbose)
  {
    var ws := Slide(n, data);
    lines := seq(|ws|, k requires 0 <= k < |ws| => FormatLine(ws[k], verbose));
  }

  /** The windows the loop prints, in order. */
  method Slide(n: nat, data: seq<uint8>) returns (ws: seq<seq<uint8>>)
    requires n >= 1
    ensures ws == Windows(data, n)
  {
    var buf, pos, eof := Fill(n, data);
    ws := [];
    if eof {
      return;
    }
    var skip: nat := 0;
    while true
      invariant |buf| == n && pos == skip + n <= |data|
      invariant RingHolds(buf, data, skip, n)
      invariant |ws| == skip && forall k :: 0 <= k < skip ==> ws[k] == data[k..k + n]
      decreases |data| - skip
    {
      RingWindowIs(buf, data, skip, n);
      ws := ws + [RingWindow(buf, skip, n)];
      if pos == |data| {
        break;
      }
      RingAdvance(buf, data, skip, n);
      buf := buf[skip % n := data[pos] as int];
      pos, skip := pos + 1, skip + 1;
    }
  }

  /** The first loop of `ngramify`: n calls of `fgetc` into the n slots;
      a slot read past the end holds EOF (-1). */
  method Fill(n: nat, data: seq<uint8>) returns (buf: seq<int>, pos: nat, eof: bool)
    requires n >= 1
    ensures |buf| == n
    ensures pos == if n <= |data| then n else |data|
    ensures eof <==> n > |data|
    ensures RingHolds(buf, data, 0, n)
  {
    buf := seq(n, _ => 0);
    pos := 0;
    eof := false;
    var i := 0;
    while i < n
      invariant 0 <= i <= n && |buf| == n
      invariant pos == if i <= |data| then i else |data|
      invariant eof <==> i > |data|
      invariant forall j :: 0 <= j < i && j < |data| ==> buf[j] == data[j]
    {
      var c: int;
      if pos < |data| {
        c, pos := data[pos], pos + 1;
      } else {
        c, eof := -1, true;
      }
      buf := buf[i := c];
      i := i + 1;
    }
    forall j | 0 <= j < n
      ensures j % n == j
    {
      DivModOfDigit(0, n, j);
    }
  }

  /** Lines each followed by a newline, as `putchar('\n')` ends them. */
  function Text(lines: seq<string>): string
  {
    JoinLines(lines)
  }

  /** How a run of the program ends. */
  datatype Outcome =
    | NoN                       // n < 1: usage message, exit failure
    | TooLarge(printed: string) // n >= MAX_N_GRAM: header printed, then the assertion fails
    | Printed(out: string)      // header and windows on standard output

  /** `main` after option parsing, with the file contents (or standard
      input) given as `data`. */
  method Run(n: int, fname: Option<string>, data: seq<uint8>, verbose: bool) returns (r: Outcome)
    ensures n < 1 <==> r.NoN?
    ensures n >= MaxNGram <==> r.TooLarge?
    ensures r.TooLarge? ==> r.printed == PrintHeader(n, fname)
    ensures r.Printed? ==> exists lines :: r.out == PrintHeader(n, fname) + Text(lines)
                                         && |lines| == |Windows(data, n)|
                                         && forall k :: 0 <= k < |lines| ==> lines[k] == FormatLine(Windows(data, n)[k], verbose)
  {
    if n < 1 {
      return NoN;
    }
    if n >= MaxNGram {
      return TooLarge(PrintHeader(n, fname));
    }
    var lines := NgramifyLines(n, data, verbose);
    r := Printed(PrintHeader(n, fname) + Text(lines));
  }

  /** What `ngramify` writes is what the histogram tools read: the header
      comes back as the map print_header describes, and every data line as
      its window. */
  lemma OutputReadable(n: int, fname: Option<string>, data: seq<uint8>, verbose: bool, lines: seq<string>)
    requires 1 <= n < MaxNGram
    requires fname.Some? ==> '\n' !in fname.value
    requires |lines| == |Windows(data, n)|
    requires forall k :: 0 <= k < |lines| ==> lines[k] == FormatLine(Windows(data, n)[k], verbose)
    ensures ReadHeader(PrintHeader(n, fname) + Text(lines)) == (HeaderOf(n, fname), Text(lines))
    ensures forall k :: 0 <= k < |lines| ==> ReadNgramLine(n, lines[k]) == Ok(data[k..k + n])
  {
    PrintThenReadHeader(n, fname, Text(lines));
    forall k | 0 <= k < |lines|
      ensures ReadNgramLine(n, lines[k]) == Ok(data[k..k + n])
    {
      FormatLineRoundTrip(data[k..k + n], verbose);
    }
  }
}
