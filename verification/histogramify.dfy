/** `histogramify`: count the n-grams that `ngramify` printed and write
    them back, one line per distinct n-gram in ascending order, under the
    input's header with its type changed. */
module Histogramify {
  import opened Wrappers
  import opened Bytes
  import opened HexText
  import opened FileFormat

  /** One histogram entry: an n-gram and how often it was read. */
  datatype Entry = Entry(gram: seq<uint8>, count: nat)

  /** `std::map<std::vector<uint8_t>, unsigned long>`: the entries in
      ascending key order. */
  type Histogram = seq<Entry>

  /** Keys strictly ascending, checked between neighbours. */
  predicate Ordered(h: Histogram)
    decreases |h|
  {
    |h| <= 1 || (LexLess(h[0].gram, h[1].gram) && Ordered(h[1..]))
  }

  ghost predicate Positive(h: Histogram)
  {
    forall i :: 0 <= i < |h| ==> h[i].count > 0
  }

  function Grams(h: Histogram): (r: seq<seq<uint8>>)
    ensures |r| == |h| && forall i :: 0 <= i < |h| ==> r[i] == h[i].gram
  {
    seq(|h|, i requires 0 <= i < |h| => h[i].gram)
  }

  /** `histogram[g]`, 0 for a missing key. */
  function CountOf(h: Histogram, g: seq<uint8>): nat
    decreases |h|
  {
    if |h| == 0 then 0 else if h[0].gram == g then h[0].count else CountOf(h[1..], g)
  }

  /** The sum of all counts. */
  function Total(h: Histogram): nat
    decreases |h|
  {
    if |h| == 0 then 0 else h[0].count + Total(h[1..])
  }

  /** Neighbour order gives order between every two entries: one entry per
      distinct n-gram, in ascending order. */
  lemma {:induction false} OrderedSorted(h: Histogram)
    requires Ordered(h)
    ensures StrictlySorted(Grams(h))
    decreases |h|
  {
    if |h| > 1 {
      OrderedSorted(h[1..]);
      forall j | 1 <= j < |h|
        ensures LexLess(h[0].gram, h[j].gram)
      {
        if j > 1 {
          assert LexLess(h[1].gram, h[j].gram) by {
            assert Grams(h[1..])[0] == h[1].gram && Grams(h[1..])[j - 1] == h[j].gram;
          }
          LexTransitive(h[0].gram, h[1].gram, h[j].gram);
        }
      }
      forall i, j | 0 <= i < j < |h|
        ensures LexLess(Grams(h)[i], Grams(h)[j])
      {
        if i > 0 {
          assert Grams(h[1..])[i - 1] == h[i].gram && Grams(h[1..])[j - 1] == h[j].gram;
        }
      }
    }
  }

  /** A key below the first key of an ordered histogram is absent. */
  lemma {:induction false} AbsentBelowHead(h: Histogram, g: seq<uint8>)
    requires Ordered(h) && |h| > 0 && LexLess(g, h[0].gram)
    ensures CountOf(h, g) == 0
    decreases |h|
  {
    LexIrreflexive(g);
    if |h| > 1 {
      LexTransitive(g, h[0].gram, h[1].gram);
      AbsentBelowHead(h[1..], g);
    }
  }

  /** `histogram[g] += 1`: the count of g goes up by one, a missing g is
      inserted at its place with count 1, and nothing else changes. */
  function Increment(h: Histogram, g: seq<uint8>): (r: Histogram)
    requires Ordered(h)
    ensures Ordered(r) && |r| > 0
    ensures r[0].gram == g || (|h| > 0 && r[0].gram == h[0].gram)
    ensures forall x :: CountOf(r, x) == CountOf(h, x) + (if x == g then 1 else 0)
    decreases |h|
  {
    if |h| == 0 then [Entry(g, 1)]
    else if h[0].gram == g then
      var r := [Entry(g, h[0].count + 1)] + h[1..];
      assert r[1..] == h[1..];
      r
    else if LexLess(g, h[0].gram) then
      AbsentBelowHead(h, g);
      var r := [Entry(g, 1)] + h;
      assert r[1..] == h;
      r
    else
      LexTotal(g, h[0].gram);
      LexIrreflexive(g);
      var t := Increment(h[1..], g);
      var r := [h[0]] + t;
      assert r[1..] == t;
      r
  }

  /** What `read_ngram_line` makes of each line. */
  function ParseLines(n: nat, lines: seq<string>): (r: seq<Result<seq<uint8>, ReadError>>)
    ensures |r| == |lines| && forall i :: 0 <= i < |lines| ==> r[i] == ReadNgramLine(n, lines[i])
  {
    seq(|lines|, i requires 0 <= i < |lines| => ReadNgramLine(n, lines[i]))
  }

  ghost predicate AllOk(rs: seq<Result<seq<uint8>, ReadError>>)
  {
    forall i :: 0 <= i < |rs| ==> rs[i].Ok?
  }

  ghost predicate AllRead(n: nat, lines: seq<string>)
  {
    AllOk(ParseLines(n, lines))
  }

  /** The parsed n-grams, in input order. */
  ghost function Values(rs: seq<Result<seq<uint8>, ReadError>>): (r: seq<seq<uint8>>)
    requires AllOk(rs)
    ensures |r| == |rs| && forall i :: 0 <= i < |rs| ==> r[i] == rs[i].value
  {
    seq(|rs|, i requires 0 <= i < |rs| && AllOk(rs) => rs[i].value)
  }

  /** The counting loop over parse results: stops at the index of the
      first failure; otherwise each n-gram's count is its number of
      occurrences and the counts add up to the number of results. */
  function CountAll(rs: seq<Result<seq<uint8>, ReadError>>): (r: Result<Histogram, nat>)
    ensures r.Ok? <==> AllOk(rs)
    ensures r.Err? ==> r.error < |rs| && rs[r.error].Err? && AllOk(rs[..r.error])
    ensures r.Ok? ==> && Ordered(r.value) && Positive(r.value)
                      && Total(r.value) == |rs|
                      && forall x :: CountOf(r.value, x) == multiset(Values(rs))[x]
    decreases |rs|
  {
    if |rs| == 0 then Ok([])
    else
      var init := rs[..|rs| - 1];
      var last := rs[|rs| - 1];
      assert forall i :: 0 <= i < |init| ==> init[i] == rs[i];
      match CountAll(init)
      case Err(e) =>
        assert init[..e] == rs[..e];
        Err(e)
      case Ok(h) =>
        if last.Err? then
          assert rs[..|rs| - 1] == init;
          Err(|rs| - 1)
        else
          ValuesSnoc(rs);
          IncrementTotal(h, last.value);
          IncrementPositive(h, last.value);
          Ok(Increment(h, last.value))
  }

  /** One more occurrence raises the sum of the counts by one. */
  lemma {:induction false} IncrementTotal(h: Histogram, g: seq<uint8>)
    requires Ordered(h)
    ensures Total(Increment(h, g)) == Total(h) + 1
    decreases |h|
  {
    if |h| > 0 && h[0].gram != g && !LexLess(g, h[0].gram) {
      var r := Increment(h, g);
      IncrementTotal(h[1..], g);
      assert r[1..] == Increment(h[1..], g);
    }
  }

  /** Counting never leaves an n-gram with count 0. */
  lemma {:induction false} IncrementPositive(h: Histogram, g: seq<uint8>)
    requires Ordered(h) && Positive(h)
    ensures Positive(Increment(h, g))
    decreases |h|
  {
    if |h| > 0 && h[0].gram != g && !LexLess(g, h[0].gram) {
      var r := Increment(h, g);
      assert Positive(h[1..]) by {
        forall i | 0 <= i < |h[1..]| ensures h[1..][i].count > 0 {
          assert h[1..][i] == h[i + 1];
        }
      }
      IncrementPositive(h[1..], g);
      assert r[1..] == Increment(h[1..], g);
      forall i | 0 <= i < |r| ensures r[i].count > 0 {
        if i > 0 {
          assert r[i] == r[1..][i - 1];
        }
      }
    }
  }

  lemma ValuesSnoc(rs: seq<Result<seq<uint8>, ReadError>>)
    requires |rs| > 0 && AllOk(rs)
    ensures AllOk(rs[..|rs| - 1])
    ensures multiset(Values(rs)) == multiset(Values(rs[..|rs| - 1])) + multiset{rs[|rs| - 1].value}
  {
    var init := rs[..|rs| - 1];
    assert Values(rs) == Values(init) + [rs[|rs| - 1].value];
  }

  /** A line that `read_ngram_line` refused, and where it was. */
  datatype LineError = LineError(index: nat, line: string)

  /** `create_histogram`: one count per line read. The first line that does
      not parse is reported and no histogram is returned; otherwise every
      n-gram's count is the number of lines that hold it, and the counts
      add up to the number of lines. */
  function CreateHistogram(n: nat, lines: seq<string>): (r: Result<Histogram, LineError>)
    ensures r.Ok? <==> AllRead(n, lines)
    ensures r.Err? ==> && r.error.index < |lines|
                       && r.error.line == lines[r.error.index]
                       && ReadNgramLine(n, lines[r.error.index]).Err?
                       && AllRead(n, lines[..r.error.index])
    ensures r.Ok? ==> && Ordered(r.value) && Positive(r.value)
                      && Total(r.value) == |lines|
                      && forall x :: CountOf(r.value, x) == multiset(Values(ParseLines(n, lines)))[x]
  {
    var rs := ParseLines(n, lines);
    match CountAll(rs)
    case Err(i) =>
      assert ParseLines(n, lines[..i]) == rs[..i];
      Err(LineError(i, lines[i]))
    case Ok(h) => Ok(h)
  }

  /** The run's product before printing: the rewritten header, n, and
      the histogram. */
  datatype Report = Report(header: Header, n: nat, histogram: Histogram)

  /** Why `histogramify` ends without output. */
  datatype HistError =
    | MissingKey(key: string)  // `header.at` throws
    | UnknownType              // "Unknown input type!", exit status 1
    | BadN                     // `lexical_cast<unsigned int>` throws
    | BadLine(e: LineError)    // a data line does not parse; rethrown

  /** The header names an input of type "n-grams". */
  predicate IsNgrams(h: Header)
  {
    "type" in h && h["type"] == "n-grams"
  }

  /** A header `main` goes on to read data lines under: type "n-grams"
      and an n that `lexical_cast<unsigned int>` accepts. */
  predicate Accepted(h: Header)
  {
    IsNgrams(h) && "n" in h && ParseUnsigned(h["n"]).Some?
  }

  /** The n of an accepted header. */
  function HeaderN(h: Header): nat
    requires Accepted(h)
  {
    ParseUnsigned(h["n"]).value
  }

  /** `main` up to the output: only "n-grams" input is accepted, the type
      becomes "n-grams histogram", n comes from the header, the data lines
      are those after the header. */
  function Histogramify(input: string): (r: Result<Report, HistError>)
    ensures r.Ok? ==> && r.value.header == ReadHeader(input).0["type" := "n-grams histogram"]
                      && WellFormedHeader(r.value.header)
    ensures r.Ok? ==> CreateHistogram(r.value.n, SplitLines(ReadHeader(input).1)) == Ok(r.value.histogram)
    ensures r.Ok? ==> "n" in ReadHeader(input).0 && ParseUnsigned(ReadHeader(input).0["n"]) == Some(r.value.n)
    ensures r.Ok? <==> && Accepted(ReadHeader(input).0)
                       && AllRead(HeaderN(ReadHeader(input).0), SplitLines(ReadHeader(input).1))
    ensures r == Err(MissingKey("type")) <==> "type" !in ReadHeader(input).0
    ensures r == Err(UnknownType) <==> "type" in ReadHeader(input).0 && ReadHeader(input).0["type"] != "n-grams"
    ensures r == Err(MissingKey("n")) <==> IsNgrams(ReadHeader(input).0) && "n" !in ReadHeader(input).0
    ensures r == Err(BadN) <==> && IsNgrams(ReadHeader(input).0) && "n" in ReadHeader(input).0
                                && ParseUnsigned(ReadHeader(input).0["n"]).None?
    ensures r.Err? && r.error.BadLine? <==> && Accepted(ReadHeader(input).0)
                                            && !AllRead(HeaderN(ReadHeader(input).0), SplitLines(ReadHeader(input).1))
    ensures r.Err? && r.error.BadLine? ==>
              CreateHistogram(HeaderN(ReadHeader(input).0), SplitLines(ReadHeader(input).1)) == Err(r.error.e)
  {
    var (header, rest) := ReadHeader(input);
    ReadHeaderWellFormed(input, map[]);
    if "type" !in header then Err(MissingKey("type"))
    else if header["type"] != "n-grams" then Err(UnknownType)
    else
      var out := header["type" := "n-grams histogram"];
      assert NoColonSpace("type");
      if "n" !in out then Err(MissingKey("n"))
      else
        match ParseUnsigned(out["n"])
        case None => Err(BadN)
        case Some(n) =>
          match CreateHistogram(n, SplitLines(rest))
          case Err(e) => Err(BadLine(e))
          case Ok(h) => Ok(Report(out, n, h))
  }

  /** `$%06lX %8ld`: the count in hex and in decimal. */
  function CountText(c: nat): string
  {
    "\t $" + PadLeft(NatToHex(c), 6, '0') + " " + PadLeft(NatToDecimal(c), 8, ' ')
  }

  /** One output line: each byte after a space in lower-case hex, two
      columns wide, then the count. */
  function EntryLine(e: Entry): string
  {
    HexBytes(e.gram, SpacePaddedLower) + CountText(e.count)
  }

  /** The whole output: the header in key order, an empty line, then one
      line per entry in histogram order. */
  function Render(rep: Report): string
  {
    HeaderText(rep.header) + JoinLines(EntryLines(rep.histogram))
  }

  lemma EntryLineNoNewline(e: Entry)
    ensures '\n' !in EntryLine(e)
  {
    HexBytesNoNewline(e.gram, SpacePaddedLower);
    CountTextNoNewline(e.count);
    NoNewlineJoin(HexBytes(e.gram, SpacePaddedLower), CountText(e.count));
  }

  lemma CountTextNoNewline(c: nat)
    ensures '\n' !in CountText(c)
  {
    PadNoNewline(NatToHex(c), 6, '0');
    DecimalIsHex(NatToDecimal(c));
    PadNoNewline(NatToDecimal(c), 8, ' ');
    JoinFour("\t $", PadLeft(NatToHex(c), 6, '0'), " ", PadLeft(NatToDecimal(c), 8, ' '));
  }

  lemma DecimalIsHex(d: string)
    requires forall k :: 0 <= k < |d| ==> IsDecDigit(d[k])
    ensures forall k :: 0 <= k < |d| ==> IsHexDigit(d[k])
  {
  }

  lemma JoinFour(a: string, b: string, c: string, d: string)
    requires '\n' !in a && '\n' !in b && '\n' !in c && '\n' !in d
    ensures '\n' !in a + b + c + d
  {
    NoNewlineJoin(a, b);
    NoNewlineJoin(a + b, c);
    NoNewlineJoin(a + b + c, d);
  }

  lemma NoNewlineJoin(a: string, b: string)
    requires '\n' !in a && '\n' !in b
    ensures '\n' !in a + b
  {
  }

  /** Padding digits with a fill character adds no line break. */
  lemma PadNoNewline(d: string, width: nat, fill: char)
    requires fill != '\n'
    requires forall k :: 0 <= k < |d| ==> IsHexDigit(d[k])
    ensures '\n' !in PadLeft(d, width, fill)
  {
    var p := PadLeft(d, width, fill);
    forall q | 0 <= q < |p|
      ensures p[q] != '\n'
    {
      if q >= |p| - |d| {
        assert p[q] == p[|p| - |d|..][q - (|p| - |d|)];
      }
    }
  }

  lemma {:induction false} HexBytesNoNewline(w: seq<uint8>, style: HexStyle)
    ensures '\n' !in HexBytes(w, style)
    decreases |w|
  {
    if |w| > 0 {
      HexBytesNoNewline(w[1..], style);
      HexBytesHead(w, style);
      var s := HexBytes(w, style);
      var cell := HexCell(w[0], style);
      assert cell[0] != '\n' && cell[1] != '\n' by {
        if style.SpacePaddedLower? && w[0] < 16 {
          assert cell == [' ', HexChar(w[0], false)];
        } else if style.SpacePaddedLower? {
          assert cell == [HexChar(w[0] / 16, false), HexChar(w[0] % 16, false)];
        } else {
          assert AllHex(cell);
        }
      }
      forall q | 0 <= q < |s|
        ensures s[q] != '\n'
      {
        if 1 <= q < 3 {
          assert s[q] == s[1..3][q - 1];
        } else if q >= 3 {
          assert s[q] == s[3..][q - 3];
        }
      }
    }
  }

  function EntryLines(hist: Histogram): (r: seq<string>)
    ensures |r| == |hist| && forall i :: 0 <= i < |hist| ==> r[i] == EntryLine(hist[i])
  {
    seq(|hist|, i requires 0 <= i < |hist| => EntryLine(hist[i]))
  }

  lemma EntryLinesSplit(hist: Histogram)
    ensures SplitLines(JoinLines(EntryLines(hist))) == EntryLines(hist)
  {
    var lines := EntryLines(hist);
    forall i | 0 <= i < |lines|
      ensures '\n' !in lines[i]
    {
      EntryLineNoNewline(hist[i]);
    }
    SplitJoinLines(lines);
  }

  lemma EntryLineReadsBack(e: Entry, n: nat)
    requires |e.gram| == n
    ensures ReadNgramLine(n, EntryLine(e)) == Ok(e.gram)
  {
    ReadHexRow(e.gram, SpacePaddedLower, CountText(e.count));
  }

  /** What `histogramify` prints reads back: the header as the report's
      header, then one line per entry from which `read_ngram_line` recovers
      that entry's n-gram, in ascending order. */
  lemma RenderReadsBack(rep: Report)
    requires WellFormedHeader(rep.header)
    requires forall i :: 0 <= i < |rep.histogram| ==> |rep.histogram[i].gram| == rep.n
    ensures ReadHeader(Render(rep)) == (rep.header, JoinLines(EntryLines(rep.histogram)))
    ensures SplitLines(JoinLines(EntryLines(rep.histogram))) == EntryLines(rep.histogram)
    ensures forall i :: 0 <= i < |rep.histogram| ==>
              ReadNgramLine(rep.n, EntryLines(rep.histogram)[i]) == Ok(rep.histogram[i].gram)
  {
    var hist := rep.histogram;
    assert Render(rep) == HeaderText(rep.header) + JoinLines(EntryLines(hist));
    ReadHeaderText(rep.header, JoinLines(EntryLines(hist)));
    EntryLinesSplit(hist);
    forall i | 0 <= i < |hist|
      ensures ReadNgramLine(rep.n, EntryLines(hist)[i]) == Ok(hist[i].gram)
    {
      EntryLineReadsBack(hist[i], rep.n);
    }
  }

  /** Every n-gram of a successful run has length n, so the rendered lines
      read back with the run's own n. */
  lemma ReportGramsHaveLengthN(input: string)
    requires Histogramify(input).Ok?
    ensures var rep := Histogramify(input).value;
            forall i :: 0 <= i < |rep.histogram| ==> |rep.histogram[i].gram| == rep.n
  {
    var rep: Report := Histogramify(input).value;
    var lines := SplitLines(ReadHeader(input).1);
    var grams: seq<seq<uint8>> := Values(ParseLines(rep.n, lines));
    forall k: int | 0 <= k < |grams|
      ensures rep.n == |grams[k]|
    {
      assert grams[k] == ReadNgramLine(rep.n, lines[k]).value;
    }
    forall i | 0 <= i < |rep.histogram|
      ensures |rep.histogram[i].gram| == rep.n
    {
      CountedIsRead(rep.histogram, i);
      var g := rep.histogram[i].gram;
      assert multiset(grams)[g] > 0;
      assert g in grams;
    }
  }

  /** Every key of a positive histogram has a positive count. */
  lemma {:induction false} CountedIsRead(h: Histogram, i: nat)
    requires Ordered(h) && Positive(h) && i < |h|
    ensures CountOf(h, h[i].gram) > 0
    decreases |h|
  {
    if i > 0 {
      OrderedSorted(h);
      assert LexLess(Grams(h)[0], Grams(h)[i]);
      LexIrreflexive(h[0].gram);
      assert h[1..][i - 1] == h[i];
      assert Ordered(h[1..]);
      CountedIsRead(h[1..], i - 1);
    }
  }
}
