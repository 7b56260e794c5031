/** `2gram_histo_to_csv`: read 2-gram histograms into 256×256 tables and
    write each table as one tab-separated row of 65536 counts. */
module TwoGramCsv {
  import opened Wrappers
  import opened Bytes
  import opened HexText
  import opened FileFormat
  import Histogramify

  /** `Entry`: a file's header and its table; a cell not in `cells` holds
      0, as `clear` leaves it. */
  datatype Table = Table(header: Header, cells: map<(uint8, uint8), nat>)

  function Cell(t: Table, x: uint8, y: uint8): nat
  {
    if (x, y) in t.cells then t.cells[(x, y)] else 0
  }

  /** A freshly constructed `Entry`: every cell is 0. */
  function Fresh(h: Header): (t: Table)
    ensures t.header == h
    ensures forall x: uint8, y: uint8 :: Cell(t, x, y) == 0
  {
    Table(h, map[])
  }

  /** What `sin >> ch >> std::hex >> count` does to `count`. */
  datatype CountRead =
    | Keep        // `>> ch` or the conversion's white-space skip reaches the end: no conversion
    | Zero        // a conversion that finds no hex digit stores 0
    | Value(v: nat)

  /** The count extraction after the 2-gram, which ends at `pos`. */
  function CountField(line: string, pos: nat): CountRead
    requires pos <= |line|
  {
    var j := SkipSpace(line, pos);
    if j == |line| then Keep
    else if SkipSpace(line, j + 1) == |line| then Keep
    else
      match ScanHex(line, j + 1)
      case None => Zero
      case Some(t) => Value(t.value)
  }

  /** What one data line of `reader_fun` amounts to: a refused 2-gram, or
      the cell it names and what happens to `count`. */
  datatype LineInfo = Refused | Names(x: uint8, y: uint8, read: CountRead)

  function Info(line: string): LineInfo
  {
    match ReadNgramAt(2, line, 0)
    case Err(_) => Refused
    case Ok((g, pos)) => Names(g[0], g[1], CountField(line, pos))
  }

  /** `count` after a line that read `c`, when it held `prev`. */
  function NextCount(c: CountRead, prev: nat): nat
  {
    match c
    case Keep => prev
    case Zero => 0
    case Value(v) => v
  }

  /** The cells and the value of `count` after some lines. */
  datatype ReadState = ReadState(cells: map<(uint8, uint8), nat>, count: nat)

  /** The loop of `reader_fun` over the data lines, `count` starting as
      `initial` (the variable is not initialised in the program). Each
      line assigns its cell; the first refused line is reported by its
      index and ends the loop. */
  function ReadLines(infos: seq<LineInfo>, initial: nat): (r: Result<ReadState, nat>)
    ensures r.Ok? <==> forall i :: 0 <= i < |infos| ==> infos[i].Names?
    ensures r.Err? ==> r.error < |infos| && infos[r.error].Refused?
                       && forall i :: 0 <= i < r.error ==> infos[i].Names?
    ensures r.Ok? ==> forall x, y :: (x, y) in r.value.cells ==>
                        exists i :: 0 <= i < |infos| && infos[i].Names? && infos[i].x == x && infos[i].y == y
    decreases |infos|
  {
    if |infos| == 0 then Ok(ReadState(map[], initial))
    else
      var init := infos[..|infos| - 1];
      var last := infos[|infos| - 1];
      assert forall i :: 0 <= i < |init| ==> init[i] == infos[i];
      match ReadLines(init, initial)
      case Err(e) => Err(e)
      case Ok(st) =>
        match last
        case Refused => Err(|infos| - 1)
        case Names(x, y, c) =>
          var v := NextCount(c, st.count);
          Ok(ReadState(st.cells[(x, y) := v], v))
  }

  /** A cell holds the count of the last line that names it. */
  lemma {:induction false} LastLineWins(infos: seq<LineInfo>, initial: nat, i: nat)
    requires ReadLines(infos, initial).Ok?
    requires i < |infos| && infos[i].Names?
    requires forall j :: i < j < |infos| ==> !(infos[j].x == infos[i].x && infos[j].y == infos[i].y)
    ensures (infos[i].x, infos[i].y) in ReadLines(infos, initial).value.cells
    ensures ReadLines(infos, initial).value.cells[(infos[i].x, infos[i].y)]
            == ReadLines(infos[..i + 1], initial).value.count
    decreases |infos|
  {
    var init := infos[..|infos| - 1];
    assert forall j :: 0 <= j < |init| ==> init[j] == infos[j];
    if i < |infos| - 1 {
      LastLineWins(init, initial, i);
      assert init[..i + 1] == infos[..i + 1];
    } else {
      assert infos[..i + 1] == infos;
    }
  }

  function Infos(lines: seq<string>): (r: seq<LineInfo>)
    ensures |r| == |lines| && forall i :: 0 <= i < |lines| ==> r[i] == Info(lines[i])
  {
    seq(|lines|, i requires 0 <= i < |lines| => Info(lines[i]))
  }

  /** `reader_fun`: the header, then the table the data lines fill. */
  function Reader(content: string, initial: nat): (r: Result<Table, nat>)
    ensures r.Ok? ==> r.value.header == ReadHeader(content).0
  {
    var (header, rest) := ReadHeader(content);
    match ReadLines(Infos(SplitLines(rest)), initial)
    case Err(e) => Err(e)
    case Ok(st) => Ok(Table(header, st.cells))
  }

  /** A cell no line names stays 0. */
  lemma UnnamedCellIsZero(infos: seq<LineInfo>, initial: nat, x: uint8, y: uint8)
    requires ReadLines(infos, initial).Ok?
    requires forall i :: 0 <= i < |infos| ==> !(infos[i].Names? && infos[i].x == x && infos[i].y == y)
    ensures (x, y) !in ReadLines(infos, initial).value.cells
  {
  }

  /** A line `histogramify` printed for a 2-gram names that 2-gram and
      stores the printed count. */
  lemma ReadsHistogramLine(x: uint8, y: uint8, c: nat)
    ensures Info(Histogramify.EntryLine(Histogramify.Entry([x, y], c))) == Names(x, y, Value(c))
  {
    var row := HexBytes([x, y], SpacePaddedLower);
    var line := row + Histogramify.CountText(c);
    assert Histogramify.EntryLine(Histogramify.Entry([x, y], c)) == line;
    assert ReadNgramAt(2, line, 0) == Ok(([x, y], 6)) by {
      assert line[..6] == row;
      assert line[6] == '\t';
      ReadFormatted([x, y], SpacePaddedLower, line, 0, 6);
    }
    CountTextReads(line, 6, c);
  }

  /** A 2-gram histogram that `histogramify` printed reads back as the
      table of its counts: each listed 2-gram's cell holds its count and
      every other cell is 0, whatever `count` started as. */
  lemma HistogramTable(rep: Histogramify.Report, initial: nat) returns (t: Table)
    requires WellFormedHeader(rep.header) && rep.n == 2
    requires forall i :: 0 <= i < |rep.histogram| ==> |rep.histogram[i].gram| == 2
    requires Histogramify.Ordered(rep.histogram)
    ensures Reader(Histogramify.Render(rep), initial) == Ok(t) && t.header == rep.header
    ensures forall i :: 0 <= i < |rep.histogram| ==>
              Cell(t, rep.histogram[i].gram[0], rep.histogram[i].gram[1]) == rep.histogram[i].count
    ensures forall x: uint8, y: uint8 ::
              (forall i :: 0 <= i < |rep.histogram| ==> rep.histogram[i].gram != [x, y]) ==>
              Cell(t, x, y) == 0
  {
    var hist := rep.histogram;
    var infos := HistogramInfos(hist);
    DistinctNames(hist, infos);
    DistinctCells(infos, initial);
    t := RenderedReader(rep, initial, infos);
    forall i | 0 <= i < |hist|
      ensures Cell(t, hist[i].gram[0], hist[i].gram[1]) == hist[i].count
    {
      assert infos[i] == Names(hist[i].gram[0], hist[i].gram[1], Value(hist[i].count));
    }
    forall x: uint8, y: uint8 | forall i :: 0 <= i < |hist| ==> hist[i].gram != [x, y]
      ensures Cell(t, x, y) == 0
    {
      forall i | 0 <= i < |infos|
        ensures !(infos[i].Names? && infos[i].x == x && infos[i].y == y)
      {
        assert hist[i].gram == [infos[i].x, infos[i].y];
      }
      UnnamedCellIsZero(infos, initial, x, y);
    }
  }

  /** `reader_fun` on a rendered histogram reads its header and then its
      entry lines. */
  lemma RenderedReader(rep: Histogramify.Report, initial: nat, infos: seq<LineInfo>) returns (t: Table)
    requires WellFormedHeader(rep.header)
    requires forall i :: 0 <= i < |rep.histogram| ==> |rep.histogram[i].gram| == rep.n
    requires infos == Infos(Histogramify.EntryLines(rep.histogram)) && ReadLines(infos, initial).Ok?
    ensures t == Table(rep.header, ReadLines(infos, initial).value.cells)
    ensures Reader(Histogramify.Render(rep), initial) == Ok(t)
  {
    Histogramify.RenderReadsBack(rep);
    t := Table(rep.header, ReadLines(infos, initial).value.cells);
  }

  /** What the lines of a rendered 2-gram histogram amount to. */
  lemma HistogramInfos(hist: Histogramify.Histogram) returns (infos: seq<LineInfo>)
    requires forall i :: 0 <= i < |hist| ==> |hist[i].gram| == 2
    ensures infos == Infos(Histogramify.EntryLines(hist))
    ensures |infos| == |hist|
    ensures forall i :: 0 <= i < |hist| ==>
              infos[i] == Names(hist[i].gram[0], hist[i].gram[1], Value(hist[i].count))
    ensures forall i :: 0 <= i < |hist| ==> hist[i].gram == [infos[i].x, infos[i].y]
  {
    infos := Infos(Histogramify.EntryLines(hist));
    forall i | 0 <= i < |hist|
      ensures infos[i] == Names(hist[i].gram[0], hist[i].gram[1], Value(hist[i].count))
      ensures hist[i].gram == [infos[i].x, infos[i].y]
    {
      var g := hist[i].gram;
      assert g == [g[0], g[1]];
      ReadsHistogramLine(g[0], g[1], hist[i].count);
    }
  }

  /** Ascending 2-grams name pairwise different cells. */
  lemma DistinctNames(hist: Histogramify.Histogram, infos: seq<LineInfo>)
    requires Histogramify.Ordered(hist) && |infos| == |hist|
    requires forall i :: 0 <= i < |hist| ==> infos[i].Names? && hist[i].gram == [infos[i].x, infos[i].y]
    ensures forall i, j :: 0 <= i < j < |infos| ==> (infos[i].x, infos[i].y) != (infos[j].x, infos[j].y)
  {
    Histogramify.OrderedSorted(hist);
    forall i, j | 0 <= i < j < |infos|
      ensures (infos[i].x, infos[i].y) != (infos[j].x, infos[j].y)
    {
      assert LexLess(Histogramify.Grams(hist)[i], Histogramify.Grams(hist)[j]);
      LexIrreflexive(hist[i].gram);
    }
  }

  /** Lines that each hold a value and name different cells fill exactly
      those cells with those values. */
  lemma DistinctCells(infos: seq<LineInfo>, initial: nat)
    requires forall i :: 0 <= i < |infos| ==> infos[i].Names? && infos[i].read.Value?
    requires forall i, j :: 0 <= i < j < |infos| ==> (infos[i].x, infos[i].y) != (infos[j].x, infos[j].y)
    ensures ReadLines(infos, initial).Ok?
    ensures forall i :: 0 <= i < |infos| ==>
              (infos[i].x, infos[i].y) in ReadLines(infos, initial).value.cells
              && ReadLines(infos, initial).value.cells[(infos[i].x, infos[i].y)] == infos[i].read.v
  {
    forall i | 0 <= i < |infos|
      ensures (infos[i].x, infos[i].y) in ReadLines(infos, initial).value.cells
      ensures ReadLines(infos, initial).value.cells[(infos[i].x, infos[i].y)] == infos[i].read.v
    {
      LastLineWins(infos, initial, i);
      LastCount(infos, initial, i);
    }
  }

  /** `count` after a line that holds a value is that value. */
  lemma LastCount(infos: seq<LineInfo>, initial: nat, i: nat)
    requires i < |infos| && ReadLines(infos, initial).Ok?
    requires infos[i].Names? && infos[i].read.Value?
    ensures ReadLines(infos[..i + 1], initial).Ok?
    ensures ReadLines(infos[..i + 1], initial).value.count == infos[i].read.v
  {
    var pre := infos[..i + 1];
    assert pre[..|pre| - 1] == infos[..i];
    assert pre[|pre| - 1] == infos[i];
  }

  lemma CountTextReads(line: string, pos: nat, c: nat)
    requires pos <= |line| && line[pos..] == Histogramify.CountText(c)
    ensures CountField(line, pos) == Value(c)
  {
    var hx := CountTextLayout(line, pos, c);
    CountFieldOf(line, pos, hx);
  }

  /** Where the pieces of `\t $%06lX` sit in the line; `hx` is the hex
      field. */
  lemma CountTextLayout(line: string, pos: nat, c: nat) returns (hx: string)
    requires pos <= |line| && line[pos..] == Histogramify.CountText(c)
    ensures |hx| > 0 && AllHex(hx) && HexNumber(hx) == c
    ensures && pos + 3 + |hx| < |line|
            && line[pos] == '\t' && line[pos + 1] == ' ' && line[pos + 2] == '$'
            && line[pos + 3..pos + 3 + |hx|] == hx && line[pos + 3 + |hx|] == ' '
  {
    hx := CountTextShape(c);
    var ct := line[pos..];
    SliceIndex(line, pos, 0);
    SliceIndex(line, pos, 1);
    SliceIndex(line, pos, 2);
    SliceOfSlice(line, pos, |line|, 3, 3 + |hx|);
    SliceIndex(line, pos, 3 + |hx|);
  }

  lemma CountTextShape(c: nat) returns (hx: string)
    ensures |hx| > 0 && AllHex(hx) && HexNumber(hx) == c
    ensures var ct := Histogramify.CountText(c);
            && 3 + |hx| < |ct|
            && ct[0] == '\t' && ct[1] == ' ' && ct[2] == '$'
            && ct[3..3 + |hx|] == hx && ct[3 + |hx|] == ' '
  {
    hx := PaddedHex(c);
    var dc := PadLeft(NatToDecimal(c), 8, ' ');
    FieldLayout(hx, dc);
  }

  /** The positions in `\t $<hx> <dc>`, whatever the two fields hold. */
  lemma FieldLayout(hx: string, dc: string)
    ensures var ct := "\t $" + hx + " " + dc;
            && 3 + |hx| < |ct|
            && ct[0] == '\t' && ct[1] == ' ' && ct[2] == '$'
            && ct[3..3 + |hx|] == hx && ct[3 + |hx|] == ' '
  {
  }

  lemma CountFieldOf(line: string, pos: nat, hx: string)
    requires pos + 3 + |hx| < |line| && |hx| > 0 && AllHex(hx)
    requires line[pos] == '\t' && line[pos + 1] == ' ' && line[pos + 2] == '$'
    requires line[pos + 3..pos + 3 + |hx|] == hx && line[pos + 3 + |hx|] == ' '
    ensures CountField(line, pos) == Value(HexNumber(hx))
  {
    var s := pos + 3;
    SkipToDollar(line, pos);
    ScanHexAt(line, s, s + |hx|);
  }

  /** `>> ch` skips the tab and the blank and takes the `$`. */
  lemma SkipToDollar(line: string, pos: nat)
    requires pos + 2 < |line|
    requires line[pos] == '\t' && line[pos + 1] == ' ' && line[pos + 2] == '$'
    ensures SkipSpace(line, pos) == pos + 2
  {
    assert SkipSpace(line, pos + 2) == pos + 2;
  }

  /** A conversion that starts on a run of hex digits reads that run. */
  lemma ScanHexAt(s: string, i: nat, e: nat)
    requires i < e < |s| && AllHex(s[i..e]) && !IsHexDigit(s[e])
    ensures SkipSpace(s, i) == i
    ensures ScanHex(s, i) == Some(Token(HexNumber(s[i..e]), e))
  {
    assert forall k :: i <= k < e ==> s[k] == s[i..e][k - i];
    ScanRunAt(s, i, e);
  }

  lemma SliceIndex(s: string, i: nat, k: nat)
    requires i + k < |s|
    ensures s[i..][k] == s[i + k]
  {
  }

  /** `%06lX` is a run of hex digits worth the count. */
  lemma PaddedHex(c: nat) returns (hx: string)
    ensures hx == PadLeft(NatToHex(c), 6, '0')
    ensures |hx| > 0 && AllHex(hx) && HexNumber(hx) == c
  {
    var d := NatToHex(c);
    hx := PadLeft(d, 6, '0');
    if |d| < 6 {
      LeadingZeros(6 - |d|, d);
      assert hx == seq(6 - |d|, _ => '0') + d;
    }
  }

  // ---------------------------------------------------------------------
  // Writing

  /** The output order: cell (x, y) at position y*256 + x. */
  function Linear(t: Table): (r: seq<nat>)
    ensures |r| == 65536
  {
    seq(65536, k requires 0 <= k < 65536 => Cell(t, k % 256, k / 256))
  }

  /** The two loops of `writer_fun`, y outside and x inside. */
  method Linearise(t: Table) returns (vals: seq<nat>)
    ensures |vals| == 65536
    ensures forall x: uint8, y: uint8 :: vals[y * 256 + x] == Cell(t, x, y)
    ensures vals == Linear(t)
  {
    vals := [];
    var y := 0;
    while y < 256
      invariant 0 <= y <= 256 && |vals| == y * 256
      invariant forall k :: 0 <= k < |vals| ==> vals[k] == Cell(t, k % 256, k / 256)
    {
      var x := 0;
      while x < 256
        invariant 0 <= x <= 256 && |vals| == y * 256 + x
        invariant forall k :: 0 <= k < |vals| ==> vals[k] == Cell(t, k % 256, k / 256)
      {
        DivModOfDigit(y, 256, x);
        vals := vals + [Cell(t, x, y)];
        x := x + 1;
      }
      y := y + 1;
    }
    forall x: uint8, y: uint8
      ensures vals[y * 256 + x] == Cell(t, x, y)
    {
      DivModOfDigit(y, 256, x);
    }
  }

  /** Each count after a tab, in decimal. */
  function Tabbed(vals: seq<nat>): string
  {
    if |vals| == 0 then [] else "\t" + NatToDecimal(vals[0]) + Tabbed(vals[1..])
  }

  /** `writer_fun` for one table: its "fname", the 65536 counts, a newline.
      The header lookup throws when "fname" is missing. */
  function Row(t: Table): Option<string>
  {
    if "fname" !in t.header then None else Some(t.header["fname"] + Tabbed(Linear(t)) + "\n")
  }

  /** Every table can be written: each has a "fname". */
  ghost predicate AllNamed(ts: seq<Table>)
  {
    forall f :: 0 <= f < |ts| ==> Row(ts[f]).Some?
  }

  /** The rows of the tables, concatenated in file order (built from the
      last table backwards, independently of the writing loop). */
  function Rows(ts: seq<Table>): string
    requires AllNamed(ts)
    decreases |ts|
  {
    if |ts| == 0 then [] else Rows(ts[..|ts| - 1]) + Row(ts[|ts| - 1]).value
  }

  /** The rows of `[t] + ts` are t's row followed by the rows of ts. */
  lemma {:induction false} RowsCons(t: Table, ts: seq<Table>)
    requires Row(t).Some? && AllNamed(ts)
    ensures AllNamed([t] + ts)
    ensures Rows([t] + ts) == Row(t).value + Rows(ts)
    decreases |ts|
  {
    var all := [t] + ts;
    assert forall f :: 0 <= f < |all| ==> all[f] == if f == 0 then t else ts[f - 1];
    if |ts| > 0 {
      var init := ts[..|ts| - 1];
      assert AllNamed(init);
      RowsCons(t, init);
      assert all[..|all| - 1] == [t] + init;
      assert all[|all| - 1] == ts[|ts| - 1];
    }
  }

  /** How a run ends. */
  datatype Status =
    | Done
    | Usage                        // no file arguments, exit status 1
    | BadLine(file: nat, line: nat) // a data line is rethrown
    | NoFname(file: nat)           // `at("fname")` throws while writing

  /** `main`: read every file first, then write the rows in file order;
      returns what was printed and how the run ended. */
  function Run(contents: seq<string>, initial: nat): (r: (string, Status))
    ensures |contents| == 0 <==> r.1 == Usage
    ensures r.1.BadLine? ==> r.0 == [] && r.1.file < |contents|
                             && Readers(contents, initial)[r.1.file] == Err(r.1.line)
    ensures r.1 == Done ==> forall f :: 0 <= f < |contents| ==> Readers(contents, initial)[f].Ok?
    ensures r.1 == Done ==> && ReadAll(Readers(contents, initial)).Ok?
                            && AllNamed(ReadAll(Readers(contents, initial)).value)
                            && r.0 == Rows(ReadAll(Readers(contents, initial)).value)
    ensures r.1.NoFname? ==> && ReadAll(Readers(contents, initial)).Ok?
                             && var ts := ReadAll(Readers(contents, initial)).value;
                                && r.1.file < |ts| && Row(ts[r.1.file]).None?
                                && AllNamed(ts[..r.1.file]) && r.0 == Rows(ts[..r.1.file])
  {
    if |contents| == 0 then ([], Usage)
    else
      match ReadAll(Readers(contents, initial))
      case Err((f, l)) => ([], BadLine(f, l))
      case Ok(tables) => WriteAll(tables)
  }

  /** `std::transform` with `reader_fun`: all tables, or the first failure
      as (file, line). */
  function ReadAll(rs: seq<Result<Table, nat>>): (r: Result<seq<Table>, (nat, nat)>)
    ensures r.Ok? <==> forall f :: 0 <= f < |rs| ==> rs[f].Ok?
    ensures r.Ok? ==> |r.value| == |rs| && forall f :: 0 <= f < |rs| ==> r.value[f] == rs[f].value
    ensures r.Err? ==> r.error.0 < |rs| && rs[r.error.0] == Err(r.error.1)
                       && forall f :: 0 <= f < r.error.0 ==> rs[f].Ok?
    decreases |rs|
  {
    if |rs| == 0 then Ok([])
    else
      match rs[0]
      case Err(l) => Err((0, l))
      case Ok(t) =>
        match ReadAll(rs[1..])
        case Err((f, l)) => Err((f + 1, l))
        case Ok(ts) => Ok([t] + ts)
  }

  function Readers(contents: seq<string>, initial: nat): (r: seq<Result<Table, nat>>)
    ensures |r| == |contents| && forall f :: 0 <= f < |contents| ==> r[f] == Reader(contents[f], initial)
  {
    seq(|contents|, f requires 0 <= f < |contents| => Reader(contents[f], initial))
  }

  /** `std::for_each` with `writer_fun`: rows in order until one table has
      no "fname"; that table's lookup throws before it prints anything. */
  function WriteAll(tables: seq<Table>): (r: (string, Status))
    ensures r.1 == Done <==> AllNamed(tables)
    ensures r.1 == Done || (r.1.NoFname? && r.1.file < |tables| && Row(tables[r.1.file]).None?)
    ensures r.1 == Done ==> r.0 == Rows(tables)
    ensures r.1.NoFname? ==> AllNamed(tables[..r.1.file]) && r.0 == Rows(tables[..r.1.file])
    decreases |tables|
  {
    if |tables| == 0 then ([], Done)
    else
      match Row(tables[0])
      case None =>
        assert tables[..0] == [];
        ([], NoFname(0))
      case Some(row) =>
        var (rest, status) := WriteAll(tables[1..]);
        assert tables == [tables[0]] + tables[1..];
        if status.NoFname? then
          assert tables[..status.file + 1] == [tables[0]] + tables[1..][..status.file];
          RowsCons(tables[0], tables[1..][..status.file]);
          (row + rest, NoFname(status.file + 1))
        else
          RowsCons(tables[0], tables[1..]);
          (row + rest, status)
  }
}
