/** The companion text format of the histogram and n-gram tools: a header
    of `#key: value` lines ended by an empty line (`read_header`), data rows
    of hex bytes (`read_ngram_line`), and the header `ngramify` prints. */
module FileFormat {
  import opened Wrappers
  import opened Bytes
  import opened HexText

  /** The index of the first newline at or after `k`, or `|s|`. */
  function NewlineFrom(s: string, k: nat): (i: nat)
    requires k <= |s|
    ensures k <= i <= |s|
    ensures i < |s| ==> s[i] == '\n'
    ensures forall q :: k <= q < i ==> s[q] != '\n'
    decreases |s| - k
  {
    if k == |s| || s[k] == '\n' then k else NewlineFrom(s, k + 1)
  }

  /** `getline`: the next line, without its newline, and the text after it;
      `None` once the input is exhausted. */
  function GetLine(s: string): (r: Option<(string, string)>)
    ensures r.None? <==> s == []
    ensures r.Some? ==> '\n' !in r.value.0 && |r.value.1| < |s|
  {
    if s == [] then None
    else
      var i := NewlineFrom(s, 0);
      assert forall q :: 0 <= q < i ==> s[..i][q] != '\n';
      if i < |s| then Some((s[..i], s[i + 1..])) else Some((s, []))
  }

  lemma {:induction false} NewlineFromIs(s: string, k: nat, i: nat)
    requires k <= i < |s| && s[i] == '\n'
    requires forall q :: k <= q < i ==> s[q] != '\n'
    ensures NewlineFrom(s, k) == i
    decreases i - k
  {
    if k < i {
      NewlineFromIs(s, k + 1, i);
    }
  }

  lemma GetLineOf(line: string, rest: string)
    requires '\n' !in line
    ensures GetLine(line + "\n" + rest) == Some((line, rest))
  {
    var s := line + "\n" + rest;
    assert forall q :: 0 <= q < |line| ==> s[q] == line[q];
    NewlineFromIs(s, 0, |line|);
    assert s[..|line|] == line && s[|line| + 1..] == rest;
  }

  /** The first position at or after `q` where ": " starts (`line.find`). */
  function FindColonSpace(line: string, q: nat): (r: Option<nat>)
    requires q <= |line|
    ensures r.Some? ==> q <= r.value && r.value + 1 < |line| && line[r.value] == ':' && line[r.value + 1] == ' '
    ensures forall o :: (q <= o < (if r.Some? then r.value else |line|) && o + 1 < |line|)
                        ==> !(line[o] == ':' && line[o + 1] == ' ')
    decreases |line| - q
  {
    if q + 1 >= |line| then None
    else if line[q] == ':' && line[q + 1] == ' ' then Some(q)
    else FindColonSpace(line, q + 1)
  }

  /** No ": " anywhere in `k`. */
  ghost predicate NoColonSpace(k: string)
  {
    forall q :: 0 <= q < |k| - 1 ==> !(k[q] == ':' && k[q + 1] == ' ')
  }

  /** The key and value of a header line: text between '#' and the first
      ": ", and the text after it. */
  function ParseHeaderLine(line: string): Option<(string, string)>
  {
    if |line| > 0 && line[0] == '#' then
      match FindColonSpace(line, 0)
      case None => None
      case Some(p) => Some((line[1..p], line[p + 2..]))
    else None
  }

  /** A line yields (k, v) exactly when it is "#" + k + ": " + v with no ": "
      inside k; every other line is ignored. */
  lemma ParseHeaderLineIff(line: string, k: string, v: string)
    ensures ParseHeaderLine(line) == Some((k, v)) <==> (line == "#" + k + ": " + v && NoColonSpace(k))
  {
    if ParseHeaderLine(line) == Some((k, v)) {
      var p := FindColonSpace(line, 0).value;
      assert line == [line[0]] + line[1..p] + line[p..p + 2] + line[p + 2..];
      forall q | 0 <= q < |k| - 1
        ensures !(k[q] == ':' && k[q + 1] == ' ')
      {
        assert k[q] == line[q + 1] && k[q + 1] == line[q + 2];
      }
    }
    if line == "#" + k + ": " + v && NoColonSpace(k) {
      var p := |k| + 1;
      assert line[p] == ':' && line[p + 1] == ' ';
      forall o | 0 <= o < p && o + 1 < |line|
        ensures !(line[o] == ':' && line[o + 1] == ' ')
      {
        if 1 <= o < p - 1 {
          assert line[o] == k[o - 1] && line[o + 1] == k[o];
        } else if o == p - 1 && o >= 1 {
          assert line[o + 1] == ':';
        }
      }
      var r := FindColonSpace(line, 0);
      assert r == Some(p);
      assert line[1..p] == k && line[p + 2..] == v;
    }
  }

  type Header = map<string, string>

  /** `keyval[key] = value` for a header line; other lines change nothing. */
  function ApplyLine(h: Header, line: string): Header
  {
    match ParseHeaderLine(line)
    case None => h
    case Some((k, v)) => h[k := v]
  }

  /** The header lines applied in order. */
  function ApplyLines(h: Header, lines: seq<string>): Header
  {
    if |lines| == 0 then h else ApplyLine(ApplyLines(h, lines[..|lines| - 1]), lines[|lines| - 1])
  }

  /** A repeated key keeps the value of its last line. */
  lemma {:induction false} LastValueWins(h: Header, lines: seq<string>, i: nat, k: string, v: string)
    requires i < |lines| && ParseHeaderLine(lines[i]) == Some((k, v))
    requires forall j :: i < j < |lines| ==> ParseHeaderLine(lines[j]).None? || ParseHeaderLine(lines[j]).value.0 != k
    ensures k in ApplyLines(h, lines) && ApplyLines(h, lines)[k] == v
  {
    if i < |lines| - 1 {
      LastValueWins(h, lines[..|lines| - 1], i, k, v);
    } else {
      assert lines[..|lines| - 1][..] == lines[..|lines| - 1];
    }
  }

  /** `read_header` from the current position: lines up to the first empty
      one (which is consumed) or the end of input. Returns the map and the
      unread text. */
  function ReadHeaderFrom(s: string, h: Header): (Header, string)
    decreases |s|
  {
    match GetLine(s)
    case None => (h, [])
    case Some((line, rest)) =>
      if line == [] then (h, rest) else ReadHeaderFrom(rest, ApplyLine(h, line))
  }

  function ReadHeader(s: string): (Header, string)
  {
    ReadHeaderFrom(s, map[])
  }

  /** The lines `getline` returns one after another until the input is
      exhausted. */
  function SplitLines(s: string): seq<string>
    decreases |s|
  {
    match GetLine(s)
    case None => []
    case Some((line, rest)) => [line] + SplitLines(rest)
  }

  /** Lines, each followed by a newline. */
  function JoinLines(lines: seq<string>): string
  {
    if |lines| == 0 then [] else lines[0] + "\n" + JoinLines(lines[1..])
  }

  ghost predicate HeaderLines(lines: seq<string>)
  {
    forall i :: 0 <= i < |lines| ==> |lines[i]| > 0 && '\n' !in lines[i]
  }

  /** `getline` gives back the lines that were joined, one each. */
  lemma {:induction false} SplitJoinLines(lines: seq<string>)
    requires forall i :: 0 <= i < |lines| ==> '\n' !in lines[i]
    ensures SplitLines(JoinLines(lines)) == lines
    decreases |lines|
  {
    if |lines| > 0 {
      GetLineOf(lines[0], JoinLines(lines[1..]));
      SplitJoinLines(lines[1..]);
    }
  }

  /** `read_header` applies every non-empty line before the first empty
      line, stops there and leaves what follows unread. */
  lemma {:induction false} ReadHeaderOfLines(h: Header, lines: seq<string>, rest: string)
    requires HeaderLines(lines)
    ensures ReadHeaderFrom(JoinLines(lines) + "\n" + rest, h) == (ApplyLinesFrom(h, lines), rest)
    decreases |lines|
  {
    if |lines| == 0 {
      assert JoinLines(lines) + "\n" + rest == [] + "\n" + rest;
      GetLineOf([], rest);
    } else {
      var tail := JoinLines(lines[1..]) + "\n" + rest;
      assert JoinLines(lines) + "\n" + rest == lines[0] + "\n" + tail;
      GetLineOf(lines[0], tail);
      ReadHeaderOfLines(ApplyLine(h, lines[0]), lines[1..], rest);
    }
  }

  /** The header lines applied first to last, as `read_header` does. */
  function ApplyLinesFrom(h: Header, lines: seq<string>): Header
    decreases |lines|
  {
    if |lines| == 0 then h else ApplyLinesFrom(ApplyLine(h, lines[0]), lines[1..])
  }

  lemma {:induction false} ApplyLinesAgree(h: Header, lines: seq<string>)
    ensures ApplyLinesFrom(h, lines) == ApplyLines(h, lines)
    decreases |lines|
  {
    if |lines| > 0 {
      ApplyLinesAgree(ApplyLine(h, lines[0]), lines[1..]);
      ApplyLinesSplit(h, lines);
    }
  }

  lemma {:induction false} ApplyLinesSplit(h: Header, lines: seq<string>)
    requires |lines| > 0
    ensures ApplyLines(h, lines) == ApplyLines(ApplyLine(h, lines[0]), lines[1..])
    decreases |lines|
  {
    if |lines| > 1 {
      var init := lines[..|lines| - 1];
      ApplyLinesSplit(h, init);
      assert init[1..] == lines[1..][..|lines[1..]| - 1];
      assert init[0] == lines[0];
    } else {
      assert lines[1..] == [];
      assert lines[..0] == [];
    }
  }

  /** Every key and value `read_header` can produce: keys without ": ",
      and neither keys nor values holding a newline. */
  ghost predicate WellFormedHeader(h: Header)
  {
    forall k :: k in h ==> NoColonSpace(k) && '\n' !in k && '\n' !in h[k]
  }

  lemma ApplyLineWellFormed(h: Header, line: string)
    requires WellFormedHeader(h) && '\n' !in line
    ensures WellFormedHeader(ApplyLine(h, line))
  {
    match ParseHeaderLine(line)
    case None =>
    case Some((k, v)) =>
      ParseHeaderLineIff(line, k, v);
      assert forall q :: 0 <= q < |k| ==> k[q] == line[q + 1];
      assert forall q :: 0 <= q < |v| ==> v[q] == line[q + |k| + 3];
  }

  lemma {:induction false} ReadHeaderWellFormed(s: string, h: Header)
    requires WellFormedHeader(h)
    ensures WellFormedHeader(ReadHeaderFrom(s, h).0)
    decreases |s|
  {
    match GetLine(s)
    case None =>
    case Some((line, rest)) =>
      if line != [] {
        ApplyLineWellFormed(h, line);
        ReadHeaderWellFormed(rest, ApplyLine(h, line));
      }
  }

  /** `k` comes before every other key of `ks`. */
  predicate IsLeastKey(ks: set<string>, k: string)
  {
    k in ks && forall k' :: k' in ks && k' != k ==> LexLess(Codes(k), Codes(k'))
  }

  lemma {:induction false} LeastKeyExists(ks: set<string>)
    requires ks != {}
    ensures exists k :: IsLeastKey(ks, k)
    decreases |ks|
  {
    var x :| x in ks;
    var rest := ks - {x};
    if rest == {} {
      assert ks == {x};
      assert IsLeastKey(ks, x);
    } else {
      LeastKeyExists(rest);
      var m :| IsLeastKey(rest, m);
      if LexLess(Codes(x), Codes(m)) {
        forall k' | k' in ks && k' != x
          ensures LexLess(Codes(x), Codes(k'))
        {
          if k' != m {
            LexTransitive(Codes(x), Codes(m), Codes(k'));
          }
        }
        assert IsLeastKey(ks, x);
      } else {
        if Codes(x) == Codes(m) {
          CodesInjective(x, m);
        }
        LexTotal(Codes(x), Codes(m));
        assert IsLeastKey(ks, m);
      }
    }
  }

  lemma LeastKeyUnique(ks: set<string>)
    ensures forall a, b :: IsLeastKey(ks, a) && IsLeastKey(ks, b) ==> a == b
  {
    forall a, b | IsLeastKey(ks, a) && IsLeastKey(ks, b)
      ensures a == b
    {
      if a != b {
        LexAsymmetric(Codes(a), Codes(b));
        assert false;
      }
    }
  }

  /** The keys in `std::map<std::string, std::string>` iteration order. */
  function SortedKeys(ks: set<string>): (r: seq<string>)
    ensures |r| == |ks|
    ensures forall k :: k in r <==> k in ks
    ensures forall i, j :: 0 <= i < j < |r| ==> LexLess(Codes(r[i]), Codes(r[j]))
    decreases |ks|
  {
    if ks == {} then []
    else
      LeastKeyExists(ks);
      LeastKeyUnique(ks);
      var k :| IsLeastKey(ks, k);
      var rest := SortedKeys(ks - {k});
      assert forall j :: 0 <= j < |rest| ==> rest[j] in ks && rest[j] != k by {
        forall j | 0 <= j < |rest|
          ensures rest[j] in ks && rest[j] != k
        {
          assert rest[j] in rest;
        }
      }
      [k] + rest
  }

  /** `#key: value` for each listed key. */
  function KeyLines(h: Header, ks: seq<string>): (r: seq<string>)
    requires forall i :: 0 <= i < |ks| ==> ks[i] in h
    ensures |r| == |ks|
  {
    seq(|ks|, i requires 0 <= i < |ks| => "#" + ks[i] + ": " + h[ks[i]])
  }

  /** A header written back: one `#key: value` line per key in key order,
      then an empty line. */
  function HeaderText(h: Header): string
  {
    JoinLines(KeyLines(h, SortedKeys(h.Keys))) + "\n"
  }

  lemma {:induction false} ApplyKeyLines(acc: Header, h: Header, ks: seq<string>)
    requires WellFormedHeader(h)
    requires forall i :: 0 <= i < |ks| ==> ks[i] in h
    ensures var r := ApplyLinesFrom(acc, KeyLines(h, ks));
            forall k :: (k in r <==> k in acc || k in ks)
                        && (k in r ==> r[k] == if k in ks then h[k] else acc[k])
    decreases |ks|
  {
    if |ks| > 0 {
      var lines := KeyLines(h, ks);
      ParseHeaderLineIff(lines[0], ks[0], h[ks[0]]);
      assert lines[1..] == KeyLines(h, ks[1..]);
      ApplyKeyLines(acc[ks[0] := h[ks[0]]], h, ks[1..]);
      assert forall k :: k in ks <==> k == ks[0] || k in ks[1..];
    }
  }

  lemma KeyLinesAreHeaderLines(h: Header, ks: seq<string>)
    requires WellFormedHeader(h)
    requires forall i :: 0 <= i < |ks| ==> ks[i] in h
    ensures HeaderLines(KeyLines(h, ks))
  {
    var lines := KeyLines(h, ks);
    forall i | 0 <= i < |lines|
      ensures |lines[i]| > 0 && '\n' !in lines[i]
    {
      KeyLineNoNewline(h, ks[i]);
    }
  }

  lemma KeyLineNoNewline(h: Header, k: string)
    requires WellFormedHeader(h) && k in h
    ensures '\n' !in "#" + k + ": " + h[k]
  {
    var line := "#" + k + ": " + h[k];
    forall q | 0 <= q < |line|
      ensures line[q] != '\n'
    {
      if 1 <= q < |k| + 1 {
        assert line[q] == k[q - 1];
      } else if q >= |k| + 3 {
        assert line[q] == h[k][q - |k| - 3];
      }
    }
  }

  /** `read_header` reads back every well-formed header this writer prints,
      and leaves what follows unread. */
  lemma ReadHeaderText(h: Header, rest: string)
    requires WellFormedHeader(h)
    ensures ReadHeader(HeaderText(h) + rest) == (h, rest)
  {
    var ks := SortedKeys(h.Keys);
    var lines := KeyLines(h, ks);
    KeyLinesAreHeaderLines(h, ks);
    assert HeaderText(h) + rest == JoinLines(lines) + "\n" + rest;
    ReadHeaderOfLines(map[], lines, rest);
    ApplyKeyLines(map[], h, ks);
    var r := ApplyLinesFrom(map[], lines);
    assert forall k :: k in r <==> k in h by {
      forall k
        ensures k in r <==> k in h
      {
        assert k in ks <==> k in h.Keys;
      }
    }
    assert forall k :: k in r ==> r[k] == h[k];
    assert r == h;
  }

  // ---------------------------------------------------------------------
  // Data rows

  /** Why `read_ngram_line` throws. */
  datatype ReadError = ReadNgramFailed

  /** `read_ngram_line`: `n` conversions with `std::hex`, each value masked
      to its low eight bits; the position after them is returned too. */
  function ReadNgramAt(n: nat, s: string, i: nat): (r: Result<(seq<uint8>, nat), ReadError>)
    requires i <= |s|
    ensures r.Ok? <==> |Tokens(s, i)| >= n
    ensures r.Ok? ==> && r.value.0 == Low8s(Tokens(s, i)[..n])
                      && i <= r.value.1 <= |s|
                      && Tokens(s, r.value.1) == Tokens(s, i)[n..]
    decreases n
  {
    if n == 0 then Ok(([], i))
    else
      match ScanHex(s, i)
      case None => Err(ReadNgramFailed)
      case Some(t) =>
        TokensCons(s, i, t);
        match ReadNgramAt(n - 1, s, t.next)
        case Err(e) => Err(e)
        case Ok((rest, j)) =>
          ConsSlices(t.value, Tokens(s, t.next), n);
          Ok(([Low8(t.value)] + rest, j))
  }

  lemma TokensCons(s: string, i: nat, t: Token)
    requires i <= |s| && ScanHex(s, i) == Some(t)
    ensures t.next <= |s| && Tokens(s, i) == [t.value] + Tokens(s, t.next)
  {
  }

  lemma ConsSlices(x: nat, ts: seq<nat>, n: nat)
    requires 1 <= n <= |ts| + 1
    ensures ([x] + ts)[..n] == [x] + ts[..n - 1]
    ensures ([x] + ts)[n..] == ts[n - 1..]
    ensures Low8s([x] + ts[..n - 1]) == [Low8(x)] + Low8s(ts[..n - 1])
  {
  }

  /** `read_ngram_line` on a line of its own. */
  function ReadNgramLine(n: nat, line: string): Result<seq<uint8>, ReadError>
  {
    match ReadNgramAt(n, line, 0)
    case Err(e) => Err(e)
    case Ok((g, _)) => Ok(g)
  }

  /** A row of bytes, each as a space and a two-column cell. */
  function HexBytes(w: seq<uint8>, style: HexStyle): (s: string)
    ensures |s| == 3 * |w|
  {
    if |w| == 0 then [] else " " + HexCell(w[0], style) + HexBytes(w[1..], style)
  }

  lemma HexBytesHead(w: seq<uint8>, style: HexStyle)
    requires |w| > 0
    ensures HexBytes(w, style)[0] == ' '
    ensures HexBytes(w, style)[1..3] == HexCell(w[0], style)
    ensures HexBytes(w, style)[3..] == HexBytes(w[1..], style)
  {
    var h, t := HexCell(w[0], style), HexBytes(w[1..], style);
    assert HexBytes(w, style) == [' '] + h + t;
  }

  lemma HexBytesSplit(w: seq<uint8>, style: HexStyle, s: string, i: nat, e: nat)
    requires |w| > 0 && e == i + 3 * |w| && e <= |s| && s[i..e] == HexBytes(w, style)
    ensures s[i] == ' ' && s[i + 1..i + 3] == HexCell(w[0], style)
    ensures s[i + 3..e] == HexBytes(w[1..], style)
  {
    HexBytesHead(w, style);
    var f := s[i..e];
    assert s[i] == f[0];
    SliceOfSlice(s, i, e, 1, 3);
    SliceOfSlice(s, i, e, 3, e - i);
    assert f[3..] == f[3..e - i];
  }

  lemma LowByte(b: uint8)
    ensures Low8(b) == b
  {
    DivModOfDigit(0, 256, b);
  }

  /** |w| conversions starting where a printed row starts read exactly the
      row's bytes back, provided no hex digit follows it. */
  lemma {:induction false} ReadFormatted(w: seq<uint8>, style: HexStyle, s: string, i: nat, e: nat)
    requires e == i + 3 * |w| && e <= |s| && s[i..e] == HexBytes(w, style)
    requires e == |s| || !IsHexDigit(s[e])
    ensures ReadNgramAt(|w|, s, i) == Ok((w, e))
    decreases |w|
  {
    if |w| > 0 {
      ScanFirstCell(w, style, s, i, e);
      ReadFormatted(w[1..], style, s, i + 3, e);
      ReadNgramStep(s, i, w, e);
    }
  }

  /** The first conversion over a printed row reads its first byte and
      leaves the rest of the row. */
  lemma ScanFirstCell(w: seq<uint8>, style: HexStyle, s: string, i: nat, e: nat)
    requires |w| > 0 && e == i + 3 * |w| && e <= |s| && s[i..e] == HexBytes(w, style)
    requires e == |s| || !IsHexDigit(s[e])
    ensures ScanHex(s, i) == Some(Token(w[0], i + 3))
    ensures s[i + 3..e] == HexBytes(w[1..], style)
  {
    HexBytesSplit(w, style, s, i, e);
    if |w| > 1 {
      HexBytesSplit(w[1..], style, s, i + 3, e);
    }
    ScanCell(s, i, w[0], style);
  }

  /** One successful conversion of a byte followed by a successful read of
      the rest. */
  lemma ReadNgramStep(s: string, i: nat, w: seq<uint8>, e: nat)
    requires 0 < |w| && i + 3 <= |s|
    requires ScanHex(s, i) == Some(Token(w[0], i + 3))
    requires ReadNgramAt(|w| - 1, s, i + 3) == Ok((w[1..], e))
    ensures ReadNgramAt(|w|, s, i) == Ok((w, e))
  {
    LowByte(w[0]);
    assert [w[0]] + w[1..] == w;
  }

  /** `read_ngram_line` reads a printed row back as its bytes, whatever
      non-hex text follows the row. */
  lemma ReadHexRow(w: seq<uint8>, style: HexStyle, tail: string)
    requires tail == [] || !IsHexDigit(tail[0])
    ensures ReadNgramLine(|w|, HexBytes(w, style) + tail) == Ok(w)
  {
    var s := HexBytes(w, style) + tail;
    assert s[0..3 * |w|] == HexBytes(w, style);
    if tail != [] {
      assert s[3 * |w|] == tail[0];
    }
    ReadFormatted(w, style, s, 0, 3 * |w|);
  }

  // ---------------------------------------------------------------------
  // The header ngramify prints

  /** `print_header`: type, n, the file name when one is given, a blank line. */
  function PrintHeader(n: int, fname: Option<string>): string
  {
    "#type: n-grams\n" + "#n: " + IntToDecimal(n) + "\n"
    + (if fname.Some? then "#fname: " + fname.value + "\n" else "")
    + "\n"
  }

  function HeaderOf(n: int, fname: Option<string>): Header
  {
    var h := map["type" := "n-grams", "n" := IntToDecimal(n)];
    if fname.Some? then h["fname" := fname.value] else h
  }

  /** The lines `print_header` writes before its blank line. */
  function PrintedLines(n: int, fname: Option<string>): seq<string>
  {
    ["#type: n-grams", "#n: " + IntToDecimal(n)]
    + (if fname.Some? then ["#fname: " + fname.value] else [])
  }

  lemma PrintedLinesJoin(n: int, fname: Option<string>)
    requires fname.Some? ==> '\n' !in fname.value
    ensures HeaderLines(PrintedLines(n, fname))
    ensures PrintHeader(n, fname) == JoinLines(PrintedLines(n, fname)) + "\n"
  {
    var lines := PrintedLines(n, fname);
    var l1 := "#type: n-grams";
    var l2 := "#n: " + IntToDecimal(n);
    assert '\n' !in l2 by {
      assert forall q :: 0 <= q < |l2| ==> l2[q] != '\n';
    }
    if fname.Some? {
      var l3 := "#fname: " + fname.value;
      assert '\n' !in l3 by {
        assert forall q :: 0 <= q < |l3| ==> l3[q] != '\n';
      }
      assert lines == [l1, l2, l3];
      assert lines[1..] == [l2, l3] && lines[1..][1..] == [l3] && lines[1..][1..][1..] == [];
      assert JoinLines([l3]) == l3 + "\n";
      assert JoinLines([l2, l3]) == l2 + "\n" + (l3 + "\n");
    } else {
      assert lines == [l1, l2];
      assert lines[1..] == [l2] && lines[1..][1..] == [];
      assert JoinLines([l2]) == l2 + "\n";
    }
  }

  lemma PrintedLinesApply(n: int, fname: Option<string>)
    ensures ApplyLinesFrom(map[], PrintedLines(n, fname)) == HeaderOf(n, fname)
  {
    var h2 := PrintedTypeAndN(n);
    if fname.Some? {
      var l3 := "#fname: " + fname.value;
      ApplyKeyValue(h2, "fname", fname.value);
      assert l3 == "#" + "fname" + ": " + fname.value;
      assert PrintedLines(n, fname) == PrintedLines(n, None) + [l3];
      ApplyLinesFromSnoc(map[], PrintedLines(n, None), l3);
    }
  }

  /** The first two printed lines set "type" and "n". */
  lemma PrintedTypeAndN(n: int) returns (h2: Header)
    ensures h2 == HeaderOf(n, None)
    ensures ApplyLinesFrom(map[], PrintedLines(n, None)) == h2
  {
    var l1 := "#type: n-grams";
    var l2 := "#n: " + IntToDecimal(n);
    ApplyKeyValue(map[], "type", "n-grams");
    assert l1 == "#" + "type" + ": " + "n-grams";
    ApplyKeyValue(map["type" := "n-grams"], "n", IntToDecimal(n));
    assert l2 == "#" + "n" + ": " + IntToDecimal(n);
    assert PrintedLines(n, None) == [l1, l2];
    ApplyTwo(map[], l1, l2);
    h2 := HeaderOf(n, None);
  }

  lemma ApplyLinesFromSnoc(h: Header, lines: seq<string>, last: string)
    ensures ApplyLinesFrom(h, lines + [last]) == ApplyLine(ApplyLinesFrom(h, lines), last)
  {
    ApplyLinesAgree(h, lines + [last]);
    ApplyLinesAgree(h, lines);
    assert (lines + [last])[..|lines|] == lines;
  }

  /** A line `#k: v` whose key has no ": " in it sets `k` to `v`. */
  lemma ApplyKeyValue(h: Header, k: string, v: string)
    requires NoColonSpace(k)
    ensures ApplyLine(h, "#" + k + ": " + v) == h[k := v]
  {
    ParseHeaderLineIff("#" + k + ": " + v, k, v);
  }

  lemma ApplyTwo(h: Header, a: string, b: string)
    ensures ApplyLinesFrom(h, [a, b]) == ApplyLine(ApplyLine(h, a), b)
  {
    assert [a, b][1..] == [b] && [b][1..] == [];
    assert ApplyLinesFrom(h, [a, b]) == ApplyLinesFrom(ApplyLine(h, a), [b]);
    assert ApplyLinesFrom(ApplyLine(h, a), [b]) == ApplyLinesFrom(ApplyLine(ApplyLine(h, a), b), []);
  }

  /** `read_header` reads back exactly what `print_header` wrote, and leaves
      the data rows that follow unread. */
  lemma PrintThenReadHeader(n: int, fname: Option<string>, rest: string)
    requires fname.Some? ==> '\n' !in fname.value
    ensures ReadHeader(PrintHeader(n, fname) + rest) == (HeaderOf(n, fname), rest)
  {
    PrintedLinesJoin(n, fname);
    ReadHeaderOfLines(map[], PrintedLines(n, fname), rest);
    PrintedLinesApply(n, fname);
  }
}
