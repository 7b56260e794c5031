/** The `foltran` command of the emmagrammer tool: range arguments such as
    `41-5a` or `30~39` build a fold-and-transform table over the 256 byte
    values, and every input byte is then replaced by its table entry. */
module Foltran {
  import opened Wrappers
  import opened Bytes
  import opened HexText

  /** A parsed argument. `Dash(x, y)` gives the bytes x..y successive
      target values; `Tilde(x, y)` maps them all onto one target value. */
  datatype Range = Dash(lo: nat, hi: nat) | Tilde(lo: nat, hi: nat)

  /** `sscanf(arg, " %x <sep> %x", &x, &y) == 2`: a hex conversion, optional
      white space, the separator, and a second hex conversion; whatever
      follows is ignored. */
  function ParsePair(arg: string, sep: char): Option<(nat, nat)>
  {
    match ScanHex(arg, 0)
    case None => None
    case Some(a) =>
      match AfterSep(arg, a.next, sep)
      case None => None
      case Some(p) =>
        match ScanHex(arg, p)
        case None => None
        case Some(b) => Some((a.value, b.value))
  }

  /** The ` <sep>` directive: optional white space, then the separator;
      the position after it. */
  function AfterSep(arg: string, i: nat, sep: char): Option<nat>
    requires i <= |arg|
  {
    var k := SkipSpace(arg, i);
    if k < |arg| && arg[k] == sep then Some(k + 1) else None
  }

  /** The dash form is tried first, then the tilde form. */
  function ParseRange(arg: string): Option<Range>
  {
    match ParsePair(arg, '-')
    case Some((x, y)) => Some(Dash(x, y))
    case None =>
      match ParsePair(arg, '~')
      case Some((x, y)) => Some(Tilde(x, y))
      case None => None
  }

  /** A range written the way a user types it: `x-y` or `x~y`. */
  function RangeText(rg: Range): string
  {
    match rg
    case Dash(x, y) => NatToHex(x) + "-" + NatToHex(y)
    case Tilde(x, y) => NatToHex(x) + "~" + NatToHex(y)
  }

  /** The table being built, the next target value `tpos`, and whether the
      build stopped early (`goto follies_end`). */
  datatype Fold = Fold(table: seq<uint8>, tpos: nat, stopped: bool)

  /** Why `foltran` exits without translating: no range argument at all,
      or a byte value outside [0..255] reached inside a range. */
  datatype FoltranError = Usage | IllegalValue(j: nat)

  function Max(a: nat, b: nat): nat
  {
    if a < b then b else a
  }

  /** The loop of a dash range: byte j gets `tpos` (stored as uint8), then
      `tpos` advances; the whole build stops as soon as `tpos` reaches
      256, and a byte value of 256 or more reached before that is an
      error. */
  function DashLoop(f: Fold, j: nat, y: nat): (r: Result<Fold, nat>)
    requires |f.table| == 256 && !f.stopped
    ensures r.Err? <==> j <= y && 256 <= y && (256 <= j || f.tpos < j)
    ensures r.Err? ==> r.error == Max(j, 256)
    ensures r.Ok? ==> |r.value.table| == 256 && f.tpos <= r.value.tpos
    decreases y + 1 - j
  {
    if j > y then Ok(f)
    else if j >= 256 then Err(j)
    else
      var g := Fold(f.table[j := Low8(f.tpos)], f.tpos + 1, false);
      if g.tpos >= 256 then Ok(g.(stopped := true)) else DashLoop(g, j + 1, y)
  }

  /** How far a dash range gets: the build stops exactly when the target
      value reached 256 after at least one byte; otherwise every byte of
      the range was assigned, one target value each. */
  lemma {:induction false} DashLoopCount(f: Fold, j: nat, y: nat)
    requires |f.table| == 256 && !f.stopped && DashLoop(f, j, y).Ok?
    ensures var g := DashLoop(f, j, y).value;
            var cnt := g.tpos - f.tpos;
            && (g.stopped <==> cnt > 0 && g.tpos >= 256)
            && (!g.stopped ==> cnt == if j <= y then y - j + 1 else 0)
            && (g.stopped ==> cnt <= y - j + 1 && g.tpos == Max(f.tpos + 1, 256))
    decreases y + 1 - j
  {
    if j <= y && j < 256 && f.tpos + 1 < 256 {
      var g := Fold(f.table[j := Low8(f.tpos)], f.tpos + 1, false);
      DashLoopCount(g, j + 1, y);
    }
  }

  /** What a dash range leaves in byte k: the bytes it assigned, from j
      on, hold successive target values; every other byte is unchanged. */
  lemma {:induction false} DashLoopTable(f: Fold, j: nat, y: nat, k: nat)
    requires |f.table| == 256 && !f.stopped && DashLoop(f, j, y).Ok? && k < 256
    ensures var g := DashLoop(f, j, y).value;
            g.table[k] == if j <= k < j + (g.tpos - f.tpos) then Low8(f.tpos + (k - j)) else f.table[k]
    decreases y + 1 - j
  {
    if j <= y && j < 256 && f.tpos + 1 < 256 {
      var g := Fold(f.table[j := Low8(f.tpos)], f.tpos + 1, false);
      DashLoopTable(g, j + 1, y, k);
    }
  }

  /** The loop of a tilde range: bytes j..y all get `tpos` (stored as
      uint8); if `tpos` has already reached 256 the build stops after the
      first of them. Returns the table and whether the build stopped. */
  function TildeLoop(table: seq<uint8>, j: nat, y: nat, tpos: nat): (r: Result<(seq<uint8>, bool), nat>)
    requires |table| == 256
    ensures r.Err? <==> j <= y && 256 <= y && (256 <= j || tpos < 256)
    ensures r.Err? ==> r.error == Max(j, 256)
    ensures r.Ok? ==>
              var (t, stop) := r.value;
              && |t| == 256
              && (stop <==> j <= y && 256 <= tpos)
              && forall k :: 0 <= k < 256 ==>
                   t[k] == if j <= k <= y && (tpos < 256 || k == j) then Low8(tpos) else table[k]
    decreases y + 1 - j
  {
    if j > y then Ok((table, false))
    else if j >= 256 then Err(j)
    else
      var t := table[j := Low8(tpos)];
      if tpos >= 256 then Ok((t, true)) else TildeLoop(t, j + 1, y, tpos)
  }

  /** One range argument; a tilde range that did not stop advances `tpos`
      once, even when it is empty. */
  function Apply(f: Fold, rg: Range): (r: Result<Fold, nat>)
    requires |f.table| == 256 && !f.stopped
    ensures r.Ok? ==> |r.value.table| == 256
  {
    match rg
    case Dash(x, y) => DashLoop(f, x, y)
    case Tilde(x, y) =>
      match TildeLoop(f.table, x, y, f.tpos)
      case Err(e) => Err(e)
      case Ok((t, stop)) => Ok(Fold(t, if stop then f.tpos else f.tpos + 1, stop))
  }

  /** The argument loop: arguments are applied front to back; the first
      one that reads as neither form ends the loop, as does a stop. */
  function Build(args: seq<string>, f: Fold): (r: Result<Fold, nat>)
    requires |f.table| == 256 && !f.stopped
    ensures r.Ok? ==> |r.value.table| == 256
    decreases |args|
  {
    if |args| == 0 then Ok(f)
    else
      match ParseRange(args[0])
      case None => Ok(f)
      case Some(rg) =>
        match Apply(f, rg)
        case Err(e) => Err(e)
        case Ok(g) => if g.stopped then Ok(g) else Build(args[1..], g)
  }

  /** The bytes written to standard output: each input byte looked up. */
  function Translate(table: seq<uint8>, input: seq<uint8>): seq<uint8>
    requires |table| == 256
  {
    seq(|input|, i requires 0 <= i < |input| => table[input[i]])
  }

  /** `command_foltran`: the table starts as `initial` (the storage's
      persisted table when it opens, otherwise whatever the local array
      holds), with target value 0. */
  function Run(args: seq<string>, initial: seq<uint8>, input: seq<uint8>): (r: Result<seq<uint8>, FoltranError>)
    requires |initial| == 256
    ensures r.Ok? ==> |r.value| == |input|
    ensures r == Err(Usage) <==> |args| == 0
  {
    if |args| == 0 then Err(Usage)
    else
      match Build(args, Fold(initial, 0, false))
      case Err(j) => Err(IllegalValue(j))
      case Ok(f) => Ok(Translate(f.table, input))
  }

  /** The translation loop, one byte at a time. */
  method TranslateInput(table: seq<uint8>, input: seq<uint8>) returns (out: seq<uint8>)
    requires |table| == 256
    ensures |out| == |input|
    ensures forall i :: 0 <= i < |input| ==> out[i] == table[input[i]]
    ensures out == Translate(table, input)
  {
    out := [];
    var i := 0;
    while i < |input|
      invariant 0 <= i <= |input|
      invariant |out| == i
      invariant forall k :: 0 <= k < i ==> out[k] == table[input[k]]
    {
      out := out + [table[input[i]]];
      i := i + 1;
    }
  }

  // ---------------------------------------------------------------------
  // Properties

  /** A conversion that starts on a maximal run of hex digits reads it. */
  lemma ScanRun(s: string, i: nat, h: string)
    requires |h| > 0 && AllHex(h) && i + |h| <= |s| && s[i..i + |h|] == h
    requires i + |h| == |s| || !IsHexDigit(s[i + |h|])
    ensures ScanHex(s, i) == Some(Token(HexNumber(h), i + |h|))
  {
    assert forall k :: i <= k < i + |h| ==> s[k] == h[k - i];
    ScanRunAt(s, i, i + |h|);
  }

  /** Two hex numbers around a separator that is neither a hex digit nor
      white space read as a pair. */
  lemma PairRoundTrip(x: nat, y: nat, sep: char)
    requires !IsHexDigit(sep) && !IsSpace(sep)
    ensures ParsePair(NatToHex(x) + [sep] + NatToHex(y), sep) == Some((x, y))
  {
    var a := NatToHex(x);
    var b := NatToHex(y);
    var s := a + [sep] + b;
    FirstScan(a, sep, b);
    SepAt(s, |a|, sep);
    SecondScan(a, sep, b, s);
    ParsePairOf(s, sep, Token(x, |a|), |a| + 1, Token(y, |s|));
  }

  lemma FirstScan(a: string, sep: char, b: string)
    requires |a| > 0 && AllHex(a) && !IsHexDigit(sep)
    ensures ScanHex(a + [sep] + b, 0) == Some(Token(HexNumber(a), |a|))
  {
    var s := a + [sep] + b;
    assert s[0..|a|] == a && s[|a|] == sep;
    ScanRun(s, 0, a);
  }

  lemma SecondScan(a: string, sep: char, b: string, s: string)
    requires |b| > 0 && AllHex(b) && s == a + [sep] + b
    ensures ScanHex(s, |a| + 1) == Some(Token(HexNumber(b), |a| + 1 + |b|))
  {
    AfterSeparator(a, sep, b);
    ScanRun(s, |a| + 1, b);
  }

  lemma AfterSeparator(a: string, sep: char, b: string)
    ensures (a + [sep] + b)[|a| + 1..] == b
  {
    var s := a + [sep] + b;
    assert forall k :: 0 <= k < |b| ==> s[|a| + 1 + k] == b[k];
  }

  lemma SepAt(s: string, i: nat, sep: char)
    requires i < |s| && s[i] == sep && !IsSpace(sep)
    ensures AfterSep(s, i, sep) == Some(i + 1)
  {
  }

  lemma ParsePairOf(s: string, sep: char, ta: Token, p: nat, tb: Token)
    requires ScanHex(s, 0) == Some(ta)
    requires AfterSep(s, ta.next, sep) == Some(p)
    requires ScanHex(s, p) == Some(tb)
    ensures ParsePair(s, sep) == Some((ta.value, tb.value))
  {
  }

  /** The dash form does not read a tilde range. */
  lemma NotDash(x: nat, y: nat)
    ensures ParsePair(NatToHex(x) + "~" + NatToHex(y), '-') == None
  {
    var a := NatToHex(x);
    var s := a + "~" + NatToHex(y);
    FirstScan(a, '~', NatToHex(y));
    assert s[|a|] == '~';
    assert AfterSep(s, |a|, '-') == None;
  }

  /** Parsing a range written out gives it back. */
  lemma RangeRoundTrip(rg: Range)
    ensures ParseRange(RangeText(rg)) == Some(rg)
  {
    match rg
    case Dash(x, y) =>
      PairRoundTrip(x, y, '-');
    case Tilde(x, y) =>
      NotDash(x, y);
      PairRoundTrip(x, y, '~');
  }

  /** A single range argument: the build is that range applied. */
  lemma BuildOne(rg: Range, f: Fold)
    requires |f.table| == 256 && !f.stopped
    ensures Build([RangeText(rg)], f) == Apply(f, rg)
  {
    RangeRoundTrip(rg);
    var args := [RangeText(rg)];
    assert args[0] == RangeText(rg);
    assert args[1..] == [];
  }

  /** Translating through the identity table changes nothing. */
  lemma TranslateWith(table: seq<uint8>, input: seq<uint8>)
    requires |table| == 256 && forall k :: 0 <= k < 256 ==> table[k] == k
    ensures Translate(table, input) == input
  {
  }

  /** Byte `k` lies in the range an argument names. */
  predicate Names(arg: string, k: nat)
  {
    match ParseRange(arg)
    case None => false
    case Some(rg) => rg.lo <= k <= rg.hi
  }

  /** A table entry no argument names keeps the value it started with. */
  lemma {:induction false} UnnamedEntryKept(args: seq<string>, f: Fold, k: nat)
    requires |f.table| == 256 && !f.stopped && k < 256
    requires Build(args, f).Ok?
    requires forall i :: 0 <= i < |args| ==> !Names(args[i], k)
    ensures Build(args, f).value.table[k] == f.table[k]
    decreases |args|
  {
    if |args| > 0 {
      assert !Names(args[0], k);
      match ParseRange(args[0])
      case None =>
      case Some(rg) =>
        var g := Apply(f, rg).value;
        ApplyKeeps(f, rg, k);
        if !g.stopped {
          assert forall i :: 0 <= i < |args[1..]| ==> args[1..][i] == args[i + 1];
          UnnamedEntryKept(args[1..], g, k);
        }
    }
  }

  /** A range leaves every byte outside it alone. */
  lemma ApplyKeeps(f: Fold, rg: Range, k: nat)
    requires |f.table| == 256 && !f.stopped && k < 256
    requires Apply(f, rg).Ok? && !(rg.lo <= k <= rg.hi)
    ensures Apply(f, rg).value.table[k] == f.table[k]
  {
    if rg.Dash? {
      DashLoopCount(f, rg.lo, rg.hi);
      DashLoopTable(f, rg.lo, rg.hi, k);
    }
  }

  /** The first argument that is not a range ends the build: nothing after
      it has any effect. */
  lemma {:induction false} StopsAtUnparsed(args: seq<string>, i: nat, f: Fold)
    requires |f.table| == 256 && !f.stopped
    requires i < |args| && ParseRange(args[i]).None?
    ensures Build(args, f) == Build(args[..i], f)
    decreases i
  {
    if i > 0 {
      assert args[..i][0] == args[0];
      match ParseRange(args[0])
      case None =>
      case Some(rg) =>
        match Apply(f, rg)
        case Err(_) =>
        case Ok(g) =>
          if !g.stopped {
            assert args[..i][1..] == args[1..][..i - 1];
            StopsAtUnparsed(args[1..], i - 1, g);
          }
    }
  }

  /** `foltran 0-ff` maps every byte to itself, whatever the table held. */
  lemma IdentityRange(initial: seq<uint8>, input: seq<uint8>)
    requires |initial| == 256
    ensures Run([RangeText(Dash(0, 255))], initial, input) == Ok(input)
  {
    var f := Fold(initial, 0, false);
    BuildOne(Dash(0, 255), f);
    var g := IdentityTable(initial);
    TranslateWith(g.table, input);
  }

  lemma IdentityTable(initial: seq<uint8>) returns (g: Fold)
    requires |initial| == 256
    ensures DashLoop(Fold(initial, 0, false), 0, 255) == Ok(g)
    ensures |g.table| == 256 && forall k :: 0 <= k < 256 ==> g.table[k] == k
  {
    var f := Fold(initial, 0, false);
    g := FullDash(f, 255);
  }

  /** A dash range over all 256 bytes, started at target value 0, gives
      every byte its own value. */
  lemma FullDash(f: Fold, y: nat) returns (g: Fold)
    requires |f.table| == 256 && !f.stopped && f.tpos == 0 && y == 255
    ensures DashLoop(f, 0, y) == Ok(g)
    ensures |g.table| == 256 && forall k :: 0 <= k < 256 ==> g.table[k] == k
  {
    var r := DashLoop(f, 0, y);
    g := r.value;
    DashLoopCount(f, 0, y);
    assert g.tpos == 256;
    forall k | 0 <= k < 256
      ensures g.table[k] == k
    {
      DashLoopTable(f, 0, y, k);
    }
  }

  /** `foltran 0~ff` folds every byte onto 0. */
  lemma FoldAllRange(initial: seq<uint8>, input: seq<uint8>)
    requires |initial| == 256
    ensures Run([RangeText(Tilde(0, 255))], initial, input) == Ok(seq(|input|, _ => 0))
  {
    var f := Fold(initial, 0, false);
    BuildOne(Tilde(0, 255), f);
    var r := TildeLoop(initial, 0, 255, 0);
    assert r.Ok?;
    var t := r.value.0;
    assert forall k :: 0 <= k < 256 ==> t[k] == 0;
    assert Translate(t, input) == seq(|input|, _ => 0);
  }

  /** A dash range that starts above the current target value runs into
      byte 256 before the target value reaches 256: `1-100` is refused,
      while `0-100` stops cleanly after byte 255. */
  lemma OverlongDash(initial: seq<uint8>, input: seq<uint8>)
    requires |initial| == 256
    ensures Run([RangeText(Dash(1, 256))], initial, input) == Err(IllegalValue(256))
    ensures Run([RangeText(Dash(0, 256))], initial, input).Ok?
  {
    BuildOne(Dash(1, 256), Fold(initial, 0, false));
    BuildOne(Dash(0, 256), Fold(initial, 0, false));
  }
}
