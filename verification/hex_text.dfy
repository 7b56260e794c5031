/** Character-level scanning and formatting shared by every text format of
    the tools: whitespace-separated hexadecimal tokens (what `sscanf(" %x")`
    and `istream >> std::hex` read), two-digit hex output (`printf(" %02X")`)
    and decimal numbers (`cout << n`, `boost::lexical_cast<unsigned int>`). */
module HexText {
  import opened Wrappers
  import opened Bytes

  /** The characters `isspace` accepts in the "C" locale. */
  predicate IsSpace(c: char)
  {
    c == ' ' || c == '\t' || c == '\n' || c == '\r' || c == '\U{000B}' || c == '\U{000C}'
  }

  predicate IsHexDigit(c: char)
  {
    ('0' <= c <= '9') || ('a' <= c <= 'f') || ('A' <= c <= 'F')
  }

  predicate IsDecDigit(c: char)
  {
    '0' <= c <= '9'
  }

  function DigitValue(c: char): (v: nat)
    requires IsHexDigit(c)
    ensures v < 16
    ensures IsDecDigit(c) ==> v < 10
  {
    if '0' <= c <= '9' then c as int - '0' as int
    else if 'a' <= c <= 'f' then c as int - 'a' as int + 10
    else c as int - 'A' as int + 10
  }

  ghost predicate AllHex(d: string)
  {
    forall i :: 0 <= i < |d| ==> IsHexDigit(d[i])
  }

  /** The value of a run of hex digits, most significant digit first. */
  function HexNumber(d: string): nat
    requires AllHex(d)
  {
    if |d| == 0 then 0
    else HexNumber(d[..|d| - 1]) * 16 + DigitValue(d[|d| - 1])
  }

  /** The first position at or after `i` that is not white space. */
  function SkipSpace(s: string, i: nat): (j: nat)
    requires i <= |s|
    ensures i <= j <= |s|
    ensures forall k :: i <= k < j ==> IsSpace(s[k])
    ensures j < |s| ==> !IsSpace(s[j])
    decreases |s| - i
  {
    if i == |s| || !IsSpace(s[i]) then i else SkipSpace(s, i + 1)
  }

  /** The end of the maximal run of hex digits that starts at `i`. */
  function HexRunEnd(s: string, i: nat): (j: nat)
    requires i <= |s|
    ensures i <= j <= |s|
    ensures forall k :: i <= k < j ==> IsHexDigit(s[k])
    ensures j < |s| ==> !IsHexDigit(s[j])
    decreases |s| - i
  {
    if i == |s| || !IsHexDigit(s[i]) then i else HexRunEnd(s, i + 1)
  }

  /** A converted hex number and the position just after it. */
  datatype Token = Token(value: nat, next: nat)

  /** One hexadecimal conversion starting at `i`: optional white space,
      then a maximal, non-empty run of hex digits. `None` is the
      conversion failure (end of text or a non-hex character). */
  function ScanHex(s: string, i: nat): (r: Option<Token>)
    requires i <= |s|
    ensures r.Some? ==> i < r.value.next <= |s|
    ensures r.Some? ==> exists j :: i <= j < r.value.next && AllHex(s[j..r.value.next])
                          && r.value.value == HexNumber(s[j..r.value.next])
    ensures r.None? <==> SkipSpace(s, i) == |s| || !IsHexDigit(s[SkipSpace(s, i)])
  {
    var j := SkipSpace(s, i);
    var k := HexRunEnd(s, j);
    if k == j then None
    else
      assert AllHex(s[j..k]);
      Some(Token(HexNumber(s[j..k]), k))
  }

  /** A conversion that starts on a maximal run of hex digits reads
      exactly that run. */
  lemma ScanRunAt(s: string, i: nat, e: nat)
    requires i < e <= |s|
    requires forall k :: i <= k < e ==> IsHexDigit(s[k])
    requires e == |s| || !IsHexDigit(s[e])
    ensures AllHex(s[i..e]) && SkipSpace(s, i) == i
    ensures ScanHex(s, i) == Some(Token(HexNumber(s[i..e]), e))
  {
    assert IsHexDigit(s[i]);
    assert SkipSpace(s, i) == i;
    assert HexRunEnd(s, i) == e;
    assert forall k :: 0 <= k < e - i ==> s[i..e][k] == s[i + k];
  }

  /** Every token that successive conversions read from position `i`,
      up to the first failure: the reference for the scanning loops. */
  function Tokens(s: string, i: nat): seq<nat>
    requires i <= |s|
    decreases |s| - i
  {
    match ScanHex(s, i)
    case None => []
    case Some(t) => [t.value] + Tokens(s, t.next)
  }

  /** The low byte of every token, as a store into `uint8_t` keeps it. */
  function Low8s(ts: seq<nat>): (r: seq<uint8>)
    ensures |r| == |ts|
    ensures forall i :: 0 <= i < |ts| ==> r[i] == ts[i] % 256
  {
    seq(|ts|, i requires 0 <= i < |ts| => Low8(ts[i]))
  }

  /** The hex digit for `v` in 0..15: upper case as `%X` prints it, lower
      case as `std::hex` does. */
  function HexChar(v: nat, upper: bool): (c: char)
    requires v < 16
    ensures IsHexDigit(c) && DigitValue(c) == v
  {
    if v < 10 then ('0' as int + v) as char
    else if upper then ('A' as int + v - 10) as char
    else ('a' as int + v - 10) as char
  }

  /** `printf("%02X", b)` for one byte. */
  function Hex2(b: uint8): (s: string)
    ensures |s| == 2 && AllHex(s) && HexNumber(s) == b
  {
    var s := [HexChar(b / 16, true), HexChar(b % 16, true)];
    assert s[..1] == [HexChar(b / 16, true)];
    assert s[..1][..0] == [];
    assert HexNumber(s[..1]) == b / 16;
    s
  }

  /** The two ways the tools print a byte in two columns: `%02X` (zero
      padded, upper case) and `std::hex` under `setw(2)` (space padded,
      lower case). */
  datatype HexStyle = ZeroPaddedUpper | SpacePaddedLower

  function HexCell(b: uint8, style: HexStyle): (s: string)
    ensures |s| == 2
  {
    match style
    case ZeroPaddedUpper => Hex2(b)
    case SpacePaddedLower =>
      if b < 16 then [' ', HexChar(b, false)] else [HexChar(b / 16, false), HexChar(b % 16, false)]
  }

  /** A byte printed as a space and a cell is read back by one conversion
      that stops at the first non-hex character that follows. */
  lemma ScanCell(s: string, i: nat, b: uint8, style: HexStyle)
    requires i + 3 <= |s|
    requires s[i] == ' ' && s[i + 1..i + 3] == HexCell(b, style)
    requires i + 3 == |s| || !IsHexDigit(s[i + 3])
    ensures ScanHex(s, i) == Some(Token(b, i + 3))
  {
    var c := HexCell(b, style);
    assert s[i + 1] == c[0] && s[i + 2] == c[1];
    if style.SpacePaddedLower? && b < 16 {
      assert c == [' ', HexChar(b, false)];
      assert SkipSpace(s, i + 2) == i + 2;
      assert SkipSpace(s, i) == i + 2;
      assert HexRunEnd(s, i + 3) == i + 3;
      assert HexRunEnd(s, i + 2) == i + 3;
      assert s[i + 2..i + 3] == [c[1]];
      assert [c[1]][..0] == [];
      assert HexNumber([c[1]]) == b;
    } else {
      if style.SpacePaddedLower? {
        assert c[..1] == [HexChar(b / 16, false)];
        assert c[..1][..0] == [];
        assert HexNumber(c[..1]) == b / 16;
        assert HexNumber(c) == b;
      } else {
        assert AllHex(c) && HexNumber(c) == b;
      }
      assert SkipSpace(s, i + 1) == i + 1;
      assert HexRunEnd(s, i + 3) == i + 3;
      assert HexRunEnd(s, i + 1) == i + 3;
      assert s[i + 1..i + 3] == c;
    }
  }

  /** Decimal digits of `n`, most significant first, no leading zeros. */
  function NatToDecimal(n: nat): (s: string)
    ensures |s| > 0
    ensures forall k :: 0 <= k < |s| ==> IsDecDigit(s[k])
    decreases n
  {
    if n < 10 then [('0' as int + n) as char]
    else NatToDecimal(n / 10) + [('0' as int + n % 10) as char]
  }

  /** Upper-case hex digits of `n`, most significant first (`%lX`). */
  function NatToHex(n: nat): (s: string)
    ensures |s| > 0 && AllHex(s) && HexNumber(s) == n
    decreases n
  {
    if n < 16 then
      var s := [HexChar(n, true)];
      assert s[..0] == [];
      s
    else
      var p := NatToHex(n / 16);
      var s := p + [HexChar(n % 16, true)];
      assert s[..|s| - 1] == p;
      s
  }

  /** Right-aligned in a field of `width` columns, filled with `fill`. */
  function PadLeft(s: string, width: nat, fill: char): (r: string)
    ensures |r| == if |s| >= width then |s| else width
    ensures r[|r| - |s|..] == s
    ensures forall i :: 0 <= i < |r| - |s| ==> r[i] == fill
  {
    if |s| >= width then s else seq(width - |s|, _ => fill) + s
  }

  /** Leading zeros do not change a hex number. */
  lemma {:induction false} LeadingZeros(z: nat, d: string)
    requires AllHex(d)
    ensures AllHex(seq(z, _ => '0') + d)
    ensures HexNumber(seq(z, _ => '0') + d) == HexNumber(d)
    decreases |d|
  {
    var s := seq(z, _ => '0') + d;
    if |d| == 0 {
      assert s == seq(z, _ => '0');
      AllZeros(z);
    } else {
      var p := d[..|d| - 1];
      assert s[..|s| - 1] == seq(z, _ => '0') + p;
      LeadingZeros(z, p);
    }
  }

  lemma {:induction false} AllZeros(z: nat)
    ensures AllHex(seq(z, _ => '0'))
    ensures HexNumber(seq(z, _ => '0')) == 0
    decreases z
  {
    if z > 0 {
      var s := seq(z, _ => '0');
      assert s[..z - 1] == seq(z - 1, _ => '0');
      AllZeros(z - 1);
    }
  }

  /** `cout << n` for a signed int. */
  function IntToDecimal(n: int): (s: string)
    ensures |s| > 0 && forall k :: 0 <= k < |s| ==> s[k] != '\n' && s[k] != ':'
  {
    if n < 0 then "-" + NatToDecimal(-n) else NatToDecimal(n)
  }

  function DecimalValue(d: string): nat
    requires forall k :: 0 <= k < |d| ==> IsDecDigit(d[k])
  {
    if |d| == 0 then 0
    else
      assert IsDecDigit(d[|d| - 1]);
      DecimalValue(d[..|d| - 1]) * 10 + (d[|d| - 1] as int - '0' as int)
  }

  /** `boost::lexical_cast<unsigned int>`: a non-empty run of decimal
      digits whose value fits 32 bits; anything else is a bad cast. */
  function ParseUnsigned(s: string): (r: Option<nat>)
    ensures r.Some? ==> r.value < 0x1_0000_0000
  {
    if |s| > 0 && (forall k :: 0 <= k < |s| ==> IsDecDigit(s[k])) && DecimalValue(s) < 0x1_0000_0000
    then Some(DecimalValue(s))
    else None
  }

  lemma {:induction false} DecimalRoundTrip(n: nat)
    ensures DecimalValue(NatToDecimal(n)) == n
    decreases n
  {
    if n >= 10 {
      DecimalRoundTrip(n / 10);
      var s := NatToDecimal(n);
      assert s[..|s| - 1] == NatToDecimal(n / 10);
    }
  }

  /** Printing an unsigned value in decimal and casting it back is the identity. */
  lemma PrintParseUnsigned(n: nat)
    requires n < 0x1_0000_0000
    ensures ParseUnsigned(IntToDecimal(n)) == Some(n)
  {
    DecimalRoundTrip(n);
  }
}
