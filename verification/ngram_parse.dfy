/** `ngram_from_string_into` and `ngram_from_string`: reading an n-gram
    from text as whitespace-separated hex tokens, keeping the low eight
    bits of each. */
module NgramParse {
  import opened Wrappers
  import opened Bytes
  import opened HexText
  import NgramStorage

  /** Tokens the "into" variant stores before returning: it checks the count
      only after storing, so it always stores at least one. */
  function Needed(n: int): nat
  {
    if n < 1 then 1 else n
  }

  lemma TokensAtEnd(s: string)
    ensures Tokens(s, |s|) == []
  {
  }

  /** One more conversion: the tokens so far grow by one, and so do their
      low bytes. */
  lemma TokenStep(s: string, pos: nat, read: seq<nat>, t: Token)
    requires pos <= |s| && ScanHex(s, pos) == Some(t)
    requires Tokens(s, 0) == read + Tokens(s, pos)
    ensures t.next <= |s|
    ensures Tokens(s, 0) == (read + [t.value]) + Tokens(s, t.next)
    ensures Low8s(read + [t.value]) == Low8s(read) + [Low8(t.value)]
  {
    assert Tokens(s, pos) == [t.value] + Tokens(s, t.next);
  }

  /** `ngram_from_string_into`: returns the target (here, what was written
      into it) right after the n-th token, and NULL (`None`) when the text
      ends or a non-hex token comes first. */
  method NgramFromStringInto(n: int, text: string) returns (r: Option<seq<uint8>>)
    ensures r.Some? <==> |Tokens(text, 0)| >= Needed(n)
    ensures r.Some? ==> r.value == Low8s(Tokens(text, 0)[..Needed(n)])
  {
    var pos := 0;
    var target: seq<uint8> := [];
    ghost var read: seq<nat> := [];
    while pos < |text|
      invariant pos <= |text|
      invariant Tokens(text, 0) == read + Tokens(text, pos)
      invariant target == Low8s(read)
      invariant |read| < Needed(n)
      decreases |text| - pos
    {
      var t := ScanHex(text, pos);
      if t.None? {
        break;
      }
      TokenStep(text, pos, read, t.value);
      target := target + [Low8(t.value.value)];
      read := read + [t.value.value];
      if |target| >= n {
        assert Tokens(text, 0) == read + Tokens(text, t.value.next);
        assert Tokens(text, 0)[..Needed(n)] == read;
        return Some(target);
      }
      pos := t.value.next;
    }
    TokensAtEnd(text);
    return None;
  }

  /** `ngram_from_string`: reads tokens into the scratch buffer until a
      conversion fails or the buffer (`MAX_NGRAM_BUFFER` bytes) is full, and
      fails when fewer than `n` were read. The result is what this call
      wrote; the n-gram is its first `n` bytes. */
  method NgramFromString(n: int, text: string) returns (r: Option<seq<uint8>>)
    ensures var read := if |Tokens(text, 0)| < NgramStorage.MaxNgramBuffer
                        then |Tokens(text, 0)| else NgramStorage.MaxNgramBuffer;
            (r.Some? <==> read >= n)
            && (r.Some? ==> r.value == Low8s(Tokens(text, 0)[..read]))
  {
    var pos := 0;
    var buffer: seq<uint8> := [];
    ghost var read: seq<nat> := [];
    while pos < |text|
      invariant pos <= |text|
      invariant Tokens(text, 0) == read + Tokens(text, pos)
      invariant buffer == Low8s(read)
      invariant |read| < NgramStorage.MaxNgramBuffer
      decreases |text| - pos
    {
      var t := ScanHex(text, pos);
      if t.None? {
        break;
      }
      TokenStep(text, pos, read, t.value);
      buffer := buffer + [Low8(t.value.value)];
      read := read + [t.value.value];
      if |buffer| >= NgramStorage.MaxNgramBuffer {
        assert Tokens(text, 0) == read + Tokens(text, t.value.next);
        assert Tokens(text, 0)[..|read|] == read;
        if |buffer| < n {
          return None;
        }
        return Some(buffer);
      }
      pos := t.value.next;
    }
    TokensAtEnd(text);
    assert Tokens(text, 0) == read;
    if |buffer| < n {
      return None;
    }
    return Some(buffer);
  }

  /** The short test string of the demo program holds only two tokens. */
  lemma DemoShortString()
    ensures Tokens("0a  AD", 0) == [0x0a, 0xad]
  {
    var s := "0a  AD";
    assert SkipSpace(s, 0) == 0;
    assert HexRunEnd(s, 0) == 2;
    assert s[0..2] == "0a";
    assert HexNumber("0a") == 10 by { assert "0a"[..1] == "0"; assert "0"[..0] == ""; }
    assert ScanHex(s, 0) == Some(Token(10, 2));
    assert SkipSpace(s, 2) == 4;
    assert HexRunEnd(s, 4) == 6;
    assert s[4..6] == "AD";
    assert HexNumber("AD") == 0xad by { assert "AD"[..1] == "A"; assert "A"[..0] == ""; }
    assert ScanHex(s, 2) == Some(Token(0xad, 6));
    assert ScanHex(s, 6) == None;
  }
}
