/** Bytes, powers and the lexicographic order that std::vector<uint8_t>
    and std::string use (char_traits<char> compares as unsigned char). */
module Bytes {

  /** An unsigned 8-bit value, as `uint8_t` holds it. */
  type uint8 = x: int | 0 <= x < 256

  function Pow(b: int, e: nat): int
  {
    if e == 0 then 1 else b * Pow(b, e - 1)
  }

  lemma {:induction false} PowPositive(b: int, e: nat)
    requires b >= 1
    ensures Pow(b, e) >= 1
  {
    if e > 0 {
      PowPositive(b, e - 1);
    }
  }

  /** The low eight bits of a non-negative value (`x & 0xFF`). */
  function Low8(x: nat): (r: uint8)
  {
    x % 256
  }

  /** Lexicographic "less than" on sequences of unsigned codes (the order
      of `std::vector<uint8_t>` and of `std::string`): a proper prefix is
      smaller. */
  predicate LexLess(a: seq<int>, b: seq<int>)
    decreases |a|
  {
    if |a| == 0 then |b| > 0
    else if |b| == 0 then false
    else a[0] < b[0] || (a[0] == b[0] && LexLess(a[1..], b[1..]))
  }

  lemma {:induction false} LexIrreflexive(a: seq<int>)
    ensures !LexLess(a, a)
  {
    if |a| > 0 {
      LexIrreflexive(a[1..]);
    }
  }

  lemma {:induction false} LexTransitive(a: seq<int>, b: seq<int>, c: seq<int>)
    requires LexLess(a, b) && LexLess(b, c)
    ensures LexLess(a, c)
    decreases |a|
  {
    if |a| > 0 && a[0] == b[0] && b[0] == c[0] {
      LexTransitive(a[1..], b[1..], c[1..]);
    }
  }

  lemma {:induction false} LexTotal(a: seq<int>, b: seq<int>)
    requires a != b
    ensures LexLess(a, b) || LexLess(b, a)
    decreases |a|
  {
    if |a| > 0 && |b| > 0 && a[0] == b[0] {
      assert a == [a[0]] + a[1..] && b == [b[0]] + b[1..];
      LexTotal(a[1..], b[1..]);
    }
  }

  lemma LexAsymmetric(a: seq<int>, b: seq<int>)
    requires LexLess(a, b)
    ensures !LexLess(b, a)
  {
    if LexLess(b, a) {
      LexTransitive(a, b, a);
      LexIrreflexive(a);
    }
  }

  /** The character codes of a string, the order `std::string` compares. */
  function Codes(s: string): (r: seq<int>)
    ensures |r| == |s|
    ensures forall i :: 0 <= i < |s| ==> r[i] == s[i] as int
  {
    seq(|s|, i requires 0 <= i < |s| => s[i] as int)
  }

  lemma CodesInjective(a: string, b: string)
    requires Codes(a) == Codes(b)
    ensures a == b
  {
    assert forall i :: 0 <= i < |a| ==> a[i] as int == Codes(a)[i] == Codes(b)[i] == b[i] as int;
  }

  /** Strictly increasing: sorted and free of duplicates. */
  ghost predicate StrictlySorted(xs: seq<seq<uint8>>)
  {
    forall i, j :: 0 <= i < j < |xs| ==> LexLess(xs[i], xs[j])
  }

  /** Inserts `x` at its place in a strictly sorted list, unless present. */
  function Insert(xs: seq<seq<uint8>>, x: seq<uint8>): (r: seq<seq<uint8>>)
    requires StrictlySorted(xs)
    ensures StrictlySorted(r)
    ensures forall y :: y in r <==> y in xs || y == x
  {
    if |xs| == 0 then [x]
    else if x == xs[0] then xs
    else if LexLess(x, xs[0]) then
      assert forall j :: 0 <= j < |xs| ==> LexLess(x, xs[j]) by {
        forall j | 0 <= j < |xs| ensures LexLess(x, xs[j]) {
          if j > 0 { LexTransitive(x, xs[0], xs[j]); }
        }
      }
      [x] + xs
    else
      LexTotal(x, xs[0]);
      var tail := Insert(xs[1..], x);
      assert forall y :: y in tail ==> LexLess(xs[0], y);
      [xs[0]] + tail
  }

  /** The sorted, duplicate-free list of the elements of `xs`: what
      std::sort followed by std::unique and erase leaves behind. */
  function SortUnique(xs: seq<seq<uint8>>): (r: seq<seq<uint8>>)
    ensures StrictlySorted(r)
    ensures forall y :: y in r <==> y in xs
  {
    if |xs| == 0 then []
    else Insert(SortUnique(xs[..|xs| - 1]), xs[|xs| - 1])
  }

  lemma HeadIsMember<T>(xs: seq<T>)
    ensures |xs| > 0 ==> xs[0] in xs
  {
  }

  /** A strictly sorted list is determined by its elements, so the
      normalised form does not depend on the input order. */
  lemma {:induction false} StrictlySortedUnique(a: seq<seq<uint8>>, b: seq<seq<uint8>>)
    requires StrictlySorted(a) && StrictlySorted(b)
    requires forall y :: y in a <==> y in b
    ensures a == b
  {
    if |a| == 0 {
      HeadIsMember(b);
    } else {
      assert a[0] in b;
      assert b[0] in a;
      var k :| 0 <= k < |b| && b[k] == a[0];
      var m :| 0 <= m < |a| && a[m] == b[0];
      if k > 0 && m > 0 {
        LexAsymmetric(b[0], b[k]);
        assert false;
      }
      assert a[0] == b[0];
      forall y ensures y in a[1..] <==> y in b[1..] {
        if y in a[1..] {
          var i :| 1 <= i < |a| && a[i] == y;
          LexIrreflexive(a[0]);
          assert y in a;
          var j :| 0 <= j < |b| && b[j] == y;
          assert b[1..][j - 1] == y;
        }
        if y in b[1..] {
          var i :| 1 <= i < |b| && b[i] == y;
          LexIrreflexive(b[0]);
          assert y in b;
          var j :| 0 <= j < |a| && a[j] == y;
          assert a[1..][j - 1] == y;
        }
      }
      StrictlySortedUnique(a[1..], b[1..]);
      assert a == [a[0]] + a[1..] && b == [b[0]] + b[1..];
    }
  }

  lemma MulLe(a: int, b: int, c: nat)
    ensures a <= b ==> a * c <= b * c
  {
  }

  lemma DivModOfDigit(q: nat, radix: nat, x: nat)
    requires x < radix
    ensures (q * radix + x) / radix == q
    ensures (q * radix + x) % radix == x
  {
    var v := q * radix + x;
    var d := v / radix;
    var m := v % radix;
    assert d * radix + m == q * radix + x;
    MulLe(q + 1, d, radix);
    MulLe(d + 1, q, radix);
  }

  /** Adding the modulus does not change the remainder. */
  lemma ModShift(a: nat, n: nat)
    requires n > 0
    ensures (a + n) % n == a % n
  {
    DivModOfDigit(a / n, n, a % n);
    DivModOfDigit(a / n + 1, n, a % n);
    assert a + n == (a / n + 1) * n + a % n;
  }

  /** Fewer than n steps past `a` never reach a's remainder again. */
  lemma ModDistinct(a: nat, b: nat, n: nat)
    requires n > 0 && a < b < a + n
    ensures b % n != a % n
  {
    var q, r := a / n, a % n;
    var d := b - a;
    assert a == q * n + r;
    if r + d < n {
      DivModOfDigit(q, n, r + d);
      assert b == q * n + (r + d);
    } else {
      DivModOfDigit(q + 1, n, r + d - n);
      assert (q + 1) * n == q * n + n;
      assert b == (q + 1) * n + (r + d - n);
    }
  }

  /** A slice of a slice is a slice of the original. */
  lemma SliceOfSlice<T>(s: seq<T>, i: nat, e: nat, a: nat, b: nat)
    requires i <= e <= |s| && a <= b <= e - i
    ensures s[i..e][a..b] == s[i + a..i + b]
  {
    forall k | 0 <= k < b - a
      ensures s[i..e][a..b][k] == s[i + a..i + b][k]
    {
      assert s[i..e][a..b][k] == s[i..e][a + k];
    }
  }
}
