/** Bytes, fixed-width little-endian integers and the byte-wise string order used by the on-disk formats. */
module Bytes {

  type byte = x: int | 0 <= x < 256

  /** `std::string`: a sequence of bytes, compared as unsigned bytes. */
  type Str = seq<byte>

  const TWO_32: nat := 0x1_0000_0000
  const TWO_64: nat := 0x1_0000_0000_0000_0000

  type u32 = n: nat | n < TWO_32
  type u64 = n: nat | n < TWO_64
  type i64 = n: int | -0x8000_0000_0000_0000 <= n < 0x8000_0000_0000_0000

  function Power256(width: nat): (p: nat)
    ensures p > 0
  {
    if width == 0 then 1 else 256 * Power256(width - 1)
  }

  lemma PowersOfInterest()
    ensures Power256(4) == TWO_32
    ensures Power256(8) == TWO_64
  {
    assert Power256(2) == 0x1_0000;
    assert Power256(4) == 256 * (256 * Power256(2));
    assert Power256(6) == 256 * (256 * Power256(4));
    assert Power256(8) == 256 * (256 * Power256(6));
  }

  /** The low `width` bytes of `n`, least significant first; higher bits are dropped, as a narrowing cast drops them. */
  function LittleEndian(n: nat, width: nat): (s: Str)
    ensures |s| == width
    decreases width
  {
    if width == 0 then [] else [n % 256] + LittleEndian(n / 256, width - 1)
  }

  /** Byte `i` is the `i`-th digit to base 256, the lowest one first. */
  lemma {:induction false} LittleEndianDigit(n: nat, width: nat, i: nat)
    requires i < width
    ensures LittleEndian(n, width)[i] == n / Power256(i) % 256
    decreases i
  {
    if i > 0 {
      LittleEndianDigit(n / 256, width - 1, i - 1);
      DivideTwice(n, Power256(i - 1));
    }
  }

  lemma DivideTwice(n: nat, p: nat)
    requires p > 0
    ensures n / 256 / p == n / (256 * p)
  {
    var q := n / 256 / p;
    var r, d := n / 256 % p, n % 256;
    assert n / 256 == q * p + r;
    assert n == q * (256 * p) + (256 * r + d);
    assert 256 * r + d < 256 * p;
    QuotientIs(n, 256 * p, q, 256 * r + d);
  }

  lemma QuotientIs(n: nat, d: nat, q: nat, r: nat)
    requires n == q * d + r && r < d
    ensures n / d == q
  {
    var k, s := n / d, n % d;
    assert n == k * d + s && s < d;
    assert (k - q) * d == k * d - q * d;
    Multiple(k - q, d);
  }

  lemma Multiple(m: int, d: nat)
    ensures m >= 1 ==> m * d >= d
    ensures m <= -1 ==> m * d + d <= 0
  {
    assert (m - 1) * d == m * d - d;
    assert (m + 1) * d == m * d + d;
    if m >= 1 { assert (m - 1) * d >= 0; }
    if m <= -1 { assert (m + 1) * d <= 0; }
  }

  function FromLittleEndian(s: Str): nat
  {
    if s == [] then 0 else s[0] + 256 * FromLittleEndian(s[1..])
  }

  /** Writing an integer and reading it back keeps it exactly modulo the width. */
  lemma {:induction false} LittleEndianRoundTrip(n: nat, width: nat)
    ensures FromLittleEndian(LittleEndian(n, width)) < Power256(width)
    ensures n < Power256(width) ==> FromLittleEndian(LittleEndian(n, width)) == n
    decreases width
  {
    if width > 0 {
      LittleEndianRoundTrip(n / 256, width - 1);
      assert LittleEndian(n, width)[1..] == LittleEndian(n / 256, width - 1);
    }
  }

  /** The first bytes of an integer are the integer at a smaller width. */
  lemma {:induction false} LittleEndianPrefix(n: nat, width: nat, t: nat)
    requires t <= width
    ensures LittleEndian(n, width)[..t] == LittleEndian(n, t)
    decreases width
  {
    if t > 0 {
      LittleEndianPrefix(n / 256, width - 1, t - 1);
      assert LittleEndian(n, width)[1..] == LittleEndian(n / 256, width - 1);
      assert LittleEndian(n, width)[..t] == [n % 256] + LittleEndian(n / 256, width - 1)[..t - 1];
    }
  }

  lemma {:induction false} FromLittleEndianConcat(a: Str, b: Str)
    ensures FromLittleEndian(a + b) == FromLittleEndian(a) + Power256(|a|) * FromLittleEndian(b)
    decreases |a|
  {
    if a == [] {
      assert a + b == b;
    } else {
      FromLittleEndianConcat(a[1..], b);
      FirstByte(a);
      FirstByte(a + b);
      assert (a + b)[0] == a[0] && (a + b)[1..] == a[1..] + b;
      hide FromLittleEndian;
      Distribute(a[0], FromLittleEndian(a[1..]), Power256(|a| - 1), FromLittleEndian(b));
    }
  }

  lemma FirstByte(s: Str)
    requires s != []
    ensures FromLittleEndian(s) == s[0] + 256 * FromLittleEndian(s[1..])
  {
  }

  lemma Distribute(x: int, y: int, p: int, v: int)
    ensures x + 256 * (y + p * v) == (x + 256 * y) + (256 * p) * v
  {
    assert 256 * (p * v) == (256 * p) * v;
  }

  lemma U32RoundTrip(n: nat)
    requires n < TWO_32
    ensures FromLittleEndian(LittleEndian(n, 4)) == n
  {
    PowersOfInterest();
    LittleEndianRoundTrip(n, 4);
  }

  lemma U64RoundTrip(n: nat)
    requires n < TWO_64
    ensures FromLittleEndian(LittleEndian(n, 8)) == n
  {
    PowersOfInterest();
    LittleEndianRoundTrip(n, 8);
  }

  lemma {:induction false} LittleEndianBound(s: Str)
    ensures FromLittleEndian(s) < Power256(|s|)
  {
    if s != [] { LittleEndianBound(s[1..]); }
  }

  lemma U64Bound(s: Str)
    requires |s| == 8
    ensures FromLittleEndian(s) < TWO_64
  {
    PowersOfInterest();
    LittleEndianBound(s);
  }

  lemma U32Bound(s: Str)
    requires |s| == 4
    ensures FromLittleEndian(s) < TWO_32
  {
    PowersOfInterest();
    LittleEndianBound(s);
  }

  /** `std::string::operator<`: lexicographic on unsigned bytes, a proper prefix being smaller. */
  predicate LexLess(a: Str, b: Str)
  {
    b != [] && (a == [] || a[0] < b[0] || (a[0] == b[0] && LexLess(a[1..], b[1..])))
  }

  lemma {:induction false} LexTrichotomy(a: Str, b: Str)
    ensures LexLess(a, b) || a == b || LexLess(b, a)
    ensures !(LexLess(a, b) && LexLess(b, a))
    ensures !LexLess(a, a)
  {
    if a != [] && b != [] {
      LexTrichotomy(a[1..], b[1..]);
      LexTrichotomy(a[1..], a[1..]);
      assert a == [a[0]] + a[1..] && b == [b[0]] + b[1..];
    } else if a != [] {
      LexTrichotomy(a[1..], a[1..]);
    }
  }

  lemma {:induction false} LexTransitive(a: Str, b: Str, c: Str)
    requires LexLess(a, b) && LexLess(b, c)
    ensures LexLess(a, c)
  {
    if a != [] && a[0] == b[0] == c[0] {
      LexTransitive(a[1..], b[1..], c[1..]);
    }
  }

  ghost predicate ProperPrefix(a: Str, b: Str)
  {
    |a| < |b| && b[..|a|] == a
  }

  /** The first place where the two differ holds the smaller number in `a`. */
  ghost predicate SmallerAtFirstDifference(a: Str, b: Str)
  {
    exists i :: 0 <= i < |a| && i < |b| && a[..i] == b[..i] && a[i] < b[i]
  }

  /** `a` is a proper prefix of `b`, or smaller as a number below 256 where they first differ. */
  lemma {:induction false} LexLessIff(a: Str, b: Str)
    ensures LexLess(a, b) <==> ProperPrefix(a, b) || SmallerAtFirstDifference(a, b)
  {
    if a != [] && b != [] {
      if a[0] == b[0] {
        LexLessIff(a[1..], b[1..]);
        SameHead(a[0], a[1..], b[1..]);
        assert a == [a[0]] + a[1..] && b == [b[0]] + b[1..];
      } else {
        assert a[..0] == b[..0];
        assert forall i :: 0 < i < |a| && i < |b| ==> a[..i][0] != b[..i][0];
      }
    }
  }

  lemma SameHead(x: byte, a: Str, b: Str)
    ensures ProperPrefix([x] + a, [x] + b) <==> ProperPrefix(a, b)
    ensures SmallerAtFirstDifference([x] + a, [x] + b) <==> SmallerAtFirstDifference(a, b)
  {
    var p, q := [x] + a, [x] + b;
    forall i | 0 <= i <= |a| && i <= |b|
      ensures p[..i + 1] == q[..i + 1] <==> a[..i] == b[..i]
    {
      assert p[..i + 1] == [x] + a[..i] && q[..i + 1] == [x] + b[..i];
      assert p[..i + 1][1..] == a[..i] && q[..i + 1][1..] == b[..i];
    }
    if |a| < |b| {
      assert p[..|a| + 1] == p && a[..|a|] == a;
      assert q[..|a| + 1] == p <==> b[..|a|] == a;
    }
    if SmallerAtFirstDifference(p, q) {
      var i :| 0 <= i < |p| && i < |q| && p[..i] == q[..i] && p[i] < q[i];
      assert i > 0;
      assert p[..i - 1 + 1] == q[..i - 1 + 1];
      assert a[..i - 1] == b[..i - 1] && a[i - 1] < b[i - 1];
    }
    if SmallerAtFirstDifference(a, b) {
      var i :| 0 <= i < |a| && i < |b| && a[..i] == b[..i] && a[i] < b[i];
      assert p[..i + 1] == q[..i + 1] && p[i + 1] < q[i + 1];
    }
  }

  /** `std::string::find(c)`: the first index holding `c`, or the length when there is none. */
  function IndexOf(s: Str, c: byte): (i: nat)
    ensures i <= |s|
    ensures i < |s| ==> s[i] == c
    ensures c !in s[..i]
  {
    if s == [] || s[0] == c then 0 else
      var r := IndexOf(s[1..], c);
      assert s[..1 + r] == [s[0]] + s[1..][..r];
      1 + r
  }

  /** The first separator after a separator-free prefix is the one that ends the prefix. */
  lemma IndexOfFirst(prefix: Str, c: byte, rest: Str)
    requires c !in prefix
    ensures IndexOf(prefix + [c] + rest, c) == |prefix|
  {
    var s := prefix + [c] + rest;
    var i := IndexOf(s, c);
    forall j | 0 <= j < i
      ensures s[j] != c
    {
      assert s[j] in s[..i];
    }
    assert s[|prefix|] == c;
    forall j | 0 <= j < |prefix|
      ensures s[j] != c
    {
      assert s[j] == prefix[j] && prefix[j] in prefix;
    }
  }
}
