/** CRC32C (src/crc32c.cpp): the table-driven code, the bit-serial checksum it computes, and the errors it detects. */
module Crc32c {
  import opened Bytes
  import opened Collections

  // ---------------------------------------------------------------------------
  // `uint32_t` as its 32 bits, least significant first.

  function BitsOf(n: nat, width: nat): (s: seq<bool>)
    ensures |s| == width
    decreases width, n
  {
    if width == 0 then [] else [n % 2 == 1] + BitsOf(n / 2, width - 1)
  }

  function NatOf(s: seq<bool>): nat
  {
    if s == [] then 0 else (if s[0] then 1 else 0) + 2 * NatOf(s[1..])
  }

  function Power2(n: nat): (p: nat)
    ensures p > 0
  {
    if n == 0 then 1 else 2 * Power2(n - 1)
  }

  lemma {:induction false} BitsOfNatOf(s: seq<bool>)
    ensures BitsOf(NatOf(s), |s|) == s
    ensures NatOf(s) < Power2(|s|)
  {
    if s != [] { BitsOfNatOf(s[1..]); }
  }

  lemma {:induction false} NatOfBitsOf(n: nat, width: nat)
    requires n < Power2(width)
    ensures NatOf(BitsOf(n, width)) == n
    decreases width
  {
    if width > 0 {
      NatOfBitsOf(n / 2, width - 1);
      assert BitsOf(n, width)[1..] == BitsOf(n / 2, width - 1);
    }
  }

  lemma Power2Of8()
    ensures Power2(8) == 256
  {
    assert Power2(4) == 16;
    assert Power2(6) == 64;
  }

  /** Bit `i` of an integer. */
  predicate Bit(n: nat, i: nat)
    decreases i, n
  {
    if i == 0 then n % 2 == 1 else Bit(n / 2, i - 1)
  }

  function WordOf(n: nat): Word
  {
    seq(32, i requires 0 <= i < 32 => Bit(n, i))
  }

  type Word = s: seq<bool> | |s| == 32 witness BitsOf(0, 32)

  /** `kCrc32cPoly` */
  const POLY: Word := WordOf(0x82F6_3B78)

  function Ones(n: nat): (s: seq<bool>)
    ensures |s| == n
  {
    seq(n, _ => true)
  }

  /** 0xFFFFFFFF */
  const ALL_ONES: Word := Ones(32)

  function Zeros(n: nat): (s: seq<bool>)
    ensures |s| == n
  {
    seq(n, _ => false)
  }

  function Xor(a: seq<bool>, b: seq<bool>): (s: seq<bool>)
    requires |a| == |b|
    ensures |s| == |a|
  {
    seq(|a|, i requires 0 <= i < |a| => a[i] != b[i])
  }

  /** `x >> n` */
  function ShiftRight(x: Word, n: nat): Word
    requires n <= 32
  {
    x[n..] + Zeros(n)
  }

  // ---------------------------------------------------------------------------
  // Reference: a 32-bit shift register fed one message bit at a time.

  /** One shift of the register with no input. */
  function Shift(c: Word): Word
  {
    if c[0] then Xor(ShiftRight(c, 1), POLY) else ShiftRight(c, 1)
  }

  function ShiftN(c: Word, n: nat): Word
    decreases n
  {
    if n == 0 then c else ShiftN(Shift(c), n - 1)
  }

  /** The register after the bits: each bit is added to the low end before the shift. */
  function Feed(c: Word, bits: seq<bool>): Word
    decreases bits
  {
    if bits == [] then c else Feed(Shift(c[0 := c[0] != bits[0]]), bits[1..])
  }

  /** A message is sent byte by byte, each least significant bit first. */
  function Bits(data: Str): (s: seq<bool>)
    ensures |s| == 8 * |data|
  {
    if data == [] then [] else BitsOf(data[0], 8) + Bits(data[1..])
  }

  /** CRC32C of a message: start from all ones, feed every bit, complement. */
  function Crc(data: Str): Word
  {
    Xor(Feed(ALL_ONES, Bits(data)), ALL_ONES)
  }

  // ---------------------------------------------------------------------------
  // One table step is eight register steps.

  /** A byte widened to 32 bits. */
  function Widen(b: byte): Word
  {
    BitsOf(b, 8) + Zeros(24)
  }

  /** What table slot `i` must hold. */
  function TableEntry(i: byte): Word
  {
    ShiftN(Widen(i), 8)
  }

  lemma ShiftLinear(a: Word, b: Word)
    ensures Shift(Xor(a, b)) == Xor(Shift(a), Shift(b))
  {
  }

  lemma {:induction false} ShiftNLinear(a: Word, b: Word, n: nat)
    ensures ShiftN(Xor(a, b), n) == Xor(ShiftN(a, n), ShiftN(b, n))
    decreases n
  {
    if n > 0 {
      ShiftLinear(a, b);
      ShiftNLinear(Shift(a), Shift(b), n - 1);
    }
  }

  /** Bits that do not reach the low end only move down. */
  lemma {:induction false} PlainShifts(x: Word, n: nat)
    requires n <= 32 && forall i :: 0 <= i < n ==> !x[i]
    ensures ShiftN(x, n) == ShiftRight(x, n)
    decreases n
  {
    if n > 0 {
      PlainShifts(Shift(x), n - 1);
      assert ShiftRight(Shift(x), n - 1) == ShiftRight(x, n);
    } else {
      assert ShiftRight(x, 0) == x;
    }
  }

  /** Up to 32 bits as a word, first bit lowest. */
  function Pad(bits: seq<bool>): Word
    requires |bits| <= 32
  {
    bits + Zeros(32 - |bits|)
  }

  lemma PadStep(c: Word, bits: seq<bool>)
    requires 0 < |bits| <= 32
    ensures Xor(Shift(c[0 := c[0] != bits[0]]), Pad(bits[1..])) == Shift(Xor(c, Pad(bits)))
  {
    var c', w := c[0 := c[0] != bits[0]], Xor(c, Pad(bits));
    assert c'[0] == w[0];
    forall i | 0 <= i < 32
      ensures Xor(Shift(c'), Pad(bits[1..]))[i] == Shift(w)[i]
    {
      if i < 31 {
        assert ShiftRight(w, 1)[i] == w[i + 1] == (c[i + 1] != Pad(bits)[i + 1]);
        assert ShiftRight(c', 1)[i] == c[i + 1];
      }
    }
  }

  /** Feeding up to 32 bits is: xor the word in, then shift that many times. */
  lemma {:induction false} FeedIsShiftedXor(c: Word, bits: seq<bool>)
    requires |bits| <= 32
    ensures Feed(c, bits) == ShiftN(Xor(c, Pad(bits)), |bits|)
    decreases bits
  {
    if bits == [] {
      assert Xor(c, Pad(bits)) == c;
    } else {
      FeedIsShiftedXor(Shift(c[0 := c[0] != bits[0]]), bits[1..]);
      PadStep(c, bits);
    }
  }

  /** The table look-up does eight register steps at once. */
  lemma TableStepIsEightBits(c: Word, b: byte, index: byte)
    requires BitsOf(index, 8) == Xor(c, Widen(b))[..8]
    ensures Xor(TableEntry(index), ShiftRight(c, 8)) == Feed(c, BitsOf(b, 8))
  {
    var w := Xor(c, Widen(b));
    var high := Zeros(8) + c[8..];
    assert w == Xor(Widen(index), high);
    ShiftNLinear(Widen(index), high, 8);
    PlainShifts(high, 8);
    assert ShiftRight(high, 8) == ShiftRight(c, 8);
    FeedIsShiftedXor(c, BitsOf(b, 8));
    assert Pad(BitsOf(b, 8)) == Widen(b);
  }

  lemma {:induction false} FeedConcat(c: Word, x: seq<bool>, y: seq<bool>)
    ensures Feed(c, x + y) == Feed(Feed(c, x), y)
    decreases x
  {
    hide Shift;
    if x == [] {
      assert x + y == y;
    } else {
      FeedConcat(Shift(c[0 := c[0] != x[0]]), x[1..], y);
      assert (x + y)[1..] == x[1..] + y;
    }
  }

  lemma {:induction false} BitsConcat(a: Str, b: Str)
    ensures Bits(a + b) == Bits(a) + Bits(b)
  {
    hide BitsOf, Bits;
    if a == [] {
      assert a + b == b;
      NoBits();
      assert [] + Bits(b) == Bits(b);
    } else {
      var rest := a[1..];
      BitsConcat(rest, b);
      BitsCons(a);
      BitsCons(a + b);
      assert (a + b)[0] == a[0] && (a + b)[1..] == rest + b;
      Associate(BitsOf(a[0], 8), Bits(rest), Bits(b));
    }
  }

  lemma NoBits()
    ensures Bits([]) == []
  {
  }

  lemma BitsCons(data: Str)
    requires data != []
    ensures Bits(data) == BitsOf(data[0], 8) + Bits(data[1..])
  {
    hide BitsOf;
  }

  lemma XorTwice(a: seq<bool>, x: seq<bool>)
    requires |a| == |x|
    ensures Xor(Xor(a, x), x) == a
  {
  }

  /** Extending the checksum of a message by more bytes gives the checksum of the whole. */
  lemma ExtendIsConcatenation(a: Str, b: Str)
    ensures Xor(Feed(Xor(Crc(a), ALL_ONES), Bits(b)), ALL_ONES) == Crc(a + b)
  {
    BitsConcat(a, b);
    FeedConcat(ALL_ONES, Bits(a), Bits(b));
    XorTwice(Feed(ALL_ONES, Bits(a)), ALL_ONES);
  }

  // ---------------------------------------------------------------------------
  // The code.

  /** `crc32c_table` and `table_initialized`. */
  class Engine {
    const table: array<Word>
    var initialized: bool

    ghost predicate Valid()
      reads this, table
    {
      && table.Length == 256
      && (initialized ==> forall i :: 0 <= i < 256 ==> table[i] == TableEntry(i))
    }

    constructor ()
      ensures Valid() && fresh(table) && !initialized
    {
      table := new Word[256];
      initialized := false;
    }

    method InitTable()
      requires Valid()
      modifies this`initialized, table
      ensures Valid() && initialized
    {
      hide Xor, ShiftRight, Widen, Feed, Bits;
      if initialized { return; }
      var i: int := 0;
      while i < 256
        invariant 0 <= i <= 256
        invariant forall k :: 0 <= k < i ==> table[k] == TableEntry(k)
      {
        var crc: Word := Widen(i);
        var j := 0;
        while j < 8
          invariant 0 <= j <= 8
          invariant ShiftN(crc, 8 - j) == TableEntry(i)
        {
          if crc[0] {
            crc := Xor(ShiftRight(crc, 1), POLY);
          } else {
            crc := ShiftRight(crc, 1);
          }
          j := j + 1;
        }
        table[i] := crc;
        i := i + 1;
      }
      initialized := true;
    }

    /** The loop that `Crc32c` and `Extend` share. */
    method Run(start: Word, data: Str) returns (crc: Word)
      requires Valid() && initialized
      ensures crc == Feed(start, Bits(data))
    {
      crc := start;
      var i := 0;
      while i < |data|
        invariant 0 <= i <= |data|
        invariant Feed(crc, Bits(data[i..])) == Feed(start, Bits(data))
      {
        var low := Xor(crc, Widen(data[i]))[..8];
        BitsOfNatOf(low);
        Power2Of8();
        var index := NatOf(low);
        TableStepIsEightBits(crc, data[i], index);
        FeedConcat(crc, BitsOf(data[i], 8), Bits(data[i + 1..]));
        assert data[i..][1..] == data[i + 1..];
        crc := Xor(table[index], ShiftRight(crc, 8));
        i := i + 1;
      }
    }

    method Compute(data: Str) returns (crc: Word)
      requires Valid()
      modifies this`initialized, table
      ensures Valid() && initialized
      ensures crc == Crc(data)
    {
      InitTable();
      crc := Run(ALL_ONES, data);
      crc := Xor(crc, ALL_ONES);
    }

    method Extend(crc: Word, data: Str) returns (extended: Word)
      requires Valid()
      modifies this`initialized, table
      ensures Valid() && initialized
      ensures extended == Xor(Feed(Xor(crc, ALL_ONES), Bits(data)), ALL_ONES)
      ensures forall prefix: Str :: crc == Crc(prefix) ==> extended == Crc(prefix + data)
    {
      InitTable();
      extended := Run(Xor(crc, ALL_ONES), data);
      extended := Xor(extended, ALL_ONES);
      forall prefix: Str | crc == Crc(prefix)
        ensures extended == Crc(prefix + data)
      {
        ExtendIsConcatenation(prefix, data);
      }
    }
  }

  // ---------------------------------------------------------------------------
  // The constant and its standard.

  /** The number without its `k` lowest hexadecimal digits. */
  function DropDigits(n: nat, k: nat): nat
    decreases k, n
  {
    if k == 0 then n else DropDigits(n / 16, k - 1)
  }

  lemma {:induction false} BitOfDigit(n: nat, k: nat, i: nat)
    ensures Bit(n, 4 * k + i) == Bit(DropDigits(n, k), i)
    decreases k
  {
    if k > 0 {
      var j := 4 * (k - 1) + i;
      assert Bit(n, j + 4) == Bit(n / 2, j + 3) == Bit(n / 4, j + 2) == Bit(n / 8, j + 1) == Bit(n / 16, j);
      BitOfDigit(n / 16, k - 1, i);
    }
  }

  /** Section 12.1 of RFC 3720 gives the generator as 0x11EDC6F41; the code holds it with its bits reflected. */
  lemma PolyIsReflectedGenerator(i: nat)
    requires i < 32
    ensures POLY[i] == Bit(0x1EDC_6F41, 31 - i)
  {
    BitOfDigit(0x82F6_3B78, i / 4, i % 4);
    BitOfDigit(0x1EDC_6F41, 7 - i / 4, 3 - i % 4);
    assert 31 - i == 4 * (7 - i / 4) + (3 - i % 4);
    ReflectedDigits(i / 4, i % 4);
  }

  lemma ReflectedDigits(k: nat, j: nat)
    requires k < 8 && j < 4
    ensures Bit(DropDigits(0x82F6_3B78, k), j) == Bit(DropDigits(0x1EDC_6F41, 7 - k), 3 - j)
  {
    hide Bit;
    var a, d, b, e := DigitPair(k);
    Mirrored(a, d, b, e, j);
  }

  /** The digits at both ends, and what stands in front of them. */
  lemma DigitPair(k: nat) returns (a: nat, d: nat, b: nat, e: nat)
    requires k < 8
    ensures DropDigits(0x82F6_3B78, k) == 16 * a + d && DropDigits(0x1EDC_6F41, 7 - k) == 16 * b + e
    ensures d < 16 && e < 16
    ensures d % 2 == e / 8 && d / 2 % 2 == e / 4 % 2 && d / 4 % 2 == e / 2 % 2 && d / 8 == e % 2
  {
    hide DropDigits;
    DigitTable();
    match k
    case 0 => a, d, b, e := 0x82F6_3B7, 8, 0, 1;
    case 1 => a, d, b, e := 0x82F6_3B, 7, 0x1, 0xE;
    case 2 => a, d, b, e := 0x82F6_3, 0xB, 0x1E, 0xD;
    case 3 => a, d, b, e := 0x82F6, 3, 0x1ED, 0xC;
    case 4 => a, d, b, e := 0x82F, 6, 0x1EDC, 6;
    case 5 => a, d, b, e := 0x82, 0xF, 0x1EDC_6, 0xF;
    case 6 => a, d, b, e := 0x8, 2, 0x1EDC_6F, 4;
    case 7 => a, d, b, e := 0, 8, 0x1EDC_6F4, 1;
  }

  /** Numbers whose last hexadecimal digits have the same bits in opposite order. */
  lemma Mirrored(a: nat, d: nat, b: nat, e: nat, j: nat)
    requires j < 4 && d < 16 && e < 16
    requires d % 2 == e / 8 && d / 2 % 2 == e / 4 % 2 && d / 4 % 2 == e / 2 % 2 && d / 8 == e % 2
    ensures Bit(16 * a + d, j) == Bit(16 * b + e, 3 - j)
  {
    hide Bit;
    FourBits(16 * a + d);
    FourBits(16 * b + e);
    LastDigit(a, d);
    LastDigit(b, e);
  }

  lemma LastDigit(a: nat, d: nat)
    requires d < 16
    ensures var n := 16 * a + d;
      n % 2 == d % 2 && n / 2 % 2 == d / 2 % 2 && n / 4 % 2 == d / 4 % 2 && n / 8 % 2 == d / 8
  {
    Quotients(a, d);
    PlusEven(8 * a, d);
    PlusEven(4 * a, d / 2);
    PlusEven(2 * a, d / 4);
    PlusEven(a, d / 8);
  }

  lemma Quotients(a: nat, d: nat)
    ensures (16 * a + d) / 2 == 8 * a + d / 2
    ensures (16 * a + d) / 4 == 4 * a + d / 4
    ensures (16 * a + d) / 8 == 2 * a + d / 8
  {
  }

  lemma PlusEven(m: nat, x: nat)
    ensures (2 * m + x) % 2 == x % 2
  {
  }

  lemma FourBits(n: nat)
    ensures Bit(n, 0) == (n % 2 == 1) && Bit(n, 1) == (n / 2 % 2 == 1)
    ensures Bit(n, 2) == (n / 4 % 2 == 1) && Bit(n, 3) == (n / 8 % 2 == 1)
  {
    assert n / 2 / 2 == n / 4 && n / 4 / 2 == n / 8;
    assert Bit(n, 2) == Bit(n / 2, 1) == Bit(n / 4, 0);
    assert Bit(n, 3) == Bit(n / 2, 2) == Bit(n / 4, 1) == Bit(n / 8, 0);
  }

  lemma DigitTable()
    ensures DropDigits(0x82F6_3B78, 0) == 0x82F6_3B78 && DropDigits(0x82F6_3B78, 1) == 0x82F6_3B7
    ensures DropDigits(0x82F6_3B78, 2) == 0x82F6_3B && DropDigits(0x82F6_3B78, 3) == 0x82F6_3
    ensures DropDigits(0x82F6_3B78, 4) == 0x82F6 && DropDigits(0x82F6_3B78, 5) == 0x82F
    ensures DropDigits(0x82F6_3B78, 6) == 0x82 && DropDigits(0x82F6_3B78, 7) == 0x8
    ensures DropDigits(0x1EDC_6F41, 0) == 0x1EDC_6F41 && DropDigits(0x1EDC_6F41, 1) == 0x1EDC_6F4
    ensures DropDigits(0x1EDC_6F41, 2) == 0x1EDC_6F && DropDigits(0x1EDC_6F41, 3) == 0x1EDC_6
    ensures DropDigits(0x1EDC_6F41, 4) == 0x1EDC && DropDigits(0x1EDC_6F41, 5) == 0x1ED
    ensures DropDigits(0x1EDC_6F41, 6) == 0x1E && DropDigits(0x1EDC_6F41, 7) == 0x1
  {
  }

  // ---------------------------------------------------------------------------
  // The checksum as a remainder.

  /** Every bit turned over. */
  function Negated(s: seq<bool>): (r: seq<bool>)
    ensures |r| == |s|
  {
    seq(|s|, i requires 0 <= i < |s| => !s[i])
  }

  /** x^32 and the lower powers that 0x1EDC6F41 lists (section 12.1 of RFC 3720): coefficients, highest power first. */
  function Generator(): (g: seq<bool>)
    ensures |g| == 33
  {
    [true] + seq(32, i requires 0 <= i < 32 => Bit(0x1EDC_6F41, 31 - i))
  }

  /** Long division of a polynomial over bits by the generator: what it leaves. */
  function Remainder(p: seq<bool>): (r: seq<bool>)
    ensures |p| >= 32 ==> |r| == 32
    decreases |p|
  {
    if |p| <= 32 then p
    else if p[0] then Remainder(Xor(p[..33], Generator())[1..] + p[33..])
    else Remainder(p[1..])
  }

  /** `c` added to the 32 highest coefficients. */
  function AddedInFront(c: Word, p: seq<bool>): (r: seq<bool>)
    requires |p| >= 32
    ensures |r| == |p|
  {
    Xor(c, p[..32]) + p[32..]
  }

  lemma GeneratorTail()
    ensures Generator()[0] && Generator()[1..] == POLY
  {
    forall i | 0 <= i < 32
      ensures Generator()[1..][i] == POLY[i]
    {
      PolyIsReflectedGenerator(i);
    }
  }

  /** One step of the register is one step of the division. */
  lemma DivisionStep(c: Word, b: bool, rest: seq<bool>)
    requires |rest| >= 32
    ensures Remainder(AddedInFront(c, [b] + rest)) == Remainder(AddedInFront(Shift(c[0 := c[0] != b]), rest))
  {
    hide Generator, Remainder;
    var p := AddedInFront(c, [b] + rest);
    var next := AddedInFront(Shift(c[0 := c[0] != b]), rest);
    GeneratorTail();
    assert p[0] == (c[0] != b);
    forall i | 0 <= i < 32
      ensures next[i] == (p[i + 1] != (p[0] && POLY[i]))
    {
      assert ([b] + rest)[i + 1] == rest[i];
    }
    RemainderStep(p);
    if p[0] {
      assert Xor(p[..33], Generator())[1..] + p[33..] == next;
    } else {
      assert p[1..] == next;
    }
  }

  lemma RemainderStep(p: seq<bool>)
    requires |p| > 32
    ensures Remainder(p) == Remainder(if p[0] then Xor(p[..33], Generator())[1..] + p[33..] else p[1..])
  {
  }

  lemma {:induction false} FeedIsRemainder(c: Word, bits: seq<bool>)
    ensures Feed(c, bits) == Remainder(AddedInFront(c, bits + Zeros(32)))
    decreases bits
  {
    hide Remainder, Shift;
    if bits == [] {
      assert AddedInFront(c, bits + Zeros(32)) == c;
      RemainderOfShort(c);
    } else {
      FeedIsRemainder(Shift(c[0 := c[0] != bits[0]]), bits[1..]);
      assert bits + Zeros(32) == [bits[0]] + (bits[1..] + Zeros(32));
      DivisionStep(c, bits[0], bits[1..] + Zeros(32));
    }
  }

  lemma RemainderOfShort(p: seq<bool>)
    requires |p| <= 32
    ensures Remainder(p) == p
  {
  }

  /**
   * What the standard asks for: append 32 zero bits to the message, negate its first 32 bits, divide by the generator
   * and negate the remainder.
   */
  lemma CrcIsNegatedRemainder(data: Str)
    ensures var p := Bits(data) + Zeros(32);
      Crc(data) == Negated(Remainder(Negated(p[..32]) + p[32..]))
  {
    hide Remainder, Feed, Bits;
    var p := Bits(data) + Zeros(32);
    FeedIsRemainder(ALL_ONES, Bits(data));
    assert Xor(ALL_ONES, p[..32]) == Negated(p[..32]);
    var c := Feed(ALL_ONES, Bits(data));
    assert Xor(c, ALL_ONES) == Negated(c);
  }

  /** Bit `j` of byte `i` is bit `8 * i + j` of the message. */
  lemma {:induction false} BitsAt(data: Str, i: nat, j: nat)
    requires i < |data| && j < 8
    ensures Bits(data)[8 * i + j] == Bit(data[i], j)
  {
    hide BitsOf, Bits;
    BitsCons(data);
    if i == 0 {
      BitsOfAreBits(data[0], 8, j);
    } else {
      BitsAt(data[1..], i - 1, j);
      assert Bits(data)[8 * i + j] == Bits(data[1..])[8 * (i - 1) + j];
    }
  }

  lemma {:induction false} BitsOfAreBits(n: nat, width: nat, i: nat)
    requires i < width
    ensures BitsOf(n, width)[i] == Bit(n, i)
    decreases width
  {
    if i > 0 { BitsOfAreBits(n / 2, width - 1, i - 1); }
  }

  lemma PolyBits()
    ensures !POLY[0] && !POLY[1] && !POLY[2] && POLY[3] && POLY[4] && POLY[5] && !POLY[30] && POLY[31]
  {
    hide Bit;
    BitOfDigit(0x82F6_3B78, 1, 0);
    BitOfDigit(0x82F6_3B78, 1, 1);
    BitOfDigit(0x82F6_3B78, 7, 2);
    BitOfDigit(0x82F6_3B78, 7, 3);
    DigitTable();
    FourBits(0x82F6_3B78);
    FourBits(0x82F6_3B7);
    FourBits(0x8);
  }

  lemma ShiftedBit(c: Word, i: nat)
    requires i < 31
    ensures Shift(c)[i] == (c[i + 1] != (c[0] && POLY[i]))
  {
  }

  /** A register of ones does not come back after a zero byte: its bit 30, followed down from bit 6, is off. */
  lemma EightShiftsOfOnes()
    ensures !ShiftN(ALL_ONES, 8)[30]
  {
    hide Shift;
    PolyBits();
    var c1 := Shift(ALL_ONES);
    var c2 := Shift(c1);
    var c3 := Shift(c2);
    var c6 := Shift(Shift(Shift(c3)));
    ShiftedBit(ALL_ONES, 0); ShiftedBit(ALL_ONES, 1); ShiftedBit(ALL_ONES, 5);
    ShiftedBit(c1, 0); ShiftedBit(c1, 4);
    ShiftedBit(c2, 3);
    assert !c3[3];
    ShiftedBit(c3, 2); ShiftedBit(Shift(c3), 1); ShiftedBit(Shift(Shift(c3)), 0);
    assert !c6[0];
    ShiftedLast(c6);
    ShiftedBit(Shift(c6), 30);
    assert ShiftN(c6, 2) == Shift(Shift(c6)) by { assert ShiftN(Shift(c6), 1) == ShiftN(Shift(Shift(c6)), 0); }
    assert ShiftN(c3, 5) == ShiftN(Shift(c3), 4) == ShiftN(Shift(Shift(c3)), 3) == ShiftN(c6, 2);
    assert ShiftN(ALL_ONES, 8) == ShiftN(c1, 7) == ShiftN(c2, 6) == ShiftN(c3, 5);
  }

  lemma ShiftedLast(c: Word)
    ensures Shift(c)[31] == c[0]
  {
    PolyBits();
  }

  /** Leading zero bytes are counted: one more of them always changes the checksum. */
  lemma LeadingZeroDetected(data: Str)
    ensures Crc([0] + data) != Crc(data)
  {
    hide Feed, Bits, Shift, ShiftN, Crc;
    if Crc([0] + data) == Crc(data) {
      CrcDeterminesRegister([0] + data, data);
      BitsConcat([0], data);
      FeedConcat(ALL_ONES, Bits([0]), Bits(data));
      FeedInjective(Feed(ALL_ONES, Bits([0])), ALL_ONES, Bits(data));
      ZeroByteBits();
      FeedIsShiftedXor(ALL_ONES, Zeros(8));
      assert Xor(ALL_ONES, Pad(Zeros(8))) == ALL_ONES;
      EightShiftsOfOnes();
    }
  }

  lemma ZeroByteBits()
    ensures Bits([0]) == Zeros(8)
  {
    hide BitsOf, Bits;
    BitsCons([0]);
    NoBits();
    forall j | 0 <= j < 8
      ensures BitsOf(0, 8)[j] == false
    {
      BitsOfAreBits(0, 8, j);
      ZeroHasNoBits(j);
    }
    assert BitsOf(0, 8) + [] == Zeros(8);
  }

  lemma {:induction false} ZeroHasNoBits(i: nat)
    ensures !Bit(0, i)
  {
    if i > 0 { ZeroHasNoBits(i - 1); }
  }

  // ---------------------------------------------------------------------------
  // Error detection.

  lemma ShiftInjective(a: Word, b: Word)
    requires Shift(a) == Shift(b)
    ensures a == b
  {
    PolyBits();
    assert Shift(a)[31] == a[0] && Shift(b)[31] == b[0];
    forall i | 0 <= i < 32
      ensures a[i] == b[i]
    {
      if i > 0 {
        assert Shift(a)[i - 1] == (a[i] != (a[0] && POLY[i - 1]));
        assert Shift(b)[i - 1] == (b[i] != (b[0] && POLY[i - 1]));
      }
    }
  }

  lemma XorInjective(a: seq<bool>, b: seq<bool>, x: seq<bool>)
    requires |a| == |b| == |x|
    requires Xor(x, a) == Xor(x, b)
    ensures a == b
  {
    forall i | 0 <= i < |a|
      ensures a[i] == b[i]
    {
      assert Xor(x, a)[i] == Xor(x, b)[i];
    }
  }

  lemma {:induction false} ShiftNInjective(a: Word, b: Word, n: nat)
    requires ShiftN(a, n) == ShiftN(b, n)
    ensures a == b
    decreases n
  {
    if n > 0 {
      ShiftNInjective(Shift(a), Shift(b), n - 1);
      ShiftInjective(a, b);
    }
  }

  /** The same bits fed into different registers leave them different. */
  lemma {:induction false} FeedInjective(a: Word, b: Word, bits: seq<bool>)
    requires Feed(a, bits) == Feed(b, bits)
    ensures a == b
    decreases bits
  {
    if bits != [] {
      var a', b' := a[0 := a[0] != bits[0]], b[0 := b[0] != bits[0]];
      FeedInjective(Shift(a'), Shift(b'), bits[1..]);
      ShiftInjective(a', b');
      assert a[0] == b[0] && a == a'[0 := a[0]] && b == b'[0 := b[0]];
    }
  }

  /** Bit strings that agree outside a window of at most 32 bits and drive the register to one end agree inside it. */
  lemma WindowDetermined(c: Word, head: seq<bool>, x: seq<bool>, y: seq<bool>, tail: seq<bool>)
    requires |x| == |y| <= 32
    requires Feed(c, head + x + tail) == Feed(c, head + y + tail)
    ensures x == y
  {
    var s := Feed(c, head);
    FeedConcat(c, head + x, tail);
    FeedConcat(c, head + y, tail);
    FeedConcat(c, head, x);
    FeedConcat(c, head, y);
    FeedInjective(Feed(s, x), Feed(s, y), tail);
    FeedIsShiftedXor(s, x);
    FeedIsShiftedXor(s, y);
    ShiftNInjective(Xor(s, Pad(x)), Xor(s, Pad(y)), |x|);
    XorInjective(Pad(x), Pad(y), s);
    assert x == Pad(x)[..|x|];
    assert y == Pad(y)[..|x|];
  }

  lemma CrcDeterminesRegister(a: Str, b: Str)
    requires Crc(a) == Crc(b)
    ensures Feed(ALL_ONES, Bits(a)) == Feed(ALL_ONES, Bits(b))
  {
    XorTwice(Feed(ALL_ONES, Bits(a)), ALL_ONES);
    XorTwice(Feed(ALL_ONES, Bits(b)), ALL_ONES);
  }

  lemma {:induction false} BitsInjective(a: Str, b: Str)
    requires |a| == |b| && Bits(a) == Bits(b)
    ensures a == b
  {
    if a != [] {
      assert Bits(a)[..8] == BitsOf(a[0], 8) && Bits(b)[..8] == BitsOf(b[0], 8);
      assert Bits(a)[8..] == Bits(a[1..]) && Bits(b)[8..] == Bits(b[1..]);
      Power2Of8();
      NatOfBitsOf(a[0], 8);
      NatOfBitsOf(b[0], 8);
      BitsInjective(a[1..], b[1..]);
      assert a == [a[0]] + a[1..] && b == [b[0]] + b[1..];
    }
  }

  /** Two different messages of one length that agree outside the 32 bits from bit `from` on. */
  ghost predicate DifferInBurst(a: Str, b: Str, from: nat)
  {
    && |a| == |b| && a != b
    && forall i :: 0 <= i < |Bits(a)| && !(from <= i < from + 32) ==> Bits(a)[i] == Bits(b)[i]
  }

  /** Any error burst of at most 32 bits, wherever it starts, changes the checksum. */
  lemma BurstDetected(a: Str, b: Str, from: nat)
    requires DifferInBurst(a, b, from)
    ensures Crc(a) != Crc(b)
  {
    hide Feed, Bits, Crc;
    if Crc(a) == Crc(b) {
      var x, y := Bits(a), Bits(b);
      var lo := if from < |x| then from else |x|;
      var hi := if from + 32 < |x| then from + 32 else |x|;
      var head, u, v, tail := x[..lo], x[lo..hi], y[lo..hi], x[hi..];
      assert x == head + u + tail;
      assert y == head + v + tail;
      CrcDeterminesRegister(a, b);
      WindowDetermined(ALL_ONES, head, u, v, tail);
      BitsInjective(a, b);
    }
  }

  /** A change inside four consecutive bytes is such a burst. */
  lemma FourByteChangeDetected(head: Str, x: Str, y: Str, tail: Str)
    requires |x| == |y| <= 4 && x != y
    ensures Crc(head + x + tail) != Crc(head + y + tail)
  {
    hide Feed, Bits, Crc;
    if Crc(head + x + tail) == Crc(head + y + tail) {
      CrcDeterminesRegister(head + x + tail, head + y + tail);
      BitsConcat(head + x, tail);
      BitsConcat(head, x);
      BitsConcat(head + y, tail);
      BitsConcat(head, y);
      WindowDetermined(ALL_ONES, Bits(head), Bits(x), Bits(y), Bits(tail));
      BitsInjective(x, y);
    }
  }

  // ---------------------------------------------------------------------------
  // The checksum as four bytes of a file.

  /** `file_->write(&crc, 4)` on a little-endian machine. */
  function ToBytes(c: Word): (s: Str)
    ensures |s| == 4
  {
    BitsOfNatOf(c[..8]); BitsOfNatOf(c[8..16]); BitsOfNatOf(c[16..24]); BitsOfNatOf(c[24..]); Power2Of8();
    [NatOf(c[..8]), NatOf(c[8..16]), NatOf(c[16..24]), NatOf(c[24..])]
  }

  lemma ToBytesRoundTrip(c: Word)
    ensures Bits(ToBytes(c)) == c
  {
    hide BitsOf, NatOf, Bits;
    BitsOfNatOf(c[..8]); BitsOfNatOf(c[8..16]); BitsOfNatOf(c[16..24]); BitsOfNatOf(c[24..]);
    var s := ToBytes(c);
    BitsCons(s);
    BitsCons(s[1..]);
    BitsCons(s[2..]);
    BitsCons(s[3..]);
    NoBits();
    assert s[1..][1..] == s[2..] && s[2..][1..] == s[3..] && s[3..][1..] == [];
    assert c == c[..8] + (c[8..16] + (c[16..24] + (c[24..] + [])));
  }
}
