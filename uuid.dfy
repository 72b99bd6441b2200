/** The 16-byte identifier layout shared by System/Utils/GUID.cs,
    Machine/Peripherals/GUID.cs and Machine/Peripherals/Device.cs, after
    RFC 9562: the version nibble and the variant bits stamped into bytes 6 and
    8 (sections 4.1 and 4.2), the big-endian timestamp prefix of version 7
    (section 5.7), the 8-4-4-4-12 lower-case hex text (section 4) and the
    big-endian readings of the bytes as numbers. */
module Uuid {
  import opened Wrappers

  /** A C# `byte`. The masks and shifts the source applies to bytes are
      written as the equivalent arithmetic on 0..255: `b & 0x0F` is
      `b % 0x10`, `b >> 4` is `b / 0x10`, and `x | y` is `x + y` where the
      two have no bit in common. */
  type Byte = x: int | 0 <= x < 0x100

  /** The 16 bytes of an identifier, in the order they are written out. */
  type Block = s: seq<Byte> | |s| == 16 witness seq(16, _ => 0)

  /** The C# `uint` and `ushort` arguments. */
  type UInt32 = x: int | 0 <= x < 0x1_0000_0000
  type UInt16 = x: int | 0 <= x < 0x1_0000

  const TwoTo48: int := 0x1_0000_0000_0000
  const TwoTo127: int := 0x8000_0000_0000_0000_0000_0000_0000_0000
  const TwoTo128: int := 0x1_0000_0000_0000_0000_0000_0000_0000_0000

  // ------------------------------------------------------------- Arithmetic

  function Pow256(n: nat): (r: nat)
    ensures r > 0
  {
    if n == 0 then 1 else 256 * Pow256(n - 1)
  }

  /** The powers of 256 that the byte positions of a 16-byte block use. */
  lemma Powers()
    ensures Pow256(1) == 0x100 && Pow256(2) == 0x1_0000 && Pow256(3) == 0x100_0000
    ensures Pow256(4) == 0x1_0000_0000 && Pow256(5) == 0x100_0000_0000 && Pow256(6) == TwoTo48
    ensures Pow256(7) == 0x100_0000_0000_0000 && Pow256(9) == 0x100_0000_0000_0000_0000
    ensures Pow256(10) == 0x1_0000_0000_0000_0000_0000
    ensures Pow256(15) * 128 == TwoTo127 && Pow256(16) == TwoTo128
  {
    assert Pow256(1) == 0x100;
    assert Pow256(2) == 0x1_0000;
    assert Pow256(3) == 0x100_0000;
    assert Pow256(4) == 0x1_0000_0000;
    assert Pow256(5) == 0x100_0000_0000;
    assert Pow256(6) == 0x1_0000_0000_0000;
    assert Pow256(7) == 0x100_0000_0000_0000;
    assert Pow256(8) == 0x1_0000_0000_0000_0000;
    assert Pow256(9) == 0x100_0000_0000_0000_0000;
    assert Pow256(10) == 0x1_0000_0000_0000_0000_0000;
    assert Pow256(11) == 0x100_0000_0000_0000_0000_0000;
    assert Pow256(12) == 0x1_0000_0000_0000_0000_0000_0000;
    assert Pow256(13) == 0x100_0000_0000_0000_0000_0000_0000;
    assert Pow256(14) == 0x1_0000_0000_0000_0000_0000_0000_0000;
    assert Pow256(15) == 0x100_0000_0000_0000_0000_0000_0000_0000;
    assert Pow256(16) == 0x1_0000_0000_0000_0000_0000_0000_0000_0000;
  }

  /** Division with remainder is unique. */
  lemma DivMulAdd(q: int, p: int, r: int)
    requires p > 0 && 0 <= r < p
    ensures (q * p + r) / p == q && (q * p + r) % p == r
  {
    var a := q * p + r;
    var d := q - a / p;
    assert d * p == a % p - r;
    MulAwayFromZero(d, p);
  }

  /** Dividing by d and then by m is dividing by d * m, and the remainder
      of x / d modulo m is the remainder of x modulo d * m, divided by d. */
  lemma DivDiv(x: int, d: int, m: int)
    requires d > 0 && m > 0
    ensures x / d / m == x / (d * m)
    ensures x / d % m == x % (d * m) / d
  {
    var q, r := x / (d * m), x % (d * m);
    DivSplit(x, d, m);
    QuotientBound(r, d, m);
    DivMulAdd(q, m, r / d);
  }

  /** x / d in terms of the quotient and remainder of x by d * m. */
  lemma DivSplit(x: int, d: int, m: int)
    requires d > 0 && m > 0
    ensures x / d == x / (d * m) * m + x % (d * m) / d
  {
    var q, r := x / (d * m), x % (d * m);
    var j := r / d;
    assert x == (d * m) * q + r;
    assert r == d * j + r % d;
    assert (q * m + j) * d == (d * m) * q + d * j;
    assert x == (q * m + j) * d + r % d;
    DivMulAdd(q * m + j, d, r % d);
  }

  /** Something below d * m has fewer than m multiples of d. */
  lemma QuotientBound(r: int, d: int, m: int)
    requires d > 0 && 0 <= r < d * m
    ensures r / d < m
  {
    var j := r / d;
    assert d * j <= r;
    MulAwayFromZero(j - m + 1, d);
    assert d * j - d * m + d == (j - m + 1) * d;
  }

  /** A leading digit decides a comparison with a multiple of its weight. */
  lemma DigitCompare(x: int, p: int, rest: int, c: int)
    requires p > 0 && 0 <= rest < p
    ensures x * p + rest >= c * p <==> x >= c
  {
    MulAwayFromZero(x - c, p);
    assert x * p - c * p == (x - c) * p;
  }

  /** Shifting a two-part number left by one more digit. */
  lemma Shift(hi: int, p: int, lo: int, x: int)
    ensures (hi * p + lo) * 256 + x == hi * (p * 256) + (lo * 256 + x)
  {
  }

  /** A byte appended in two hex digits is a byte appended. */
  lemma Nibbles(front: int, x: int)
    ensures (front * 16 + x / 16) * 16 + x % 16 == front * 256 + x
  {
    assert x == x / 16 * 16 + x % 16;
  }

  /** A non-zero multiple of p is at least p away from 0. */
  lemma {:induction false} MulAwayFromZero(d: int, p: int)
    requires p > 0
    ensures d > 0 ==> d * p >= p
    ensures d < 0 ==> d * p <= -p
    decreases if d < 0 then -d else d
  {
    if d > 1 {
      MulAwayFromZero(d - 1, p);
      assert d * p == (d - 1) * p + p;
    } else if d < -1 {
      MulAwayFromZero(d + 1, p);
      assert d * p == (d + 1) * p - p;
    }
  }

  /** The remainder modulo 256 * m is made of the remainder of t / 256
      modulo m and the remainder of t modulo 256. */
  lemma ModSplit256(t: int, m: int)
    requires m > 0
    ensures t % (256 * m) == (t / 256) % m * 256 + t % 256
  {
    var q, r, s := (t / 256) / m, (t / 256) % m, t % 256;
    assert t / 256 == q * m + r;
    assert t == 256 * (t / 256) + s;
    assert t == q * (256 * m) + (r * 256 + s);
    assert r * 256 + s < 256 * m by {
      assert r <= m - 1;
    }
    DivMulAdd(q, 256 * m, r * 256 + s);
  }

  // --------------------------------------------------------- Byte sequences

  /** (byte)v: the low eight bits of v's two's-complement pattern. */
  function LowByte(v: int): Byte
  {
    v % 0x100
  }

  /** The unsigned number the bytes spell, most significant first
      (BinaryPrimitives.ReadUInt32BigEndian, ReadUInt16BigEndian). */
  function BigEndian(s: seq<Byte>): nat
  {
    if s == [] then 0 else BigEndian(s[..|s| - 1]) * 256 + s[|s| - 1]
  }

  /** The last n bytes of t's two's-complement pattern, most significant
      first: (byte)(t >> 8 * (n - 1)), ..., (byte)(t >> 8), (byte)t. */
  function Octets(t: int, n: nat): (r: seq<Byte>)
    ensures |r| == n
    decreases n
  {
    if n == 0 then [] else Octets(t / 256, n - 1) + [LowByte(t)]
  }

  lemma {:induction false} BigEndianBound(s: seq<Byte>)
    ensures BigEndian(s) < Pow256(|s|)
    decreases |s|
  {
    if s != [] {
      BigEndianBound(s[..|s| - 1]);
    }
  }

  /** Big-endian reading of a concatenation: the first part is shifted left
      by the length of the second. */
  lemma {:induction false} BigEndianAppend(a: seq<Byte>, b: seq<Byte>)
    ensures BigEndian(a + b) == BigEndian(a) * Pow256(|b|) + BigEndian(b)
    decreases |b|
  {
    if b == [] {
      assert a + b == a;
    } else {
      var b' := b[..|b| - 1];
      assert (a + b)[..|a + b| - 1] == a + b';
      BigEndianAppend(a, b');
      var x, p := b[|b| - 1], Pow256(|b'|);
      assert BigEndian(a + b) == BigEndian(a + b') * 256 + x;
      assert BigEndian(b) == BigEndian(b') * 256 + x;
      assert Pow256(|b|) == p * 256;
      Shift(BigEndian(a), p, BigEndian(b'), x);
    }
  }

  /** Big-endian reading split after the first k bytes. */
  lemma BigEndianSplit(s: seq<Byte>, k: nat)
    requires k <= |s|
    ensures BigEndian(s) == BigEndian(s[..k]) * Pow256(|s| - k) + BigEndian(s[k..])
    ensures BigEndian(s[k..]) < Pow256(|s| - k)
  {
    var front, back := s[..k], s[k..];
    assert s == front + back;
    assert |back| == |s| - k;
    BigEndianAppend(front, back);
    BigEndianBound(back);
  }

  /** The last byte of some bytes is their big-endian value modulo 256. */
  lemma BigEndianLast(s: seq<Byte>)
    requires s != []
    ensures BigEndian(s) % 256 == s[|s| - 1]
    ensures BigEndian(s) / 256 == BigEndian(s[..|s| - 1])
  {
    DivMulAdd(BigEndian(s[..|s| - 1]), 256, s[|s| - 1]);
  }

  /** Byte k is read back from the big-endian number: it is the number shifted
      right by the bytes after it, modulo 256. */
  lemma ByteOfBigEndian(s: seq<Byte>, k: nat)
    requires k < |s|
    ensures BigEndian(s) / Pow256(|s| - 1 - k) % 256 == s[k]
    ensures BigEndian(s) / Pow256(|s| - 1 - k) == BigEndian(s[..k + 1])
  {
    BigEndianSplit(s, k + 1);
    DivMulAdd(BigEndian(s[..k + 1]), Pow256(|s| - 1 - k), BigEndian(s[k + 1..]));
    BigEndianLast(s[..k + 1]);
  }

  /** The n octets of t spell t modulo 256^n. */
  lemma {:induction false} OctetsValue(t: int, n: nat)
    ensures BigEndian(Octets(t, n)) == t % Pow256(n)
    decreases n
  {
    if n > 0 {
      var o := Octets(t, n);
      var m := Pow256(n - 1);
      assert o[..n - 1] == Octets(t / 256, n - 1);
      assert BigEndian(o) == BigEndian(Octets(t / 256, n - 1)) * 256 + t % 256;
      assert BigEndian(Octets(t / 256, n - 1)) == (t / 256) % m by {
        OctetsValue(t / 256, n - 1);
      }
      assert Pow256(n) == 256 * m;
      ModSplit256(t, m);
    }
  }

  /** Octet k of t is t shifted right by the octets after it, cast to a byte. */
  lemma {:induction false} OctetAt(t: int, n: nat, k: nat)
    requires k < n
    ensures Octets(t, n)[k] == LowByte(t / Pow256(n - 1 - k))
    decreases n
  {
    if k < n - 1 {
      OctetAt(t / 256, n - 1, k);
      DivDiv(t, 256, Pow256(n - 2 - k));
    }
  }

  /** Bytes filled with the shifted-and-cast octets of t spell t modulo
      256^n. */
  lemma OctetsRead(s: seq<Byte>, t: int)
    requires forall k :: 0 <= k < |s| ==> s[k] == LowByte(t / Pow256(|s| - 1 - k))
    ensures BigEndian(s) == t % Pow256(|s|)
  {
    var n := |s|;
    forall k | 0 <= k < n ensures Octets(t, n)[k] == s[k] {
      OctetAt(t, n, k);
    }
    assert Octets(t, n) == s;
    OctetsValue(t, n);
  }

  /** `(byte)(t >> 8)`, `(byte)t` spell the low 16 bits of t. */
  lemma Octets2(t: int)
    ensures BigEndian([LowByte(t / 0x100), LowByte(t)]) == t % 0x1_0000
  {
    var s := [LowByte(t / 0x100), LowByte(t)];
    Powers();
    assert Pow256(0) == 1;
    assert s[0] == LowByte(t / Pow256(1)) && s[1] == LowByte(t / Pow256(0));
    OctetsRead(s, t);
  }

  /** `(byte)(t >> 24)` down to `(byte)t` spell the low 32 bits of t. */
  lemma Octets4(t: int)
    ensures BigEndian([LowByte(t / 0x100_0000), LowByte(t / 0x1_0000), LowByte(t / 0x100), LowByte(t)]) == t % 0x1_0000_0000
  {
    var s := [LowByte(t / 0x100_0000), LowByte(t / 0x1_0000), LowByte(t / 0x100), LowByte(t)];
    Powers();
    assert Pow256(0) == 1;
    assert s[0] == LowByte(t / Pow256(3)) && s[1] == LowByte(t / Pow256(2));
    assert s[2] == LowByte(t / Pow256(1)) && s[3] == LowByte(t / Pow256(0));
    OctetsRead(s, t);
  }

  /** `(byte)(t >> 40)` down to `(byte)t` spell the low 48 bits of t. */
  lemma Octets6(t: int)
    ensures BigEndian([LowByte(t / 0x100_0000_0000), LowByte(t / 0x1_0000_0000), LowByte(t / 0x100_0000),
                       LowByte(t / 0x1_0000), LowByte(t / 0x100), LowByte(t)]) == t % TwoTo48
  {
    var s := [LowByte(t / 0x100_0000_0000), LowByte(t / 0x1_0000_0000), LowByte(t / 0x100_0000),
              LowByte(t / 0x1_0000), LowByte(t / 0x100), LowByte(t)];
    Powers();
    assert Pow256(0) == 1;
    assert s[0] == LowByte(t / Pow256(5)) && s[1] == LowByte(t / Pow256(4));
    assert s[2] == LowByte(t / Pow256(3)) && s[3] == LowByte(t / Pow256(2));
    assert s[4] == LowByte(t / Pow256(1)) && s[5] == LowByte(t / Pow256(0));
    OctetsRead(s, t);
  }

  // ------------------------------------------------- Version and variant

  /** `(b & 0x0F) | (version << 4)`: the version in the high nibble over the
      low nibble of b. */
  function StampVersion(b: Byte, version: int): (r: Byte)
    requires 0 <= version < 0x10
    ensures r / 0x10 == version && r % 0x10 == b % 0x10
  {
    b % 0x10 + version * 0x10
  }

  /** `(b & 0x3F) | 0x80`: the variant bits `10` over the low six bits of b. */
  function StampVariant(b: Byte): (r: Byte)
    ensures r / 0x40 == 2 && r % 0x40 == b % 0x40
    ensures 0x80 <= r < 0xC0
  {
    b % 0x40 + 0x80
  }

  // ---------------------------------------------------------------- Numbers

  /** The top bit of a 16-byte big-endian number is the top bit of byte 0. */
  lemma TopBit(b: Block)
    ensures BigEndian(b) < TwoTo128
    ensures BigEndian(b) >= TwoTo127 <==> b[0] >= 0x80
  {
    var p := Pow256(15);
    var rest := BigEndian(b[1..]);
    BigEndianSplit(b, 1);
    BigEndianBound(b);
    assert b[..1][..0] == [];
    assert BigEndian(b[..1]) == b[0];
    Powers();
    assert TwoTo127 == 128 * p;
    DigitCompare(b[0], p, rest, 128);
  }

  /** BinaryPrimitives.ReadInt128BigEndian: the 16 bytes as a two's-complement
      Int128, negative exactly when the top bit of byte 0 is set. */
  function Int128Of(b: Block): (r: int)
    ensures -TwoTo127 <= r < TwoTo127
    ensures r % TwoTo128 == BigEndian(b)
    ensures r < 0 <==> b[0] >= 0x80
  {
    var u := BigEndian(b);
    TopBit(b);
    if u >= TwoTo127 then u - TwoTo128 else u
  }

  /** Byte k (0 = most significant) of the 128-bit pattern of v. */
  function ByteOf(v: int, k: nat): int
    requires k < 16
  {
    v % TwoTo128 / Pow256(15 - k) % 256
  }

  /** Every byte reads back from the Int128 at its big-endian position. */
  lemma Int128Bytes(b: Block)
    ensures forall k :: 0 <= k < 16 ==> ByteOf(Int128Of(b), k) == b[k]
  {
    forall k | 0 <= k < 16 ensures ByteOf(Int128Of(b), k) == b[k] {
      ByteOfBigEndian(b, k);
    }
  }

  /** The version and variant fields of the Int128: bits 76-79 are the high
      nibble of byte 6 and bits 62-63 the top two bits of byte 8; the top 48
      bits are bytes 0-5. */
  lemma Int128Fields(b: Block)
    ensures Int128Of(b) % TwoTo128 / 0x1000_0000_0000_0000_0000 % 16 == b[6] / 16
    ensures Int128Of(b) % TwoTo128 / 0x4000_0000_0000_0000 % 4 == b[8] / 64
    ensures Int128Of(b) % TwoTo128 / 0x1_0000_0000_0000_0000_0000 == BigEndian(b[..6])
  {
    var u := BigEndian(b);
    assert Int128Of(b) % TwoTo128 == u;
    Powers();
    ByteOfBigEndian(b, 6);
    var x6 := u / 0x100_0000_0000_0000_0000;
    assert x6 % 256 == b[6];
    DivDiv(u, 0x100_0000_0000_0000_0000, 16);
    DivDiv(x6, 16, 16);
    ByteOfBigEndian(b, 8);
    var x8 := u / 0x100_0000_0000_0000;
    assert x8 % 256 == b[8];
    DivDiv(u, 0x100_0000_0000_0000, 64);
    DivDiv(x8, 64, 4);
    ByteOfBigEndian(b, 5);
    assert b[..6] == b[..5 + 1];
  }

  // ----------------------------------------------------------- Hexadecimal

  const HexDigits: string := "0123456789abcdef"

  /** The lower-case hex digit of a nibble. */
  function HexDigit(n: int): char
    requires 0 <= n < 16
  {
    HexDigits[n]
  }

  /** The value of a lower-case hex digit, None for any other character. */
  function DigitValue(c: char): (r: Option<int>)
    ensures r.Some? ==> 0 <= r.value < 16 && HexDigit(r.value) == c
  {
    if '0' <= c <= '9' then Some(c as int - '0' as int)
    else if 'a' <= c <= 'f' then Some(c as int - 'a' as int + 10)
    else None
  }

  /** Digits and values are inverse to each other. */
  lemma DigitRoundTrip(n: int)
    requires 0 <= n < 16
    ensures DigitValue(HexDigit(n)) == Some(n)
  {
  }

  /** The format item `{b:x2}`: two lower-case hex digits, high nibble first. */
  function Hex2(b: Byte): string
  {
    [HexDigit(b / 16), HexDigit(b % 16)]
  }

  /** The bytes as `{b:x2}` items one after another. */
  function HexOf(s: seq<Byte>): (r: string)
    ensures |r| == 2 * |s|
  {
    if s == [] then "" else HexOf(s[..|s| - 1]) + Hex2(s[|s| - 1])
  }

  /** Byte k of `s` is the pair of digits at 2k and 2k + 1. */
  lemma {:induction false} HexOfAt(s: seq<Byte>, k: nat)
    requires k < |s|
    ensures HexOf(s)[2 * k] == HexDigit(s[k] / 16)
    ensures HexOf(s)[2 * k + 1] == HexDigit(s[k] % 16)
    decreases |s|
  {
    if k < |s| - 1 {
      HexOfAt(s[..|s| - 1], k);
    }
  }

  /** The value of a string of hex digits, most significant first (0 for a
      character that is not a digit). */
  function HexValue(t: string): nat
  {
    if t == [] then 0
    else
      var d := DigitValue(t[|t| - 1]);
      HexValue(t[..|t| - 1]) * 16 + (if d.Some? then d.value else 0)
  }

  /** Appending the two digits of a byte shifts the value up by a byte. */
  lemma HexValueSnoc(a: string, x: Byte)
    ensures HexValue(a + Hex2(x)) == HexValue(a) * 256 + x
  {
    var h := a + Hex2(x);
    assert h[..|h| - 1] == a + [HexDigit(x / 16)];
    assert h[..|h| - 1][..|a|] == a;
    DigitRoundTrip(x / 16);
    DigitRoundTrip(x % 16);
    assert HexValue(h) == (HexValue(a) * 16 + x / 16) * 16 + x % 16;
    Nibbles(HexValue(a), x);
  }

  /** The hex text of some bytes has their big-endian value. */
  lemma {:induction false} HexOfValue(s: seq<Byte>)
    ensures HexValue(HexOf(s)) == BigEndian(s)
    decreases |s|
  {
    if s != [] {
      var s', x := s[..|s| - 1], s[|s| - 1];
      HexOfValue(s');
      assert HexOf(s) == HexOf(s') + Hex2(x);
      HexValueSnoc(HexOf(s'), x);
    }
  }

  /** The hex text of a concatenation is the concatenation of the texts. */
  lemma {:induction false} HexOfAppend(a: seq<Byte>, b: seq<Byte>)
    ensures HexOf(a + b) == HexOf(a) + HexOf(b)
    decreases |b|
  {
    if b != [] {
      assert (a + b)[..|a + b| - 1] == a + b[..|b| - 1];
      HexOfAppend(a, b[..|b| - 1]);
    } else {
      assert a + b == a;
    }
  }

  /** The byte with high nibble h and low nibble l. */
  function NibblesByte(h: int, l: int): (r: Byte)
    requires 0 <= h < 16 && 0 <= l < 16
    ensures r / 16 == h && r % 16 == l
  {
    DivMulAdd(h, 16, l);
    h * 16 + l
  }

  /** The byte spelled by two hex digits, high nibble first. */
  function PairValue(hi: char, lo: char): (r: Option<Byte>)
    ensures r.Some? ==> Hex2(r.value) == [hi, lo]
  {
    var h, l := DigitValue(hi), DigitValue(lo);
    if h.Some? && l.Some? then Some(NibblesByte(h.value, l.value)) else None
  }

  /** The text of some bytes followed by one more byte. */
  lemma HexOfSnoc(t: string, front: seq<Byte>, x: Byte)
    requires |t| >= 2 && HexOf(front) == t[..|t| - 2] && Hex2(x) == [t[|t| - 2], t[|t| - 1]]
    ensures HexOf(front + [x]) == t && 2 * |front + [x]| == |t|
  {
    var s := front + [x];
    assert s[..|s| - 1] == front;
    assert HexOf(s) == HexOf(front) + Hex2(x);
    assert t == t[..|t| - 2] + [t[|t| - 2], t[|t| - 1]];
  }

  /** Reads `{b:x2}` items back: None unless the text is pairs of lower-case
      hex digits. */
  function ParseHex(t: string): (r: Option<seq<Byte>>)
    ensures r.Some? ==> 2 * |r.value| == |t| && HexOf(r.value) == t
  {
    if t == [] then Some([])
    else if |t| == 1 then None
    else
      match (ParseHex(t[..|t| - 2]), PairValue(t[|t| - 2], t[|t| - 1]))
      case (Some(front), Some(x)) =>
        HexOfSnoc(t, front, x);
        Some(front + [x])
      case _ => None
  }

  /** One step of ParseHex: a parsed front and a last pair. */
  lemma ParseHexStep(t: string, front: seq<Byte>, x: Byte)
    requires |t| >= 2 && ParseHex(t[..|t| - 2]) == Some(front)
    requires PairValue(t[|t| - 2], t[|t| - 1]) == Some(x)
    ensures ParseHex(t) == Some(front + [x])
  {
  }

  /** The two digits of a byte spell it. */
  lemma PairRoundTrip(x: Byte)
    ensures PairValue(HexDigit(x / 16), HexDigit(x % 16)) == Some(x)
  {
    DigitRoundTrip(x / 16);
    DigitRoundTrip(x % 16);
  }

  /** Parsing the hex text of some bytes gives them back. */
  lemma {:induction false} HexRoundTrip(s: seq<Byte>)
    ensures ParseHex(HexOf(s)) == Some(s)
    decreases |s|
  {
    if s != [] {
      var s', x := s[..|s| - 1], s[|s| - 1];
      var h := HexOf(s);
      assert h == HexOf(s') + Hex2(x);
      assert h[..|h| - 2] == HexOf(s');
      HexRoundTrip(s');
      PairRoundTrip(x);
      ParseHexStep(h, s', x);
      assert s' + [x] == s;
    }
  }

  /** Section 4 of RFC 9562: the bytes in 8-4-4-4-12 hex groups joined by '-'. */
  function Hyphenated(b: Block): string
  {
    HexOf(b[..4]) + "-" + HexOf(b[4..6]) + "-" + HexOf(b[6..8]) + "-" + HexOf(b[8..10]) + "-" + HexOf(b[10..])
  }

  /** 36 characters, '-' at 8, 13, 18 and 23, and the five groups of hex
      digits in between. */
  lemma HyphenatedLayout(b: Block)
    ensures var t := Hyphenated(b);
      && |t| == 36 && t[8] == '-' && t[13] == '-' && t[18] == '-' && t[23] == '-'
      && t[..8] == HexOf(b[..4]) && t[9..13] == HexOf(b[4..6]) && t[14..18] == HexOf(b[6..8])
      && t[19..23] == HexOf(b[8..10]) && t[24..] == HexOf(b[10..])
  {
    var t := Hyphenated(b);
    var g0, g1, g2, g3, g4 := HexOf(b[..4]), HexOf(b[4..6]), HexOf(b[6..8]), HexOf(b[8..10]), HexOf(b[10..]);
    assert t == g0 + "-" + g1 + "-" + g2 + "-" + g3 + "-" + g4;
  }

  /** The digits of the hyphenated text with the four hyphens taken out. */
  function Digits(t: string): string
    requires |t| == 36
  {
    t[..8] + t[9..13] + t[14..18] + t[19..23] + t[24..]
  }

  /** Reads a hyphenated identifier back: 36 characters, '-' at the four
      separator positions and 32 lower-case hex digits in between. */
  function ParseHyphenated(t: string): (r: Option<Block>)
    ensures r.Some? ==> |t| == 36 && HexOf(r.value) == Digits(t)
  {
    if |t| == 36 && t[8] == '-' && t[13] == '-' && t[18] == '-' && t[23] == '-' then
      match ParseHex(Digits(t))
      case Some(b) => Some(b)
      case None => None
    else None
  }

  /** The hyphenated text determines the bytes: parsing it gives them back. */
  lemma ParseHyphenatedRoundTrip(b: Block)
    ensures ParseHyphenated(Hyphenated(b)) == Some(b)
  {
    var t := Hyphenated(b);
    HyphenatedLayout(b);
    HexOfAppend(b[..4], b[4..6]);
    HexOfAppend(b[..6], b[6..8]);
    HexOfAppend(b[..8], b[8..10]);
    HexOfAppend(b[..10], b[10..]);
    assert b[..4] + b[4..6] == b[..6] && b[..6] + b[6..8] == b[..8];
    assert b[..8] + b[8..10] == b[..10] && b[..10] + b[10..] == b;
    assert Digits(t) == HexOf(b);
    HexRoundTrip(b);
  }

  /** The version digit and the variant digit of the text: the first digits
      of its third and fourth groups. */
  lemma StampDigits(b: Block)
    ensures Hyphenated(b)[14] == HexDigit(b[6] / 16) && Hyphenated(b)[19] == HexDigit(b[8] / 16)
  {
    var t := Hyphenated(b);
    HyphenatedLayout(b);
    HexOfAt(b[6..8], 0);
    HexOfAt(b[8..10], 0);
    assert t[14] == t[14..18][0] && t[19] == t[19..23][0];
  }

  /** The first two groups of the text spell bytes 0-5. */
  lemma TimestampText(b: Block)
    ensures HexValue(Hyphenated(b)[..8] + Hyphenated(b)[9..13]) == BigEndian(b[..6])
  {
    HyphenatedLayout(b);
    HexOfAppend(b[..4], b[4..6]);
    assert b[..4] + b[4..6] == b[..6];
    HexOfValue(b[..6]);
  }

  // ------------------------------------------------------------- Generation

  /** The bytes of a version 4 identifier: sixteen bytes from the random
      source (`rng.NextBytes`), version 4 stamped into byte 6 and variant
      `10` into byte 8. */
  method Version4Bytes(random: seq<Byte>) returns (b: Block)
    requires |random| == 16
    ensures b[6] == StampVersion(random[6], 4) && b[8] == StampVariant(random[8])
    ensures forall k :: 0 <= k < 16 && k != 6 && k != 8 ==> b[k] == random[k]
  {
    var bytes := new Byte[16](_ => 0);
    forall k | 0 <= k < 16 {
      bytes[k] := random[k];
    }
    bytes[6] := StampVersion(bytes[6], 4);
    bytes[8] := StampVariant(bytes[8]);
    b := bytes[..];
  }

  /** The bytes of a version 7 identifier: the low 48 bits of the ship time
      big-endian in bytes 0-5, ten random bytes after them, then version 7
      and variant `10`. */
  method Version7Bytes(random: seq<Byte>, shipTime: int) returns (b: Block)
    requires |random| == 10
    ensures BigEndian(b[..6]) == shipTime % TwoTo48
    ensures b[6] == StampVersion(random[0], 7) && b[7] == random[1]
    ensures b[8] == StampVariant(random[2]) && b[9..] == random[3..]
  {
    var bytes := new Byte[16](_ => 0);
    bytes[0] := LowByte(shipTime / 0x100_0000_0000);
    bytes[1] := LowByte(shipTime / 0x1_0000_0000);
    bytes[2] := LowByte(shipTime / 0x100_0000);
    bytes[3] := LowByte(shipTime / 0x1_0000);
    bytes[4] := LowByte(shipTime / 0x100);
    bytes[5] := LowByte(shipTime);
    ghost var stamp := bytes[..6];
    forall k | 6 <= k < 16 {
      bytes[k] := random[k - 6];
    }
    bytes[6] := StampVersion(bytes[6], 7);
    bytes[8] := StampVariant(bytes[8]);
    assert bytes[..6] == stamp;
    assert bytes[9..] == random[3..];
    b := bytes[..];
    assert b[..6] == [LowByte(shipTime / 0x100_0000_0000), LowByte(shipTime / 0x1_0000_0000), LowByte(shipTime / 0x100_0000),
                      LowByte(shipTime / 0x1_0000), LowByte(shipTime / 0x100), LowByte(shipTime)];
    Octets6(shipTime);
  }
}
