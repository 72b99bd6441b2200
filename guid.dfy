/** System/Utils/GUID.cs: an identifier object over 16 bytes, made as
    version 4 (random), version 7 (ship time and random) or version 8 (four
    caller fields and random), and read back as a number, as hex text, as a
    copy of the bytes, or field by field. */
module Guid {
  import opened Wrappers
  import opened Uuid

  /** The bytes are private, never reassigned, and only copies leave the
      object, so an identifier is a value. */
  datatype Guid = Guid(bytes: Block)
  {
    /** BinaryPrimitives.ReadInt128BigEndian over the bytes: a signed Int128
        whose 128-bit pattern is the bytes read big-endian, negative exactly
        when byte 0 has its top bit set. */
    function ToUInt(): (r: int)
      ensures -TwoTo127 <= r < TwoTo127
      ensures r % TwoTo128 == BigEndian(bytes)
      ensures r < 0 <==> bytes[0] >= 0x80
    {
      Int128Of(bytes)
    }

    /** 8-4-4-4-12 lower-case hex text, which gives the bytes back. */
    function ToHex(): (r: string)
      ensures |r| == 36
      ensures ParseHyphenated(r) == Some(bytes)
    {
      HyphenatedLayout(bytes);
      ParseHyphenatedRoundTrip(bytes);
      Hyphenated(bytes)
    }

    /** The string form is the hex text. */
    function ToString(): (r: string)
      ensures ParseHyphenated(r) == Some(bytes)
    {
      ToHex()
    }

    /** A fresh copy of the bytes: writing to it leaves the identifier as it is. */
    method ToByteArray() returns (a: array<Byte>)
      ensures fresh(a) && a[..] == bytes
    {
      a := new Byte[16](k requires 0 <= k < 16 => bytes[k]);
    }

    /** `(_bytes[6] >> 4) & 0x0F`: the high nibble of byte 6. */
    function Version(): (r: int)
      ensures 0 <= r < 16
    {
      bytes[6] / 0x10 % 0x10
    }

    /** `_bytes[8] >> 6`: the top two bits of byte 8. */
    function Variant(): (r: int)
      ensures 0 <= r < 4
    {
      bytes[8] / 0x40
    }

    /** ReadUInt32BigEndian over bytes 0-3. */
    function High(): (r: UInt32)
    {
      BigEndianBound(bytes[..4]);
      Powers();
      BigEndian(bytes[..4])
    }

    /** ReadUInt16BigEndian over bytes 4-5. */
    function Low(): (r: UInt16)
    {
      BigEndianBound(bytes[4..6]);
      Powers();
      BigEndian(bytes[4..6])
    }

    function Family(): Byte
    {
      bytes[7]
    }

    function Node(): Byte
    {
      bytes[9]
    }

    /** The `{b:x2}` items of bytes 0-3. */
    function HighHex(): string
    {
      HexOf(bytes[..4])
    }

    /** The `{b:x2}` items of bytes 4-5. */
    function LowHex(): string
    {
      HexOf(bytes[4..6])
    }

    function FamilyHex(): string
    {
      Hex2(bytes[7])
    }

    function NodeHex(): string
    {
      Hex2(bytes[9])
    }
  }

  /** Every byte reads back from the number at its big-endian position;
      in particular Family is bits 64-71 and Node bits 48-55. */
  lemma NumberBytes(g: Guid)
    ensures forall k :: 0 <= k < 16 ==> ByteOf(g.ToUInt(), k) == g.bytes[k]
    ensures ByteOf(g.ToUInt(), 7) == g.Family() && ByteOf(g.ToUInt(), 9) == g.Node()
  {
    Int128Bytes(g.bytes);
  }

  /** The version is bits 76-79 of the number and the variant bits 62-63. */
  lemma NumberFields(g: Guid)
    ensures g.ToUInt() % TwoTo128 / 0x1000_0000_0000_0000_0000 % 16 == g.Version()
    ensures g.ToUInt() % TwoTo128 / 0x4000_0000_0000_0000 % 4 == g.Variant()
  {
    Int128Fields(g.bytes);
  }

  /** High and Low make the top 48 bits of the number. */
  lemma NumberTop(g: Guid)
    ensures g.High() * 0x1_0000 + g.Low() == g.ToUInt() % TwoTo128 / 0x1_0000_0000_0000_0000_0000
  {
    var b := g.bytes;
    Int128Fields(b);
    var top := b[..6];
    BigEndianSplit(top, 4);
    Powers();
    assert top[..4] == b[..4] && top[4..] == b[4..6];
  }

  /** HighHex and LowHex are the first two groups of the text. */
  lemma TextGroups(g: Guid)
    ensures g.HighHex() == g.ToHex()[..8] && g.LowHex() == g.ToHex()[9..13]
  {
    HyphenatedLayout(g.bytes);
  }

  /** FamilyHex is the last two digits of the third group of the text, and
      the version is the first digit of that group. */
  lemma TextFamily(g: Guid)
    ensures g.FamilyHex() == g.ToHex()[16..18] && g.ToHex()[14] == HexDigit(g.Version())
  {
    var b := g.bytes;
    HyphenatedLayout(b);
    HexPair(b[6..8]);
    SecondPair(g.ToHex(), 14, Hex2(b[6]), Hex2(b[7]));
    HighNibble(b[6]);
  }

  /** The high nibble of a byte is already below 16. */
  lemma HighNibble(x: Byte)
    ensures x / 16 % 16 == x / 16
  {
    QuotientBound(x, 16, 16);
    DivMulAdd(0, 16, x / 16);
  }

  /** NodeHex is the last two digits of the fourth group of the text. */
  lemma TextNode(g: Guid)
    ensures g.NodeHex() == g.ToHex()[21..23]
  {
    var b := g.bytes;
    HyphenatedLayout(b);
    HexPair(b[8..10]);
    SecondPair(g.ToHex(), 19, Hex2(b[8]), Hex2(b[9]));
  }

  /** Where four characters are two pairs, the first character opens the
      first pair and the last two are the second pair. */
  lemma SecondPair(t: string, i: nat, p: string, q: string)
    requires i + 4 <= |t| && |p| == 2 && |q| == 2 && t[i..i + 4] == p + q
    ensures t[i] == p[0] && t[i + 2..i + 4] == q
  {
    assert t[i] == t[i..i + 4][0];
    assert t[i + 2..i + 4] == t[i..i + 4][2..];
  }

  /** Each hex accessor spells its field. */
  lemma TextValues(g: Guid)
    ensures HexValue(g.HighHex()) == g.High() && HexValue(g.LowHex()) == g.Low()
    ensures HexValue(g.FamilyHex()) == g.Family() && HexValue(g.NodeHex()) == g.Node()
  {
    HexOfValue(g.bytes[..4]);
    HexOfValue(g.bytes[4..6]);
    HexByteValue(g.bytes[7]);
    HexByteValue(g.bytes[9]);
  }

  /** The text of two bytes is their two `{b:x2}` items. */
  lemma HexPair(s: seq<Byte>)
    requires |s| == 2
    ensures HexOf(s) == Hex2(s[0]) + Hex2(s[1])
  {
    assert s[..1][..0] == [];
    assert s[..1] == [s[0]];
  }

  /** Two hex digits spell their byte. */
  lemma HexByteValue(x: Byte)
    ensures HexValue(Hex2(x)) == x
  {
    assert [x][..0] == [];
    HexOfValue([x]);
    assert HexOf([x]) == Hex2(x);
  }

  /** GUID.V4: sixteen random bytes with version 4 and variant `10`
      stamped in, every other bit kept. */
  method V4(random: seq<Byte>) returns (g: Guid)
    requires |random| == 16
    ensures g.Version() == 4 && g.Variant() == 2
    ensures g.bytes[6] % 0x10 == random[6] % 0x10 && g.bytes[8] % 0x40 == random[8] % 0x40
    ensures forall k :: 0 <= k < 16 && k != 6 && k != 8 ==> g.bytes[k] == random[k]
  {
    var bytes := Version4Bytes(random);
    g := Guid(bytes);
  }

  /** GUID.V7: the low 48 bits of the ship time big-endian in bytes 0-5 (so
      the top 48 bits of the number), ten random bytes after them, version 7
      and variant `10`. */
  method V7(random: seq<Byte>, shipTime: int) returns (g: Guid)
    requires |random| == 10
    ensures BigEndian(g.bytes[..6]) == shipTime % TwoTo48
    ensures g.ToUInt() % TwoTo128 / 0x1_0000_0000_0000_0000_0000 == shipTime % TwoTo48
    ensures g.Version() == 7 && g.Variant() == 2
    ensures g.bytes[6] % 0x10 == random[0] % 0x10 && g.bytes[8] % 0x40 == random[2] % 0x40
    ensures g.bytes[7] == random[1] && g.bytes[9..] == random[3..]
  {
    var bytes := Version7Bytes(random, shipTime);
    g := Guid(bytes);
    Int128Fields(bytes);
  }

  /** GUID.V8: `high` and `low` big-endian in bytes 0-5, version 8 over a
      zero byte 6, `family` in byte 7, variant `10` over a zero byte 8,
      `node` in byte 9 and six random bytes after; the accessors read the
      four fields back. */
  method V8(random: seq<Byte>, high: UInt32, low: UInt16, family: Byte, node: Byte) returns (g: Guid)
    requires |random| == 6
    ensures g.High() == high && g.Low() == low && g.Family() == family && g.Node() == node
    ensures g.Version() == 8 && g.Variant() == 2
    ensures g.bytes[6] == 0x80 && g.bytes[8] == 0x80 && g.bytes[10..] == random
  {
    var bytes := new Byte[16](_ => 0);
    bytes[0] := LowByte(high / 0x100_0000);
    bytes[1] := LowByte(high / 0x1_0000);
    bytes[2] := LowByte(high / 0x100);
    bytes[3] := LowByte(high);
    bytes[4] := LowByte(low / 0x100);
    bytes[5] := LowByte(low);
    bytes[6] := StampVersion(bytes[6], 8);
    bytes[7] := family;
    bytes[8] := StampVariant(bytes[8]);
    bytes[9] := node;
    ghost var fields := bytes[..10];
    assert fields == V8Prefix(high, low, family, node);
    forall k | 10 <= k < 16 {
      bytes[k] := random[k - 10];
    }
    assert bytes[..10] == fields;
    g := Guid(bytes[..]);
    V8Fields(g, random, high, low, family, node);
  }

  /** The ten bytes V8 writes before the random ones. */
  function V8Prefix(high: UInt32, low: UInt16, family: Byte, node: Byte): seq<Byte>
  {
    [LowByte(high / 0x100_0000), LowByte(high / 0x1_0000), LowByte(high / 0x100), LowByte(high),
     LowByte(low / 0x100), LowByte(low), StampVersion(0, 8), family, StampVariant(0), node]
  }

  /** The bytes V8 writes hold the fields it was given. */
  lemma V8Fields(g: Guid, random: seq<Byte>, high: UInt32, low: UInt16, family: Byte, node: Byte)
    requires g.bytes[..10] == V8Prefix(high, low, family, node) && g.bytes[10..] == random
    ensures g.High() == high && g.Low() == low && g.Family() == family && g.Node() == node
    ensures g.Version() == 8 && g.Variant() == 2
    ensures g.bytes[6] == 0x80 && g.bytes[8] == 0x80
  {
    var p := V8Prefix(high, low, family, node);
    assert g.bytes[..4] == p[..4];
    assert g.bytes[4..6] == p[4..6];
    V8High(g, high);
    V8Low(g, low);
    assert g.bytes[6] == p[6] && g.bytes[8] == p[8];
  }

  /** Bytes 0-3 written from `high` read back as `high`. */
  lemma V8High(g: Guid, high: UInt32)
    requires g.bytes[..4] == [LowByte(high / 0x100_0000), LowByte(high / 0x1_0000), LowByte(high / 0x100), LowByte(high)]
    ensures g.High() == high
  {
    Octets4(high);
  }

  /** Bytes 4-5 written from `low` read back as `low`. */
  lemma V8Low(g: Guid, low: UInt16)
    requires g.bytes[4..6] == [LowByte(low / 0x100), LowByte(low)]
    ensures g.Low() == low
  {
    Octets2(low);
  }
}
