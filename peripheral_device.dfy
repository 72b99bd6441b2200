/** Machine/Peripherals/Device.cs: version 4 and version 7 identifiers
    returned as the signed Int128 that BinaryPrimitives.ReadInt128BigEndian
    reads from their bytes. */
module PeripheralDevice {
  import opened Uuid

  /** GUIDv4 as a number: the random bytes at their big-endian positions,
      with version 4 stamped over bits 76-79 and variant `10` over bits
      62-63 (the low bits of bytes 6 and 8 stay random); the sign
      is the top bit of the first random byte. */
  method GuidV4(random: seq<Byte>) returns (n: int)
    requires |random| == 16
    ensures -TwoTo127 <= n < TwoTo127
    ensures n % TwoTo128 / 0x1000_0000_0000_0000_0000 % 16 == 4
    ensures n % TwoTo128 / 0x4000_0000_0000_0000 % 4 == 2
    ensures forall k :: 0 <= k < 16 && k != 6 && k != 8 ==> ByteOf(n, k) == random[k]
    ensures ByteOf(n, 6) == StampVersion(random[6], 4) && ByteOf(n, 8) == StampVariant(random[8])
    ensures n < 0 <==> random[0] >= 0x80
  {
    var bytes := Version4Bytes(random);
    n := Int128Of(bytes);
    Int128Fields(bytes);
    Int128Bytes(bytes);
  }

  /** GUIDv7 as a number: the top 48 bits are the low 48 bits of the ship
      time, so the number is negative exactly when bit 47 of the ship time
      is set; version 7 in bits 76-79, variant `10` in bits 62-63, and the
      random bytes everywhere else, including under the stamps. */
  method GuidV7(random: seq<Byte>, shipTime: int) returns (n: int)
    requires |random| == 10
    ensures -TwoTo127 <= n < TwoTo127
    ensures n % TwoTo128 / 0x1_0000_0000_0000_0000_0000 == shipTime % TwoTo48
    ensures n < 0 <==> shipTime % TwoTo48 >= 0x8000_0000_0000
    ensures n % TwoTo128 / 0x1000_0000_0000_0000_0000 % 16 == 7
    ensures n % TwoTo128 / 0x4000_0000_0000_0000 % 4 == 2
    ensures ByteOf(n, 6) == StampVersion(random[0], 7) && ByteOf(n, 8) == StampVariant(random[2])
    ensures ByteOf(n, 7) == random[1]
    ensures forall k :: 9 <= k < 16 ==> ByteOf(n, k) == random[k - 6]
  {
    var bytes := Version7Bytes(random, shipTime);
    n := Int128Of(bytes);
    Int128Fields(bytes);
    Int128Bytes(bytes);
    LeadingBit(bytes[..6]);
    assert forall k :: 9 <= k < 16 ==> bytes[k] == bytes[9..][k - 9];
  }

  /** The top bit of the first byte is the top bit of the big-endian number. */
  lemma LeadingBit(s: seq<Byte>)
    requires |s| == 6
    ensures BigEndian(s) >= 0x8000_0000_0000 <==> s[0] >= 0x80
  {
    var p := Pow256(5);
    BigEndianSplit(s, 1);
    assert s[..1][..0] == [];
    assert BigEndian(s[..1]) == s[0];
    Powers();
    assert 0x8000_0000_0000 == 128 * p;
    DigitCompare(s[0], p, BigEndian(s[1..]), 128);
  }
}
