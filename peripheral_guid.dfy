/** Machine/Peripherals/GUID.cs: identifiers produced directly as their
    8-4-4-4-12 hex text, from random bytes (version 4), from the ship time
    and random bytes (version 7), or from caller-supplied byte spans and
    random bytes (version 8). */
module PeripheralGuid {
  import opened Wrappers
  import opened Uuid

  /** BytesToGUID: the hyphenated lower-case hex text of the bytes, which
      reads back to them. */
  function BytesToGuid(bytes: Block): (r: string)
    ensures |r| == 36
    ensures ParseHyphenated(r) == Some(bytes)
  {
    HyphenatedLayout(bytes);
    ParseHyphenatedRoundTrip(bytes);
    Hyphenated(bytes)
  }

  /** GUIDv4: the text of sixteen random bytes with version 4 and variant
      `10` stamped in; its version digit is '4' and its variant digit one of
      '8', '9', 'a', 'b'. */
  method GuidV4(random: seq<Byte>) returns (s: string)
    requires |random| == 16
    ensures ParseHyphenated(s).Some?
    ensures var b := ParseHyphenated(s).value;
      && b[6] == StampVersion(random[6], 4) && b[8] == StampVariant(random[8])
      && forall k :: 0 <= k < 16 && k != 6 && k != 8 ==> b[k] == random[k]
    ensures s[14] == '4' && s[19] in {'8', '9', 'a', 'b'}
  {
    var bytes := Version4Bytes(random);
    s := BytesToGuid(bytes);
    StampDigits(bytes);
    VariantDigit(bytes[8]);
  }

  /** GUIDv7: the text of the version 7 bytes; its first twelve digits spell
      the low 48 bits of the ship time and its version digit is '7'. */
  method GuidV7(random: seq<Byte>, shipTime: int) returns (s: string)
    requires |random| == 10
    ensures ParseHyphenated(s).Some?
    ensures var b := ParseHyphenated(s).value;
      && BigEndian(b[..6]) == shipTime % TwoTo48
      && b[6] == StampVersion(random[0], 7) && b[7] == random[1]
      && b[8] == StampVariant(random[2]) && b[9..] == random[3..]
    ensures HexValue(s[..8] + s[9..13]) == shipTime % TwoTo48
    ensures s[14] == '7' && s[19] in {'8', '9', 'a', 'b'}
  {
    var bytes := Version7Bytes(random, shipTime);
    s := BytesToGuid(bytes);
    StampDigits(bytes);
    VariantDigit(bytes[8]);
    TimestampText(bytes);
  }

  /** GUIDv8: bytes 0-3 from `four`, 4-5 from `twoOne`, 6-7 from `twoTwo`
      and 8-9 from `twoThree`, six random bytes after, then version 8 and
      variant `10` stamped into bytes 6 and 8. A span shorter than the bytes
      taken from it makes the indexing throw: None. */
  method GuidV8(random: seq<Byte>, four: seq<Byte>, twoOne: seq<Byte>, twoTwo: seq<Byte>, twoThree: seq<Byte>)
    returns (r: Option<string>)
    requires |random| == 6
    ensures r.None? <==> |four| < 4 || |twoOne| < 2 || |twoTwo| < 2 || |twoThree| < 2
    ensures r.Some? ==> ParseHyphenated(r.value).Some?
    ensures r.Some? ==> var b := ParseHyphenated(r.value).value;
      && b[..4] == four[..4] && b[4..6] == twoOne[..2]
      && b[6] == StampVersion(twoTwo[0], 8) && b[7] == twoTwo[1]
      && b[8] == StampVariant(twoThree[0]) && b[9] == twoThree[1]
      && b[10..] == random
    ensures r.Some? ==> r.value[14] == '8' && r.value[19] in {'8', '9', 'a', 'b'}
  {
    if |four| < 4 || |twoOne| < 2 || |twoTwo| < 2 || |twoThree| < 2 {
      return None;
    }
    var b := Version8Bytes(random, four, twoOne, twoTwo, twoThree);
    r := Some(BytesToGuid(b));
    StampDigits(b);
    VariantDigit(b[8]);
  }

  /** The bytes GUIDv8 fills once every span is long enough. */
  method Version8Bytes(random: seq<Byte>, four: seq<Byte>, twoOne: seq<Byte>, twoTwo: seq<Byte>, twoThree: seq<Byte>)
    returns (b: Block)
    requires |random| == 6 && |four| >= 4 && |twoOne| >= 2 && |twoTwo| >= 2 && |twoThree| >= 2
    ensures b[..4] == four[..4] && b[4..6] == twoOne[..2]
    ensures b[6] == StampVersion(twoTwo[0], 8) && b[7] == twoTwo[1]
    ensures b[8] == StampVariant(twoThree[0]) && b[9] == twoThree[1]
    ensures b[10..] == random
  {
    var bytes := new Byte[16](_ => 0);
    bytes[0] := four[0];
    bytes[1] := four[1];
    bytes[2] := four[2];
    bytes[3] := four[3];
    bytes[4] := twoOne[0];
    bytes[5] := twoOne[1];
    bytes[6] := twoTwo[0];
    bytes[7] := twoTwo[1];
    bytes[8] := twoThree[0];
    bytes[9] := twoThree[1];
    ghost var fields := bytes[..6];
    assert fields[..4] == four[..4] && fields[4..] == twoOne[..2];
    forall k | 10 <= k < 16 {
      bytes[k] := random[k - 10];
    }
    bytes[6] := StampVersion(bytes[6], 8);
    bytes[8] := StampVariant(bytes[8]);
    assert bytes[..6] == fields;
    assert bytes[10..] == random;
    b := bytes[..];
    assert b[..4] == fields[..4] && b[4..6] == fields[4..];
  }

  /** A byte carrying variant `10` shows it as a first hex digit of 8, 9, a
      or b. */
  lemma VariantDigit(x: Byte)
    requires x / 0x40 == 2
    ensures HexDigit(x / 16) in {'8', '9', 'a', 'b'}
  {
    var d := x / 16;
    assert 8 <= d < 12 by {
      DivDiv(x, 16, 4);
      QuotientBound(x, 16, 16);
    }
  }
}
