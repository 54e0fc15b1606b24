/** Machine integers of the C sources, and the 4-byte big-endian CAN-ID prefix of every PDU. */
module Bytes {
  const TWO8 := 0x100
  const TWO16 := 0x1_0000
  const TWO32 := 0x1_0000_0000
  const TWO64 := 0x1_0000_0000_0000_0000

  type Byte = x: int | 0 <= x < TWO8
  type U16 = x: int | 0 <= x < TWO16
  type U32 = x: int | 0 <= x < TWO32
  type U64 = x: int | 0 <= x < TWO64

  datatype Option<+T> = None | Some(value: T)

  /** The four bytes the replay engine writes in front of a response. */
  function BigEndian(v: U32): (r: seq<Byte>)
    ensures |r| == 4
  {
    [v / 0x100_0000 % 0x100, v / 0x1_0000 % 0x100, v / 0x100 % 0x100, v % 0x100]
  }

  /** The 32-bit CAN-ID the replay engine reads from the first four request bytes. */
  function FromBigEndian(b: seq<Byte>): (v: U32)
    requires |b| >= 4
  {
    (b[0] as int) * 0x100_0000 + (b[1] as int) * 0x1_0000 + (b[2] as int) * 0x100 + b[3]
  }

  lemma BigEndianRoundTrip(v: U32)
    ensures FromBigEndian(BigEndian(v)) == v
  {
    var a, b, c := v / 0x100, v / 0x1_0000, v / 0x100_0000;
    assert v == a * 0x100 + v % 0x100;
    assert a == b * 0x100 + a % 0x100 by { DivideTwice(v, 0x100); }
    assert b == c * 0x100 + b % 0x100 by { DivideTwice(v, 0x1_0000); }
    assert c % 0x100 == c;
  }

  lemma DivideTwice(v: nat, d: nat)
    requires d == 0x100 || d == 0x1_0000
    ensures v / d / 0x100 == v / (d * 0x100)
  {
  }

  lemma FromBigEndianRoundTrip(b: seq<Byte>)
    requires |b| == 4
    ensures BigEndian(FromBigEndian(b)) == b
  {
    var v := FromBigEndian(b);
    assert v / 0x100 == (b[0] as int) * 0x1_0000 + (b[1] as int) * 0x100 + b[2];
    assert v / 0x1_0000 == (b[0] as int) * 0x100 + b[1];
    assert v / 0x100_0000 == b[0];
  }

  /** The two upper header bytes vanish exactly when the CAN-ID fits 16 bits. */
  lemma ShortIdHeader(b: seq<Byte>)
    requires |b| == 4
    ensures FromBigEndian(b) < TWO16 <==> b[0] == 0 && b[1] == 0
    ensures FromBigEndian(b) < TWO16 ==> FromBigEndian(b) == (b[2] as int) * 0x100 + b[3]
  {
  }
}
