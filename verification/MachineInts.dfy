/** The fixed-width C integers, and C's division, in terms of unbounded integers. */
module MachineInts {

  const TWO_TO_THE_31: int := 0x8000_0000
  const TWO_TO_THE_32: int := 0x1_0000_0000

  type Word = w: int | 0 <= w < TWO_TO_THE_32 witness 0
  type Byte = b: int | 0 <= b < 256 witness 0

  /** Conversions to 32-bit types wrap around. */
  function U32(v: int): Word {
    v % TWO_TO_THE_32
  }

  function S32(v: int): int {
    (v + TWO_TO_THE_31) % TWO_TO_THE_32 - TWO_TO_THE_31
  }

  function U8(v: int): Byte {
    v % 256
  }

  /** A byte read as an 8-bit signed number. */
  function S8(b: Byte): int {
    if b < 128 then b else b - 256
  }

  /** C's division truncates toward zero. */
  function TruncDiv(a: int, b: int): int
    requires b > 0
  {
    if a >= 0 then a / b else -((-a) / b)
  }

  lemma SignedBytes(v: int)
    requires -128 <= v < 128
    ensures S8(U8(v)) == v
  {
  }

  lemma InRange(v: int)
    requires -TWO_TO_THE_31 <= v < TWO_TO_THE_31
    ensures S32(v) == v
  {
  }

  lemma WrapOnce(x: int, v: int)
    ensures S32(S32(x) + v) == S32(x + v)
  {
    var q := (x + TWO_TO_THE_31) / TWO_TO_THE_32;
    assert S32(x) == x - q * TWO_TO_THE_32;
    var y := x + v + TWO_TO_THE_31;
    assert (y - q * TWO_TO_THE_32) % TWO_TO_THE_32 == y % TWO_TO_THE_32;
  }

  lemma SignedRange(v: int)
    ensures -TWO_TO_THE_31 <= S32(v) < TWO_TO_THE_31
  {
  }

  /** S32 differs from its argument by whole turns only, and truncating division from the quotient by
      less than one, toward zero. */
  lemma WholeTurns(v: int)
    ensures (v - S32(v)) % TWO_TO_THE_32 == 0
  {
  }

  lemma TowardZero(a: int, b: int)
    requires b > 0
    ensures a >= 0 ==> 0 <= a - b * TruncDiv(a, b) < b
    ensures a <= 0 ==> 0 <= b * TruncDiv(a, b) - a < b
  {
  }

  /** The low bytes of a number, least significant first, make up its remainder. */
  lemma LowBytes(v: nat)
    ensures v % 0x1_0000 == v % 0x100 + v / 0x100 % 0x100 * 0x100
    ensures v % 0x100_0000 == v % 0x100 + v / 0x100 % 0x100 * 0x100 + v / 0x1_0000 % 0x100 * 0x1_0000
    ensures v % 0x1_0000_0000 == v % 0x100 + v / 0x100 % 0x100 * 0x100 + v / 0x1_0000 % 0x100 * 0x1_0000
                                 + v / 0x100_0000 % 0x100 * 0x100_0000
  {
    var a, b, c, d := v / 0x100, v / 0x1_0000, v / 0x100_0000, v / 0x1_0000_0000;
    assert v == a * 0x100 + v % 0x100;
    NextByteOf(v);
    assert v % 0x1_0000 == v - b * 0x1_0000;
    assert v % 0x100_0000 == v - c * 0x100_0000;
    assert v % 0x1_0000_0000 == v - d * 0x1_0000_0000;
  }

  lemma NextByteOf(v: nat)
    ensures v / 0x100 == v / 0x1_0000 * 0x100 + v / 0x100 % 0x100
    ensures v / 0x1_0000 == v / 0x100_0000 * 0x100 + v / 0x1_0000 % 0x100
    ensures v / 0x100_0000 == v / 0x1_0000_0000 * 0x100 + v / 0x100_0000 % 0x100
  {
    assert v / 0x100 / 0x100 == v / 0x1_0000;
    assert v / 0x1_0000 / 0x100 == v / 0x100_0000;
    assert v / 0x100_0000 / 0x100 == v / 0x1_0000_0000;
  }

  /** The value of bytes, least significant first. */
  function LittleEndian(b: seq<Byte>): nat {
    if b == [] then 0 else b[0] + 0x100 * LittleEndian(b[1..])
  }

  /** The value of bytes, most significant first. */
  function BigEndianValue(b: seq<Byte>): nat {
    if b == [] then 0 else 0x100 * BigEndianValue(b[..|b| - 1]) + b[|b| - 1]
  }

  lemma LittleEndianOfFour(b: seq<Byte>)
    ensures |b| == 1 ==> LittleEndian(b) == b[0]
    ensures |b| == 2 ==> LittleEndian(b) == b[0] as int + b[1] as int * 0x100
    ensures |b| == 3 ==> LittleEndian(b) == b[0] as int + b[1] as int * 0x100 + b[2] as int * 0x1_0000
    ensures |b| == 4 ==> LittleEndian(b) == b[0] as int + b[1] as int * 0x100 + b[2] as int * 0x1_0000 + b[3] as int * 0x100_0000
  {
    if 0 < |b| <= 4 {
      LittleEndianOfFour(b[1..]);
    }
  }

  lemma BigEndianOfFour(b: seq<Byte>)
    requires |b| == 4
    ensures BigEndianValue(b) == b[0] as int * 0x100_0000 + b[1] as int * 0x1_0000 + b[2] as int * 0x100 + b[3] as int
  {
    var three, two, one := b[..3], b[..2], b[..1];
    assert three[..2] == two && two[..1] == one && one[..0] == [];
    assert BigEndianValue(one) == b[0];
    assert BigEndianValue(two) == b[0] as int * 0x100 + b[1] as int;
    assert BigEndianValue(three) == b[0] as int * 0x1_0000 + b[1] as int * 0x100 + b[2] as int;
  }
}
