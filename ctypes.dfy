/** The machine types of the ESP8266 target (32-bit, little-endian) that the
    firmware's arithmetic and its storage layout depend on. */
module CTypes {

  /** A C `char` / an EEPROM cell. */
  newtype byte = b: int | 0 <= b < 256

  const TWO_TO_32: int := 0x1_0000_0000

  /** `unsigned int` and `unsigned long`, both 32 bits wide on this target. */
  newtype u32 = x: int | 0 <= x < 0x1_0000_0000

  /** The range of a (32-bit) `long`. */
  const LONG_MIN: int := -0x8000_0000
  const LONG_MAX: int := 0x7fff_ffff

  /** Unsigned 32-bit subtraction: the mathematical difference, wrapped modulo 2^32. */
  function Sub32(a: u32, b: u32): (d: u32)
    ensures b <= a ==> d as int == a as int - b as int
    ensures a < b ==> d as int == a as int - b as int + TWO_TO_32
  {
    ((a as int - b as int) % TWO_TO_32) as u32
  }

  /** The four bytes of a 32-bit value in memory, least significant first. */
  function LE32(x: u32): (bs: seq<byte>)
    ensures |bs| == 4
  {
    var v := x as int;
    [(v % 0x100) as byte, (v / 0x100 % 0x100) as byte,
     (v / 0x1_0000 % 0x100) as byte, (v / 0x100_0000) as byte]
  }

  /** The 32-bit value four little-endian bytes hold. */
  function FromLE32(bs: seq<byte>): (x: u32)
    requires |bs| == 4
  {
    (bs[0] as int + 0x100 * bs[1] as int + 0x1_0000 * bs[2] as int
      + 0x100_0000 * bs[3] as int) as u32
  }

  lemma FromLE32OfLE32(x: u32)
    ensures FromLE32(LE32(x)) == x
  {
    var v := x as int;
    var b0, b1, b2, b3 := v % 0x100, v / 0x100 % 0x100, v / 0x1_0000 % 0x100, v / 0x100_0000;
    assert v / 0x100 == b1 + 0x100 * (v / 0x1_0000);
    assert v / 0x1_0000 == b2 + 0x100 * b3;
    assert v == b0 + 0x100 * (v / 0x100);
  }

  lemma LE32OfFromLE32(bs: seq<byte>)
    requires |bs| == 4
    ensures LE32(FromLE32(bs)) == bs
  {
    var v := FromLE32(bs) as int;
    var b0, b1, b2, b3 := bs[0] as int, bs[1] as int, bs[2] as int, bs[3] as int;
    assert v == b0 + 0x100 * (b1 + 0x100 * (b2 + 0x100 * b3));
    assert v % 0x100 == b0 && v / 0x100 == b1 + 0x100 * (b2 + 0x100 * b3);
    var w := v / 0x100;
    assert w % 0x100 == b1 && w / 0x100 == b2 + 0x100 * b3;
    assert v / 0x1_0000 == w / 0x100;
    var z := w / 0x100;
    assert z % 0x100 == b2 && z / 0x100 == b3;
    assert v / 0x100_0000 == z / 0x100;
  }
}
