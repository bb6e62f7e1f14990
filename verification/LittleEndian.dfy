/** Machine integers and the little-endian byte layouts the `byteorder` calls with `LE` produce. */
module LittleEndian {

  type uint8 = x: int | 0 <= x < 0x100
  type uint16 = x: int | 0 <= x < 0x1_0000
  type uint32 = x: int | 0 <= x < 0x1_0000_0000
  type int16 = x: int | -0x8000 <= x < 0x8000

  type Bytes = seq<uint8>

  function Byte0(x: uint32): uint8 { x % 0x100 }
  function Byte1(x: uint32): uint8 { x / 0x100 % 0x100 }
  function Byte2(x: uint32): uint8 { x / 0x1_0000 % 0x100 }
  function Byte3(x: uint32): uint8 { x / 0x100_0000 }

  function ToUint16(b0: uint8, b1: uint8): uint16 { b0 + 0x100 * b1 }

  function ToUint32(b0: uint8, b1: uint8, b2: uint8, b3: uint8): uint32 {
    b0 + 0x100 * b1 + 0x1_0000 * b2 + 0x100_0000 * b3
  }

  // Two's complement of a signed coordinate.
  function Bits(x: int16): uint16 { if x < 0 then x + 0x1_0000 else x }
  function Signed(bits: uint16): int16 { if bits < 0x8000 then bits else bits - 0x1_0000 }

  lemma Uint16RoundTrip(x: uint16)
    ensures ToUint16(Byte0(x), Byte1(x)) == x
  {}

  lemma Uint16Injective(b0: uint8, b1: uint8)
    ensures Byte0(ToUint16(b0, b1)) == b0 && Byte1(ToUint16(b0, b1)) == b1
  {}

  lemma Uint32RoundTrip(x: uint32)
    ensures ToUint32(Byte0(x), Byte1(x), Byte2(x), Byte3(x)) == x
  {
    assert x == 0x100 * (x / 0x100) + x % 0x100;
    assert x / 0x100 == 0x100 * (x / 0x1_0000) + x / 0x100 % 0x100;
    assert x / 0x1_0000 == 0x100 * (x / 0x100_0000) + x / 0x1_0000 % 0x100;
  }

  lemma Uint32Injective(b0: uint8, b1: uint8, b2: uint8, b3: uint8)
    ensures var x := ToUint32(b0, b1, b2, b3);
            Byte0(x) == b0 && Byte1(x) == b1 && Byte2(x) == b2 && Byte3(x) == b3
  {
    var x := ToUint32(b0, b1, b2, b3);
    assert x / 0x100 == b1 + 0x100 * b2 + 0x1_0000 * b3;
    assert x / 0x1_0000 == b2 + 0x100 * b3;
  }
}
