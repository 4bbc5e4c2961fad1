/**
  Bytes and 16-bit words (tunvpn/util/byteutils.go). The program masks and shifts; on unsigned
  values that is division and remainder by powers of two, as WordOfBytes and BytesOfWord confirm.
 */
module Bytes {
  type byte = x: int | 0 <= x < 256
  type uint16 = x: int | 0 <= x < 65536

  function BytesToUint16(bytes: seq<byte>, offset: nat): uint16
    requires offset + 1 < |bytes|
  {
    bytes[offset] as int * 256 + bytes[offset + 1] as int
  }

  function Uint16ToBytes(value: uint16): seq<byte> {
    [value / 256, value % 256]
  }

  /** Two bytes are read by shifting the first over the second, as the program does. */
  lemma WordOfBytes(hi: bv16, lo: bv16)
    requires hi < 256 && lo < 256
    ensures hi as int < 256 && lo as int < 256
    ensures BytesToUint16([hi as int, lo as int], 0) == ((hi << 8) | lo) as int
  {
    Shifted(hi, lo, (hi << 8) | lo);
  }

  function HighByte(value: bv16): bv16 {
    (value & 0xff00) >> 8
  }

  function LowByte(value: bv16): bv16 {
    value & 0x00ff
  }

  lemma Masked(value: bv16)
    ensures HighByte(value) < 256 && LowByte(value) < 256
    ensures (HighByte(value) << 8) | LowByte(value) == value
  {
  }

  lemma MaskedValue(value: bv16)
    ensures HighByte(value) as int < 256 && LowByte(value) as int < 256
    ensures value as int == HighByte(value) as int * 256 + LowByte(value) as int
  {
    hide HighByte, LowByte;
    Masked(value);
    Shifted(HighByte(value), LowByte(value), value);
  }

  lemma Shifted(hi: bv16, lo: bv16, value: bv16)
    requires hi < 256 && lo < 256 && value == (hi << 8) | lo
    ensures hi as int < 256 && lo as int < 256 && value as int == hi as int * 256 + lo as int
  {
    assert value == hi * 256 + lo;
  }

  /** A word is written by masking and shifting, high byte first, as the program does. */
  lemma BytesOfWord(value: bv16)
    ensures value as int < 65536 && HighByte(value) as int < 256 && LowByte(value) as int < 256
    ensures Uint16ToBytes(value as int) == [HighByte(value) as int, LowByte(value) as int]
  {
    hide HighByte, LowByte, Uint16ToBytes;
    MaskedValue(value);
    WrittenAs(value as int, HighByte(value) as int, LowByte(value) as int);
  }

  lemma WrittenAs(value: uint16, hi: byte, lo: byte)
    requires value == hi as int * 256 + lo as int
    ensures Uint16ToBytes(value) == [hi, lo]
  {
  }
}
