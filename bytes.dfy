/** Bytes on the wire. A Java `byte` is stored here as its bit pattern read unsigned (0..255). */
module Bytes {

  newtype byte = x: int | 0 <= x < 256

  /** The Java cast `(byte) c` keeps the low eight bits of the int `c`. */
  function LowByte(c: int): (b: byte)
    ensures (b as int - c) % 256 == 0
    ensures 0 <= c < 256 ==> b as int == c
  {
    (c % 256) as byte
  }
}
