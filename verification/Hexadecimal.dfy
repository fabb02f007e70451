/** Hexadecimal digits. */
module Hexadecimal {
  import opened Bytes
  import opened Options

  function HexValue(c: byte): (x: Option<nat>)
    ensures x.Some? ==> x.value < 16
  {
    if 0x30 <= c <= 0x39 then Some(c - 0x30)
    else if 0x41 <= c <= 0x46 then Some(c - 0x41 + 10)
    else if 0x61 <= c <= 0x66 then Some(c - 0x61 + 10)
    else None
  }
}
