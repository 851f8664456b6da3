/** Bytes and C strings shared by the other modules. */
module Bytes {
  type Byte = x: int | 0 <= x < 256

  /** The memory holding a NUL-terminated string, read at any offset from its start. */
  function At(mem: seq<Byte>, i: nat): Byte {
    if i < |mem| then mem[i] else 0
  }

  /** A string of ASCII characters as bytes. */
  function Ascii(text: string): (bytes: seq<Byte>)
    requires forall i :: 0 <= i < |text| ==> text[i] < 128 as char
    ensures |bytes| == |text| && forall i :: 0 <= i < |text| ==> bytes[i] == text[i] as int
  {
    if text == [] then [] else [text[0] as int] + Ascii(text[1..])
  }
}
