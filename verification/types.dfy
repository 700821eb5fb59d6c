/** Machine types and failure values shared by the codec modules. */
module Types {

  /** An unsigned 8-bit value (C# byte). */
  type byte = x: int | 0 <= x < 0x100

  /** An unsigned 16-bit value (C# ushort). */
  type u16 = x: int | 0 <= x < 0x1_0000

  /** A signed 32-bit value (C# int). */
  type int32 = x: int | -0x8000_0000 <= x < 0x8000_0000

  datatype Option<T> = None | Some(value: T)

  /** The ways the codec stops with an exception. */
  datatype Error =
    | PayloadTooLarge              // a section payload longer than 65535 bytes
    | TypeMismatch                 // merging sections of different types
    | OutOfRange                   // a read past the end of the buffer
    | UnknownSectionType(tag: byte)
    | UnknownOpcode(opcode: byte)

  datatype Result<T> = Ok(value: T) | Err(error: Error)

  /** The 16-bit value stored little-endian at buf[i], buf[i+1]. */
  function U16At(buf: seq<byte>, i: nat): u16
    requires i + 2 <= |buf|
  {
    buf[i] as int + 256 * (buf[i + 1] as int)
  }

  /** The two little-endian bytes of a 16-bit value. */
  function U16Bytes(n: u16): (bytes: seq<byte>)
    ensures |bytes| == 2 && U16At(bytes, 0) == n
  {
    [n % 256, n / 256]
  }
}
