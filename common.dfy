// Machine-width integer types and the Option wrapper shared by every module.

module Common {

  /** An optional value, standing for a pointer that may be null. */
  datatype Option<+T> = None | Some(value: T)

  /** 2^16 and 2^32, the moduli of 16- and 32-bit unsigned arithmetic. */
  const TwoTo16: nat := 0x1_0000
  const TwoTo32: nat := 0x1_0000_0000

  /** A UTF-16 code unit (FX_WCHAR, taken as 16 bits wide). */
  type U16 = x: int | 0 <= x < 0x1_0000

  /** An unsigned 32-bit word (FX_DWORD). */
  type U32 = x: int | 0 <= x < 0x1_0000_0000

  /** The value of an unsigned byte (a C `char` read as `unsigned char`). */
  type Byte = x: int | 0 <= x < 0x100
}
