/** Machine types shared by every module: a byte, a 32-bit DWORD and an Option. */
module Common {

  /** An unsigned 8-bit byte, as stored in the DDS stream. */
  type byte = bv8

  /** A 32-bit unsigned Windows DWORD; arithmetic on it wraps modulo 2^32. */
  type DWORD = bv32

  /** The number of distinct DWORD values. */
  const DWORD_LIMIT: int := 0x1_0000_0000

  datatype Option<T> = None | Some(value: T)
}
