/** Types shared by both variants of the record store. */
module Common {

  /** Rust's `u64`, the type of every record id. Ids are only compared and used as keys. */
  newtype U64 = x: int | 0 <= x < 0x1_0000_0000_0000_0000

  /** Rust's `u32`. */
  newtype U32 = x: int | 0 <= x < 0x1_0000_0000

  /** Rust's `f32`, carried as its IEEE-754 bit pattern: the store never computes with it. */
  datatype F32 = F32(bits: bv32)

  datatype Option<+T> = None | Some(value: T)

  /** The category of the HTTP response a handler produces (200, 400 or 401). */
  datatype Status = Ok | BadRequest | Unauthorized
}
