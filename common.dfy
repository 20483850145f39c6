/** Small shared vocabulary: Rust's fixed-width integer types, `Option`, and the outcome
    of an operation that can panic. */
module Common {

  type u8 = x: int | 0 <= x < 0x100
  type u16 = x: int | 0 <= x < 0x1_0000
  type u32 = x: int | 0 <= x < 0x1_0000_0000
  type usize = x: int | 0 <= x < 0x1_0000_0000_0000_0000

  /** Rust's `Option<T>`. */
  datatype Option<T> = None | Some(value: T)

  /** The result of an operation that either completes with a value or panics with a
      message (a Rust `panic!`, a failed `assert!` or an `expect` on `None`). */
  datatype Outcome<T> = Done(value: T) | Panic(message: string)
}
