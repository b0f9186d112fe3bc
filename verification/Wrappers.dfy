/** Result types shared by the modules of the model. */
module Wrappers {

  datatype Option<+T> = None | Some(value: T)

  datatype Result<+T, +E> = Ok(value: T) | Err(error: E)
}

/** The elements of a sequence as a set, and sequences without repetition. */
module Sequences {

  ghost function Elements<T>(s: seq<T>): set<T> {
    set x | x in s
  }

  ghost predicate NoDuplicates<T>(s: seq<T>) {
    forall i, j | 0 <= i < j < |s| :: s[i] != s[j]
  }
}

/** Bytes, and the integer widths that matter. */
module Bytes {

  type Byte = n: int | 0 <= n < 0x100

  type U64 = n: int | 0 <= n < 0x1_0000_0000_0000_0000

  /** A 64-bit word read as a signed number. */
  function AsI64(n: U64): int {
    if n < 0x8000_0000_0000_0000 then n else n - 0x1_0000_0000_0000_0000
  }
}
