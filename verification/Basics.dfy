/** Small notions every component uses. */
module Basics {
  type Byte = b: nat | b < 256

  datatype Option<T> = None | Some(value: T)

  function Min(a: nat, b: nat): nat { if a < b then a else b }
  function Max(a: nat, b: nat): nat { if a < b then b else a }

  /** x shifted right by i bytes. */
  function Shifted(x: nat, i: nat): nat {
    if i == 0 then x else Shifted(x / 256, i - 1)
  }
}
