/** Declarations shared by the component models. */
module Prelude {

  datatype Option<+T> = None | Some(value: T)

  newtype byte = x: int | 0 <= x < 0x100

  type Bytes = seq<byte>

  /** The 16-byte names of the objects a volume consists of. */
  type Uuid = u: Bytes | |u| == 16 witness seq(16, _ => 0)

  /** The 16-byte authentication tags of stored objects. */
  type Mac = m: Bytes | |m| == 16 witness seq(16, _ => 0)

  function Min(a: int, b: int): int {
    if a < b then a else b
  }

  function Max(a: int, b: int): int {
    if a < b then b else a
  }

  /** `2` to the power `n`. */
  function Pow2(n: nat): nat {
    if n == 0 then 1 else 2 * Pow2(n - 1)
  }
}
