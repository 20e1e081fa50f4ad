/** Vocabulary shared by all the models: raw bytes, 32-bit wrap-around, optional values. */
module Bytes {

  type Byte = bv8

  /** What an erased NOR flash byte reads as: an erase sets bits, a write can only clear them. */
  const ERASED: Byte := 0xFF

  lemma AndErased(b: Byte)
    ensures ERASED & b == b
  {}

  /** The size of the buffer the boot loader copies flash regions through. */
  const COPY_BUF: nat := 1024

  datatype Option<+T> = None | Some(value: T)

  type uint32 = x: int | 0 <= x < 0x1_0000_0000

  /** `a + b` and `a - b` as C computes them on `uint32_t`. */
  function Add32(a: uint32, b: uint32): uint32 {
    if a + b < 0x1_0000_0000 then a + b else a + b - 0x1_0000_0000
  }

  function Sub32(a: uint32, b: uint32): uint32 {
    if a >= b then a - b else a - b + 0x1_0000_0000
  }

  /** `s[at..at + n]` and `t[from..from + n]` both exist and are the same bytes. */
  ghost predicate SameBytes(s: seq<Byte>, at: nat, t: seq<Byte>, from: nat, n: nat) {
    && at + n <= |s| && from + n <= |t|
    && forall i :: at <= i < at + n ==> s[i] == t[i - at + from]
  }

  function Min(a: nat, b: nat): nat {
    if a <= b then a else b
  }
}
