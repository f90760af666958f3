/** Fixed-width integers and the failure-compatible wrappers shared by every module. */
module Basics {

  const U8_LIMIT: int := 0x100
  const U32_LIMIT: int := 0x1_0000_0000

  /** Rust's `u8`. */
  type uint8 = x: int | 0 <= x < 0x100

  /** Rust's `u32` (the container's `Off`, `Size` and string offsets). */
  type uint32 = x: int | 0 <= x < 0x1_0000_0000

  /** A UTF-8 byte string: the model of a Rust `String` through `as_bytes()`. */
  type Str = seq<uint8>

  /** Rust's `n as u32` on a `usize`: keeps the low 32 bits. */
  function Trunc32(n: nat): (r: uint32)
    ensures n < U32_LIMIT ==> r == n
  {
    n % U32_LIMIT
  }

  /** Rust's `n as u8`: keeps the low 8 bits. */
  function Trunc8(n: nat): (r: uint8)
    ensures n < U8_LIMIT ==> r == n
  {
    n % U8_LIMIT
  }

  /** u32 addition as a release build performs it (wrapping). */
  function Add32(a: uint32, b: uint32): (r: uint32)
    ensures a + b < U32_LIMIT ==> r == a + b
  {
    (a + b) % U32_LIMIT
  }

  function Min(a: int, b: int): int { if a <= b then a else b }

  function Max(a: int, b: int): int { if a <= b then b else a }

  /** A prefix of a prefix is a prefix. */
  lemma TakeTake<T>(s: seq<T>, i: nat, j: nat)
    requires j <= i <= |s|
    ensures s[..i][..j] == s[..j]
  {
  }

  datatype Option<+T> = None | Some(value: T) {
    predicate IsFailure() { None? }
    function PropagateFailure<U>(): Option<U> requires None? { None }
    function Extract(): T requires Some? { value }
  }

  datatype Result<+T, +E> = Ok(value: T) | Err(error: E) {
    predicate IsFailure() { Err? }
    function PropagateFailure<U>(): Result<U, E> requires Err? { Err(error) }
    function Extract(): T requires Ok? { value }
  }
}
