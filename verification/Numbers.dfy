/** Machine integers of the source, with their wrap-around written out. */
module Numbers {

  const TWO32: int := 0x1_0000_0000
  const TWO64: int := 0x1_0000_0000_0000_0000

  type u32 = x: int | 0 <= x < 0x1_0000_0000
  type u64 = x: int | 0 <= x < 0x1_0000_0000_0000_0000
  type i64 = x: int | -0x8000_0000_0000_0000 <= x < 0x8000_0000_0000_0000

  /** Unsigned 32-bit wrap-around; on a negative i64 this is also Rust's `as u32`. */
  function Wrap32(x: int): u32 {
    x % TWO32
  }

  lemma WrapAdd(x: int, w: int)
    ensures Wrap32(Wrap32(x) + w) == Wrap32(x + w)
  {
  }

  lemma WrapShift(x: int, y: int, w: int)
    requires Wrap32(x) == Wrap32(y)
    ensures Wrap32(x + w) == Wrap32(y + w)
  {
    WrapAdd(x, w);
    WrapAdd(y, w);
  }

  function Wrap64(x: int): u64 {
    x % TWO64
  }

  function Least(a: nat, b: nat): nat {
    if a <= b then a else b
  }

  function Min(a: real, b: real): real {
    if a <= b then a else b
  }
}
