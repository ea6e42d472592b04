/**
 Fixed-width integers of the Rust source and the casts between them.

 Dafny integers are unbounded, so each width the game code relies on is a
 subset type of `int`, and every `as` cast whose result can differ from its
 operand is written out as the two's-complement reinterpretation Rust performs.
 */
module RustInts {

  const TWO_32: int := 0x1_0000_0000
  const TWO_31: int := 0x8000_0000

  type u32 = x: int | 0 <= x < 0x1_0000_0000
  type i32 = x: int | -0x8000_0000 <= x < 0x8000_0000
  type i64 = x: int | -0x8000_0000_0000_0000 <= x < 0x8000_0000_0000_0000

  /** `v as i32` for a `u32` value: the same 32 bits read as a signed number. */
  function U32AsI32(v: u32): (r: i32)
    ensures (r - v) % TWO_32 == 0
    ensures v < TWO_31 <==> r == v
    ensures r < 0 <==> v >= TWO_31
  {
    if v < TWO_31 then v else v - TWO_32
  }

  /** `v as u32` for an `i64` value: the low 32 bits, read as unsigned. */
  function I64AsU32(v: i64): (r: u32)
    ensures (r - v) % TWO_32 == 0
    ensures 0 <= v < TWO_32 ==> r == v
  {
    v % TWO_32
  }

  /** `a - b` on `i32` with the wrap-around of a release build. */
  function WrappingSubI32(a: i32, b: i32): (r: i32)
    ensures (r - (a - b)) % TWO_32 == 0
    ensures -TWO_31 <= a - b < TWO_31 <==> r == a - b
  {
    var d := a - b;
    if d < -TWO_31 then d + TWO_32
    else if d >= TWO_31 then d - TWO_32
    else d
  }
}
