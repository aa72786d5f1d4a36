/** Fixed-width machine integers as ranges of the unbounded `int`, and the
    Rust casts between them that the model needs. */
module Ints {
  import opened Wrappers

  const U16Modulus := 0x1_0000
  const U64Modulus := 0x1_0000_0000_0000_0000
  const I64Max := 0x7fff_ffff_ffff_ffff

  type U16 = x: int | 0 <= x < U16Modulus
  type U64 = x: int | 0 <= x < U64Modulus
  type I64 = x: int | -I64Max - 1 <= x <= I64Max

  /** `x as i64` for a `u64`: the same 64 bits read as two's complement. */
  function AsI64(x: U64): (r: I64)
    ensures r == x <==> x <= I64Max
    ensures r < 0 <==> x > I64Max
    ensures (x - r) % U64Modulus == 0
  {
    if x <= I64Max then x else x - U64Modulus
  }

  /** `y as u64` for an `i64`: the inverse reinterpretation. */
  function AsU64(y: I64): (r: U64)
    ensures r == y <==> y >= 0
    ensures (r - y) % U64Modulus == 0
  {
    if y >= 0 then y else y + U64Modulus
  }

  /** The two casts undo each other: `as i64` loses no information. */
  lemma AsI64RoundTrip(x: U64, y: I64)
    ensures AsU64(AsI64(x)) == x
    ensures AsI64(AsU64(y)) == y
  {
  }

  /** `a - b` on `u64` without overflow checks: the difference modulo 2^64. */
  function WrappingSub(a: U64, b: U64): (r: U64)
    ensures b <= a ==> r == a - b
    ensures b > a ==> r == a - b + U64Modulus
    ensures (a - b - r) % U64Modulus == 0
  {
    if b <= a then a - b else a - b + U64Modulus
  }

  /** `i64::try_from(x)` for a `u64`: `None` where the value does not fit. */
  function TryI64(x: U64): (r: Option<I64>)
    ensures r.Some? <==> x <= I64Max
    ensures r.Some? ==> r.value == x && AsI64(x) == x
  {
    if x <= I64Max then Some(x) else None
  }
}
