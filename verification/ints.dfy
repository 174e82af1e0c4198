/**
 * Fixed-width integers of the Rust source, on Dafny's unbounded `int`.
 * The `as` casts between widths are written out: they keep the low bits
 * and reinterpret them (two's complement), which is what Rust does.
 */
module Ints {

  const I32_MIN: int := -0x8000_0000
  const I32_MAX: int := 0x7fff_ffff
  const U32_LIMIT: int := 0x1_0000_0000
  const I64_MIN: int := -0x8000_0000_0000_0000
  const I64_MAX: int := 0x7fff_ffff_ffff_ffff
  const U64_LIMIT: int := 0x1_0000_0000_0000_0000

  type Byte = b: int | 0 <= b < 0x100
  type U32 = x: int | 0 <= x < 0x1_0000_0000
  type I32 = x: int | -0x8000_0000 <= x <= 0x7fff_ffff
  type U64 = x: int | 0 <= x < 0x1_0000_0000_0000_0000
  type I64 = x: int | -0x8000_0000_0000_0000 <= x <= 0x7fff_ffff_ffff_ffff

  /** `x as i32` for any integer `x`: keep the low 32 bits, read them signed. */
  function AsI32(x: int): (r: I32)
    ensures (x - r) % U32_LIMIT == 0
    ensures I32_MIN <= x <= I32_MAX ==> r == x
  {
    var low := x % U32_LIMIT;
    if low > I32_MAX then low - U32_LIMIT else low
  }

  /** `x as u32`: keep the low 32 bits. */
  function AsU32(x: int): (r: U32)
    ensures (x - r) % U32_LIMIT == 0
    ensures 0 <= x < U32_LIMIT ==> r == x
  {
    x % U32_LIMIT
  }

  /** `x as i64`: keep the low 64 bits, read them signed. */
  function AsI64(x: int): (r: I64)
    ensures (x - r) % U64_LIMIT == 0
    ensures I64_MIN <= x <= I64_MAX ==> r == x
  {
    var low := x % U64_LIMIT;
    if low > I64_MAX then low - U64_LIMIT else low
  }

  /** `x as u64`: keep the low 64 bits. */
  function AsU64(x: int): (r: U64)
    ensures (x - r) % U64_LIMIT == 0
    ensures 0 <= x < U64_LIMIT ==> r == x
  {
    x % U64_LIMIT
  }

  /** `x as u8`: keep the low 8 bits. */
  function AsU8(x: int): (r: Byte)
    ensures (x - r) % 0x100 == 0
    ensures 0 <= x < 0x100 ==> r == x
  {
    x % 0x100
  }

  /** Four bytes, least significant first (`write_u32::<LittleEndian>`). */
  function U32ToLe(n: U32): (r: seq<Byte>)
    ensures |r| == 4
  {
    var q1 := n / 0x100;
    var q2 := q1 / 0x100;
    [n % 0x100, q1 % 0x100, q2 % 0x100, q2 / 0x100]
  }

  /** `LittleEndian::read_u32` on the first four bytes of `s`. */
  function LeToU32(s: seq<Byte>): (r: U32)
    requires |s| >= 4
  {
    s[0] as int + 0x100 * (s[1] as int) + 0x1_0000 * (s[2] as int) + 0x100_0000 * (s[3] as int)
  }

  lemma LittleEndianRoundTrip(n: U32, rest: seq<Byte>)
    ensures LeToU32(U32ToLe(n) + rest) == n
  {
    var s := U32ToLe(n) + rest;
    var q1 := n / 0x100;
    var q2 := q1 / 0x100;
    assert n == n % 0x100 + 0x100 * q1;
    assert q1 == q1 % 0x100 + 0x100 * q2;
    assert q2 == q2 % 0x100 + 0x100 * (q2 / 0x100);
    assert s[0] == n % 0x100 && s[1] == q1 % 0x100;
    assert s[2] == q2 % 0x100 && s[3] == q2 / 0x100;
  }
}
