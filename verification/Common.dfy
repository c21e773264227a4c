/** Bytes, 64-bit saturation and the option type shared by the models. */
module Common {
  newtype byte = x: int | 0 <= x < 256

  type Bytes = seq<byte>

  datatype Option<+T> = None | Some(value: T)

  const U64_MAX: nat := 0xFFFF_FFFF_FFFF_FFFF

  type u64 = x: nat | x <= U64_MAX

  /** The key-value cache: longest stored key, and longest value of each region. */
  const CACHE_KEY_MAX: nat := 250
  const VAL_SMALL: nat := 4096
  const VAL_LARGE: nat := 65536

  /** Rust's `u64::saturating_mul` on non-negative operands. */
  function SatMul(a: nat, b: nat): (r: nat)
    ensures r <= U64_MAX && r <= a * b
    ensures a * b <= U64_MAX ==> r == a * b
  {
    if a * b <= U64_MAX then a * b else U64_MAX
  }

  /** Rust's `u64::saturating_add` on non-negative operands. */
  function SatAdd(a: nat, b: nat): (r: nat)
    ensures r <= U64_MAX && r <= a + b
    ensures a + b <= U64_MAX ==> r == a + b
  {
    if a + b <= U64_MAX then a + b else U64_MAX
  }

  /** The i-th slot probed for hash `h` in a table of `n` slots: `(h as usize).wrapping_add(i) % n`. */
  function Slot(h: nat, i: nat, n: nat): (r: nat)
    requires 0 < n
    ensures r < n
  {
    (h + i) % (U64_MAX + 1) % n
  }

  function Min(a: int, b: int): int {
    if a <= b then a else b
  }

  function Max(a: int, b: int): int {
    if a <= b then b else a
  }

  function Repeat<T>(x: T, n: nat): (r: seq<T>)
    ensures |r| == n && forall i | 0 <= i < n :: r[i] == x
  {
    seq(n, _ => x)
  }
}
