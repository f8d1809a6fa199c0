/** Go's fixed-width signed arithmetic, written out over unbounded integers:
    `time.Duration` is an int64 count of nanoseconds. */
module GoInt {

  const MIN_INT64: int := -0x8000_0000_0000_0000
  const MAX_INT64: int := 0x7fff_ffff_ffff_ffff

  predicate IsInt64(x: int) {
    MIN_INT64 <= x <= MAX_INT64
  }

  // time.Duration
  type Duration = x: int | IsInt64(x)

  // The value an int64 holds after an operation whose exact result is x.
  function Wrap64(x: int): (r: int)
    ensures IsInt64(r)
    ensures IsInt64(x) ==> r == x
    ensures (x - r) % 0x1_0000_0000_0000_0000 == 0
    ensures MAX_INT64 < x <= MAX_INT64 + 0x1_0000_0000_0000_0000 ==> r == x - 0x1_0000_0000_0000_0000
    ensures MIN_INT64 - 0x1_0000_0000_0000_0000 <= x < MIN_INT64 ==> r == x + 0x1_0000_0000_0000_0000
  {
    (x - MIN_INT64) % 0x1_0000_0000_0000_0000 + MIN_INT64
  }

  // Go's `/`: the quotient is truncated toward zero.
  function Quo(x: int, y: int): (r: int)
    requires y > 0
    ensures x >= 0 ==> r == x / y
    ensures x < 0 ==> r == -(-x / y)
  {
    if x >= 0 then x / y else -(-x / y)
  }

  // time.Time.Sub saturates instead of wrapping.
  function Sub(t: int, u: int): (r: int)
    ensures IsInt64(r)
    ensures IsInt64(t - u) ==> r == t - u
    ensures t - u > MAX_INT64 ==> r == MAX_INT64
    ensures t - u < MIN_INT64 ==> r == MIN_INT64
  {
    if t - u < MIN_INT64 then MIN_INT64 else if t - u > MAX_INT64 then MAX_INT64 else t - u
  }

  function Abs(x: int): (r: nat)
    ensures r == x || r == -x
  {
    if x < 0 then -x else x
  }
}
