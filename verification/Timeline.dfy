/** Media time: 64-bit timestamps with an in-band "unknown" value, the engine's saturating
    arithmetic on them, and libavutil's exact rational rescaling, which is an oracle here. */
module Timeline {
  const INT64_MAX: int := 0x7FFF_FFFF_FFFF_FFFF
  const INT64_MIN: int := -0x8000_0000_0000_0000

  // AV_NOPTS_VALUE is an ordinary 64-bit pattern, so a saturated subtraction can produce it.
  const NOPTS: int64 := INT64_MIN

  // AV_TIME_BASE: one second in microseconds.
  const SECOND: int64 := 1_000_000

  type int64 = x: int | INT64_MIN <= x <= INT64_MAX

  predicate InRange(x: int) {
    INT64_MIN <= x <= INT64_MAX
  }

  function Max(a: int, b: int): int {
    if a >= b then a else b
  }

  function Min(a: int, b: int): int {
    if a <= b then a else b
  }

  function Distance(a: int, b: int): nat {
    if a <= b then b - a else a - b
  }

  /** The 64-bit value nearest to an exact result. */
  function Clamp(x: int): int64 {
    if x > INT64_MAX then INT64_MAX else if x < INT64_MIN then INT64_MIN else x
  }

  lemma ClampIsNearest(x: int, y: int64)
    ensures Distance(x, Clamp(x)) <= Distance(x, y)
  {}

  // The typed lets make every intermediate a checked 64-bit value: none of them can wrap.
  function TsAdd(a: int64, b: int64): (r: int64)
    ensures r == Clamp(a + b)
  {
    if b > 0 && a > (var room: int64 := INT64_MAX - b; room) then INT64_MAX
    else if b < 0 && a < (var room: int64 := INT64_MIN - b; room) then INT64_MIN
    else var sum: int64 := a + b; sum
  }

  function TsSub(a: int64, b: int64): (r: int64)
    ensures r == Clamp(a - b)
  {
    if b < 0 && a > (var room: int64 := INT64_MAX + b; room) then INT64_MAX
    else if b > 0 && a < (var room: int64 := INT64_MIN + b; room) then INT64_MIN
    else var difference: int64 := a - b; difference
  }

  /** The middle of three values, without summing them. */
  function Median3(a: int64, b: int64, c: int64): (r: int64)
    ensures r in [a, b, c]
    ensures (a <= r && b <= r) || (a <= r && c <= r) || (b <= r && c <= r)
    ensures (r <= a && r <= b) || (r <= a && r <= c) || (r <= b && r <= c)
  {
    Max(Min(a, b), Min(Max(a, b), c))
  }

  // ---- rational rescaling -------------------------------------------------

  datatype Ratio = Ratio(num: int, den: int)

  predicate Positive(tb: Ratio) {
    tb.num > 0 && tb.den > 0
  }

  const MICROS: Ratio := Ratio(1, 1_000_000)

  /** n / d rounded to nearest, halves away from zero. */
  function RoundNear(n: int, d: int): int
    requires d > 0
  {
    if n >= 0 then (2 * n + d) / (2 * d) else -((d - 2 * n) / (2 * d))
  }

  /** av_rescale_q, exactly: t ticks of `from` as ticks of `to`. */
  function Exact(t: int, from: Ratio, to: Ratio): int
    requires Positive(from) && Positive(to)
  {
    PositiveProduct(from.den, to.num);
    RoundNear(t * (from.num * to.den), from.den * to.num)
  }

  /** av_rescale_q as the engine sees it: a result that does not fit is the unknown timestamp. */
  function Rescale(t: int64, from: Ratio, to: Ratio): int64
    requires Positive(from) && Positive(to)
  {
    var r := Exact(t, from, to);
    if InRange(r) then r else NOPTS
  }

  lemma PositiveProduct(a: int, b: int)
    requires a > 0 && b > 0
    ensures a * b > 0
  {}

  lemma Quotient(n: int, d: int)
    requires d > 0
    ensures d * (n / d) <= n < d * (n / d) + d
  {}

  lemma QuotientMonotone(m: int, n: int, d: int)
    requires d > 0 && m <= n
    ensures m / d <= n / d
  {
    Quotient(m, d);
    Quotient(n, d);
    var p, q := m / d, n / d;
    if q < p {
      MulMonotone(d, q + 1, p);
    }
  }

  lemma MulMonotone(k: int, a: int, b: int)
    requires k >= 0 && a <= b
    ensures k * a <= k * b
  {}

  lemma RoundNearBounds(n: int, d: int)
    requires d > 0
    ensures 2 * n - d <= 2 * d * RoundNear(n, d) <= 2 * n + d
  {
    if n >= 0 { Quotient(2 * n + d, 2 * d); } else { Quotient(d - 2 * n, 2 * d); }
  }

  lemma RoundNearMonotone(m: int, n: int, d: int)
    requires d > 0 && m <= n
    ensures RoundNear(m, d) <= RoundNear(n, d)
  {
    if m >= 0 {
      QuotientMonotone(2 * m + d, 2 * n + d, 2 * d);
    } else if n < 0 {
      QuotientMonotone(d - 2 * n, d - 2 * m, 2 * d);
    } else {
      QuotientMonotone(0, 2 * n + d, 2 * d);
      QuotientMonotone(0, d - 2 * m, 2 * d);
    }
  }

  lemma RoundNearWhole(k: int, d: int)
    requires d > 0
    ensures RoundNear(k * d, d) == k
  {
    RoundNearBounds(k * d, d);
    Narrow(d, RoundNear(k * d, d), k);
  }

  /** No other whole number is within half a step. */
  lemma Narrow(d: int, x: int, k: int)
    requires d > 0 && 2 * (k * d) - d <= 2 * d * x <= 2 * (k * d) + d
    ensures x == k
  {
    if x < k {
      MulMonotone(d, x + 1, k);
    } else if k < x {
      MulMonotone(d, k + 1, x);
    }
  }

  lemma ExactMonotone(s: int, t: int, from: Ratio, to: Ratio)
    requires Positive(from) && Positive(to) && s <= t
    ensures Exact(s, from, to) <= Exact(t, from, to)
  {
    PositiveProduct(from.num, to.den);
    PositiveProduct(from.den, to.num);
    MulMonotone(from.num * to.den, s, t);
    RoundNearMonotone(s * (from.num * to.den), t * (from.num * to.den), from.den * to.num);
  }

  // ---- in seconds ---------------------------------------------------------

  /** t ticks of tb as an exact number of seconds. */
  function InSeconds(t: int, tb: Ratio): real
    requires Positive(tb)
  {
    t as real * (tb.num as real / tb.den as real)
  }

  /** Rescaling moves an instant by at most half a tick of the target. */
  lemma RescaleError(t: int, from: Ratio, to: Ratio)
    requires Positive(from) && Positive(to)
    ensures InSeconds(t, from) - InSeconds(1, to) / 2.0 <= InSeconds(Exact(t, from, to), to)
              <= InSeconds(t, from) + InSeconds(1, to) / 2.0
  {
    var n, d := t * (from.num * to.den), from.den * to.num;
    PositiveProduct(from.den, to.num);
    RoundNearBounds(n, d);
    NearestInSeconds(t, Exact(t, from, to), from, to);
  }

  /** The whole number of target ticks nearest to an instant is within half a tick of it. */
  lemma NearestInSeconds(t: int, r: int, from: Ratio, to: Ratio)
    requires Positive(from) && Positive(to)
    requires 2 * (t * (from.num * to.den)) - from.den * to.num <= 2 * (from.den * to.num) * r
    requires 2 * (from.den * to.num) * r <= 2 * (t * (from.num * to.den)) + from.den * to.num
    ensures InSeconds(t, from) - InSeconds(1, to) / 2.0 <= InSeconds(r, to)
    ensures InSeconds(r, to) <= InSeconds(t, from) + InSeconds(1, to) / 2.0
  {}

  function Gap(a: real, b: real): real {
    if a <= b then b - a else a - b
  }

  /** Halves are rounded away from zero on either side, and everything else to the nearer whole. */
  lemma RoundNearIsNearest(n: int, d: int, k: int)
    requires d > 0
    ensures 2 * n == (2 * k + 1) * d ==> RoundNear(n, d) == if n >= 0 then k + 1 else k
    ensures (2 * k - 1) * d < 2 * n < (2 * k + 1) * d ==> RoundNear(n, d) == k
  {
    RoundNearBounds(n, d);
    var r := RoundNear(n, d);
    if 2 * n == (2 * k + 1) * d {
      HalfWayUp(n, d, k);
    } else if (2 * k - 1) * d < 2 * n < (2 * k + 1) * d {
      Between(2 * n, d, r, k);
    }
  }

  lemma HalfWayUp(n: int, d: int, k: int)
    requires d > 0 && 2 * n == (2 * k + 1) * d
    ensures RoundNear(n, d) == if n >= 0 then k + 1 else k
  {
    if n >= 0 {
      assert 2 * n + d == (k + 1) * (2 * d);
      WholeQuotient(2 * n + d, 2 * d, k + 1);
    } else {
      assert d - 2 * n == (-k) * (2 * d);
      WholeQuotient(d - 2 * n, 2 * d, -k);
    }
  }

  lemma WholeQuotient(n: int, d: int, q: int)
    requires d > 0 && n == q * d
    ensures n / d == q
  {
    Quotient(n, d);
    var r := n / d;
    if r < q { MulMonotone(d, r + 1, q); }
    if q < r { MulMonotone(d, q + 1, r); }
  }

  lemma Between(m: int, d: int, r: int, k: int)
    requires d > 0 && m - d <= 2 * d * r <= m + d && (2 * k - 1) * d < m < (2 * k + 1) * d
    ensures r == k
  {
    if r < k { MulMonotone(2 * d, r + 1, k); }
    if k < r { MulMonotone(2 * d, k + 1, r); }
  }
}
