/**
 Go's `time.Time` as the number of nanoseconds since Go's zero time, so that the zero
 time is 0 and `IsZero` is `== 0`. Only what the limiter and the stores use is modelled.
 */
module GoTime {

  const SECOND: int := 1_000_000_000
  const MINUTE: int := 60 * SECOND
  const HOUR: int := 60 * MINUTE

  /** Seconds between the zero time (1 January of year 1) and the Unix epoch. */
  const UNIX_EPOCH: int := 62_135_596_800

  /** `t.Truncate(d)`: rounds down to a multiple of `d` since the zero time; a
      duration that is not positive leaves `t` alone. */
  function Truncate(t: int, d: int): int {
    if d <= 0 then t else t - t % d
  }

  /** `t.Unix()`: whole seconds since the epoch, rounded down. */
  function Unix(t: int): int {
    t / SECOND - UNIX_EPOCH
  }

  /** `d / time.Second`: Go's integer division truncates toward zero. */
  function Seconds(d: int): int {
    if d >= 0 then d / SECOND else -((-d) / SECOND)
  }

  lemma UnixFloors(t: int)
    ensures var since := t - 62_135_596_800 * 1_000_000_000;
            Unix(t) * 1_000_000_000 <= since < Unix(t) * 1_000_000_000 + 1_000_000_000
  {
  }

  lemma SecondsTowardZero(d: int)
    ensures d >= 0 ==> 0 <= Seconds(d) * 1_000_000_000 <= d < Seconds(d) * 1_000_000_000 + 1_000_000_000
    ensures Seconds(-d) == -Seconds(d)
  {
  }

  /** A window that is a positive whole number of seconds. */
  predicate WholeSeconds(d: int) {
    d > 0 && d % SECOND == 0
  }

  lemma UnixMonotone(t: int, u: int)
    requires t <= u
    ensures Unix(t) <= Unix(u)
  {
  }

  /** A multiple of a multiple of a second is a multiple of a second. */
  lemma MultipleOfWindow(n: int, q: int)
    ensures (n * (q * SECOND)) / SECOND == n * q
    ensures (n * (q * SECOND)) % SECOND == 0
  {
    assert n * (q * SECOND) == (n * q) * SECOND;
  }

  /** The grid: every instant lies in the window that its own truncation starts, and
      the window's end is exactly one window length of seconds later. */
  lemma InOwnWindow(t: int, d: int)
    requires WholeSeconds(d)
    ensures Unix(Truncate(t, d)) <= Unix(t) < Unix(Truncate(t, d)) + Seconds(d)
    ensures Truncate(t, d) % SECOND == 0
  {
    var q := d / SECOND;
    var n := t / d;
    assert d == q * SECOND;
    assert Truncate(t, d) == n * d;
    MultipleOfWindow(n, q);
    assert n * d <= t < n * d + d;
    UnixMonotone(n * d, t);
    var s := t / SECOND;
    assert s * SECOND <= t;
    assert n * d == (n * q) * SECOND;
    assert s * SECOND < (n * q + q) * SECOND;
    assert s < n * q + q;
  }

  lemma MulMonotone(x: int, y: int, w: int)
    requires w > 0
    ensures x <= y ==> x * w <= y * w
    ensures (x + 1) * w == x * w + w
  {
  }

  /** `k` steps of length `m` within `d` are at most `d / m`. */
  lemma StepsWithin(k: int, m: int, d: int)
    requires m > 0 && k * m <= d
    ensures k <= d / m
  {
    var q := d / m;
    assert d < q * m + m;
    MulMonotone(q + 1, k, m);
    MulMonotone(q, q, m);
  }
}
