/**
 What every history of the limiter satisfies, against the ideal limiter: one that keeps
 an unbounded counter per bucket and so allows a call exactly when fewer than `max`
 calls have hit its bucket before.
 */
module LimiterBounds {
  import opened GoTime
  import opened RateLimiter

  // ----- Measures of a history -----

  predicate Hits(limits: Limits, c: Call, b: BucketKey) {
    c.action in limits && BucketAt(limits, c.key, c.action, c.now) == b
  }

  /** The ideal counter of bucket `b`. */
  function Calls(limits: Limits, h: seq<Call>, b: BucketKey): nat {
    if h == [] then 0
    else Calls(limits, h[..|h| - 1], b) + if Hits(limits, h[|h| - 1], b) then 1 else 0
  }

  /** The calls on bucket `b` that were answered true. */
  function Admitted(limits: Limits, h: seq<Call>, b: BucketKey): nat {
    if h == [] then 0
    else Admitted(limits, h[..|h| - 1], b) + if Hits(limits, h[|h| - 1], b) && h[|h| - 1].allowed then 1 else 0
  }

  /** How often `evict` removed bucket `b`. */
  function Evictions(h: seq<Call>, b: BucketKey): nat {
    if h == [] then 0
    else Evictions(h[..|h| - 1], b) + if b in h[|h| - 1].evicted then 1 else 0
  }

  ghost predicate Monotone(h: seq<Call>) {
    forall i, j :: 0 <= i < j < |h| ==> h[i].now <= h[j].now
  }

  function IdealAllows(limits: Limits, h: seq<Call>, b: BucketKey): bool
    requires b.action in limits
  {
    Calls(limits, h, b) + 1 <= limits[b.action].max
  }

  /** The buckets that the ideal limiter has counted and whose window is still open. */
  function IdealAlive(limits: Limits, h: seq<Call>, now: int): set<BucketKey> {
    set i | 0 <= i < |h| && h[i].action in limits &&
            !Dead(limits, BucketAt(limits, h[i].key, h[i].action, h[i].now), now)
      :: BucketAt(limits, h[i].key, h[i].action, h[i].now)
  }

  function Cap(max: int): nat {
    if max < 0 then 0 else max
  }

  function Min(x: int, y: int): int {
    if x <= y then x else y
  }

  // ----- The window grid -----

  /** No instant finds its own bucket dead exactly when the window is a positive whole
      number of seconds: `prune` divides by a second and `Unix` rounds to one. */
  lemma OwnBucketAliveIffWholeSeconds(limits: Limits, key: string, action: string)
    requires action in limits
    ensures (forall now :: !Dead(limits, BucketAt(limits, key, action, now), now))
            <==> WholeSeconds(limits[action].window)
  {
    var w := limits[action].window;
    if WholeSeconds(w) {
      forall now ensures !Dead(limits, BucketAt(limits, key, action, now), now) {
        InOwnWindow(now, w);
      }
    } else if w <= 0 {
      assert Dead(limits, BucketAt(limits, key, action, 0), 0);
    } else {
      // the last whole second inside the first window already counts as past its end
      var now := w / SECOND * SECOND;
      assert now == w - w % SECOND;
      assert 0 <= now < w;
      assert now % w == now by { assert now / w == 0; }
      assert Truncate(now, w) == 0;
      assert now / SECOND == w / SECOND;
      assert Dead(limits, BucketAt(limits, key, action, now), now);
    }
  }

  lemma DeadForever(limits: Limits, b: BucketKey, t: int, u: int)
    requires t <= u && Dead(limits, b, t)
    ensures Dead(limits, b, u)
  {
    UnixMonotone(t, u);
  }

  lemma AliveBefore(limits: Limits, b: BucketKey, t: int, u: int)
    requires t <= u && !Dead(limits, b, u)
    ensures !Dead(limits, b, t)
  {
    UnixMonotone(t, u);
  }

  /** A bucket that is dead at some instant is never again the bucket of a later one. */
  lemma DeadNeverCurrent(limits: Limits, key: string, action: string, t: int, u: int, b: BucketKey)
    requires action in limits && WholeSeconds(limits[action].window)
    requires t <= u && Dead(limits, b, t)
    ensures BucketAt(limits, key, action, u) != b
  {
    DeadForever(limits, b, t, u);
    InOwnWindow(u, limits[action].window);
  }

  // ----- Buckets are windows of one action and one key -----

  /** The calls for (action, key) at an instant of [lo, hi). */
  function CallsIn(h: seq<Call>, key: string, action: string, lo: int, hi: int): nat {
    if h == [] then 0
    else CallsIn(h[..|h| - 1], key, action, lo, hi) +
         var c := h[|h| - 1];
         if c.key == key && c.action == action && lo <= c.now < hi then 1 else 0
  }

  /** The window of `t` has not ended by `now`. */
  predicate StillOpen(window: int, t: int, now: int)
    requires WholeSeconds(window)
  {
    now < t / window * window + window
  }

  /** The (action, key) pairs with a call in a window that is still open. */
  function OpenKeys(limits: Limits, h: seq<Call>, now: int): set<(string, string)>
    requires forall a :: a in limits ==> WholeSeconds(limits[a].window)
  {
    set i | 0 <= i < |h| && h[i].action in limits &&
            StillOpen(limits[h[i].action].window, h[i].now, now)
      :: (h[i].action, h[i].key)
  }

  /** Every call finds fewer than 4096 open (action, key) pairs. */
  ghost predicate LightLoad(limits: Limits, h: seq<Call>)
    requires forall a :: a in limits ==> WholeSeconds(limits[a].window)
  {
    forall i :: 0 <= i < |h| && h[i].action in limits ==> |OpenKeys(limits, h[..i], h[i].now)| < 4096
  }

  /** In the window of `t` are exactly the instants that truncate to its start. */
  lemma SameWindow(t: int, u: int, w: int)
    requires WholeSeconds(w)
    ensures Truncate(t, w) == t / w * w
    ensures Unix(Truncate(u, w)) == Unix(Truncate(t, w)) <==> t / w * w <= u < t / w * w + w
  {
    TruncateIs(t, w, t / w);
    TruncateIs(u, w, u / w);
    InOwnWindow(t, w);
    InOwnWindow(u, w);
    if t / w * w <= u < t / w * w + w {
      TruncateIs(u, w, t / w);
    }
  }

  /** Different actions, keys or windows have different buckets, and the same have the same. */
  lemma HitsIff(limits: Limits, c: Call, key: string, action: string, t: int)
    requires action in limits && WholeSeconds(limits[action].window)
    ensures var w := limits[action].window;
            Hits(limits, c, BucketAt(limits, key, action, t)) <==>
            c.key == key && c.action == action && t / w * w <= c.now < t / w * w + w
  {
    SameWindow(t, c.now, limits[action].window);
  }

  /** The measures of a bucket count the calls for its key and action in its window. */
  lemma {:induction false} WindowCounts(limits: Limits, h: seq<Call>, key: string, action: string, t: int)
    requires action in limits && WholeSeconds(limits[action].window)
    ensures var w, b := limits[action].window, BucketAt(limits, key, action, t);
            && Calls(limits, h, b) == CallsIn(h, key, action, t / w * w, t / w * w + w)
            && Admitted(limits, h, b) == AdmittedBetween(h, key, action, t / w * w, t / w * w + w)
  {
    if h != [] {
      WindowCounts(limits, h[..|h| - 1], key, action, t);
      HitsIff(limits, h[|h| - 1], key, action, t);
    }
  }

  /** A bucket may be pruned exactly from the end of its window on. */
  lemma DeadIffEnded(limits: Limits, key: string, action: string, t: int, now: int)
    requires action in limits && WholeSeconds(limits[action].window)
    ensures var w := limits[action].window;
            Dead(limits, BucketAt(limits, key, action, t), now) <==> t / w * w + w <= now
  {
    var w := limits[action].window;
    var q := w / SECOND;
    SameWindow(t, t, w);
    MultipleOfWindow(t / w, q);
    MultipleOfWindow(t / w + 1, q);
    assert w == q * SECOND;
    MulMonotone(t / w, t / w, w);
    var end := t / w * w + w;
    assert end % SECOND == 0 && end / SECOND == t / w * q + q;
  }

  lemma {:induction false} SameSize(bs: set<BucketKey>, pairs: set<(string, string)>)
    requires forall b :: b in bs ==> (b.action, b.key) in pairs
    requires forall p :: p in pairs ==> exists b :: b in bs && (b.action, b.key) == p
    requires forall b, b' :: b in bs && b' in bs && b.action == b'.action && b.key == b'.key ==> b == b'
    ensures |bs| == |pairs|
    decreases |bs|
  {
    if bs == {} {
      assert pairs == {};
    } else {
      var b :| b in bs;
      var bs', pairs' := bs - {b}, pairs - {(b.action, b.key)};
      forall p | p in pairs' ensures exists x :: x in bs' && (x.action, x.key) == p {
        var x :| x in bs && (x.action, x.key) == p;
        assert x in bs';
      }
      SameSize(bs', pairs');
      assert |bs'| == |bs| - 1 && |pairs'| == |pairs| - 1;
    }
  }

  lemma OpenBucketIsCurrent(limits: Limits, c: Call, now: int)
    requires c.action in limits && WholeSeconds(limits[c.action].window) && c.now <= now
    ensures var b, w := BucketAt(limits, c.key, c.action, c.now), limits[c.action].window;
            && (!Dead(limits, b, now) <==> now < c.now / w * w + w)
            && (!Dead(limits, b, now) ==> b.windowStart == Unix(Truncate(now, w)))
  {
    DeadIffEnded(limits, c.key, c.action, c.now, now);
    SameWindow(c.now, now, limits[c.action].window);
    assert c.now / limits[c.action].window * limits[c.action].window <= c.now;
  }

  /** As many ideal buckets are open as (action, key) pairs. */
  lemma OpenKeysCount(limits: Limits, h: seq<Call>, now: int)
    requires Monotone(h) && (h == [] || h[|h| - 1].now <= now)
    requires forall a :: a in limits ==> WholeSeconds(limits[a].window)
    ensures |IdealAlive(limits, h, now)| == |OpenKeys(limits, h, now)|
  {
    var bs, pairs := IdealAlive(limits, h, now), OpenKeys(limits, h, now);
    forall i | 0 <= i < |h| && h[i].action in limits
      ensures var b, w := BucketAt(limits, h[i].key, h[i].action, h[i].now), limits[h[i].action].window;
              && b.key == h[i].key && b.action == h[i].action
              && (!Dead(limits, b, now) <==> StillOpen(w, h[i].now, now))
              && (!Dead(limits, b, now) ==> b.windowStart == Unix(Truncate(now, w)))
    {
      OpenBucketIsCurrent(limits, h[i], now);
    }
    forall p | p in pairs ensures exists b :: b in bs && (b.action, b.key) == p {
      var i :| 0 <= i < |h| && h[i].action in limits && p == (h[i].action, h[i].key) &&
               StillOpen(limits[h[i].action].window, h[i].now, now);
      assert BucketAt(limits, h[i].key, h[i].action, h[i].now) in bs;
    }
    SameSize(bs, pairs);
  }

  // ----- Prefixes of runs -----

  lemma {:induction false} RunPrefix(limits: Limits, h: seq<Call>, i: nat)
    requires IsRun(limits, h) && i <= |h|
    ensures IsRun(limits, h[..i])
    ensures i < |h| ==> Legal(limits, CountsAfter(limits, h[..i]), h[i])
    decreases |h|
  {
    if i == |h| {
      assert h[..i] == h;
    } else {
      var p := h[..|h| - 1];
      RunPrefix(limits, p, i);
      assert p[..i] == h[..i];
      if i < |p| {
        assert p[i] == h[i];
      }
    }
  }

  // ----- Never stricter than the ideal limiter (any clock, any windows) -----

  /** Every stored counter is positive and at most the ideal one, and belongs to a limited action. */
  lemma {:induction false} StoredAtMostIdeal(limits: Limits, h: seq<Call>, b: BucketKey)
    requires IsRun(limits, h)
    ensures 0 <= Get(CountsAfter(limits, h), b) <= Calls(limits, h, b)
    ensures b in CountsAfter(limits, h) ==> b.action in limits && 1 <= CountsAfter(limits, h)[b]
  {
    if h != [] {
      StoredAtMostIdeal(limits, h[..|h| - 1], b);
    }
  }

  /** Whatever the eviction order, a call that the ideal limiter allows is allowed. */
  lemma NeverStricter(limits: Limits, h: seq<Call>, i: nat)
    requires IsRun(limits, h) && i < |h| && h[i].action in limits
    requires IdealAllows(limits, h[..i], BucketAt(limits, h[i].key, h[i].action, h[i].now))
    ensures h[i].allowed
  {
    RunPrefix(limits, h, i);
    StoredAtMostIdeal(limits, h[..i], BucketAt(limits, h[i].key, h[i].action, h[i].now));
  }

  // ----- Bounded memory (any clock, any windows) -----

  lemma KeysAfterRemoval(m: Counts, s: set<BucketKey>)
    requires s <= m.Keys
    ensures |m - s| == |m| - |s|
  {
    assert (m - s).Keys == m.Keys - s;
    assert |m.Keys| == |m| && |(m - s).Keys| == |m - s|;
  }

  lemma SizeStep(limits: Limits, counts: Counts, c: Call)
    requires |counts| <= MAX_TRACKED_BUCKETS && Legal(limits, counts, c)
    ensures |After(limits, counts, c)| <= MAX_TRACKED_BUCKETS
  {
    if c.action in limits {
      var r := Reclaimed(limits, counts, c.now, c.evicted);
      if |counts| >= MAX_TRACKED_BUCKETS {
        KeysAfterRemoval(Alive(limits, counts, c.now), c.evicted);
      }
      assert |r| < MAX_TRACKED_BUCKETS;
      var b := BucketAt(limits, c.key, c.action, c.now);
      SizeAfterUpdate(r, b, Get(r, b) + 1);
    }
  }

  lemma SizeAfterUpdate(m: Counts, b: BucketKey, n: int)
    ensures |m[b := n]| <= |m| + 1
  {
    assert m[b := n].Keys == m.Keys + {b};
    assert |m[b := n]| == |m[b := n].Keys| && |m| == |m.Keys|;
  }

  lemma {:induction false} BoundedMemory(limits: Limits, h: seq<Call>)
    requires IsRun(limits, h)
    ensures |CountsAfter(limits, h)| <= 4096
  {
    if h != [] {
      BoundedMemory(limits, h[..|h| - 1]);
      SizeStep(limits, CountsAfter(limits, h[..|h| - 1]), h[|h| - 1]);
    }
  }

  // ----- What an open bucket's counter says -----

  /** `n` full quotas. */
  function Quotas(max: nat, n: nat): nat {
    if n == 0 then 0 else Quotas(max, n - 1) + max
  }

  lemma {:induction false} QuotasAreProduct(max: nat, n: nat)
    ensures Quotas(max, n) == max * n
  {
    if n > 0 {
      QuotasAreProduct(max, n - 1);
      assert max * n == max * (n - 1) + max;
    }
  }

  /** Pruning leaves the bucket alone while it is open, so its counter drops only by eviction:
      then it accounts for every admission since the last eviction, and with no eviction for
      every call. Once the window has closed only the overall bound survives. */
  ghost predicate Accounted(limits: Limits, h: seq<Call>, b: BucketKey, now: int)
    requires b.action in limits
  {
    var max := Cap(limits[b.action].max);
    var stored := Get(CountsAfter(limits, h), b);
    && Admitted(limits, h, b) <= Quotas(max, Evictions(h, b) + 1)
    && (!Dead(limits, b, now) ==> Admitted(limits, h, b) <= Quotas(max, Evictions(h, b)) + Min(stored, max))
    && (Evictions(h, b) == 0 ==> Admitted(limits, h, b) == Min(Calls(limits, h, b), max))
    && (Evictions(h, b) == 0 && !Dead(limits, b, now) ==> stored == Calls(limits, h, b))
  }

  /** Reclaiming space drops a counter that was evicted, may drop one that is dead, and leaves the others. */
  lemma ReclaimedCounter(limits: Limits, counts: Counts, c: Call, b: BucketKey)
    requires Victims(limits, counts, c.now, c.evicted)
    ensures var r := Get(Reclaimed(limits, counts, c.now, c.evicted), b);
            && (b in c.evicted ==> r == 0 && !Dead(limits, b, c.now))
            && (b !in c.evicted && !Dead(limits, b, c.now) ==> r == Get(counts, b))
            && (b !in c.evicted && Dead(limits, b, c.now) ==> r == 0 || r == Get(counts, b))
  {
  }

  lemma AccountedMiss(limits: Limits, h: seq<Call>, b: BucketKey, before: int)
    requires IsRun(limits, h) && h != [] && b.action in limits
    requires before <= h[|h| - 1].now && !Hits(limits, h[|h| - 1], b)
    requires Accounted(limits, h[..|h| - 1], b, before)
    ensures Accounted(limits, h, b, h[|h| - 1].now)
  {
    var p, c := h[..|h| - 1], h[|h| - 1];
    StoredAtMostIdeal(limits, p, b);
    if Dead(limits, b, before) {
      DeadForever(limits, b, before, c.now);
    }
    if c.action in limits {
      ReclaimedCounter(limits, CountsAfter(limits, p), c, b);
    }
  }

  lemma AccountedHit(limits: Limits, h: seq<Call>, b: BucketKey, before: int)
    requires IsRun(limits, h) && h != []
    requires b.action in limits && WholeSeconds(limits[b.action].window)
    requires before <= h[|h| - 1].now && Hits(limits, h[|h| - 1], b)
    requires Accounted(limits, h[..|h| - 1], b, before)
    ensures Accounted(limits, h, b, h[|h| - 1].now)
  {
    var p, c := h[..|h| - 1], h[|h| - 1];
    StoredAtMostIdeal(limits, p, b);
    InOwnWindow(c.now, limits[b.action].window);
    if Dead(limits, b, before) {
      DeadForever(limits, b, before, c.now);
    }
    ReclaimedCounter(limits, CountsAfter(limits, p), c, b);
  }

  lemma {:induction false} AccountedAlways(limits: Limits, h: seq<Call>, b: BucketKey)
    requires IsRun(limits, h) && Monotone(h)
    requires b.action in limits && WholeSeconds(limits[b.action].window)
    ensures h == [] ==> forall now :: Accounted(limits, h, b, now)
    ensures h != [] ==> Accounted(limits, h, b, h[|h| - 1].now)
  {
    if h != [] {
      var p := h[..|h| - 1];
      AccountedAlways(limits, p, b);
      var before := if p == [] then h[|h| - 1].now else p[|p| - 1].now;
      if Hits(limits, h[|h| - 1], b) {
        AccountedHit(limits, h, b, before);
      } else {
        AccountedMiss(limits, h, b, before);
      }
    }
  }

  /** The most that a bucket admits: its quota, once more for each of its evictions. */
  function AdmissionLimit(limits: Limits, h: seq<Call>, b: BucketKey): nat
    requires b.action in limits
  {
    Cap(limits[b.action].max) * (1 + Evictions(h, b))
  }

  /** Each eviction of a bucket buys at most one further quota, and without one the
      bucket admits exactly its first `max` calls. */
  lemma AdmissionBound(limits: Limits, h: seq<Call>, b: BucketKey)
    requires IsRun(limits, h) && Monotone(h)
    requires b.action in limits && WholeSeconds(limits[b.action].window)
    ensures Admitted(limits, h, b) <= AdmissionLimit(limits, h, b)
    ensures Evictions(h, b) == 0 ==> Admitted(limits, h, b) == Min(Calls(limits, h, b), Cap(limits[b.action].max))
  {
    AccountedAlways(limits, h, b);
    if h == [] {
      assert Accounted(limits, h, b, 0);
    }
    QuotasAreProduct(Cap(limits[b.action].max), 1 + Evictions(h, b));
  }

  // ----- Exactness -----

  lemma MonotonePrefix(h: seq<Call>, i: nat)
    requires Monotone(h) && i <= |h|
    ensures Monotone(h[..i])
  {
  }

  /** While a bucket has not been evicted, pruning notwithstanding, every call on it gets
      the answer of the ideal limiter. */
  lemma ExactWithoutEviction(limits: Limits, h: seq<Call>, i: nat)
    requires IsRun(limits, h) && Monotone(h) && i < |h| && h[i].action in limits
    requires WholeSeconds(limits[h[i].action].window)
    requires Evictions(h[..i + 1], BucketAt(limits, h[i].key, h[i].action, h[i].now)) == 0
    ensures h[i].allowed <==> IdealAllows(limits, h[..i], BucketAt(limits, h[i].key, h[i].action, h[i].now))
  {
    var b := BucketAt(limits, h[i].key, h[i].action, h[i].now);
    assert h[..i + 1][..i] == h[..i];
    RunPrefix(limits, h, i);
    MonotonePrefix(h, i);
    AccountedAlways(limits, h[..i], b);
    InOwnWindow(h[i].now, limits[h[i].action].window);
    if i > 0 {
      assert !Dead(limits, b, h[i].now);
      if Dead(limits, b, h[i - 1].now) {
        DeadForever(limits, b, h[i - 1].now, h[i].now);
      }
      assert h[..i][i - 1] == h[i - 1];
    }
  }

  /** A stored bucket has been hit, so what survives a prune is alive for the ideal limiter too. */
  lemma {:induction false} StoredWasHit(limits: Limits, h: seq<Call>, b: BucketKey)
    requires IsRun(limits, h) && b in CountsAfter(limits, h)
    ensures exists i :: 0 <= i < |h| && Hits(limits, h[i], b)
  {
    if h != [] {
      var p, c := h[..|h| - 1], h[|h| - 1];
      if Hits(limits, c, b) {
        assert Hits(limits, h[|h| - 1], b);
      } else {
        StoredWasHit(limits, p, b);
        var i :| 0 <= i < |p| && Hits(limits, p[i], b);
        assert Hits(limits, h[i], b);
      }
    }
  }

  lemma SubsetSize<T>(a: set<T>, b: set<T>)
    requires a <= b
    ensures |a| <= |b|
  {
    assert b == a + (b - a);
  }

  lemma AliveWithinIdeal(limits: Limits, h: seq<Call>, now: int)
    requires IsRun(limits, h)
    ensures Alive(limits, CountsAfter(limits, h), now).Keys <= IdealAlive(limits, h, now)
    ensures |Alive(limits, CountsAfter(limits, h), now)| <= |IdealAlive(limits, h, now)|
  {
    var alive := Alive(limits, CountsAfter(limits, h), now);
    forall b | b in alive ensures b in IdealAlive(limits, h, now) {
      StoredWasHit(limits, h, b);
    }
    SubsetSize(alive.Keys, IdealAlive(limits, h, now));
    assert |alive.Keys| == |alive|;
  }

  lemma {:induction false} NoEvictions(h: seq<Call>, b: BucketKey)
    requires forall i :: 0 <= i < |h| ==> h[i].evicted == {}
    ensures Evictions(h, b) == 0
  {
    if h != [] {
      NoEvictions(h[..|h| - 1], b);
    }
  }

  lemma {:induction false} HitIsCounted(limits: Limits, h: seq<Call>, k: nat, b: BucketKey)
    requires k < |h| && Hits(limits, h[k], b)
    ensures Calls(limits, h, b) >= 1
  {
    if k < |h| - 1 {
      HitIsCounted(limits, h[..|h| - 1], k, b);
    }
  }

  /** With nothing evicted so far, the map still holds every open bucket. */
  lemma OpenBucketsStored(limits: Limits, h: seq<Call>, now: int)
    requires IsRun(limits, h) && Monotone(h) && (h == [] || h[|h| - 1].now <= now)
    requires forall a :: a in limits ==> WholeSeconds(limits[a].window)
    requires forall i :: 0 <= i < |h| ==> h[i].evicted == {}
    ensures IdealAlive(limits, h, now) == Alive(limits, CountsAfter(limits, h), now).Keys
  {
    AliveWithinIdeal(limits, h, now);
    forall b | b in IdealAlive(limits, h, now) ensures b in Alive(limits, CountsAfter(limits, h), now) {
      var k :| 0 <= k < |h| && Hits(limits, h[k], b);
      HitIsCounted(limits, h, k, b);
      NoEvictions(h, b);
      AccountedAlways(limits, h, b);
      if Dead(limits, b, h[|h| - 1].now) {
        DeadForever(limits, b, h[|h| - 1].now, now);
      }
    }
  }

  lemma NoEvictionIff(limits: Limits, h: seq<Call>)
    requires IsRun(limits, h) && Monotone(h)
    requires forall a :: a in limits ==> WholeSeconds(limits[a].window)
    ensures (forall i :: 0 <= i < |h| ==> h[i].evicted == {})
            <==> (forall i :: 0 <= i < |h| && h[i].action in limits ==>
                    |IdealAlive(limits, h[..i], h[i].now)| < MAX_TRACKED_BUCKETS)
  {
    forall i | 0 <= i < |h|
      ensures h[i].action !in limits || |IdealAlive(limits, h[..i], h[i].now)| < MAX_TRACKED_BUCKETS ==>
                h[i].evicted == {}
    {
      RunPrefix(limits, h, i);
      AliveWithinIdeal(limits, h[..i], h[i].now);
    }
    if forall i :: 0 <= i < |h| ==> h[i].evicted == {} {
      forall i | 0 <= i < |h| && h[i].action in limits
        ensures |IdealAlive(limits, h[..i], h[i].now)| < MAX_TRACKED_BUCKETS
      {
        RunPrefix(limits, h, i);
        OpenBucketsStored(limits, h[..i], h[i].now);
        var counts := CountsAfter(limits, h[..i]);
        var alive := Alive(limits, counts, h[i].now);
        assert |alive.Keys| == |alive| && |counts.Keys| == |counts|;
        SubsetSize(alive.Keys, counts.Keys);
        assert h[i].evicted == {};
      }
    }
  }

  lemma LightLoadIff(limits: Limits, h: seq<Call>)
    requires Monotone(h)
    requires forall a :: a in limits ==> WholeSeconds(limits[a].window)
    ensures LightLoad(limits, h) <==>
            forall i :: 0 <= i < |h| && h[i].action in limits ==>
              |IdealAlive(limits, h[..i], h[i].now)| < MAX_TRACKED_BUCKETS
  {
    forall i | 0 <= i < |h|
      ensures |IdealAlive(limits, h[..i], h[i].now)| == |OpenKeys(limits, h[..i], h[i].now)|
    {
      MonotonePrefix(h, i);
      OpenKeysCount(limits, h[..i], h[i].now);
    }
  }

  /** Exactly when it happens: a run evicts nothing if and only if every call on a limited
      action finds fewer than 4096 pairs of action and key open. */
  lemma EvictionExactlyUnderLoad(limits: Limits, h: seq<Call>)
    requires IsRun(limits, h) && Monotone(h)
    requires forall a :: a in limits ==> WholeSeconds(limits[a].window)
    ensures (forall i :: 0 <= i < |h| ==> h[i].evicted == {}) <==> LightLoad(limits, h)
  {
    NoEvictionIff(limits, h);
    LightLoadIff(limits, h);
  }

  /** The limiter is exact: under light load a call is allowed if and only if its action has no limit, or
      fewer than `max` calls for its action and key came before it in its window. */
  lemma Exactness(limits: Limits, h: seq<Call>)
    requires IsRun(limits, h) && Monotone(h)
    requires forall a :: a in limits ==> WholeSeconds(limits[a].window)
    requires LightLoad(limits, h)
    ensures forall i :: 0 <= i < |h| ==>
              (h[i].allowed <==> h[i].action in limits ==>
                                 BelowLimit(limits, h[..i], h[i].key, h[i].action, h[i].now))
  {
    LightLoadIff(limits, h);
    NoEvictionIff(limits, h);
    forall i | 0 <= i < |h|
      ensures h[i].allowed <==> h[i].action in limits ==>
                                BelowLimit(limits, h[..i], h[i].key, h[i].action, h[i].now)
    {
      if h[i].action in limits {
        ExactAnswer(limits, h, i);
      } else {
        RunPrefix(limits, h, i);
      }
    }
  }

  /** With nothing evicted the answer to call `i` is the one that its limit asks for, dead buckets
      having been pruned or not. */
  lemma ExactAnswer(limits: Limits, h: seq<Call>, i: nat)
    requires IsRun(limits, h) && Monotone(h) && i < |h| && h[i].action in limits
    requires WholeSeconds(limits[h[i].action].window)
    requires forall j :: 0 <= j < |h| ==> h[j].evicted == {}
    ensures h[i].allowed <==> BelowLimit(limits, h[..i], h[i].key, h[i].action, h[i].now)
  {
    NoEvictions(h[..i + 1], BucketAt(limits, h[i].key, h[i].action, h[i].now));
    ExactWithoutEviction(limits, h, i);
    WindowCounts(limits, h[..i], h[i].key, h[i].action, h[i].now);
  }

  // ----- When the next answer is certain -----

  /** `c` is a possible next call for this key and action at this instant. */
  ghost predicate NextCall(limits: Limits, h: seq<Call>, key: string, action: string, now: int, c: Call) {
    c.key == key && c.action == action && c.now == now && Legal(limits, CountsAfter(limits, h), c)
  }

  lemma {:induction false} SubsetWith<T>(s: set<T>, x: T, n: nat) returns (v: set<T>)
    requires x in s && 1 <= n <= |s|
    ensures v <= s && x in v && |v| == n
    decreases n
  {
    if n == 1 {
      v := {x};
    } else {
      var w := SubsetWith(s, x, n - 1);
      if s <= w {
        SubsetSize(s, w);
      }
      var y :| y in s && y !in w;
      v := w + {y};
    }
  }

  /** With the map full of open buckets, the caller's own bucket may be among the victims. */
  lemma OwnBucketCanGo(limits: Limits, h: seq<Call>, key: string, action: string, now: int) returns (c: Call)
    requires action in limits && limits[action].max >= 1
    requires BucketAt(limits, key, action, now) in Alive(limits, CountsAfter(limits, h), now)
    requires |Alive(limits, CountsAfter(limits, h), now)| >= MAX_TRACKED_BUCKETS
    ensures NextCall(limits, h, key, action, now, c) && c.allowed
  {
    var counts, b := CountsAfter(limits, h), BucketAt(limits, key, action, now);
    var alive := Alive(limits, counts, now);
    assert |alive.Keys| == |alive| && |counts.Keys| == |counts|;
    SubsetSize(alive.Keys, counts.Keys);
    var victims := SubsetWith(alive.Keys, b, Excess(|alive|));
    c := Call(key, action, now, victims, true);
    ReclaimedCounter(limits, counts, c, b);
  }

  /** With fewer open buckets there are no victims, so the stored counter decides. */
  lemma NoVictims(limits: Limits, h: seq<Call>, c: Call)
    requires c.action in limits && WholeSeconds(limits[c.action].window)
    requires Legal(limits, CountsAfter(limits, h), c)
    requires |Alive(limits, CountsAfter(limits, h), c.now)| < MAX_TRACKED_BUCKETS
    ensures var b := BucketAt(limits, c.key, c.action, c.now);
            c.evicted == {} && (c.allowed <==> Get(CountsAfter(limits, h), b) + 1 <= limits[c.action].max)
  {
    InOwnWindow(c.now, limits[c.action].window);
    ReclaimedCounter(limits, CountsAfter(limits, h), c, BucketAt(limits, c.key, c.action, c.now));
  }

  lemma SomeNextCall(limits: Limits, h: seq<Call>, key: string, action: string, now: int) returns (c: Call)
    requires action in limits && |Alive(limits, CountsAfter(limits, h), now)| < MAX_TRACKED_BUCKETS
    ensures NextCall(limits, h, key, action, now, c)
  {
    var counts, b := CountsAfter(limits, h), BucketAt(limits, key, action, now);
    c := Call(key, action, now, {}, Get(Reclaimed(limits, counts, now, {}), b) + 1 <= limits[action].max);
  }

  /** A limit below one answers no call. */
  lemma NothingAllowed(limits: Limits, h: seq<Call>, c: Call)
    requires IsRun(limits, h) && c.action in limits && limits[c.action].max < 1
    requires Legal(limits, CountsAfter(limits, h), c)
    ensures !c.allowed
  {
    var b := BucketAt(limits, c.key, c.action, c.now);
    StoredAtMostIdeal(limits, h, b);
    ReclaimedCounter(limits, CountsAfter(limits, h), c, b);
  }

  /** After any run at all, with any clock: the next call is certain to be refused if and only if the limit is
      below one, or its bucket's stored counter is used up and fewer than 4096 stored buckets are open. */
  lemma RefusalCertainIff(limits: Limits, h: seq<Call>, key: string, action: string, now: int)
    requires IsRun(limits, h) && action in limits && WholeSeconds(limits[action].window)
    ensures (forall c :: NextCall(limits, h, key, action, now, c) ==> !c.allowed)
            <==> || limits[action].max < 1
                 || (&& Get(CountsAfter(limits, h), BucketAt(limits, key, action, now)) >= limits[action].max
                     && |Alive(limits, CountsAfter(limits, h), now)| < MAX_TRACKED_BUCKETS)
  {
    var counts, b := CountsAfter(limits, h), BucketAt(limits, key, action, now);
    if limits[action].max < 1 {
      forall c | NextCall(limits, h, key, action, now, c) ensures !c.allowed {
        NothingAllowed(limits, h, c);
      }
    } else if |Alive(limits, counts, now)| < MAX_TRACKED_BUCKETS {
      forall c | NextCall(limits, h, key, action, now, c)
        ensures c.allowed <==> Get(counts, b) + 1 <= limits[action].max
      {
        NoVictims(limits, h, c);
      }
      var c := SomeNextCall(limits, h, key, action, now);
      assert NextCall(limits, h, key, action, now, c);
    } else {
      var c := AllowedUnderLoad(limits, h, key, action, now);
      assert NextCall(limits, h, key, action, now, c);
    }
  }

  /** Under full load some order of eviction lets the call through. */
  lemma AllowedUnderLoad(limits: Limits, h: seq<Call>, key: string, action: string, now: int) returns (c: Call)
    requires action in limits && WholeSeconds(limits[action].window) && limits[action].max >= 1
    requires |Alive(limits, CountsAfter(limits, h), now)| >= MAX_TRACKED_BUCKETS
    ensures NextCall(limits, h, key, action, now, c) && c.allowed
  {
    var counts, b := CountsAfter(limits, h), BucketAt(limits, key, action, now);
    var alive := Alive(limits, counts, now);
    InOwnWindow(now, limits[action].window);
    if b in alive {
      c := OwnBucketCanGo(limits, h, key, action, now);
    } else {
      assert |alive.Keys| == |alive| && |counts.Keys| == |counts|;
      SubsetSize(alive.Keys, counts.Keys);
      var x :| x in alive.Keys;
      var victims := SubsetWith(alive.Keys, x, Excess(|alive|));
      c := Call(key, action, now, victims, true);
      ReclaimedCounter(limits, counts, c, b);
      assert b !in counts;
    }
  }

  /** The stored map is the ideal one as far as the next call is concerned. */
  lemma StoredIsIdeal(limits: Limits, h: seq<Call>, key: string, action: string, now: int)
    requires IsRun(limits, h) && Monotone(h) && (h == [] || h[|h| - 1].now <= now)
    requires forall a :: a in limits ==> WholeSeconds(limits[a].window)
    requires forall i :: 0 <= i < |h| ==> h[i].evicted == {}
    requires action in limits
    ensures var b := BucketAt(limits, key, action, now);
            Get(CountsAfter(limits, h), b) == Calls(limits, h, b)
            && Admitted(limits, h, b) == Min(Calls(limits, h, b), Cap(limits[action].max))
    ensures |Alive(limits, CountsAfter(limits, h), now)| == |IdealAlive(limits, h, now)|
  {
    var b := BucketAt(limits, key, action, now);
    OpenBucketsStored(limits, h, now);
    var alive := Alive(limits, CountsAfter(limits, h), now);
    assert |alive.Keys| == |alive|;
    NoEvictions(h, b);
    AccountedAlways(limits, h, b);
    InOwnWindow(now, limits[action].window);
    if h != [] {
      AliveBefore(limits, b, h[|h| - 1].now, now);
    }
  }

  lemma AllowedNext(limits: Limits, h: seq<Call>, c: Call)
    requires IsRun(limits, h) && c.action in limits && Legal(limits, CountsAfter(limits, h), c)
    requires IdealAllows(limits, h, BucketAt(limits, c.key, c.action, c.now))
    ensures c.allowed
  {
    RunMore(limits, h, c);
    assert (h + [c])[..|h|] == h;
    NeverStricter(limits, h + [c], |h|);
  }

  /** Fewer than `max` calls for the action and key are in the window of `now`. */
  predicate BelowLimit(limits: Limits, h: seq<Call>, key: string, action: string, now: int)
    requires action in limits && WholeSeconds(limits[action].window)
  {
    var w := limits[action].window;
    CallsIn(h, key, action, now / w * w, now / w * w + w) < limits[action].max
  }

  /** The calls for the action and key admitted in the window of `now`. */
  function AdmittedNow(limits: Limits, h: seq<Call>, key: string, action: string, now: int): nat
    requires action in limits && WholeSeconds(limits[action].window)
  {
    var w := limits[action].window;
    AdmittedBetween(h, key, action, now / w * w, now / w * w + w)
  }

  /** The call is below its limit, or fewer than 4096 pairs of action and key are open, or the limit permits no
      call ever. */
  ghost predicate LimitSafe(limits: Limits, h: seq<Call>, key: string, action: string, now: int)
    requires forall a :: a in limits ==> WholeSeconds(limits[a].window)
    requires action in limits
  {
    BelowLimit(limits, h, key, action, now) || |OpenKeys(limits, h, now)| < 4096 || limits[action].max < 1
  }

  /** In terms of buckets: the next call is certain to get the ideal answer. */
  lemma IdealCertainIff(limits: Limits, h: seq<Call>, key: string, action: string, now: int)
    requires IsRun(limits, h) && Monotone(h) && (h == [] || h[|h| - 1].now <= now)
    requires forall a :: a in limits ==> WholeSeconds(limits[a].window)
    requires forall i :: 0 <= i < |h| ==> h[i].evicted == {}
    requires action in limits
    ensures var b := BucketAt(limits, key, action, now);
            (forall c :: NextCall(limits, h, key, action, now, c) ==> (c.allowed <==> IdealAllows(limits, h, b)))
            <==> || IdealAllows(limits, h, b)
                 || |IdealAlive(limits, h, now)| < MAX_TRACKED_BUCKETS
                 || limits[action].max < 1
  {
    var b := BucketAt(limits, key, action, now);
    StoredIsIdeal(limits, h, key, action, now);
    RefusalCertainIff(limits, h, key, action, now);
    if IdealAllows(limits, h, b) {
      forall c | NextCall(limits, h, key, action, now, c) ensures c.allowed {
        AllowedNext(limits, h, c);
      }
    }
  }

  lemma LimitSafeIff(limits: Limits, h: seq<Call>, key: string, action: string, now: int)
    requires Monotone(h) && (h == [] || h[|h| - 1].now <= now)
    requires forall a :: a in limits ==> WholeSeconds(limits[a].window)
    requires action in limits
    ensures var b := BucketAt(limits, key, action, now);
            && (BelowLimit(limits, h, key, action, now) <==> IdealAllows(limits, h, b))
            && (LimitSafe(limits, h, key, action, now) <==>
                || IdealAllows(limits, h, b)
                || |IdealAlive(limits, h, now)| < MAX_TRACKED_BUCKETS
                || limits[action].max < 1)
  {
    WindowCounts(limits, h, key, action, now);
    OpenKeysCount(limits, h, now);
  }

  /** Exactly when the promised limit holds. While nothing has been evicted, the next call is certain to
      get the answer that its limit asks for if and only if `LimitSafe`. In all other cases some
      order of eviction answers true beyond the limit. */
  lemma AnswerCertainIff(limits: Limits, h: seq<Call>, key: string, action: string, now: int)
    requires IsRun(limits, h) && Monotone(h) && (h == [] || h[|h| - 1].now <= now)
    requires forall a :: a in limits ==> WholeSeconds(limits[a].window)
    requires forall i :: 0 <= i < |h| ==> h[i].evicted == {}
    requires action in limits
    ensures (forall c :: NextCall(limits, h, key, action, now, c) ==>
               (c.allowed <==> BelowLimit(limits, h, key, action, now)))
            <==> LimitSafe(limits, h, key, action, now)
  {
    LimitSafeIff(limits, h, key, action, now);
    IdealCertainIff(limits, h, key, action, now);
  }

  /** The same, for the limit itself: the next call is certain to keep the bucket's admissions
      within what `max` permits if and only if `LimitSafe`. */
  lemma LimitKeptIff(limits: Limits, h: seq<Call>, key: string, action: string, now: int)
    requires IsRun(limits, h) && Monotone(h) && (h == [] || h[|h| - 1].now <= now)
    requires forall a :: a in limits ==> WholeSeconds(limits[a].window)
    requires forall i :: 0 <= i < |h| ==> h[i].evicted == {}
    requires action in limits
    ensures (forall c :: NextCall(limits, h, key, action, now, c) ==>
               AdmittedNow(limits, h + [c], key, action, now) <= Cap(limits[action].max))
            <==> LimitSafe(limits, h, key, action, now)
  {
    var b := BucketAt(limits, key, action, now);
    StoredIsIdeal(limits, h, key, action, now);
    WindowCounts(limits, h, key, action, now);
    AnswerCertainIff(limits, h, key, action, now);
    forall c | NextCall(limits, h, key, action, now, c)
      ensures AdmittedNow(limits, h + [c], key, action, now) <= Cap(limits[action].max)
              <==> BelowLimit(limits, h, key, action, now) || !c.allowed
    {
      WindowCounts(limits, h + [c], key, action, now);
      MeasuresOfMore(limits, h, c, b);
      assert Hits(limits, c, b);
    }
  }

  lemma {:induction false} NothingAdmitted(limits: Limits, h: seq<Call>, b: BucketKey)
    requires IsRun(limits, h) && b.action in limits && limits[b.action].max < 1
    ensures Admitted(limits, h, b) == 0
  {
    if h != [] {
      var p, c := h[..|h| - 1], h[|h| - 1];
      NothingAdmitted(limits, p, b);
      if Hits(limits, c, b) {
        NothingAllowed(limits, p, c);
      }
    }
  }

  /** The exact condition after any run at all, with any clock and any evictions: the next call is certain to leave
      the bucket's admissions within the limit if and only if they are still below it, or have just reached it
      and the call is certain to be refused. */
  lemma LimitStaysKeptIff(limits: Limits, h: seq<Call>, key: string, action: string, now: int)
    requires IsRun(limits, h) && action in limits && WholeSeconds(limits[action].window)
    ensures var b, max := BucketAt(limits, key, action, now), limits[action].max;
            (forall c :: NextCall(limits, h, key, action, now, c) ==> Admitted(limits, h + [c], b) <= Cap(max))
            <==> || max < 1
                 || Admitted(limits, h, b) < max
                 || (&& Admitted(limits, h, b) == max && Get(CountsAfter(limits, h), b) >= max
                     && |Alive(limits, CountsAfter(limits, h), now)| < MAX_TRACKED_BUCKETS)
  {
    var b, max := BucketAt(limits, key, action, now), limits[action].max;
    RefusalCertainIff(limits, h, key, action, now);
    forall c | NextCall(limits, h, key, action, now, c)
      ensures Admitted(limits, h + [c], b) == Admitted(limits, h, b) + if c.allowed then 1 else 0
    {
      MeasuresOfMore(limits, h, c, b);
      assert Hits(limits, c, b);
    }
    if max < 1 {
      NothingAdmitted(limits, h, b);
    } else if |Alive(limits, CountsAfter(limits, h), now)| < MAX_TRACKED_BUCKETS {
      var c := SomeNextCall(limits, h, key, action, now);
      assert NextCall(limits, h, key, action, now, c);
    } else {
      var c := AllowedUnderLoad(limits, h, key, action, now);
      assert NextCall(limits, h, key, action, now, c);
    }
  }

  // ----- Sliding windows -----

  /** The calls for (action, key) answered true at an instant of [lo, hi). */
  function AdmittedBetween(h: seq<Call>, key: string, action: string, lo: int, hi: int): nat {
    if h == [] then 0
    else AdmittedBetween(h[..|h| - 1], key, action, lo, hi) +
         var c := h[|h| - 1];
         if c.key == key && c.action == action && lo <= c.now < hi && c.allowed then 1 else 0
  }

  /** An interval of one window length meets only the grid windows of its two ends. */
  lemma TwoWindows(t: int, u: int, w: int)
    requires w > 0 && t <= u < t + w
    ensures Truncate(u, w) == Truncate(t, w) || Truncate(u, w) == Truncate(t + w, w)
  {
    var start := Truncate(t, w);
    TruncateIs(t, w, t / w);
    assert start == (t / w) * w && start <= t < start + w;
    MulMonotone(t / w, t / w, w);
    if u < start + w {
      TruncateIs(u, w, t / w);
    } else {
      TruncateIs(u, w, t / w + 1);
    }
    TruncateIs(t + w, w, t / w + 1);
  }

  lemma TruncateIs(x: int, w: int, q: int)
    requires w > 0 && q * w <= x < q * w + w
    ensures Truncate(x, w) == q * w
  {
    QuotientIs(x, w, q);
    assert x % w == x - w * (x / w);
  }

  lemma QuotientIs(x: int, w: int, q: int)
    requires w > 0 && q * w <= x < q * w + w
    ensures x / w == q
  {
    var r := x / w;
    assert r * w <= x < r * w + w;
    MulMonotone(r + 1, q, w);
    MulMonotone(r, r, w);
    MulMonotone(q + 1, r, w);
    MulMonotone(q, q, w);
  }

  lemma {:induction false} SlidingSplit(limits: Limits, h: seq<Call>, key: string, action: string, t: int)
    requires action in limits && limits[action].window > 0
    ensures var w := limits[action].window;
            AdmittedBetween(h, key, action, t, t + w)
            <= Admitted(limits, h, BucketAt(limits, key, action, t))
             + Admitted(limits, h, BucketAt(limits, key, action, t + w))
  {
    if h != [] {
      var c, w := h[|h| - 1], limits[action].window;
      SlidingSplit(limits, h[..|h| - 1], key, action, t);
      if c.action == action && t <= c.now < t + w {
        TwoWindows(t, c.now, w);
      }
    }
  }

  /** Any interval of one window length admits at most two quotas, plus one for each eviction
      of the two buckets that it meets. */
  lemma SlidingBound(limits: Limits, h: seq<Call>, key: string, action: string, t: int)
    requires IsRun(limits, h) && Monotone(h)
    requires action in limits && WholeSeconds(limits[action].window)
    ensures var w := limits[action].window;
            AdmittedBetween(h, key, action, t, t + w)
            <= Cap(limits[action].max) * (2 + Evictions(h, BucketAt(limits, key, action, t))
                                            + Evictions(h, BucketAt(limits, key, action, t + w)))
  {
    var w, max := limits[action].window, Cap(limits[action].max);
    var b, b' := BucketAt(limits, key, action, t), BucketAt(limits, key, action, t + w);
    SlidingSplit(limits, h, key, action, t);
    AdmissionBound(limits, h, b);
    AdmissionBound(limits, h, b');
    var e, e' := Evictions(h, b), Evictions(h, b');
    assert max * (2 + e + e') == max * (1 + e) + max * (1 + e');
  }

  // ----- What eviction costs -----

  const FLOOD_LIMITS: Limits := map["auth.exchange" := Limit(1, HOUR)]

  /** The key of a sign-in from address "x", "xx" and so on. */
  function FloodKey(n: nat): string {
    "ip:" + seq(n + 1, _ => 'x')
  }

  function FloodCall(n: nat): Call {
    Call(FloodKey(n), "auth.exchange", 0, {}, true)
  }

  /** `n` first calls from `n` different addresses at one instant. */
  function Flood(n: nat): seq<Call> {
    if n == 0 then [] else Flood(n - 1) + [FloodCall(n - 1)]
  }

  function FloodBucket(n: nat): BucketKey {
    BucketAt(FLOOD_LIMITS, FloodKey(n), "auth.exchange", 0)
  }

  ghost predicate Flooded(counts: Counts, n: nat) {
    |counts| == n && forall b :: b in counts ==> counts[b] == 1 && |b.key| < n + 4 && !Dead(FLOOD_LIMITS, b, 0)
  }

  lemma FloodBucketAlive(n: nat)
    ensures |FloodBucket(n).key| == n + 4 && FloodBucket(n).action == "auth.exchange"
    ensures !Dead(FLOOD_LIMITS, FloodBucket(n), 0)
  {
    InOwnWindow(0, HOUR);
  }

  lemma FloodStep(counts: Counts, n: nat)
    requires n < MAX_TRACKED_BUCKETS && Flooded(counts, n)
    ensures Legal(FLOOD_LIMITS, counts, FloodCall(n))
    ensures After(FLOOD_LIMITS, counts, FloodCall(n)) == counts[FloodBucket(n) := 1]
  {
    assert |FloodBucket(n).key| == n + 4;
    assert FloodBucket(n) !in counts;
  }

  lemma FloodGrows(counts: Counts, n: nat, b: BucketKey)
    requires Flooded(counts, n) && |b.key| == n + 4 && !Dead(FLOOD_LIMITS, b, 0)
    ensures Flooded(counts[b := 1], n + 1)
  {
    assert b !in counts;
    assert counts[b := 1].Keys == counts.Keys + {b};
    assert |counts.Keys + {b}| == n + 1;
  }

  lemma {:induction false} FloodSize(n: nat)
    ensures |Flood(n)| == n && forall i :: 0 <= i < n ==> Flood(n)[i].now == 0
  {
    if n > 0 {
      FloodSize(n - 1);
    }
  }

  lemma {:induction false} FloodRun(n: nat)
    requires n <= MAX_TRACKED_BUCKETS
    ensures IsRun(FLOOD_LIMITS, Flood(n)) && Flooded(CountsAfter(FLOOD_LIMITS, Flood(n)), n)
  {
    if n > 0 {
      var p := Flood(n - 1);
      var counts := CountsAfter(FLOOD_LIMITS, p);
      FloodRun(n - 1);
      FloodStep(counts, n - 1);
      RunMore(FLOOD_LIMITS, p, FloodCall(n - 1));
      FloodBucketAlive(n - 1);
      FloodGrows(counts, n - 1, FloodBucket(n - 1));
    }
  }

  lemma {:induction false} FirstBucketStored(n: nat)
    requires 0 < n <= MAX_TRACKED_BUCKETS
    ensures FloodBucket(0) in CountsAfter(FLOOD_LIMITS, Flood(n))
  {
    FloodRun(n - 1);
    FloodStep(CountsAfter(FLOOD_LIMITS, Flood(n - 1)), n - 1);
    RunMore(FLOOD_LIMITS, Flood(n - 1), FloodCall(n - 1));
    if n > 1 {
      FirstBucketStored(n - 1);
    }
  }

  lemma MeasuresOfMore(limits: Limits, h: seq<Call>, c: Call, b: BucketKey)
    ensures Calls(limits, h + [c], b) == Calls(limits, h, b) + if Hits(limits, c, b) then 1 else 0
    ensures Admitted(limits, h + [c], b) == Admitted(limits, h, b) + if Hits(limits, c, b) && c.allowed then 1 else 0
    ensures Evictions(h + [c], b) == Evictions(h, b) + if b in c.evicted then 1 else 0
  {
    assert (h + [c])[..|h + [c]| - 1] == h;
  }

  lemma OnlyTheFirstHits(n: nat)
    ensures Hits(FLOOD_LIMITS, FloodCall(n), FloodBucket(0)) <==> n == 0
  {
    assert FloodBucket(n).key == FloodKey(n) && |FloodKey(n)| == n + 4;
    assert FloodBucket(0).key == FloodKey(0) && |FloodKey(0)| == 4;
  }

  lemma {:induction false} FloodHits(n: nat)
    ensures var hits := if n == 0 then 0 else 1;
            && Calls(FLOOD_LIMITS, Flood(n), FloodBucket(0)) == hits
            && Admitted(FLOOD_LIMITS, Flood(n), FloodBucket(0)) == hits
            && Evictions(Flood(n), FloodBucket(0)) == 0
  {
    if n > 0 {
      FloodHits(n - 1);
      OnlyTheFirstHits(n - 1);
      MeasuresOfMore(FLOOD_LIMITS, Flood(n - 1), FloodCall(n - 1), FloodBucket(0));
    }
  }

  /** "At most `max` per window" is not what the code guarantees: with all 4096 slots taken, the
      next call may evict its own bucket and be answered true beyond `max`. The same run shows
      that `AdmissionBound` cannot be improved. */
  lemma EvictionReadmits() returns (h: seq<Call>)
    ensures IsRun(FLOOD_LIMITS, h) && Monotone(h)
    ensures var b, last := FloodBucket(0), |h| - 1;
            && |h| == 4097 && Hits(FLOOD_LIMITS, h[last], b)
            && h[last].allowed && !IdealAllows(FLOOD_LIMITS, h[..last], b)
            && Evictions(h, b) == 1
            && Admitted(FLOOD_LIMITS, h, b) == AdmissionLimit(FLOOD_LIMITS, h, b) == 2
  {
    var n := MAX_TRACKED_BUCKETS;
    var p, b := Flood(n), FloodBucket(0);
    var c := FloodCall(0).(evicted := {b});
    h := p + [c];
    FloodSize(n);
    FloodRun(n);
    FirstBucketStored(n);
    EvictedCallLegal(CountsAfter(FLOOD_LIMITS, p), b);
    RunMore(FLOOD_LIMITS, p, c);
    FloodHits(n);
    MeasuresOfMore(FLOOD_LIMITS, p, c, b);
    assert h[..n] == p;
  }

  /** In a full map the one victim may be the caller's own bucket, which then starts again. */
  lemma EvictedCallLegal(counts: Counts, b: BucketKey)
    requires Flooded(counts, MAX_TRACKED_BUCKETS) && b == FloodBucket(0) && b in counts
    ensures Legal(FLOOD_LIMITS, counts, FloodCall(0).(evicted := {b}))
  {
    assert Alive(FLOOD_LIMITS, counts, 0) == counts;
  }
}
