/**
 The in-memory fixed-window rate limiter. `Allow` runs under a mutex in the source, so
 one call is one atomic step. The clock is a parameter of the call; the order in which
 Go ranges over a map is left open.
 */
module RateLimiter {
  import opened GoTime

  const MAX_TRACKED_BUCKETS: nat := 4096

  datatype Limit = Limit(max: int, window: int)

  datatype BucketKey = BucketKey(action: string, key: string, windowStart: int)

  type Limits = map<string, Limit>
  type Counts = map<BucketKey, int>

  function BucketAt(limits: Limits, key: string, action: string, now: int): BucketKey
    requires action in limits
  {
    BucketKey(action, key, Unix(Truncate(now, limits[action].window)))
  }

  /** What `prune` deletes: the bucket's window has ended, or its action has no limit. */
  predicate Dead(limits: Limits, b: BucketKey, now: int) {
    b.action !in limits || b.windowStart + Seconds(limits[b.action].window) <= Unix(now)
  }

  function Alive(limits: Limits, counts: Counts, now: int): Counts {
    map b | b in counts && !Dead(limits, b, now) :: counts[b]
  }

  /** A missing map entry reads as zero in Go. */
  function Get(counts: Counts, b: BucketKey): int {
    if b in counts then counts[b] else 0
  }

  /** How many entries `evict` removes from a map of `size` entries. */
  function Excess(size: nat): nat {
    if size < MAX_TRACKED_BUCKETS then 0 else size - (MAX_TRACKED_BUCKETS - 1)
  }

  /** One answered call, with the buckets that `evict` happened to remove during it. */
  datatype Call = Call(key: string, action: string, now: int, evicted: set<BucketKey>, allowed: bool)

  /** The map just before the increment. */
  function Reclaimed(limits: Limits, counts: Counts, now: int, evicted: set<BucketKey>): Counts {
    if |counts| < MAX_TRACKED_BUCKETS then counts else Alive(limits, counts, now) - evicted
  }

  function Increment(counts: Counts, b: BucketKey): Counts {
    counts[b := Get(counts, b) + 1]
  }

  /** Any choice of victims is possible, but only that many and only among what `prune` left. */
  ghost predicate Victims(limits: Limits, counts: Counts, now: int, evicted: set<BucketKey>) {
    if |counts| < MAX_TRACKED_BUCKETS then
      evicted == {}
    else
      evicted <= Alive(limits, counts, now).Keys && |evicted| == Excess(|Alive(limits, counts, now)|)
  }

  ghost predicate Legal(limits: Limits, counts: Counts, c: Call) {
    if c.action !in limits then
      c.allowed && c.evicted == {}
    else
      && Victims(limits, counts, c.now, c.evicted)
      && (c.allowed <==> Get(Reclaimed(limits, counts, c.now, c.evicted), BucketAt(limits, c.key, c.action, c.now)) + 1
                         <= limits[c.action].max)
  }

  function After(limits: Limits, counts: Counts, c: Call): Counts {
    if c.action !in limits then counts
    else Increment(Reclaimed(limits, counts, c.now, c.evicted), BucketAt(limits, c.key, c.action, c.now))
  }

  function CountsAfter(limits: Limits, h: seq<Call>): Counts {
    if h == [] then map[] else After(limits, CountsAfter(limits, h[..|h| - 1]), h[|h| - 1])
  }

  /** The histories that a new limiter can produce. */
  ghost predicate IsRun(limits: Limits, h: seq<Call>) {
    h == [] ||
    (IsRun(limits, h[..|h| - 1]) && Legal(limits, CountsAfter(limits, h[..|h| - 1]), h[|h| - 1]))
  }

  lemma RunMore(limits: Limits, h: seq<Call>, c: Call)
    requires IsRun(limits, h) && Legal(limits, CountsAfter(limits, h), c)
    ensures IsRun(limits, h + [c]) && CountsAfter(limits, h + [c]) == After(limits, CountsAfter(limits, h), c)
  {
    assert (h + [c])[..|h + [c]| - 1] == h;
  }

  class RateLimiter {
    const limits: Limits
    var counts: Counts
    ghost var history: seq<Call>

    ghost predicate Valid()
      reads this
    {
      IsRun(limits, history) && counts == CountsAfter(limits, history)
    }

    constructor (limits: Limits)
      ensures Valid() && history == [] && this.limits == limits
    {
      this.limits := limits;
      counts := map[];
      history := [];
    }

    method Allow(key: string, action: string, now: int) returns (allowed: bool)
      requires Valid()
      modifies this
      ensures Valid()
      ensures |history| == |old(history)| + 1 && history[..|old(history)|] == old(history)
      ensures var c := history[|old(history)|];
              c.key == key && c.action == action && c.now == now && c.allowed == allowed
      ensures action !in limits ==> allowed && counts == old(counts)
    {
      ghost var evicted := {};
      if action !in limits {
        allowed := true;
      } else {
        var bucket := BucketAt(limits, key, action, now);
        evicted := MakeRoom(now);
        counts := Increment(counts, bucket);
        allowed := counts[bucket] <= limits[action].max;
      }
      ghost var c := Call(key, action, now, evicted, allowed);
      RunMore(limits, history, c);
      history := history + [c];
    }

    /** The reclaiming step of `Allow`. */
    method MakeRoom(now: int) returns (ghost evicted: set<BucketKey>)
      modifies `counts
      ensures Victims(limits, old(counts), now, evicted)
      ensures counts == Reclaimed(limits, old(counts), now, evicted)
    {
      evicted := {};
      if |counts| >= MAX_TRACKED_BUCKETS {
        Prune(now);
        evicted := Evict();
      }
    }

    /** Deletes arbitrary entries until there is room for one more. */
    method Evict() returns (ghost evicted: set<BucketKey>)
      modifies `counts
      ensures evicted <= old(counts).Keys && |evicted| == Excess(|old(counts)|)
      ensures counts == old(counts) - evicted
      ensures |counts| == if |old(counts)| < 4096 then |old(counts)| else 4095
    {
      var pending := counts.Keys;
      evicted := {};
      while pending != {}
        invariant pending !! evicted && pending + evicted == old(counts).Keys
        invariant counts == old(counts) - evicted
        invariant |evicted| <= Excess(|old(counts)|)
        decreases |pending|
      {
        assert counts.Keys == old(counts).Keys - evicted;
        if |counts| < MAX_TRACKED_BUCKETS {
          assert |counts| == |counts.Keys|;
          return;
        }
        var bucket :| bucket in pending;
        pending := pending - {bucket};
        counts := counts - {bucket};
        evicted := evicted + {bucket};
      }
      assert counts.Keys == {};
    }

    /** Deletes every dead entry. */
    method Prune(now: int)
      modifies `counts
      ensures counts == Alive(limits, old(counts), now)
      ensures forall b :: b in old(counts) && b !in counts ==>
                b.action !in limits || b.windowStart + Seconds(limits[b.action].window) <= Unix(now)
    {
      var pending := counts.Keys;
      while pending != {}
        invariant pending <= counts.Keys <= old(counts).Keys
        invariant forall b :: b in counts ==> counts[b] == old(counts)[b]
        invariant forall b :: b in old(counts) && b !in pending ==> (b in counts <==> !Dead(limits, b, now))
        decreases |pending|
      {
        var bucket :| bucket in pending;
        pending := pending - {bucket};
        if bucket.action !in limits {
          counts := counts - {bucket};
          continue;
        }
        var limit := limits[bucket.action];
        if bucket.windowStart + Seconds(limit.window) <= Unix(now) {
          counts := counts - {bucket};
        }
      }
    }
  }
}
