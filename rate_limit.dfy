/** The in-memory sliding-window rate limiter of the Next.js join route:
    `rateBuckets`, a map from a bucket key to the timestamps it recorded, and
    `enforceRateLimit(key, limit, now)`, which keeps the timestamps of the
    last minute and either refuses (throws) or records `now`. */
module RateLimit {

  /** `windowMs` of `enforceRateLimit`. */
  const WindowMs: int := 60000

  /** `.filter((t) => t >= now - windowMs)`: the timestamps inside the window,
      in their original order. */
  function Recent(ts: seq<int>, windowStart: int): (r: seq<int>)
    ensures |r| <= |ts|
    ensures forall i :: 0 <= i < |r| ==> r[i] >= windowStart
  {
    if ts == [] then []
    else (if ts[0] >= windowStart then [ts[0]] else []) + Recent(ts[1..], windowStart)
  }

  /** The filter keeps exactly the timestamps at or after the window start. */
  lemma {:induction false} RecentMembers(ts: seq<int>, windowStart: int, x: int)
    ensures x in Recent(ts, windowStart) <==> x in ts && x >= windowStart
  {
    if ts != [] {
      RecentMembers(ts[1..], windowStart, x);
      assert ts == [ts[0]] + ts[1..];
    }
  }

  /** `rateBuckets.get(key) ?? []`. */
  function Bucket(buckets: map<string, seq<int>>, key: string): seq<int>
  {
    if key in buckets then buckets[key] else []
  }

  /** `rateBuckets.set(key, b)` is seen by `key`, and by no other key. */
  lemma BucketOfSet(buckets: map<string, seq<int>>, key: string, b: seq<int>, other: string)
    ensures Bucket(buckets[key := b], key) == b
    ensures other != key ==> Bucket(buckets[key := b], other) == Bucket(buckets, other)
  {
  }

  datatype Decision = Denied | Allowed(bucket: seq<int>)

  /** The decision `enforceRateLimit` takes on the stored timestamps of one key:
      refuse when the window already holds `limit` timestamps, otherwise the
      window's timestamps followed by `now`. */
  function Decide(stored: seq<int>, limit: int, now: int): (d: Decision)
    ensures d.Denied? <==> |Recent(stored, now - WindowMs)| >= limit
    ensures d.Allowed? ==> 0 < |d.bucket| <= limit && d.bucket[|d.bucket| - 1] == now
    ensures d.Allowed? ==> d.bucket[..|d.bucket| - 1] == Recent(stored, now - WindowMs)
    ensures d.Allowed? ==> forall i :: 0 <= i < |d.bucket| ==> d.bucket[i] >= now - WindowMs
  {
    var timestamps := Recent(stored, now - WindowMs);
    if |timestamps| >= limit then Denied
    else
      assert (timestamps + [now])[..|timestamps|] == timestamps;
      Allowed(timestamps + [now])
  }

  /** The whole map after one call: unchanged on a refusal; otherwise only the
      key's bucket is replaced. */
  function Enforced(buckets: map<string, seq<int>>, key: string, limit: int, now: int): (m: map<string, seq<int>>)
    ensures forall k :: k != key ==> Bucket(m, k) == Bucket(buckets, k)
    ensures Decide(Bucket(buckets, key), limit, now).Denied? ==> m == buckets
    ensures Decide(Bucket(buckets, key), limit, now).Allowed? ==>
      m == buckets[key := Decide(Bucket(buckets, key), limit, now).bucket]
  {
    match Decide(Bucket(buckets, key), limit, now)
    case Denied => buckets
    case Allowed(b) => buckets[key := b]
  }

  /** The module-level `rateBuckets` map together with `enforceRateLimit`. */
  class RateBuckets {
    var buckets: map<string, seq<int>>

    constructor ()
      ensures buckets == map[]
    {
      buckets := map[];
    }

    /** `enforceRateLimit(key, limit, now)`; `allowed == false` is the throw. */
    method Enforce(key: string, limit: int, now: int) returns (allowed: bool)
      modifies this
      ensures allowed <==> |Recent(Bucket(old(buckets), key), now - WindowMs)| < limit
      ensures buckets == Enforced(old(buckets), key, limit, now)
      ensures !allowed ==> buckets == old(buckets)
    {
      var timestamps := Recent(Bucket(buckets, key), now - WindowMs);
      if |timestamps| >= limit {
        return false;
      }
      timestamps := timestamps + [now];
      buckets := buckets[key := timestamps];
      return true;
    }
  }

  // ---------------------------------------------------------------------
  // The sliding-window guarantee over a run of calls on one key
  // ---------------------------------------------------------------------

  predicate NonDecreasing(ts: seq<int>) {
    forall i, j :: 0 <= i < j < |ts| ==> ts[i] <= ts[j]
  }

  /** The number of timestamps in the closed window `[t - WindowMs, t]`. */
  function InWindow(ts: seq<int>, t: int): (n: nat)
    ensures n <= |ts|
  {
    if ts == [] then 0
    else (if t - WindowMs <= ts[0] <= t then 1 else 0) + InWindow(ts[1..], t)
  }

  /** The bucket of one key after the calls at `times`, made in order from
      an empty bucket. */
  function Stored(limit: int, times: seq<int>): (b: seq<int>)
    decreases |times|
  {
    if times == [] then []
    else
      var now := times[|times| - 1];
      match Decide(Stored(limit, times[..|times| - 1]), limit, now)
      case Denied => Stored(limit, times[..|times| - 1])
      case Allowed(b) => b
  }

  /** The timestamps of those calls that were allowed. */
  function Admitted(limit: int, times: seq<int>): (adm: seq<int>)
    decreases |times|
  {
    if times == [] then []
    else
      var now := times[|times| - 1];
      match Decide(Stored(limit, times[..|times| - 1]), limit, now)
      case Denied => Admitted(limit, times[..|times| - 1])
      case Allowed(_) => Admitted(limit, times[..|times| - 1]) + [now]
  }

  lemma {:induction false} RecentTwice(ts: seq<int>, a: int, b: int)
    requires a <= b
    ensures Recent(Recent(ts, a), b) == Recent(ts, b)
  {
    if ts != [] {
      RecentTwice(ts[1..], a, b);
      RecentAppend(if ts[0] >= a then [ts[0]] else [], Recent(ts[1..], a), b);
    }
  }

  lemma {:induction false} RecentAppend(a: seq<int>, b: seq<int>, start: int)
    ensures Recent(a + b, start) == Recent(a, start) + Recent(b, start)
  {
    if a == [] {
      assert a + b == b;
    } else {
      assert (a + b)[1..] == a[1..] + b;
      RecentAppend(a[1..], b, start);
    }
  }

  lemma {:induction false} InWindowAppend(a: seq<int>, b: seq<int>, t: int)
    ensures InWindow(a + b, t) == InWindow(a, t) + InWindow(b, t)
  {
    if a == [] {
      assert a + b == b;
    } else {
      assert (a + b)[1..] == a[1..] + b;
      InWindowAppend(a[1..], b, t);
    }
  }

  /** Timestamps no later than `t` are counted by the window at `t` exactly
      when they are kept by the filter at `t`. */
  lemma {:induction false} InWindowOfPast(ts: seq<int>, t: int)
    requires forall i :: 0 <= i < |ts| ==> ts[i] <= t
    ensures InWindow(ts, t) == |Recent(ts, t - WindowMs)|
  {
    if ts != [] {
      InWindowOfPast(ts[1..], t);
    }
  }

  /** Moving the window forward never lets more old timestamps in. */
  lemma {:induction false} InWindowShrinks(ts: seq<int>, u: int, t: int)
    requires u <= t
    requires forall i :: 0 <= i < |ts| ==> ts[i] <= u
    ensures InWindow(ts, t) <= InWindow(ts, u)
  {
    if ts != [] {
      InWindowShrinks(ts[1..], u, t);
    }
  }

  /** No call admits a timestamp later than every call's. */
  lemma {:induction false} AdmittedBounded(limit: int, times: seq<int>, ub: int)
    requires forall i :: 0 <= i < |times| ==> times[i] <= ub
    ensures forall i :: 0 <= i < |Admitted(limit, times)| ==> Admitted(limit, times)[i] <= ub
    decreases |times|
  {
    if times != [] {
      AdmittedBounded(limit, times[..|times| - 1], ub);
    }
  }

  /** The admitted timestamps inside the window of the last admission. */
  function LastWindow(adm: seq<int>): seq<int> {
    if adm == [] then [] else Recent(adm, adm[|adm| - 1] - WindowMs)
  }

  /** The bucket a run leaves is the admitted timestamps inside the window of
      the last admission. */
  lemma {:induction false} StoredIsRecentAdmitted(limit: int, times: seq<int>)
    requires NonDecreasing(times)
    ensures Stored(limit, times) == LastWindow(Admitted(limit, times))
    decreases |times|
  {
    if times != [] {
      var init := times[..|times| - 1];
      var now := times[|times| - 1];
      assert NonDecreasing(init);
      StoredIsRecentAdmitted(limit, init);
      var d := Decide(Stored(limit, init), limit, now);
      if d.Allowed? {
        AdmittedBounded(limit, init, now);
        AllowedBucketIsRecent(Admitted(limit, init), Stored(limit, init), d.bucket, now);
      }
    }
  }

  /** The bucket an allowed call writes is the window of the admitted
      timestamps followed by `now`. */
  lemma AllowedBucketIsRecent(adm: seq<int>, stored: seq<int>, b: seq<int>, now: int)
    requires forall i :: 0 <= i < |adm| ==> adm[i] <= now
    requires stored == LastWindow(adm)
    requires 0 < |b| && b[|b| - 1] == now && b[..|b| - 1] == Recent(stored, now - WindowMs)
    ensures b == LastWindow(adm + [now])
  {
    var w := now - WindowMs;
    RecentAppend(adm, [now], w);
    assert Recent([now], w) == [now];
    assert Recent(stored, w) == Recent(adm, w) by {
      if adm != [] {
        RecentTwice(adm, adm[|adm| - 1] - WindowMs, w);
      }
    }
    assert b == b[..|b| - 1] + [now];
    LastOfAppend(adm, now);
  }

  lemma LastOfAppend(adm: seq<int>, now: int)
    ensures LastWindow(adm + [now]) == Recent(adm + [now], now - WindowMs)
  {
    var x := adm + [now];
    assert x != [] && x[|x| - 1] == now;
  }

  /** If the bucket is the admitted timestamps of the last admission's window,
      a call at `now` that the bucket lets through saw fewer than `limit`
      admitted timestamps in every window that contains `now`. */
  lemma WindowBoundStep(adm: seq<int>, stored: seq<int>, limit: int, now: int, t: int)
    requires forall i :: 0 <= i < |adm| ==> adm[i] <= now
    requires stored == LastWindow(adm)
    requires |Recent(stored, now - WindowMs)| < limit
    requires now <= t
    ensures InWindow(adm, t) < limit
  {
    assert Recent(stored, now - WindowMs) == Recent(adm, now - WindowMs) by {
      if adm != [] {
        RecentTwice(adm, adm[|adm| - 1] - WindowMs, now - WindowMs);
      }
    }
    InWindowOfPast(adm, now);
    InWindowShrinks(adm, now, t);
  }

  lemma AllowedCallBound(limit: int, init: seq<int>, now: int, t: int)
    requires NonDecreasing(init)
    requires forall i :: 0 <= i < |init| ==> init[i] <= now
    requires now <= t
    requires Decide(Stored(limit, init), limit, now).Allowed?
    ensures InWindow(Admitted(limit, init), t) < limit
  {
    AdmittedBounded(limit, init, now);
    StoredIsRecentAdmitted(limit, init);
    WindowBoundStep(Admitted(limit, init), Stored(limit, init), limit, now, t);
  }

  /** An admitted run never holds more than `limit` timestamps in any
      closed 60-second window: the sliding-window guarantee of
      `enforceRateLimit` for calls made one after another with a clock that
      does not go backwards. The requirement `NonDecreasing(times)` is
      needed: `ClockGoingBackOverAdmits` is a run that breaks the bound. */
  lemma {:induction false} AdmittedRespectsLimit(limit: int, times: seq<int>, t: int)
    requires NonDecreasing(times)
    ensures InWindow(Admitted(limit, times), t) <= if limit < 0 then 0 else limit
    decreases |times|
  {
    if times != [] {
      var init := times[..|times| - 1];
      var now := times[|times| - 1];
      assert NonDecreasing(init);
      AdmittedRespectsLimit(limit, init, t);
      var adm := Admitted(limit, init);
      if Decide(Stored(limit, init), limit, now).Allowed? {
        assert Admitted(limit, times) == adm + [now];
        InWindowAppend(adm, [now], t);
        if now <= t {
          AllowedCallBound(limit, init, now, t);
        }
      }
    }
  }

  /** `enforceRateLimit` trusts `Date.now()` never to go backwards: with
      limit 2 and calls at `x`, `x + 1`, `x + 70001` and `x + 2`, the third
      call empties the window, so the fourth is let through, and the window
      `[x, x + 60000]` ends up with three admitted timestamps. */
  lemma ClockGoingBackOverAdmits(x: int)
    ensures !NonDecreasing([x, x + 1, x + 70001, x + 2])
    ensures InWindow(Admitted(2, [x, x + 1, x + 70001, x + 2]), x + 60000) == 3
  {
    var t4 := [x, x + 1, x + 70001, x + 2];
    assert t4[2] > t4[3];
    BackwardRunAdmitsAll(x);
    InWindowOfFour(x, x + 1, x + 70001, x + 2, x + 60000);
  }

  /** Every call of that run is let through, one call at a time. */
  lemma BackwardRunAdmitsAll(x: int)
    ensures Admitted(2, [x, x + 1, x + 70001, x + 2]) == [x, x + 1, x + 70001, x + 2]
  {
    BackwardRunThree(x);
    RecentOfOne(x + 70001, x + 2 - WindowMs);
    AllowedStep(2, [x, x + 1, x + 70001], x + 2, [x + 70001], [x + 70001, x + 2]);
    assert [x, x + 1, x + 70001] + [x + 2] == [x, x + 1, x + 70001, x + 2];
  }

  lemma BackwardRunThree(x: int)
    ensures Stored(2, [x, x + 1, x + 70001]) == [x + 70001]
    ensures Admitted(2, [x, x + 1, x + 70001]) == [x, x + 1, x + 70001]
  {
    BackwardRunTwo(x);
    RecentOfTwoOld(x, x + 1, x + 70001 - WindowMs);
    AllowedStep(2, [x, x + 1], x + 70001, [x, x + 1], [x + 70001]);
    assert [x, x + 1] + [x + 70001] == [x, x + 1, x + 70001];
  }

  lemma BackwardRunTwo(x: int)
    ensures Stored(2, [x, x + 1]) == [x, x + 1]
    ensures Admitted(2, [x, x + 1]) == [x, x + 1]
  {
    AllowedStep(2, [], x, [], [x]);
    assert [] + [x] == [x];
    RecentOfOne(x, x + 1 - WindowMs);
    AllowedStep(2, [x], x + 1, [x], [x, x + 1]);
    assert [x] + [x + 1] == [x, x + 1];
  }

  /** One allowed call: the run's bucket becomes the decision's bucket and
      the call's timestamp is admitted. */
  lemma AllowedStep(limit: int, times: seq<int>, now: int, stored: seq<int>, b: seq<int>)
    requires Stored(limit, times) == stored
    requires |Recent(stored, now - WindowMs)| < limit && b == Recent(stored, now - WindowMs) + [now]
    ensures Stored(limit, times + [now]) == b
    ensures Admitted(limit, times + [now]) == Admitted(limit, times) + [now]
  {
    assert (times + [now])[..|times|] == times;
  }

  lemma RecentOfOne(x: int, w: int)
    ensures Recent([x], w) == if x >= w then [x] else []
  {
    assert [x][1..] == [];
  }

  lemma RecentOfTwoOld(x: int, y: int, w: int)
    requires x < w && y < w
    ensures Recent([x, y], w) == []
  {
    assert [x, y][1..] == [y];
    RecentOfOne(y, w);
  }

  lemma InWindowOfFour(a: int, b: int, c: int, d: int, t: int)
    requires t - WindowMs <= a <= t && t - WindowMs <= b <= t && c > t && t - WindowMs <= d <= t
    ensures InWindow([a, b, c, d], t) == 3
  {
    assert [d][1..] == [] && InWindow([d], t) == 1;
    assert [c, d][1..] == [d] && InWindow([c, d], t) == 1;
    assert [b, c, d][1..] == [c, d] && InWindow([b, c, d], t) == 2;
    assert [a, b, c, d][1..] == [b, c, d];
  }
}
