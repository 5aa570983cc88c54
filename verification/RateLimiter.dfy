/** The in-process rate limiter: a bucket per client, created full, refilled lazily, and
    forgotten by a cleanup sweep. */
module RateLimiter {
  import opened TokenBucket

  const MAX_STORE_ENTRIES := 10000

  /** A bucket's two independent lanes, one for writes and one for GET requests. */
  datatype Bucket = Bucket(post: Lane, get: Lane)

  datatype Config = Config(maxPost: int, maxGet: int, window: nat)

  function LaneOf(b: Bucket, isGet: bool): Lane {
    if isGet then b.get else b.post
  }

  function MaxOf(c: Config, isGet: bool): int {
    if isGet then c.maxGet else c.maxPost
  }

  function AllowBucket(b: Bucket, isGet: bool, now: int, window: nat): (Bucket, bool) {
    var w := EffectiveWindow(window);
    if isGet then var (l, ok) := Take(b.get, now, w); (b.(get := l), ok)
    else var (l, ok) := Take(b.post, now, w); (b.(post := l), ok)
  }

  function NewBucket(c: Config, now: int): Bucket {
    Bucket(NewLane(c.maxPost, now), NewLane(c.maxGet, now))
  }

  function Looked(c: Config, store: map<string, Bucket>, ip: string, now: int): map<string, Bucket> {
    if ip in store || |store| >= MAX_STORE_ENTRIES then store else store[ip := NewBucket(c, now)]
  }

  function AllowLocal(c: Config, store: map<string, Bucket>, ip: string, isGet: bool, now: int): (map<string, Bucket>, bool) {
    var looked := Looked(c, store, ip, now);
    if ip !in looked then (store, false)
    else
      var (b, ok) := AllowBucket(looked[ip], isGet, now, c.window);
      (looked[ip := b], ok)
  }

  predicate Stale(b: Bucket, maxAge: int, now: int) {
    now - (if b.get.last > b.post.last then b.get.last else b.post.last) > maxAge
  }

  function Sweep(store: map<string, Bucket>, maxAge: int, now: int): map<string, Bucket> {
    map ip | ip in store && !Stale(store[ip], maxAge, now) :: store[ip]
  }

  // ---------------------------------------------------------------- the objects

  class Tokens {
    var postTokens: int
    var getTokens: int
    const maxPostTokens: int
    const maxGetTokens: int
    const postRefillRate: int
    const getRefillRate: int
    var lastRefill: int
    var getLastRefill: int  // Go's zero time until the GET lane has its own
    const window: nat
    ghost const client: string

    constructor (c: Config, now: int, ghost client: string)
      ensures View() == NewBucket(c, now) && window == c.window && getLastRefill == now && this.client == client
    {
      this.client := client;
      postTokens, getTokens := c.maxPost, c.maxGet;
      maxPostTokens, maxGetTokens := c.maxPost, c.maxGet;
      postRefillRate, getRefillRate := c.maxPost, c.maxGet;
      lastRefill, getLastRefill := now, now;
      window := c.window;
    }

    function GetLast(): int
      reads this
    {
      if getLastRefill == 0 then lastRefill else getLastRefill
    }

    function View(): Bucket
      reads this
    {
      Bucket(Lane(postTokens, maxPostTokens, postRefillRate, lastRefill),
             Lane(getTokens, maxGetTokens, getRefillRate, GetLast()))
    }

    method RefillPost(now: int, w: nat)
      requires w > 0
      modifies this`postTokens, this`lastRefill
      ensures View().post == Refill(old(View()).post, now, w)
    {
      if postRefillRate <= 0 {
        return;
      }
      var interval := RefillInterval(w, postRefillRate);
      var elapsed := now - lastRefill;
      if elapsed < interval {
        return;
      }
      var amount := elapsed / interval;
      postTokens := postTokens + amount;
      if postTokens > maxPostTokens {
        postTokens := maxPostTokens;
      }
      lastRefill := lastRefill + amount * interval;
    }

    method RefillGet(now: int, w: nat)
      requires w > 0 && now > 0 && GetLast() >= 0
      modifies this`getTokens, this`getLastRefill
      ensures View().get == Refill(old(View()).get, now, w)
      ensures old(getLastRefill) != 0 ==> getLastRefill != 0
    {
      if getRefillRate <= 0 {
        return;
      }
      var last := GetLast();
      var interval := RefillInterval(w, getRefillRate);
      var elapsed := now - last;
      if elapsed < interval {
        return;
      }
      var amount := elapsed / interval;
      assert amount * interval > 0 by {
        DivisionMonotone(interval, elapsed, interval);
        MultipleIsAtLeast(amount, interval);
      }
      getTokens := getTokens + amount;
      if getTokens > maxGetTokens {
        getTokens := maxGetTokens;
      }
      getLastRefill := last + amount * interval;
    }

    /** Refills and consumes the lane of the request's class only. The refusal carries the
        Retry-After of the lane. A GET never touches the write lane; a write never touches the
        fields of the GET lane. */
    method AllowRequest(isGet: bool, now: int) returns (allowed: bool, retryAfter: int)
      requires now > 0 && GetLast() >= 0
      modifies this
      ensures var (lane, ok) := Take(old(LaneOf(View(), isGet)), now, EffectiveWindow(window));
              LaneOf(View(), isGet) == lane && allowed == ok
              && retryAfter == if ok then 0 else RetryAfter(lane, now, EffectiveWindow(window))
      ensures isGet ==> View().post == old(View()).post
      ensures !isGet ==> getTokens == old(getTokens) && getLastRefill == old(getLastRefill)
      ensures old(getLastRefill) != 0 ==> getLastRefill != 0 && (View(), allowed) == AllowBucket(old(View()), isGet, now, window)
    {
      var w := window;
      if w == 0 {
        w := SECOND;
      }
      if isGet {
        RefillGet(now, w);
      } else {
        RefillPost(now, w);
      }
      if isGet {
        if getTokens > 0 {
          getTokens := getTokens - 1;
          return true, 0;
        }
      } else {
        if postTokens > 0 {
          postTokens := postTokens - 1;
          return true, 0;
        }
      }
      allowed, retryAfter := false, RetryAfter(LaneOf(View(), isGet), now, w);
    }
  }

  method DeleteAll<V>(entries: map<string, V>, keys: set<string>) returns (left: map<string, V>)
    ensures left == entries - keys
  {
    left := entries;
    var rest := keys;
    while rest != {}
      invariant rest <= keys && left == entries - (keys - rest)
      decreases |rest|
    {
      var key :| key in rest;
      rest := rest - {key};
      left := left - {key};
    }
  }

  class Limiter {
    var store: map<string, Tokens>
    const config: Config
    ghost var buckets: set<Tokens>
    ghost var view: map<string, Bucket>

    /** Each client has a bucket of its own, made by this limiter; `view` is what they hold. */
    ghost predicate Valid()
      reads this, buckets
    {
      && view.Keys == store.Keys
      && (forall a :: a in store ==> store[a] in buckets && Made(store[a], a) && store[a].View() == view[a])
    }

    ghost predicate Made(bucket: Tokens, client: string)
      reads bucket
    {
      bucket.client == client && bucket.getLastRefill > 0 && bucket.window == config.window
    }

    constructor (config: Config)
      ensures Valid() && fresh(buckets) && view == map[] && this.config == config
    {
      store := map[];
      this.config := config;
      buckets, view := {}, map[];
    }

    /** Finds the client's bucket, or makes a full one while there is room. */
    method Lookup(ip: string, now: int) returns (found: bool)
      requires Valid() && now > 0
      modifies this
      ensures Valid() && fresh(buckets - old(buckets))
      ensures found <==> ip in store
      ensures view == Looked(config, old(view), ip, now)
    {
      if ip !in store {
        assert |view| == |view.Keys| == |store.Keys| == |store|;
        if |store| >= MAX_STORE_ENTRIES {
          return false;
        }
        var bucket := new Tokens(config, now, ip);
        buckets := buckets + {bucket};
        store := store[ip := bucket];
        view := view[ip := NewBucket(config, now)];
      }
      found := true;
    }

    method AllowBucketRequest(ip: string, isGet: bool, now: int) returns (allowed: bool, retryAfter: int)
      requires Valid() && now > 0 && ip in store
      modifies this`view, store[ip]
      ensures Valid()
      ensures view == old(view)[ip := AllowBucket(old(view)[ip], isGet, now, config.window).0]
      ensures allowed == AllowBucket(old(view)[ip], isGet, now, config.window).1
      ensures !allowed ==> retryAfter == RetryAfter(LaneOf(view[ip], isGet), now, EffectiveWindow(config.window))
    {
      allowed, retryAfter := store[ip].AllowRequest(isGet, now);
      view := view[ip := AllowBucket(view[ip], isGet, now, config.window).0];
    }

    /** Serves a request from the client's bucket; a new client is turned away for a minute when
        the store is full. */
    method AllowLocalRequest(ip: string, isGet: bool, now: int) returns (allowed: bool, retryAfter: int)
      requires Valid() && now > 0
      modifies this, buckets
      ensures Valid() && fresh(buckets - old(buckets))
      ensures view == AllowLocal(config, old(view), ip, isGet, now).0
      ensures allowed == AllowLocal(config, old(view), ip, isGet, now).1
      ensures !allowed ==> retryAfter == if ip in view then RetryAfter(LaneOf(view[ip], isGet), now, EffectiveWindow(config.window)) else 60
    {
      var found := Lookup(ip, now);
      if !found {
        return false, 60;
      }
      allowed, retryAfter := AllowBucketRequest(ip, isGet, now);
    }

    method CollectStale(maxAge: int, now: int) returns (stale: set<string>)
      requires Valid()
      ensures forall ip :: ip in stale <==> ip in view && Stale(view[ip], maxAge, now)
    {
      stale := {};
      var unseen := store.Keys;
      while unseen != {}
        invariant unseen <= store.Keys
        invariant forall ip :: ip in stale <==> ip in view && ip !in unseen && Stale(view[ip], maxAge, now)
        decreases |unseen|
      {
        var ip :| ip in unseen;
        unseen := unseen - {ip};
        var bucket := store[ip];
        var lastActivity := bucket.lastRefill;
        if bucket.getLastRefill > lastActivity {
          lastActivity := bucket.getLastRefill;
        }
        assert bucket.View() == view[ip];
        if now - lastActivity > maxAge {
          stale := stale + {ip};
        }
      }
    }

    /** Forgets exactly the buckets in which neither lane has moved for longer than `maxAge`. */
    method Cleanup(maxAge: int, now: int)
      requires Valid()
      modifies this`store, this`view
      ensures Valid() && view == Sweep(old(view), maxAge, now)
    {
      var stale := CollectStale(maxAge, now);
      assert view - stale == Sweep(view, maxAge, now);
      var left := DeleteAll(store, stale);
      assert forall ip :: ip in left ==> ip in store && left[ip] == store[ip];
      store := left;
      view := view - stale;
    }
  }

  /** A client's first request makes a bucket while fewer than 10000 clients are known, and is
      served if its class has any allowance. No request touches the bucket of another client. */
  lemma FirstRequest(c: Config, store: map<string, Bucket>, ip: string, isGet: bool, now: int)
    requires ip !in store
    ensures var (store', ok) := AllowLocal(c, store, ip, isGet, now);
            && (|store| >= 10000 ==> store' == store && !ok)
            && (|store| < 10000 ==> store'.Keys == store.Keys + {ip} && (ok <==> (if isGet then c.maxGet else c.maxPost) > 0))
  {
  }

  lemma OthersAreUntouched(c: Config, store: map<string, Bucket>, ip: string, isGet: bool, now: int, other: string)
    requires other != ip
    ensures var store' := AllowLocal(c, store, ip, isGet, now).0;
            other in store' <==> other in store
    ensures var store' := AllowLocal(c, store, ip, isGet, now).0;
            other in store ==> store'[other] == store[other]
  {
  }

  /** A sweep keeps a bucket, as it is, exactly when one of its lanes has moved within the age. */
  lemma SweepKeepsTheActive(store: map<string, Bucket>, maxAge: int, now: int, ip: string)
    ensures ip in Sweep(store, maxAge, now) <==>
            ip in store && (now - store[ip].post.last <= maxAge || now - store[ip].get.last <= maxAge)
    ensures ip in Sweep(store, maxAge, now) ==> Sweep(store, maxAge, now)[ip] == store[ip]
  {
  }

  // ---------------------------------------------------------------- runs

  datatype Event =
    | Request(ip: string, isGet: bool, at: int)
    | Cleaned(maxAge: int, at: int)

  /** The buckets after a run. */
  function After(c: Config, events: seq<Event>): map<string, Bucket> {
    if events == [] then map[]
    else
      var store := After(c, events[..|events| - 1]);
      match events[|events| - 1]
      case Request(ip, isGet, at) => AllowLocal(c, store, ip, isGet, at).0
      case Cleaned(maxAge, at) => Sweep(store, maxAge, at)
  }

  /** How many requests of one client and one class a run has allowed. */
  function Allowed(c: Config, events: seq<Event>, ip: string, isGet: bool): nat {
    if events == [] then 0
    else
      var earlier, last := events[..|events| - 1], events[|events| - 1];
      Allowed(c, earlier, ip, isGet) +
      if last.Request? && last.ip == ip && last.isGet == isGet && AllowLocal(c, After(c, earlier), ip, isGet, last.at).1
      then 1 else 0
  }

  ghost predicate InOrder(events: seq<Event>) {
    forall i, j :: 0 <= i < j < |events| ==> events[i].at <= events[j].at
  }

  /** The client's first request comes at `t0` or later. */
  ghost predicate Since(events: seq<Event>, ip: string, t0: int) {
    forall i :: 0 <= i < |events| && events[i].Request? && events[i].ip == ip ==> t0 <= events[i].at
  }

  function Clock(events: seq<Event>, t0: int): int {
    if events == [] then t0 else events[|events| - 1].at
  }

  /** Every sweep leaves buckets alone that were active within the last window. */
  ghost predicate PatientSweeps(c: Config, events: seq<Event>) {
    forall i :: 0 <= i < |events| && events[i].Cleaned? ==> events[i].maxAge >= EffectiveWindow(c.window)
  }

  /** What holds for one client and class at `clock`, whether or not its bucket still exists. */
  ghost predicate Bounded(c: Config, store: map<string, Bucket>, ip: string, isGet: bool, allowed: nat, t0: int, clock: int) {
    var max := MaxOf(c, isGet);
    var interval := RefillInterval(EffectiveWindow(c.window), max);
    if ip in store then
      var lane := LaneOf(store[ip], isGet);
      lane.max == lane.rate == max && lane.last <= clock && WithinRate(lane, allowed, interval, t0)
    else allowed == 0 || (t0 <= clock && allowed <= Ticks(interval, t0, clock))
  }

  lemma RequestKeepsBound(c: Config, store: map<string, Bucket>, ip: string, isGet: bool, allowed: nat, t0: int,
                          clock: int, who: string, which: bool, now: int)
    requires 1 <= MaxOf(c, isGet) <= EffectiveWindow(c.window) && clock <= now && (who == ip ==> t0 <= now)
    requires Bounded(c, store, ip, isGet, allowed, t0, clock)
    ensures var (store', ok) := AllowLocal(c, store, who, which, now);
            Bounded(c, store', ip, isGet, allowed + (if ok && who == ip && which == isGet then 1 else 0), t0, now)
  {
    var w := EffectiveWindow(c.window);
    var max := MaxOf(c, isGet);
    var interval := RefillInterval(w, max);
    CapacityFitsWindow(w, max);
    DivisionMonotone(clock - t0, now - t0, interval);
    if who == ip && (ip in store || |store| < MAX_STORE_ENTRIES) {
      var lane := LaneOf(if ip in store then store[ip] else NewBucket(c, now), isGet);
      DivisionMonotone(0, now - t0, interval);
      assert WithinRate(lane, allowed, interval, t0);
      TakeKeepsRate(lane, allowed, w, now, t0);
    }
  }

  lemma SweepKeepsBound(c: Config, store: map<string, Bucket>, ip: string, isGet: bool, allowed: nat, t0: int,
                        clock: int, maxAge: int, now: int)
    requires 1 <= MaxOf(c, isGet) <= EffectiveWindow(c.window) && clock <= now
    requires maxAge >= EffectiveWindow(c.window)
    requires Bounded(c, store, ip, isGet, allowed, t0, clock)
    ensures Bounded(c, Sweep(store, maxAge, now), ip, isGet, allowed, t0, now)
  {
    var w := EffectiveWindow(c.window);
    var max := MaxOf(c, isGet);
    CapacityFitsWindow(w, max);
    DivisionMonotone(clock - t0, now - t0, RefillInterval(w, max));
    if ip in store && Stale(store[ip], maxAge, now) {
      FreshLaneKeepsRate(allowed, max, w, LaneOf(store[ip], isGet).last, now, t0);
    }
  }

  lemma {:induction false} RunStaysBounded(c: Config, events: seq<Event>, ip: string, isGet: bool, t0: int)
    requires 1 <= MaxOf(c, isGet) <= EffectiveWindow(c.window)
    requires InOrder(events) && PatientSweeps(c, events)
    requires Since(events, ip, t0)
    ensures Bounded(c, After(c, events), ip, isGet, Allowed(c, events, ip, isGet), t0, Clock(events, t0))
  {
    if events == [] {
      CapacityFitsWindow(EffectiveWindow(c.window), MaxOf(c, isGet));
    } else {
      var earlier, last := events[..|events| - 1], events[|events| - 1];
      RunStaysBounded(c, earlier, ip, isGet, t0);
      var clock := if earlier == [] then last.at else Clock(earlier, t0);
      match last
      case Request(who, which, at) =>
        RequestKeepsBound(c, After(c, earlier), ip, isGet, Allowed(c, earlier, ip, isGet), t0, clock, who, which, at);
      case Cleaned(maxAge, at) =>
        SweepKeepsBound(c, After(c, earlier), ip, isGet, Allowed(c, earlier, ip, isGet), t0, clock, maxAge, at);
    }
  }

  /** Over every run of requests by any clients, with cleanup sweeps anywhere in between, a client
      gets through at most its burst allowance plus one request per refill interval, which is the
      window divided by the allowance; a window of zero stands for one second. */
  lemma AllowedIsBounded(c: Config, events: seq<Event>, ip: string, isGet: bool, t0: int, t: int)
    requires var max, w := if isGet then c.maxGet else c.maxPost, if c.window == 0 then 1_000_000_000 else c.window;
             1 <= max <= w && forall i :: 0 <= i < |events| && events[i].Cleaned? ==> events[i].maxAge >= w
    requires InOrder(events) && Since(events, ip, t0) && t0 <= t && forall i :: 0 <= i < |events| ==> events[i].at <= t
    ensures var max, w := if isGet then c.maxGet else c.maxPost, if c.window == 0 then 1_000_000_000 else c.window;
            w / max >= 1 && Allowed(c, events, ip, isGet) <= max + (t - t0) / (w / max)
  {
    var w, max := EffectiveWindow(c.window), MaxOf(c, isGet);
    IntervalIsQuotient(w, max);
    CapacityFitsWindow(w, max);
    RunStaysBounded(c, events, ip, isGet, t0);
    BoundGrows(c, After(c, events), ip, isGet, Allowed(c, events, ip, isGet), t0, Clock(events, t0), t);
  }

  /** The bound on allowed requests, read off at any later time. */
  lemma BoundGrows(c: Config, store: map<string, Bucket>, ip: string, isGet: bool, allowed: nat, t0: int, clock: int, t: int)
    requires 1 <= MaxOf(c, isGet) <= EffectiveWindow(c.window) && clock <= t && t0 <= t
    requires RefillInterval(EffectiveWindow(c.window), MaxOf(c, isGet)) > 0
    requires Bounded(c, store, ip, isGet, allowed, t0, clock)
    ensures allowed <= MaxOf(c, isGet) + Ticks(RefillInterval(EffectiveWindow(c.window), MaxOf(c, isGet)), t0, t)
  {
    var interval := RefillInterval(EffectiveWindow(c.window), MaxOf(c, isGet));
    DivisionMonotone(0, t - t0, interval);
    DivisionMonotone(clock - t0, t - t0, interval);
    if ip in store {
      DivisionMonotone(LaneOf(store[ip], isGet).last - t0, t - t0, interval);
    }
  }

  /** A class without capacity is never served. */
  lemma {:induction false} NoCapacityNoService(c: Config, events: seq<Event>, ip: string, isGet: bool)
    requires MaxOf(c, isGet) <= 0
    ensures Allowed(c, events, ip, isGet) == 0
    ensures ip in After(c, events) ==>
              var lane := LaneOf(After(c, events)[ip], isGet); lane.tokens <= 0 && lane.rate <= 0
  {
    if events != [] {
      NoCapacityNoService(c, events[..|events| - 1], ip, isGet);
    }
  }

  // ---------------------------------------------------------------- lazy against eager

  datatype Hit = Hit(isGet: bool, at: int)

  ghost predicate HitsInOrder(hits: seq<Hit>, t0: int) {
    && (forall i :: 0 <= i < |hits| ==> t0 <= hits[i].at)
    && (forall i, j :: 0 <= i < j < |hits| ==> hits[i].at <= hits[j].at)
  }

  /** A bucket made at `t0` after some requests, with no cleanup. */
  function BucketAfter(c: Config, t0: int, hits: seq<Hit>): Bucket {
    if hits == [] then NewBucket(c, t0)
    else AllowBucket(BucketAfter(c, t0, hits[..|hits| - 1]), hits[|hits| - 1].isGet, hits[|hits| - 1].at, c.window).0
  }

  /** The times at which requests of one class were allowed. */
  function Taken(c: Config, t0: int, hits: seq<Hit>, isGet: bool): seq<int> {
    if hits == [] then []
    else
      var earlier, last := hits[..|hits| - 1], hits[|hits| - 1];
      Taken(c, t0, earlier, isGet) +
      if last.isGet == isGet && AllowBucket(BucketAfter(c, t0, earlier), isGet, last.at, c.window).1 then [last.at] else []
  }

  /** The lane of one class is level with its eager bucket, up to ticks not yet seen. */
  ghost predicate Level(c: Config, b: Bucket, isGet: bool, t0: int, taken: seq<int>, clock: int) {
    var interval := RefillInterval(EffectiveWindow(c.window), MaxOf(c, isGet));
    var lane := LaneOf(b, isGet);
    interval > 0 && lane.max == lane.rate == MaxOf(c, isGet) && Lags(lane, interval, t0, taken, clock)
  }

  lemma HitKeepsLevel(c: Config, b: Bucket, isGet: bool, t0: int, taken: seq<int>, clock: int, hit: Hit)
    requires Level(c, b, isGet, t0, taken, clock) && clock <= hit.at
    ensures var (b', ok) := AllowBucket(b, hit.isGet, hit.at, c.window);
            Level(c, b', isGet, t0, taken + (if hit.isGet == isGet && ok then [hit.at] else []), hit.at)
  {
    var w, lane := EffectiveWindow(c.window), LaneOf(b, isGet);
    assert taken + [] == taken;
    if hit.isGet == isGet {
      TakeDecidesEagerly(lane, w, t0, taken, clock, hit.at);
    } else {
      LagsLater(lane, RefillInterval(w, lane.rate), t0, taken, clock, hit.at);
    }
  }

  lemma {:induction false} LanesStayLevel(c: Config, t0: int, hits: seq<Hit>, isGet: bool)
    requires HitsInOrder(hits, t0)
    ensures Level(c, BucketAfter(c, t0, hits), isGet, t0, Taken(c, t0, hits, isGet),
                  if hits == [] then t0 else hits[|hits| - 1].at)
  {
    if hits == [] {
      NewLaneLags(MaxOf(c, isGet), EffectiveWindow(c.window), t0);
    } else {
      var earlier, last := hits[..|hits| - 1], hits[|hits| - 1];
      LanesStayLevel(c, t0, earlier, isGet);
      HitKeepsLevel(c, BucketAfter(c, t0, earlier), isGet, t0, Taken(c, t0, earlier, isGet),
                    if earlier == [] then t0 else earlier[|earlier| - 1].at, last);
    }
  }

  lemma LastHitIsLatest(hits: seq<Hit>, next: Hit, t0: int)
    requires HitsInOrder(hits + [next], t0)
    ensures HitsInOrder(hits, t0) && t0 <= next.at && (hits != [] ==> hits[|hits| - 1].at <= next.at)
  {
    var all := hits + [next];
    assert forall i :: 0 <= i < |hits| ==> hits[i] == all[i];
    assert all[|hits|] == next;
  }

  /** Without cleanup, every decision of the lazy bucket is that of an eager bucket which knows
      nothing but the capacity and the times of the requests of this class that were allowed:
      refused requests and the traffic of the other class never change a later decision. */
  lemma LazyDecidesAsEager(c: Config, t0: int, hits: seq<Hit>, next: Hit)
    requires HitsInOrder(hits + [next], t0)
    ensures var max, w := if next.isGet then c.maxGet else c.maxPost, if c.window == 0 then 1_000_000_000 else c.window;
            var interval := if max <= 0 then w else if max > w then 1 else w / max;
            interval > 0
            && (AllowBucket(BucketAfter(c, t0, hits), next.isGet, next.at, c.window).1 <==>
                EagerTokens(max, interval, t0, Taken(c, t0, hits, next.isGet), next.at) > 0)
  {
    IntervalIsQuotient(EffectiveWindow(c.window), MaxOf(c, next.isGet));
    LastHitIsLatest(hits, next, t0);
    LanesStayLevel(c, t0, hits, next.isGet);
    TakeDecidesEagerly(LaneOf(BucketAfter(c, t0, hits), next.isGet), EffectiveWindow(c.window), t0,
                       Taken(c, t0, hits, next.isGet), if hits == [] then t0 else hits[|hits| - 1].at, next.at);
  }

  /** When a bucket refuses a request after any traffic, Retry-After is the least number of whole
      seconds after which a retry of the same class, with nothing in between, is served. */
  lemma RetryAfterIsExact(c: Config, t0: int, hits: seq<Hit>, refused: Hit, seconds: nat)
    requires HitsInOrder(hits + [refused], t0) && (if refused.isGet then c.maxGet else c.maxPost) >= 1
    requires !AllowBucket(BucketAfter(c, t0, hits), refused.isGet, refused.at, c.window).1
    ensures var b := AllowBucket(BucketAfter(c, t0, hits), refused.isGet, refused.at, c.window).0;
            AllowBucket(b, refused.isGet, refused.at + seconds * 1_000_000_000, c.window).1 <==>
            seconds >= RetryAfter(LaneOf(b, refused.isGet), refused.at, EffectiveWindow(c.window))
  {
    LastHitIsLatest(hits, refused, t0);
    LanesStayLevel(c, t0, hits, refused.isGet);
    var lane := LaneOf(BucketAfter(c, t0, hits), refused.isGet);
    RetryAfterIsLeast(lane, refused.at, EffectiveWindow(c.window), seconds);
  }
}
