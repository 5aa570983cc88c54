/** The shared read cache: three scripts over a value map and two sorted sets. */
module RedisCache {
  import opened Common
  import opened Schema
  import opened Order
  import LruModel

  type Key = LruModel.CacheKey

  /** A value set with PX: what it holds and the microsecond at which it expires. */
  datatype Value = Value(row: CounterRow, deadline: int)

  /** What GET can still see at time `now`. */
  function Live(values: map<Key, Value>, now: int): map<Key, Value> {
    map k | k in values && now < values[k].deadline :: values[k]
  }

  /** Each live value is in the LRU index and carries its own deadline in the expiry index, and
      what the LRU index holds beyond the live values has expired. */
  ghost predicate Indexed(values: map<Key, Value>, lru: map<Key, int>, expiry: map<Key, int>, now: int) {
    && (forall k :: k in values && now < values[k].deadline ==> k in lru)
    && (forall k :: k in values && now < values[k].deadline ==> k in expiry && expiry[k] == values[k].deadline)
    && (forall k :: k in lru ==> k in expiry)
    && (forall k :: k in lru && now < expiry[k] ==> k in values && values[k].deadline == expiry[k])
  }

  /** The order of a sorted set: by score, and among equal scores by the bytes of the member. The
      members are hashes of the keys, so `tie` may be any total order. */
  predicate Before(lru: map<Key, int>, tie: (Key, Key) -> bool, a: Key, b: Key)
    requires a in lru && b in lru
  {
    lru[a] < lru[b] || (lru[a] == lru[b] && tie(a, b))
  }

  /** What ZPOPMIN takes. */
  predicate IsOldest(lru: map<Key, int>, tie: (Key, Key) -> bool, k: Key) {
    k in lru && forall other :: other in lru && other != k ==> Before(lru, tie, k, other)
  }

  lemma {:induction false} OldestExists(lru: map<Key, int>, tie: (Key, Key) -> bool) returns (oldest: Key)
    requires lru != map[] && Total(tie)
    ensures IsOldest(lru, tie, oldest)
    decreases lru.Keys
  {
    var k :| k in lru;
    var rest := lru - {k};
    if rest == map[] {
      oldest := k;
      assert forall other :: other in lru && other != k ==> other in rest;
    } else {
      oldest := OldestExists(rest, tie);
      OldestOfMore(lru, tie, k, oldest);
      oldest := if Before(lru, tie, k, oldest) then k else oldest;
    }
  }

  lemma OldestOfMore(lru: map<Key, int>, tie: (Key, Key) -> bool, k: Key, oldest: Key)
    requires Total(tie) && k in lru && IsOldest(lru - {k}, tie, oldest)
    ensures IsOldest(lru, tie, if Before(lru, tie, k, oldest) then k else oldest)
  {
    var rest := lru - {k};
    forall other | other in lru && other != k && other != oldest
      ensures Before(lru, tie, oldest, other)
      ensures Before(lru, tie, k, oldest) ==> Before(lru, tie, k, other)
    {
      assert other in rest && Before(rest, tie, oldest, other);
    }
  }

  /** Forgetting a key in the values and the LRU index takes it, and only it, from the live values. */
  lemma DropIndexed(values: map<Key, Value>, lru: map<Key, int>, expiry: map<Key, int>, now: int, key: Key)
    requires Indexed(values, lru, expiry, now)
    ensures Indexed(values - {key}, lru - {key}, expiry, now)
    ensures Indexed(values - {key}, lru - {key}, expiry - {key}, now)
  {
  }

  lemma DropLive(values: map<Key, Value>, now: int, key: Key)
    ensures Live(values - {key}, now) == Live(values, now) - {key}
  {
  }

  lemma DropSize<T>(m: map<Key, T>, key: Key)
    ensures (m - {key}).Keys == m.Keys - {key}
    ensures |m - {key}| == |m| - if key in m then 1 else 0
  {
    assert (m - {key}).Keys == m.Keys - {key};
  }

  lemma AddedSize<T>(m: map<Key, T>, key: Key, x: T)
    ensures |m[key := x]| == |m| + if key in m then 0 else 1
  {
    assert m[key := x].Keys == m.Keys + {key};
  }

  lemma PutIndexed(values: map<Key, Value>, lru: map<Key, int>, expiry: map<Key, int>, now: int, key: Key, value: Value)
    requires Indexed(values, lru, expiry, now) && now < value.deadline
    ensures Indexed(values[key := value], lru[key := now], expiry[key := value.deadline], now)
  {
  }

  lemma PutLive(values: map<Key, Value>, now: int, key: Key, value: Value)
    requires now < value.deadline
    ensures Live(values[key := value], now) == Live(values, now)[key := value]
  {
  }

  /** The LRU scores of the keys that are live. */
  function Among(lru: map<Key, int>, live: map<Key, Value>): map<Key, int> {
    map k | k in lru && k in live :: lru[k]
  }

  /** `part` is `whole` with some keys taken out. */
  ghost predicate Part<T(!new)>(part: map<Key, T>, whole: map<Key, T>) {
    forall k :: k in part ==> k in whole && part[k] == whole[k]
  }

  /** Whatever was taken out came before anything that was kept. */
  ghost predicate OldestGone(part: map<Key, int>, whole: map<Key, int>, tie: (Key, Key) -> bool) {
    forall gone, kept :: gone in whole && gone !in part && kept in part && kept in whole ==> Before(whole, tie, gone, kept)
  }

  lemma EvictStep(part: map<Key, int>, whole: map<Key, int>, tie: (Key, Key) -> bool, oldest: Key)
    requires Part(part, whole) && OldestGone(part, whole, tie) && IsOldest(part, tie, oldest)
    ensures Part(part - {oldest}, whole) && OldestGone(part - {oldest}, whole, tie)
  {
  }

  /** Every other key was used at this very time and comes later in the order of members. */
  ghost predicate AllTieAfter(used: map<Key, int>, tie: (Key, Key) -> bool, key: Key, now: int) {
    forall k :: k in used && k != key ==> used[k] == now && tie(key, k)
  }

  ghost predicate NoneLater(lru: map<Key, int>, now: int) {
    forall k :: k in lru ==> lru[k] <= now
  }

  /** The key used last is evicted only when one key has to go and all the others tie with it
      and come after it. */
  lemma NewestGoneIff(kept: map<Key, int>, used: map<Key, int>, tie: (Key, Key) -> bool, key: Key, now: int, max: nat)
    requires Total(tie) && Part(kept, used) && OldestGone(kept, used, tie) && NoneLater(used, now)
    requires key in used && used[key] == now && |used| <= max + 1
    requires |kept| == if |used| > max then max else |used|
    ensures key !in kept <==> |used| > max && AllTieAfter(used, tie, key, now)
  {
    if key !in kept {
      assert kept.Keys <= used.Keys - {key};
      SubsetIsNoLarger(kept.Keys, used.Keys - {key});
      SameWhenAsLarge(kept.Keys, used.Keys - {key});
      assert forall k :: k in used && k != key ==> k in kept && Before(used, tie, key, k);
    } else if |used| > max {
      var gone := MissingFrom(kept.Keys, used.Keys);
      assert Before(used, tie, gone, key);
      assert !tie(key, gone) || used[gone] < now by {
        if tie(key, gone) && tie(gone, key) {
          assert tie(key, key);
        }
      }
    }
  }

  /** What a set does to the live values and their scores: afterwards they are the earlier ones
      with the new one in place, less the least recently used ones that do not fit. The new one
      itself is lost exactly when one key has to go and all the others were used in the same
      microsecond and come after it. */
  ghost predicate Replaced(live: map<Key, Value>, lru: map<Key, int>, key: Key, value: Value, now: int, max: nat,
                           tie: (Key, Key) -> bool, live': map<Key, Value>, lru': map<Key, int>)
  {
    var wanted, used := live[key := value], Among(lru, live)[key := now];
    && lru'.Keys == live'.Keys && |lru'| == (if |wanted| > max then max else |wanted|)
    && Part(live', wanted) && Part(lru', used) && OldestGone(lru', used, tie)
    && (key !in live' <==> |wanted| > max && AllTieAfter(used, tie, key, now))
  }

  lemma SameWhenAsLarge<T>(a: set<T>, b: set<T>)
    requires a <= b && |a| == |b|
    ensures a == b
  {
    assert b == a + (b - a);
  }

  lemma MissingFrom<T>(a: set<T>, b: set<T>) returns (x: T)
    requires a <= b && |a| < |b|
    ensures x in b && x !in a
  {
    assert b == a + (b - a);
    x :| x in b - a;
  }

  /** Every key of the LRU index that has expired is still on the list of keys to sweep. */
  ghost predicate ToSweep(lru: map<Key, int>, expiry: map<Key, int>, now: int, expired: set<Key>) {
    && (forall k :: k in expired ==> k in expiry && expiry[k] <= now)
    && (forall k :: k in lru && k in expiry && expiry[k] <= now ==> k in expired)
  }

  lemma SweepStep(values: map<Key, Value>, lru: map<Key, int>, expiry: map<Key, int>, now: int, expired: set<Key>, key: Key)
    requires Indexed(values, lru, expiry, now) && ToSweep(lru, expiry, now, expired) && key in expired
    ensures Indexed(values - {key}, lru - {key}, expiry, now) && ToSweep(lru - {key}, expiry, now, expired - {key})
    ensures Live(values - {key}, now) == Live(values, now)
  {
    DropIndexed(values, lru, expiry, now, key);
  }

  lemma SweepEnd(values: map<Key, Value>, lru: map<Key, int>, expiry: map<Key, int>, now: int)
    requires Indexed(values, lru, expiry, now) && ToSweep(lru, expiry, now, {})
    ensures lru.Keys == Live(values, now).Keys
  {
  }

  class Server {
    const maxEntries: nat
    const ttlMs: nat
    const tie: (Key, Key) -> bool
    var values: map<Key, Value>
    var lru: map<Key, int>
    var expiry: map<Key, int>

    constructor (maxEntries: nat, ttlMs: nat, tie: (Key, Key) -> bool)
      ensures this.maxEntries == maxEntries && this.ttlMs == ttlMs && this.tie == tie
      ensures values == map[] && lru == map[] && expiry == map[]
    {
      this.maxEntries, this.ttlMs, this.tie := maxEntries, ttlMs, tie;
      values, lru, expiry := map[], map[], map[];
    }

    /** Holds at the time of the last script and at every later time. */
    ghost predicate Valid(now: int)
      reads this
    {
      && maxEntries >= 1 && ttlMs >= 1 && Total(tie)
      && Indexed(values, lru, expiry, now) && NoneLater(lru, now) && |lru| <= maxEntries
    }

    lemma ValidLater(earlier: int, now: int)
      requires Valid(earlier) && earlier <= now
      ensures Valid(now)
    {
    }

    /** At no time do live values outnumber the configured size. */
    lemma LiveIsBounded(now: int)
      requires Valid(now)
      ensures Live(values, now).Keys <= lru.Keys && |Live(values, now)| <= maxEntries
    {
      SubsetIsNoLarger(Live(values, now).Keys, lru.Keys);
    }

    method GetScript(key: Key, now: int) returns (found: Option<CounterRow>)
      requires Valid(now)
      modifies this
      ensures Valid(now) && Live(values, now) == old(Live(values, now))
      ensures found == if key in old(values) && now < old(values)[key].deadline then Some(old(values)[key].row) else None
      ensures key in Live(values, now) ==> lru == old(lru)[key := now]
      ensures key !in Live(values, now) ==> lru == old(lru) - {key}
    {
      if !(key in values && now < values[key].deadline) {
        DropSize(lru, key);
        lru := lru - {key};
        expiry := expiry - {key};
        return None;
      }
      lru := lru[key := now];
      assert lru.Keys == old(lru).Keys;
      found := Some(values[key].row);
    }

    /** The first loop of the set script. It leaves the expiry index alone. It deletes no live
        value, and afterwards the LRU index holds exactly the live ones. */
    method Sweep(now: int)
      requires Valid(now)
      modifies this`values, this`lru
      ensures Valid(now) && Live(values, now) == old(Live(values, now))
      ensures lru.Keys == Live(values, now).Keys && Part(lru, old(lru))
    {
      var expired := set k | k in expiry && expiry[k] <= now;
      while expired != {}
        invariant Indexed(values, lru, expiry, now) && NoneLater(lru, now) && |lru| <= maxEntries
        invariant Live(values, now) == old(Live(values, now))
        invariant Part(lru, old(lru)) && ToSweep(lru, expiry, now, expired)
      {
        var key :| key in expired;
        SweepStep(values, lru, expiry, now, expired, key);
        DropSize(lru, key);
        values := values - {key};
        lru := lru - {key};
        expired := expired - {key};
      }
      SweepEnd(values, lru, expiry, now);
    }

    /** The eviction loop: pops the least recently used keys until the index fits. */
    method Evict(now: int)
      requires maxEntries >= 1 && ttlMs >= 1 && Total(tie) && Indexed(values, lru, expiry, now) && NoneLater(lru, now)
      requires lru.Keys == Live(values, now).Keys
      modifies this
      ensures Valid(now) && lru.Keys == Live(values, now).Keys
      ensures Part(lru, old(lru)) && Part(Live(values, now), old(Live(values, now)))
      ensures OldestGone(lru, old(lru), tie)
      ensures |lru| == if |old(lru)| > maxEntries then maxEntries else |old(lru)|
    {
      while |lru| > maxEntries
        invariant Indexed(values, lru, expiry, now) && lru.Keys == Live(values, now).Keys
        invariant Part(lru, old(lru)) && Part(Live(values, now), old(Live(values, now)))
        invariant OldestGone(lru, old(lru), tie)
        invariant |old(lru)| >= |lru| && (|lru| >= maxEntries || |lru| == |old(lru)|)
        decreases |lru|
      {
        ghost var before := lru;
        var oldest := EvictOldest(now);
        EvictStep(before, old(lru), tie, oldest);
      }
    }

    method EvictOldest(now: int) returns (oldest: Key)
      requires Total(tie) && Indexed(values, lru, expiry, now) && lru != map[]
      modifies this
      ensures Indexed(values, lru, expiry, now) && IsOldest(old(lru), tie, oldest)
      ensures lru == old(lru) - {oldest} && lru.Keys == old(lru).Keys - {oldest} && |lru| == |old(lru)| - 1
      ensures Live(values, now) == old(Live(values, now)) - {oldest}
    {
      ghost var least := OldestExists(lru, tie);
      oldest :| IsOldest(lru, tie, oldest);
      DropIndexed(values, lru, expiry, now, oldest);
      DropLive(values, now, oldest);
      DropSize(lru, oldest);
      lru := lru - {oldest};
      values := values - {oldest};
      expiry := expiry - {oldest};
    }

    /** Sweeps, writes and evicts. */
    method SetScript(key: Key, row: CounterRow, now: int)
      requires Valid(now)
      modifies this
      ensures Valid(now)
      ensures Replaced(old(Live(values, now)), old(lru), key, Value(row, now + ttlMs * 1000), now, maxEntries, tie,
                       Live(values, now), lru)
    {
      LiveIsBounded(now);
      Sweep(now);
      assert lru == Among(old(lru), Live(values, now));
      Write(key, Value(row, now + ttlMs * 1000), now);
      ghost var used := lru;
      AddedSize(old(Live(values, now)), key, Value(row, now + ttlMs * 1000));
      AddedSize(Among(old(lru), old(Live(values, now))), key, now);
      Evict(now);
      NewestGoneIff(lru, used, tie, key, now, maxEntries);
    }

    /** SET and the two ZADDs. */
    method Write(key: Key, value: Value, now: int)
      requires Indexed(values, lru, expiry, now) && now < value.deadline && lru.Keys == Live(values, now).Keys
      modifies this
      ensures Indexed(values, lru, expiry, now) && lru.Keys == Live(values, now).Keys
      ensures NoneLater(old(lru), now) ==> NoneLater(lru, now)
      ensures lru == old(lru)[key := now] && Live(values, now) == old(Live(values, now))[key := value]
    {
      PutIndexed(values, lru, expiry, now, key, value);
      PutLive(values, now, key, value);
      values := values[key := value];
      lru := lru[key := now];
      expiry := expiry[key := value.deadline];
    }

    method DeleteScript(key: Key, ghost now: int)
      requires Valid(now)
      modifies this
      ensures Valid(now) && Live(values, now) == old(Live(values, now)) - {key}
    {
      DropIndexed(values, lru, expiry, now, key);
      DropLive(values, now, key);
      DropSize(lru, key);
      values := values - {key};
      lru := lru - {key};
      expiry := expiry - {key};
    }
  }

  // ---------------------------------------------------------------- runs

  /** The time of the last script that reads the clock. */
  function LastTime(events: seq<LruModel.Event>, start: int): int {
    if events == [] then start
    else
      var last := events[|events| - 1];
      if last.DoDelete? then LastTime(events[..|events| - 1], start) else last.at
  }

  predicate Monotone(events: seq<LruModel.Event>, start: int) {
    events != [] ==>
      var earlier, last := events[..|events| - 1], events[|events| - 1];
      Monotone(earlier, start) && (last.DoDelete? || LastTime(earlier, start) <= last.at)
  }

  /** Every live value is the latest one set for its key, with its own deadline. */
  ghost predicate Faithful(live: map<Key, Value>, events: seq<LruModel.Event>, ttl: int) {
    forall k :: k in live ==> LruModel.LastWrite(events, k) == Some((live[k].row, live[k].deadline - ttl))
  }

  lemma FaithfulLater(values: map<Key, Value>, events: seq<LruModel.Event>, ttl: int, earlier: int, now: int)
    requires Faithful(Live(values, earlier), events, ttl) && earlier <= now
    ensures Faithful(Live(values, now), events, ttl)
  {
  }

  /** What the next call may leave alive. */
  function Wanted(live: map<Key, Value>, e: LruModel.Event, ttl: int): map<Key, Value> {
    match e
    case DoGet(_, _) => live
    case DoSet(key, row, at) => live[key := Value(row, at + ttl)]
    case DoDelete(key) => live - {key}
  }

  lemma FaithfulStep(live: map<Key, Value>, live': map<Key, Value>, events: seq<LruModel.Event>, e: LruModel.Event, ttl: int)
    requires Faithful(live, events, ttl) && Part(live', Wanted(live, e, ttl))
    ensures Faithful(live', events + [e], ttl)
  {
    assert (events + [e])[..|events|] == events;
  }

  /** The answer is the latest set of the key, not deleted since and younger than the time to live. */
  predicate FreshHit(events: seq<LruModel.Event>, e: LruModel.Event, row: CounterRow, ttl: int)
    requires e.DoGet?
  {
    var write := LruModel.LastWrite(events, e.key);
    write.Some? && row == write.value.0 && e.at < write.value.1 + ttl
  }

  ghost predicate AllFresh(events: seq<LruModel.Event>, answers: seq<Option<CounterRow>>, ttl: int) {
    |answers| <= |events| && forall i :: 0 <= i < |answers| ==> Fits(events[..i], events[i], answers[i], ttl)
  }

  predicate Fits(events: seq<LruModel.Event>, e: LruModel.Event, answer: Option<CounterRow>, ttl: int) {
    answer.Some? ==> e.DoGet? && FreshHit(events, e, answer.value, ttl)
  }

  lemma AllFreshAppended(events: seq<LruModel.Event>, answers: seq<Option<CounterRow>>, e: LruModel.Event, answer: Option<CounterRow>, ttl: int)
    requires AllFresh(events, answers, ttl) && |answers| == |events| && Fits(events, e, answer, ttl)
    ensures AllFresh(events + [e], answers + [answer], ttl)
  {
    forall i | 0 <= i < |answers| + 1
      ensures Fits((events + [e])[..i], (events + [e])[i], (answers + [answer])[i], ttl)
    {
      assert (events + [e])[..i] == if i < |events| then events[..i] else events;
    }
  }

  /** One script call at time `now`, after the calls `events`. */
  method Serve(server: Server, ghost events: seq<LruModel.Event>, e: LruModel.Event, ghost now: int)
    returns (answer: Option<CounterRow>)
    requires server.Valid(now) && (e.DoDelete? || e.at == now)
    requires Faithful(Live(server.values, now), events, server.ttlMs * 1000)
    modifies server
    ensures server.Valid(now) && Faithful(Live(server.values, now), events + [e], server.ttlMs * 1000)
    ensures Fits(events, e, answer, server.ttlMs * 1000)
  {
    answer := None;
    ghost var live, ttl := Live(server.values, now), server.ttlMs * 1000;
    match e {
      case DoGet(key, at) =>
        answer := server.GetScript(key, at);
        assert Part(Live(server.values, now), Wanted(live, e, ttl));
      case DoSet(key, row, at) =>
        server.SetScript(key, row, at);
        assert Part(Live(server.values, now), Wanted(live, e, ttl));
      case DoDelete(key) =>
        server.DeleteScript(key, now);
        assert Part(Live(server.values, now), Wanted(live, e, ttl));
    }
    FaithfulStep(live, Live(server.values, now), events, e, ttl);
  }

  /** What holds after the calls `events`. */
  ghost predicate Sound(server: Server, events: seq<LruModel.Event>, start: int)
    reads server
  {
    server.Valid(LastTime(events, start)) && Faithful(Live(server.values, LastTime(events, start)), events, server.ttlMs * 1000)
  }

  /** The next call keeps it, if it comes no earlier than the last one. */
  method ServeNext(server: Server, ghost events: seq<LruModel.Event>, e: LruModel.Event, ghost start: int)
    returns (answer: Option<CounterRow>)
    requires Sound(server, events, start) && Monotone(events + [e], start)
    modifies server
    ensures Sound(server, events + [e], start) && Fits(events, e, answer, server.ttlMs * 1000)
  {
    ghost var earlier, now := LastTime(events, start), LastTime(events + [e], start);
    assert (events + [e])[..|events|] == events;
    server.ValidLater(earlier, now);
    FaithfulLater(server.values, events, server.ttlMs * 1000, earlier, now);
    answer := Serve(server, events, e, now);
  }

  /** In every run of the three scripts with a clock that does not go back, the indexes fit the
      live values and their number stays bounded, and every hit is fresh. */
  method Replay(maxEntries: nat, ttlMs: nat, tie: (Key, Key) -> bool, events: seq<LruModel.Event>, start: int)
    returns (server: Server, answers: seq<Option<CounterRow>>)
    requires maxEntries >= 1 && ttlMs >= 1 && Total(tie) && Monotone(events, start)
    ensures fresh(server) && server.maxEntries == maxEntries && server.ttlMs == ttlMs && server.tie == tie && Sound(server, events, start)
    ensures |Live(server.values, LastTime(events, start))| <= maxEntries
    ensures |answers| == |events| && AllFresh(events, answers, ttlMs * 1000)
  {
    if events == [] {
      server := new Server(maxEntries, ttlMs, tie);
      answers := [];
    } else {
      var earlier, last := events[..|events| - 1], events[|events| - 1];
      assert events == earlier + [last];
      server, answers := Replay(maxEntries, ttlMs, tie, earlier, start);
      var answer := ServeNext(server, earlier, last, start);
      AllFreshAppended(earlier, answers, last, answer, ttlMs * 1000);
      answers := answers + [answer];
    }
    server.LiveIsBounded(LastTime(events, start));
  }

  // ---------------------------------------------------------------- a lost write

  /** The live keys are exactly these, all used in the same microsecond. */
  ghost predicate JustFilled(server: Server, keys: set<Key>, now: int)
    reads server
  {
    && server.Valid(now) && Live(server.values, now).Keys == keys == server.lru.Keys
    && forall k :: k in server.lru ==> server.lru[k] == now
  }

  lemma FittingSetAdds(live: map<Key, Value>, lru: map<Key, int>, key: Key, value: Value, now: int, max: nat,
                       tie: (Key, Key) -> bool, live': map<Key, Value>, lru': map<Key, int>)
    requires Replaced(live, lru, key, value, now, max, tie, live', lru')
    requires key !in live && |live| < max && forall k :: k in lru ==> lru[k] == now
    ensures live'.Keys == live.Keys + {key} && forall k :: k in lru' ==> lru'[k] == now
  {
    AddedSize(live, key, value);
    SameWhenAsLarge(live'.Keys, live.Keys + {key});
  }

  lemma TyingSetIsLost(live: map<Key, Value>, lru: map<Key, int>, key: Key, value: Value, now: int, max: nat,
                       tie: (Key, Key) -> bool, live': map<Key, Value>, lru': map<Key, int>)
    requires Replaced(live, lru, key, value, now, max, tie, live', lru')
    requires key !in live && |live| == max && forall k :: k in lru ==> lru[k] == now
    requires forall k :: k in live ==> tie(key, k)
    ensures live'.Keys == live.Keys
  {
    AddedSize(live, key, value);
    assert AllTieAfter(Among(lru, live)[key := now], tie, key, now);
    assert live'.Keys <= live.Keys;
    SameWhenAsLarge(live'.Keys, live.Keys);
  }

  /** A set that still fits adds its key. */
  method FillOne(server: Server, ghost keys: set<Key>, key: Key, row: CounterRow, now: int)
    requires JustFilled(server, keys, now) && key !in keys && |keys| < server.maxEntries
    modifies server
    ensures JustFilled(server, keys + {key}, now)
  {
    server.SetScript(key, row, now);
    FittingSetAdds(old(Live(server.values, now)), old(server.lru), key, Value(row, now + server.ttlMs * 1000), now,
                   server.maxEntries, server.tie, Live(server.values, now), server.lru);
  }

  function KeySet(keys: seq<Key>): set<Key> {
    set k | k in keys
  }

  ghost predicate AllDifferent(keys: seq<Key>) {
    forall i, j :: 0 <= i < j < |keys| ==> keys[i] != keys[j]
  }

  lemma KeySetGrows(keys: seq<Key>)
    requires AllDifferent(keys) && keys != []
    ensures var earlier, last := keys[..|keys| - 1], keys[|keys| - 1];
            && AllDifferent(earlier) && last !in KeySet(earlier) && KeySet(keys) == KeySet(earlier) + {last}
            && |KeySet(keys)| == |KeySet(earlier)| + 1
  {
    assert keys == keys[..|keys| - 1] + [keys[|keys| - 1]];
  }

  method NewServer(maxEntries: nat, ttlMs: nat, tie: (Key, Key) -> bool, ghost now: int) returns (server: Server)
    requires maxEntries >= 1 && ttlMs >= 1 && Total(tie)
    ensures fresh(server) && server.maxEntries == maxEntries && server.tie == tie
    ensures JustFilled(server, {}, now)
  {
    server := new Server(maxEntries, ttlMs, tie);
  }

  /** Sets the keys one after the other, all at time `now`. */
  method FillAll(maxEntries: nat, ttlMs: nat, tie: (Key, Key) -> bool, keys: seq<Key>, row: CounterRow, now: int)
    returns (server: Server)
    requires maxEntries >= 1 && ttlMs >= 1 && Total(tie) && |keys| <= maxEntries && AllDifferent(keys)
    ensures fresh(server) && server.maxEntries == maxEntries && server.tie == tie
    ensures JustFilled(server, KeySet(keys), now) && |KeySet(keys)| == |keys|
  {
    if keys == [] {
      server := NewServer(maxEntries, ttlMs, tie, now);
    } else {
      var earlier, last := keys[..|keys| - 1], keys[|keys| - 1];
      KeySetGrows(keys);
      server := FillAll(maxEntries, ttlMs, tie, earlier, row, now);
      FillOne(server, KeySet(earlier), last, row, now);
    }
  }

  /** The loss does happen, at every size: fill the cache within one microsecond with keys that
      come after `key`, then set `key`. The set evicts its own key and keeps all the others. */
  method SetLosesItsOwnKey(maxEntries: nat, ttlMs: nat, tie: (Key, Key) -> bool, others: seq<Key>, key: Key, row: CounterRow, now: int)
    returns (server: Server)
    requires maxEntries >= 1 && ttlMs >= 1 && Total(tie) && |others| == maxEntries && AllDifferent(others)
    requires forall i :: 0 <= i < |others| ==> tie(key, others[i])
    ensures server.Valid(now) && key !in Live(server.values, now) && Live(server.values, now).Keys == KeySet(others)
  {
    server := FillAll(maxEntries, ttlMs, tie, others, row, now);
    LoseLast(server, KeySet(others), key, row, now);
  }

  method LoseLast(server: Server, ghost keys: set<Key>, key: Key, row: CounterRow, now: int)
    requires JustFilled(server, keys, now) && |keys| == server.maxEntries
    requires forall k :: k in keys ==> server.tie(key, k)
    modifies server
    ensures server.Valid(now) && Live(server.values, now).Keys == keys && key !in keys
  {
    assert !server.tie(key, key);
    server.SetScript(key, row, now);
    TyingSetIsLost(old(Live(server.values, now)), old(server.lru), key, Value(row, now + server.ttlMs * 1000), now,
                   server.maxEntries, server.tie, Live(server.values, now), server.lru);
  }
}
