/** The read cache as a list of slots, most recently used first, and what any run of it keeps. */
module LruModel {
  import opened Common
  import opened Schema

  /** Tenant and counter id, in lower case. */
  type CacheKey = (string, string)

  datatype Slot = Slot(key: CacheKey, row: CounterRow, expiresAt: int)

  function Lookup(slots: seq<Slot>, key: CacheKey): Option<Slot> {
    if slots == [] then None
    else if slots[0].key == key then Some(slots[0])
    else Lookup(slots[1..], key)
  }

  function Without(slots: seq<Slot>, key: CacheKey): seq<Slot> {
    if slots == [] then []
    else if slots[0].key == key then slots[1..]
    else [slots[0]] + Without(slots[1..], key)
  }

  function Get(slots: seq<Slot>, key: CacheKey, now: int): (seq<Slot>, Option<CounterRow>) {
    var found := Lookup(slots, key);
    if found.None? then (slots, None)
    else if now >= found.value.expiresAt then (Without(slots, key), None)
    else ([found.value] + Without(slots, key), Some(found.value.row))
  }

  function Trim(slots: seq<Slot>, max: nat): seq<Slot> {
    if |slots| <= max then slots else slots[..max]
  }

  function Set(slots: seq<Slot>, key: CacheKey, row: CounterRow, expiresAt: int, max: nat): seq<Slot> {
    if Lookup(slots, key).Some? then [Slot(key, row, expiresAt)] + Without(slots, key)
    else Trim([Slot(key, row, expiresAt)] + slots, max)
  }

  // ---------------------------------------------------------------- runs

  datatype Event =
    | DoGet(key: CacheKey, at: int)
    | DoSet(key: CacheKey, row: CounterRow, at: int)
    | DoDelete(key: CacheKey)

  function Step(slots: seq<Slot>, e: Event, max: nat, ttl: int): seq<Slot> {
    match e
    case DoGet(key, at) => Get(slots, key, at).0
    case DoSet(key, row, at) => Set(slots, key, row, at + ttl, max)
    case DoDelete(key) => Without(slots, key)
  }

  function After(events: seq<Event>, max: nat, ttl: int): seq<Slot> {
    if events == [] then [] else Step(After(events[..|events| - 1], max, ttl), events[|events| - 1], max, ttl)
  }

  lemma AfterOneMore(events: seq<Event>, i: nat, max: nat, ttl: int)
    requires i < |events|
    ensures After(events[..i + 1], max, ttl) == Step(After(events[..i], max, ttl), events[i], max, ttl)
  {
    assert events[..i + 1][..i] == events[..i];
  }

  ghost predicate Distinct(slots: seq<Slot>) {
    forall i, j :: 0 <= i < j < |slots| ==> slots[i].key != slots[j].key
  }

  /** The latest value given for a key, with its time, unless it was deleted since. */
  function LastWrite(events: seq<Event>, key: CacheKey): Option<(CounterRow, int)> {
    if events == [] then None
    else
      var earlier, last := events[..|events| - 1], events[|events| - 1];
      if last.key != key || last.DoGet? then LastWrite(earlier, key)
      else if last.DoSet? then Some((last.row, last.at))
      else None
  }

  /** The event uses its key: a set, or a get that hits. */
  predicate Uses(slots: seq<Slot>, e: Event) {
    e.DoSet? || (e.DoGet? && Get(slots, e.key, e.at).1.Some?)
  }

  /** The other keys used since the last use of `key`. */
  function UsedSince(events: seq<Event>, key: CacheKey, max: nat, ttl: int): set<CacheKey> {
    if events == [] then {}
    else
      var earlier, last := events[..|events| - 1], events[|events| - 1];
      if !Uses(After(earlier, max, ttl), last) then UsedSince(earlier, key, max, ttl)
      else if last.key == key then {}
      else UsedSince(earlier, key, max, ttl) + {last.key}
  }

  /** None of the three ways to lose a key has happened since it was last set: it was not deleted,
      no get found it expired, and fewer than `max` other keys were used since its last use. */
  predicate Kept(events: seq<Event>, key: CacheKey, max: nat, ttl: int) {
    events != []
    && var earlier, last := events[..|events| - 1], events[|events| - 1];
       if last.key != key then Kept(earlier, key, max, ttl) && |UsedSince(events, key, max, ttl)| < max
       else match last
            case DoSet(_, _, _) => true
            case DoDelete(_) => false
            case DoGet(_, at) =>
              Kept(earlier, key, max, ttl) && LastWrite(earlier, key).Some? && at < LastWrite(earlier, key).value.1 + ttl
  }

  // ---------------------------------------------------------------- single operations

  lemma {:induction false} WithoutRemoves(slots: seq<Slot>, key: CacheKey)
    requires Distinct(slots)
    ensures Distinct(Without(slots, key)) && Lookup(Without(slots, key), key).None?
    ensures |Without(slots, key)| == |slots| - if Lookup(slots, key).Some? then 1 else 0
    ensures forall s :: s in Without(slots, key) ==> s in slots && s.key != key
  {
    if slots != [] && slots[0].key != key {
      WithoutRemoves(slots[1..], key);
      assert forall s :: s in slots[1..] ==> s in slots;
    } else if slots != [] {
      forall s | s in slots[1..]
        ensures s in slots && s.key != key
      {
        var i :| 0 <= i < |slots| - 1 && slots[1..][i] == s;
        assert slots[i + 1] == s;
      }
      NotThere(slots[1..], key);
    }
  }

  lemma {:induction false} NotThere(slots: seq<Slot>, key: CacheKey)
    ensures Lookup(slots, key).None? <==> forall s :: s in slots ==> s.key != key
    ensures Lookup(slots, key).Some? ==> Lookup(slots, key).value in slots && Lookup(slots, key).value.key == key
  {
    if slots != [] {
      NotThere(slots[1..], key);
      assert forall s :: s in slots <==> s == slots[0] || s in slots[1..];
    }
  }

  /** The keys in front of `key`. */
  function Ahead(slots: seq<Slot>, key: CacheKey): set<CacheKey> {
    if slots == [] || slots[0].key == key then {} else {slots[0].key} + Ahead(slots[1..], key)
  }

  lemma {:induction false} WithoutOther(slots: seq<Slot>, gone: CacheKey, key: CacheKey)
    requires gone != key
    ensures Lookup(Without(slots, gone), key) == Lookup(slots, key)
    ensures Ahead(Without(slots, gone), key) <= Ahead(slots, key)
  {
    if slots != [] && slots[0].key != gone {
      WithoutOther(slots[1..], gone, key);
    }
  }

  /** Dropping the last slot does not touch a key that has fewer than all the others in front. */
  lemma {:induction false} CutLast(slots: seq<Slot>, key: CacheKey)
    requires Distinct(slots) && Lookup(slots, key).Some? && |Ahead(slots, key)| < |slots| - 1
    ensures var cut := slots[..|slots| - 1];
            Lookup(cut, key) == Lookup(slots, key) && Ahead(cut, key) == Ahead(slots, key)
  {
    var cut := slots[..|slots| - 1];
    if slots[0].key != key {
      assert slots[0].key !in Ahead(slots[1..], key) by {
        AheadIsInside(slots[1..], key);
        assert forall s :: s in slots[1..] ==> s.key != slots[0].key;
      }
      CutLast(slots[1..], key);
      assert cut[1..] == slots[1..][..|slots| - 2];
    }
  }

  lemma {:induction false} AheadIsInside(slots: seq<Slot>, key: CacheKey)
    ensures forall k :: k in Ahead(slots, key) ==> exists s :: s in slots && s.key == k
  {
    if slots != [] && slots[0].key != key {
      AheadIsInside(slots[1..], key);
      assert forall s :: s in slots[1..] ==> s in slots;
      assert slots[0] in slots;
    }
  }

  lemma {:induction false} CutKeepsFound(slots: seq<Slot>, key: CacheKey)
    requires slots != []
    ensures var cut := slots[..|slots| - 1];
            Lookup(cut, key).Some? ==> Lookup(cut, key) == Lookup(slots, key) && Ahead(cut, key) == Ahead(slots, key)
  {
    var cut := slots[..|slots| - 1];
    if cut != [] && slots[0].key != key {
      CutKeepsFound(slots[1..], key);
      assert cut[1..] == slots[1..][..|slots| - 2];
    }
  }

  // ---------------------------------------------------------------- invariants of every run

  ghost predicate Proper(slots: seq<Slot>, max: nat) {
    Distinct(slots) && |slots| <= max
  }

  /** A slot in front of slots with other keys. */
  lemma DistinctAdded(s: Slot, slots: seq<Slot>)
    requires Distinct(slots) && forall other :: other in slots ==> other.key != s.key
    ensures Distinct([s] + slots)
  {
  }

  lemma StepKeepsProper(slots: seq<Slot>, e: Event, max: nat, ttl: int)
    requires Proper(slots, max) && max >= 1
    ensures Proper(Step(slots, e, max, ttl), max)
  {
    WithoutRemoves(slots, e.key);
    NotThere(slots, e.key);
    var found := Lookup(slots, e.key);
    if found.Some? && !e.DoDelete? {
      DistinctAdded(if e.DoSet? then Slot(e.key, e.row, e.at + ttl) else found.value, Without(slots, e.key));
    } else if e.DoSet? {
      DistinctAdded(Slot(e.key, e.row, e.at + ttl), slots);
    }
  }

  /** In every run the cache holds each key at most once and never more than `max` keys. */
  lemma {:induction false} RunStaysProper(events: seq<Event>, max: nat, ttl: int)
    requires max >= 1
    ensures Proper(After(events, max, ttl), max)
  {
    if events != [] {
      RunStaysProper(events[..|events| - 1], max, ttl);
      StepKeepsProper(After(events[..|events| - 1], max, ttl), events[|events| - 1], max, ttl);
    }
  }

  /** A slot holds the latest set of its key. */
  predicate Current(slots: seq<Slot>, key: CacheKey, write: Option<(CounterRow, int)>, ttl: int) {
    Lookup(slots, key).Some? ==>
      write.Some? && Lookup(slots, key).value == Slot(key, write.value.0, write.value.1 + ttl)
  }

  lemma StepStaysCurrent(slots: seq<Slot>, e: Event, key: CacheKey, write: Option<(CounterRow, int)>, max: nat, ttl: int)
    requires Proper(slots, max) && max >= 1 && Current(slots, key, write, ttl)
    ensures e.key != key || e.DoGet? ==> Current(Step(slots, e, max, ttl), key, write, ttl)
    ensures e.key == key && e.DoSet? ==> Current(Step(slots, e, max, ttl), key, Some((e.row, e.at)), ttl)
    ensures e.key == key && e.DoDelete? ==> Current(Step(slots, e, max, ttl), key, None, ttl)
  {
    WithoutRemoves(slots, e.key);
    NotThere(slots, e.key);
    if e.key != key {
      WithoutOther(slots, e.key, key);
      if e.DoSet? && Lookup(slots, e.key).None? {
        var pushed := [Slot(e.key, e.row, e.at + ttl)] + slots;
        assert pushed[1..] == slots;
        CutKeepsFound(pushed, key);
      }
    }
  }

  lemma {:induction false} RunStaysCurrent(events: seq<Event>, key: CacheKey, max: nat, ttl: int)
    requires max >= 1
    ensures Current(After(events, max, ttl), key, LastWrite(events, key), ttl)
  {
    if events != [] {
      var earlier := events[..|events| - 1];
      RunStaysProper(earlier, max, ttl);
      RunStaysCurrent(earlier, key, max, ttl);
      StepStaysCurrent(After(earlier, max, ttl), events[|events| - 1], key, LastWrite(earlier, key), max, ttl);
    }
  }

  /** A hit returns exactly the latest set of the key, which was not deleted and is younger than
      the time to live. */
  lemma HitIsLatestSet(events: seq<Event>, key: CacheKey, now: int, max: nat, ttl: int)
    requires max >= 1
    requires Get(After(events, max, ttl), key, now).1.Some?
    ensures var write := LastWrite(events, key);
            write.Some? && Get(After(events, max, ttl), key, now).1 == Some(write.value.0) && now < write.value.1 + ttl
  {
    RunStaysCurrent(events, key, max, ttl);
  }

  // ---------------------------------------------------------------- retention

  /** Whatever stands in front of a cached key was used after it. */
  lemma StepKeepsAhead(slots: seq<Slot>, e: Event, key: CacheKey, used: set<CacheKey>, max: nat, ttl: int)
    requires Proper(slots, max) && max >= 1
    requires Lookup(slots, key).Some? ==> Ahead(slots, key) <= used
    ensures var used' := if !Uses(slots, e) then used else if e.key == key then {} else used + {e.key};
            var slots' := Step(slots, e, max, ttl);
            && (Lookup(slots', key).Some? ==> Ahead(slots', key) <= used')
            && (Lookup(slots, key).Some? && e.key != key && |used'| < max ==> Lookup(slots', key).Some?)
  {
    var slots' := Step(slots, e, max, ttl);
    WithoutRemoves(slots, e.key);
    NotThere(slots, e.key);
    if e.key != key {
      WithoutOther(slots, e.key, key);
      if e.DoSet? && Lookup(slots, e.key).None? {
        PushKeepsAhead(slots, Slot(e.key, e.row, e.at + ttl), key, used, max);
      } else if Uses(slots, e) {
        assert slots'[1..] == Without(slots, e.key);
      }
    }
  }

  lemma PushKeepsAhead(slots: seq<Slot>, pushed: Slot, key: CacheKey, used: set<CacheKey>, max: nat)
    requires Proper(slots, max) && max >= 1 && Lookup(slots, pushed.key).None? && pushed.key != key
    requires Lookup(slots, key).Some? ==> Ahead(slots, key) <= used
    ensures var slots' := Trim([pushed] + slots, max);
            && (Lookup(slots', key).Some? ==> Ahead(slots', key) <= used + {pushed.key})
            && (Lookup(slots, key).Some? && |used + {pushed.key}| < max ==> Lookup(slots', key).Some?)
  {
    var all := [pushed] + slots;
    assert all[1..] == slots;
    NotThere(slots, pushed.key);
    assert Distinct(all);
    CutKeepsFound(all, key);
    if Lookup(slots, key).Some? && |used + {pushed.key}| < max && |all| > max {
      SubsetIsNoLarger(Ahead(all, key), used + {pushed.key});
      CutLast(all, key);
    }
  }

  lemma {:induction false} RunKeepsAhead(events: seq<Event>, key: CacheKey, max: nat, ttl: int)
    requires max >= 1
    ensures Lookup(After(events, max, ttl), key).Some? ==> Ahead(After(events, max, ttl), key) <= UsedSince(events, key, max, ttl)
  {
    if events != [] {
      var earlier := events[..|events| - 1];
      RunStaysProper(earlier, max, ttl);
      RunKeepsAhead(earlier, key, max, ttl);
      StepKeepsAhead(After(earlier, max, ttl), events[|events| - 1], key, UsedSince(earlier, key, max, ttl), max, ttl);
    }
  }

  /** A key that none of the three ways has lost, and that has not expired, hits with its latest set. */
  lemma KeptKeyHits(events: seq<Event>, key: CacheKey, now: int, max: nat, ttl: int)
    requires max >= 1 && Kept(events, key, max, ttl)
    requires LastWrite(events, key).Some? ==> now < LastWrite(events, key).value.1 + ttl
    ensures LastWrite(events, key).Some?
    ensures Get(After(events, max, ttl), key, now).1 == Some(LastWrite(events, key).value.0)
  {
    LostOnlyForAReason(events, key, max, ttl);
    RunStaysCurrent(events, key, max, ttl);
  }

  /** A key that was set is still cached unless it was deleted, found expired by a get, or pushed
      out by `max` distinct other keys used since its last use. */
  lemma {:induction false} LostOnlyForAReason(events: seq<Event>, key: CacheKey, max: nat, ttl: int)
    requires max >= 1 && Kept(events, key, max, ttl)
    ensures Lookup(After(events, max, ttl), key).Some?
  {
    var earlier, last := events[..|events| - 1], events[|events| - 1];
    var slots := After(earlier, max, ttl);
    RunStaysProper(earlier, max, ttl);
    if last.key != key {
      LostOnlyForAReason(earlier, key, max, ttl);
      RunKeepsAhead(earlier, key, max, ttl);
      StepKeepsAhead(slots, last, key, UsedSince(earlier, key, max, ttl), max, ttl);
    } else if last.DoGet? {
      LostOnlyForAReason(earlier, key, max, ttl);
      RunStaysCurrent(earlier, key, max, ttl);
    }
  }
}
