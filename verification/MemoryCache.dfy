/** The in-memory read cache: a map into the elements of a list in order of use. */
module MemoryCache {
  import opened Common
  import opened Schema
  import LruModel

  class Entry {
    const key: LruModel.CacheKey
    var row: CounterRow
    var expiresAt: int

    constructor (key: LruModel.CacheKey, row: CounterRow, expiresAt: int)
      ensures this.key == key && this.row == row && this.expiresAt == expiresAt
    {
      this.key, this.row, this.expiresAt := key, row, expiresAt;
    }

    ghost function Slot(): LruModel.Slot
      reads this
    {
      LruModel.Slot(key, row, expiresAt)
    }
  }

  /** list.Remove: takes one element out of the list. */
  function Unlink(lru: seq<Entry>, e: Entry): seq<Entry> {
    if lru == [] then []
    else if lru[0] == e then lru[1..]
    else [lru[0]] + Unlink(lru[1..], e)
  }

  lemma {:induction false} UnlinkAt(lru: seq<Entry>, i: nat)
    requires i < |lru| && forall j :: 0 <= j < i ==> lru[j] != lru[i]
    ensures Unlink(lru, lru[i]) == Cut(lru, i)
  {
    if i > 0 {
      UnlinkAt(lru[1..], i - 1);
      assert lru[..i] + lru[i + 1..] == [lru[0]] + (lru[1..][..i - 1] + lru[1..][i..]);
    }
  }

  lemma {:induction false} WithoutAt(slots: seq<LruModel.Slot>, i: nat)
    requires i < |slots| && forall j :: 0 <= j < i ==> slots[j].key != slots[i].key
    ensures LruModel.Lookup(slots, slots[i].key) == Some(slots[i])
    ensures LruModel.Without(slots, slots[i].key) == Cut(slots, i)
  {
    if i > 0 {
      WithoutAt(slots[1..], i - 1);
      assert slots[..i] + slots[i + 1..] == [slots[0]] + (slots[1..][..i - 1] + slots[1..][i..]);
    }
  }

  /** Every element is reached from the map under its own key. */
  ghost predicate Listed(items: map<LruModel.CacheKey, Entry>, lru: seq<Entry>) {
    forall i :: 0 <= i < |lru| ==> lru[i].key in items && items[lru[i].key] == lru[i]
  }

  /** Every key of the map leads to an element of the list. */
  ghost predicate Reached(items: map<LruModel.CacheKey, Entry>, lru: seq<Entry>) {
    forall key :: key in items ==> items[key] in lru && items[key].key == key
  }

  ghost predicate NoRepeats(lru: seq<Entry>) {
    forall i, j :: 0 <= i < j < |lru| ==> lru[i].key != lru[j].key
  }

  ghost predicate Tied(items: map<LruModel.CacheKey, Entry>, lru: seq<Entry>) {
    Listed(items, lru) && Reached(items, lru) && NoRepeats(lru)
  }

  /** The list without its element at `i`. */
  function Cut<T>(s: seq<T>, i: nat): seq<T>
    requires i < |s|
  {
    s[..i] + s[i + 1..]
  }

  lemma CutNoRepeats(lru: seq<Entry>, i: nat)
    requires NoRepeats(lru) && i < |lru|
    ensures NoRepeats(Cut(lru, i))
    ensures forall j :: 0 <= j < |lru| - 1 ==> Cut(lru, i)[j].key != lru[i].key
    ensures forall x :: x in Cut(lru, i) ==> x in lru
    ensures forall x :: x in lru && x != lru[i] ==> x in Cut(lru, i)
  {
    forall x | x in lru && x != lru[i]
      ensures x in Cut(lru, i)
    {
      var j :| 0 <= j < |lru| && lru[j] == x;
      assert Cut(lru, i)[if j < i then j else j - 1] == x;
    }
  }

  lemma RemovedStaysTied(items: map<LruModel.CacheKey, Entry>, lru: seq<Entry>, i: nat)
    requires Tied(items, lru) && i < |lru|
    ensures Tied(items - {lru[i].key}, Cut(lru, i))
  {
    CutNoRepeats(lru, i);
    var lru' := Cut(lru, i);
    forall j | 0 <= j < |lru'|
      ensures lru'[j].key in items - {lru[i].key} && items[lru'[j].key] == lru'[j]
    {
      assert lru'[j] in lru;
    }
    forall key | key in items - {lru[i].key}
      ensures items[key] in lru'
    {
      assert items[key] in lru;
    }
  }

  lemma AddedStaysTied(items: map<LruModel.CacheKey, Entry>, lru: seq<Entry>, e: Entry)
    requires Tied(items, lru) && e.key !in items
    ensures Tied(items[e.key := e], [e] + lru)
  {
    var lru' := [e] + lru;
    assert forall x :: x in lru' <==> x == e || x in lru;
  }

  lemma MovedStaysTied(items: map<LruModel.CacheKey, Entry>, lru: seq<Entry>, i: nat)
    requires Tied(items, lru) && i < |lru|
    ensures Tied(items, [lru[i]] + Cut(lru, i))
  {
    RemovedStaysTied(items, lru, i);
    AddedStaysTied(items - {lru[i].key}, Cut(lru, i), lru[i]);
    assert (items - {lru[i].key})[lru[i].key := lru[i]] == items;
  }

  lemma {:induction false} SameSize(items: map<LruModel.CacheKey, Entry>, lru: seq<Entry>)
    requires Tied(items, lru)
    ensures |items| == |lru|
  {
    if lru == [] {
      assert items == map[];
    } else {
      RemovedStaysTied(items, lru, 0);
      var items' := items - {lru[0].key};
      SameSize(items', Cut(lru, 0));
      assert items.Keys == items'.Keys + {lru[0].key};
    }
  }

  /** `view` is what the elements of the list hold, in the same order. */
  ghost predicate Mirrors(lru: seq<Entry>, view: seq<LruModel.Slot>)
    reads lru
  {
    |view| == |lru| && forall i :: 0 <= i < |lru| ==> lru[i].Slot() == view[i]
  }

  lemma CutMirrors(lru: seq<Entry>, view: seq<LruModel.Slot>, i: nat)
    requires Mirrors(lru, view) && i < |lru|
    ensures Mirrors(Cut(lru, i), Cut(view, i))
    ensures Mirrors([lru[i]] + Cut(lru, i), [view[i]] + Cut(view, i))
    ensures forall x :: x in Cut(lru, i) ==> x in lru
  {
  }

  lemma AddedMirrors(lru: seq<Entry>, view: seq<LruModel.Slot>, e: Entry)
    requires Mirrors(lru, view)
    ensures Mirrors([e] + lru, [e.Slot()] + view)
  {
  }

  /** Where an element of the map stands in the list, and in any list of slots with its keys. */
  lemma Position(items: map<LruModel.CacheKey, Entry>, lru: seq<Entry>, view: seq<LruModel.Slot>, key: LruModel.CacheKey)
    returns (i: nat)
    requires Tied(items, lru) && Mirrors(lru, view) && key in items
    ensures i < |lru| && lru[i] == items[key]
    ensures LruModel.Lookup(view, key) == Some(view[i])
    ensures LruModel.Without(view, key) == Cut(view, i)
    ensures Unlink(lru, items[key]) == Cut(lru, i)
  {
    i :| 0 <= i < |lru| && lru[i] == items[key];
    UnlinkAt(lru, i);
    WithoutAt(view, i);
  }

  /** Taking an element out of the map, the list and its values keeps them tied. */
  lemma Unlinked(items: map<LruModel.CacheKey, Entry>, lru: seq<Entry>, view: seq<LruModel.Slot>, e: Entry)
    requires Tied(items, lru) && Mirrors(lru, view) && e.key in items && items[e.key] == e
    ensures Tied(items - {e.key}, Unlink(lru, e)) && Mirrors(Unlink(lru, e), LruModel.Without(view, e.key))
    ensures |Unlink(lru, e)| == |lru| - 1 && forall x :: x in Unlink(lru, e) ==> x in lru
  {
    var i := Position(items, lru, view, e.key);
    RemovedStaysTied(items, lru, i);
    CutMirrors(lru, view, i);
  }

  /** So does moving it to the front. */
  lemma Relinked(items: map<LruModel.CacheKey, Entry>, lru: seq<Entry>, view: seq<LruModel.Slot>, e: Entry)
    requires Tied(items, lru) && Mirrors(lru, view) && e.key in items && items[e.key] == e
    ensures Tied(items, [e] + Unlink(lru, e)) && Mirrors([e] + Unlink(lru, e), [e.Slot()] + LruModel.Without(view, e.key))
    ensures |Unlink(lru, e)| == |lru| - 1 && e in lru && forall x :: x in Unlink(lru, e) ==> x in lru
  {
    var i := Position(items, lru, view, e.key);
    MovedStaysTied(items, lru, i);
    CutMirrors(lru, view, i);
  }

  lemma NoPosition(items: map<LruModel.CacheKey, Entry>, lru: seq<Entry>, view: seq<LruModel.Slot>, key: LruModel.CacheKey)
    requires Tied(items, lru) && Mirrors(lru, view) && key !in items
    ensures LruModel.Lookup(view, key).None? && LruModel.Without(view, key) == view
  {
    LruModel.NotThere(view, key);
    NothingToRemove(view, key);
  }

  lemma {:induction false} NothingToRemove(slots: seq<LruModel.Slot>, key: LruModel.CacheKey)
    requires LruModel.Lookup(slots, key).None?
    ensures LruModel.Without(slots, key) == slots
  {
    if slots != [] {
      NothingToRemove(slots[1..], key);
    }
  }

  class Cache {
    const maxSize: nat
    const ttl: int
    var items: map<LruModel.CacheKey, Entry>
    var lru: seq<Entry>
    /** The list as values, most recently used first. */
    ghost var view: seq<LruModel.Slot>

    ghost predicate Linked()
      reads this, lru
    {
      && maxSize >= 1 && ttl > 0
      && Tied(items, lru)
      && Mirrors(lru, view)
    }

    ghost predicate Valid()
      reads this, lru
    {
      Linked() && |lru| <= maxSize
    }

    constructor (maxSize: nat, ttl: int)
      requires maxSize >= 1 && ttl > 0
      ensures Valid() && view == [] && lru == [] && this.maxSize == maxSize && this.ttl == ttl
    {
      this.maxSize, this.ttl := maxSize, ttl;
      items, lru, view := map[], [], [];
    }

    /** Map and list hold the same keys, each once, and at most `maxSize` of them. */
    lemma ValidIsProper()
      requires Valid()
      ensures LruModel.Proper(view, maxSize) && |items| == |lru| <= maxSize
      ensures forall key :: key in items <==> LruModel.Lookup(view, key).Some?
    {
      SameSize(items, lru);
      forall key
        ensures key in items <==> LruModel.Lookup(view, key).Some?
      {
        if key in items {
          var _ := Position(items, lru, view, key);
        } else {
          NoPosition(items, lru, view, key);
        }
      }
    }

    method Remove(e: Entry)
      requires Linked() && e.key in items && items[e.key] == e
      modifies this`items, this`lru, this`view
      ensures Linked() && view == LruModel.Without(old(view), e.key)
      ensures |lru| == |old(lru)| - 1 && forall x :: x in lru ==> x in old(lru)
    {
      Unlinked(items, lru, view, e);
      items := items - {e.key};
      lru := Unlink(lru, e);
      view := LruModel.Without(view, e.key);
    }

    method MoveToFront(e: Entry)
      requires Linked() && e.key in items && items[e.key] == e
      modifies this`lru, this`view
      ensures Linked() && view == [e.Slot()] + LruModel.Without(old(view), e.key)
      ensures |lru| == |old(lru)| && forall x :: x in lru ==> x in old(lru)
    {
      Relinked(items, lru, view, e);
      lru := [e] + Unlink(lru, e);
      view := [e.Slot()] + LruModel.Without(view, e.key);
    }

    method Get(key: LruModel.CacheKey, now: int) returns (found: Option<CounterRow>)
      requires Valid()
      modifies this
      ensures Valid() && (view, found) == LruModel.Get(old(view), key, now)
      ensures forall x :: x in lru ==> x in old(lru)
    {
      if key !in items {
        NoPosition(items, lru, view, key);
        return None;
      }
      ghost var i := Position(items, lru, view, key);
      var e := items[key];
      if !(now < e.expiresAt) {
        Remove(e);
        return None;
      }
      MoveToFront(e);
      found := Some(e.row);
    }

    method Set(key: LruModel.CacheKey, row: CounterRow, now: int)
      requires Valid()
      modifies this, lru
      ensures Valid() && view == LruModel.Set(old(view), key, row, now + ttl, maxSize)
      ensures forall x :: x in lru ==> x in old(lru) || fresh(x)
    {
      ghost var wanted := LruModel.Set(view, key, row, now + ttl, maxSize);
      if key in items {
        var e := items[key];
        assert e in lru && e.key == key;
        Refresh(e, row, now + ttl, wanted);
      } else {
        Insert(key, row, now + ttl, wanted);
      }
    }

    method Insert(key: LruModel.CacheKey, row: CounterRow, expiresAt: int, ghost wanted: seq<LruModel.Slot>)
      requires Valid() && key !in items && wanted == LruModel.Set(view, key, row, expiresAt, maxSize)
      modifies this`items, this`lru, this`view
      ensures Valid() && view == wanted
      ensures forall x :: x in lru ==> x in old(lru) || fresh(x)
    {
      NoPosition(items, lru, view, key);
      Push(key, row, expiresAt);
      Evict();
    }

    method Refresh(e: Entry, row: CounterRow, expiresAt: int, ghost wanted: seq<LruModel.Slot>)
      requires Valid() && e in lru && e.key in items && items[e.key] == e
      requires wanted == LruModel.Set(view, e.key, row, expiresAt, maxSize)
      modifies this`lru, this`view, e
      ensures Valid() && view == wanted
      ensures forall x :: x in lru ==> x in old(lru)
    {
      Overwrite(e, row, expiresAt);
      MoveToFront(e);
    }

    /** Drops elements from the back until the list fits. */
    method Evict()
      requires Linked()
      modifies this`items, this`lru, this`view
      ensures Valid() && view == LruModel.Trim(old(view), maxSize)
      ensures forall x :: x in lru ==> x in old(lru)
    {
      while |lru| > maxSize
        invariant Linked() && |lru| <= |old(lru)| && (|lru| < maxSize ==> |lru| == |old(lru)|)
        invariant view == old(view)[..|lru|]
        invariant forall x :: x in lru ==> x in old(lru)
        decreases |lru|
      {
        RemoveLast();
      }
    }

    method RemoveLast()
      requires Linked() && |lru| > 0
      modifies this`items, this`lru, this`view
      ensures Linked() && |lru| == |old(lru)| - 1
      ensures view == old(view)[..|lru|] && forall x :: x in lru ==> x in old(lru)
    {
      WithoutAt(view, |view| - 1);
      Remove(lru[|lru| - 1]);
    }

    method Overwrite(e: Entry, row: CounterRow, expiresAt: int)
      requires Linked() && e.key in items && items[e.key] == e
      modifies e, this`view
      ensures Linked() && e.row == row && e.expiresAt == expiresAt
      ensures LruModel.Without(view, e.key) == LruModel.Without(old(view), e.key)
      ensures LruModel.Lookup(old(view), e.key).Some?
    {
      ghost var i := Position(items, lru, view, e.key);
      assert forall j :: 0 <= j < |lru| && j != i ==> lru[j] != e;
      e.row, e.expiresAt := row, expiresAt;
      view := view[i := LruModel.Slot(e.key, row, expiresAt)];
      assert Mirrors(lru, view);
      WithoutAt(view, i);
      assert Cut(view, i) == Cut(old(view), i);
    }

    method Push(key: LruModel.CacheKey, row: CounterRow, expiresAt: int)
      requires Linked() && key !in items
      modifies this`items, this`lru, this`view
      ensures Linked() && view == [LruModel.Slot(key, row, expiresAt)] + old(view)
      ensures forall x :: x in lru ==> x in old(lru) || fresh(x)
    {
      var e := new Entry(key, row, expiresAt);
      AddedStaysTied(items, lru, e);
      AddedMirrors(lru, view, e);
      lru := [e] + lru;
      items := items[key := e];
      view := [LruModel.Slot(key, row, expiresAt)] + view;
    }

    method Delete(key: LruModel.CacheKey)
      requires Valid()
      modifies this
      ensures Valid() && view == LruModel.Without(old(view), key)
      ensures forall x :: x in lru ==> x in old(lru)
    {
      if key in items {
        Remove(items[key]);
      } else {
        NoPosition(items, lru, view, key);
      }
    }
  }

  /** The constructor refuses a size or a time to live that is not positive. */
  method NewCache(maxSize: int, ttl: int) returns (cache: Cache?)
    ensures cache == null <==> maxSize < 1 || ttl <= 0
    ensures cache != null ==> fresh(cache) && cache.Valid() && cache.view == [] && cache.lru == []
                              && cache.maxSize == maxSize && cache.ttl == ttl
  {
    if maxSize < 1 || ttl <= 0 {
      return null;
    }
    cache := new Cache(maxSize, ttl);
  }

  method Serve(cache: Cache, e: LruModel.Event)
    requires cache.Valid()
    modifies cache, cache.lru
    ensures cache.Valid() && cache.view == LruModel.Step(old(cache.view), e, cache.maxSize, cache.ttl)
    ensures forall x :: x in cache.lru ==> x in old(cache.lru) || fresh(x)
  {
    match e {
      case DoGet(key, at) => var _ := cache.Get(key, at);
      case DoSet(key, row, at) => cache.Set(key, row, at);
      case DoDelete(key) => cache.Delete(key);
    }
  }

  /** Any run of calls on a new cache leaves it as the list model says, so what is proved of
      every run of the list holds of the map and the linked elements. */
  method Replay(maxSize: int, ttl: int, events: seq<LruModel.Event>) returns (cache: Cache?)
    ensures cache == null <==> maxSize < 1 || ttl <= 0
    ensures cache != null ==> cache.Valid() && cache.view == LruModel.After(events, maxSize, ttl)
  {
    cache := NewCache(maxSize, ttl);
    if cache == null {
      return;
    }
    var i := 0;
    while i < |events|
      invariant 0 <= i <= |events|
      invariant fresh(cache) && fresh(cache.lru) && cache.Valid()
      invariant cache.maxSize == maxSize && cache.ttl == ttl
      invariant cache.view == LruModel.After(events[..i], maxSize, ttl)
    {
      LruModel.AfterOneMore(events, i, maxSize, ttl);
      Serve(cache, events[i]);
      i := i + 1;
    }
    assert events[..i] == events;
  }
}
