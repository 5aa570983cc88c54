/** The read-through cache of one replica with every call split into its steps, while any
    replica commits. What a hit may return, and when it is the current row. */
module CacheRaces {
  import opened Common
  import opened Schema
  import opened Ledger
  import opened ReadThrough
  import LruModel

  /** A fill in flight: a row that some call has read and not yet cached. */
  datatype Flight = Flight(key: CacheKey, row: CounterRow)

  datatype World = World(db: Database, slots: seq<LruModel.Slot>, flights: map<nat, Flight>)

  /** Calls are named by numbers. Mutations may come from any replica. An invalidation may come
      late or, being best effort, not at all, so it is a step of its own. */
  datatype Action =
    | CacheLookup(key: CacheKey, at: int)
    | StoreRead(call: nat, key: CacheKey)
    | CacheFill(call: nat, at: int)
    | Commit(request: Request)
    | Invalidate(key: CacheKey)

  predicate Enabled(w: World, a: Action) {
    (a.StoreRead? ==> a.call !in w.flights) && (a.CacheFill? ==> a.call in w.flights)
  }

  function Take(w: World, a: Action, max: nat, ttl: int): World
    requires Enabled(w, a)
  {
    match a
    case CacheLookup(key, at) => w.(slots := LruModel.Get(w.slots, key, at).0)
    case StoreRead(call, key) =>
      if Row(w.db, key).None? then w else w.(flights := w.flights[call := Flight(key, Row(w.db, key).value)])
    case CacheFill(call, at) =>
      var fill := w.flights[call];
      w.(slots := LruModel.Set(w.slots, fill.key, fill.row, at + ttl, max), flights := w.flights - {call})
    case Commit(r) => w.(db := Mutation(w.db, r).0)
    case Invalidate(key) => w.(slots := LruModel.Without(w.slots, key))
  }

  /** A run with all the worlds it passes through. */
  datatype Run = Run(db: Database, actions: seq<Action>, worlds: seq<World>, max: nat, ttl: int)

  ghost predicate Legal(r: Run) {
    && r.max >= 1 && |r.worlds| == |r.actions| + 1 && r.worlds[0] == World(r.db, [], map[])
    && forall i :: 0 <= i < |r.actions| ==>
         Enabled(r.worlds[i], r.actions[i]) && r.worlds[i + 1] == Take(r.worlds[i], r.actions[i], r.max, r.ttl)
  }

  /** A fill that has happened: at which step, by which call, and what it cached. */
  datatype Fill = Fill(step: nat, call: nat, row: CounterRow, at: int)

  /** The last fill of `key` among the first `n` actions, unless an invalidation followed it. */
  function LastFill(r: Run, key: CacheKey, n: nat): Option<Fill>
    requires n <= |r.actions| < |r.worlds|
  {
    if n == 0 then None
    else
      var a, flights := r.actions[n - 1], r.worlds[n - 1].flights;
      if a.CacheFill? && a.call in flights && flights[a.call].key == key then
        Some(Fill(n - 1, a.call, flights[a.call].row, a.at))
      else if a == Invalidate(key) then None
      else LastFill(r, key, n - 1)
  }

  /** The last store read of `call` among the first `n` actions. */
  function LastRead(r: Run, call: nat, n: nat): Option<nat>
    requires n <= |r.actions|
  {
    if n == 0 then None
    else if r.actions[n - 1].StoreRead? && r.actions[n - 1].call == call then Some(n - 1)
    else LastRead(r, call, n - 1)
  }

  /** What an action does to the cache, as an event of the list model. */
  function CacheEvent(w: World, a: Action): Option<LruModel.Event>
    requires Enabled(w, a)
  {
    match a
    case CacheLookup(key, at) => Some(LruModel.DoGet(key, at))
    case CacheFill(call, at) => Some(LruModel.DoSet(w.flights[call].key, w.flights[call].row, at))
    case Invalidate(key) => Some(LruModel.DoDelete(key))
    case _ => None
  }

  lemma TakeIsEvent(w: World, a: Action, max: nat, ttl: int)
    requires Enabled(w, a)
    ensures var event := CacheEvent(w, a);
            Take(w, a, max, ttl).slots == if event.Some? then LruModel.Step(w.slots, event.value, max, ttl) else w.slots
  {
  }

  lemma TakeKeepsProper(w: World, a: Action, max: nat, ttl: int)
    requires Enabled(w, a) && max >= 1 && LruModel.Proper(w.slots, max)
    ensures LruModel.Proper(Take(w, a, max, ttl).slots, max)
  {
    TakeIsEvent(w, a, max, ttl);
    if CacheEvent(w, a).Some? {
      LruModel.StepKeepsProper(w.slots, CacheEvent(w, a).value, max, ttl);
    }
  }

  lemma {:induction false} CacheStaysProper(r: Run, n: nat)
    requires Legal(r) && n <= |r.actions|
    ensures LruModel.Proper(r.worlds[n].slots, r.max)
  {
    if n > 0 {
      CacheStaysProper(r, n - 1);
      TakeKeepsProper(r.worlds[n - 1], r.actions[n - 1], r.max, r.ttl);
    }
  }

  /** A row in flight is what its call read: the row that the database held at that moment. */
  lemma {:induction false} FlightWasRead(r: Run, call: nat, n: nat)
    requires Legal(r) && n <= |r.actions| && call in r.worlds[n].flights
    ensures var read := LastRead(r, call, n);
            read.Some? && read.value < n && r.actions[read.value] == StoreRead(call, r.worlds[n].flights[call].key)
            && Row(r.worlds[read.value].db, r.worlds[n].flights[call].key) == Some(r.worlds[n].flights[call].row)
  {
    var a, w := r.actions[n - 1], r.worlds[n - 1];
    if !(a.StoreRead? && a.call == call) {
      FlightWasRead(r, call, n - 1);
    }
  }

  lemma {:induction false} LastFillHappened(r: Run, key: CacheKey, n: nat)
    requires n <= |r.actions| < |r.worlds| && LastFill(r, key, n).Some?
    ensures var fill := LastFill(r, key, n).value;
            && fill.step < n && r.actions[fill.step] == CacheFill(fill.call, fill.at)
            && fill.call in r.worlds[fill.step].flights
            && r.worlds[fill.step].flights[fill.call] == Flight(key, fill.row)
            && forall i :: fill.step < i < n ==> r.actions[i] != Invalidate(key)
  {
    var a, flights := r.actions[n - 1], r.worlds[n - 1].flights;
    if !(a.CacheFill? && a.call in flights && flights[a.call].key == key) {
      LastFillHappened(r, key, n - 1);
    }
  }

  function Written(fill: Option<Fill>): Option<(CounterRow, int)> {
    if fill.None? then None else Some((fill.value.row, fill.value.at))
  }

  /** What the last fill of `key` wrote, after one more action. */
  function WrittenAfter(w: World, a: Action, key: CacheKey, write: Option<(CounterRow, int)>): Option<(CounterRow, int)>
    requires Enabled(w, a)
  {
    if a.CacheFill? && w.flights[a.call].key == key then Some((w.flights[a.call].row, a.at))
    else if a == Invalidate(key) then None
    else write
  }

  lemma TakeStaysCurrent(w: World, a: Action, key: CacheKey, write: Option<(CounterRow, int)>, max: nat, ttl: int)
    requires Enabled(w, a) && max >= 1 && LruModel.Proper(w.slots, max) && LruModel.Current(w.slots, key, write, ttl)
    ensures LruModel.Current(Take(w, a, max, ttl).slots, key, WrittenAfter(w, a, key, write), ttl)
  {
    TakeIsEvent(w, a, max, ttl);
    if CacheEvent(w, a).Some? {
      LruModel.StepStaysCurrent(w.slots, CacheEvent(w, a).value, key, write, max, ttl);
    }
  }

  /** A slot holds what the last fill of its key wrote, and nothing has invalidated it since. */
  lemma {:induction false} SlotIsLastFill(r: Run, key: CacheKey, n: nat)
    requires Legal(r) && n <= |r.actions|
    ensures LruModel.Current(r.worlds[n].slots, key, Written(LastFill(r, key, n)), r.ttl)
  {
    if n > 0 {
      SlotIsLastFill(r, key, n - 1);
      CacheStaysProper(r, n - 1);
      TakeStaysCurrent(r.worlds[n - 1], r.actions[n - 1], key, Written(LastFill(r, key, n - 1)), r.max, r.ttl);
    }
  }

  /** The store read behind what the cache holds for `key` after `n` actions. */
  function Origin(r: Run, key: CacheKey, n: nat): Option<nat>
    requires n <= |r.actions| < |r.worlds|
  {
    var fill := LastFill(r, key, n);
    if fill.Some? && fill.value.step <= n then LastRead(r, fill.value.call, fill.value.step) else None
  }

  /** Every hit returns a row that the database really held when it was read by a call whose
      fill is younger than the time to live; no invalidation came between that fill and the hit. */
  lemma HitWasRead(r: Run, n: nat, key: CacheKey, now: int)
    requires Legal(r) && n <= |r.actions|
    requires LruModel.Get(r.worlds[n].slots, key, now).1.Some?
    ensures var read, fill := Origin(r, key, n), LastFill(r, key, n);
            && fill.Some? && read.Some? && read.value < fill.value.step < n
            && r.actions[fill.value.step] == CacheFill(fill.value.call, fill.value.at)
            && r.actions[read.value] == StoreRead(fill.value.call, key)
            && LruModel.Get(r.worlds[n].slots, key, now).1 == Row(r.worlds[read.value].db, key)
            && now < fill.value.at + r.ttl
            && forall i :: fill.value.step < i < n ==> r.actions[i] != Invalidate(key)
  {
    SlotIsLastFill(r, key, n);
    LastFillHappened(r, key, n);
    FlightWasRead(r, LastFill(r, key, n).value.call, LastFill(r, key, n).value.step);
  }

  // ---------------------------------------------------------------- when a hit is current

  /** The row that the database holds for `key` after `n` actions. */
  ghost function RowAt(r: Run, key: CacheKey, n: nat): Option<CounterRow>
    requires n < |r.worlds|
  {
    Row(r.worlds[n].db, key)
  }

  /** None of the actions from `a` up to `b` changes the row of `key`. */
  ghost predicate Unchanged(r: Run, key: CacheKey, a: nat, b: nat)
    requires b < |r.worlds|
  {
    forall i :: a <= i < b ==> RowAt(r, key, i + 1) == RowAt(r, key, i)
  }

  lemma {:induction false} UnchangedRow(r: Run, key: CacheKey, a: nat, b: nat)
    requires a <= b < |r.worlds| && Unchanged(r, key, a, b)
    ensures RowAt(r, key, b) == RowAt(r, key, a)
  {
    if a < b {
      UnchangedRow(r, key, a, b - 1);
    }
  }

  /** After a change the row does not come back to what it was before. */
  ghost predicate NoReturn(r: Run, key: CacheKey, n: nat)
    requires n < |r.worlds|
  {
    forall i :: 0 <= i <= n && RowAt(r, key, i).Some? && RowAt(r, key, i) == RowAt(r, key, n) ==> Unchanged(r, key, i, n)
  }

  /** While rows do not come back, a hit is the current row if and only if no action has changed
      the row since the read behind the hit. The interval runs from that read, not from the fill
      and not from the invalidation. */
  lemma HitIsCurrentIff(r: Run, n: nat, key: CacheKey, now: int)
    requires Legal(r) && n <= |r.actions| && NoReturn(r, key, n)
    requires LruModel.Get(r.worlds[n].slots, key, now).1.Some?
    ensures Origin(r, key, n).Some? && Origin(r, key, n).value < n
    ensures LruModel.Get(r.worlds[n].slots, key, now).1 == RowAt(r, key, n) <==> Unchanged(r, key, Origin(r, key, n).value, n)
  {
    HitWasRead(r, n, key, now);
    var read := Origin(r, key, n).value;
    assert LruModel.Get(r.worlds[n].slots, key, now).1 == RowAt(r, key, read);
    if Unchanged(r, key, read, n) {
      UnchangedRow(r, key, read, n);
    }
  }

  /** Where only one action changes the row, a hit is current exactly when its read came later. */
  lemma HitAfterOneChange(r: Run, n: nat, key: CacheKey, now: int, c: nat)
    requires Legal(r) && c < n <= |r.actions| && RowAt(r, key, c + 1) != RowAt(r, key, c)
    requires Unchanged(r, key, 0, c) && Unchanged(r, key, c + 1, n)
    requires LruModel.Get(r.worlds[n].slots, key, now).1.Some?
    ensures Origin(r, key, n).Some?
    ensures LruModel.Get(r.worlds[n].slots, key, now).1 == RowAt(r, key, n) <==> Origin(r, key, n).value > c
  {
    forall i | 0 <= i <= n && RowAt(r, key, i) == RowAt(r, key, n)
      ensures Unchanged(r, key, i, n)
    {
      UnchangedRow(r, key, c + 1, n);
      if i <= c {
        UnchangedRow(r, key, i, c);
      }
    }
    HitIsCurrentIff(r, n, key, now);
    assert Origin(r, key, n).value <= c ==> !Unchanged(r, key, Origin(r, key, n).value, n);
  }

  /** A mutation of the counter that is carried out, not refused and not replayed. */
  predicate Effective(db: Database, a: Action, key: CacheKey) {
    a.Commit? && (a.request.tenant, a.request.counter) == key
    && var reply := Mutation(db, a.request).1;
       reply.Created? || (reply.Mutated? && !reply.result.replayed)
  }

  /** Every effective mutation of the counter carries a later time than the row it finds. */
  ghost predicate Clocked(r: Run, key: CacheKey, n: nat)
    requires n <= |r.actions| < |r.worlds|
  {
    forall i :: 0 <= i < n && Effective(r.worlds[i].db, r.actions[i], key) && RowAt(r, key, i).Some? ==>
      RowAt(r, key, i).value.updatedAt < r.actions[i].request.now
  }

  /** No effective mutation of the counter from action `a` up to `b`. */
  ghost predicate NoneEffective(r: Run, key: CacheKey, a: nat, b: nat)
    requires b <= |r.actions| < |r.worlds|
  {
    forall i :: a <= i < b ==> !Effective(r.worlds[i].db, r.actions[i], key)
  }

  /** An action changes an existing row exactly when it is an effective mutation of it with a new
      time; the row then carries that time. */
  lemma MutationChangesRowIff(db: Database, request: Request, key: CacheKey)
    requires Row(db, key).Some?
    ensures var db' := Mutation(db, request).0;
            && Row(db', key).Some?
            && (!Effective(db, Commit(request), key) ==> Row(db', key) == Row(db, key))
            && (Effective(db, Commit(request), key) ==> Row(db', key).value.updatedAt == request.now)
  {
    MutationMovesOneRow(db, request, key);
  }

  lemma TimesClimb(r: Run, key: CacheKey, i: nat, n: nat)
    requires Legal(r) && i < n <= |r.actions| && Clocked(r, key, n) && RowAt(r, key, i).Some?
    ensures RowAt(r, key, i + 1).Some?
    ensures !Effective(r.worlds[i].db, r.actions[i], key) ==> RowAt(r, key, i + 1) == RowAt(r, key, i)
    ensures Effective(r.worlds[i].db, r.actions[i], key) ==>
              RowAt(r, key, i).value.updatedAt < RowAt(r, key, i + 1).value.updatedAt
  {
    if r.actions[i].Commit? {
      MutationChangesRowIff(r.worlds[i].db, r.actions[i].request, key);
    }
  }

  /** With such times the row stays as long as no mutation is effective, and is later than before
      as soon as one is. */
  lemma {:induction false} ClockedRows(r: Run, key: CacheKey, i: nat, n: nat)
    requires Legal(r) && i <= n <= |r.actions| && Clocked(r, key, n) && RowAt(r, key, i).Some?
    ensures RowAt(r, key, n).Some?
    ensures NoneEffective(r, key, i, n) ==> Unchanged(r, key, i, n) && RowAt(r, key, n) == RowAt(r, key, i)
    ensures !NoneEffective(r, key, i, n) ==> RowAt(r, key, i).value.updatedAt < RowAt(r, key, n).value.updatedAt
    decreases n - i
  {
    if i < n {
      TimesClimb(r, key, i, n);
      ClockedRows(r, key, i + 1, n);
    }
  }

  lemma {:induction false} NoneEffectiveKeepsRow(r: Run, key: CacheKey, a: nat, b: nat)
    requires Legal(r) && a <= b <= |r.actions| && NoneEffective(r, key, a, b) && RowAt(r, key, a).Some?
    ensures RowAt(r, key, b) == RowAt(r, key, a)
  {
    if a < b {
      NoneEffectiveKeepsRow(r, key, a, b - 1);
      if r.actions[b - 1].Commit? {
        MutationChangesRowIff(r.worlds[b - 1].db, r.actions[b - 1].request, key);
      }
    }
  }

  /** Whatever the times, a hit is the current row while no mutation of the counter has taken
      effect since the read behind the hit. */
  lemma QuietHitIsCurrent(r: Run, n: nat, key: CacheKey, now: int)
    requires Legal(r) && n <= |r.actions|
    requires LruModel.Get(r.worlds[n].slots, key, now).1.Some?
    requires Origin(r, key, n).Some? ==> NoneEffective(r, key, Origin(r, key, n).value, n)
    ensures LruModel.Get(r.worlds[n].slots, key, now).1 == RowAt(r, key, n)
  {
    HitWasRead(r, n, key, now);
    NoneEffectiveKeepsRow(r, key, Origin(r, key, n).value, n);
  }

  /** With increasing times, a hit is the current row if and only if no mutation of the counter
      took effect since the read behind the hit. */
  lemma ClockedHitIsCurrentIff(r: Run, n: nat, key: CacheKey, now: int)
    requires Legal(r) && n <= |r.actions| && Clocked(r, key, n)
    requires LruModel.Get(r.worlds[n].slots, key, now).1.Some?
    ensures Origin(r, key, n).Some? && Origin(r, key, n).value < n
    ensures LruModel.Get(r.worlds[n].slots, key, now).1 == RowAt(r, key, n) <==>
            NoneEffective(r, key, Origin(r, key, n).value, n)
  {
    forall i | 0 <= i <= n && RowAt(r, key, i).Some? && RowAt(r, key, i) == RowAt(r, key, n)
      ensures Unchanged(r, key, i, n)
    {
      ClockedRows(r, key, i, n);
    }
    HitIsCurrentIff(r, n, key, now);
    HitWasRead(r, n, key, now);
    var read := Origin(r, key, n).value;
    ClockedRows(r, key, read, n);
    if Unchanged(r, key, read, n) {
      UnchangedRow(r, key, read, n);
    }
  }

  /** Hits can stay stale although the invalidation came through. A read that is overtaken by a mutation and its
      invalidation caches the old row, and hits return it until it expires. */
  lemma OvertakenReadIsStale(db: Database, request: Request, key: CacheKey, at: int, now: int, max: nat, ttl: int)
    returns (r: Run)
    requires max >= 1 && now < at + ttl
    requires Row(db, key).Some? && Row(Mutation(db, request).0, key) != Row(db, key)
    ensures Legal(r) && r.db == db && r.max == max && r.ttl == ttl
    ensures r.actions == [StoreRead(0, key), Commit(request), Invalidate(key), CacheFill(0, at)]
    ensures LruModel.Get(r.worlds[4].slots, key, now).1 == Row(db, key) != Row(r.worlds[4].db, key)
  {
    var actions := [StoreRead(0, key), Commit(request), Invalidate(key), CacheFill(0, at)];
    var w0 := World(db, [], map[]);
    var w1 := Take(w0, actions[0], max, ttl);
    var w2 := Take(w1, actions[1], max, ttl);
    var w3 := Take(w2, actions[2], max, ttl);
    var w4 := Take(w3, actions[3], max, ttl);
    r := Run(db, actions, [w0, w1, w2, w3, w4], max, ttl);
    assert w4.slots == [LruModel.Slot(key, Row(db, key).value, at + ttl)];
  }
}
