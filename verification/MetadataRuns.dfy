/** Any interleaving of metadata transactions: statements wait for row locks and see the latest
    committed row, transactions commit or roll back, counters come and change meanwhile. */
module MetadataRuns {
  import opened Common
  import opened Schema
  import opened MetadataStore
  import Ledger

  type Key = (string, string)

  /** Before its statement, and after it with the write it will commit. */
  datatype Job = Ready(request: Request) | Wrote(request: Request, row: Option<MetadataRow>, version: string, now: int)

  /** A committed write: the version it took away and the document it put in place. */
  datatype Entry = Entry(job: nat, request: Request, key: Key, consumed: Option<string>, produced: Option<MetadataRow>)

  /** `issued` are the versions drawn so far, `locks` the rows that a transaction has written. */
  datatype State = State(db: Database, jobs: map<nat, Job>, locks: map<Key, nat>, issued: set<string>, log: seq<Entry>)

  datatype Action =
    | Begin(job: nat, request: Request)
    | Statement(job: nat, version: string, now: int)
    | Commit(job: nat)
    | Rollback(job: nat)
    | Elsewhere(change: Ledger.Request)

  /** A statement that finds its precondition false ends the transaction. One that finds it true
      has to wait while another transaction has written the same row. Versions are fresh. The
      check for the counter is part of the step: counters are never removed, so where both pass
      they pass together, and a check that fails alone is a step that fails. */
  predicate Enabled(s: State, a: Action) {
    match a
    case Begin(job, _) => job !in s.jobs
    case Statement(job, version, _) =>
      job in s.jobs && s.jobs[job].Ready? && version !in s.issued
      && (Fault(s.db, s.jobs[job].request).None? ==> KeyOf(s.jobs[job].request) !in s.locks)
    case Commit(job) => job in s.jobs && s.jobs[job].Wrote?
    case Rollback(job) => job in s.jobs
    case Elsewhere(_) => true
  }

  function Released(s: State, job: nat): State {
    s.(jobs := s.jobs - {job}, locks := map key | key in s.locks && s.locks[key] != job :: s.locks[key])
  }

  function EntryOf(job: nat, wrote: Job): Entry
    requires wrote.Wrote?
  {
    Entry(job, wrote.request, KeyOf(wrote.request), Expected(wrote.request), wrote.row)
  }

  function Take(s: State, a: Action): State
    requires Enabled(s, a)
  {
    match a
    case Begin(job, request) => s.(jobs := s.jobs[job := Ready(request)])
    case Statement(job, version, now) =>
      var r := s.jobs[job].request;
      if Fault(s.db, r).Some? then Released(s, job)
      else s.(jobs := s.jobs[job := Wrote(r, Outcome(s.db, r, version, now), version, now)],
              locks := s.locks[KeyOf(r) := job], issued := s.issued + {version})
    case Commit(job) =>
      var wrote := s.jobs[job];
      Released(s, job).(db := Write(s.db, KeyOf(wrote.request), wrote.row), log := s.log + [EntryOf(job, wrote)])
    case Rollback(job) => Released(s, job)
    case Elsewhere(change) => s.(db := Ledger.Apply(s.db, change).0)
  }

  // ---------------------------------------------------------------- the invariant

  /** What a transaction has written is still exactly what its request would do now, and the row
      is its own until it ends. */
  ghost predicate Pending(s: State, job: nat) {
    job in s.jobs && s.jobs[job].Wrote? ==>
      var wrote := s.jobs[job];
      && Fault(s.db, wrote.request).None? && wrote.row == Outcome(s.db, wrote.request, wrote.version, wrote.now)
      && KeyOf(wrote.request) in s.locks && s.locks[KeyOf(wrote.request)] == job
      && wrote.version in s.issued
  }

  function VersionOf(row: Option<MetadataRow>): Option<string> {
    if row.Some? then Some(row.value.version) else None
  }

  /** The document under a key, if there is one. */
  function Document(db: Database, key: Key): Option<MetadataRow> {
    if key in db.metadata then Some(db.metadata[key]) else None
  }

  /** The document that the writes so far have left under a key; the table starts empty. */
  function Tip(log: seq<Entry>, key: Key): Option<MetadataRow> {
    if log == [] then None
    else if log[|log| - 1].key == key then log[|log| - 1].produced
    else Tip(log[..|log| - 1], key)
  }

  /** Each write takes the version that the previous write of its key has put in place. */
  ghost predicate Chained(log: seq<Entry>) {
    forall i :: 0 <= i < |log| ==> log[i].consumed == VersionOf(Tip(log[..i], log[i].key))
  }

  /** Each entry did what its request says. */
  ghost predicate Obeyed(log: seq<Entry>) {
    forall i :: 0 <= i < |log| ==> Obeys(log[i])
  }

  predicate Obeys(e: Entry) {
    && e.key == (e.request.tenant, e.request.counter)
    && (e.request.Put? <==> e.produced.Some?)
    && (e.request.Put? ==> e.produced.value.data == e.request.data)
  }

  /** No entry of the log put this version in place. */
  ghost predicate Unused(log: seq<Entry>, version: string) {
    forall i :: 0 <= i < |log| ==> VersionOf(log[i].produced) != Some(version)
  }

  ghost predicate NoneTwice(log: seq<Entry>) {
    forall i, j :: 0 <= i < j < |log| && log[i].produced.Some? ==> VersionOf(log[i].produced) != VersionOf(log[j].produced)
  }

  /** No version is drawn twice: not by two jobs, nor by a job and a committed write. */
  ghost predicate Drawn(s: State) {
    && (forall i :: 0 <= i < |s.log| && s.log[i].produced.Some? ==> s.log[i].produced.value.version in s.issued)
    && NoneTwice(s.log)
    && (forall j :: j in s.jobs && s.jobs[j].Wrote? ==> Unused(s.log, s.jobs[j].version))
    && (forall i, j :: i in s.jobs && s.jobs[i].Wrote? && j in s.jobs && s.jobs[j].Wrote? && i != j ==>
          s.jobs[i].version != s.jobs[j].version)
  }

  ghost predicate Inv(s: State) {
    && (forall job :: Pending(s, job))
    && Drawn(s)
    && Chained(s.log) && Obeyed(s.log)
    && (forall key :: Tip(s.log, key) == Document(s.db, key))
  }

  lemma TipAppended(log: seq<Entry>, e: Entry, key: Key)
    ensures Tip(log + [e], key) == if e.key == key then e.produced else Tip(log, key)
  {
    assert (log + [e])[..|log|] == log;
  }

  lemma ChainedAppended(log: seq<Entry>, e: Entry)
    requires Chained(log) && e.consumed == VersionOf(Tip(log, e.key))
    ensures Chained(log + [e])
  {
    forall i | 0 <= i < |log| + 1
      ensures (log + [e])[i].consumed == VersionOf(Tip((log + [e])[..i], (log + [e])[i].key))
    {
      assert (log + [e])[..i] == if i < |log| then log[..i] else log;
    }
  }

  // ---------------------------------------------------------------- what every step keeps

  lemma BeginKeepsInv(s: State, job: nat, request: Request)
    requires Inv(s) && job !in s.jobs
    ensures Inv(Take(s, Begin(job, request)))
  {
    var s' := Take(s, Begin(job, request));
    forall j
      ensures Pending(s', j)
    {
      assert Pending(s, j);
    }
  }

  lemma ReleaseKeepsInv(s: State, job: nat)
    requires Inv(s)
    ensures Inv(Released(s, job))
  {
    var s' := Released(s, job);
    forall j
      ensures Pending(s', j)
    {
      assert Pending(s, j);
    }
  }

  lemma StatementKeepsInv(s: State, job: nat, version: string, now: int)
    requires Inv(s) && Enabled(s, Statement(job, version, now))
    ensures Inv(Take(s, Statement(job, version, now)))
  {
    var s' := Take(s, Statement(job, version, now));
    var r := s.jobs[job].request;
    if Fault(s.db, r).Some? {
      ReleaseKeepsInv(s, job);
    } else {
      forall j
        ensures Pending(s', j)
      {
        assert Pending(s, j);
      }
      assert Unused(s.log, version);
      forall j | j in s.jobs && s.jobs[j].Wrote?
        ensures s.jobs[j].version != version
      {
        assert Pending(s, j);
      }
    }
  }

  /** Only this job's row changes, so every other pending write stands. */
  lemma CommitKeepsPending(s: State, job: nat, j: nat)
    requires Inv(s) && Enabled(s, Commit(job))
    ensures Pending(Take(s, Commit(job)), j)
  {
    assert Pending(s, j) && Pending(s, job);
  }

  lemma CommitKeepsDrawn(s: State, job: nat)
    requires Inv(s) && Enabled(s, Commit(job))
    ensures Drawn(Take(s, Commit(job)))
  {
    assert Pending(s, job);
    assert Unused(s.log, s.jobs[job].version);
  }

  lemma CommitKeepsInv(s: State, job: nat)
    requires Inv(s) && Enabled(s, Commit(job))
    ensures Inv(Take(s, Commit(job)))
  {
    var s' := Take(s, Commit(job));
    var e := EntryOf(job, s.jobs[job]);
    assert Pending(s, job);
    forall j
      ensures Pending(s', j)
    {
      CommitKeepsPending(s, job, j);
    }
    ChainedAppended(s.log, e);
    assert Obeys(e);
    forall key
      ensures Tip(s'.log, key) == Document(s'.db, key)
    {
      TipAppended(s.log, e, key);
    }
    CommitKeepsDrawn(s, job);
  }

  lemma LedgerLeavesMetadata(db: Database, change: Ledger.Request, r: Request)
    ensures Ledger.Apply(db, change).0.metadata == db.metadata
    ensures Fault(db, r).None? ==> Fault(Ledger.Apply(db, change).0, r).None?
  {
  }

  lemma ElsewhereKeepsInv(s: State, change: Ledger.Request)
    requires Inv(s)
    ensures Inv(Take(s, Elsewhere(change)))
  {
    var s' := Take(s, Elsewhere(change));
    forall j
      ensures Pending(s', j)
    {
      assert Pending(s, j);
      if j in s.jobs {
        LedgerLeavesMetadata(s.db, change, s.jobs[j].request);
      }
    }
    LedgerLeavesMetadata(s.db, change, Delete("", "", ""));
  }

  lemma NextKeepsInv(s: State, a: Action)
    requires Inv(s) && Enabled(s, a)
    ensures Inv(Take(s, a))
  {
    match a {
      case Begin(job, request) => BeginKeepsInv(s, job, request);
      case Statement(job, version, now) => StatementKeepsInv(s, job, version, now);
      case Commit(job) => CommitKeepsInv(s, job);
      case Rollback(job) => ReleaseKeepsInv(s, job);
      case Elsewhere(change) => ElsewhereKeepsInv(s, change);
    }
  }

  /** A run with all the states it passes through; the metadata table starts empty. */
  ghost predicate Run(states: seq<State>, actions: seq<Action>) {
    && |states| == |actions| + 1
    && states[0].db.metadata == map[] && states[0] == State(states[0].db, map[], map[], {}, [])
    && forall i :: 0 <= i < |actions| ==> Enabled(states[i], actions[i]) && states[i + 1] == Take(states[i], actions[i])
  }

  lemma {:induction false} RunKeepsInv(states: seq<State>, actions: seq<Action>, n: nat)
    requires Run(states, actions) && n < |states|
    ensures Inv(states[n])
  {
    if n > 0 {
      RunKeepsInv(states, actions, n - 1);
      NextKeepsInv(states[n - 1], actions[n - 1]);
    }
  }

  // ---------------------------------------------------------------- main results

  /** Every commit, however it was interleaved, does what its request does as one step on the
      database of that moment, and it consumes exactly the version that is current then. Nothing
      but a commit touches a document. */
  lemma CommitIsSerial(states: seq<State>, actions: seq<Action>, n: nat)
    requires Run(states, actions) && n < |actions|
    ensures actions[n].Commit? ==>
              var wrote := states[n].jobs[actions[n].job];
              && Apply(states[n].db, wrote.request, wrote.version, wrote.now).0 == states[n + 1].db
              && (wrote.row.Some? ==> Apply(states[n].db, wrote.request, wrote.version, wrote.now).1 == Stored(wrote.row.value))
              && (wrote.row.None? ==> Apply(states[n].db, wrote.request, wrote.version, wrote.now).1 == Deleted)
              && Current(states[n].db, KeyOf(wrote.request)) == Expected(wrote.request)
    ensures !actions[n].Commit? ==> states[n + 1].db.metadata == states[n].db.metadata
  {
    RunKeepsInv(states, actions, n);
    match actions[n] {
      case Commit(job) => assert Pending(states[n], job);
      case Elsewhere(change) => LedgerLeavesMetadata(states[n].db, change, Delete("", "", ""));
      case _ =>
    }
  }

  /** The successful writes of each key form one chain that ends in the stored document. */
  lemma WritesFormOneChain(states: seq<State>, actions: seq<Action>, n: nat, key: Key)
    requires Run(states, actions) && n < |states|
    ensures Chained(states[n].log) && Tip(states[n].log, key) == Document(states[n].db, key)
  {
    RunKeepsInv(states, actions, n);
  }

  /** The write that left the tip of a key: no later write has the same key. */
  lemma {:induction false} TipWriter(log: seq<Entry>, key: Key) returns (p: nat)
    requires Tip(log, key).Some?
    ensures p < |log| && log[p].key == key && log[p].produced == Tip(log, key)
    ensures forall i :: p < i < |log| ==> log[i].key != key
  {
    if log[|log| - 1].key == key {
      p := |log| - 1;
    } else {
      p := TipWriter(log[..|log| - 1], key);
    }
  }

  /** A stored document holds the data of the last committed put of its key, and a key without a
      document was never written or was deleted last. */
  lemma DocumentIsLastPut(states: seq<State>, actions: seq<Action>, n: nat, key: Key)
    requires Run(states, actions) && n < |states|
    ensures var log, stored := states[n].log, states[n].db.metadata;
            if key in stored then
              exists p :: 0 <= p < |log| && LastOf(log, key, p) && log[p].request.Put? && log[p].request.data == stored[key].data
            else forall p :: 0 <= p < |log| && LastOf(log, key, p) ==> log[p].request.Delete?
  {
    RunKeepsInv(states, actions, n);
    var log := states[n].log;
    assert Tip(log, key) == Document(states[n].db, key);
    if key in states[n].db.metadata {
      var p := TipWriter(log, key);
      assert Obeys(log[p]) && LastOf(log, key, p);
    } else {
      forall p | 0 <= p < |log| && LastOf(log, key, p)
        ensures log[p].request.Delete?
      {
        LastIsTip(log, key, p);
        assert Obeys(log[p]);
      }
    }
  }

  /** The entry at `p` is the last committed request for this key. */
  ghost predicate LastOf(log: seq<Entry>, key: Key, p: nat)
    requires p < |log|
  {
    && (log[p].request.tenant, log[p].request.counter) == key
    && forall i :: p < i < |log| ==> (log[i].request.tenant, log[i].request.counter) != key
  }

  lemma {:induction false} LastIsTip(log: seq<Entry>, key: Key, p: nat)
    requires Obeyed(log) && p < |log| && LastOf(log, key, p)
    ensures Tip(log, key) == log[p].produced
  {
    assert Obeys(log[|log| - 1]);
    if p < |log| - 1 {
      LastIsTip(log[..|log| - 1], key, p);
    }
  }

  /** Of all the writers that hold one version at most one succeeds. */
  lemma OneWriterPerVersion(states: seq<State>, actions: seq<Action>, n: nat, i: nat, j: nat)
    requires Run(states, actions) && n < |states|
    requires i < j < |states[n].log| && states[n].log[i].consumed.Some?
    ensures states[n].log[i].consumed != states[n].log[j].consumed
  {
    RunKeepsInv(states, actions, n);
    var log := states[n].log;
    if log[j].consumed.Some? {
      var p := TipWriter(log[..i], log[i].key);
      var q := TipWriter(log[..j], log[j].key);
      assert log[..j][i] == log[i];
      assert p != q;
    }
  }

  lemma {:induction false} LogGrows(states: seq<State>, actions: seq<Action>, m: nat, n: nat)
    requires Run(states, actions) && m <= n < |states|
    ensures |states[m].log| <= |states[n].log| && states[n].log[..|states[m].log|] == states[m].log
  {
    if m < n {
      LogGrows(states, actions, m, n - 1);
    }
  }

  /** A version never names two documents, at any two moments of a run and under any two keys,
      even when the document was deleted and created again in between. */
  lemma VersionNamesOneDocument(states: seq<State>, actions: seq<Action>, m: nat, n: nat, key: Key, key': Key)
    requires Run(states, actions) && m <= n < |states|
    requires Current(states[m].db, key).Some? && Current(states[m].db, key) == Current(states[n].db, key')
    ensures key == key' && Document(states[m].db, key) == Document(states[n].db, key')
  {
    RunKeepsInv(states, actions, m);
    RunKeepsInv(states, actions, n);
    LogGrows(states, actions, m, n);
    var p := TipWriter(states[m].log, key);
    var q := TipWriter(states[n].log, key');
    assert states[n].log[p] == states[m].log[p];
    assert VersionOf(states[n].log[p].produced) == VersionOf(states[n].log[q].produced);
    assert p == q;
  }
}
