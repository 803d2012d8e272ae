/** Topology reads under interleaving: any number of replicas, each with its own
    TTL cache, over one shared table. A read is three steps (cache lookup, query,
    cache fill), a write is two (the statement, the purge of the writer's own
    cache), and steps of all readers, writers, janitors and the clock interleave
    freely. The read path of `GetConnections` and of `GetAllEndpoints` is the same;
    `T` is the contents of the table it reads. */
module Staleness {
  import opened Text
  import opened TtlCache
  import Store

  /** The table had these contents from `since` until the next version. */
  datatype Version<+T> = Version(since: int, table: T)

  datatype Reader<+T> =
    | Idle
    | Missed
    | Holding(table: T, queried: int)

  datatype Replica<T> = Replica(entries: Entries<T>, readers: seq<Reader<T>>)

  /** A read that returned `table` at time `at` on a replica. */
  datatype Return<+T> = Return(replica: nat, at: int, table: T)

  /** `lag` is the longest time any fill so far came after its query. */
  datatype System<T> = System(
    now: int,
    ttl: int,
    lag: int,
    history: seq<Version<T>>,
    replicas: seq<Replica<T>>,
    returned: seq<Return<T>>)

  datatype Step<+T> =
    | Tick(elapsed: nat)
    | Exec(table: T)
    | Purge(replica: nat)
    | Sweep(replica: nat)
    | LookUp(replica: nat, reader: nat)
    | Query(replica: nat, reader: nat)
    | QueryFails(replica: nat, reader: nat)
    | Fill(replica: nat, reader: nat)

  predicate HasReader<T>(s: System<T>, i: nat, r: nat) {
    i < |s.replicas| && r < |s.replicas[i].readers|
  }

  function SetReader<T>(s: System<T>, i: nat, r: nat, reader: Reader<T>): System<T>
    requires HasReader(s, i, r)
  {
    s.(replicas := s.replicas[i := s.replicas[i].(readers := s.replicas[i].readers[r := reader])])
  }

  function SetEntries<T>(s: System<T>, i: nat, entries: Entries<T>): System<T>
    requires i < |s.replicas|
  {
    s.(replicas := s.replicas[i := s.replicas[i].(entries := entries)])
  }

  /** One step; a step that is not enabled changes nothing. */
  function Apply<T>(s: System<T>, step: Step<T>): System<T> {
    match step
    case Tick(elapsed) => s.(now := s.now + elapsed)
    case Exec(table) => s.(history := s.history + [Version(s.now, table)])
    case Purge(i) => if i < |s.replicas| then SetEntries(s, i, map[]) else s
    case Sweep(i) => if i < |s.replicas| then SetEntries(s, i, Swept(s.replicas[i].entries, s.now)) else s
    case LookUp(i, r) =>
      if HasReader(s, i, r) && s.replicas[i].readers[r].Idle? then
        match Lookup(s.ttl, s.replicas[i].entries, Store.CACHE_KEY, s.now)
        case Some(table) => s.(returned := s.returned + [Return(i, s.now, table)])
        case None => SetReader(s, i, r, Missed)
      else s
    case Query(i, r) =>
      if HasReader(s, i, r) && s.replicas[i].readers[r].Missed? && s.history != [] then
        SetReader(s, i, r, Holding(s.history[|s.history| - 1].table, s.now))
      else s
    case QueryFails(i, r) =>
      if HasReader(s, i, r) && s.replicas[i].readers[r].Missed? then SetReader(s, i, r, Idle) else s
    case Fill(i, r) =>
      if HasReader(s, i, r) && s.replicas[i].readers[r].Holding? then
        var Holding(table, queried) := s.replicas[i].readers[r];
        var s' := SetEntries(s, i, Stored(s.ttl, s.replicas[i].entries, Store.CACHE_KEY, table, s.now));
        SetReader(s', i, r, Idle).(
          lag := if s.now - queried > s.lag then s.now - queried else s.lag,
          returned := s.returned + [Return(i, s.now, table)])
      else s
  }

  function Run<T>(s: System<T>, steps: seq<Step<T>>): System<T>
    decreases |steps|
  {
    if steps == [] then s else Run(Apply(s, steps[0]), steps[1..])
  }

  // ------------------------------------------------------------ bounded staleness

  /** At instant `u` the table held `table` (at the instant of a change it held
      both the old and the new contents). */
  ghost predicate Held<T>(history: seq<Version<T>>, u: int, table: T) {
    exists i :: 0 <= i < |history| && HeldBy(history, i, u, table)
  }

  ghost predicate HeldBy<T>(history: seq<Version<T>>, i: nat, u: int, table: T)
    requires i < |history|
  {
    history[i].table == table && history[i].since <= u && (i + 1 < |history| ==> u <= history[i + 1].since)
  }

  /** `table` was the contents at some instant between `from` and `to`. */
  ghost predicate HeldWithin<T>(history: seq<Version<T>>, from: int, to: int, table: T) {
    exists u :: from <= u <= to && Held(history, u, table)
  }

  function Span(ttl: int): int { if ttl > 0 then ttl else 0 }

  ghost predicate EntriesOk<T>(s: System<T>, entries: Entries<T>) {
    s.ttl > 0 && forall k :: k in entries ==>
      HeldWithin(s.history, entries[k].expires - s.ttl - s.lag, s.now, entries[k].value)
  }

  ghost predicate ReaderOk<T>(s: System<T>, reader: Reader<T>) {
    reader.Holding? ==> reader.queried <= s.now && Held(s.history, reader.queried, reader.table)
  }

  ghost predicate ReplicaOk<T>(s: System<T>, replica: Replica<T>) {
    (replica.entries != map[] ==> EntriesOk(s, replica.entries))
    && forall r :: 0 <= r < |replica.readers| ==> ReaderOk(s, replica.readers[r])
  }

  /** Every read returned contents no older than the cache's ttl plus the lag. */
  ghost predicate ReturnOk<T>(s: System<T>, ret: Return<T>) {
    ret.at <= s.now && HeldWithin(s.history, ret.at - Span(s.ttl) - s.lag, ret.at, ret.table)
  }

  ghost predicate Bounded<T>(s: System<T>) {
    && s.lag >= 0
    && s.history != []
    && s.history[|s.history| - 1].since <= s.now
    && (forall i :: 0 <= i < |s.replicas| ==> ReplicaOk(s, s.replicas[i]))
    && (forall i :: 0 <= i < |s.returned| ==> ReturnOk(s, s.returned[i]))
  }

  /** A fresh system: cold caches, idle readers, one version of the table. */
  ghost predicate Initial<T>(s: System<T>) {
    && s.lag == 0
    && |s.history| == 1 && s.history[0].since <= s.now
    && s.returned == []
    && forall i :: 0 <= i < |s.replicas| ==>
         s.replicas[i].entries == map[]
         && forall r :: 0 <= r < |s.replicas[i].readers| ==> s.replicas[i].readers[r] == Idle
  }

  /** The history is unchanged, or one version made at `at` was added. */
  ghost predicate Grown<T>(history: seq<Version<T>>, history': seq<Version<T>>, at: int) {
    history' == history
    || (|history'| == |history| + 1 && history' == history + [history'[|history|]] && history'[|history|].since == at)
  }

  lemma HeldGrown<T>(history: seq<Version<T>>, history': seq<Version<T>>, at: int, u: int, table: T)
    requires Grown(history, history', at) && Held(history, u, table) && u <= at
    ensures Held(history', u, table)
  {
    var i :| 0 <= i < |history| && HeldBy(history, i, u, table);
    assert HeldBy(history', i, u, table);
  }

  /** Everything known about a replica or a return survives the clock moving on, a
      longer lag and a new version of the table. */
  ghost predicate Later<T>(s: System<T>, s': System<T>) {
    s.now <= s'.now && s.lag <= s'.lag && s.ttl == s'.ttl
    && Grown(s.history, s'.history, s.now)
  }

  lemma WithinLater<T>(s: System<T>, s': System<T>, from: int, to: int, from': int, to': int, table: T)
    requires Later(s, s') && HeldWithin(s.history, from, to, table) && to <= s.now && from' <= from && to <= to'
    ensures HeldWithin(s'.history, from', to', table)
  {
    var u :| from <= u <= to && Held(s.history, u, table);
    HeldGrown(s.history, s'.history, s.now, u, table);
  }

  lemma ReplicaLater<T>(s: System<T>, s': System<T>, replica: Replica<T>)
    requires Later(s, s') && ReplicaOk(s, replica)
    ensures ReplicaOk(s', replica)
  {
    forall k | k in replica.entries
      ensures HeldWithin(s'.history, replica.entries[k].expires - s'.ttl - s'.lag, s'.now, replica.entries[k].value)
    {
      WithinLater(s, s', replica.entries[k].expires - s.ttl - s.lag, s.now,
                  replica.entries[k].expires - s'.ttl - s'.lag, s'.now, replica.entries[k].value);
    }
    forall r | 0 <= r < |replica.readers| ensures ReaderOk(s', replica.readers[r]) {
      var reader := replica.readers[r];
      if reader.Holding? {
        HeldGrown(s.history, s'.history, s.now, reader.queried, reader.table);
      }
    }
  }

  lemma ReturnLater<T>(s: System<T>, s': System<T>, ret: Return<T>)
    requires Later(s, s') && ReturnOk(s, ret)
    ensures ReturnOk(s', ret)
  {
    WithinLater(s, s', ret.at - Span(s.ttl) - s.lag, ret.at, ret.at - Span(s'.ttl) - s'.lag, ret.at, ret.table);
  }

  /** The environment's steps touch no reader and return nothing. */
  lemma EnvironmentKeeps<T>(s: System<T>, step: Step<T>)
    requires Bounded(s) && (step.Tick? || step.Exec? || step.Purge? || step.Sweep?)
    ensures Bounded(Apply(s, step))
  {
    var s' := Apply(s, step);
    assert Later(s, s');
    forall i | 0 <= i < |s.replicas| ensures ReplicaOk(s', s'.replicas[i]) {
      ReplicaLater(s, s', s.replicas[i]);
    }
    forall i | 0 <= i < |s.returned| ensures ReturnOk(s', s'.returned[i]) {
      ReturnLater(s, s', s.returned[i]);
    }
  }

  lemma LookUpKeeps<T>(s: System<T>, i: nat, r: nat)
    requires Bounded(s)
    ensures Bounded(Apply(s, LookUp(i, r)))
  {
    var s' := Apply(s, LookUp(i, r));
    if HasReader(s, i, r) && s.replicas[i].readers[r].Idle? {
      var entries := s.replicas[i].entries;
      if Lookup(s.ttl, entries, Store.CACHE_KEY, s.now).Some? {
        assert ReplicaOk(s, s.replicas[i]);
        var e := entries[Store.CACHE_KEY];
        WithinLater(s, s, e.expires - s.ttl - s.lag, s.now, s.now - Span(s.ttl) - s.lag, s.now, e.value);
        assert ReturnOk(s', Return(i, s.now, e.value));
      }
    }
    SameButReaders(s, s');
  }

  /** Moving readers about without giving them anything to hold keeps the bound. */
  lemma SameButReaders<T>(s: System<T>, s': System<T>)
    requires Bounded(s)
    requires s'.now == s.now && s'.ttl == s.ttl && s'.lag == s.lag && s'.history == s.history
    requires |s'.replicas| == |s.replicas|
    requires forall i :: 0 <= i < |s.replicas| ==>
               s'.replicas[i].entries == s.replicas[i].entries
               && |s'.replicas[i].readers| == |s.replicas[i].readers|
               && forall r :: 0 <= r < |s.replicas[i].readers| ==>
                    s'.replicas[i].readers[r] == s.replicas[i].readers[r] || ReaderOk(s, s'.replicas[i].readers[r])
    requires forall i :: 0 <= i < |s'.returned| ==>
               (i < |s.returned| && s'.returned[i] == s.returned[i]) || ReturnOk(s', s'.returned[i])
    ensures Bounded(s')
  {
    forall i | 0 <= i < |s'.replicas| ensures ReplicaOk(s', s'.replicas[i]) {
      assert ReplicaOk(s, s.replicas[i]);
    }
  }

  lemma QueryKeeps<T>(s: System<T>, i: nat, r: nat)
    requires Bounded(s)
    ensures Bounded(Apply(s, Query(i, r)))
  {
    var n := |s.history| - 1;
    assert HeldBy(s.history, n, s.now, s.history[n].table);
    assert ReaderOk(s, Holding(s.history[n].table, s.now));
    SameButReaders(s, Apply(s, Query(i, r)));
  }

  lemma FillKeeps<T>(s: System<T>, i: nat, r: nat)
    requires Bounded(s)
    ensures Bounded(Apply(s, Fill(i, r)))
  {
    if HasReader(s, i, r) && s.replicas[i].readers[r].Holding? {
      var s' := Apply(s, Fill(i, r));
      var reader := s.replicas[i].readers[r];
      assert ReplicaOk(s, s.replicas[i]) && ReaderOk(s, reader);
      assert Later(s, s');
      assert s.now - s'.lag <= reader.queried <= s.now;
      assert HeldWithin(s'.history, s.now - s'.lag, s.now, reader.table);
      forall j | 0 <= j < |s.replicas| ensures ReplicaOk(s', s'.replicas[j]) {
        ReplicaLater(s, s', s.replicas[j]);
        if j == i { FilledOk(s', s.replicas[i], r, reader.table); }
      }
      forall j | 0 <= j < |s'.returned| ensures ReturnOk(s', s'.returned[j]) {
        if j < |s.returned| {
          ReturnLater(s, s', s.returned[j]);
        } else {
          WithinLater(s', s', s.now - s'.lag, s.now, s.now - Span(s.ttl) - s'.lag, s.now, reader.table);
        }
      }
    }
  }

  lemma FilledOk<T>(s: System<T>, replica: Replica<T>, r: nat, table: T)
    requires ReplicaOk(s, replica) && r < |replica.readers|
    requires HeldWithin(s.history, s.now - s.lag, s.now, table)
    ensures ReplicaOk(s, Replica(Stored(s.ttl, replica.entries, Store.CACHE_KEY, table, s.now),
         replica.readers[r := Idle]))
  {
  }

  lemma StepKeepsBounded<T>(s: System<T>, step: Step<T>)
    requires Bounded(s)
    ensures Bounded(Apply(s, step))
  {
    match step
    case LookUp(i, r) => LookUpKeeps(s, i, r);
    case Query(i, r) => QueryKeeps(s, i, r);
    case QueryFails(i, r) => SameButReaders(s, Apply(s, step));
    case Fill(i, r) => FillKeeps(s, i, r);
    case _ => EnvironmentKeeps(s, step);
  }

  lemma {:induction false} RunKeepsBounded<T>(s: System<T>, steps: seq<Step<T>>)
    requires Bounded(s)
    ensures Bounded(Run(s, steps))
    decreases |steps|
  {
    if steps != [] {
      StepKeepsBounded(s, steps[0]);
      RunKeepsBounded(Apply(s, steps[0]), steps[1..]);
    }
  }

  /** However readers, writers, janitors and replicas interleave, every topology
      read returned at time t is the table's contents at some instant in
      [t - ttl - lag, t]. */
  lemma BoundedStaleness<T>(s: System<T>, steps: seq<Step<T>>, k: nat)
    requires Initial(s) && k < |Run(s, steps).returned|
    ensures var end := Run(s, steps);
            var ret := end.returned[k];
            HeldWithin(end.history, ret.at - Span(s.ttl) - end.lag, ret.at, ret.table)
  {
    RunKeepsBounded(s, steps);
    RunKeepsTtl(s, steps);
  }

  lemma {:induction false} RunKeepsTtl<T>(s: System<T>, steps: seq<Step<T>>)
    ensures Run(s, steps).ttl == s.ttl
    decreases |steps|
  {
    if steps != [] { RunKeepsTtl(Apply(s, steps[0]), steps[1..]); }
  }

  // ------------------------------------------------------------ reading one's own writes

  /** `table` is version `n` of the history or a newer one. */
  ghost predicate VersionSince<T>(history: seq<Version<T>>, n: nat, table: T) {
    exists j :: n <= j < |history| && history[j].table == table
  }

  ghost predicate HeldFresh<T>(s: System<T>, i: nat, n: nat)
    requires i < |s.replicas|
  {
    forall r :: 0 <= r < |s.replicas[i].readers| && s.replicas[i].readers[r].Holding? ==>
      VersionSince(s.history, n, s.replicas[i].readers[r].table)
  }

  /** Nothing cached or in flight on replica `i` is older than version `n`. */
  ghost predicate FreshReplica<T>(s: System<T>, i: nat, n: nat) {
    i < |s.replicas| && n < |s.history|
    && (forall k :: k in s.replicas[i].entries ==> VersionSince(s.history, n, s.replicas[i].entries[k].value))
    && HeldFresh(s, i, n)
  }

  ghost predicate ReturnsFresh<T>(s: System<T>, first: nat, i: nat, n: nat) {
    forall k :: first <= k < |s.returned| && s.returned[k].replica == i ==>
      VersionSince(s.history, n, s.returned[k].table)
  }

  lemma SinceGrown<T>(history: seq<Version<T>>, history': seq<Version<T>>, at: int, n: nat, table: T)
    requires Grown(history, history', at) && VersionSince(history, n, table)
    ensures VersionSince(history', n, table)
  {
    var j :| n <= j < |history| && history[j].table == table;
    assert history'[j].table == table;
  }

  lemma StepGrows<T>(s: System<T>, step: Step<T>)
    ensures Grown(s.history, Apply(s, step).history, s.now)
    ensures |s.returned| <= |Apply(s, step).returned|
    ensures Apply(s, step).returned[..|s.returned|] == s.returned
  {
  }

  lemma StepKeepsFresh<T>(s: System<T>, step: Step<T>, first: nat, i: nat, n: nat)
    requires FreshReplica(s, i, n) && ReturnsFresh(s, first, i, n)
    ensures FreshReplica(Apply(s, step), i, n) && ReturnsFresh(Apply(s, step), first, i, n)
  {
    var s' := Apply(s, step);
    StepGrows(s, step);
    var last := |s.history| - 1;
    assert VersionSince(s.history, n, s.history[last].table);
    forall table | VersionSince(s.history, n, table) ensures VersionSince(s'.history, n, table) {
      SinceGrown(s.history, s'.history, s.now, n, table);
    }
  }

  lemma {:induction false} RunKeepsFresh<T>(s: System<T>, steps: seq<Step<T>>, first: nat, i: nat, n: nat)
    requires FreshReplica(s, i, n) && ReturnsFresh(s, first, i, n)
    ensures ReturnsFresh(Run(s, steps), first, i, n)
    decreases |steps|
  {
    if steps != [] {
      StepKeepsFresh(s, steps[0], first, i, n);
      RunKeepsFresh(Apply(s, steps[0]), steps[1..], first, i, n);
    }
  }

  /** From `s` on, every read that returns on replica `i` sees version `n` or newer. */
  ghost predicate AlwaysFresh<T(!new)>(s: System<T>, i: nat, n: nat) {
    forall steps: seq<Step<T>> :: ReturnsFresh(Run(s, steps), |s.returned|, i, n)
  }

  /** A writer on replica `i` commits version `n` and purges its cache. From then on
      every read that returns there sees that write exactly when no reader of the
      replica was holding an older result at the purge. */
  lemma ReadYourWrites<T(!new)>(s: System<T>, i: nat)
    requires i < |s.replicas| && s.history != []
    ensures AlwaysFresh(Apply(s, Purge(i)), i, |s.history| - 1) <==> HeldFresh(s, i, |s.history| - 1)
  {
    var purged, n := Apply(s, Purge(i)), |s.history| - 1;
    if HeldFresh(s, i, n) {
      forall steps: seq<Step<T>> ensures ReturnsFresh(Run(purged, steps), |s.returned|, i, n) {
        RunKeepsFresh(purged, steps, |s.returned|, i, n);
      }
    }
    if AlwaysFresh(purged, i, n) {
      forall r | 0 <= r < |s.replicas[i].readers| && s.replicas[i].readers[r].Holding?
        ensures VersionSince(s.history, n, s.replicas[i].readers[r].table)
      {
        var steps := [Fill(i, r)];
        var end := Apply(purged, steps[0]);
        assert Run(purged, steps) == Run(end, steps[1..]) == end;
        assert ReturnsFresh(end, |s.returned|, i, n);
        assert end.returned[|s.returned|] == Return(i, s.now, s.replicas[i].readers[r].table);
      }
    }
  }

  /** Where a reader does hold an older result, its fill puts that result back into
      the purged cache, and reads begun only afterwards return it too. */
  lemma StaleFill<T>(s: System<T>, i: nat, slow: nat, next: nat, elapsed: nat)
    requires HasReader(s, i, slow) && HasReader(s, i, next)
    requires s.replicas[i].readers[slow].Holding? && s.replicas[i].readers[next].Idle?
    requires 0 <= elapsed <= s.ttl && s.ttl > 0
    ensures var end := Run(s, [Purge(i), Fill(i, slow), Tick(elapsed), LookUp(i, next)]);
            end.history == s.history && |end.returned| == |s.returned| + 2
            && end.returned[|s.returned| + 1] == Return(i, s.now + elapsed, s.replicas[i].readers[slow].table)
  {
    var purged := Apply(s, Purge(i));
    var filled := Apply(purged, Fill(i, slow));
    var ticked := Apply(filled, Tick(elapsed));
    var end := Apply(ticked, LookUp(i, next));
    var steps: seq<Step<T>> := [Purge(i), Fill(i, slow), Tick(elapsed), LookUp(i, next)];
    assert steps[1..] == [Fill(i, slow), Tick(elapsed), LookUp(i, next)];
    assert steps[1..][1..] == [Tick(elapsed), LookUp(i, next)];
    assert steps[1..][1..][1..] == [LookUp(i, next)];
    assert Run(end, []) == end;
    assert Run(ticked, [LookUp(i, next)]) == end;
    assert Run(filled, [Tick(elapsed), LookUp(i, next)]) == end;
    assert Run(purged, [Fill(i, slow), Tick(elapsed), LookUp(i, next)]) == end;
  }
}
