/** The connection and endpoint tables, the cached topology reads over them, and
    the hash and version `SaveEndpoint` records (pkg/storage/db.go). Each SQL
    statement is one atomic step that the environment may make fail. */
module Store {
  import opened Text
  import opened Json
  import opened ToolIntegrity
  import opened TtlCache

  datatype Connection = Connection(
    id: string,
    name: string,
    description: string,
    baseURL: string,
    authType: string,
    authSecretRef: string,
    enabled: bool,
    toolPrefix: string)

  datatype Endpoint = Endpoint(
    id: string,
    connectionId: string,
    toolName: string,
    toolDescription: string,
    path: string,
    verb: string,
    parametersSchema: string,
    template: string,
    definitionHash: DefHash,
    version: int)

  // ------------------------------------------------------------ tables

  function ConnectionId(c: Connection): string { c.id }
  function EndpointId(e: Endpoint): string { e.id }

  /** INSERT ... ON CONFLICT(id) DO UPDATE: in place, or at the end. */
  function Upsert<T>(id: T -> string, table: seq<T>, row: T): seq<T> {
    if table == [] then [row]
    else if id(table[0]) == id(row) then [row] + table[1..]
    else [table[0]] + Upsert(id, table[1..], row)
  }

  /** The rows that do not satisfy `gone`. */
  function Without<T>(gone: T -> bool, table: seq<T>): seq<T> {
    if table == [] then []
    else if gone(table[0]) then Without(gone, table[1..])
    else [table[0]] + Without(gone, table[1..])
  }

  function Find<T>(id: T -> string, table: seq<T>, key: string): (r: Option<T>)
    ensures r.Some? ==> r.value in table && id(r.value) == key
  {
    if table == [] then None
    else if id(table[0]) == key then Some(table[0])
    else Find(id, table[1..], key)
  }

  lemma {:induction false} FindUpsert<T>(id: T -> string, table: seq<T>, row: T, key: string)
    ensures Find(id, Upsert(id, table, row), key)
         == if key == id(row) then Some(row) else Find(id, table, key)
  {
    if table != [] && id(table[0]) != id(row) {
      FindUpsert(id, table[1..], row, key);
    }
  }

  lemma {:induction false} FindWithout<T>(id: T -> string, gone: T -> bool, table: seq<T>, key: string)
    requires UniqueIds(id, table)
    ensures Find(id, Without(gone, table), key)
         == if Find(id, table, key).Some? && gone(Find(id, table, key).value) then None else Find(id, table, key)
  {
    if table != [] {
      FindWithout(id, gone, table[1..], key);
    }
  }

  predicate UniqueIds<T>(id: T -> string, table: seq<T>) {
    forall i, j :: 0 <= i < j < |table| ==> id(table[i]) != id(table[j])
  }

  lemma {:induction false} UpsertMembers<T>(id: T -> string, table: seq<T>, row: T, x: T)
    requires x in Upsert(id, table, row)
    ensures x == row || x in table
  {
    if table != [] && id(table[0]) != id(row) && x != table[0] {
      UpsertMembers(id, table[1..], row, x);
    }
  }

  lemma {:induction false} UpsertUnique<T>(id: T -> string, table: seq<T>, row: T)
    requires UniqueIds(id, table)
    ensures UniqueIds(id, Upsert(id, table, row))
  {
    if table != [] && id(table[0]) != id(row) {
      UpsertUnique(id, table[1..], row);
      var rest := Upsert(id, table[1..], row);
      forall j | 0 <= j < |rest| ensures id(table[0]) != id(rest[j]) {
        UpsertMembers(id, table[1..], row, rest[j]);
        if rest[j] != row {
          var k :| 0 <= k < |table[1..]| && table[1..][k] == rest[j];
          assert id(table[0]) != id(table[k + 1]);
        }
      }
    }
  }

  lemma {:induction false} WithoutUnique<T>(id: T -> string, gone: T -> bool, table: seq<T>)
    requires UniqueIds(id, table)
    ensures UniqueIds(id, Without(gone, table))
    ensures forall x :: x in Without(gone, table) ==> x in table && !gone(x)
  {
    if table != [] {
      WithoutUnique(id, gone, table[1..]);
      var rest := Without(gone, table[1..]);
      forall j | 0 <= j < |rest| ensures id(table[0]) != id(rest[j]) {
        assert rest[j] in rest;
        var k :| 0 <= k < |table[1..]| && table[1..][k] == rest[j];
        assert id(table[0]) != id(table[k + 1]);
      }
    }
  }

  // ------------------------------------------------------------ writes

  datatype Tables = Tables(conns: seq<Connection>, eps: seq<Endpoint>)

  datatype Write =
    | SaveConnection(conn: Connection)
    | DeleteConnection(connId: string)
    | SaveEndpoint(ep: Endpoint)
    | DeleteEndpoint(epId: string)

  /** The definition the hash of a stored endpoint covers, under an exposed name. */
  function Definition(ep: Endpoint, name: string): ToolDef {
    ToolDef(name, ep.toolDescription, ep.verb, ep.path, ep.parametersSchema)
  }

  ghost function OwnHash(f: Float64, ep: Endpoint): DefHash {
    Hash(f, Definition(ep, ep.toolName))
  }

  /** The row `SaveEndpoint` writes for `ep` over the current table. */
  ghost function Recorded(f: Float64, eps: seq<Endpoint>, ep: Endpoint): Endpoint {
    var h := OwnHash(f, ep);
    var version :=
      match Find(EndpointId, eps, ep.id)
      case None => 1
      case Some(row) => if row.definitionHash != h then row.version + 1 else row.version;
    ep.(definitionHash := h, version := version)
  }

  /** The effect of one successful write; deleting a connection removes its
      endpoints where the database enforces the cascade. */
  ghost function Written(f: Float64, cascade: bool, t: Tables, w: Write): Tables {
    match w
    case SaveConnection(c) => t.(conns := Upsert(ConnectionId, t.conns, c))
    case DeleteConnection(id) =>
      Tables(Without((c: Connection) => c.id == id, t.conns),
             if cascade then Without((e: Endpoint) => e.connectionId == id, t.eps) else t.eps)
    case SaveEndpoint(ep) => t.(eps := Upsert(EndpointId, t.eps, Recorded(f, t.eps, ep)))
    case DeleteEndpoint(id) => t.(eps := Without((e: Endpoint) => e.id == id, t.eps))
  }

  ghost predicate Consistent(t: Tables) {
    UniqueIds(ConnectionId, t.conns) && UniqueIds(EndpointId, t.eps)
  }

  lemma WrittenConsistent(f: Float64, cascade: bool, t: Tables, w: Write)
    requires Consistent(t)
    ensures Consistent(Written(f, cascade, t, w))
  {
    match w
    case SaveConnection(c) => UpsertUnique(ConnectionId, t.conns, c);
    case DeleteConnection(id) =>
      WithoutUnique(ConnectionId, (c: Connection) => c.id == id, t.conns);
      WithoutUnique(EndpointId, (e: Endpoint) => e.connectionId == id, t.eps);
    case SaveEndpoint(ep) => UpsertUnique(EndpointId, t.eps, Recorded(f, t.eps, ep));
    case DeleteEndpoint(id) => WithoutUnique(EndpointId, (e: Endpoint) => e.id == id, t.eps);
  }

  lemma {:induction false} UpsertRows<T(!new)>(id: T -> string, table: seq<T>, row: T)
    requires UniqueIds(id, table)
    ensures forall x :: x in Upsert(id, table, row) <==> x == row || (x in table && id(x) != id(row))
  {
    if table != [] {
      assert table == [table[0]] + table[1..];
      if id(table[0]) == id(row) {
        assert forall x :: x in table[1..] ==> id(x) != id(row);
      } else {
        UpsertRows(id, table[1..], row);
      }
    }
  }

  /** The table is the old one with `row` as the row of its id. */
  ghost predicate Replaced<T(!new)>(id: T -> string, before: seq<T>, after: seq<T>, row: T) {
    (forall x :: x in after <==> x == row || (x in before && id(x) != id(row)))
    && (forall key :: Find(id, after, key) == if key == id(row) then Some(row) else Find(id, before, key))
  }

  /** The table has lost exactly the rows that satisfy `gone` and kept the others in order. */
  ghost predicate Removed<T(!new)>(before: seq<T>, after: seq<T>, gone: T -> bool) {
    Subsequence(after, before) && forall x :: x in after <==> x in before && !gone(x)
  }

  lemma {:induction false} WithoutRows<T(!new)>(gone: T -> bool, table: seq<T>)
    ensures Removed(table, Without(gone, table), gone)
  {
    if table != [] {
      var first, rest := table[0], table[1..];
      assert table == [first] + rest;
      WithoutRows(gone, rest);
      if gone(first) {
        SubsequenceSkip(Without(gone, rest), first, rest);
      } else {
        SubsequenceTake(first, Without(gone, rest), rest);
      }
    }
  }

  lemma UpsertReplaces<T(!new)>(id: T -> string, table: seq<T>, row: T)
    requires UniqueIds(id, table)
    ensures Replaced(id, table, Upsert(id, table, row), row)
  {
    UpsertRows(id, table, row);
    forall key { FindUpsert(id, table, row, key); }
  }

  /** The row a save of `ep` leaves over the row found before: every column as given, but
      the hash is that of the row itself and the version counts its changes. */
  ghost predicate SavedOver(f: Float64, before: Option<Endpoint>, ep: Endpoint, row: Endpoint) {
    row.(definitionHash := ep.definitionHash, version := ep.version) == ep
    && row.definitionHash
       == Hash(f, ToolDef(ep.toolName, ep.toolDescription, ep.verb, ep.path, ep.parametersSchema))
    && (before.None? ==> row.version == 1)
    && (before.Some? ==>
          row.version == before.value.version + if before.value.definitionHash == row.definitionHash then 0 else 1)
  }

  /** What a successful write does, told from the rows before and after. */
  ghost predicate Does(f: Float64, cascade: bool, t: Tables, w: Write, after: Tables) {
    match w
    case SaveConnection(c) => Replaced(ConnectionId, t.conns, after.conns, c) && after.eps == t.eps
    case DeleteConnection(id) =>
      Removed(t.conns, after.conns, (c: Connection) => c.id == id)
      && (if cascade then Removed(t.eps, after.eps, (e: Endpoint) => e.connectionId == id)
          else after.eps == t.eps)
    case SaveEndpoint(ep) =>
      after.conns == t.conns
      && exists row ::
           SavedOver(f, Find(EndpointId, t.eps, ep.id), ep, row) && Replaced(EndpointId, t.eps, after.eps, row)
    case DeleteEndpoint(id) => after.conns == t.conns && Removed(t.eps, after.eps, (e: Endpoint) => e.id == id)
  }

  lemma RecordedOver(f: Float64, eps: seq<Endpoint>, ep: Endpoint)
    ensures SavedOver(f, Find(EndpointId, eps, ep.id), ep, Recorded(f, eps, ep))
  {
  }

  /** A save puts exactly its row under its id and leaves every other row alone; a delete
      takes out exactly the row of its id, and with a connection, where the database
      cascades, exactly its endpoints. */
  lemma WrittenDoes(f: Float64, cascade: bool, t: Tables, w: Write)
    requires Consistent(t)
    ensures Does(f, cascade, t, w, Written(f, cascade, t, w))
  {
    match w
    case SaveConnection(c) => UpsertReplaces(ConnectionId, t.conns, c);
    case DeleteConnection(id) =>
      WithoutRows((c: Connection) => c.id == id, t.conns);
      WithoutRows((e: Endpoint) => e.connectionId == id, t.eps);
    case SaveEndpoint(ep) =>
      RecordedOver(f, t.eps, ep);
      UpsertReplaces(EndpointId, t.eps, Recorded(f, t.eps, ep));
      hide Recorded, Replaced, SavedOver;
    case DeleteEndpoint(id) => WithoutRows((e: Endpoint) => e.id == id, t.eps);
  }

  /** The same by lookup: what is found under an id after a delete. */
  lemma DeletedFind(f: Float64, cascade: bool, t: Tables, id: string, key: string)
    requires Consistent(t)
    ensures var after := Written(f, cascade, t, Write.DeleteEndpoint(id));
            Find(EndpointId, after.eps, key) == (if key == id then None else Find(EndpointId, t.eps, key))
    ensures var after := Written(f, cascade, t, Write.DeleteConnection(id));
            Find(ConnectionId, after.conns, key) == (if key == id then None else Find(ConnectionId, t.conns, key))
            && var ep := Find(EndpointId, t.eps, key);
               Find(EndpointId, after.eps, key)
               == if cascade && ep.Some? && ep.value.connectionId == id then None else ep
  {
    FindWithout(EndpointId, (e: Endpoint) => e.id == id, t.eps, key);
    FindWithout(ConnectionId, (c: Connection) => c.id == id, t.conns, key);
    FindWithout(EndpointId, (e: Endpoint) => e.connectionId == id, t.eps, key);
  }

  /** A save leaves every row where it is, a new one goes to the end. */
  lemma {:induction false} UpsertInPlace<T>(id: T -> string, table: seq<T>, row: T)
    ensures var after := Upsert(id, table, row);
            if Find(id, table, id(row)).None? then after == table + [row]
            else |after| == |table| && forall i :: 0 <= i < |table| ==> id(after[i]) == id(table[i])
  {
    if table != [] && id(table[0]) != id(row) {
      UpsertInPlace(id, table[1..], row);
      assert table == [table[0]] + table[1..];
    }
  }

  // ------------------------------------------------------------ serial runs

  /** One call on the store, or one move of its environment. A write or a query
      whose statement fails has `ok` false; the janitor sweeps each cache. */
  datatype Op =
    | Do(w: Write, ok: bool)
    | ReadConnections(ok: bool)
    | ReadEndpoints(ok: bool)
    | Tick(elapsed: nat)
    | SweepConnections
    | SweepEndpoints

  datatype Answer =
    | Done
    | Failed
    | Connections(conns: seq<Connection>)
    | Endpoints(eps: seq<Endpoint>)

  /** The store without caches. */
  ghost function PlainStep(f: Float64, cascade: bool, t: Tables, op: Op): (Tables, Answer) {
    match op
    case Do(w, ok) => if ok then (Written(f, cascade, t, w), Done) else (t, Failed)
    case ReadConnections(ok) => (t, if ok then Connections(t.conns) else Failed)
    case ReadEndpoints(ok) => (t, if ok then Endpoints(t.eps) else Failed)
    case _ => (t, Done)
  }

  const CACHE_KEY := "all"

  datatype Cached = Cached(
    t: Tables,
    ttl: int,
    connEntries: Entries<seq<Connection>>,
    epEntries: Entries<seq<Endpoint>>,
    now: int)

  /** The store with its two caches, as the methods of `DB` run it. */
  ghost function CachedStep(f: Float64, cascade: bool, s: Cached, op: Op): (Cached, Answer) {
    match op
    case Do(w, ok) =>
      if ok then (s.(t := Written(f, cascade, s.t, w), connEntries := map[], epEntries := map[]), Done)
      else (s, Failed)
    case ReadConnections(ok) =>
      (match Lookup(s.ttl, s.connEntries, CACHE_KEY, s.now)
       case Some(conns) => (s, Connections(conns))
       case None =>
         if ok then
           (s.(connEntries := Stored(s.ttl, s.connEntries, CACHE_KEY, s.t.conns, s.now)), Connections(s.t.conns))
         else (s, Failed))
    case ReadEndpoints(ok) =>
      (match Lookup(s.ttl, s.epEntries, CACHE_KEY, s.now)
       case Some(eps) => (s, Endpoints(eps))
       case None =>
         if ok then (s.(epEntries := Stored(s.ttl, s.epEntries, CACHE_KEY, s.t.eps, s.now)), Endpoints(s.t.eps))
         else (s, Failed))
    case Tick(elapsed) => (s.(now := s.now + elapsed), Done)
    case SweepConnections => (s.(connEntries := Swept(s.connEntries, s.now)), Done)
    case SweepEndpoints => (s.(epEntries := Swept(s.epEntries, s.now)), Done)
  }

  ghost function PlainRun(f: Float64, cascade: bool, t: Tables, ops: seq<Op>): Tables
    decreases |ops|
  {
    if ops == [] then t
    else PlainRun(f, cascade, PlainStep(f, cascade, t, ops[0]).0, ops[1..])
  }

  ghost function PlainAnswers(f: Float64, cascade: bool, t: Tables, ops: seq<Op>): seq<Answer>
    decreases |ops|
  {
    if ops == [] then []
    else
      var (t', answer) := PlainStep(f, cascade, t, ops[0]);
      [answer] + PlainAnswers(f, cascade, t', ops[1..])
  }

  ghost function CachedAnswers(f: Float64, cascade: bool, s: Cached, ops: seq<Op>): seq<Answer>
    decreases |ops|
  {
    if ops == [] then []
    else
      var (s', answer) := CachedStep(f, cascade, s, ops[0]);
      [answer] + CachedAnswers(f, cascade, s', ops[1..])
  }

  /** Whatever is cached is what the table holds now. */
  ghost predicate Coherent(s: Cached) {
    (forall k :: k in s.connEntries ==> s.connEntries[k].value == s.t.conns) &&
    (forall k :: k in s.epEntries ==> s.epEntries[k].value == s.t.eps)
  }

  lemma StepCoherent(f: Float64, cascade: bool, s: Cached, op: Op)
    requires Coherent(s)
    ensures Coherent(CachedStep(f, cascade, s, op).0)
    ensures CachedStep(f, cascade, s, op).0.t == PlainStep(f, cascade, s.t, op).0
    ensures PlainStep(f, cascade, s.t, op).1 != Failed ==>
              CachedStep(f, cascade, s, op).1 == PlainStep(f, cascade, s.t, op).1
  {
  }

  /** The same read over a database that does not fail. */
  function Unfailing(op: Op): Op {
    match op
    case ReadConnections(_) => ReadConnections(true)
    case ReadEndpoints(_) => ReadEndpoints(true)
    case _ => op
  }

  /** In one process with atomic calls the caches cannot be observed: every answer is
      the answer of the uncached store, except that a read may succeed where the query
      would have failed, and then it returns the table as it is at that moment. */
  lemma {:induction false} SerialTransparency(f: Float64, cascade: bool, s: Cached, ops: seq<Op>, i: nat)
    requires Coherent(s) && i < |ops|
    ensures |CachedAnswers(f, cascade, s, ops)| == |PlainAnswers(f, cascade, s.t, ops)| == |ops|
    ensures CachedAnswers(f, cascade, s, ops)[i]
            in {PlainAnswers(f, cascade, s.t, ops)[i],
                PlainStep(f, cascade, PlainRun(f, cascade, s.t, ops[..i]), Unfailing(ops[i])).1}
    ensures PlainAnswers(f, cascade, s.t, ops)[i] != Failed ==>
              CachedAnswers(f, cascade, s, ops)[i] == PlainAnswers(f, cascade, s.t, ops)[i]
    decreases |ops|
  {
    AnswerCounts(f, cascade, s, ops);
    StepCoherent(f, cascade, s, ops[0]);
    if i == 0 {
      assert ops[..0] == [];
    } else {
      SerialTransparency(f, cascade, CachedStep(f, cascade, s, ops[0]).0, ops[1..], i - 1);
      assert ops[..i][1..] == ops[1..][..i - 1] && ops[..i][0] == ops[0];
      hide CachedStep, PlainStep, Coherent;
    }
  }

  lemma {:induction false} AnswerCounts(f: Float64, cascade: bool, s: Cached, ops: seq<Op>)
    requires Coherent(s)
    ensures |CachedAnswers(f, cascade, s, ops)| == |PlainAnswers(f, cascade, s.t, ops)| == |ops|
    decreases |ops|
  {
    if ops != [] {
      StepCoherent(f, cascade, s, ops[0]);
      AnswerCounts(f, cascade, CachedStep(f, cascade, s, ops[0]).0, ops[1..]);
    }
  }

  // ------------------------------------------------------------ the store object

  class DB {
    const f: Float64
    const cascade: bool
    var conns: seq<Connection>
    var eps: seq<Endpoint>
    const connCache: TTLCache<seq<Connection>>
    const epCache: TTLCache<seq<Endpoint>>

    ghost predicate Valid()
      reads this, connCache, epCache
    {
      connCache as object != epCache && connCache.ttl == epCache.ttl
      && Consistent(Tables(conns, eps))
      && Coherent(Snapshot(0))
    }

    /** The store's state as the run semantics sees it. */
    ghost function Snapshot(now: int): Cached
      reads this, connCache, epCache
    {
      Cached(Tables(conns, eps), connCache.ttl, connCache.m, epCache.m, now)
    }

    constructor (f: Float64, cascade: bool, conns: seq<Connection>, eps: seq<Endpoint>, ttl: int)
      requires Consistent(Tables(conns, eps))
      ensures Valid() && fresh(connCache) && fresh(epCache)
      ensures this.f == f && this.cascade == cascade
      ensures forall now :: Snapshot(now) == Cached(Tables(conns, eps), ttl, map[], map[], now)
    {
      this.f := f;
      this.cascade := cascade;
      this.conns := conns;
      this.eps := eps;
      var cc := new TTLCache<seq<Connection>>(ttl);
      var ec := new TTLCache<seq<Endpoint>>(ttl);
      connCache := cc;
      epCache := ec;
    }

    method InvalidateCaches()
      modifies connCache`m, epCache`m
      ensures connCache.m == map[] && epCache.m == map[]
    {
      connCache.Purge();
      epCache.Purge();
    }

    method GetConnections(now: int, ok: bool) returns (r: Option<seq<Connection>>)
      requires Valid()
      modifies connCache`m
      ensures Valid()
      ensures (Snapshot(now), if r.Some? then Connections(r.value) else Failed)
           == CachedStep(f, cascade, old(Snapshot(now)), ReadConnections(ok))
      ensures r.Some? ==> r.value == conns
      ensures r.Some? <==> ok || Lookup(connCache.ttl, old(connCache.m), CACHE_KEY, now).Some?
      ensures r.Some? && connCache.ttl > 0 ==> Lookup(connCache.ttl, connCache.m, CACHE_KEY, now) == Some(conns)
    {
      var hit := connCache.Get(CACHE_KEY, now);
      if hit.Some? {
        return hit;
      }
      if !ok {
        return None;
      }
      connCache.Set(CACHE_KEY, conns, now);
      return Some(conns);
    }

    method GetAllEndpoints(now: int, ok: bool) returns (r: Option<seq<Endpoint>>)
      requires Valid()
      modifies epCache`m
      ensures Valid()
      ensures (Snapshot(now), if r.Some? then Endpoints(r.value) else Failed)
           == CachedStep(f, cascade, old(Snapshot(now)), ReadEndpoints(ok))
      ensures r.Some? ==> r.value == eps
      ensures r.Some? <==> ok || Lookup(epCache.ttl, old(epCache.m), CACHE_KEY, now).Some?
      ensures r.Some? && epCache.ttl > 0 ==> Lookup(epCache.ttl, epCache.m, CACHE_KEY, now) == Some(eps)
    {
      var hit := epCache.Get(CACHE_KEY, now);
      if hit.Some? {
        return hit;
      }
      if !ok {
        return None;
      }
      epCache.Set(CACHE_KEY, eps, now);
      return Some(eps);
    }

    method SaveConnection(conn: Connection, ok: bool)
      requires Valid()
      modifies this`conns, connCache`m, epCache`m
      ensures Valid()
      ensures forall now ::
                Snapshot(now) == CachedStep(f, cascade, old(Snapshot(now)), Do(Write.SaveConnection(conn), ok)).0
      ensures if ok then Does(f, cascade, old(Tables(conns, eps)), Write.SaveConnection(conn), Tables(conns, eps))
              else Tables(conns, eps) == old(Tables(conns, eps))
    {
      WrittenDoes(f, cascade, Tables(conns, eps), Write.SaveConnection(conn));
      hide Does;
      WrittenConsistent(f, cascade, Tables(conns, eps), Write.SaveConnection(conn));
      if ok {
        conns := Upsert(ConnectionId, conns, conn);
        InvalidateCaches();
      }
    }

    method DeleteConnection(id: string, ok: bool)
      requires Valid()
      modifies this`conns, this`eps, connCache`m, epCache`m
      ensures Valid()
      ensures forall now ::
                Snapshot(now) == CachedStep(f, cascade, old(Snapshot(now)), Do(Write.DeleteConnection(id), ok)).0
      ensures if ok then Does(f, cascade, old(Tables(conns, eps)), Write.DeleteConnection(id), Tables(conns, eps))
              else Tables(conns, eps) == old(Tables(conns, eps))
    {
      WrittenDoes(f, cascade, Tables(conns, eps), Write.DeleteConnection(id));
      hide Does;
      WrittenConsistent(f, cascade, Tables(conns, eps), Write.DeleteConnection(id));
      if ok {
        conns := Without((c: Connection) => c.id == id, conns);
        if cascade {
          eps := Without((e: Endpoint) => e.connectionId == id, eps);
        }
        InvalidateCaches();
      }
    }

    /** Saves `ep` and returns it with the hash and version it was given; a failed
        lookup leaves even the argument alone. */
    method SaveEndpoint(ep: Endpoint, lookupOk: bool, ok: bool) returns (saved: Endpoint)
      requires Valid()
      modifies this`eps, connCache`m, epCache`m
      ensures Valid()
      ensures saved == if lookupOk then Recorded(f, old(eps), ep) else ep
      ensures forall now ::
                Snapshot(now) == CachedStep(f, cascade, old(Snapshot(now)),
                     Do(Write.SaveEndpoint(ep), lookupOk && ok)).0
      ensures lookupOk ==> SavedOver(f, Find(EndpointId, old(eps), ep.id), ep, saved)
      ensures if lookupOk && ok then
                Does(f, cascade, old(Tables(conns, eps)), Write.SaveEndpoint(ep), Tables(conns, eps))
              else Tables(conns, eps) == old(Tables(conns, eps))
    {
      WrittenDoes(f, cascade, Tables(conns, eps), Write.SaveEndpoint(ep));
      RecordedOver(f, eps, ep);
      hide Does, SavedOver, Upsert, Hash;
      WrittenConsistent(f, cascade, Tables(conns, eps), Write.SaveEndpoint(ep));
      var newHash := ComputeHash(f, Definition(ep, ep.toolName));
      if !lookupOk {
        return ep;
      }
      var version := 1;
      var row := Find(EndpointId, eps, ep.id);
      if row.Some? {
        version := row.value.version;
        if row.value.definitionHash != newHash {
          version := row.value.version + 1;
        }
      }
      saved := ep.(definitionHash := newHash, version := version);
      if ok {
        eps := Upsert(EndpointId, eps, saved);
        InvalidateCaches();
      }
    }

    method DeleteEndpoint(id: string, ok: bool)
      requires Valid()
      modifies this`eps, connCache`m, epCache`m
      ensures Valid()
      ensures forall now ::
                Snapshot(now) == CachedStep(f, cascade, old(Snapshot(now)), Do(Write.DeleteEndpoint(id), ok)).0
      ensures if ok then Does(f, cascade, old(Tables(conns, eps)), Write.DeleteEndpoint(id), Tables(conns, eps))
              else Tables(conns, eps) == old(Tables(conns, eps))
    {
      WrittenDoes(f, cascade, Tables(conns, eps), Write.DeleteEndpoint(id));
      hide Does;
      WrittenConsistent(f, cascade, Tables(conns, eps), Write.DeleteEndpoint(id));
      if ok {
        eps := Without((e: Endpoint) => e.id == id, eps);
        InvalidateCaches();
      }
    }
  }
}
