/** What strict pinning lets run (pkg/mcp/server.go): the pin check and the call each
    read the store, through the caches and at different moments. */
module McpPinning {
  import opened Text
  import opened Json
  import opened ToolIntegrity
  import opened Store
  import opened Auth
  import opened McpTools
  import opened McpServer
  import McpAudit
  import Staleness
  import opened TtlCache

  /** What strict pinning lets run has the approved definition exactly when the endpoint
      the call finds is still defined as the one the pin check found. */
  lemma StrictRunsExactly(f: Float64, env: Environment, before: Tables, during: Tables, who: Identity,
                          name: string, approved: Endpoint)
    requires Float64Text(f) && !HasPrefix(name, ADMIN_PREFIX)
    requires Refusal(f, true, env, Some(before), who, name).None?
    requires Found(before, name).Some? && Found(before, name).value.definitionHash == OwnHash(f, approved)
    requires Found(during, name).Some?
    ensures SameDefinition(f, Definition(approved, approved.toolName), Definition(Found(during, name).value, name))
            <==> SameDefinition(f, Definition(Found(before, name).value, name),
                 Definition(Found(during, name).value, name))
  {
    PinDetectsExactly(f, Definition(approved, approved.toolName), Definition(Found(before, name).value, name));
    hide Found, OwnHash;
  }

  /** No write succeeded. */
  predicate Quiet(ops: seq<Op>) {
    forall op :: op in ops && op.Do? ==> !op.ok
  }

  /** What an answer shows of the tables it shows them as. */
  predicate Shows(answer: Answer, t: Tables) {
    (answer.Connections? ==> answer.conns == t.conns) && (answer.Endpoints? ==> answer.eps == t.eps)
  }

  /** In a run without a successful write, from caches that agree with the tables, every
      read shows the same tables, cached or not. */
  lemma {:induction false} QuietReads(f: Float64, cascade: bool, s: Cached, ops: seq<Op>, i: nat)
    requires Coherent(s) && Quiet(ops) && i < |ops|
    ensures i < |CachedAnswers(f, cascade, s, ops)| && Shows(CachedAnswers(f, cascade, s, ops)[i], s.t)
    decreases |ops|
  {
    assert ops[0] in ops && forall op :: op in ops[1..] ==> op in ops;
    StepCoherent(f, cascade, s, ops[0]);
    if i > 0 {
      QuietReads(f, cascade, CachedStep(f, cascade, s, ops[0]).0, ops[1..], i - 1);
    }
  }

  /** Two snapshots, each put together from an endpoint read and a connection read of one run. */
  ghost predicate ReadIn(answers: seq<Answer>, t: Tables, i: nat, j: nat) {
    i < |answers| && j < |answers| && answers[i] == Endpoints(t.eps) && answers[j] == Connections(t.conns)
  }

  /** So it is in one process with atomic calls if no write succeeds from before the pin
      check's reads until after the call's, and the caches agree with the tables at the
      start: ticks, expiry, sweeps and failed writes in between do not matter. */
  lemma StrictRunsApproved(f: Float64, cascade: bool, env: Environment, s: Cached, ops: seq<Op>,
                           before: Tables, i: nat, j: nat, during: Tables, k: nat, l: nat,
                           who: Identity, name: string, approved: Endpoint)
    requires Float64Text(f) && Coherent(s) && Quiet(ops)
    requires ReadIn(CachedAnswers(f, cascade, s, ops), before, i, j)
    requires ReadIn(CachedAnswers(f, cascade, s, ops), during, k, l)
    requires Refusal(f, true, env, Some(before), who, name).None? && RouteOf(before, name).Downstream?
    requires RouteOf(before, name).ep.definitionHash == OwnHash(f, approved)
    ensures RouteOf(during, name).Downstream?
    ensures SameDefinition(f, Definition(approved, approved.toolName), Definition(RouteOf(during, name).ep, name))
  {
    SameTables(f, cascade, s, ops, before, i, j);
    SameTables(f, cascade, s, ops, during, k, l);
    hide Found, CachedAnswers, Refusal;
    assert before == during;
    StrictRunsExactly(f, env, before, during, who, name, approved);
  }

  lemma SameTables(f: Float64, cascade: bool, s: Cached, ops: seq<Op>, t: Tables, i: nat, j: nat)
    requires Coherent(s) && Quiet(ops) && ReadIn(CachedAnswers(f, cascade, s, ops), t, i, j)
    ensures t == s.t
  {
    AnswerCounts(f, cascade, s, ops);
    hide CachedAnswers, Coherent, Quiet;
    QuietReads(f, cascade, s, ops, i);
    QuietReads(f, cascade, s, ops, j);
  }

  // ------------------------------------------------------------ runs that break it

  /** On these two snapshots strict pinning lets a definition run that is not the one its
      pin was taken on. */
  ghost predicate RunsUnapproved(f: Float64, env: Environment, before: Tables, during: Tables,
                                 who: Identity, name: string, approved: Endpoint) {
    Refusal(f, true, env, Some(before), who, name).None?
    && Found(before, name).Some? && Found(before, name).value.definitionHash == OwnHash(f, approved)
    && RouteOf(during, name).Downstream?
    && !SameDefinition(f, Definition(approved, approved.toolName), Definition(RouteOf(during, name).ep, name))
  }

  const PLAIN := Connection("c", "", "", "", "", "", true, "")
  const GOOD := Endpoint("e", "c", "t", "good", "/", "GET", "", "", NoHash, 0)
  const BAD := Endpoint("e", "c", "t", "bad", "/", "GET", "", "", NoHash, 0)

  lemma OneEndpoint(ep: Endpoint)
    requires ep.connectionId == "c" && ep.toolName == "t"
    ensures Found(Tables([PLAIN], [ep]), "t") == Some(ep)
  {
    assert [PLAIN][..0] == [] && ConnMap([PLAIN]) == map["c" := PLAIN];
    assert "" + "t" == "t";
  }

  lemma NamedT()
    ensures !HasPrefix("t", ADMIN_PREFIX) && InScope("t", ["*"])
  {
    assert HasPrefix("t", "*"[..0]) && ScopeMatches("t", ["*"][0]);
  }

  const ANYONE := Identity("user", "user", ["*"])

  lemma GoodPasses(f: Float64, env: Environment, row: Endpoint)
    requires row == Recorded(f, [], GOOD)
    ensures Refusal(f, true, env, Some(Tables([PLAIN], [row])), ANYONE, "t").None?
    ensures row.definitionHash == OwnHash(f, GOOD)
  {
    NamedT();
    OwnPin(f, row);
    hide *;
    RefusalIsGate(f, true, env, Some(Tables([PLAIN], [row])), ANYONE, "t");
  }

  lemma OwnPin(f: Float64, row: Endpoint)
    requires row == Recorded(f, [], GOOD)
    ensures row.definitionHash == OwnHash(f, GOOD)
    ensures !PinRefuses(f, true, Some(Tables([PLAIN], [row])), "t")
    ensures McpAudit.Passes(ANYONE, "t", PinRefuses(f, true, Some(Tables([PLAIN], [row])), "t"))
  {
    assert row.connectionId == "c" && row.toolName == "t";
    assert Definition(row, "t") == Definition(GOOD, GOOD.toolName);
    OneEndpoint(row);
    NamedT();
    hide Found, Hash, InScope, HasPrefix;
  }

  lemma OneRoute(ep: Endpoint)
    requires ep.connectionId == "c" && ep.toolName == "t"
    ensures RouteOf(Tables([PLAIN], [ep]), "t") == Downstream(ep) && PrefixOf(Tables([PLAIN], [ep]), "t") == ""
  {
    OneEndpoint(ep);
    NamedT();
    assert [PLAIN][..0] == [] && ConnMap([PLAIN]) == map["c" := PLAIN];
    hide HasPrefix;
  }

  lemma OtherDescription(f: Float64, ep: Endpoint)
    requires ep.toolDescription == "bad"
    ensures !SameDefinition(f, Definition(GOOD, GOOD.toolName), Definition(ep, "t"))
  {
    assert "good" != "bad";
  }

  /** Whatever stands in the row when the call reads it runs. */
  lemma BadRuns(f: Float64, env: Environment, row: Endpoint, live: Endpoint)
    requires row == Recorded(f, [], GOOD)
    requires live.connectionId == "c" && live.toolName == "t" && live.toolDescription == "bad"
    ensures RunsUnapproved(f, env, Tables([PLAIN], [row]), Tables([PLAIN], [live]), ANYONE, "t", GOOD)
  {
    GoodPasses(f, env, row);
    assert row.connectionId == "c" && row.toolName == "t";
    hide Recorded, Found, Refusal, OwnHash, SameDefinition, RouteOf;
    OneEndpoint(row);
    OneRoute(live);
    OtherDescription(f, live);
  }

  lemma SavedRow(f: Float64, row: Endpoint)
    requires row == Recorded(f, [], GOOD)
    ensures var saved := Recorded(f, [row], BAD);
            Written(f, false, Tables([PLAIN], [row]), Store.Write.SaveEndpoint(BAD)) == Tables([PLAIN], [saved])
            && saved.connectionId == "c" && saved.toolName == "t" && saved.toolDescription == "bad"
  {
    hide Hash;
    assert Upsert(EndpointId, [row], Recorded(f, [row], BAD)) == [Recorded(f, [row], BAD)];
  }

  /** A save between the two reads makes strict pinning run a definition other than the
      one checked (the save pins it anew). */
  lemma StrictRace(f: Float64, env: Environment)
    ensures var before := Tables([PLAIN], [Recorded(f, [], GOOD)]);
            var during := Written(f, false, before, Store.Write.SaveEndpoint(BAD));
            RunsUnapproved(f, env, before, during, ANYONE, "t", GOOD)
  {
    var row := Recorded(f, [], GOOD);
    SavedRow(f, row);
    hide *;
    BadRuns(f, env, row, Recorded(f, [row], BAD));
  }

  /** A row altered without its hash between the reads runs, although it is exactly what
      strict pinning is to refuse. */
  lemma StrictRaceTampered(f: Float64, env: Environment)
    requires Float64Text(f)
    ensures var row := Recorded(f, [], GOOD);
            var before, during := Tables([PLAIN], [row]), Tables([PLAIN], [row.(toolDescription := "bad")]);
            RunsUnapproved(f, env, before, during, ANYONE, "t", GOOD) && ReportedChanged(f, during, "t")
  {
    var row := Recorded(f, [], GOOD);
    var altered := row.(toolDescription := "bad");
    assert altered.connectionId == "c" && altered.toolName == "t" && altered.definitionHash == OwnHash(f, GOOD);
    OneEndpoint(altered);
    NamedT();
    hide *;
    BadRuns(f, env, row, altered);
    OneRoute(altered);
    OtherDescription(f, altered);
    TamperingDetected(f, Tables([PLAIN], [altered]), "t", GOOD);
  }

  // ------------------------------------------------------------ a stale check

  const STALE_TTL := 30

  /** One replica with one reader over an endpoint table. */
  function Replicated(now: int, lag: int, history: seq<Staleness.Version<seq<Endpoint>>>,
                      entries: Entries<seq<Endpoint>>, reader: Staleness.Reader<seq<Endpoint>>,
                      returned: seq<Staleness.Return<seq<Endpoint>>>): Staleness.System<seq<Endpoint>> {
    Staleness.System(now, STALE_TTL, lag, history, [Staleness.Replica(entries, [reader])], returned)
  }

  /** A read that finds nothing cached. */
  function MissedRead(): seq<Staleness.Step<seq<Endpoint>>> {
    [Staleness.LookUp(0, 0), Staleness.Query(0, 0), Staleness.Fill(0, 0)]
  }

  lemma OneOf<T>(x: T, y: T)
    ensures [x][0 := y] == [y]
  {
  }

  lemma MissedReadReturns(now: int, history: seq<Staleness.Version<seq<Endpoint>>>,
                          entries: Entries<seq<Endpoint>>, returned: seq<Staleness.Return<seq<Endpoint>>>)
    requires history != [] && Lookup(STALE_TTL, entries, CACHE_KEY, now) == None
    ensures var table := history[|history| - 1].table;
            Staleness.Run(Replicated(now, 0, history, entries, Staleness.Idle, returned), MissedRead())
            == Replicated(now, 0, history, Stored(STALE_TTL, entries, CACHE_KEY, table, now), Staleness.Idle,
                          returned + [Staleness.Return(0, now, table)])
  {
    var table := history[|history| - 1].table;
    var s := Replicated(now, 0, history, entries, Staleness.Idle, returned);
    var missed := Replicated(now, 0, history, entries, Staleness.Missed, returned);
    var holding := Replicated(now, 0, history, entries, Staleness.Holding(table, now), returned);
    var stored := Stored(STALE_TTL, entries, CACHE_KEY, table, now);
    OneOf(Staleness.Reader<seq<Endpoint>>.Idle, Staleness.Missed);
    OneOf(Staleness.Reader<seq<Endpoint>>.Missed, Staleness.Holding(table, now));
    OneOf(Staleness.Reader<seq<Endpoint>>.Holding(table, now), Staleness.Idle);
    OneOf(s.replicas[0], missed.replicas[0]);
    OneOf(missed.replicas[0], holding.replicas[0]);
    OneOf(holding.replicas[0], Staleness.Replica(stored, [Staleness.Holding(table, now)]));
    OneOf(Staleness.Replica(stored, [Staleness.Holding(table, now)]), Staleness.Replica(stored, [Staleness.Idle]));
    assert Staleness.Apply(s, Staleness.LookUp(0, 0)) == missed;
    assert Staleness.Apply(missed, Staleness.Query(0, 0)) == holding;
    assert Staleness.Apply(holding, Staleness.Fill(0, 0))
        == Replicated(now, 0, history, Stored(STALE_TTL, entries, CACHE_KEY, table, now), Staleness.Idle,
                      returned + [Staleness.Return(0, now, table)]);
    hide Staleness.Apply, Stored, Lookup;
    assert MissedRead()[1..] == [Staleness.Query(0, 0), Staleness.Fill(0, 0)];
    assert MissedRead()[1..][1..] == [Staleness.Fill(0, 0)];
    var end := Staleness.Apply(holding, Staleness.Fill(0, 0));
    assert Staleness.Run(end, []) == end;
    assert Staleness.Run(holding, [Staleness.Fill(0, 0)]) == end;
    assert Staleness.Run(missed, [Staleness.Query(0, 0), Staleness.Fill(0, 0)]) == end;
  }

  /** A warm cache, a write elsewhere, and a read within the ttl. */
  function WarmRead(bad: seq<Endpoint>): seq<Staleness.Step<seq<Endpoint>>> {
    [Staleness.Tick(10), Staleness.Exec(bad), Staleness.Tick(19), Staleness.LookUp(0, 0)]
  }

  lemma WarmReadReturns(good: seq<Endpoint>, bad: seq<Endpoint>, returned: seq<Staleness.Return<seq<Endpoint>>>)
    ensures var history := [Staleness.Version(0, good)];
            var entries := map[CACHE_KEY := Entry(good, 30)];
            Staleness.Run(Replicated(0, 0, history, entries, Staleness.Idle, returned), WarmRead(bad))
            == Replicated(29, 0, history + [Staleness.Version(10, bad)], entries, Staleness.Idle,
                          returned + [Staleness.Return(0, 29, good)])
  {
    var history, entries := [Staleness.Version(0, good)], map[CACHE_KEY := Entry(good, 30)];
    var later := history + [Staleness.Version(10, bad)];
    var s1 := Replicated(10, 0, history, entries, Staleness.Idle, returned);
    var s2 := Replicated(10, 0, later, entries, Staleness.Idle, returned);
    var s3 := Replicated(29, 0, later, entries, Staleness.Idle, returned);
    var s4 := Replicated(29, 0, later, entries, Staleness.Idle, returned + [Staleness.Return(0, 29, good)]);
    assert Staleness.Apply(Replicated(0, 0, history, entries, Staleness.Idle, returned), Staleness.Tick(10)) == s1;
    assert Staleness.Apply(s1, Staleness.Exec(bad)) == s2;
    assert Staleness.Apply(s2, Staleness.Tick(19)) == s3;
    assert Staleness.Apply(s3, Staleness.LookUp(0, 0)) == s4;
    hide Staleness.Apply;
    var steps := WarmRead(bad);
    assert steps[1..] == [Staleness.Exec(bad), Staleness.Tick(19), Staleness.LookUp(0, 0)];
    assert steps[1..][1..] == [Staleness.Tick(19), Staleness.LookUp(0, 0)];
    assert steps[1..][1..][1..] == [Staleness.LookUp(0, 0)];
    assert Staleness.Run(s4, []) == s4;
    assert Staleness.Run(s3, [Staleness.LookUp(0, 0)]) == s4;
    assert Staleness.Run(s2, [Staleness.Tick(19), Staleness.LookUp(0, 0)]) == s4;
    assert Staleness.Run(s1, [Staleness.Exec(bad), Staleness.Tick(19), Staleness.LookUp(0, 0)]) == s4;
  }

  /** The reads of a stale check and a fresh call: the cache is filled, the table is
      written elsewhere, the check is served from the cache, the entry expires, and the
      call queries. The table does not change between the two. */
  lemma StaleReads(good: seq<Endpoint>, bad: seq<Endpoint>)
    ensures var s := Replicated(0, 0, [Staleness.Version(0, good)], map[], Staleness.Idle, []);
            var checked := Staleness.Run(Staleness.Run(s, MissedRead()), WarmRead(bad));
            var called := Staleness.Run(Staleness.Apply(checked, Staleness.Tick(2)), MissedRead());
            called.history == checked.history
            && |checked.returned| == 2 && checked.returned[1] == Staleness.Return(0, 29, good)
            && |called.returned| == 3 && called.returned[2] == Staleness.Return(0, 31, bad)
  {
    var history := [Staleness.Version(0, good)];
    var entries := map[CACHE_KEY := Entry(good, 30)];
    MissedReadReturns(0, history, map[], []);
    assert Stored(STALE_TTL, map[], CACHE_KEY, good, 0) == entries;
    WarmReadReturns(good, bad, [] + [Staleness.Return(0, 0, good)]);
    var later, returned := history + [Staleness.Version(10, bad)], [] + [Staleness.Return(0, 0, good)]
         + [Staleness.Return(0, 29, good)];
    assert Staleness.Apply(Replicated(29, 0, later, entries, Staleness.Idle, returned), Staleness.Tick(2))
        == Replicated(31, 0, later, entries, Staleness.Idle, returned);
    MissedReadReturns(31, later, entries, returned);
  }

  /** So without any write between its reads, strict pinning lets a stale check approve
      what the call no longer finds. */
  lemma StaleCheck(f: Float64, env: Environment)
    ensures var good := [Recorded(f, [], GOOD)];
            var bad := [Recorded(f, good, BAD)];
            var s := Replicated(0, 0, [Staleness.Version(0, good)], map[], Staleness.Idle, []);
            var checked := Staleness.Run(Staleness.Run(s, MissedRead()), WarmRead(bad));
            var called := Staleness.Run(Staleness.Apply(checked, Staleness.Tick(2)), MissedRead());
            called.history == checked.history
            && |checked.returned| == 2 && |called.returned| == 3
            && RunsUnapproved(f, env, Tables([PLAIN], checked.returned[1].table),
                 Tables([PLAIN], called.returned[2].table),
                              ANYONE, "t", GOOD)
  {
    var good := [Recorded(f, [], GOOD)];
    StaleReads(good, [Recorded(f, good, BAD)]);
    StrictRace(f, env);
    SavedRow(f, good[0]);
    hide *;
  }
}
