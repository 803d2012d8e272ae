/** Which tools a client is shown, which it may call, where a call goes, and what
    strict pinning refuses (pkg/mcp/server.go), on one snapshot of the store. */
module McpTools {
  import opened Text
  import opened Json
  import opened ToolIntegrity
  import opened Store
  import opened Auth
  import VersionHistory

  const ADMIN_PREFIX := "admin_"
  const ADMIN_TOOLS := ["admin_add_connection", "admin_add_endpoint", "admin_register_vault_secret"]

  /** A listed tool: an endpoint's, or a built-in admin tool, whose text is left out. */
  datatype Tool =
    | EndpointTool(name: string, description: string, schema: Value, pin: Option<(DefHash, Option<int>)>)
    | BuiltInTool(name: string)

  // ------------------------------------------------------------ resolution

  /** Row `i` is the one its id stands for, the last with that id. */
  predicate LastRow(conns: seq<Connection>, i: int) {
    0 <= i < |conns| && forall j :: i < j < |conns| ==> conns[j].id != conns[i].id
  }

  /** The connections by id; of two rows with one id the later stands. */
  function ConnMap(conns: seq<Connection>): (m: map<string, Connection>)
    ensures forall id :: id in m ==> m[id].id == id
  {
    if conns == [] then map[]
    else ConnMap(conns[..|conns| - 1])[conns[|conns| - 1].id := conns[|conns| - 1]]
  }

  lemma ConnMapStep(front: seq<Connection>, c: Connection)
    ensures ConnMap(front + [c]) == ConnMap(front)[c.id := c]
  {
    assert (front + [c])[..|front|] == front;
  }

  lemma LastRowStep(front: seq<Connection>, c: Connection, i: int)
    ensures LastRow(front + [c], i) <==> i == |front| || (LastRow(front, i) && front[i].id != c.id)
  {
    if LastRow(front + [c], i) && i < |front| {
      assert (front + [c])[|front|] == c;
      assert forall j :: 0 <= j < |front| ==> (front + [c])[j] == front[j];
    }
  }

  /** Every id maps to its last row. */
  lemma {:induction false} ConnMapRow(conns: seq<Connection>, i: int)
    requires LastRow(conns, i)
    ensures conns[i].id in ConnMap(conns) && ConnMap(conns)[conns[i].id] == conns[i]
  {
    var front, c := conns[..|conns| - 1], conns[|conns| - 1];
    assert conns == front + [c];
    ConnMapStep(front, c);
    LastRowStep(front, c, i);
    if i < |front| { ConnMapRow(front, i); }
  }

  /** The map has no id without a row. */
  lemma {:induction false} ConnMapId(conns: seq<Connection>, id: string) returns (i: int)
    requires id in ConnMap(conns)
    ensures LastRow(conns, i) && conns[i].id == id
  {
    var front, c := conns[..|conns| - 1], conns[|conns| - 1];
    assert conns == front + [c];
    ConnMapStep(front, c);
    if id == c.id {
      i := |front|;
    } else {
      i := ConnMapId(front, id);
      LastRowStep(front, c, i);
    }
  }

  /** Row `i` is the connection the endpoint belongs to, and it is enabled. */
  predicate Serves(conns: seq<Connection>, i: int, ep: Endpoint) {
    LastRow(conns, i) && conns[i].id == ep.connectionId && conns[i].enabled
  }

  /** An enabled connection exposes the endpoint under this name. */
  ghost predicate Answers(conns: seq<Connection>, ep: Endpoint, name: string) {
    exists i :: Serves(conns, i, ep) && conns[i].toolPrefix + ep.toolName == name
  }

  /** Endpoint `k` is the first that answers to the name. */
  ghost predicate FirstAnswer(t: Tables, name: string, k: int) {
    0 <= k < |t.eps| && Answers(t.conns, t.eps[k], name)
    && forall j :: 0 <= j < k ==> !Answers(t.conns, t.eps[j], name)
  }

  ghost predicate NoAnswer(t: Tables, name: string) {
    forall k :: 0 <= k < |t.eps| ==> !Answers(t.conns, t.eps[k], name)
  }

  lemma ServesExactly(conns: seq<Connection>, i: int, ep: Endpoint)
    requires Serves(conns, i, ep)
    ensures Exposed(ConnMap(conns), ep) && ConnMap(conns)[ep.connectionId] == conns[i]
  {
    ConnMapRow(conns, i);
  }

  lemma ExposedExactly(conns: seq<Connection>, ep: Endpoint) returns (i: int)
    requires Exposed(ConnMap(conns), ep)
    ensures Serves(conns, i, ep)
  {
    i := ConnMapId(conns, ep.connectionId);
    ConnMapRow(conns, i);
  }

  lemma AnswersExactly(conns: seq<Connection>, ep: Endpoint, name: string)
    ensures Answers(conns, ep, name) <==>
              Exposed(ConnMap(conns), ep) && ExposedName(ConnMap(conns), ep) == name
  {
    if Answers(conns, ep, name) {
      var i :| Serves(conns, i, ep) && conns[i].toolPrefix + ep.toolName == name;
      ServesExactly(conns, i, ep);
    }
    if Exposed(ConnMap(conns), ep) {
      var i := ExposedExactly(conns, ep);
      ServesExactly(conns, i, ep);
    }
  }

  method BuildConnMap(conns: seq<Connection>) returns (m: map<string, Connection>)
    ensures m == ConnMap(conns)
  {
    m := map[];
    for i := 0 to |conns|
      invariant m == ConnMap(conns[..i])
    {
      assert conns[..i + 1][..i] == conns[..i];
      m := m[conns[i].id := conns[i]];
    }
    assert conns[..|conns|] == conns;
  }

  predicate Exposed(m: map<string, Connection>, ep: Endpoint) {
    ep.connectionId in m && m[ep.connectionId].enabled
  }

  function ExposedName(m: map<string, Connection>, ep: Endpoint): string
    requires Exposed(m, ep)
  {
    m[ep.connectionId].toolPrefix + ep.toolName
  }

  const NO_PARAMETERS := Obj(map["type" := Str("object"), "properties" := Obj(map[])])

  /** The schema shown: the stored one when it decodes into an object (or null). */
  function ShownSchema(f: Float64, schema: string): Value {
    if schema == [] then NO_PARAMETERS
    else
      match Parse(f, schema)
      case Some(Obj(m)) => Obj(m)
      case Some(Null) => Null
      case _ => NO_PARAMETERS
  }

  function ToolOf(f: Float64, m: map<string, Connection>, ep: Endpoint): Tool
    requires Exposed(m, ep)
  {
    EndpointTool(ExposedName(m, ep), ep.toolDescription, ShownSchema(f, ep.parametersSchema),
                 if ep.definitionHash == NoHash then None
                 else Some((ep.definitionHash, if ep.version == 0 then None else Some(ep.version))))
  }

  /** The endpoint-backed tools a client with these scopes is shown. */
  ghost function EndpointTools(f: Float64, m: map<string, Connection>, eps: seq<Endpoint>,
                               scopes: seq<string>): seq<Tool> {
    if eps == [] then []
    else
      (if Exposed(m, eps[0]) && InScope(ExposedName(m, eps[0]), scopes) then [ToolOf(f, m, eps[0])] else [])
      + EndpointTools(f, m, eps[1..], scopes)
  }

  ghost function AdminToolsShown(names: seq<string>, scopes: seq<string>): seq<Tool> {
    if names == [] then []
    else (if InScope(names[0], scopes) then [BuiltInTool(names[0])] else []) + AdminToolsShown(names[1..], scopes)
  }

  ghost function Listed(f: Float64, t: Tables, role: string, scopes: seq<string>): seq<Tool> {
    EndpointTools(f, ConnMap(t.conns), t.eps, scopes)
    + if role == "admin" then AdminToolsShown(ADMIN_TOOLS, scopes) else []
  }

  // ------------------------------------------------------------ what a list shows

  /** The value shown for a stored schema: none stored, or one that does not decode into
      an object, shows an object without properties. */
  ghost predicate SchemaShown(f: Float64, schema: string, shown: Value) {
    var decoded := if schema == [] then None else Parse(f, schema);
    if decoded.Some? && (decoded.value.Obj? || decoded.value.Null?) then shown == decoded.value
    else shown == Obj(map["type" := Str("object"), "properties" := Obj(map[])])
  }

  /** The hash and version shown: nothing for a row without hash, no version for zero. */
  predicate PinShown(ep: Endpoint, pin: Option<(DefHash, Option<int>)>) {
    if ep.definitionHash == NoHash then pin.None?
    else
      pin.Some? && pin.value.0 == ep.definitionHash
      && (if ep.version == 0 then pin.value.1.None? else pin.value.1 == Some(ep.version))
  }

  /** The tool shows the endpoint of a connection's row, field by field. */
  ghost predicate Shows(f: Float64, conns: seq<Connection>, ep: Endpoint, tool: Tool) {
    tool.EndpointTool? && tool.description == ep.toolDescription
    && (exists i :: Serves(conns, i, ep) && tool.name == conns[i].toolPrefix + ep.toolName)
    && SchemaShown(f, ep.parametersSchema, tool.schema) && PinShown(ep, tool.pin)
  }

  lemma ToolShows(f: Float64, conns: seq<Connection>, ep: Endpoint)
    requires Exposed(ConnMap(conns), ep)
    ensures Shows(f, conns, ep, ToolOf(f, ConnMap(conns), ep))
  {
    var i := ExposedExactly(conns, ep);
    ServesExactly(conns, i, ep);
    hide Parse, ConnMap, Exposed;
  }

  /** The endpoint answers to a name that the scopes allow. */
  ghost predicate Offered(conns: seq<Connection>, scopes: seq<string>, ep: Endpoint) {
    exists name :: Answers(conns, ep, name) && InScope(name, scopes)
  }

  lemma OfferedExactly(conns: seq<Connection>, scopes: seq<string>, ep: Endpoint)
    ensures Offered(conns, scopes, ep) <==>
              Exposed(ConnMap(conns), ep) && InScope(ExposedName(ConnMap(conns), ep), scopes)
  {
    if Exposed(ConnMap(conns), ep) { AnswersExactly(conns, ep, ExposedName(ConnMap(conns), ep)); }
    if name :| Answers(conns, ep, name) && InScope(name, scopes) { AnswersExactly(conns, ep, name); }
  }

  /** `at` goes through exactly these positions, in order and each once. */
  ghost predicate Selects(at: seq<nat>, positions: set<nat>) {
    (forall i, j :: 0 <= i < j < |at| ==> at[i] < at[j]) && forall k :: k in at <==> k in positions
  }

  /** The positions from `from` on of the endpoints a client with these scopes is offered. */
  ghost function OfferedFrom(conns: seq<Connection>, scopes: seq<string>, eps: seq<Endpoint>, from: nat): set<nat> {
    set k: nat | from <= k < |eps| && Offered(conns, scopes, eps[k])
  }

  /** These tools show the endpoints at these positions, one for one. */
  ghost predicate ShowAt(f: Float64, conns: seq<Connection>, eps: seq<Endpoint>, tools: seq<Tool>, at: seq<nat>) {
    |tools| == |at| && forall j :: 0 <= j < |at| ==> at[j] < |eps| && Shows(f, conns, eps[at[j]], tools[j])
  }

  predicate Below(k: nat, positions: set<nat>) {
    forall p :: p in positions ==> k < p
  }

  lemma SelectsCons(k: nat, at: seq<nat>, positions: set<nat>)
    requires Selects(at, positions) && Below(k, positions)
    ensures Selects([k] + at, {k} + positions)
  {
    forall j | 0 <= j < |at| ensures k < at[j] { assert at[j] in at; }
  }

  lemma OfferedStep(conns: seq<Connection>, scopes: seq<string>, eps: seq<Endpoint>, from: nat)
    requires from < |eps|
    ensures OfferedFrom(conns, scopes, eps, from)
         == (if Offered(conns, scopes, eps[from]) then {from} else {}) + OfferedFrom(conns, scopes, eps, from + 1)
  {
  }

  lemma {:induction false} EndpointsShown(f: Float64, conns: seq<Connection>, eps: seq<Endpoint>, scopes: seq<string>,
                                          from: nat) returns (at: seq<nat>)
    requires from <= |eps|
    ensures Selects(at, OfferedFrom(conns, scopes, eps, from))
    ensures ShowAt(f, conns, eps, EndpointTools(f, ConnMap(conns), eps[from..], scopes), at)
    decreases |eps| - from
  {
    hide Shows, Offered, Exposed, ConnMap, OfferedFrom, Selects;
    var m := ConnMap(conns);
    EndpointsEnd(f, conns, eps, scopes, m);
    if from == |eps| {
      at := [];
    } else {
      at := EndpointsShown(f, conns, eps, scopes, from + 1);
      EndpointStep(f, m, eps, from, scopes, []);
      OfferedExactly(conns, scopes, eps[from]);
      OfferedStep(conns, scopes, eps, from);
      var rest := EndpointTools(f, m, eps[from + 1..], scopes);
      hide EndpointTools, ToolOf;
      if Offered(conns, scopes, eps[from]) {
        ToolShows(f, conns, eps[from]);
        OfferedLater(conns, scopes, eps, from);
        SelectsCons(from, at, OfferedFrom(conns, scopes, eps, from + 1));
        ShowCons(f, conns, eps, ToolOf(f, m, eps[from]), rest, from, at);
        at := [from] + at;
      } else {
        assert {} + OfferedFrom(conns, scopes, eps, from + 1) == OfferedFrom(conns, scopes, eps, from + 1);
      }
    }
  }

  lemma ShowCons(f: Float64, conns: seq<Connection>, eps: seq<Endpoint>, tool: Tool, tools: seq<Tool>,
                 k: nat, at: seq<nat>)
    requires ShowAt(f, conns, eps, tools, at) && k < |eps| && Shows(f, conns, eps[k], tool)
    ensures ShowAt(f, conns, eps, [tool] + tools, [k] + at)
  {
    hide Shows;
  }

  lemma OfferedLater(conns: seq<Connection>, scopes: seq<string>, eps: seq<Endpoint>, from: nat)
    ensures Below(from, OfferedFrom(conns, scopes, eps, from + 1))
  {
  }

  lemma EndpointsEnd(f: Float64, conns: seq<Connection>, eps: seq<Endpoint>, scopes: seq<string>,
                     m: map<string, Connection>)
    ensures Selects([], OfferedFrom(conns, scopes, eps, |eps|))
    ensures eps[|eps|..] == [] && EndpointTools(f, m, [], scopes) == []
    ensures forall from: nat :: from <= |eps| ==>
              [] + EndpointTools(f, m, eps[from..], scopes) == EndpointTools(f, m, eps[from..], scopes)
  {
  }

  ghost function BuiltInFrom(role: string, scopes: seq<string>, from: nat): set<nat> {
    set k: nat | from <= k < |ADMIN_TOOLS| && role == "admin" && InScope(ADMIN_TOOLS[k], scopes)
  }

  predicate BuiltInAt(tools: seq<Tool>, at: seq<nat>) {
    |tools| == |at|
    && forall j :: 0 <= j < |at| ==> at[j] < |ADMIN_TOOLS| && tools[j] == BuiltInTool(ADMIN_TOOLS[at[j]])
  }

  lemma {:induction false} BuiltInsShown(role: string, scopes: seq<string>, from: nat) returns (at: seq<nat>)
    requires from <= |ADMIN_TOOLS| && role == "admin"
    ensures Selects(at, BuiltInFrom(role, scopes, from))
    ensures BuiltInAt(AdminToolsShown(ADMIN_TOOLS[from..], scopes), at)
    decreases |ADMIN_TOOLS| - from
  {
    if from == |ADMIN_TOOLS| {
      at := [];
      BuiltInsEnd(scopes);
    } else {
      hide *;
      at := BuiltInsShown(role, scopes, from + 1);
      AdminShown(from, scopes);
      BuiltInStep(role, scopes, from);
      if InScope(ADMIN_TOOLS[from], scopes) {
        SelectsCons(from, at, BuiltInFrom(role, scopes, from + 1));
        BuiltInCons(AdminToolsShown(ADMIN_TOOLS[from + 1..], scopes), from, at);
        at := [from] + at;
      } else {
        assert {} + BuiltInFrom(role, scopes, from + 1) == BuiltInFrom(role, scopes, from + 1);
      }
    }
  }

  lemma BuiltInsEnd(scopes: seq<string>)
    ensures ADMIN_TOOLS[|ADMIN_TOOLS|..] == [] && AdminToolsShown([], scopes) == []
    ensures BuiltInFrom("admin", scopes, |ADMIN_TOOLS|) == {}
  {
  }

  lemma AdminShown(from: nat, scopes: seq<string>)
    requires from < |ADMIN_TOOLS|
    ensures AdminToolsShown(ADMIN_TOOLS[from..], scopes)
         == if InScope(ADMIN_TOOLS[from], scopes) then
              [BuiltInTool(ADMIN_TOOLS[from])] + AdminToolsShown(ADMIN_TOOLS[from + 1..], scopes)
            else AdminToolsShown(ADMIN_TOOLS[from + 1..], scopes)
  {
    AdminStep(from, scopes, []);
    hide *;
    var all, rest := AdminToolsShown(ADMIN_TOOLS[from..], scopes), AdminToolsShown(ADMIN_TOOLS[from + 1..], scopes);
    assert [] + all == all && [] + rest == rest;
  }

  lemma BuiltInCons(tools: seq<Tool>, k: nat, at: seq<nat>)
    requires k < |ADMIN_TOOLS| && BuiltInAt(tools, at)
    ensures BuiltInAt([BuiltInTool(ADMIN_TOOLS[k])] + tools, [k] + at)
  {
  }

  lemma BuiltInStep(role: string, scopes: seq<string>, from: nat)
    requires from < |ADMIN_TOOLS|
    ensures BuiltInFrom(role, scopes, from)
         == (if role == "admin" && InScope(ADMIN_TOOLS[from], scopes) then {from} else {})
            + BuiltInFrom(role, scopes, from + 1)
    ensures Below(from, BuiltInFrom(role, scopes, from + 1))
  {
    hide InScope;
  }

  /** A list, told from the rows: the tools of the endpoints in scope that an enabled
      connection exposes, in the order of the rows and each once, and after them, for an
      admin, the built-in tools in scope. */
  ghost predicate ListsRows(f: Float64, t: Tables, role: string, scopes: seq<string>, tools: seq<Tool>) {
    exists at: seq<nat>, shown: seq<nat> ::
      Selects(at, OfferedFrom(t.conns, scopes, t.eps, 0)) && Selects(shown, BuiltInFrom(role, scopes, 0))
      && |tools| == |at| + |shown|
      && ShowAt(f, t.conns, t.eps, tools[..|at|], at) && BuiltInAt(tools[|at|..], shown)
  }

  lemma ListedExactly(f: Float64, t: Tables, role: string, scopes: seq<string>)
    ensures ListsRows(f, t, role, scopes, Listed(f, t, role, scopes))
  {
    var at := EndpointsShown(f, t.conns, t.eps, scopes, 0);
    var shown: seq<nat> := [];
    if role == "admin" { shown := BuiltInsShown(role, scopes, 0); }
    assert t.eps[0..] == t.eps && ADMIN_TOOLS[0..] == ADMIN_TOOLS;
    var eps, admin := EndpointTools(f, ConnMap(t.conns), t.eps, scopes),
                      if role == "admin" then AdminToolsShown(ADMIN_TOOLS, scopes) else [];
    assert Listed(f, t, role, scopes) == eps + admin;
    hide *;
    ListsParts(f, t, role, scopes, eps, admin, at, shown);
  }

  lemma ListsParts(f: Float64, t: Tables, role: string, scopes: seq<string>, eps: seq<Tool>, admin: seq<Tool>,
                   at: seq<nat>, shown: seq<nat>)
    requires Selects(at, OfferedFrom(t.conns, scopes, t.eps, 0)) && Selects(shown, BuiltInFrom(role, scopes, 0))
    requires ShowAt(f, t.conns, t.eps, eps, at) && BuiltInAt(admin, shown)
    ensures ListsRows(f, t, role, scopes, eps + admin)
  {
    assert |eps| == |at| && |admin| == |shown|;
    hide Selects, OfferedFrom, BuiltInFrom, ShowAt, BuiltInAt;
    var tools := eps + admin;
    assert tools[..|at|] == eps && tools[|at|..] == admin;
  }

  method ListTools(f: Float64, t: Tables, role: string, scopes: seq<string>) returns (tools: seq<Tool>)
    ensures tools == Listed(f, t, role, scopes)
    ensures ListsRows(f, t, role, scopes, tools)
  {
    hide EndpointTools, AdminToolsShown, ListsRows;
    ListedExactly(f, t, role, scopes);
    var m := BuildConnMap(t.conns);
    tools := ListEndpoints(f, m, t.eps, scopes);
    if role == "admin" {
      tools := AppendAdminTools(tools, scopes);
    } else {
      assert tools + [] == tools;
    }
  }

  lemma ListEnds(f: Float64, m: map<string, Connection>, eps: seq<Endpoint>, scopes: seq<string>, tools: seq<Tool>)
    ensures eps[0..] == eps && eps[|eps|..] == []
    ensures [] + EndpointTools(f, m, eps, scopes) == EndpointTools(f, m, eps, scopes)
    ensures tools + EndpointTools(f, m, [], scopes) == tools
    ensures ADMIN_TOOLS[0..] == ADMIN_TOOLS && ADMIN_TOOLS[|ADMIN_TOOLS|..] == []
    ensures tools + AdminToolsShown([], scopes) == tools
  {
  }

  method ListEndpoints(f: Float64, m: map<string, Connection>, eps: seq<Endpoint>, scopes: seq<string>)
    returns (tools: seq<Tool>)
    ensures tools == EndpointTools(f, m, eps, scopes)
  {
    hide EndpointTools;
    tools := [];
    ListEnds(f, m, eps, scopes, tools);
    for i := 0 to |eps|
      invariant tools + EndpointTools(f, m, eps[i..], scopes) == EndpointTools(f, m, eps, scopes)
    {
      EndpointStep(f, m, eps, i, scopes, tools);
      var ep := eps[i];
      if !Exposed(m, ep) {
        continue;
      }
      var toolName := ep.toolName;
      if m[ep.connectionId].toolPrefix != "" {
        toolName := m[ep.connectionId].toolPrefix + toolName;
      }
      assert toolName == ExposedName(m, ep);
      var shown := MatchScope(toolName, scopes);
      if shown {
        tools := tools + [ToolOf(f, m, ep)];
      }
    }
    ListEnds(f, m, eps, scopes, tools);
  }

  lemma AdminStep(i: nat, scopes: seq<string>, tools: seq<Tool>)
    requires i < |ADMIN_TOOLS|
    ensures tools + AdminToolsShown(ADMIN_TOOLS[i..], scopes)
         == (if InScope(ADMIN_TOOLS[i], scopes) then tools + [BuiltInTool(ADMIN_TOOLS[i])] else tools)
            + AdminToolsShown(ADMIN_TOOLS[i + 1..], scopes)
  {
    assert ADMIN_TOOLS[i..][0] == ADMIN_TOOLS[i] && ADMIN_TOOLS[i..][1..] == ADMIN_TOOLS[i + 1..];
  }

  method AppendAdminTools(listed: seq<Tool>, scopes: seq<string>) returns (tools: seq<Tool>)
    ensures tools == listed + AdminToolsShown(ADMIN_TOOLS, scopes)
  {
    hide AdminToolsShown;
    tools := listed;
    ListEnds(l => None, map[], [], scopes, tools);
    for i := 0 to |ADMIN_TOOLS|
      invariant tools + AdminToolsShown(ADMIN_TOOLS[i..], scopes) == listed + AdminToolsShown(ADMIN_TOOLS, scopes)
    {
      AdminStep(i, scopes, tools);
      var shown := MatchScope(ADMIN_TOOLS[i], scopes);
      if shown {
        tools := tools + [BuiltInTool(ADMIN_TOOLS[i])];
      }
    }
    ListEnds(l => None, map[], [], scopes, tools);
  }

  lemma EndpointStep(f: Float64, m: map<string, Connection>, eps: seq<Endpoint>, i: nat, scopes: seq<string>,
                     tools: seq<Tool>)
    requires i < |eps|
    ensures tools + EndpointTools(f, m, eps[i..], scopes)
         == (if Exposed(m, eps[i]) && InScope(ExposedName(m, eps[i]), scopes) then tools + [ToolOf(f, m, eps[i])]
              else tools)
            + EndpointTools(f, m, eps[i + 1..], scopes)
  {
    assert eps[i..][0] == eps[i] && eps[i..][1..] == eps[i + 1..];
  }

  /** The first exposed endpoint of a name. */
  function Resolve(m: map<string, Connection>, eps: seq<Endpoint>, name: string): (r: Option<Endpoint>)
    ensures r.Some? ==> r.value in eps && Exposed(m, r.value) && ExposedName(m, r.value) == name
  {
    if eps == [] then None
    else if Exposed(m, eps[0]) && ExposedName(m, eps[0]) == name then Some(eps[0])
    else Resolve(m, eps[1..], name)
  }

  function Found(t: Tables, name: string): Option<Endpoint> {
    Resolve(ConnMap(t.conns), t.eps, name)
  }

  lemma {:induction false} ResolveFirst(m: map<string, Connection>, eps: seq<Endpoint>, name: string, k: nat)
    requires k < |eps| && Exposed(m, eps[k]) && ExposedName(m, eps[k]) == name
    requires forall j :: 0 <= j < k ==> !(Exposed(m, eps[j]) && ExposedName(m, eps[j]) == name)
    ensures Resolve(m, eps, name) == Some(eps[k])
  {
    if k > 0 { ResolveFirst(m, eps[1..], name, k - 1); }
  }

  lemma {:induction false} ResolveNone(m: map<string, Connection>, eps: seq<Endpoint>, name: string)
    requires forall j :: 0 <= j < |eps| ==> !(Exposed(m, eps[j]) && ExposedName(m, eps[j]) == name)
    ensures Resolve(m, eps, name) == None
  {
    if eps != [] { ResolveNone(m, eps[1..], name); }
  }

  /** A name finds the first endpoint that answers to it, or none if none does. */
  lemma FoundExactly(t: Tables, name: string)
    ensures forall k :: FirstAnswer(t, name, k) ==> Found(t, name) == Some(t.eps[k])
    ensures Found(t, name).None? <==> NoAnswer(t, name)
    ensures NoAnswer(t, name) || exists k :: FirstAnswer(t, name, k)
  {
    hide Exposed, ExposedName, Answers, ConnMap;
    forall k | 0 <= k < |t.eps|
      ensures Answers(t.conns, t.eps[k], name)
              <==> Exposed(ConnMap(t.conns), t.eps[k]) && ExposedName(ConnMap(t.conns), t.eps[k]) == name
    {
      AnswersExactly(t.conns, t.eps[k], name);
    }
    forall k | FirstAnswer(t, name, k) ensures Found(t, name) == Some(t.eps[k]) {
      ResolveFirst(ConnMap(t.conns), t.eps, name, k);
    }
    if NoAnswer(t, name) {
      ResolveNone(ConnMap(t.conns), t.eps, name);
    } else {
      var k := LeastAnswer(t, name);
    }
  }

  lemma LeastAnswer(t: Tables, name: string) returns (k: nat)
    requires !NoAnswer(t, name)
    ensures FirstAnswer(t, name, k)
  {
    k := 0;
    while !Answers(t.conns, t.eps[k], name)
      invariant k < |t.eps| && forall j :: 0 <= j < k ==> !Answers(t.conns, t.eps[j], name)
      decreases |t.eps| - k
    {
      k := k + 1;
    }
  }

  /** The endpoint and the connection a name finds, told from the rows. */
  ghost predicate FindsRow(t: Tables, name: string, ep: Option<Endpoint>, conn: Option<Connection>) {
    if ep.None? then NoAnswer(t, name) && conn.None?
    else
      exists k, i ::
        FirstAnswer(t, name, k) && ep.value == t.eps[k]
        && Serves(t.conns, i, ep.value) && conn == Some(t.conns[i]) && t.conns[i].toolPrefix + ep.value.toolName == name
  }

  lemma FindsFound(t: Tables, name: string, ep: Option<Endpoint>, conn: Option<Connection>)
    requires ep == Found(t, name)
    requires conn == if ep.Some? then Some(ConnMap(t.conns)[ep.value.connectionId]) else None
    ensures FindsRow(t, name, ep, conn)
  {
    FoundExactly(t, name);
    if ep.Some? {
      var k :| FirstAnswer(t, name, k);
      var i := ExposedExactly(t.conns, ep.value);
      ServesExactly(t.conns, i, ep.value);
    }
  }

  method FindEndpoint(t: Tables, name: string) returns (ep: Option<Endpoint>, conn: Option<Connection>)
    ensures ep == Found(t, name)
    ensures FindsRow(t, name, ep, conn)
  {
    hide FindsRow;
    var m := BuildConnMap(t.conns);
    assert t.eps[0..] == t.eps;
    for i := 0 to |t.eps|
      invariant Resolve(m, t.eps[i..], name) == Found(t, name)
    {
      assert t.eps[i..][1..] == t.eps[i + 1..];
      var e := t.eps[i];
      if e.connectionId !in m || !m[e.connectionId].enabled {
        continue;
      }
      var resolved := e.toolName;
      if m[e.connectionId].toolPrefix != "" {
        resolved := m[e.connectionId].toolPrefix + resolved;
      }
      if resolved == name {
        FindsFound(t, name, Some(e), Some(m[e.connectionId]));
        return Some(e), Some(m[e.connectionId]);
      }
    }
    FindsFound(t, name, None, None);
    return None, None;
  }

  // ------------------------------------------------------------ gates and routing

  datatype Gate = Pass | NeedsAdmin | OutOfScope

  ghost function GateFor(name: string, role: string, scopes: seq<string>): Gate {
    if HasPrefix(name, ADMIN_PREFIX) && role != "admin" then NeedsAdmin
    else if !InScope(name, scopes) then OutOfScope
    else Pass
  }

  method CheckGates(name: string, role: string, scopes: seq<string>) returns (gate: Gate)
    ensures gate == GateFor(name, role, scopes)
  {
    if HasPrefix(name, ADMIN_PREFIX) && role != "admin" {
      return NeedsAdmin;
    }
    var ok := MatchScope(name, scopes);
    return if ok then Pass else OutOfScope;
  }

  /** A client token lets a call of a tool outside the admin namespace through exactly
      when one of the scopes stored with it matches the tool. */
  lemma ClientGate(c: Credentials, token: string, ss: seq<string>, name: string)
    requires token != c.gateway && c.lookupOk && token in c.clients && c.clients[token].enabled
    requires (forall s :: s in ss ==> Storable(s)) && c.clients[token].scopes == CommaList(ss)
    requires !HasPrefix(name, ADMIN_PREFIX)
    ensures Resolved(c, token).Some?
    ensures var who := Resolved(c, token).value;
            GateFor(name, who.role, who.scopes).Pass? <==> exists s :: s in ss && ScopeMatches(name, s)
  {
    ResolvedExactly(c, token);
    var who := Resolved(c, token).value;
    assert who.scopes == ss;
    hide ScopeMatches, Resolved, HasPrefix;
    if s :| s in ss && ScopeMatches(name, s) {
      var i :| 0 <= i < |ss| && ss[i] == s;
    }
    if i :| 0 <= i < |ss| && ScopeMatches(name, ss[i]) { assert ss[i] in ss; }
  }

  /** Where `callTool` sends a call. */
  datatype Route = AdminCall(name: string) | UnknownAdmin | Downstream(ep: Endpoint) | NotFound

  function RouteOf(t: Tables, name: string): Route {
    if HasPrefix(name, ADMIN_PREFIX) then
      if name in ADMIN_TOOLS then AdminCall(name) else UnknownAdmin
    else
      match Found(t, name)
      case Some(ep) => Downstream(ep)
      case None => NotFound
  }

  method CallTool(t: Tables, name: string) returns (route: Route)
    ensures route == RouteOf(t, name)
    ensures HasPrefix(name, ADMIN_PREFIX) ==> route == if name in ADMIN_TOOLS then AdminCall(name) else UnknownAdmin
    ensures !HasPrefix(name, ADMIN_PREFIX) ==>
              (route == NotFound <==> NoAnswer(t, name))
              && forall k :: FirstAnswer(t, name, k) ==> route == Downstream(t.eps[k])
  {
    FoundExactly(t, name);
    hide FindsRow, NoAnswer, FirstAnswer;
    if HasPrefix(name, ADMIN_PREFIX) {
      if name in ADMIN_TOOLS {
        return AdminCall(name);
      }
      return UnknownAdmin;
    }
    var ep, conn := FindEndpoint(t, name);
    if ep.None? {
      return NotFound;
    }
    return Downstream(ep.value);
  }

  /** A call passes the gates and something answers to its name. */
  ghost predicate Callable(t: Tables, role: string, scopes: seq<string>, name: string) {
    GateFor(name, role, scopes).Pass? && (RouteOf(t, name).AdminCall? || RouteOf(t, name).Downstream?)
  }

  predicate HasName(tools: seq<Tool>, name: string) {
    exists i :: 0 <= i < |tools| && tools[i].name == name
  }

  /** The first listed tool of a name. */
  function FirstNamed(tools: seq<Tool>, name: string): Option<Tool> {
    if tools == [] then None
    else if tools[0].name == name then Some(tools[0])
    else FirstNamed(tools[1..], name)
  }

  lemma {:induction false} FirstNamedExists(tools: seq<Tool>, name: string)
    ensures FirstNamed(tools, name).Some? <==> HasName(tools, name)
  {
    if tools != [] {
      FirstNamedExists(tools[1..], name);
      if HasName(tools, name) && tools[0].name != name {
        var i :| 0 <= i < |tools| && tools[i].name == name;
        assert tools[1..][i - 1].name == name;
      }
      if HasName(tools[1..], name) {
        var i :| 0 <= i < |tools[1..]| && tools[1..][i].name == name;
        assert tools[i + 1].name == name;
      }
    }
  }

  lemma {:induction false} FirstNamedConcat(a: seq<Tool>, b: seq<Tool>, name: string)
    ensures FirstNamed(a + b, name) == if FirstNamed(a, name).Some? then FirstNamed(a, name) else FirstNamed(b, name)
  {
    if a == [] {
      assert a + b == b;
    } else {
      FirstNamedConcat(a[1..], b, name);
      assert (a + b)[1..] == a[1..] + b;
    }
  }

  /** The first listed endpoint of a name in scope is the one a call resolves to. */
  lemma {:induction false} EndpointListing(f: Float64, m: map<string, Connection>, eps: seq<Endpoint>,
                                           scopes: seq<string>, name: string)
    ensures FirstNamed(EndpointTools(f, m, eps, scopes), name)
         == if InScope(name, scopes) && Resolve(m, eps, name).Some? then
              Some(ToolOf(f, m, Resolve(m, eps, name).value))
            else None
  {
    if eps != [] {
      EndpointListing(f, m, eps[1..], scopes, name);
      var rest := EndpointTools(f, m, eps[1..], scopes);
      if Exposed(m, eps[0]) && InScope(ExposedName(m, eps[0]), scopes) {
        assert ([ToolOf(f, m, eps[0])] + rest)[1..] == rest;
      } else {
        assert [] + rest == rest;
      }
    }
  }

  lemma {:induction false} AdminListing(names: seq<string>, scopes: seq<string>, name: string)
    ensures FirstNamed(AdminToolsShown(names, scopes), name)
         == if name in names && InScope(name, scopes) then Some(BuiltInTool(name)) else None
  {
    if names != [] {
      AdminListing(names[1..], scopes, name);
      var rest := AdminToolsShown(names[1..], scopes);
      assert names == [names[0]] + names[1..];
      if InScope(names[0], scopes) {
        assert ([BuiltInTool(names[0])] + rest)[1..] == rest;
      } else {
        assert [] + rest == rest;
      }
    }
  }

  /** What the list says of a name: the first endpoint that answers to it, else the
      built-in admin tool of that name for an admin, if the scopes allow the name. */
  lemma ListedFirst(f: Float64, t: Tables, role: string, scopes: seq<string>, name: string)
    ensures FirstNamed(Listed(f, t, role, scopes), name)
         == if !InScope(name, scopes) then None
            else if Found(t, name).Some? then Some(ToolOf(f, ConnMap(t.conns), Found(t, name).value))
            else if role == "admin" && name in ADMIN_TOOLS then Some(BuiltInTool(name))
            else None
    ensures HasName(Listed(f, t, role, scopes), name) <==> FirstNamed(Listed(f, t, role, scopes), name).Some?
  {
    var m := ConnMap(t.conns);
    var admin := if role == "admin" then AdminToolsShown(ADMIN_TOOLS, scopes) else [];
    EndpointListing(f, m, t.eps, scopes, name);
    AdminListing(ADMIN_TOOLS, scopes, name);
    FirstNamedConcat(EndpointTools(f, m, t.eps, scopes), admin, name);
    FirstNamedExists(Listed(f, t, role, scopes), name);
  }

  lemma AdminNames()
    ensures forall n :: n in ADMIN_TOOLS ==> HasPrefix(n, ADMIN_PREFIX)
  {
    assert "admin_add_connection"[..6] == ADMIN_PREFIX;
    assert "admin_add_endpoint"[..6] == ADMIN_PREFIX;
    assert "admin_register_vault_secret"[..6] == ADMIN_PREFIX;
  }

  /** A name outside the admin namespace is listed exactly when a call to it passes
      both gates and finds an endpoint, and then the first tool listed under it is
      that very endpoint. */
  lemma ListCallAgreement(f: Float64, t: Tables, role: string, scopes: seq<string>, name: string)
    requires !HasPrefix(name, ADMIN_PREFIX)
    ensures HasName(Listed(f, t, role, scopes), name) <==> Callable(t, role, scopes, name)
    ensures Callable(t, role, scopes, name) ==>
              RouteOf(t, name).Downstream?
              && FirstNamed(Listed(f, t, role, scopes), name) == Some(ToolOf(f, ConnMap(t.conns), RouteOf(t, name).ep))
  {
    ListedFirst(f, t, role, scopes, name);
    AdminNames();
  }

  /** What a call by this name reaches, as the list would show it: nothing, an
      endpoint's tool, or a built-in one. */
  ghost function Reached(f: Float64, t: Tables, role: string, scopes: seq<string>, name: string): Option<Tool> {
    if !GateFor(name, role, scopes).Pass? then None
    else
      match RouteOf(t, name)
      case AdminCall(n) => Some(BuiltInTool(n))
      case Downstream(ep) => Some(ToolOf(f, ConnMap(t.conns), ep))
      case _ => None
  }

  /** An endpoint is exposed under a name of the admin namespace, within the scopes. */
  ghost predicate Shadow(t: Tables, scopes: seq<string>, name: string) {
    HasPrefix(name, ADMIN_PREFIX) && Found(t, name).Some? && InScope(name, scopes)
  }

  /** For any name the first tool listed under it is the one a call reaches, or there is
      neither, except exactly for endpoints exposed under names of the admin namespace:
      the list shows the endpoint, and a call never reaches it. */
  lemma ListCallExactly(f: Float64, t: Tables, role: string, scopes: seq<string>, name: string)
    ensures FirstNamed(Listed(f, t, role, scopes), name) == Reached(f, t, role, scopes, name)
            <==> !Shadow(t, scopes, name)
  {
    ListedFirst(f, t, role, scopes, name);
    AdminNames();
  }

  /** As to whether there is one at all, they disagree exactly where such an endpoint
      does not hide a built-in tool the client can call. */
  lemma ListedIffCallable(f: Float64, t: Tables, role: string, scopes: seq<string>, name: string)
    ensures (HasName(Listed(f, t, role, scopes), name) <==> Callable(t, role, scopes, name))
            <==> !(Shadow(t, scopes, name) && (role != "admin" || name !in ADMIN_TOOLS))
  {
    ListedFirst(f, t, role, scopes, name);
    AdminNames();
  }

  /** A store with one endpoint, exposed under this name. */
  function Lone(name: string): Tables {
    Tables([Connection("c", "", "", "", "", "", true, "")],
           [Endpoint("e", "c", name, "", "/", "GET", "", "", NoHash, 0)])
  }

  lemma LoneFound(name: string)
    ensures Found(Lone(name), name) == Some(Lone(name).eps[0])
  {
    var conns := Lone(name).conns;
    assert conns[..0] == [] && ConnMap(conns) == map["c" := conns[0]];
    assert "" + name == name;
  }

  lemma StarAllows(name: string)
    ensures InScope(name, ["*"])
  {
    assert name[..0] == [] && ScopeMatches(name, ["*"][0]);
  }

  /** An admin is shown the endpoint under the name of a built-in tool first, and calls
      the built-in one; under any other admin name the endpoint is shown and nothing
      answers. */
  lemma ShadowExample(f: Float64)
    ensures var name := "admin_add_endpoint";
            FirstNamed(Listed(f, Lone(name), "admin", ["*"]), name)
            == Some(ToolOf(f, ConnMap(Lone(name).conns), Lone(name).eps[0]))
            && Reached(f, Lone(name), "admin", ["*"], name) == Some(BuiltInTool(name))
    ensures var name := "admin_x";
            FirstNamed(Listed(f, Lone(name), "admin", ["*"]), name)
            == Some(ToolOf(f, ConnMap(Lone(name).conns), Lone(name).eps[0]))
            && Reached(f, Lone(name), "admin", ["*"], name) == None
  {
    OneShadow(f, "admin_add_endpoint");
    OneShadow(f, "admin_x");
    ExampleNames();
    hide *;
  }

  lemma ExampleNames()
    ensures "admin_add_endpoint" in ADMIN_TOOLS && HasPrefix("admin_add_endpoint", ADMIN_PREFIX)
    ensures "admin_x" !in ADMIN_TOOLS && HasPrefix("admin_x", ADMIN_PREFIX)
  {
    assert "admin_add_endpoint" == ADMIN_TOOLS[1];
    assert "admin_add_endpoint"[..6] == ADMIN_PREFIX && "admin_x"[..6] == ADMIN_PREFIX;
    assert forall n :: n in ADMIN_TOOLS ==> |n| > 7;
  }

  lemma OneShadow(f: Float64, name: string)
    ensures FirstNamed(Listed(f, Lone(name), "admin", ["*"]), name)
         == Some(ToolOf(f, ConnMap(Lone(name).conns), Lone(name).eps[0]))
    ensures HasPrefix(name, ADMIN_PREFIX) ==>
              Reached(f, Lone(name), "admin", ["*"], name) == if name in ADMIN_TOOLS then Some(BuiltInTool(name))
                   else None
  {
    LoneFound(name);
    StarAllows(name);
    ListedFirst(f, Lone(name), "admin", ["*"], name);
    hide Found, InScope, Listed, Lone;
  }

  lemma {:induction false} BuiltInShown(names: seq<string>, scopes: seq<string>, name: string)
    ensures BuiltInTool(name) in AdminToolsShown(names, scopes) <==> name in names && InScope(name, scopes)
  {
    if names != [] { BuiltInShown(names[1..], scopes, name); }
  }

  lemma {:induction false} NoBuiltIn(f: Float64, m: map<string, Connection>, eps: seq<Endpoint>,
                                     scopes: seq<string>, name: string)
    ensures BuiltInTool(name) !in EndpointTools(f, m, eps, scopes)
  {
    if eps != [] { NoBuiltIn(f, m, eps[1..], scopes, name); }
  }

  /** A built-in admin tool is listed exactly when a call to it passes both gates, and
      then the call reaches it, whatever endpoints there are. */
  lemma AdminToolsAgree(f: Float64, t: Tables, role: string, scopes: seq<string>, name: string)
    requires name in ADMIN_TOOLS
    ensures BuiltInTool(name) in Listed(f, t, role, scopes) <==> GateFor(name, role, scopes).Pass?
    ensures GateFor(name, role, scopes).Pass? ==> Reached(f, t, role, scopes, name) == Some(BuiltInTool(name))
  {
    NoBuiltIn(f, ConnMap(t.conns), t.eps, scopes, name);
    BuiltInShown(ADMIN_TOOLS, scopes, name);
    AdminNames();
    hide EndpointTools, AdminToolsShown, InScope, Found;
  }

  /** The administrative handler runs only for the admin role. */
  lemma AdminReachedOnlyByAdmin(t: Tables, role: string, scopes: seq<string>, name: string)
    requires GateFor(name, role, scopes).Pass? && (RouteOf(t, name).AdminCall? || RouteOf(t, name).UnknownAdmin?)
    ensures role == "admin"
  {
  }

  ghost predicate MoreScopes(a: seq<string>, b: seq<string>) {
    forall s :: s in a ==> s in b
  }

  lemma ScopeMonotone(tool: string, a: seq<string>, b: seq<string>)
    requires MoreScopes(a, b) && InScope(tool, a)
    ensures InScope(tool, b)
  {
    var i :| 0 <= i < |a| && ScopeMatches(tool, a[i]);
    assert a[i] in a;
    var j :| 0 <= j < |b| && b[j] == a[i];
  }

  lemma {:induction false} EndpointToolsGrow(f: Float64, m: map<string, Connection>, eps: seq<Endpoint>,
                                             a: seq<string>, b: seq<string>)
    requires MoreScopes(a, b)
    ensures Subsequence(EndpointTools(f, m, eps, a), EndpointTools(f, m, eps, b))
  {
    if eps != [] {
      EndpointToolsGrow(f, m, eps[1..], a, b);
      var x, y := EndpointTools(f, m, eps[1..], a), EndpointTools(f, m, eps[1..], b);
      assert [] + x == x && [] + y == y;
      if Exposed(m, eps[0]) {
        var name := ExposedName(m, eps[0]);
        if InScope(name, a) {
          ScopeMonotone(name, a, b);
          SubsequenceTake(ToolOf(f, m, eps[0]), x, y);
        } else {
          SubsequenceSkip(x, ToolOf(f, m, eps[0]), y);
        }
      }
    }
  }

  lemma {:induction false} AdminToolsGrow(names: seq<string>, a: seq<string>, b: seq<string>)
    requires MoreScopes(a, b)
    ensures Subsequence(AdminToolsShown(names, a), AdminToolsShown(names, b))
  {
    if names != [] {
      AdminToolsGrow(names[1..], a, b);
      var x, y := AdminToolsShown(names[1..], a), AdminToolsShown(names[1..], b);
      assert [] + x == x && [] + y == y;
      if InScope(names[0], a) {
        ScopeMonotone(names[0], a, b);
        SubsequenceTake(BuiltInTool(names[0]), x, y);
      } else {
        SubsequenceSkip(x, BuiltInTool(names[0]), y);
      }
    }
  }

  /** Adding scopes never removes a tool or reorders the list, and never closes a gate. */
  lemma ScopesOnlyAdd(f: Float64, t: Tables, role: string, a: seq<string>, b: seq<string>, name: string)
    requires MoreScopes(a, b)
    ensures Subsequence(Listed(f, t, role, a), Listed(f, t, role, b))
    ensures GateFor(name, role, a).Pass? ==> GateFor(name, role, b).Pass?
  {
    var m := ConnMap(t.conns);
    EndpointToolsGrow(f, m, t.eps, a, b);
    AdminToolsGrow(ADMIN_TOOLS, a, b);
    var x := if role == "admin" then AdminToolsShown(ADMIN_TOOLS, a) else [];
    var y := if role == "admin" then AdminToolsShown(ADMIN_TOOLS, b) else [];
    SubsequenceConcat(EndpointTools(f, m, t.eps, a), EndpointTools(f, m, t.eps, b), x, y);
    if InScope(name, a) { ScopeMonotone(name, a, b); }
  }

  // ------------------------------------------------------------ strict pinning

  /** Whether strict pinning refuses a call. */
  ghost predicate ReportedChanged(f: Float64, t: Tables, name: string) {
    !HasPrefix(name, ADMIN_PREFIX) && Found(t, name).Some?
    && Changed(f, Found(t, name).value.definitionHash, Definition(Found(t, name).value, name))
  }

  method ToolDefinitionChanged(f: Float64, t: Tables, name: string) returns (changed: bool)
    ensures changed <==> ReportedChanged(f, t, name)
  {
    if HasPrefix(name, ADMIN_PREFIX) {
      return false;
    }
    var ep, conn := FindEndpoint(t, name);
    if ep.None? {
      return false;
    }
    if ep.value.definitionHash == NoHash {
      return false;
    }
    var live := ComputeHash(f, Definition(ep.value, name));
    return live != ep.value.definitionHash;
  }

  /** The prefix of the connection a name resolves through. */
  function PrefixOf(t: Tables, name: string): string
    requires Found(t, name).Some?
  {
    ConnMap(t.conns)[Found(t, name).value.connectionId].toolPrefix
  }

  /** The stored hash covers the bare tool name and the check the exposed one, so a
      row as `SaveEndpoint` left it is reported changed exactly when its connection
      has a prefix: with strict pinning, every tool under a prefix is refused and no
      untouched tool without one is. */
  lemma PinAgreesExactly(f: Float64, t: Tables, name: string)
    requires Float64Text(f) && !HasPrefix(name, ADMIN_PREFIX)
    requires Found(t, name).Some? && VersionHistory.Pinned(f, Found(t, name).value)
    ensures ReportedChanged(f, t, name) <==> PrefixOf(t, name) != ""
  {
    var ep, prefix := Found(t, name).value, PrefixOf(t, name);
    assert name == prefix + ep.toolName;
    HashExact(f, Definition(ep, ep.toolName), Definition(ep, name));
    assert |name| == |prefix| + |ep.toolName|;
  }

  /** Whatever was saved and deleted since a table of rows that were unpinned or pinned
      themselves, a tool under a connection without prefix is never reported changed. */
  lemma SavedNeverChanged(f: Float64, cascade: bool, t: Tables, ops: seq<Op>, name: string)
    requires Float64Text(f) && Consistent(t) && forall row :: row in t.eps ==> VersionHistory.SoundPin(f, row)
    requires var end := PlainRun(f, cascade, t, ops); Found(end, name).Some? && PrefixOf(end, name) == ""
    ensures !ReportedChanged(f, PlainRun(f, cascade, t, ops), name)
  {
    var end := PlainRun(f, cascade, t, ops);
    var ep := Found(end, name).value;
    VersionHistory.RunConsistent(f, cascade, t, ops);
    FindMember(end.eps, ep);
    VersionHistory.PinsStaySound(f, cascade, t, ops, ep.id);
    if !HasPrefix(name, ADMIN_PREFIX) && ep.definitionHash != NoHash {
      PinAgreesExactly(f, end, name);
    }
  }

  lemma {:induction false} FindMember(eps: seq<Endpoint>, ep: Endpoint)
    requires UniqueIds(EndpointId, eps) && ep in eps
    ensures Find(EndpointId, eps, ep.id) == Some(ep)
  {
    if eps[0] != ep {
      var i :| 0 <= i < |eps| && eps[i] == ep;
      assert EndpointId(eps[0]) != EndpointId(eps[i]);
      assert eps[1..][i - 1] == ep;
      FindMember(eps[1..], ep);
    }
  }

  /** A changed definition under a connection without prefix is refused, and only that:
      a pinned row whose fields were altered behind the store's back is reported
      exactly when its behaviour-relevant content differs. */
  lemma TamperingDetected(f: Float64, t: Tables, name: string, approved: Endpoint)
    requires Float64Text(f) && !HasPrefix(name, ADMIN_PREFIX)
    requires Found(t, name).Some? && PrefixOf(t, name) == ""
    requires Found(t, name).value.definitionHash == OwnHash(f, approved)
    ensures ReportedChanged(f, t, name) <==>
              !SameDefinition(f, Definition(approved, approved.toolName), Definition(Found(t, name).value, name))
  {
    PinDetectsExactly(f, Definition(approved, approved.toolName), Definition(Found(t, name).value, name));
  }
}
