/** One `tools/call` from request to response (pkg/mcp/server.go): gates, strict
    pinning, redaction on the way in and out, execution, and the audit entry. The
    downstream API, the admin handler and the text of some errors belong to the
    environment; the store may change between the pin check and the call. */
module McpServer {
  import opened Text
  import opened Json
  import opened Store
  import opened Auth
  import opened McpTools
  import opened McpAudit
  import opened Redaction
  import ToolIntegrity
  import ToolNames

  /** A panic in the downstream call or the admin handler is recovered by the HTTP
      server, which drops the connection. */
  datatype Executed = Output(text: string) | Error(message: string) | Panicked

  datatype Environment = Environment(
    execute: (Route, map<string, Value>) -> Executed,
    notFound: string -> string,
    storeError: string)

  /** A refusal with its code, an error (code -32603), the text of the result, or nothing. */
  datatype Response = Rejected(code: int) | Failure(message: string) | Content(text: string) | Aborted

  const METHOD_NOT_FOUND := -32601
  const DEFINITION_CHANGED := -32001

  // ------------------------------------------------------------ what a call should do

  /** Whether the gates and strict pinning refuse, judged on the store as read first. */
  ghost function Refusal(f: Float64, strict: bool, env: Environment, t: Option<Tables>, who: Identity,
                         name: string): Option<Response> {
    if !GateFor(name, who.role, who.scopes).Pass? then Some(Rejected(METHOD_NOT_FOUND))
    else if !strict || HasPrefix(name, ADMIN_PREFIX) then None
    else if t.None? then Some(Failure(env.storeError))
    else if ReportedChanged(f, t.value, name) then Some(Rejected(DEFINITION_CHANGED))
    else None
  }

  /** The arguments that leave the gateway. */
  ghost function Forwarded(r: Option<Redactor>, args: map<string, Value>): map<string, Value> {
    if r.Some? then (map k | k in args :: Redacted(r.value, args[k])) else args
  }

  /** What comes back from execution, on the store as read then. */
  ghost function AnswerOf(env: Environment, t: Option<Tables>, name: string, args: map<string, Value>): Executed {
    if HasPrefix(name, ADMIN_PREFIX) then
      env.execute(if name in ADMIN_TOOLS then AdminCall(name) else UnknownAdmin, args)
    else if t.None? then Error(env.storeError)
    else
      match Found(t.value, name)
      case None => Error(env.notFound(name))
      case Some(ep) => env.execute(Downstream(ep), args)
  }

  /** What the client sees of it: results masked, error texts as they are. */
  ghost function Reply(r: Option<Redactor>, answer: Executed): Response {
    match answer
    case Error(message) => Failure(message)
    case Output(text) => Content(if r.Some? then CleanText(r.value, text) else text)
    case Panicked => Aborted
  }

  ghost predicate ReportsIf(on: bool, findings: seq<Finding>, tally: string -> nat) {
    if on then Reports(findings, tally) else findings == []
  }

  ghost function ArgumentTally(r: Option<Redactor>, args: map<string, Value>): string -> nat {
    if r.Some? then WalkTally(r.value, Obj(args)) else _ => 0
  }

  ghost function ResultTally(r: Option<Redactor>, answer: Executed): string -> nat {
    if r.Some? && answer.Output? then TextTally(r.value, answer.text) else _ => 0
  }

  /** The summary in the audit entry: the findings in the arguments, then those in
      the result. */
  ghost predicate Summarises(summary: string, r: Option<Redactor>, args: map<string, Value>, answer: Executed) {
    exists inArgs, inResult ::
      summary == Summary(inArgs + inResult)
      && ReportsIf(r.Some? && args != map[], inArgs, ArgumentTally(r, args))
      && ReportsIf(r.Some? && answer.Output?, inResult, ResultTally(r, answer))
  }

  lemma SummaryIs(summary: string, r: Option<Redactor>, args: map<string, Value>, answer: Executed,
                  inArgs: seq<Finding>, inResult: seq<Finding>)
    requires summary == Summary(inArgs + inResult)
    requires ReportsIf(r.Some? && args != map[], inArgs, ArgumentTally(r, args))
    requires ReportsIf(r.Some? && answer.Output?, inResult, ResultTally(r, answer))
    ensures Summarises(summary, r, args, answer)
  {
  }

  function OutcomeOf(answer: Executed, summary: string): Outcome {
    Outcome(answer.Output?, if answer.Error? then answer.message else [], summary)
  }

  /** The counter and the audit queue, as a handler finds or leaves them. */
  datatype Level = Level(capacity: nat, active: int, queue: seq<Entry>)

  /** A call as it comes in. */
  datatype Request = Request(call: nat, who: Identity, name: string, args: map<string, Value>)

  /** What handling a request comes to: refused, it leaves everything as it was.
      Otherwise only masked arguments go out, the response is what the client may see of
      the answer, the counter is back where it was, and one entry is sent; a panic sends
      none and leaves the counter raised. */
  ghost predicate Handled(f: Float64, strict: bool, r: Option<Redactor>, env: Environment,
                          before: Option<Tables>, during: Option<Tables>, req: Request,
                          found: Level, left: Level, resp: Response) {
    var refusal := Refusal(f, strict, env, before, req.who, req.name);
    var answer := AnswerOf(env, during, req.name, Forwarded(r, req.args));
    if refusal.Some? then resp == refusal.value && left == found
    else if answer.Panicked? then resp == Aborted && left == found.(active := found.active + 1)
    else resp == Reply(r, answer) && Entered(r, req, answer, found, left)
  }

  ghost predicate Entered(r: Option<Redactor>, req: Request, answer: Executed, found: Level, left: Level) {
    exists summary ::
      Summarises(summary, r, req.args, answer)
      && left == found.(queue := Sent(found.queue, found.capacity,
                                      Entry(req.call, req.who.name, req.name, OutcomeOf(answer, summary))))
  }

  // ------------------------------------------------------------ what that comes to

  /** These arguments may leave the gateway for those: without a redactor the same; with
      one, wherever a path leads, the same shape and every text masked. */
  ghost predicate MaskedArguments(r: Option<Redactor>, args: map<string, Value>, sent: map<string, Value>) {
    if r.None? then sent == args else MaskedThroughout(r.value, Obj(args), Obj(sent))
  }

  lemma ForwardedExactly(r: Option<Redactor>, args: map<string, Value>, sent: map<string, Value>)
    ensures MaskedArguments(r, args, sent) <==> sent == Forwarded(r, args)
  {
    if r.Some? {
      assert Redacted(r.value, Obj(args)) == Obj(Forwarded(r, args));
      RedactedExactly(r.value, Obj(args), Obj(sent));
    }
    hide MaskedThroughout, Redacted;
  }

  /** How the execution of these arguments comes to end so, told from the rows: the admin
      handler for a name of its namespace, otherwise the first endpoint that answers. */
  ghost predicate Executes(env: Environment, t: Option<Tables>, name: string, sent: map<string, Value>,
                           answer: Executed) {
    if HasPrefix(name, ADMIN_PREFIX) then
      answer == env.execute(if name in ADMIN_TOOLS then AdminCall(name) else UnknownAdmin, sent)
    else if t.None? then answer == Error(env.storeError)
    else
      (NoAnswer(t.value, name) ==> answer == Error(env.notFound(name)))
      && forall k :: FirstAnswer(t.value, name, k) ==> answer == env.execute(Downstream(t.value.eps[k]), sent)
  }

  lemma ExecutesAnswer(env: Environment, t: Option<Tables>, name: string, sent: map<string, Value>)
    ensures Executes(env, t, name, sent, AnswerOf(env, t, name, sent))
  {
    if t.Some? { FoundExactly(t.value, name); }
    hide FirstAnswer, NoAnswer, Found;
  }

  /** What the client gets: the masked text of a result, the text of an error as it is,
      nothing after a panic. */
  ghost predicate Replies(r: Option<Redactor>, answer: Executed, resp: Response) {
    (forall text :: answer == Output(text) ==>
       (r.None? ==> resp == Content(text)) && (r.Some? ==> resp == Content(CleanText(r.value, text))))
    && (forall message :: answer == Error(message) ==> resp == Failure(message))
    && (answer.Panicked? ==> resp == Aborted)
  }

  /** The entry is about this request and says whether the client got content, and if not,
      the error it got. */
  ghost predicate Tells(e: Entry, req: Request, resp: Response) {
    e.call == req.call && e.identity == req.who.name && e.tool == req.name
    && (e.outcome.ok <==> resp.Content?)
    && (resp.Failure? ==> e.outcome.errMsg == resp.message) && (resp.Content? ==> e.outcome.errMsg == [])
  }

  /** The summary lists the classes masked in the arguments, then those masked in the
      result, with counts that add up over all texts of the arguments and in the result. */
  ghost predicate Counts(summary: string, r: Option<Redactor>, args: map<string, Value>, answer: Executed) {
    exists inArgs, inResult ::
      summary == Summary(inArgs + inResult) && forall c :: CountsClass(inArgs, inResult, r, args, answer, c)
  }

  ghost predicate CountsClass(inArgs: seq<Finding>, inResult: seq<Finding>, r: Option<Redactor>,
                              args: map<string, Value>, answer: Executed, c: string) {
    SumOf(inArgs, c) == (if r.Some? then SumHits(r.value, Leaves(Obj(args)), c) else 0)
    && SumOf(inResult, c) == if r.Some? && answer.Output? then TextTally(r.value, answer.text)(c) else 0
  }

  lemma SummaryCounts(summary: string, r: Option<Redactor>, args: map<string, Value>, answer: Executed)
    requires Summarises(summary, r, args, answer)
    ensures Counts(summary, r, args, answer)
  {
    var inArgs, inResult :|
      summary == Summary(inArgs + inResult)
      && ReportsIf(r.Some? && args != map[], inArgs, ArgumentTally(r, args))
      && ReportsIf(r.Some? && answer.Output?, inResult, ResultTally(r, answer));
    forall c ensures CountsClass(inArgs, inResult, r, args, answer, c) {
      ArgumentSum(inArgs, r, args, c);
      ResultSum(inResult, r, answer, c);
    }
    hide CountsClass, Summary, ReportsIf;
  }

  lemma ArgumentSum(inArgs: seq<Finding>, r: Option<Redactor>, args: map<string, Value>, c: string)
    requires ReportsIf(r.Some? && args != map[], inArgs, ArgumentTally(r, args))
    ensures SumOf(inArgs, c) == if r.Some? then SumHits(r.value, Leaves(Obj(args)), c) else 0
  {
    if r.Some? {
      TotalOverLeaves(r.value, Obj(args), c);
      if args != map[] { ReportSum(inArgs, ArgumentTally(r, args), c); }
    }
    hide SumHits, Leaves, Reports;
  }

  lemma ResultSum(inResult: seq<Finding>, r: Option<Redactor>, answer: Executed, c: string)
    requires ReportsIf(r.Some? && answer.Output?, inResult, ResultTally(r, answer))
    ensures SumOf(inResult, c) == if r.Some? && answer.Output? then TextTally(r.value, answer.text)(c) else 0
  {
    if r.Some? && answer.Output? { ReportSum(inResult, ResultTally(r, answer), c); }
    hide Reports, TextTally;
  }

  /** The request ran: masked arguments were executed, and what was left follows. */
  ghost predicate Ran(r: Option<Redactor>, env: Environment, during: Option<Tables>, req: Request,
                      found: Level, left: Level, resp: Response) {
    exists sent, answer ::
      MaskedArguments(r, req.args, sent) && Executes(env, during, req.name, sent, answer)
      && Replies(r, answer, resp)
      && (if answer.Panicked? then left == found.(active := found.active + 1)
          else exists e ::
            Tells(e, req, resp) && Counts(e.outcome.redaction, r, req.args, answer)
            && left == found.(queue := if |found.queue| < found.capacity then found.queue + [e] else found.queue))
  }

  /** The refusals and their codes, in the order in which they are made. */
  ghost predicate Refuses(f: Float64, strict: bool, env: Environment, t: Option<Tables>, who: Identity,
                          name: string, refusal: Option<Response>) {
    var admin := HasPrefix(name, ADMIN_PREFIX);
    if (admin && who.role != "admin") || !InScope(name, who.scopes) then refusal == Some(Rejected(-32601))
    else if strict && !admin && t.None? then refusal == Some(Failure(env.storeError))
    else if strict && !admin && PinnedOtherwise(f, t.value, name) then refusal == Some(Rejected(-32001))
    else refusal.None?
  }

  /** The first endpoint that answers to the name is stored with a hash other than that of
      its definition under this name. */
  ghost predicate PinnedOtherwise(f: Float64, t: Tables, name: string) {
    exists k ::
      FirstAnswer(t, name, k) && t.eps[k].definitionHash != ToolIntegrity.NoHash
      && var ep := t.eps[k];
         var live := ToolIntegrity.ToolDef(name, ep.toolDescription, ep.verb, ep.path, ep.parametersSchema);
         ep.definitionHash != ToolIntegrity.Hash(f, live)
  }

  lemma PinnedOtherwiseExactly(f: Float64, t: Tables, name: string)
    requires !HasPrefix(name, ADMIN_PREFIX)
    ensures ReportedChanged(f, t, name) <==> PinnedOtherwise(f, t, name)
  {
    FoundExactly(t, name);
    hide FirstAnswer, NoAnswer, Found, ToolIntegrity.Hash;
  }

  lemma RefusalExactly(f: Float64, strict: bool, env: Environment, t: Option<Tables>, who: Identity, name: string)
    ensures Refuses(f, strict, env, t, who, name, Refusal(f, strict, env, t, who, name))
  {
    if t.Some? && !HasPrefix(name, ADMIN_PREFIX) { PinnedOtherwiseExactly(f, t.value, name); }
    hide InScope, ReportedChanged, PinnedOtherwise, HasPrefix;
  }

  /** A request is refused, with its code and nothing else touched, exactly when a gate or
      strict pinning refuses it. Any other runs: only masked arguments reach execution, the
      client gets the masked result or the error, and one entry is sent that is marked ok
      exactly when the client got content; a panic leaves the counter raised and no entry. */
  lemma HandledExactly(f: Float64, strict: bool, r: Option<Redactor>, env: Environment,
                       before: Option<Tables>, during: Option<Tables>, req: Request,
                       found: Level, left: Level, resp: Response)
    requires Handled(f, strict, r, env, before, during, req, found, left, resp)
    ensures exists refusal ::
              Refuses(f, strict, env, before, req.who, req.name, refusal)
              && if refusal.Some? then resp == refusal.value && left == found
                 else Ran(r, env, during, req, found, left, resp)
  {
    RefusalExactly(f, strict, env, before, req.who, req.name);
    var refusal := Refusal(f, strict, env, before, req.who, req.name);
    hide Refuses, Refusal, Ran;
    if refusal.None? { RanExactly(f, strict, r, env, before, during, req, found, left, resp); }
  }

  lemma RanExactly(f: Float64, strict: bool, r: Option<Redactor>, env: Environment,
                   before: Option<Tables>, during: Option<Tables>, req: Request,
                   found: Level, left: Level, resp: Response)
    requires Handled(f, strict, r, env, before, during, req, found, left, resp)
    requires Refusal(f, strict, env, before, req.who, req.name).None?
    ensures Ran(r, env, during, req, found, left, resp)
  {
    var sent := Forwarded(r, req.args);
    var answer := AnswerOf(env, during, req.name, sent);
    ForwardedExactly(r, req.args, sent);
    ExecutesAnswer(env, during, req.name, sent);
    RepliesReply(r, answer);
    hide Refusal, MaskedArguments, Executes, Forwarded, AnswerOf, Summarises, Reply, Replies;
    if !answer.Panicked? {
      var summary :| Summarises(summary, r, req.args, answer)
                     && left == found.(queue := Sent(found.queue, found.capacity,
                                                     Entry(req.call, req.who.name, req.name,
                                                          OutcomeOf(answer, summary))));
      TellsOutcome(r, req, answer, summary);
      SummaryCounts(summary, r, req.args, answer);
      hide Counts, Tells;
    }
  }

  lemma RepliesReply(r: Option<Redactor>, answer: Executed)
    ensures Replies(r, answer, Reply(r, answer))
  {
  }

  lemma TellsOutcome(r: Option<Redactor>, req: Request, answer: Executed, summary: string)
    requires !answer.Panicked?
    ensures Tells(Entry(req.call, req.who.name, req.name, OutcomeOf(answer, summary)), req, Reply(r, answer))
  {
  }

  /** Masked arguments reveal nothing of what was masked: two requests that differ only
      there are executed with the same arguments and get the same response, and if they
      mask each class equally often they leave the same counter and audit queue. */
  lemma ArgumentsHidden(f: Float64, strict: bool, r: Redactor, env: Environment,
                        before: Option<Tables>, during: Option<Tables>, req: Request, args: map<string, Value>,
                        found: Level, left: Level, left': Level, resp: Response, resp': Response)
    requires Handled(f, strict, Some(r), env, before, during, req, found, left, resp)
    requires Handled(f, strict, Some(r), env, before, during, req.(args := args), found, left', resp')
    requires DifferOnlyMasked(r, Obj(req.args), Obj(args))
    ensures Forwarded(Some(r), req.args) == Forwarded(Some(r), args) && resp == resp'
    ensures (forall c :: Total(r, Obj(req.args), c) == Total(r, Obj(args), c)) ==> left == left'
  {
    SameForwarded(r, req.args, args);
    var answer := AnswerOf(env, during, req.name, Forwarded(Some(r), req.args));
    hide Refusal, AnswerOf, Forwarded, DifferOnlyMasked, Reply, OutcomeOf, Summarises, Sent;
    if Refusal(f, strict, env, before, req.who, req.name).None? && !answer.Panicked?
       && forall c :: Total(r, Obj(req.args), c) == Total(r, Obj(args), c) {
      var s :| Summarises(s, Some(r), req.args, answer)
               && left == found.(queue := Sent(found.queue, found.capacity,
                                               Entry(req.call, req.who.name, req.name, OutcomeOf(answer, s))));
      var s' :| Summarises(s', Some(r), args, answer)
                && left' == found.(queue := Sent(found.queue, found.capacity,
                                                 Entry(req.call, req.who.name, req.name, OutcomeOf(answer, s'))));
      SummaryHidesValues(Some(r), s, req.args, answer, s', args, answer);
    }
  }

  lemma SameForwarded(r: Redactor, args: map<string, Value>, args': map<string, Value>)
    requires DifferOnlyMasked(r, Obj(args), Obj(args'))
    ensures Forwarded(Some(r), args) == Forwarded(Some(r), args')
    ensures args == map[] <==> args' == map[]
  {
    MaskedAlikeExactly(r, Obj(args), Obj(args'));
    assert Redacted(r, Obj(args)) == Obj(Forwarded(Some(r), args));
    assert Redacted(r, Obj(args')) == Obj(Forwarded(Some(r), args'));
    assert Forwarded(Some(r), args).Keys == args.Keys && Forwarded(Some(r), args').Keys == args'.Keys;
    hide DifferOnlyMasked, Redacted;
  }

  /** With a rule that masks all of any text, execution is not handed the text. */
  lemma NothingForwarded(r: Redactor)
    requires r.enabled && r.rules == [Everything()]
    ensures Forwarded(Some(r), map["note" := Str("k1")]) == map["note" := Str("[REDACTED:secret]")]
  {
    CleanedAway(r, "k1");
    hide CleanText;
    assert Redacted(r, Str("k1")) == Str(CleanText(r, "k1"));
    assert Tag("secret") == "[REDACTED:secret]";
  }

  // ------------------------------------------------------------ the handler

  class Server {
    const strict: bool
    const redactor: Option<Redactor>
    const pipeline: Pipeline

    constructor (strict: bool, redactor: Option<Redactor>, pipeline: Pipeline)
      ensures this.strict == strict && this.redactor == redactor && this.pipeline == pipeline
    {
      this.strict := strict;
      this.redactor := redactor;
      this.pipeline := pipeline;
    }

    /** The role and scope gates, then strict pinning. */
    method Refuse(f: Float64, env: Environment, t: Option<Tables>, who: Identity, name: string)
      returns (refusal: Option<Response>)
      ensures refusal == Refusal(f, strict, env, t, who, name)
    {
      var gate := CheckGates(name, who.role, who.scopes);
      if gate != Pass {
        return Some(Rejected(METHOD_NOT_FOUND));
      }
      if strict && !HasPrefix(name, ADMIN_PREFIX) {
        if t.None? {
          return Some(Failure(env.storeError));
        }
        var changed := ToolDefinitionChanged(f, t.value, name);
        if changed {
          return Some(Rejected(DEFINITION_CHANGED));
        }
      }
      return None;
    }

    ghost function Now(): Level
      reads pipeline
    {
      Level(pipeline.capacity, pipeline.active, pipeline.queue)
    }

    method Execute(env: Environment, t: Option<Tables>, name: string, args: map<string, Value>)
      returns (answer: Executed)
      ensures answer == AnswerOf(env, t, name, args)
    {
      if HasPrefix(name, ADMIN_PREFIX) {
        return env.execute(if name in ADMIN_TOOLS then AdminCall(name) else UnknownAdmin, args);
      }
      if t.None? {
        return Error(env.storeError);
      }
      var ep, conn := FindEndpoint(t.value, name);
      if ep.None? {
        return Error(env.notFound(name));
      }
      return env.execute(Downstream(ep.value), args);
    }

    /** `before` is the store as the pin check reads it, `during` as the call does. */
    method HandleToolsCall(f: Float64, env: Environment, before: Option<Tables>, during: Option<Tables>, req: Request)
      returns (resp: Response)
      modifies pipeline`active, pipeline`queue
      ensures Handled(f, strict, redactor, env, before, during, req, old(Now()), Now(), resp)
    {
      hide Summarises, AnswerOf, Reply, Forwarded, Refusal, ReportsIf, ArgumentTally, ResultTally;
      var refusal := Refuse(f, env, before, req.who, req.name);
      if refusal.Some? {
        return refusal.value;
      }
      var forwarded, inArgs := MaskArguments(req.args);
      pipeline.AddActive(1);
      var answer := Execute(env, during, req.name, forwarded);
      if answer.Panicked? {
        return Aborted;
      }
      pipeline.AddActive(-1);
      var inResult;
      resp, inResult := MaskResult(answer);
      var summary := FormatFindings(inArgs + inResult);
      SummaryIs(summary, redactor, req.args, answer, inArgs, inResult);
      var accepted := pipeline.LogAuditAsync(Entry(req.call, req.who.name, req.name, OutcomeOf(answer, summary)));
    }

    method MaskArguments(args: map<string, Value>) returns (forwarded: map<string, Value>, findings: seq<Finding>)
      ensures forwarded == Forwarded(redactor, args) && MaskedArguments(redactor, args, forwarded)
      ensures ReportsIf(redactor.Some? && args != map[], findings, ArgumentTally(redactor, args))
    {
      ForwardedExactly(redactor, args, Forwarded(redactor, args));
      hide MaskedArguments;
      if redactor.None? || args == map[] {
        return args, [];
      }
      var masked;
      masked, findings := redactor.value.RedactMap(args);
      forwarded := masked.m;
    }

    method MaskResult(answer: Executed) returns (resp: Response, findings: seq<Finding>)
      ensures resp == Reply(redactor, answer) && Replies(redactor, answer, resp)
      ensures ReportsIf(redactor.Some? && answer.Output?, findings, ResultTally(redactor, answer))
    {
      match answer
      case Panicked =>
        return Aborted, [];
      case Error(message) =>
        return Failure(message), [];
      case Output(text) =>
        if redactor.None? {
          return Content(text), [];
        }
        var clean;
        clean, findings := redactor.value.RedactBytes(text);
        resp := Content(clean);
    }
  }

  // ------------------------------------------------------------ the summary

  function Part(finding: Finding): string {
    finding.cls + ("=" + ToolNames.Decimal(finding.count))
  }

  function Parts(findings: seq<Finding>): (parts: seq<string>)
    ensures |parts| == |findings|
    ensures forall i :: 0 <= i < |findings| ==> parts[i] == Part(findings[i])
  {
    seq(|findings|, i requires 0 <= i < |findings| => Part(findings[i]))
  }

  function Summary(findings: seq<Finding>): string {
    CommaList(Parts(findings))
  }

  method FormatFindings(findings: seq<Finding>) returns (summary: string)
    ensures summary == Summary(findings)
  {
    if |findings| == 0 {
      return [];
    }
    var parts: seq<string> := [];
    for i := 0 to |findings|
      invariant |parts| == i && forall k :: 0 <= k < i ==> parts[k] == Part(findings[k])
    {
      parts := parts + [findings[i].cls + ("=" + ToolNames.Decimal(findings[i].count))];
    }
    assert parts == Parts(findings);
    summary := CommaList(parts);
  }

  function ReadPart(part: string): Finding
  {
    var pieces := Split('=', part);
    var n := if |pieces| > 1 then ToolNames.DecimalValue(pieces[1]) else 0;
    Finding(pieces[0], if n >= 0 then n else 0)
  }

  function ReadParts(parts: seq<string>): seq<Finding> {
    if parts == [] then [] else [ReadPart(parts[0])] + ReadParts(parts[1..])
  }

  /** Reading a summary back. */
  function ReadSummary(summary: string): seq<Finding> {
    if summary == [] then [] else ReadParts(Split(',', summary))
  }

  predicate PlainClass(cls: string) {
    Avoids(cls, ',') && Avoids(cls, '=')
  }

  lemma DecimalAvoids(n: nat)
    ensures Avoids(ToolNames.Decimal(n), ',') && Avoids(ToolNames.Decimal(n), '=')
  {
    assert forall c :: c in ToolNames.Decimal(n) ==> '0' <= c <= '9';
  }

  lemma PartReads(finding: Finding)
    requires PlainClass(finding.cls)
    ensures ReadPart(Part(finding)) == finding
    ensures Avoids(Part(finding), ',') && Part(finding) != []
  {
    var n := ToolNames.Decimal(finding.count);
    DecimalAvoids(finding.count);
    ToolNames.DecimalRoundTrip(finding.count);
    SplitPair('=', finding.cls, n);
  }

  lemma SplitPair(d: char, a: string, b: string)
    requires Avoids(a, d) && Avoids(b, d)
    ensures Split(d, a + ([d] + b)) == [a, b]
  {
    SplitWithout(d, a);
    SplitWithout(d, b);
    SplitStep(d, d, b);
    SplitConcat(d, a, [d] + b);
    assert a + [] == a;
  }

  /** The audit summary says exactly which classes were masked how often. */
  lemma {:induction false} SummaryReads(findings: seq<Finding>)
    requires forall i :: 0 <= i < |findings| ==> PlainClass(findings[i].cls)
    ensures ReadSummary(Summary(findings)) == findings
  {
    if findings != [] {
      SummaryStep(findings);
      var first, rest := findings[0], findings[1..];
      PartReads(first);
      assert findings == [first] + rest;
      if rest == [] {
        SplitWithout(',', Part(first));
        assert ReadParts([Part(first)]) == [ReadPart(Part(first))] + ReadParts([]);
      } else {
        SummaryReads(rest);
        SummaryNotEmpty(rest);
        ListSplit(Part(first), Summary(rest));
        var more := Split(',', Summary(rest));
        assert ([Part(first)] + more)[1..] == more;
      }
    }
  }

  lemma SummaryStep(findings: seq<Finding>)
    requires findings != []
    ensures Summary(findings)
         == if |findings| == 1 then Part(findings[0]) else Part(findings[0]) + ("," + Summary(findings[1..]))
  {
    assert Parts(findings)[1..] == Parts(findings[1..]);
  }

  lemma SummaryNotEmpty(findings: seq<Finding>)
    requires findings != []
    ensures Summary(findings) != []
  {
    SummaryStep(findings);
  }

  /** A report is determined by the tally. */
  lemma ReportsUnique(a: seq<Finding>, b: seq<Finding>, tally: string -> nat)
    requires Reports(a, tally) && Reports(b, tally)
    ensures a == b
  {
    var x, y := Classes(a), Classes(b);
    forall c ensures c in x <==> c in y {
      ReportedIff(a, tally, c);
      ReportedIff(b, tally, c);
    }
    assert Elements(x) == Elements(y);
    SortedUnique(x, y);
  }

  function Classes(findings: seq<Finding>): (classes: seq<string>)
    ensures |classes| == |findings|
    ensures forall i :: 0 <= i < |findings| ==> classes[i] == findings[i].cls
  {
    seq(|findings|, i requires 0 <= i < |findings| => findings[i].cls)
  }

  lemma ReportedIff(findings: seq<Finding>, tally: string -> nat, c: string)
    requires Reports(findings, tally)
    ensures c in Classes(findings) <==> tally(c) > 0
  {
    if tally(c) > 0 {
      var i :| 0 <= i < |findings| && findings[i].cls == c;
      assert Classes(findings)[i] == c;
    }
  }

  /** The same classes are masked equally often in the arguments and in the result. */
  ghost predicate SameTallies(r: Option<Redactor>, args: map<string, Value>, answer: Executed,
                              args': map<string, Value>, answer': Executed) {
    (args == map[] <==> args' == map[]) && (answer.Output? <==> answer'.Output?)
    && (forall c :: ArgumentTally(r, args)(c) == ArgumentTally(r, args')(c))
    && (forall c :: ResultTally(r, answer)(c) == ResultTally(r, answer')(c))
  }

  /** The audit summary carries nothing of the masked values: calls that mask the same
      classes equally often leave the same summary, whatever the values were. */
  lemma SummaryHidesValues(r: Option<Redactor>, s: string, args: map<string, Value>, answer: Executed,
                           s': string, args': map<string, Value>, answer': Executed)
    requires Summarises(s, r, args, answer) && Summarises(s', r, args', answer')
    requires SameTallies(r, args, answer, args', answer')
    ensures s == s'
  {
    hide ArgumentTally, ResultTally, Reports, Summary;
    var inArgs, inResult :|
      s == Summary(inArgs + inResult)
      && ReportsIf(r.Some? && args != map[], inArgs, ArgumentTally(r, args))
      && ReportsIf(r.Some? && answer.Output?, inResult, ResultTally(r, answer));
    var inArgs', inResult' :|
      s' == Summary(inArgs' + inResult')
      && ReportsIf(r.Some? && args' != map[], inArgs', ArgumentTally(r, args'))
      && ReportsIf(r.Some? && answer'.Output?, inResult', ResultTally(r, answer'));
    if r.Some? && args != map[] {
      ReportsCongruent(inArgs', ArgumentTally(r, args'), ArgumentTally(r, args));
      ReportsUnique(inArgs, inArgs', ArgumentTally(r, args));
    }
    if r.Some? && answer.Output? {
      ReportsCongruent(inResult', ResultTally(r, answer'), ResultTally(r, answer));
      ReportsUnique(inResult, inResult', ResultTally(r, answer));
    }
  }

  lemma ReportsCongruent(findings: seq<Finding>, tally: string -> nat, same: string -> nat)
    requires Reports(findings, tally) && forall c :: tally(c) == same(c)
    ensures Reports(findings, same)
  {
  }

  // ------------------------------------------------------------ what still shows

  function TextOf(answer: Executed): string {
    match answer
    case Output(text) => text
    case Error(message) => message
    case Panicked => []
  }

  ghost predicate SameKind(a: Executed, b: Executed) {
    (a.Output? && b.Output?) || (a.Error? && b.Error?)
  }

  /** Redaction turns both texts into the same one and counts the same in them. */
  ghost predicate MasksAlike(r: Redactor, a: string, b: string) {
    CleanText(r, a) == CleanText(r, b) && forall c :: TextTally(r, a)(c) == TextTally(r, b)(c)
  }

  /** Answers that differ only in what redaction masks are told apart by the response or
      the audit entry exactly when they are different errors: results are masked, error
      texts are not. */
  lemma DisclosedExactly(r: Redactor, a: Executed, b: Executed, summary: string)
    requires SameKind(a, b) && MasksAlike(r, TextOf(a), TextOf(b))
    ensures Reply(Some(r), a) == Reply(Some(r), b) <==> a.Output? || a == b
    ensures OutcomeOf(a, summary) == OutcomeOf(b, summary) <==> a.Output? || a == b
  {
    hide MasksAlike, TextTally;
    assert CleanText(r, TextOf(a)) == CleanText(r, TextOf(b)) by { AlikeText(r, TextOf(a), TextOf(b)); }
  }

  lemma AlikeText(r: Redactor, a: string, b: string)
    requires MasksAlike(r, a, b)
    ensures CleanText(r, a) == CleanText(r, b)
  {
  }

  lemma AlikeTallies(r: Redactor, args: map<string, Value>, a: Executed, b: Executed)
    requires SameKind(a, b) && MasksAlike(r, TextOf(a), TextOf(b))
    ensures SameTallies(Some(r), args, a, args, b)
  {
  }

  /** One request handled in two environments whose answers differ only in what
      redaction masks: the client, the counter and the audit queue see the same in both
      exactly when the answers are results or the same error. */
  lemma HandledAlikeExactly(f: Float64, strict: bool, r: Redactor, env: Environment, env': Environment,
                            before: Option<Tables>, during: Option<Tables>, req: Request,
                            found: Level, left: Level, left': Level, resp: Response, resp': Response)
    requires Handled(f, strict, Some(r), env, before, during, req, found, left, resp)
    requires Handled(f, strict, Some(r), env', before, during, req, found, left', resp')
    requires Refusal(f, strict, env, before, req.who, req.name).None?
    requires Refusal(f, strict, env', before, req.who, req.name).None?
    requires var a, b := AnswerOf(env, during, req.name, Forwarded(Some(r), req.args)),
                         AnswerOf(env', during, req.name, Forwarded(Some(r), req.args));
             SameKind(a, b) && MasksAlike(r, TextOf(a), TextOf(b))
    ensures var a, b := AnswerOf(env, during, req.name, Forwarded(Some(r), req.args)),
                        AnswerOf(env', during, req.name, Forwarded(Some(r), req.args));
            resp == resp' && left == left' <==> a.Output? || a == b
  {
    var a, b := AnswerOf(env, during, req.name, Forwarded(Some(r), req.args)),
                AnswerOf(env', during, req.name, Forwarded(Some(r), req.args));
    hide Refusal, AnswerOf, Forwarded, MasksAlike, Reply, OutcomeOf, Summarises, Sent, TextOf;
    var s :| Summarises(s, Some(r), req.args, a)
             && left == found.(queue := Sent(found.queue, found.capacity,
                                             Entry(req.call, req.who.name, req.name, OutcomeOf(a, s))));
    var s' :| Summarises(s', Some(r), req.args, b)
              && left' == found.(queue := Sent(found.queue, found.capacity,
                                               Entry(req.call, req.who.name, req.name, OutcomeOf(b, s'))));
    AlikeTallies(r, req.args, a, b);
    SummaryHidesValues(Some(r), s, req.args, a, s', req.args, b);
    DisclosedExactly(r, a, b, s);
  }

  /** Entries of calls that mask alike differ exactly when they report different errors. */
  lemma EntryDisclosesExactly(r: Option<Redactor>, s: string, args: map<string, Value>, answer: Executed,
                              s': string, args': map<string, Value>, answer': Executed)
    requires SameKind(answer, answer')
    requires Summarises(s, r, args, answer) && Summarises(s', r, args', answer')
    requires SameTallies(r, args, answer, args', answer')
    ensures OutcomeOf(answer, s) == OutcomeOf(answer', s') <==> answer.Output? || answer == answer'
  {
    SummaryHidesValues(r, s, args, answer, s', args', answer');
    hide Summarises, SameTallies;
  }

  /** A rule that masks all of any text. */
  function Everything(): Rule {
    Detector("secret", (text: string) => [Match(0, |text|, 0, 0)], (text: string) => true, None)
  }

  lemma AllMasked(text: string)
    ensures Masked(text, Everything()) == Tag("secret") && |Redaction.Accepted(text, Everything())| == 1
  {
    var m := Match(0, |text|, 0, 0);
    assert [m][1..] == [];
    assert Picked(text, Everything(), [], |text|) == [];
    assert Redaction.Accepted(text, Everything()) == [m] + [] == [m];
    assert text[0..0] == [] && text[|text|..] == [];
    assert Spliced(text, Everything(), [m], 0) == text[0..0] + Tag("secret") + Spliced(text, Everything(), [], |text|);
  }

  /** With a rule that leaves nothing of any text, two results are the same to the
      client, and two errors reach it word for word. */
  lemma ErrorTextShows(r: Redactor)
    requires r.enabled && r.rules == [Everything()]
    ensures MasksAlike(r, "k1", "k2")
    ensures Reply(Some(r), Output("k1")) == Reply(Some(r), Output("k2"))
    ensures Reply(Some(r), Error("k1")) == Failure("k1")
    ensures Reply(Some(r), Error("k1")) != Reply(Some(r), Error("k2"))
  {
    CleanedAway(r, "k1");
    CleanedAway(r, "k2");
    hide CleanText, TextTally;
    assert "k1"[1] != "k2"[1];
  }

  lemma CleanedAway(r: Redactor, text: string)
    requires r.enabled && r.rules == [Everything()]
    ensures CleanText(r, text) == Tag("secret")
    ensures forall c :: TextTally(r, text)(c) == if c == "secret" then 1 else 0
  {
    AllMasked(text);
    RulesStep(r.rules, 0, text);
    assert r.rules[0..] == r.rules && r.rules[1..] == [];
    hide Masked, Redaction.Accepted;
  }

  // ------------------------------------------------------------ the handler as a run

  /** How the execution of a call ends. */
  datatype Ending = Finishes(outcome: Outcome) | Breaks

  /** The steps a handler takes for one call. */
  function StepsOf(call: nat, who: Identity, name: string, pinned: bool, ending: Ending): seq<Step> {
    match ending
    case Finishes(outcome) => [Arrive(who, name, pinned), Start(call), Return(call, outcome), Report(call)]
    case Breaks => [Arrive(who, name, pinned), Start(call), Panic(call)]
  }

  lemma RunStep(s: System, first: Step, rest: seq<Step>)
    ensures Run(s, [first] + rest) == Run(Apply(s, first), rest)
    ensures Run(s, []) == s
  {
    assert ([first] + rest)[1..] == rest;
  }

  lemma ThreeSteps(s: System, a: Step, b: Step, c: Step)
    ensures Run(s, [a, b, c]) == Apply(Apply(Apply(s, a), b), c)
  {
    hide *;
    assert [a, b, c] == [a] + ([b] + ([c] + []));
    var s1 := Apply(s, a);
    var s2 := Apply(s1, b);
    RunStep(s, a, [b] + ([c] + []));
    RunStep(s1, b, [c] + []);
    RunStep(s2, c, []);
    RunStep(Apply(s2, c), c, []);
  }

  lemma FourSteps(s: System, a: Step, b: Step, c: Step, d: Step)
    ensures Run(s, [a, b, c, d]) == Apply(Apply(Apply(Apply(s, a), b), c), d)
  {
    hide *;
    assert [a, b, c, d] == [a] + [b, c, d];
    RunStep(s, a, [b, c, d]);
    ThreeSteps(Apply(s, a), b, c, d);
  }

  /** What the steps leave: nothing changed for a refused call, the entry sent for one
      that finishes, the counter raised for one that panics. */
  lemma StepsLeave(s: System, who: Identity, name: string, pinned: bool, ending: Ending)
    ensures var call := |s.calls|;
            var end := Run(s, StepsOf(call, who, name, pinned, ending));
            if !Passes(who, name, pinned) then end.active == s.active && end.queue == s.queue
            else
              match ending
              case Finishes(outcome) =>
                end.active == s.active
                && end.queue == Sent(s.queue, s.capacity, Entry(call, who.name, name, outcome))
              case Breaks => end.active == s.active + 1 && end.queue == s.queue
  {
    var call := |s.calls|;
    match ending
    case Finishes(outcome) =>
      FourSteps(s, Arrive(who, name, pinned), Start(call), Return(call, outcome), Report(call));
      hide Passes, Sent, Run;
    case Breaks =>
      ThreeSteps(s, Arrive(who, name, pinned), Start(call), Panic(call));
      hide Passes, Sent, Run;
  }

  /** Strict pinning does not let the call pass. */
  ghost predicate PinRefuses(f: Float64, strict: bool, t: Option<Tables>, name: string) {
    strict && !HasPrefix(name, ADMIN_PREFIX) && (t.None? || ReportedChanged(f, t.value, name))
  }

  lemma RefusalIsGate(f: Float64, strict: bool, env: Environment, t: Option<Tables>, who: Identity, name: string)
    ensures Refusal(f, strict, env, t, who, name).None? <==> Passes(who, name, PinRefuses(f, strict, t, name))
  {
    hide ReportedChanged;
  }

  /** Whatever `HandleToolsCall` may do by its contract, the steps of the interleaved
      model taken without interruption do to the counter and the queue. */
  lemma HandlerIsRun(f: Float64, strict: bool, r: Option<Redactor>, env: Environment,
                     before: Option<Tables>, during: Option<Tables>, req: Request,
                     found: Level, left: Level, resp: Response, s: System)
    requires Handled(f, strict, r, env, before, during, req, found, left, resp)
    requires req.call == |s.calls| && found == Level(s.capacity, s.active, s.queue)
    ensures exists ending ::
              var end := Run(s, StepsOf(req.call, req.who, req.name, PinRefuses(f, strict, before, req.name), ending));
              left.active == end.active && left.queue == end.queue
  {
    RefusalIsGate(f, strict, env, before, req.who, req.name);
    var answer := AnswerOf(env, during, req.name, Forwarded(r, req.args));
    hide Refusal, AnswerOf, Forwarded, Reply, Summarises, PinRefuses, Passes, StepsOf, Run, Sent;
    var pinned := PinRefuses(f, strict, before, req.name);
    var ending := Breaks;
    if Passes(req.who, req.name, pinned) && !answer.Panicked? {
      var summary :| Summarises(summary, r, req.args, answer)
                     && left == found.(queue := Sent(found.queue, found.capacity,
                                                     Entry(req.call, req.who.name, req.name,
                                                          OutcomeOf(answer, summary))));
      ending := Finishes(OutcomeOf(answer, summary));
    }
    StepsLeave(s, req.who, req.name, pinned, ending);
  }
}
