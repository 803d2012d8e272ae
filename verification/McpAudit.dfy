/** The audit pipeline and the in-flight counter under interleaving
    (pkg/mcp/server.go): any number of request handlers run `tools/call`, offering
    audit entries to a bounded queue that one worker drains into the database. */
module McpAudit {
  import opened Text
  import opened Auth
  import opened McpTools

  /** How an execution ended: the error text of a failure, and the summary of what
      redaction masked. */
  datatype Outcome = Outcome(ok: bool, errMsg: string, redaction: string)

  /** An audit record; `call` identifies the request it is about. */
  datatype Entry = Entry(call: nat, identity: string, tool: string, outcome: Outcome)

  /** Where a handler is: refused by a gate, past the gates, inside `callTool`,
      ended by a panic there, returned from it, or done with its audit entry offered. */
  datatype Phase =
    | Refused
    | Gated
    | Executing
    | Panicked
    | Returned(outcome: Outcome)
    | Reported(outcome: Outcome)

  datatype Call = Call(identity: string, tool: string, phase: Phase)

  datatype Offer = Offer(entry: Entry, accepted: bool)

  datatype Write = Write(entry: Entry, ok: bool)

  /** `offers` and `writes` are the history of the sends and of the database writes. */
  datatype System = System(
    capacity: nat,
    calls: seq<Call>,
    active: int,
    queue: seq<Entry>,
    held: Option<Entry>,
    offers: seq<Offer>,
    writes: seq<Write>)

  datatype Step =
    | Arrive(who: Identity, tool: string, pinned: bool)
    | Start(call: nat)
    | Return(call: nat, outcome: Outcome)
    | Panic(call: nat)
    | Report(call: nat)
    | Receive
    | Persist(ok: bool)

  // ------------------------------------------------------------ the shared state of the server

  const AUDIT_CAPACITY := 1000

  function Sent(queue: seq<Entry>, capacity: nat, e: Entry): seq<Entry> {
    if |queue| < capacity then queue + [e] else queue
  }

  class Pipeline {
    const capacity: nat
    var active: int
    var queue: seq<Entry>
    var held: Option<Entry>

    constructor ()
      ensures capacity == AUDIT_CAPACITY && active == 0 && queue == [] && held == None
    {
      capacity := AUDIT_CAPACITY;
      active := 0;
      queue := [];
      held := None;
    }

    method AddActive(delta: int)
      modifies this`active
      ensures active == old(active) + delta
    {
      active := active + delta;
    }

    /** Never blocks: a full queue drops the entry. */
    method LogAuditAsync(entry: Entry) returns (accepted: bool)
      modifies this`queue
      ensures queue == Sent(old(queue), capacity, entry)
      ensures accepted <==> |old(queue)| < capacity
    {
      if |queue| < capacity {
        queue := queue + [entry];
        return true;
      }
      return false;
    }

    /** The worker takes the next entry, if it is idle and one is waiting. */
    method WorkerReceive()
      modifies this`queue, this`held
      ensures if old(held).None? && old(queue) != [] then held == Some(old(queue)[0]) && queue == old(queue)[1..]
              else held == old(held) && queue == old(queue)
    {
      if held.None? && queue != [] {
        held := Some(queue[0]);
        queue := queue[1..];
      }
    }
  }

  // ------------------------------------------------------------ steps

  function SetPhase(s: System, i: nat, phase: Phase): System
    requires i < |s.calls|
  {
    s.(calls := s.calls[i := s.calls[i].(phase := phase)])
  }

  /** The gates: the role and scope checks, and strict pinning when it refuses. */
  ghost predicate Passes(who: Identity, tool: string, pinned: bool) {
    GateFor(tool, who.role, who.scopes).Pass? && !pinned
  }

  /** One step; a step that is not enabled changes nothing. */
  ghost function Apply(s: System, step: Step): System {
    match step
    case Arrive(who, tool, pinned) =>
      s.(calls := s.calls + [Call(who.name, tool, if Passes(who, tool, pinned) then Gated else Refused)])
    case Start(i) =>
      if i < |s.calls| && s.calls[i].phase.Gated? then SetPhase(s, i, Executing).(active := s.active + 1) else s
    case Return(i, outcome) =>
      if i < |s.calls| && s.calls[i].phase.Executing? then
        SetPhase(s, i, Returned(outcome)).(active := s.active - 1)
      else s
    case Panic(i) =>
      if i < |s.calls| && s.calls[i].phase.Executing? then SetPhase(s, i, Panicked) else s
    case Report(i) =>
      if i < |s.calls| && s.calls[i].phase.Returned? then
        var Call(identity, tool, Returned(outcome)) := s.calls[i];
        var e := Entry(i, identity, tool, outcome);
        SetPhase(s, i, Reported(outcome)).(
          queue := Sent(s.queue, s.capacity, e),
          offers := s.offers + [Offer(e, |s.queue| < s.capacity)])
      else s
    case Receive =>
      if s.held.None? && s.queue != [] then s.(held := Some(s.queue[0]), queue := s.queue[1..]) else s
    case Persist(ok) =>
      if s.held.Some? then s.(held := None, writes := s.writes + [Write(s.held.value, ok)]) else s
  }

  ghost function Run(s: System, steps: seq<Step>): System
    decreases |steps|
  {
    if steps == [] then s else Run(Apply(s, steps[0]), steps[1..])
  }

  /** The handlers and the worker, going through the pipeline. The history of sends and
      writes is ghost. */
  class Handlers {
    const pipeline: Pipeline
    var calls: seq<Call>
    ghost var offers: seq<Offer>
    ghost var writes: seq<Write>

    constructor ()
      ensures fresh(pipeline) && Initial(State()) && State().capacity == AUDIT_CAPACITY
    {
      pipeline := new Pipeline();
      calls, offers, writes := [], [], [];
    }

    ghost function State(): System
      reads this, pipeline
    {
      System(pipeline.capacity, calls, pipeline.active, pipeline.queue, pipeline.held, offers, writes)
    }

    method Arrive(who: Identity, tool: string, pinned: bool) returns (call: nat)
      modifies this`calls
      ensures State() == Apply(old(State()), Step.Arrive(who, tool, pinned))
      ensures call < |calls| && (calls[call].phase == Gated <==> Passes(who, tool, pinned))
    {
      var gate := CheckGates(tool, who.role, who.scopes);
      call := |calls|;
      calls := calls + [Call(who.name, tool, if gate == Pass && !pinned then Gated else Refused)];
    }

    method Start(i: nat)
      requires i < |calls| && calls[i].phase.Gated?
      modifies this`calls, pipeline`active
      ensures State() == Apply(old(State()), Step.Start(i))
    {
      calls := calls[i := calls[i].(phase := Executing)];
      pipeline.AddActive(1);
    }

    method Return(i: nat, outcome: Outcome)
      requires i < |calls| && calls[i].phase.Executing?
      modifies this`calls, pipeline`active
      ensures State() == Apply(old(State()), Step.Return(i, outcome))
    {
      pipeline.AddActive(-1);
      calls := calls[i := calls[i].(phase := Returned(outcome))];
    }

    /** The panic unwinds the handler past the decrement and the audit entry. */
    method Panic(i: nat)
      requires i < |calls| && calls[i].phase.Executing?
      modifies this`calls
      ensures State() == Apply(old(State()), Step.Panic(i))
    {
      calls := calls[i := calls[i].(phase := Panicked)];
    }

    method Report(i: nat)
      requires i < |calls| && calls[i].phase.Returned?
      modifies this`calls, this`offers, pipeline`queue
      ensures State() == Apply(old(State()), Step.Report(i))
    {
      var Call(identity, tool, Returned(outcome)) := calls[i];
      var e := Entry(i, identity, tool, outcome);
      var accepted := pipeline.LogAuditAsync(e);
      offers := offers + [Offer(e, accepted)];
      calls := calls[i := calls[i].(phase := Reported(outcome))];
    }

    method Receive()
      modifies pipeline`queue, pipeline`held
      ensures State() == Apply(old(State()), Step.Receive)
    {
      pipeline.WorkerReceive();
    }

    method Persist(ok: bool)
      modifies this`writes, pipeline`held
      ensures State() == Apply(old(State()), Step.Persist(ok))
    {
      if pipeline.held.Some? {
        writes := writes + [Write(pipeline.held.value, ok)];
        pipeline.held := None;
      }
    }
  }

  // ------------------------------------------------------------ what every run keeps

  function CountExecuting(calls: seq<Call>): nat {
    if calls == [] then 0
    else CountExecuting(calls[..|calls| - 1]) + if calls[|calls| - 1].phase.Executing? then 1 else 0
  }

  function CountPanicked(calls: seq<Call>): nat {
    if calls == [] then 0
    else CountPanicked(calls[..|calls| - 1]) + if calls[|calls| - 1].phase.Panicked? then 1 else 0
  }

  /** The calls the counter counts: nothing takes it back down after a panic. */
  function CountRaised(calls: seq<Call>): nat {
    CountExecuting(calls) + CountPanicked(calls)
  }

  predicate Raised(phase: Phase) { phase.Executing? || phase.Panicked? }

  function Accepted(offers: seq<Offer>): seq<Entry> {
    if offers == [] then []
    else
      var n := |offers| - 1;
      Accepted(offers[..n]) + if offers[n].accepted then [offers[n].entry] else []
  }

  function Dropped(offers: seq<Offer>): seq<Entry> {
    if offers == [] then []
    else
      var n := |offers| - 1;
      Dropped(offers[..n]) + if offers[n].accepted then [] else [offers[n].entry]
  }

  function WrittenEntries(writes: seq<Write>): (es: seq<Entry>)
    ensures |es| == |writes|
    ensures forall i :: 0 <= i < |writes| ==> es[i] == writes[i].entry
  {
    seq(|writes|, i requires 0 <= i < |writes| => writes[i].entry)
  }

  function Persisted(writes: seq<Write>, ok: bool): seq<Entry> {
    if writes == [] then []
    else
      var n := |writes| - 1;
      Persisted(writes[..n], ok) + if writes[n].ok == ok then [writes[n].entry] else []
  }

  function Held(s: System): seq<Entry> {
    if s.held.Some? then [s.held.value] else []
  }

  function Offered(offers: seq<Offer>): (es: seq<Entry>)
    ensures |es| == |offers|
    ensures forall i :: 0 <= i < |offers| ==> es[i] == offers[i].entry
  {
    seq(|offers|, i requires 0 <= i < |offers| => offers[i].entry)
  }

  /** The number of entries offered for a call. */
  function OffersOf(offers: seq<Offer>, call: nat): nat {
    if offers == [] then 0
    else
      var n := |offers| - 1;
      OffersOf(offers[..n], call) + if offers[n].entry.call == call then 1 else 0
  }

  /** An entry says whose call it was, of which tool, and how it ended. */
  ghost predicate Truthful(calls: seq<Call>, e: Entry) {
    e.call < |calls| && calls[e.call] == Call(e.identity, e.tool, Reported(e.outcome))
  }

  ghost predicate Audited(s: System) {
    && s.active == CountRaised(s.calls)
    && |s.queue| <= s.capacity
    && Accepted(s.offers) == WrittenEntries(s.writes) + Held(s) + s.queue
    && (forall k :: 0 <= k < |s.offers| ==> Truthful(s.calls, s.offers[k].entry))
    && (forall i :: 0 <= i < |s.calls| ==> OffersOf(s.offers, i) == if s.calls[i].phase.Reported? then 1 else 0)
  }

  ghost predicate Initial(s: System) {
    s.calls == [] && s.active == 0 && s.queue == [] && s.held == None && s.offers == [] && s.writes == []
  }

  lemma {:induction false} CountAt(calls: seq<Call>, i: nat, call: Call)
    requires i < |calls|
    ensures CountRaised(calls[i := call])
         == CountRaised(calls) - (if Raised(calls[i].phase) then 1 else 0) + (if Raised(call.phase) then 1 else 0)
  {
    var n := |calls| - 1;
    if i < n {
      assert calls[i := call][..n] == calls[..n][i := call];
      CountAt(calls[..n], i, call);
    } else {
      assert calls[i := call][..n] == calls[..n];
    }
  }

  lemma CountAppend(calls: seq<Call>, call: Call)
    ensures CountRaised(calls + [call]) == CountRaised(calls) + if Raised(call.phase) then 1 else 0
  {
    assert (calls + [call])[..|calls|] == calls;
  }

  lemma OfferAppend(offers: seq<Offer>, o: Offer)
    ensures Accepted(offers + [o]) == if o.accepted then Accepted(offers) + [o.entry] else Accepted(offers)
    ensures Dropped(offers + [o]) == if o.accepted then Dropped(offers) else Dropped(offers) + [o.entry]
    ensures forall i :: OffersOf(offers + [o], i) == OffersOf(offers, i) + if o.entry.call == i then 1 else 0
  {
    assert (offers + [o])[..|offers|] == offers;
    assert Accepted(offers) + [] == Accepted(offers) && Dropped(offers) + [] == Dropped(offers);
  }

  lemma {:induction false} NoOffers(s: System, i: nat)
    requires forall k :: 0 <= k < |s.offers| ==> s.offers[k].entry.call != i
    ensures OffersOf(s.offers, i) == 0
    decreases |s.offers|
  {
    if s.offers != [] { NoOffers(s.(offers := s.offers[..|s.offers| - 1]), i); }
  }

  lemma ArriveKeeps(s: System, who: Identity, tool: string, pinned: bool)
    requires Audited(s)
    ensures Audited(Apply(s, Arrive(who, tool, pinned)))
  {
    hide Passes, CountRaised, Accepted, OffersOf;
    var s' := Apply(s, Arrive(who, tool, pinned));
    CountAppend(s.calls, s'.calls[|s.calls|]);
    forall k | 0 <= k < |s.offers| ensures Truthful(s'.calls, s.offers[k].entry)
         && s.offers[k].entry.call != |s.calls| {
      assert Truthful(s.calls, s.offers[k].entry);
    }
    NoOffers(s, |s.calls|);
  }

  lemma PhaseKeeps(s: System, s': System, i: nat, phase: Phase)
    requires Audited(s) && i < |s.calls|
    requires !s.calls[i].phase.Reported? && !phase.Reported?
    requires s' == SetPhase(s, i, phase).(active := s'.active)
    requires s'.active == s.active - (if Raised(s.calls[i].phase) then 1 else 0) + (if Raised(phase) then 1 else 0)
    ensures Audited(s')
  {
    CountAt(s.calls, i, s.calls[i].(phase := phase));
    hide CountRaised, Accepted, OffersOf, Raised;
    forall k | 0 <= k < |s.offers| ensures Truthful(s'.calls, s.offers[k].entry) {
      assert Truthful(s.calls, s.offers[k].entry);
    }
  }

  /** What a report does: it marks the call, offers its entry and sends it if there is room. */
  lemma ReportStep(s: System, i: nat)
    requires i < |s.calls| && s.calls[i].phase.Returned?
    ensures var s' := Apply(s, Report(i));
            var Call(identity, tool, Returned(outcome)) := s.calls[i];
            var e := Entry(i, identity, tool, outcome);
            && s'.calls == s.calls[i := Call(identity, tool, Reported(outcome))]
            && s'.offers == s.offers + [Offer(e, |s.queue| < s.capacity)]
            && s'.queue == (if |s.queue| < s.capacity then s.queue + [e] else s.queue)
            && s'.active == s.active && s'.capacity == s.capacity && s'.held == s.held && s'.writes == s.writes
  {
  }

  lemma ReportTruthful(s: System, i: nat)
    requires Audited(s) && i < |s.calls| && s.calls[i].phase.Returned?
    ensures var s' := Apply(s, Report(i));
            forall k :: 0 <= k < |s'.offers| ==> Truthful(s'.calls, s'.offers[k].entry)
  {
    ReportStep(s, i);
    hide Apply, CountRaised, Accepted, OffersOf;
    var s' := Apply(s, Report(i));
    forall k | 0 <= k < |s'.offers| ensures Truthful(s'.calls, s'.offers[k].entry) {
      if k < |s.offers| { assert Truthful(s.calls, s.offers[k].entry); }
    }
  }

  lemma ReportCounts(s: System, i: nat)
    requires Audited(s) && i < |s.calls| && s.calls[i].phase.Returned?
    ensures var s' := Apply(s, Report(i));
            s'.active == CountRaised(s'.calls)
            && forall j :: 0 <= j < |s'.calls| ==>
                 OffersOf(s'.offers, j) == if s'.calls[j].phase.Reported? then 1 else 0
  {
    ReportStep(s, i);
    hide *;
    hide Apply;
    var s' := Apply(s, Report(i));
    CountAt(s.calls, i, s'.calls[i]);
    forall j | 0 <= j < |s'.calls| ensures OffersOf(s'.offers, j) == if s'.calls[j].phase.Reported? then 1 else 0 {
      OfferAppend(s.offers, s'.offers[|s.offers|]);
      OffersAudited(s, j);
    }
    ActiveAudited(s);
  }

  lemma OffersAudited(s: System, j: nat)
    requires Audited(s) && j < |s.calls|
    ensures OffersOf(s.offers, j) == if s.calls[j].phase.Reported? then 1 else 0
  {
  }

  lemma ActiveAudited(s: System)
    requires Audited(s)
    ensures s.active == CountRaised(s.calls)
    ensures Accepted(s.offers) == WrittenEntries(s.writes) + Held(s) + s.queue
  {
  }

  lemma ReportAccepted(s: System, i: nat)
    requires Audited(s) && i < |s.calls| && s.calls[i].phase.Returned?
    ensures var s' := Apply(s, Report(i));
            Accepted(s'.offers) == WrittenEntries(s'.writes) + Held(s') + s'.queue
  {
    ReportStep(s, i);
    HeldSame(s, Apply(s, Report(i)));
    hide *;
    var s' := Apply(s, Report(i));
    var o := s'.offers[|s.offers|];
    ActiveAudited(s);
    OfferAppend(s.offers, o);
    Assoc(WrittenEntries(s.writes) + Held(s), s.queue, [o.entry]);
  }

  lemma HeldSame(s: System, s': System)
    requires s.held == s'.held
    ensures Held(s) == Held(s')
  {
  }

  lemma ReportKeeps(s: System, i: nat)
    requires Audited(s) && i < |s.calls| && s.calls[i].phase.Returned?
    ensures Audited(Apply(s, Report(i)))
  {
    ReportTruthful(s, i);
    ReportCounts(s, i);
    ReportAccepted(s, i);
    ReportStep(s, i);
    hide Apply, CountRaised, OffersOf, Truthful, Accepted;
  }

  lemma WorkerKeeps(s: System, step: Step)
    requires Audited(s) && (step.Receive? || step.Persist?)
    ensures Audited(Apply(s, step))
  {
    hide CountRaised, Accepted, OffersOf;
    var s' := Apply(s, step);
    if step.Receive? && s.held.None? && s.queue != [] {
      assert s.queue == [s.queue[0]] + s.queue[1..];
    }
    if step.Persist? && s.held.Some? {
      assert WrittenEntries(s'.writes) == WrittenEntries(s.writes) + [s.held.value];
    }
    assert WrittenEntries(s'.writes) + Held(s') + s'.queue == WrittenEntries(s.writes) + Held(s) + s.queue;
  }

  lemma StepKeepsAudited(s: System, step: Step)
    requires Audited(s)
    ensures Audited(Apply(s, step)) && Apply(s, step).capacity == s.capacity
  {
    hide Audited, CountRaised, Passes;
    match step
    case Arrive(who, tool, pinned) => ArriveKeeps(s, who, tool, pinned);
    case Start(i) =>
      if i < |s.calls| && s.calls[i].phase.Gated? { PhaseKeeps(s, Apply(s, step), i, Executing); }
    case Return(i, outcome) =>
      if i < |s.calls| && s.calls[i].phase.Executing? { PhaseKeeps(s, Apply(s, step), i, Returned(outcome)); }
    case Panic(i) =>
      if i < |s.calls| && s.calls[i].phase.Executing? { PhaseKeeps(s, Apply(s, step), i, Panicked); }
    case Report(i) =>
      if i < |s.calls| && s.calls[i].phase.Returned? { ReportKeeps(s, i); }
    case _ => WorkerKeeps(s, step);
  }

  lemma {:induction false} RunKeepsAudited(s: System, steps: seq<Step>)
    requires Audited(s)
    ensures Audited(Run(s, steps)) && Run(s, steps).capacity == s.capacity
    decreases |steps|
  {
    if steps != [] {
      StepKeepsAudited(s, steps[0]);
      RunKeepsAudited(Apply(s, steps[0]), steps[1..]);
    }
  }

  lemma InitialAudited(s: System)
    requires Initial(s)
    ensures Audited(s)
  {
    assert WrittenEntries(s.writes) + Held(s) + s.queue == [];
  }

  lemma {:induction false} OffersPartition(offers: seq<Offer>)
    ensures |offers| == |Accepted(offers)| + |Dropped(offers)|
  {
    if offers != [] { OffersPartition(offers[..|offers| - 1]); }
  }

  lemma {:induction false} WritesPartition(writes: seq<Write>)
    ensures |writes| == |Persisted(writes, true)| + |Persisted(writes, false)|
  {
    if writes != [] { WritesPartition(writes[..|writes| - 1]); }
  }

  /** Over all interleavings every entry offered is, at any moment, exactly one of:
      dropped, queued, held by the worker, written, or failed to be written. */
  lemma Conservation(s: System, steps: seq<Step>)
    requires Initial(s)
    ensures var end := Run(s, steps);
            |end.offers| == |Dropped(end.offers)| + |end.queue| + |Held(end)|
                            + |Persisted(end.writes, true)| + |Persisted(end.writes, false)|
  {
    InitialAudited(s);
    RunKeepsAudited(s, steps);
    var end := Run(s, steps);
    OffersPartition(end.offers);
    WritesPartition(end.writes);
  }

  lemma {:induction false} NoPanicCount(calls: seq<Call>)
    ensures CountPanicked(calls) == 0 <==> forall i :: 0 <= i < |calls| ==> !calls[i].phase.Panicked?
  {
    if calls != [] { NoPanicCount(calls[..|calls| - 1]); }
  }

  /** The counter is the number of calls in flight plus that of the executions a panic
      ended, so it is the number in flight exactly when none panicked. The queue stays
      within bounds. */
  lemma ActiveIsInFlight(s: System, steps: seq<Step>)
    requires Initial(s)
    ensures var end := Run(s, steps);
            end.active == CountExecuting(end.calls) + CountPanicked(end.calls)
            && (end.active == CountExecuting(end.calls)
                <==> forall i :: 0 <= i < |end.calls| ==> !end.calls[i].phase.Panicked?)
    ensures |Run(s, steps).queue| <= s.capacity
  {
    InitialAudited(s);
    RunKeepsAudited(s, steps);
    NoPanicCount(Run(s, steps).calls);
  }

  lemma StepKeepsPanicked(s: System, step: Step, i: nat)
    requires i < |s.calls| && s.calls[i].phase.Panicked?
    ensures i < |Apply(s, step).calls| && Apply(s, step).calls[i] == s.calls[i]
  {
    hide Passes;
  }

  /** A panicked call stays so: it never offers an entry, and the counter stays above
      the number of calls in flight for good. */
  lemma {:induction false} PanickedForever(s: System, steps: seq<Step>, i: nat)
    requires Audited(s) && i < |s.calls| && s.calls[i].phase.Panicked?
    ensures var end := Run(s, steps);
            i < |end.calls| && end.calls[i] == s.calls[i]
            && OffersOf(end.offers, i) == 0
            && end.active > CountExecuting(end.calls)
    decreases |steps|
  {
    if steps == [] {
      NoPanicCount(s.calls);
      hide Accepted, WrittenEntries, Held, Truthful;
    } else {
      StepKeepsAudited(s, steps[0]);
      StepKeepsPanicked(s, steps[0], i);
      hide Apply, Audited;
      PanickedForever(Apply(s, steps[0]), steps[1..], i);
    }
  }

  /** A call that passed the gates and finished has offered exactly one entry, which
      says truthfully whose call it was and how it ended; any other call, a panicked one
      among them, has offered none. */
  lemma ExactlyOneEntry(s: System, steps: seq<Step>, i: nat)
    requires Initial(s) && i < |Run(s, steps).calls|
    ensures var end := Run(s, steps);
            OffersOf(end.offers, i) == (if end.calls[i].phase.Reported? then 1 else 0)
            && forall k :: 0 <= k < |end.offers| && end.offers[k].entry.call == i ==>
                 end.calls[i] == Call(end.offers[k].entry.identity, end.offers[k].entry.tool,
                      Reported(end.offers[k].entry.outcome))
  {
    InitialAudited(s);
    RunKeepsAudited(s, steps);
    var end := Run(s, steps);
    forall k | 0 <= k < |end.offers| && end.offers[k].entry.call == i
      ensures end.calls[i] == Call(end.offers[k].entry.identity, end.offers[k].entry.tool,
           Reported(end.offers[k].entry.outcome))
    {
      assert Truthful(end.calls, end.offers[k].entry);
    }
  }

  /** A refused call stays refused: no step makes it execute or report. */
  lemma {:induction false} RefusedForever(s: System, steps: seq<Step>, i: nat)
    requires i < |s.calls| && s.calls[i].phase.Refused?
    ensures i < |Run(s, steps).calls| && Run(s, steps).calls[i] == s.calls[i]
    decreases |steps|
  {
    if steps != [] {
      RefusedForever(Apply(s, steps[0]), steps[1..], i);
    }
  }

  // ------------------------------------------------------------ order

  lemma {:induction false} AcceptedInOrder(offers: seq<Offer>)
    ensures Subsequence(Accepted(offers), Offered(offers))
  {
    if offers != [] {
      var n := |offers| - 1;
      AcceptedInOrder(offers[..n]);
      assert Offered(offers) == Offered(offers[..n]) + [offers[n].entry];
      SubsequenceSnoc(Accepted(offers[..n]), Offered(offers[..n]), offers[n].entry);
      assert Accepted(offers[..n]) + [] == Accepted(offers[..n]);
    }
  }

  lemma {:induction false} PersistedInWrites(writes: seq<Write>, ok: bool)
    ensures Subsequence(Persisted(writes, ok), WrittenEntries(writes))
  {
    if writes != [] {
      var n := |writes| - 1;
      PersistedInWrites(writes[..n], ok);
      assert WrittenEntries(writes) == WrittenEntries(writes[..n]) + [writes[n].entry];
      SubsequenceSnoc(Persisted(writes[..n], ok), WrittenEntries(writes[..n]), writes[n].entry);
      assert Persisted(writes[..n], ok) + [] == Persisted(writes[..n], ok);
    }
  }

  /** What reaches the database does so in the order it was offered. */
  lemma PersistedInOrder(s: System, steps: seq<Step>)
    requires Initial(s)
    ensures Subsequence(Persisted(Run(s, steps).writes, true), Offered(Run(s, steps).offers))
  {
    InitialAudited(s);
    RunKeepsAudited(s, steps);
    var end := Run(s, steps);
    var written, rest := WrittenEntries(end.writes), Held(end) + end.queue;
    assert Accepted(end.offers) == written + rest;
    PersistedInWrites(end.writes, true);
    SubsequenceRefl(written);
    SubsequenceConcat(written, written, [], rest);
    assert written + [] == written;
    SubsequenceTransitive(Persisted(end.writes, true), written, Accepted(end.offers));
    AcceptedInOrder(end.offers);
    SubsequenceTransitive(Persisted(end.writes, true), Accepted(end.offers), Offered(end.offers));
  }

  /** An entry is dropped exactly when the queue is full at the moment it is offered. */
  lemma DroppedOnlyWhenFull(s: System, step: Step)
    requires Audited(s)
    ensures |Dropped(Apply(s, step).offers)| > |Dropped(s.offers)| <==>
              step.Report? && step.call < |s.calls| && s.calls[step.call].phase.Returned? && |s.queue| == s.capacity
  {
    if step.Report? && step.call < |s.calls| && s.calls[step.call].phase.Returned? {
      OfferAppend(s.offers, Apply(s, step).offers[|s.offers|]);
    }
  }

  /** A queue with room never drops: if fewer entries were ever offered than it holds,
      none was lost. */
  lemma {:induction false} RoomMeansNoLoss(s: System, steps: seq<Step>)
    requires Audited(s) && Dropped(s.offers) == [] && |Run(s, steps).offers| <= s.capacity
    ensures Dropped(Run(s, steps).offers) == []
    decreases |steps|
  {
    if steps != [] {
      var next := Apply(s, steps[0]);
      StepKeepsAudited(s, steps[0]);
      OffersGrow(next, steps[1..]);
      DroppedOnlyWhenFull(s, steps[0]);
      OffersPartition(s.offers);
      RoomMeansNoLoss(next, steps[1..]);
    }
  }

  lemma {:induction false} OffersGrow(s: System, steps: seq<Step>)
    ensures |s.offers| <= |Run(s, steps).offers|
    decreases |steps|
  {
    if steps != [] { OffersGrow(Apply(s, steps[0]), steps[1..]); }
  }
}
