/** What the hash and version columns of an endpoint record over a whole serial
    run of saves and deletes. */
module VersionHistory {
  import opened Text
  import opened Json
  import opened ToolIntegrity
  import opened Store

  /** The row of `id` after a run. */
  ghost function RowAfter(f: Float64, cascade: bool, t: Tables, ops: seq<Op>, id: string): Option<Endpoint> {
    Find(EndpointId, PlainRun(f, cascade, t, ops).eps, id)
  }

  predicate Saves(op: Op, id: string) {
    op.Do? && op.ok && op.w.SaveEndpoint? && op.w.ep.id == id
  }

  /** The hashes of the definitions successfully saved under `id`, in order. */
  ghost function SavedHashes(f: Float64, ops: seq<Op>, id: string): seq<DefHash> {
    if ops == [] then []
    else
      var rest := SavedHashes(f, ops[..|ops| - 1], id);
      var last := ops[|ops| - 1];
      if Saves(last, id) then rest + [OwnHash(f, last.w.ep)] else rest
  }

  /** How many times a value differs from the one before it, starting from `first`. */
  function Changes<T(==)>(first: T, later: seq<T>): nat {
    if later == [] then 0
    else
      var n := |later| - 1;
      Changes(first, later[..n]) + if later[n] != Latest(first, later[..n]) then 1 else 0
  }

  /** The start of the unbroken presence of `id` that lasts to the end of the run:
      the length of the shortest prefix after which the row never was absent. */
  ghost function AliveSince(f: Float64, cascade: bool, t: Tables, ops: seq<Op>, id: string): (n: nat)
    requires RowAfter(f, cascade, t, ops, id).Some?
    ensures n <= |ops|
    ensures forall k :: n <= k <= |ops| ==> RowAfter(f, cascade, t, ops[..k], id).Some?
    ensures n > 0 ==> RowAfter(f, cascade, t, ops[..n - 1], id).None?
    decreases |ops|
  {
    assert ops[..|ops|] == ops;
    if ops == [] then 0
    else
      var before := ops[..|ops| - 1];
      if RowAfter(f, cascade, t, before, id).None? then |ops|
      else
        var n := AliveSince(f, cascade, t, before, id);
        assert forall k :: 0 <= k <= |before| ==> before[..k] == ops[..k];
        n
  }

  lemma {:induction false} RunAppend(f: Float64, cascade: bool, t: Tables, ops: seq<Op>, op: Op)
    ensures PlainRun(f, cascade, t, ops + [op]) == PlainStep(f, cascade, PlainRun(f, cascade, t, ops), op).0
    decreases |ops|
  {
    if ops == [] {
      assert (ops + [op])[1..] == [];
    } else {
      assert (ops + [op])[1..] == ops[1..] + [op];
      RunAppend(f, cascade, PlainStep(f, cascade, t, ops[0]).0, ops[1..], op);
    }
  }

  lemma {:induction false} RunConsistent(f: Float64, cascade: bool, t: Tables, ops: seq<Op>)
    requires Consistent(t)
    ensures Consistent(PlainRun(f, cascade, t, ops))
    decreases |ops|
  {
    if ops != [] {
      if ops[0].Do? { WrittenConsistent(f, cascade, t, ops[0].w); }
      RunConsistent(f, cascade, PlainStep(f, cascade, t, ops[0]).0, ops[1..]);
    }
  }

  /** The step deletes the row: the endpoint itself, or its connection where the database
      cascades. */
  predicate Deletes(cascade: bool, op: Op, row: Endpoint) {
    op.Do? && op.ok
    && (op.w == DeleteEndpoint(row.id) || (cascade && op.w == DeleteConnection(row.connectionId)))
  }

  /** What one step does to the row of `id`: a save of it writes the recorded row, a
      delete of it or, under the cascade, of its connection removes it, and any other
      step keeps it. */
  lemma StepRow(f: Float64, cascade: bool, t: Tables, op: Op, id: string)
    requires Consistent(t)
    ensures var before, after := Find(EndpointId, t.eps, id), Find(EndpointId, PlainStep(f, cascade, t, op).0.eps, id);
            if Saves(op, id) then after.Some? && after.value.id == id && SavedOver(f, before, op.w.ep, after.value)
            else if before.Some? && Deletes(cascade, op, before.value) then after == None
            else after == before
    ensures Saves(op, id) ==>
              Find(EndpointId, PlainStep(f, cascade, t, op).0.eps, id) == Some(Recorded(f, t.eps, op.w.ep))
  {
    if op.Do? && op.ok {
      match op.w
      case SaveConnection(c) =>
      case DeleteConnection(cid) =>
        FindWithout(EndpointId, (e: Endpoint) => e.connectionId == cid, t.eps, id);
      case SaveEndpoint(ep) =>
        FindUpsert(EndpointId, t.eps, Recorded(f, t.eps, ep), id);
      case DeleteEndpoint(eid) =>
        FindWithout(EndpointId, (e: Endpoint) => e.id == eid, t.eps, id);
    }
  }

  /** The hash a save stores, and so the pin, is the hash of the row itself. */
  ghost predicate Pinned(f: Float64, row: Endpoint) {
    row.definitionHash == OwnHash(f, row)
  }

  /** From a state that holds the row, through a run that never loses it: its hash
      is the last one saved and its version has grown once for every save whose
      hash differed from the one stored then. A legacy row starts with no hash, so
      its first save counts. */
  lemma {:induction false} UnbrokenHistory(f: Float64, cascade: bool, t: Tables, ops: seq<Op>, id: string,
                                           first: Endpoint)
    requires Consistent(t) && Find(EndpointId, t.eps, id) == Some(first)
    requires forall k :: 0 <= k <= |ops| ==> RowAfter(f, cascade, t, ops[..k], id).Some?
    ensures RowAfter(f, cascade, t, ops, id).Some?
    ensures var row, hashes := RowAfter(f, cascade, t, ops, id).value, SavedHashes(f, ops, id);
            row.version == first.version + Changes(first.definitionHash, hashes)
            && row.definitionHash == Latest(first.definitionHash, hashes)
            && (if hashes == [] then row == first else Pinned(f, row))
    decreases |ops|
  {
    assert ops[..|ops|] == ops;
    if ops == [] {
      assert RowAfter(f, cascade, t, ops, id) == Some(first);
    } else {
      hide *;
      var before, op := ops[..|ops| - 1], ops[|ops| - 1];
      assert before + [op] == ops;
      forall k | 0 <= k <= |before| ensures RowAfter(f, cascade, t, before[..k], id).Some? {
        assert before[..k] == ops[..k];
      }
      UnbrokenHistory(f, cascade, t, before, id, first);
      RowStep(f, cascade, t, before, op, id);
      HashStep(f, before, op, id, first.definitionHash);
    }
  }

  /** A save bumps the version when its hash is new; any other step that keeps the
      row leaves it as it is. */
  lemma RowStep(f: Float64, cascade: bool, t: Tables, before: seq<Op>, op: Op, id: string)
    requires Consistent(t)
    requires RowAfter(f, cascade, t, before, id).Some? && RowAfter(f, cascade, t, before + [op], id).Some?
    ensures var row, row' := RowAfter(f, cascade, t, before, id).value,
         RowAfter(f, cascade, t, before + [op], id).value;
            if Saves(op, id) then
              Pinned(f, row') && row'.definitionHash == OwnHash(f, op.w.ep)
              && row'.version == row.version + (if row.definitionHash != row'.definitionHash then 1 else 0)
            else row' == row
  {
    RunAppend(f, cascade, t, before, op);
    RunConsistent(f, cascade, t, before);
    var mid := PlainRun(f, cascade, t, before);
    StepRow(f, cascade, mid, op, id);
    if Saves(op, id) {
      RecordedFields(f, mid.eps, op.w.ep);
    }
  }

  lemma RecordedFields(f: Float64, eps: seq<Endpoint>, ep: Endpoint)
    ensures var r := Recorded(f, eps, ep);
            r.definitionHash == OwnHash(f, ep) && Pinned(f, r)
            && match Find(EndpointId, eps, ep.id)
               case None => r.version == 1
               case Some(row) => r.version == row.version + (if row.definitionHash != r.definitionHash then 1 else 0)
  {
  }

  lemma HashStep(f: Float64, before: seq<Op>, op: Op, id: string, first: DefHash)
    ensures var hashes, hashes' := SavedHashes(f, before, id), SavedHashes(f, before + [op], id);
            if Saves(op, id) then
              hashes' == hashes + [OwnHash(f, op.w.ep)]
              && Changes(first, hashes')
                 == Changes(first, hashes)
                    + (if OwnHash(f, op.w.ep) != Latest(first, hashes) then 1 else 0)
            else hashes' == hashes
  {
    assert (before + [op])[..|before|] == before;
    if Saves(op, id) {
      var hashes := SavedHashes(f, before, id);
      assert (hashes + [OwnHash(f, op.w.ep)])[..|hashes|] == hashes;
    }
  }

  function Latest<T>(first: T, later: seq<T>): T {
    if later == [] then first else later[|later| - 1]
  }

  /** The step that makes an absent row present is a save, and it writes version 1. */
  lemma BirthRow(f: Float64, cascade: bool, t: Tables, ops: seq<Op>, id: string)
    requires Consistent(t) && ops != []
    requires RowAfter(f, cascade, t, ops[..|ops| - 1], id).None? && RowAfter(f, cascade, t, ops, id).Some?
    ensures Saves(ops[|ops| - 1], id)
    ensures RowAfter(f, cascade, t, ops, id).value.version == 1
    ensures Pinned(f, RowAfter(f, cascade, t, ops, id).value)
  {
    var before, op := ops[..|ops| - 1], ops[|ops| - 1];
    assert before + [op] == ops;
    RunAppend(f, cascade, t, before, op);
    RunConsistent(f, cascade, t, before);
    StepRow(f, cascade, PlainRun(f, cascade, t, before), op, id);
  }

  lemma {:induction false} RunSplit(f: Float64, cascade: bool, t: Tables, a: seq<Op>, b: seq<Op>)
    ensures PlainRun(f, cascade, t, a + b) == PlainRun(f, cascade, PlainRun(f, cascade, t, a), b)
    decreases |a|
  {
    if a == [] {
      assert a + b == b;
    } else {
      assert (a + b)[1..] == a[1..] + b;
      RunSplit(f, cascade, PlainStep(f, cascade, t, a[0]).0, a[1..], b);
    }
  }

  /** Over every serial run, a row present at the end has been present without a
      gap since some point. There it was either the row the run started with, or
      just created by a save, with version 1 and its own hash. Since then its
      version has grown once per save that changed the stored hash, and if anything
      was saved since, its hash is the hash of its own fields. */
  lemma RunHistory(f: Float64, cascade: bool, t: Tables, ops: seq<Op>, id: string)
    requires Consistent(t) && RowAfter(f, cascade, t, ops, id).Some?
    ensures var n := AliveSince(f, cascade, t, ops, id);
            var birth, row := RowAfter(f, cascade, t, ops[..n], id), RowAfter(f, cascade, t, ops, id).value;
            var hashes := SavedHashes(f, ops[n..], id);
            birth.Some?
            && row.version == birth.value.version + Changes(birth.value.definitionHash, hashes)
            && (n == 0 ==> birth == Find(EndpointId, t.eps, id))
            && (n > 0 ==> birth.value.version == 1 && Pinned(f, birth.value) && Pinned(f, row))
            && (hashes != [] ==> Pinned(f, row))
            && (hashes == [] ==> row == birth.value)
  {
    var n := AliveSince(f, cascade, t, ops, id);
    NothingRun(f, cascade, t, id);
    hide *;
    assert ops[..0] == [] && ops[..|ops|] == ops;
    if n > 0 { BirthAt(f, cascade, t, ops, n, id); }
    HistorySince(f, cascade, t, ops, n, id);
  }

  lemma BirthAt(f: Float64, cascade: bool, t: Tables, ops: seq<Op>, n: nat, id: string)
    requires Consistent(t) && 0 < n <= |ops|
    requires RowAfter(f, cascade, t, ops[..n - 1], id).None? && RowAfter(f, cascade, t, ops[..n], id).Some?
    ensures RowAfter(f, cascade, t, ops[..n], id).value.version == 1
    ensures Pinned(f, RowAfter(f, cascade, t, ops[..n], id).value)
  {
    hide *;
    assert ops[..n][..n - 1] == ops[..n - 1];
    BirthRow(f, cascade, t, ops[..n], id);
  }

  /** The history from any point since which the row has been present. */
  lemma HistorySince(f: Float64, cascade: bool, t: Tables, ops: seq<Op>, n: nat, id: string)
    requires Consistent(t) && n <= |ops|
    requires forall k :: n <= k <= |ops| ==> RowAfter(f, cascade, t, ops[..k], id).Some?
    ensures RowAfter(f, cascade, t, ops, id).Some?
    ensures var birth, row := RowAfter(f, cascade, t, ops[..n], id).value, RowAfter(f, cascade, t, ops, id).value;
            var hashes := SavedHashes(f, ops[n..], id);
            row.version == birth.version + Changes(birth.definitionHash, hashes)
            && (if hashes == [] then row == birth else Pinned(f, row))
  {
    hide *;
    var mid := PlainRun(f, cascade, t, ops[..n]);
    var later := ops[n..];
    RunConsistent(f, cascade, t, ops[..n]);
    forall k | 0 <= k <= |later| ensures RowAfter(f, cascade, mid, later[..k], id).Some? {
      RowLater(f, cascade, t, ops, n, k, id);
    }
    RowLater(f, cascade, t, ops, n, |later|, id);
    UnbrokenHistory(f, cascade, mid, later, id, RowAfter(f, cascade, t, ops[..n], id).value);
  }

  lemma RowLater(f: Float64, cascade: bool, t: Tables, ops: seq<Op>, n: nat, k: nat, id: string)
    requires n + k <= |ops|
    ensures RowAfter(f, cascade, PlainRun(f, cascade, t, ops[..n]), ops[n..][..k], id)
         == RowAfter(f, cascade, t, ops[..n + k], id)
    ensures RowAfter(f, cascade, t, ops[..n], id) == Find(EndpointId, PlainRun(f, cascade, t, ops[..n]).eps, id)
    ensures ops[..|ops|] == ops && ops[n..][..|ops| - n] == ops[n..]
  {
    RowSplit(f, cascade, t, ops[..n], ops[n..][..k], id);
    hide *;
    assert ops[..n] + ops[n..][..k] == ops[..n + k];
  }

  lemma NothingRun(f: Float64, cascade: bool, t: Tables, id: string)
    ensures RowAfter(f, cascade, t, [], id) == Find(EndpointId, t.eps, id)
  {
  }

  lemma RowSplit(f: Float64, cascade: bool, t: Tables, a: seq<Op>, b: seq<Op>, id: string)
    ensures RowAfter(f, cascade, PlainRun(f, cascade, t, a), b, id) == RowAfter(f, cascade, t, a + b, id)
    ensures RowAfter(f, cascade, t, a, id) == Find(EndpointId, PlainRun(f, cascade, t, a).eps, id)
  {
    RunSplit(f, cascade, t, a, b);
    hide PlainRun;
  }

  /** A row that pins its own definition, or a legacy row that pins none. */
  ghost predicate SoundPin(f: Float64, row: Endpoint) {
    row.definitionHash == NoHash || Pinned(f, row)
  }

  /** Started from rows that are each unpinned or pin themselves, every stored row
      still is after any serial run; started from no rows at all, every one pins itself. */
  lemma PinsStaySound(f: Float64, cascade: bool, t: Tables, ops: seq<Op>, id: string)
    requires Consistent(t) && RowAfter(f, cascade, t, ops, id).Some?
    requires forall row :: row in t.eps ==> SoundPin(f, row)
    ensures SoundPin(f, RowAfter(f, cascade, t, ops, id).value)
    ensures t.eps == [] ==> Pinned(f, RowAfter(f, cascade, t, ops, id).value)
  {
    RunHistory(f, cascade, t, ops, id);
    hide RowAfter, AliveSince, SavedHashes, Changes;
  }
}
