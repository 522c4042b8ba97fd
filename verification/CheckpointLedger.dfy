/** Appending checkpoint results to their ledger. */
module CheckpointLedger {
  // Appending checkpoint results to their ledger (meta_flow/checks/cp_result.py, lines 1526-1706). The projector
  // that reduces the ledger of a change request and a checkpoint is a parameter.

  /** A checkpoint result; `body` stands for the fields that the ledger only copies. */
  datatype CpResult = CpResult(
    eventId: string,
    checkpoint: string,
    checkpointId: string,
    storyId: string,
    crId: string,
    decision: string,
    body: string)

  datatype Event = Event(
    eventId: string,
    checkpoint: string,
    decision: string,
    resultRef: string,
    crId: string,
    body: string)

  datatype Finding = FileMissing(ref: string) | FileInvalid(ref: string) | Projected(code: string)

  datatype File = Readable(result: CpResult) | Unreadable

  /** What the projector needs to read, and what it finds. */
  datatype Projector = Projector(
    required: (seq<Event>, string, string) -> (seq<string>, seq<Finding>),
    project: (seq<Event>, map<string, CpResult>, string, string, seq<Finding>) -> seq<Finding>)

  function Or(a: string, b: string): string {
    if a != "" then a else b
  }

  /** `build_checkpoint_event` */
  function BuildEvent(result: CpResult, ref: string): Event {
    var checkpoint := Or(result.checkpoint, result.checkpointId);
    var fallback := checkpoint + "-" + Or(result.storyId, Or(result.crId, "global"));
    Event(Or(result.eventId, fallback), checkpoint, result.decision, ref, result.crId, result.body)
  }

  function WithId(events: seq<Event>, id: string): seq<Event> {
    if events == [] then []
    else (if events[0].eventId == id then [events[0]] else []) + WithId(events[1..], id)
  }

  function SameResult(events: seq<Event>, e: Event): seq<Event> {
    if events == [] then []
    else
      (if events[0].resultRef == e.resultRef && events[0].decision == e.decision then [events[0]] else [])
      + SameResult(events[1..], e)
  }

  /** The results at hand, and those of the required ones that can be read. */
  function Loaded(files: map<string, File>, refs: seq<string>, seed: map<string, CpResult>): map<string, CpResult> {
    seed + map ref | ref in refs && ref !in seed && ref in files && files[ref].Readable? :: files[ref].result
  }

  /** What is wrong with a required result that is not at hand. */
  function Failure(files: map<string, File>, ref: string, seed: map<string, CpResult>): seq<Finding> {
    if ref in seed then []
    else if ref !in files then [FileMissing(ref)]
    else if files[ref].Unreadable? then [FileInvalid(ref)]
    else []
  }

  /** One finding for each required result that is missing or unreadable, in their order. */
  function Failures(files: map<string, File>, refs: seq<string>, seed: map<string, CpResult>): seq<Finding> {
    if refs == [] then []
    else Failures(files, refs[..|refs| - 1], seed) + Failure(files, refs[|refs| - 1], seed)
  }

  /** What the projector finds on a ledger for the change request and checkpoint of an event. */
  function Findings(p: Projector, files: map<string, File>, ledger: seq<Event>, e: Event, result: CpResult):
    seq<Finding>
  {
    var (refs, first) := p.required(ledger, e.crId, e.checkpoint);
    var seed := map[e.resultRef := result];
    p.project(ledger, Loaded(files, refs, seed), e.crId, e.checkpoint, first + Failures(files, refs, seed))
  }

  datatype Verdict = Blocked | NoChange | Ready

  /** `preflight_checkpoint_ledger_append` on a ledger that can be read. */
  function Preflight(p: Projector, files: map<string, File>, ledger: seq<Event>, e: Event, result: CpResult): Verdict {
    var matching := WithId(ledger, e.eventId);
    var replay := SameResult(matching, e);
    if matching != [] && |replay| != 1 then Blocked
    else if Findings(p, files, if replay != [] then ledger else ledger + [e], e, result) != [] then Blocked
    else if replay != [] then NoChange else Ready
  }

  /** The ledger after an append of a valid result. */
  function Append(p: Projector, files: map<string, File>, ledger: seq<Event>, result: CpResult, ref: string):
    seq<Event>
  {
    var e := BuildEvent(result, ref);
    if Preflight(p, files, ledger, e, result).Ready? then ledger + [e] else ledger
  }

  ghost predicate DistinctIds(ledger: seq<Event>) {
    forall i, j :: 0 <= i < j < |ledger| ==> ledger[i].eventId != ledger[j].eventId
  }

  lemma {:induction false} WithIdMembers(events: seq<Event>, id: string)
    ensures forall e :: e in WithId(events, id) <==> e in events && e.eventId == id
  {
    if events != [] {
      WithIdMembers(events[1..], id);
      assert forall e :: e in events <==> e == events[0] || e in events[1..];
    }
  }

  /** Without a replay, a result that is let through brings a new id. */
  lemma ReadyIsNew(p: Projector, files: map<string, File>, ledger: seq<Event>, e: Event, result: CpResult)
    requires Preflight(p, files, ledger, e, result).Ready?
    ensures WithId(ledger, e.eventId) == [] && forall x :: x in ledger ==> x.eventId != e.eventId
    ensures Findings(p, files, ledger + [e], e, result) == []
  {
    hide Findings;
    WithIdMembers(ledger, e.eventId);
    assert SameResult([], e) == [];
  }

  /**
   * One append: the ledger only grows at its end, its ids stay distinct, a blocked append changes nothing, and
   * unless it was blocked the projector has no findings on the ledger it leaves.
   */
  lemma AppendKeeps(p: Projector, files: map<string, File>, ledger: seq<Event>, result: CpResult, ref: string)
    requires DistinctIds(ledger)
    ensures var e := BuildEvent(result, ref);
            var next := Append(p, files, ledger, result, ref);
            && ledger <= next && DistinctIds(next)
            && (Preflight(p, files, ledger, e, result).Blocked? ==> next == ledger)
            && (!Preflight(p, files, ledger, e, result).Blocked? ==> Findings(p, files, next, e, result) == [])
  {
    hide Findings, BuildEvent;
    var e := BuildEvent(result, ref);
    if Preflight(p, files, ledger, e, result).Ready? {
      ReadyIsNew(p, files, ledger, e, result);
    }
  }

  datatype Request = Request(result: CpResult, ref: string, files: map<string, File>)

  function Run(p: Projector, ledger: seq<Event>, requests: seq<Request>): seq<Event>
    decreases |requests|
  {
    if requests == [] then ledger
    else
      Run(p, Append(p, requests[0].files, ledger, requests[0].result, requests[0].ref), requests[1..])
  }

  /** Over any run of appends, the result files changing as they may, ids stay distinct and history stays. */
  lemma {:induction false} RunKeeps(p: Projector, ledger: seq<Event>, requests: seq<Request>)
    requires DistinctIds(ledger)
    ensures DistinctIds(Run(p, ledger, requests)) && ledger <= Run(p, ledger, requests)
    decreases |requests|
  {
    hide Append, DistinctIds;
    if requests != [] {
      var r := requests[0];
      AppendKeeps(p, r.files, ledger, r.result, r.ref);
      RunKeeps(p, Append(p, r.files, ledger, r.result, r.ref), requests[1..]);
    }
  }

  /** An event of the ledger with the id of `e`, and the same result and decision or not. */
  ghost predicate Has(ledger: seq<Event>, e: Event, same: bool) {
    exists x :: x in ledger && x.eventId == e.eventId
                && (same <==> x.resultRef == e.resultRef && x.decision == e.decision)
  }

  /**
   * The verdict on a ledger with distinct ids: blocked if the id is in use for another result or decision, or if the
   * projector has findings; no change if the event is there already; ready exactly if the id is new.
   */
  lemma PreflightIs(p: Projector, files: map<string, File>, ledger: seq<Event>, e: Event, result: CpResult)
    requires DistinctIds(ledger)
    ensures Has(ledger, e, false) ==> Preflight(p, files, ledger, e, result).Blocked?
    ensures Has(ledger, e, true) ==>
              Preflight(p, files, ledger, e, result)
              == if Findings(p, files, ledger, e, result) == [] then NoChange else Blocked
    ensures !Has(ledger, e, false) && !Has(ledger, e, true) ==>
              Preflight(p, files, ledger, e, result)
              == if Findings(p, files, ledger + [e], e, result) == [] then Ready else Blocked
  {
    hide Findings;
    if x :| x in ledger && x.eventId == e.eventId {
      OnlyOneWithId(ledger, x);
      assert WithId(ledger, e.eventId) == [x] && [x][1..] == [];
      assert SameResult([x], e) == if x.resultRef == e.resultRef && x.decision == e.decision then [x] else [];
      assert forall y :: y in ledger && y.eventId == e.eventId ==> y == x;
    } else {
      NoneWithId(ledger, e.eventId);
    }
  }

  /** A result that is let in is recorded under its own id, with its decision and under the reference given. */
  lemma ReadyRecords(p: Projector, files: map<string, File>, ledger: seq<Event>, result: CpResult, ref: string)
    requires Preflight(p, files, ledger, BuildEvent(result, ref), result).Ready?
    ensures exists e :: Append(p, files, ledger, result, ref) == ledger + [e] && Records(e, result, ref)
  {
    hide Preflight;
    var e := BuildEvent(result, ref);
    assert |e.eventId| > 0;
    assert Append(p, files, ledger, result, ref) == ledger + [e] && Records(e, result, ref);
  }

  predicate Records(e: Event, result: CpResult, ref: string) {
    && e.eventId != "" && (result.eventId != "" ==> e.eventId == result.eventId)
    && (result.checkpoint != "" ==> e.checkpoint == result.checkpoint)
    && e.decision == result.decision && e.resultRef == ref && e.crId == result.crId && e.body == result.body
  }

  /** There is a finding for exactly the required results that are not at hand and missing, or unreadable. */
  lemma {:induction false} FailuresIff(files: map<string, File>, refs: seq<string>, seed: map<string, CpResult>,
                                       ref: string)
    ensures FileMissing(ref) in Failures(files, refs, seed) <==> ref in refs && ref !in seed && ref !in files
    ensures FileInvalid(ref) in Failures(files, refs, seed) <==>
            ref in refs && ref !in seed && ref in files && files[ref].Unreadable?
  {
    if refs != [] {
      var rest, last := refs[..|refs| - 1], refs[|refs| - 1];
      assert refs == rest + [last];
      FailuresIff(files, rest, seed, ref);
    }
  }

  lemma RepeatVerdict(p: Projector, later: map<string, File>, ledger: seq<Event>, result: CpResult, ref: string)
    requires DistinctIds(ledger) && BuildEvent(result, ref) in ledger
    ensures var e := BuildEvent(result, ref);
            Preflight(p, later, ledger, e, result)
            == if Findings(p, later, ledger, e, result) == [] then NoChange else Blocked
  {
    hide Findings, BuildEvent;
    var e := BuildEvent(result, ref);
    OnlyOneWithId(ledger, e);
    assert SameResult([e], e) == [e] by {
      assert [e][1..] == [] && SameResult([], e) == [];
    }
  }

  lemma {:induction false} NoneWithId(events: seq<Event>, id: string)
    requires forall x :: x in events ==> x.eventId != id
    ensures WithId(events, id) == []
  {
    if events != [] {
      assert events[0] in events;
      NoneWithId(events[1..], id);
    }
  }

  lemma {:induction false} OnlyOneWithId(ledger: seq<Event>, e: Event)
    requires DistinctIds(ledger) && e in ledger
    ensures WithId(ledger, e.eventId) == [e]
  {
    if ledger[0] == e {
      forall x | x in ledger[1..] ensures x.eventId != e.eventId {
        var i :| 0 <= i < |ledger[1..]| && ledger[1..][i] == x;
        assert ledger[i + 1] == x;
      }
      NoneWithId(ledger[1..], e.eventId);
    } else {
      var i :| 0 <= i < |ledger| && ledger[i] == e;
      assert ledger[0].eventId != e.eventId;
      OnlyOneWithId(ledger[1..], e);
    }
  }

  /**
   * Once appended, a result is recognised as a replay ever after: whatever was appended since and whatever the
   * result files say then, appending it again leaves the ledger as it is, and is blocked only by findings.
   */
  lemma RepeatIsNoChange(p: Projector, files: map<string, File>, ledger: seq<Event>, result: CpResult, ref: string,
                         requests: seq<Request>, later: map<string, File>)
    requires DistinctIds(ledger) && Preflight(p, files, ledger, BuildEvent(result, ref), result).Ready?
    ensures var end := Run(p, Append(p, files, ledger, result, ref), requests);
            var e := BuildEvent(result, ref);
            && Append(p, later, end, result, ref) == end
            && Preflight(p, later, end, e, result)
               == if Findings(p, later, end, e, result) == [] then NoChange else Blocked
  {
    hide Findings, BuildEvent, Run, DistinctIds, WithId, SameResult;
    var e := BuildEvent(result, ref);
    var next := Append(p, files, ledger, result, ref);
    AppendKeeps(p, files, ledger, result, ref);
    assert e == next[|ledger|];
    RunKeeps(p, next, requests);
    var end := Run(p, next, requests);
    assert end[|ledger|] == e;
    RepeatVerdict(p, later, end, result, ref);
  }

  lemma OneMoreRef(files: map<string, File>, refs: seq<string>, i: nat, seed: map<string, CpResult>)
    requires i < |refs|
    ensures Failures(files, refs[..i + 1], seed) == Failures(files, refs[..i], seed) + Failure(files, refs[i], seed)
    ensures Loaded(files, refs[..i + 1], seed)
         == if refs[i] !in seed && refs[i] in files && files[refs[i]].Readable?
            then Loaded(files, refs[..i], seed)[refs[i] := files[refs[i]].result] else Loaded(files, refs[..i], seed)
  {
    hide Failure, Loaded;
    assert refs[..i + 1][..i] == refs[..i];
    assert refs[..i + 1] == refs[..i] + [refs[i]];
    LoadedSnoc(files, refs[..i], refs[i], seed);
  }

  lemma LoadedSnoc(files: map<string, File>, rest: seq<string>, last: string, seed: map<string, CpResult>)
    ensures Loaded(files, rest + [last], seed)
         == if last !in seed && last in files && files[last].Readable?
            then Loaded(files, rest, seed)[last := files[last].result] else Loaded(files, rest, seed)
  {
    var all := rest + [last];
    assert forall ref :: ref in all <==> ref in rest || ref == last;
    var a, b := Loaded(files, all, seed), Loaded(files, rest, seed);
    assert forall ref :: ref != last ==> (ref in a <==> ref in b);
  }

  /** The loop over the required results, which reads none twice. */
  method LoadResults(files: map<string, File>, refs: seq<string>, seed: map<string, CpResult>, first: seq<Finding>)
    returns (results: map<string, CpResult>, findings: seq<Finding>)
    ensures results == Loaded(files, refs, seed)
    ensures findings == first + Failures(files, refs, seed)
  {
    hide Loaded, Failures;
    results, findings := seed, first;
    NoRefs(files, seed);
    assert refs[..0] == [];
    for i := 0 to |refs|
      invariant results == Loaded(files, refs[..i], seed)
      invariant findings == first + Failures(files, refs[..i], seed)
    {
      var ref := refs[i];
      OneMoreRef(files, refs, i, seed);
      HeldRef(files, refs[..i], seed, ref);
      if ref in results {
        continue;
      }
      if ref !in files {
        findings := findings + [FileMissing(ref)];
        continue;
      }
      match files[ref] {
        case Unreadable =>
          findings := findings + [FileInvalid(ref)];
        case Readable(r) =>
          results := results[ref := r];
      }
    }
    assert refs[..|refs|] == refs;
  }

  lemma NoRefs(files: map<string, File>, seed: map<string, CpResult>)
    ensures Loaded(files, [], seed) == seed && Failures(files, [], seed) == []
  {
  }

  /** Reading a result that is already there would change nothing. */
  lemma HeldRef(files: map<string, File>, refs: seq<string>, seed: map<string, CpResult>, ref: string)
    ensures ref in Loaded(files, refs, seed) ==>
              Failure(files, ref, seed) == []
              && (ref !in seed ==> Loaded(files, refs, seed)[ref := files[ref].result] == Loaded(files, refs, seed))
    ensures ref in seed ==> ref in Loaded(files, refs, seed)
  {
  }

  class Ledger {
    var events: seq<Event>

    constructor (start: seq<Event>)
      ensures events == start
    {
      events := start;
    }

    /** `append_checkpoint_ledger`; `valid` and `readable` stand for the checks of the result and of the ledger file. */
    method AppendResult(p: Projector, files: map<string, File>, result: CpResult, ref: string, valid: bool,
                        readable: bool)
      returns (blocked: bool)
      modifies this
      ensures blocked ==
        (!valid || !readable || Preflight(p, files, old(events), BuildEvent(result, ref), result).Blocked?)
      ensures events == if blocked then old(events) else Append(p, files, old(events), result, ref)
    {
      hide BuildEvent, WithId, SameResult, Loaded, Failures;
      if !valid || !readable {
        return true;
      }
      var event := BuildEvent(result, ref);
      var matching := WithId(events, event.eventId);
      var replay := SameResult(matching, event);
      if matching != [] && |replay| != 1 {
        return true;
      }
      var simulated := if replay != [] then events else events + [event];
      var required := p.required(simulated, event.crId, event.checkpoint);
      var results, findings := LoadResults(files, required.0, map[event.resultRef := result], required.1);
      if p.project(simulated, results, event.crId, event.checkpoint, findings) != [] {
        return true;
      }
      if replay == [] {
        events := events + [event];
      }
      blocked := false;
    }
  }
}
