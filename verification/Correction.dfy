/** The append-only correction chain. */
module Correction {
  // The append-only correction chain (meta_flow/checks/correction.py): what validation accepts, and why the
  // supersedes graph of a ledger of accepted events has no cycle.

  import opened Wrappers

  /** A JSON value: an object, or anything else. */
  datatype Json = Object(fields: map<string, Json>) | Scalar(text: string)

  datatype PatchOp = PatchOp(op: string, path: string, value: Json)

  datatype Target = Target(namespace: string, id: string, sourceSha256: string)

  datatype Version = NoVersion | Named(name: string) | Numbered(number: int)

  /** A correction event; an empty string or sequence stands for a missing or empty field. */
  datatype Event = Event(
    version: Version,
    eventId: string,
    target: Option<Target>,
    patch: seq<PatchOp>,
    author: string,
    reason: string,
    evidenceRefs: seq<string>,
    createdAt: string,
    historicalMutation: bool,
    supersedes: string)

  datatype Error =
    | MissingField(field: string)
    | BadVersion
    | HistoricalMutation
    | BadTarget
    | BadEvidenceRefs
    | BadPatch
    | BadOperation(index: nat)
    | PathNotAllowed(index: nat)
    | SupersedesMissing
    | DuplicateId
    | SupersedesCycle

  predicate PathAllowed(path: string) {
    || path == "/annotations" || "/annotations/" <= path
    || "/evidence_refs" <= path
    || path == "/provenance" || "/provenance/" <= path
  }

  function When(c: bool, e: Error): seq<Error> {
    if c then [e] else []
  }

  predicate TargetValid(t: Option<Target>) {
    t.Some? && t.value.namespace != "" && t.value.id != "" && t.value.sourceSha256 != ""
  }

  function PatchErrors(patch: seq<PatchOp>, from: nat): seq<Error>
    requires from <= |patch|
    decreases |patch| - from
  {
    if from == |patch| then []
    else
      When(patch[from].op !in {"add", "replace"}, BadOperation(from))
      + When(!PathAllowed(patch[from].path), PathNotAllowed(from))
      + PatchErrors(patch, from + 1)
  }

  /** The errors that do not depend on the chain. */
  function ShapeErrors(e: Event): seq<Error> {
    When(e.version.NoVersion?, MissingField("schema_version"))
    + When(e.eventId == "", MissingField("event_id"))
    + When(e.target.None?, MissingField("target_ref"))
    + When(e.patch == [], MissingField("patch"))
    + When(e.author == "", MissingField("author"))
    + When(e.reason == "", MissingField("reason"))
    + When(e.evidenceRefs == [], MissingField("evidence_refs"))
    + When(e.createdAt == "", MissingField("created_at"))
    + When(e.version != Named("meta-flow.correction/v1") && e.version != Numbered(1), BadVersion)
    + When(e.historicalMutation, HistoricalMutation)
    + When(!TargetValid(e.target), BadTarget)
    + When(e.evidenceRefs == [], BadEvidenceRefs)
    + (if e.patch == [] then [BadPatch] else PatchErrors(e.patch, 0))
  }

  /** What each event of the chain supersedes, by id, a later event hiding an earlier one of its id. */
  function Graph(chain: seq<Event>): (g: map<string, string>)
    ensures forall id :: id in g <==> exists e :: e in chain && e.eventId == id
  {
    if chain == [] then map[]
    else
      var last := chain[|chain| - 1];
      assert forall e :: e in chain <==> e in chain[..|chain| - 1] || e == last;
      Graph(chain[..|chain| - 1])[last.eventId := last.supersedes]
  }

  function Next(g: map<string, string>, id: string): string {
    if id in g then g[id] else ""
  }

  /** The walk along `supersedes`: does it come to an id it has seen? */
  predicate WalkFindsSeen(g: map<string, string>, seen: set<string>, cursor: string)
    decreases g.Keys - seen, cursor != ""
  {
    cursor != "" && (cursor in seen || WalkFindsSeen(g, seen + {cursor}, Next(g, cursor)))
  }

  /** The errors that depend on the chain; an empty chain is not looked at. */
  function ChainErrors(e: Event, chain: seq<Event>): seq<Error> {
    if chain == [] then []
    else
      var g := Graph(chain);
      When(e.supersedes != "" && e.supersedes !in g, SupersedesMissing)
      + When(e.eventId in g, DuplicateId)
      + When(WalkFindsSeen(g, {e.eventId}, e.supersedes), SupersedesCycle)
  }

  function Errors(e: Event, chain: seq<Event>): seq<Error> {
    ShapeErrors(e) + ChainErrors(e, chain)
  }

  /** An event that validation has nothing to say about, whatever the chain. */
  predicate WellShaped(e: Event) {
    && (e.version == Named("meta-flow.correction/v1") || e.version == Numbered(1))
    && e.eventId != "" && e.author != "" && e.reason != "" && e.createdAt != "" && e.evidenceRefs != []
    && TargetValid(e.target)
    && e.patch != [] && (forall i :: 0 <= i < |e.patch| ==> OpAllowed(e.patch[i]))
    && !e.historicalMutation
  }

  predicate OpAllowed(op: PatchOp) {
    op.op in {"add", "replace"} && PathAllowed(op.path)
  }

  /** The event has a new id, supersedes an event of the chain if any, and starts no cyclic walk. */
  predicate Linked(e: Event, chain: seq<Event>) {
    chain == []
    || (var g := Graph(chain);
        && (e.supersedes != "" ==> e.supersedes in g)
        && e.eventId !in g
        && !WalkFindsSeen(g, {e.eventId}, e.supersedes))
  }

  lemma {:induction false} PatchErrorsIff(patch: seq<PatchOp>, from: nat)
    requires from <= |patch|
    ensures PatchErrors(patch, from) == [] <==> forall i :: from <= i < |patch| ==> OpAllowed(patch[i])
    decreases |patch| - from
  {
    hide PathAllowed;
    if from < |patch| {
      PatchErrorsIff(patch, from + 1);
    }
  }

  lemma ShapeErrorsIff(e: Event)
    ensures ShapeErrors(e) == [] <==> WellShaped(e)
  {
    hide PathAllowed, OpAllowed, PatchErrors;
    PatchErrorsIff(e.patch, 0);
  }

  /** Validation accepts exactly the well-shaped events that are linked to the chain. */
  lemma ErrorsIff(e: Event, chain: seq<Event>)
    ensures Errors(e, chain) == [] <==> WellShaped(e) && Linked(e, chain)
  {
    hide ShapeErrors, WellShaped, WalkFindsSeen, Graph;
    ShapeErrorsIff(e);
    assert |Errors(e, chain)| == |ShapeErrors(e)| + |ChainErrors(e, chain)|;
  }

  /** The walk along `supersedes`, which ends on every chain, cyclic ones included. */
  method WalkChain(g: map<string, string>, eventId: string, supersedes: string) returns (found: bool)
    ensures found == WalkFindsSeen(g, {eventId}, supersedes)
  {
    var seen := {eventId};
    var cursor := supersedes;
    while cursor != ""
      invariant WalkFindsSeen(g, {eventId}, supersedes) == WalkFindsSeen(g, seen, cursor)
      decreases g.Keys - seen, cursor != ""
    {
      if cursor in seen {
        return true;
      }
      seen := seen + {cursor};
      cursor := if cursor in g then g[cursor] else "";
    }
    found := false;
  }

  /** `validate_correction_event` */
  method Validate(e: Event, chain: seq<Event>) returns (errors: seq<Error>)
    ensures errors == Errors(e, chain)
  {
    hide WalkFindsSeen, PatchErrors, PathAllowed, TargetValid, When, Graph;
    errors := When(e.version.NoVersion?, MissingField("schema_version"))
      + When(e.eventId == "", MissingField("event_id"))
      + When(e.target.None?, MissingField("target_ref"))
      + When(e.patch == [], MissingField("patch"))
      + When(e.author == "", MissingField("author"))
      + When(e.reason == "", MissingField("reason"))
      + When(e.evidenceRefs == [], MissingField("evidence_refs"))
      + When(e.createdAt == "", MissingField("created_at"));
    errors := errors + When(e.version != Named("meta-flow.correction/v1") && e.version != Numbered(1), BadVersion);
    errors := errors + When(e.historicalMutation, HistoricalMutation);
    errors := errors + When(!TargetValid(e.target), BadTarget);
    errors := errors + When(e.evidenceRefs == [], BadEvidenceRefs);
    if e.patch == [] {
      errors := errors + [BadPatch];
    } else {
      var patchErrors := ValidatePatch(e.patch);
      errors := errors + patchErrors;
    }
    assert errors == ShapeErrors(e);
    if chain != [] {
      var g := Graph(chain);
      ghost var shape := errors;
      errors := errors + When(e.supersedes != "" && e.supersedes !in g, SupersedesMissing);
      errors := errors + When(e.eventId in g, DuplicateId);
      var found := WalkChain(g, e.eventId, e.supersedes);
      errors := errors + When(found, SupersedesCycle);
      assert errors == shape + ChainErrors(e, chain);
    }
  }

  method ValidatePatch(patch: seq<PatchOp>) returns (errors: seq<Error>)
    ensures errors == PatchErrors(patch, 0)
  {
    hide When, PathAllowed;
    errors := [];
    for i := 0 to |patch|
      invariant errors + PatchErrors(patch, i) == PatchErrors(patch, 0)
    {
      errors := errors + When(patch[i].op !in {"add", "replace"}, BadOperation(i));
      errors := errors + When(!PathAllowed(patch[i].path), PathNotAllowed(i));
    }
  }

  // ----- Chains of superseded events

  /** The id `n` steps along the chain from `id`; nothing, "", once the chain has ended. */
  function Follow(g: map<string, string>, id: string, n: nat): string
    decreases n
  {
    if n == 0 then id else if id in g then Follow(g, g[id], n - 1) else ""
  }

  /** The chain from `id` ends without coming to anything in `seen`. */
  ghost predicate EndsAvoiding(g: map<string, string>, seen: set<string>, id: string, n: nat) {
    Follow(g, id, n) == "" && forall k: nat :: k < n ==> Follow(g, id, k) !in seen
  }

  lemma FollowSplit(g: map<string, string>, id: string, m: nat, n: nat)
    requires "" !in g
    ensures Follow(g, id, m + n) == Follow(g, Follow(g, id, m), n)
    decreases m
  {
    if m > 0 {
      if id in g {
        FollowSplit(g, g[id], m - 1, n);
      } else {
        FollowNothing(g, n);
      }
    }
  }

  lemma FollowNothing(g: map<string, string>, n: nat)
    requires "" !in g
    ensures Follow(g, "", n) == ""
  {
  }

  /** A walk that finds nothing has come to the end of the chain, past none of the ids it started with. */
  lemma {:induction false} QuietWalkEnds(g: map<string, string>, seen: set<string>, id: string) returns (n: nat)
    requires "" !in g && !WalkFindsSeen(g, seen, id)
    ensures EndsAvoiding(g, seen, id, n)
    decreases g.Keys - seen, id != ""
  {
    n := 0;
    if id != "" {
      var m := QuietWalkEnds(g, seen + {id}, Next(g, id));
      if id in g {
        n := m + 1;
        forall k: nat | k < n ensures Follow(g, id, k) !in seen {
          if k > 0 {
            assert Follow(g, id, k) == Follow(g, g[id], k - 1);
          }
        }
      } else {
        n := 1;
      }
    }
  }

  /** A chain that comes to its end past none of `seen` is walked quietly. */
  lemma {:induction false} EndingWalkIsQuiet(g: map<string, string>, seen: set<string>, id: string, n: nat)
    requires "" !in g && EndsAvoiding(g, seen, id, n)
    requires forall k: nat :: k < n ==> Follow(g, id, k) != ""
    ensures !WalkFindsSeen(g, seen, id)
    decreases n
  {
    if id != "" {
      assert n > 0 && Follow(g, id, 0) == id;
      if id in g {
        forall k: nat | k < n - 1 ensures Follow(g, g[id], k) !in seen + {id} && Follow(g, g[id], k) != "" {
          assert Follow(g, id, k + 1) == Follow(g, g[id], k);
          if Follow(g, g[id], k) == id {
            FollowSplit(g, id, k + 1, n - (k + 1));
          }
        }
        EndingWalkIsQuiet(g, seen + {id}, g[id], n - 1);
      }
    }
  }

  ghost predicate ChainEnds(g: map<string, string>, id: string) {
    exists n: nat :: Follow(g, id, n) == ""
  }

  ghost predicate AllEnd(g: map<string, string>) {
    forall id :: ChainEnds(g, id)
  }

  ghost predicate Cyclic(g: map<string, string>) {
    exists id, n: nat :: n > 0 && id != "" && Follow(g, id, n) == id
  }

  lemma {:induction false} CycleNeverEnds(g: map<string, string>, id: string, n: nat, m: nat)
    requires "" !in g && n > 0 && id != "" && Follow(g, id, n) == id
    ensures Follow(g, id, m) != ""
    decreases m
  {
    if m >= n {
      CycleNeverEnds(g, id, n, m - n);
      FollowSplit(g, id, n, m - n);
    } else {
      FollowSplit(g, id, m, n - m);
      FollowNothing(g, n - m);
    }
  }

  lemma EndingIsAcyclic(g: map<string, string>)
    requires "" !in g && AllEnd(g)
    ensures !Cyclic(g)
  {
    forall id, n: nat | n > 0 && id != "" ensures Follow(g, id, n) != id {
      assert ChainEnds(g, id);
      var m: nat :| Follow(g, id, m) == "";
      if Follow(g, id, n) == id {
        CycleNeverEnds(g, id, n, m);
      }
    }
  }

  /** Up to where the chain first comes to `id`, a new edge at `id` makes no difference. */
  lemma {:induction false} SameBefore(g: map<string, string>, id: string, s: string, x: string, n: nat)
    requires forall k: nat :: k < n ==> Follow(g, x, k) != id
    ensures Follow(g[id := s], x, n) == Follow(g, x, n)
    decreases n
  {
    if n > 0 {
      assert Follow(g, x, 0) == x;
      if x in g {
        forall k: nat | k < n - 1 ensures Follow(g, g[x], k) != id {
          assert Follow(g, x, k + 1) == Follow(g, g[x], k);
        }
        SameBefore(g, id, s, g[x], n - 1);
      }
    }
  }

  lemma {:induction false} StillEnds(g: map<string, string>, id: string, s: string, x: string, n: nat, m: nat)
    returns (k: nat)
    requires "" !in g && id != "" && id !in g && EndsAvoiding(g, {id}, s, n) && Follow(g, x, m) == ""
    ensures Follow(g[id := s], x, k) == ""
    decreases m
  {
    if x == "" {
      k := 0;
    } else if x == id {
      SameBefore(g, id, s, s, n);
      k := n + 1;
    } else if x in g {
      k := StillEnds(g, id, s, g[x], n, m - 1);
      k := k + 1;
    } else {
      k := 1;
    }
  }

  /** The new event's chain ends past none of its own id: every chain still ends. */
  lemma AddedStillEnds(g: map<string, string>, id: string, s: string, n: nat)
    requires "" !in g && id != "" && id !in g && EndsAvoiding(g, {id}, s, n) && AllEnd(g)
    ensures AllEnd(g[id := s])
  {
    var h := g[id := s];
    forall x ensures ChainEnds(h, x) {
      assert ChainEnds(g, x);
      var m: nat :| Follow(g, x, m) == "";
      var k := StillEnds(g, id, s, x, n, m);
    }
  }

  lemma {:induction false} FirstEnd(g: map<string, string>, x: string, n: nat) returns (m: nat)
    requires Follow(g, x, n) == "" && "" !in g
    ensures Follow(g, x, m) == "" && forall k: nat :: k < m ==> Follow(g, x, k) != ""
    decreases n
  {
    m := 0;
    if x != "" {
      if x in g {
        m := FirstEnd(g, g[x], n - 1);
      }
      m := m + 1;
      forall k: nat | k < m ensures Follow(g, x, k) != "" {
        if k > 0 {
          assert x in g && Follow(g, x, k) == Follow(g, g[x], k - 1);
        }
      }
    }
  }

  lemma {:induction false} FirstVisit(g: map<string, string>, x: string, id: string, n: nat) returns (m: nat)
    requires Follow(g, x, n) == id
    ensures m <= n && Follow(g, x, m) == id && forall k: nat :: k < m ==> Follow(g, x, k) != id
    decreases n
  {
    if exists k: nat :: k < n && Follow(g, x, k) == id {
      var k: nat :| k < n && Follow(g, x, k) == id;
      m := FirstVisit(g, x, id, k);
    } else {
      m := n;
    }
  }

  /** In a graph whose chains end, the walk for a new id finds something exactly when its edge closes a cycle. */
  lemma WalkFindsIffCycle(g: map<string, string>, id: string, s: string)
    requires "" !in g && id != "" && id !in g && AllEnd(g)
    ensures WalkFindsSeen(g, {id}, s) <==> Cyclic(g[id := s])
  {
    if !WalkFindsSeen(g, {id}, s) {
      var n := QuietWalkEnds(g, {id}, s);
      AddedStillEnds(g, id, s, n);
      EndingIsAcyclic(g[id := s]);
    } else {
      assert ChainEnds(g, s);
      var n0: nat :| Follow(g, s, n0) == "";
      var n := FirstEnd(g, s, n0);
      if forall k: nat :: k < n ==> Follow(g, s, k) != id {
        EndingWalkIsQuiet(g, {id}, s, n);
      } else {
        var k: nat :| k < n && Follow(g, s, k) == id;
        var m := FirstVisit(g, s, id, k);
        SameBefore(g, id, s, s, m);
        assert Follow(g[id := s], id, m + 1) == id;
      }
    }
  }

  // ----- Ledgers

  /** Each event was accepted by validation against the ledger before it. */
  ghost predicate Accepted(ledger: seq<Event>) {
    ledger == []
    || (var init, last := ledger[..|ledger| - 1], ledger[|ledger| - 1];
        Accepted(init) && WellShaped(last) && Linked(last, init))
  }

  ghost predicate DistinctIds(ledger: seq<Event>) {
    forall i, j :: 0 <= i < j < |ledger| ==> ledger[i].eventId != ledger[j].eventId
  }

  lemma {:induction false} AcceptedIsDistinct(ledger: seq<Event>)
    requires Accepted(ledger)
    ensures DistinctIds(ledger) && forall e :: e in ledger ==> e.eventId != ""
  {
    hide Graph, WalkFindsSeen, DistinctIds, TargetValid, OpAllowed;
    if ledger == [] {
      DistinctEmpty();
    } else {
      var init, last := ledger[..|ledger| - 1], ledger[|ledger| - 1];
      AcceptedIsDistinct(init);
      assert ledger == init + [last];
      DistinctAppend(init, last);
    }
  }

  lemma DistinctEmpty()
    ensures DistinctIds([])
  {
  }

  lemma DistinctAppend(init: seq<Event>, last: Event)
    requires DistinctIds(init) && (init != [] ==> last.eventId !in Graph(init))
    ensures DistinctIds(init + [last])
  {
    hide Graph;
    forall i | 0 <= i < |init| ensures init[i].eventId != last.eventId {
      assert init[i] in init;
    }
  }

  /** With distinct ids the graph is the events' own. */
  lemma {:induction false} GraphOfDistinct(ledger: seq<Event>)
    requires DistinctIds(ledger)
    ensures forall e :: e in ledger ==> Graph(ledger)[e.eventId] == e.supersedes
  {
    if ledger != [] {
      var init, last := ledger[..|ledger| - 1], ledger[|ledger| - 1];
      assert ledger == init + [last];
      GraphOfDistinct(init);
      forall e | e in init ensures e.eventId != last.eventId {
        var i :| 0 <= i < |init| && init[i] == e;
        assert ledger[i] == e;
      }
    }
  }

  lemma {:induction false} AcceptedEnds(ledger: seq<Event>)
    requires Accepted(ledger) && (ledger != [] ==> ledger[0].supersedes != ledger[0].eventId)
    ensures AllEnd(Graph(ledger))
  {
    hide TargetValid, OpAllowed;
    if ledger == [] {
      forall id ensures ChainEnds(map[], id) {
        assert Follow(map[], id, 1) == "";
      }
    } else {
      var init, last := ledger[..|ledger| - 1], ledger[|ledger| - 1];
      AcceptedEnds(init);
      AcceptedIsDistinct(init);
      if init == [] {
        var n := if last.supersedes == "" then 0 else 1;
        assert EndsAvoiding(map[], {last.eventId}, last.supersedes, n);
        AddedStillEnds(map[], last.eventId, last.supersedes, n);
      } else {
        var n := QuietWalkEnds(Graph(init), {last.eventId}, last.supersedes);
        AddedStillEnds(Graph(init), last.eventId, last.supersedes, n);
      }
    }
  }

  /**
   * A ledger of events each accepted against the ledger before it has distinct ids, and its supersedes graph has
   * a cycle exactly when its first event, which no check looks at, supersedes itself.
   */
  lemma AcceptedLedgerAcyclicIff(ledger: seq<Event>)
    requires Accepted(ledger)
    ensures DistinctIds(ledger)
    ensures Cyclic(Graph(ledger)) <==> ledger != [] && ledger[0].supersedes == ledger[0].eventId
  {
    hide Graph, Accepted;
    AcceptedIsDistinct(ledger);
    GraphOfDistinct(ledger);
    if ledger != [] && ledger[0].supersedes == ledger[0].eventId {
      var id := ledger[0].eventId;
      assert ledger[0] in ledger;
      assert Follow(Graph(ledger), id, 1) == id;
    } else {
      AcceptedEnds(ledger);
      EndingIsAcyclic(Graph(ledger));
    }
  }

  /** In such a ledger each event but the first supersedes nothing, or an event before it. */
  lemma {:induction false} SupersedesEarlier(ledger: seq<Event>, i: nat)
    requires Accepted(ledger) && 0 < i < |ledger|
    ensures ledger[i].supersedes == "" || exists j :: 0 <= j < i && ledger[j].eventId == ledger[i].supersedes
    decreases |ledger|
  {
    hide WellShaped, WalkFindsSeen;
    var init := ledger[..|ledger| - 1];
    if i < |ledger| - 1 {
      SupersedesEarlier(init, i);
    } else if ledger[i].supersedes != "" {
      var e :| e in init && e.eventId == ledger[i].supersedes;
      var j :| 0 <= j < |init| && init[j] == e;
      assert ledger[j] == e;
    }
  }

  class Ledger {
    var events: seq<Event>

    constructor ()
      ensures events == []
    {
      events := [];
    }

    /** `append_correction`; `digest` stands for the hash of the ledger file. */
    method Append(e: Event, expectedPrefix: string, chain: seq<Event>, digest: seq<Event> -> string)
      returns (ok: bool)
      modifies this
      ensures ok <==> Errors(e, chain) == [] && digest(old(events)) == expectedPrefix
      ensures events == if ok then old(events) + [e] else old(events)
      ensures ok && chain == old(events) && Accepted(old(events)) ==> Accepted(events)
    {
      hide Errors, WellShaped, Linked;
      ErrorsIff(e, chain);
      var errors := Validate(e, chain);
      ok := errors == [] && digest(events) == expectedPrefix;
      if ok {
        assert (events + [e])[..|events|] == events;
        events := events + [e];
      }
    }
  }
}
