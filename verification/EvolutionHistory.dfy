/** The calls behind the records. */
module EvolutionHistory {
  // What stands behind the records of a repository: the calls that put them there (meta_flow/evolution.py, lines
  // 391-556 and 896-921; meta_flow/retrospective.py, lines 459-475 and 485-538).
  //
  // The statements are about the calls of a run and not about the checks that the writers make.

  import opened Wrappers
  import opened FileTree
  import opened Records
  import opened Confirmation
  import opened Evolution
  import opened EvolutionRuns
  import opened Text

  // ----- Backing

  /** Exactly one of the candidates has the id. */
  predicate OnlyCandidate(candidates: seq<Candidate>, c: Candidate) {
    exists i :: 0 <= i < |candidates| && candidates[i] == c && OnlyAt(candidates, i)
  }

  predicate OnlyAt(candidates: seq<Candidate>, i: nat)
    requires i < |candidates|
  {
    forall j :: 0 <= j < |candidates| && j != i ==> candidates[j].id != candidates[i].id
  }

  /** The retrospective was given to a writer: a draft not yet confirmed, or one with a safe confirmation path. */
  ghost predicate Written(h: seq<Call>, r: Retro) {
    && (exists stop :: WriteRetro(r, stop) in h)
    && ValidId(r.id)
    && if r.status.Draft? then r.confirmationRef == None
       else r.confirmationRef.Some? && SafeRef(r.confirmationRef.value)
  }

  /** A written draft, then a confirmation of it with this path. */
  ghost predicate ConfirmedBy(h: seq<Call>, r: Retro, ref: Path) {
    exists k, stop :: 0 <= k < |h| && h[k] == ConfirmFacts(r.id, ref, stop) && IsConfirmation(h[..k], r, ref)
  }

  ghost predicate IsConfirmation(before: seq<Call>, r: Retro, ref: Path) {
    Written(before, r) && r.status.Draft? && SafeRef(ref)
  }

  /** The retrospective was written so, or comes from a written draft by its confirmation. */
  ghost predicate RetroBacked(h: seq<Call>, r: Retro) {
    Written(h, r) || ByConfirmation(h, r)
  }

  ghost predicate ByConfirmation(h: seq<Call>, r: Retro) {
    exists draft, ref :: ConfirmedBy(h, draft, ref) && r == Updated(draft, ref)
  }

  ghost predicate FactsBacked(h: seq<Call>, id: string) {
    exists draft, ref :: ConfirmedBy(h, draft, ref) && draft.id == id
  }

  /** What must have gone before a decision. */
  ghost predicate Decidable(before: seq<Call>, d: Decision) {
    && d.decision in {"accepted", "changed", "deferred", "rejected"} && SafeRef(d.ref)
    && !Blank(d.rationale) && |d.rationale| <= 4000 && (d.decision == "deferred" ==> !Blank(d.restart))
    && exists r: Retro, c: Candidate :: Concerns(before, d, r, c)
  }

  /** The decision is on this candidate of this retrospective. */
  ghost predicate Concerns(before: seq<Call>, d: Decision, r: Retro, c: Candidate) {
    && RetroBacked(before, r) && r.status.FactsConfirmed? && OnlyCandidate(r.candidates, c)
    && d.retroId == r.id && d.candidateId == c.id
  }

  ghost predicate DecisionBacked(h: seq<Call>, d: Decision) {
    exists k :: 0 <= k < |h| && h[k] == RecordDecision(d, false) && Decidable(h[..k], d)
  }

  /** What must have gone before a package: its retrospective, the confirmation of it, and the accepting decision. */
  ghost predicate Supported(before: seq<Call>, p: Package) {
    exists draft: Retro, d: Decision :: Supports(before, p, draft, d)
  }

  ghost predicate Supports(before: seq<Call>, p: Package, draft: Retro, d: Decision) {
    && p.sourceRef == DataPath(draft.id) && p.project == draft.project
    && OnlyCandidate(draft.candidates, Candidate(p.candidateId, p.objective, p.applicability))
    && ConfirmedBy(before, draft, p.factsRef)
    && DecisionBacked(before, d)
    && d.ref == p.decisionRef && d.retroId == draft.id && d.candidateId == p.candidateId && d.decision == "accepted"
  }

  ghost predicate PackageBacked(h: seq<Call>, p: Package) {
    exists k :: 0 <= k < |h| && h[k] == WritePackage(p, false) && p.factsRef != p.decisionRef && Supported(h[..k], p)
  }

  ghost predicate ResultBacked(h: seq<Call>, id: string, outcome: string) {
    exists k, p: Package ::
      0 <= k < |h| && h[k] == WriteResult(id, outcome, true, false) && p.id == id && PackageBacked(h[..k], p)
  }

  /** The calls before account for the record at the path. */
  ghost predicate Backed(h: seq<Call>, q: Path, record: Record) {
    match record
    case RetroDoc(r) => RetroBacked(h, r)
    case ReportDoc(r) => RetroBacked(h, r)
    case FactsDoc(id) => FactsBacked(h, id)
    case DecisionDoc(d) => q == d.ref && DecisionBacked(h, d)
    case PackageDoc(p) => q == PackagePath(p.id) && PackageBacked(h, p)
    case ResultDoc(id, outcome) => q == ResultPath(id) && ResultBacked(h, id, outcome)
    case Torn => true
  }

  // ----- The invariant

  /** A retrospective at this place, if there is one, is a written draft or what its confirmation made of it. */
  ghost predicate FromDraft(h: seq<Call>, id: string, record: Record) {
    record.RetroDoc? ==>
      && record.retro.id == id
      && ((Written(h, record.retro) && record.retro.status.Draft?) || ByConfirmation(h, record.retro))
  }

  /** Retrospectives stand at their own places, and where facts are confirmed there is a retrospective from a draft. */
  ghost predicate Anchored(h: seq<Call>, repo: Repo, record: Record, q: Path) {
    match record
    case RetroDoc(r) => forall x :: q == DataPath(x) ==> x == r.id
    case FactsDoc(id) => DataPath(id) in repo && FromDraft(h, id, repo[DataPath(id)])
    case _ => true
  }

  ghost predicate Inv(h: seq<Call>, repo: Repo) {
    forall q :: q in repo ==> Backed(h, q, repo[q]) && Anchored(h, repo, repo[q], q)
  }

  // ----- More calls take nothing away

  lemma WrittenLater(h: seq<Call>, c: Call, r: Retro)
    requires Written(h, r)
    ensures Written(h + [c], r)
  {
    var stop :| WriteRetro(r, stop) in h;
    assert WriteRetro(r, stop) in h + [c];
  }

  lemma ConfirmedLater(h: seq<Call>, c: Call, r: Retro, ref: Path)
    requires ConfirmedBy(h, r, ref)
    ensures ConfirmedBy(h + [c], r, ref)
  {
    hide IsConfirmation;
    var k, stop :| 0 <= k < |h| && h[k] == ConfirmFacts(r.id, ref, stop) && IsConfirmation(h[..k], r, ref);
    assert (h + [c])[k] == h[k] && (h + [c])[..k] == h[..k];
  }

  lemma RetroLater(h: seq<Call>, c: Call, r: Retro)
    ensures RetroBacked(h, r) ==> RetroBacked(h + [c], r)
    ensures ByConfirmation(h, r) ==> ByConfirmation(h + [c], r)
  {
    hide Written, ConfirmedBy;
    if Written(h, r) {
      WrittenLater(h, c, r);
    }
    if ByConfirmation(h, r) {
      var draft, ref :| ConfirmedBy(h, draft, ref) && r == Updated(draft, ref);
      ConfirmedLater(h, c, draft, ref);
    }
  }

  lemma DecisionLater(h: seq<Call>, c: Call, d: Decision)
    requires DecisionBacked(h, d)
    ensures DecisionBacked(h + [c], d)
  {
    hide Decidable;
    var k :| 0 <= k < |h| && h[k] == RecordDecision(d, false) && Decidable(h[..k], d);
    assert (h + [c])[k] == h[k] && (h + [c])[..k] == h[..k];
  }

  lemma BackedLater(h: seq<Call>, c: Call)
    ensures forall q, record :: Backed(h, q, record) ==> Backed(h + [c], q, record)
  {
    hide RetroBacked, ConfirmedBy, DecisionBacked, Supported, PackagePath, ResultPath;
    forall q, record | Backed(h, q, record) ensures Backed(h + [c], q, record) {
      match record
      case RetroDoc(r) => RetroLater(h, c, r);
      case ReportDoc(r) => RetroLater(h, c, r);
      case FactsDoc(id) =>
        var draft, ref :| ConfirmedBy(h, draft, ref) && draft.id == id;
        ConfirmedLater(h, c, draft, ref);
      case DecisionDoc(d) => DecisionLater(h, c, d);
      case PackageDoc(p) =>
        var k :| 0 <= k < |h| && h[k] == WritePackage(p, false) && p.factsRef != p.decisionRef && Supported(h[..k], p);
        assert (h + [c])[k] == h[k] && (h + [c])[..k] == h[..k];
      case ResultDoc(id, outcome) =>
        var k, p: Package :|
          0 <= k < |h| && h[k] == WriteResult(id, outcome, true, false) && p.id == id && PackageBacked(h[..k], p);
        assert (h + [c])[k] == h[k] && (h + [c])[..k] == h[..k];
      case Torn =>
    }
  }

  lemma FromDraftLater(h: seq<Call>, c: Call, id: string, record: Record)
    requires FromDraft(h, id, record)
    ensures FromDraft(h + [c], id, record)
  {
    hide Written, ByConfirmation;
    if record.RetroDoc? {
      RetroLater(h, c, record.retro);
      if Written(h, record.retro) {
        WrittenLater(h, c, record.retro);
      }
    }
  }

  lemma InvLater(h: seq<Call>, c: Call, repo: Repo)
    requires Inv(h, repo)
    ensures Inv(h + [c], repo)
  {
    hide Backed, FromDraft, DataPath;
    BackedLater(h, c);
    forall q | q in repo ensures Backed(h + [c], q, repo[q]) && Anchored(h + [c], repo, repo[q], q) {
      if repo[q].FactsDoc? {
        FromDraftLater(h, c, repo[q].retroId, repo[DataPath(repo[q].retroId)]);
      }
    }
  }

  // ----- One more record

  lemma AddedInv(h: seq<Call>, repo: Repo, p: Path, record: Record)
    requires Inv(h, repo) && p !in repo && Backed(h, p, record) && !record.FactsDoc?
    requires record.RetroDoc? ==> p == DataPath(record.retro.id)
    ensures Inv(h, repo[p := record])
  {
    hide Backed, FromDraft;
    var now := repo[p := record];
    forall q | q in now ensures Backed(h, q, now[q]) && Anchored(h, now, now[q], q) {
      if q == p {
        if record.RetroDoc? {
          forall x | q == DataPath(x) ensures x == record.retro.id {
            PathsInjective(x, record.retro.id);
          }
        }
      } else {
        assert Anchored(h, repo, repo[q], q);
      }
    }
  }

  lemma TornInv(h: seq<Call>, repo: Repo, p: Path)
    requires Inv(h, repo) && p !in repo
    ensures Inv(h, repo[p := Torn])
  {
    hide Inv;
    AddedInv(h, repo, p, Torn);
  }

  lemma {:induction false} NoneMatching(candidates: seq<Candidate>, id: string)
    requires Matching(candidates, id) == []
    ensures forall c :: c in candidates ==> c.id != id
  {
    if candidates != [] {
      NoneMatching(candidates[1..], id);
    }
  }

  lemma {:induction false} OneMatching(candidates: seq<Candidate>, id: string)
    requires |Matching(candidates, id)| == 1
    ensures Matching(candidates, id)[0].id == id && OnlyCandidate(candidates, Matching(candidates, id)[0])
  {
    var rest := candidates[1..];
    assert forall j :: 0 < j < |candidates| ==> candidates[j] == rest[j - 1];
    if candidates[0].id == id {
      assert Matching(candidates, id)[1..] == Matching(rest, id);
      NoneMatching(rest, id);
      assert OnlyAt(candidates, 0);
    } else {
      assert Matching(candidates, id) == Matching(rest, id);
      OneMatching(rest, id);
      var i :| 0 <= i < |rest| && rest[i] == Matching(rest, id)[0] && OnlyAt(rest, i);
      assert candidates[i + 1] == rest[i] && OnlyAt(candidates, i + 1);
    }
  }

  lemma {:induction false} OnlyIsMatching(candidates: seq<Candidate>, c: Candidate)
    requires OnlyCandidate(candidates, c)
    ensures Matching(candidates, c.id) == [c]
  {
    var i :| 0 <= i < |candidates| && candidates[i] == c && OnlyAt(candidates, i);
    var rest := candidates[1..];
    if i == 0 {
      assert forall j :: 0 <= j < |rest| ==> rest[j] == candidates[j + 1];
      NotMatching(rest, c.id);
    } else {
      assert rest[i - 1] == c && OnlyAt(rest, i - 1);
      OnlyIsMatching(rest, c);
    }
  }

  lemma {:induction false} NotMatching(candidates: seq<Candidate>, id: string)
    requires forall c :: c in candidates ==> c.id != id
    ensures Matching(candidates, id) == []
  {
    if candidates != [] {
      assert candidates[0] in candidates;
      NotMatching(candidates[1..], id);
    }
  }

  /** The records that a package names stand where it names them, and say what it says. */
  predicate Witnessed(repo: Repo, p: Package, r: Retro, d: Decision) {
    && ValidId(r.id) && p.sourceRef == ["retrospectives", r.id + ".yaml"]
    && p.sourceRef in repo && repo[p.sourceRef] == RetroDoc(r)
    && p.factsRef in repo && repo[p.factsRef] == FactsDoc(r.id)
    && p.decisionRef in repo && repo[p.decisionRef] == DecisionDoc(d)
    && r.project == p.project && r.status.FactsConfirmed? && r.confirmationRef == Some(p.factsRef)
    && OnlyCandidate(r.candidates, Candidate(p.candidateId, p.objective, p.applicability))
    && DecisionValid(d) && d.ref == p.decisionRef
    && d.retroId == r.id && d.candidateId == p.candidateId && d.decision == "accepted"
  }

  /** The provenance check succeeds exactly when there are such records. */
  lemma ProvenanceIff(repo: Repo, p: Package)
    ensures Provenance(repo, p) <==> exists r: Retro, d: Decision :: Witnessed(repo, p, r, d)
  {
    hide ValidId, DecisionValid, Matching, OnlyCandidate;
    if Provenance(repo, p) {
      var r := repo[p.sourceRef].retro;
      OneMatching(r.candidates, p.candidateId);
      assert Witnessed(repo, p, r, repo[p.decisionRef].decision);
    }
    if r: Retro, d: Decision :| Witnessed(repo, p, r, d) {
      IdOfDataPath(r.id);
      OnlyIsMatching(r.candidates, Candidate(p.candidateId, p.objective, p.applicability));
    }
  }

  lemma IdOfDataPath(id: string)
    ensures RetroIdOf(DataPath(id)) == Some(id)
  {
    assert (id + ".yaml")[|id + ".yaml"| - 5..] == ".yaml" && (id + ".yaml")[..|id + ".yaml"| - 5] == id;
  }

  // ----- The calls

  lemma LastWritten(h: seq<Call>, r: Retro, stop: WriteStop)
    requires ValidId(r.id) && StatusValid(r)
    ensures Written(h + [WriteRetro(r, stop)], r)
  {
    assert WriteRetro(r, stop) in h + [WriteRetro(r, stop)];
  }

  lemma RetroStep(h: seq<Call>, repo: Repo, r: Retro, stop: WriteStop)
    requires Inv(h, repo)
    ensures Inv(h + [WriteRetro(r, stop)], Apply(repo, WriteRetro(r, stop)))
  {
    hide Inv, Written, ByConfirmation, ValidId, StatusValid, DataPath, ReportPath, Free;
    var later := h + [WriteRetro(r, stop)];
    InvLater(h, WriteRetro(r, stop), repo);
    if CanWriteRetro(repo, r) {
      FreeIsNamed(repo, DataPath(r.id));
      FreeIsNamed(repo, ReportPath(r.id));
      ReportIsNotData(r.id, r.id);
      LastWritten(h, r, stop);
      var data := repo[DataPath(r.id) := RetroDoc(r)];
      AddedInv(later, repo, DataPath(r.id), RetroDoc(r));
      TornInv(later, repo, DataPath(r.id));
      TornInv(later, repo, ReportPath(r.id));
      TornInv(later, data, ReportPath(r.id));
      AddedInv(later, data, ReportPath(r.id), ReportDoc(r));
    }
  }

  lemma LastDecision(h: seq<Call>, repo: Repo, d: Decision)
    requires Inv(h, repo) && CanDecide(repo, d)
    ensures DecisionBacked(h + [RecordDecision(d, false)], d)
  {
    hide Backed, RetroBacked, Matching, OnlyCandidate, Free, ValidId, SafeRef, Blank, DataPath;
    var r := repo[DataPath(d.retroId)].retro;
    assert Backed(h, DataPath(d.retroId), RetroDoc(r)) && Anchored(h, repo, RetroDoc(r), DataPath(d.retroId));
    assert RetroBacked(h, r) by { RetroIsBacked(h, DataPath(d.retroId), r); }
    OneMatching(r.candidates, d.candidateId);
    assert Concerns(h, d, r, Matching(r.candidates, d.candidateId)[0]);
    var later := h + [RecordDecision(d, false)];
    assert later[|h|] == RecordDecision(d, false) && later[..|h|] == h;
    assert Decidable(h, d);
  }

  lemma RetroIsBacked(h: seq<Call>, q: Path, r: Retro)
    ensures Backed(h, q, RetroDoc(r)) ==> RetroBacked(h, r)
  {
  }

  lemma DecisionStep(h: seq<Call>, repo: Repo, d: Decision, torn: bool)
    requires Inv(h, repo)
    ensures Inv(h + [RecordDecision(d, torn)], Apply(repo, RecordDecision(d, torn)))
  {
    hide Inv, CanDecide, DecisionBacked, Free;
    InvLater(h, RecordDecision(d, torn), repo);
    if CanDecide(repo, d) {
      DecisionIsFree(repo, d);
      FreeIsNamed(repo, d.ref);
      if torn {
        TornInv(h + [RecordDecision(d, torn)], repo, d.ref);
      } else {
        LastDecision(h, repo, d);
        AddedInv(h + [RecordDecision(d, torn)], repo, d.ref, DecisionDoc(d));
      }
    }
  }

  /** What the provenance check finds was put there by these calls. */
  lemma ProvenanceIsSupported(h: seq<Call>, repo: Repo, p: Package)
    requires Inv(h, repo) && Provenance(repo, p)
    ensures Supported(h, p)
  {
    hide RetroIdOf, ValidId, Matching, DecisionValid, DataPath, Written, ConfirmedBy, DecisionBacked, OnlyCandidate;
    var r := repo[p.sourceRef].retro;
    var d := ReadDecision(repo, p.decisionRef).value;
    assert Anchored(h, repo, repo[p.factsRef], p.factsRef);
    assert ByConfirmation(h, r);
    var draft, ref :| ConfirmedBy(h, draft, ref) && r == Updated(draft, ref);
    OneMatching(r.candidates, p.candidateId);
    assert Backed(h, p.decisionRef, repo[p.decisionRef]);
    assert Supports(h, p, draft, d);
  }

  lemma PackageStep(h: seq<Call>, repo: Repo, p: Package, torn: bool)
    requires Inv(h, repo)
    ensures Inv(h + [WritePackage(p, torn)], Apply(repo, WritePackage(p, torn)))
  {
    hide Inv, Provenance, Supported, Free, PackagePath;
    var later := h + [WritePackage(p, torn)];
    InvLater(h, WritePackage(p, torn), repo);
    if CanWritePackage(repo, p) {
      FreeIsNamed(repo, PackagePath(p.id));
      if torn {
        TornInv(later, repo, PackagePath(p.id));
      } else {
        ProvenanceIsSupported(h, repo, p);
        assert later[|h|] == WritePackage(p, false) && later[..|h|] == h;
        AddedInv(later, repo, PackagePath(p.id), PackageDoc(p));
      }
    }
  }

  lemma PackagePathInjective(id: string, other: string)
    requires PackagePath(id) == PackagePath(other)
    ensures id == other
  {
    assert PackagePath(id)[1] == id + ".yaml" && PackagePath(other)[1] == other + ".yaml";
    assert id == (id + ".yaml")[..|id + ".yaml"| - 5] && other == (other + ".yaml")[..|other + ".yaml"| - 5];
  }

  lemma LastResult(h: seq<Call>, repo: Repo, id: string, outcome: string)
    requires Inv(h, repo) && CanWriteResult(repo, id, true)
    ensures ResultBacked(h + [WriteResult(id, outcome, true, false)], id, outcome)
  {
    hide Provenance, PackageBacked, Free, PackagePath;
    var p := repo[PackagePath(id)].package;
    assert Backed(h, PackagePath(id), PackageDoc(p));
    PackagePathInjective(id, p.id);
    var later := h + [WriteResult(id, outcome, true, false)];
    assert later[|h|] == WriteResult(id, outcome, true, false) && later[..|h|] == h;
    assert p.id == id && PackageBacked(later[..|h|], p);
  }

  lemma ResultStep(h: seq<Call>, repo: Repo, id: string, outcome: string, workMatches: bool, torn: bool)
    requires Inv(h, repo)
    ensures Inv(h + [WriteResult(id, outcome, workMatches, torn)],
                Apply(repo, WriteResult(id, outcome, workMatches, torn)))
  {
    hide Inv, ResultBacked, ResultPath, Free, PackagePath, Provenance;
    var later := h + [WriteResult(id, outcome, workMatches, torn)];
    InvLater(h, WriteResult(id, outcome, workMatches, torn), repo);
    if CanWriteResult(repo, id, workMatches) {
      FreeIsNamed(repo, ResultPath(id));
      if torn {
        TornInv(later, repo, ResultPath(id));
      } else {
        LastResult(h, repo, id, outcome);
        AddedInv(later, repo, ResultPath(id), ResultDoc(id, outcome));
      }
    }
  }

  // ----- The confirmation

  /** What a confirmation puts anywhere: its updated retrospective only at the place of the data or its temporary. */
  predicate Brings(id: string, u: Retro, q: Path, record: Record) {
    || record in {Torn, ReportDoc(u), FactsDoc(id)}
    || (record == RetroDoc(u) && q in {Temporary(DataPath(id)), DataPath(id)})
  }

  ghost predicate OldOrBrought(repo: Repo, now: Repo, id: string, u: Retro) {
    forall q :: q in now ==> (q in repo && now[q] == repo[q]) || Brings(id, u, q, now[q])
  }

  /** The action puts or moves only what the confirmation brings. */
  ghost predicate BringsOnly(repo: Repo, id: string, u: Retro, a: Action) {
    && (a.Put? ==> Brings(id, u, a.path, a.record))
    && (a.Move? ==> a.from !in repo && a.from != DataPath(id)
                    && (a.from == Temporary(DataPath(id)) ==> a.to == DataPath(id)))
  }

  lemma {:induction false} ReachBrings(repo: Repo, start: Repo, actions: seq<Action>, n: nat, id: string, u: Retro)
    requires n <= |actions| && OldOrBrought(repo, start, id, u)
    requires forall a :: a in actions ==> BringsOnly(repo, id, u, a)
    ensures OldOrBrought(repo, Reach(start, actions, n).0, id, u)
  {
    hide Temporary, DataPath;
    if n > 0 {
      ReachBrings(repo, start, actions, n - 1, id, u);
      assert BringsOnly(repo, id, u, actions[n - 1]);
    }
  }

  lemma ConfirmationBrings(repo: Repo, id: string, ref: Path, stop: Stop)
    requires CanConfirm(repo, id, ref) && StopOk(stop)
    ensures OldOrBrought(repo, Confirmed(repo, id, ref, stop), id, Updated(repo[DataPath(id)].retro, ref))
  {
    hide Temporary, DataPath, ReportPath, Free, ValidId, SafeRef, Reach;
    PathsApart(repo, id, ref);
    FreeIsNamed(repo, ref);
    var u := Updated(repo[DataPath(id)].retro, ref);
    match stop
    case InWriting(n) =>
      ReachBrings(repo, repo, Writing(id, ref, u), n, id, u);
    case InPlacing(n, m) =>
      var written := Reach(repo, Writing(id, ref, u), 6).0;
      var placed := Reach(written, Placing(id, ref), n).0;
      ReachBrings(repo, repo, Writing(id, ref, u), 6, id, u);
      ReachBrings(repo, written, Placing(id, ref), n, id, u);
      ReachBrings(repo, placed, Cleaning(id, ref), m, id, u);
  }

  /** A draft that stands at its place was written so. */
  lemma DraftIsWritten(h: seq<Call>, repo: Repo, id: string)
    requires Inv(h, repo) && IsDraft(repo, DataPath(id))
    ensures repo[DataPath(id)].retro.id == id && Written(h, repo[DataPath(id)].retro)
  {
    hide DataPath, Written, ConfirmedBy;
    assert Backed(h, DataPath(id), repo[DataPath(id)]);
  }

  lemma LastConfirmed(h: seq<Call>, r: Retro, ref: Path, stop: Stop)
    requires Written(h, r) && r.status.Draft? && SafeRef(ref)
    ensures ConfirmedBy(h + [ConfirmFacts(r.id, ref, stop)], r, ref)
    ensures ByConfirmation(h + [ConfirmFacts(r.id, ref, stop)], Updated(r, ref))
    ensures FactsBacked(h + [ConfirmFacts(r.id, ref, stop)], r.id)
  {
    hide Written, SafeRef;
    var later := h + [ConfirmFacts(r.id, ref, stop)];
    assert later[|h|] == ConfirmFacts(r.id, ref, stop) && later[..|h|] == h;
    assert ConfirmedBy(later, r, ref);
  }

  /** What stands at the place of a retrospective is what stood there, or what its own confirmation made of it. */
  lemma PlaceAfter(repo: Repo, now: Repo, id: string, u: Retro, x: string)
    requires OldOrBrought(repo, now, id, u) && DataPath(x) in repo && DataPath(x) in now && now[DataPath(x)].RetroDoc?
    ensures now[DataPath(x)] == repo[DataPath(x)] || (now[DataPath(x)] == RetroDoc(u) && x == id)
  {
    hide Temporary;
    NamesApartFrom(id, x);
    PathsInjective(x, id);
  }

  lemma NamesApartFrom(id: string, x: string)
    ensures Temporary(DataPath(id)) != DataPath(x)
  {
    var name := "." + (id + ".yaml") + ".tmp";
    assert Temporary(DataPath(id))[1] == name && DataPath(x)[1] == x + ".yaml";
    assert name[|name| - 1] == 'p' && (x + ".yaml")[|x + ".yaml"| - 1] == 'l';
  }

  lemma BroughtInv(h: seq<Call>, repo: Repo, now: Repo, id: string, u: Retro, q: Path)
    requires Inv(h, repo) && OldOrBrought(repo, now, id, u) && repo.Keys <= now.Keys && DataPath(id) in repo
    requires ByConfirmation(h, u) && FactsBacked(h, id) && u.id == id
    requires FromDraft(h, id, repo[DataPath(id)]) && q in now
    ensures Backed(h, q, now[q]) && Anchored(h, now, now[q], q)
  {
    hide Temporary, DataPath, Written, ByConfirmation, FactsBacked, DecisionBacked, PackageBacked, ResultBacked;
    if now[q].FactsDoc? {
      var x := now[q].retroId;
      assert DataPath(x) in repo && FromDraft(h, x, repo[DataPath(x)]) by {
        assert q in repo && now[q] == repo[q] ==> Anchored(h, repo, repo[q], q);
      }
      if now[DataPath(x)].RetroDoc? {
        PlaceAfter(repo, now, id, u, x);
      }
    }
    if now[q].RetroDoc? {
      forall x | q == DataPath(x) ensures x == now[q].retro.id {
        NamesApartFrom(id, x);
        PathsInjective(x, id);
      }
    }
  }

  lemma ConfirmStep(h: seq<Call>, repo: Repo, id: string, ref: Path, stop: Stop)
    requires Inv(h, repo)
    ensures Inv(h + [ConfirmFacts(id, ref, stop)], Apply(repo, ConfirmFacts(id, ref, stop)))
  {
    hide Backed, Anchored, Written, ByConfirmation, FactsBacked, ConfirmedBy, Confirmed, OldOrBrought, DataPath;
    hide Temporary, ReportPath, ValidId, SafeRef, Free;
    var c := ConfirmFacts(id, ref, stop);
    InvLater(h, c, repo);
    if CanConfirm(repo, id, ref) && StopOk(stop) {
      var r, now := repo[DataPath(id)].retro, Confirmed(repo, id, ref, stop);
      DraftIsWritten(h, repo, id);
      WrittenLater(h, c, r);
      LastConfirmed(h, r, ref, stop);
      ConfirmationBrings(repo, id, ref, stop);
      ConfirmationKeepsFiles(repo, id, ref, stop);
      forall q | q in now ensures Backed(h + [c], q, now[q]) && Anchored(h + [c], now, now[q], q) {
        BroughtInv(h + [c], repo, now, id, Updated(r, ref), q);
      }
    }
  }

  // ----- All runs

  lemma {:induction false} RunSnoc(repo: Repo, calls: seq<Call>, c: Call)
    ensures Run(repo, calls + [c]) == Apply(Run(repo, calls), c)
    decreases |calls|
  {
    hide Apply;
    if calls == [] {
      assert [] + [c] == [c] && [c][1..] == [];
      RunOne(repo, c);
    } else {
      assert (calls + [c])[1..] == calls[1..] + [c];
      RunSnoc(Apply(repo, calls[0]), calls[1..], c);
    }
  }

  lemma {:induction false} RunInv(calls: seq<Call>)
    ensures Inv(calls, Run(map[], calls))
    decreases |calls|
  {
    hide Inv, Apply;
    if calls == [] {
      NothingStands();
    } else {
      var h, c := calls[..|calls| - 1], calls[|calls| - 1];
      assert calls == h + [c];
      RunInv(h);
      RunSnoc(map[], h, c);
      var repo := Run(map[], h);
      match c
      case WriteRetro(r, stop) => RetroStep(h, repo, r, stop);
      case ConfirmFacts(id, ref, stop) => ConfirmStep(h, repo, id, ref, stop);
      case RecordDecision(d, torn) => DecisionStep(h, repo, d, torn);
      case WritePackage(p, torn) => PackageStep(h, repo, p, torn);
      case WriteResult(id, outcome, workMatches, torn) => ResultStep(h, repo, id, outcome, workMatches, torn);
    }
  }

  lemma NothingStands()
    ensures Inv([], map[])
  {
  }

  /**
   * Over any run from the empty repository, with errors and kills anywhere: every record that stands anywhere is
   * accounted for by calls of the run, in the order in which they depend on each other.
   */
  lemma EveryRecordBacked(calls: seq<Call>)
    ensures forall q :: q in Run(map[], calls) ==> Backed(calls, q, Run(map[], calls)[q])
  {
    hide Backed, Anchored, Run;
    RunInv(calls);
  }

  /**
   * In particular, where a package stands, the run has written a draft of its project with exactly one candidate of
   * its id, objective and applicability, has confirmed the draft at the package's confirmation path, has recorded an
   * accepting decision on the candidate at the package's decision path, and only then has written the package.
   */
  lemma EveryPackageAccepted(calls: seq<Call>, q: Path)
    requires q in Run(map[], calls) && Run(map[], calls)[q].PackageDoc?
    ensures var p := Run(map[], calls)[q].package;
            exists k :: 0 <= k < |calls| && calls[k] == WritePackage(p, false) && Supported(calls[..k], p)
  {
    hide Run, Supported, PackagePath;
    EveryRecordBacked(calls);
  }

  // ----- A run that goes through

  /** No path lies above another, and none is the root. */
  ghost predicate Spread(paths: set<Path>) {
    && [] !in paths && forall p, q :: p in paths && q in paths ==> !Above(p, q)
  }

  lemma SpreadIsFree(paths: set<Path>, repo: Repo, p: Path)
    requires Spread(paths) && repo.Keys <= paths && p in paths && p !in repo
    ensures Free(repo, p)
  {
  }

  /** The files of a draft, its confirmation, a decision on it, a package and its result. */
  function FilesOf(draft: Retro, facts: Path, d: Decision, p: Package): set<Path> {
    NamedFiles(draft, p) + {facts, d.ref}
  }

  function NamedFiles(draft: Retro, p: Package): set<Path> {
    {DataPath(draft.id), ReportPath(draft.id), PackagePath(p.id), ResultPath(p.id)}
  }

  /** They fit together, and each has its own path. */
  ghost predicate Fitting(draft: Retro, facts: Path, d: Decision, p: Package) {
    && ValidId(draft.id) && draft.status.Draft? && draft.confirmationRef == None
    && SafeRef(facts) && RefApart(draft.id, facts)
    && DecisionValid(d) && d.retroId == draft.id && d.candidateId == p.candidateId && d.decision == "accepted"
    && p.sourceRef == DataPath(draft.id) && p.project == draft.project && p.factsRef == facts && p.decisionRef == d.ref
    && OnlyCandidate(draft.candidates, Candidate(p.candidateId, p.objective, p.applicability))
    && Spread(FilesOf(draft, facts, d, p)) && facts != d.ref
    && facts !in NamedFiles(draft, p) && d.ref !in NamedFiles(draft, p)
  }

  function CallsFor(draft: Retro, facts: Path, d: Decision, p: Package, outcome: string): seq<Call> {
    [WriteRetro(draft, WriteStop.Complete), ConfirmFacts(draft.id, facts, DONE), RecordDecision(d, false),
     WritePackage(p, false), WriteResult(p.id, outcome, true, false)]
  }

  lemma NamedDiffer(id: string, other: string)
    ensures DataPath(id) != ReportPath(id) && PackagePath(other) != ResultPath(other)
    ensures DataPath(id)[0] != PackagePath(other)[0] && ReportPath(id)[0] != PackagePath(other)[0]
    ensures DataPath(id)[0] != ResultPath(other)[0] && ReportPath(id)[0] != ResultPath(other)[0]
  {
    ReportIsNotData(id, id);
    assert PackagePath(other)[1] == other + ".yaml" && ResultPath(other)[1] == other + ".result.yaml";
    assert |other + ".yaml"| != |other + ".result.yaml"|;
    assert |"retrospectives"| != |"evolution"|;
  }

  /** The repository with a new draft and its report. */
  function Drafted(draft: Retro): Repo {
    map[DataPath(draft.id) := RetroDoc(draft)][ReportPath(draft.id) := ReportDoc(draft)]
  }

  lemma DraftConfirmed(draft: Retro, facts: Path)
    requires ValidId(draft.id) && draft.status.Draft? && SafeRef(facts) && Free(Drafted(draft), facts)
    requires RefApart(draft.id, facts)
    ensures CanConfirm(Drafted(draft), draft.id, facts)
    ensures var now := Confirmed(Drafted(draft), draft.id, facts, DONE);
            && now.Keys <= {DataPath(draft.id), ReportPath(draft.id), facts}
            && DataPath(draft.id) in now && now[DataPath(draft.id)] == RetroDoc(Updated(draft, facts))
            && facts in now && now[facts] == FactsDoc(draft.id)
  {
    hide Confirmed, Temporary, DataPath, ReportPath, ValidId, SafeRef, Free, Temporaries;
    var repo, id := Drafted(draft), draft.id;
    FreeIsNamed(repo, facts);
    ReportIsNotData(id, id);
    assert CanConfirm(repo, id, facts) by { NothingTemporary(id, facts); }
    assert facts !in repo by { ConfirmsAtFree(repo, id, facts); }
    ConfirmationCompletesIff(repo, id, facts);
    ConfirmationKeepsOrder(repo, id, facts, DONE);
    var now := Confirmed(repo, id, facts, DONE);
    forall q | q in now ensures q in {DataPath(id), ReportPath(id), facts} {
      if q !in Temporaries(id, facts) && q !in {DataPath(id), ReportPath(id), facts} {
        ConfirmationKeepsOthers(repo, id, facts, DONE, q);
      }
    }
  }

  lemma NothingTemporary(id: string, facts: Path)
    requires ValidId(id) && facts != []
    ensures forall p :: p in {DataPath(id), ReportPath(id), facts} ==> Temporary(p) !in {DataPath(id), ReportPath(id)}
  {
    NamesApart(id, id, DataPath(id));
    NamesApart(id, id, ReportPath(id));
    NamesApart(id, id, facts);
  }

  lemma ConfirmsAtFree(repo: Repo, id: string, ref: Path)
    requires CanConfirm(repo, id, ref)
    ensures Free(repo, ref) && ref !in repo
  {
  }

  /** After the confirmation, the decision, the package and the result pass the checks of their writers. */
  lemma RestGoesThrough(draft: Retro, facts: Path, d: Decision, p: Package, outcome: string, two: Repo)
    requires Fitting(draft, facts, d, p)
    requires two.Keys <= {DataPath(draft.id), ReportPath(draft.id), facts}
    requires DataPath(draft.id) in two && two[DataPath(draft.id)] == RetroDoc(Updated(draft, facts))
    requires facts in two && two[facts] == FactsDoc(draft.id)
    ensures var three := two[d.ref := DecisionDoc(d)];
            var four := three[PackagePath(p.id) := PackageDoc(p)];
            && Apply(two, RecordDecision(d, false)) == three
            && Apply(three, WritePackage(p, false)) == four
            && Apply(four, WriteResult(p.id, outcome, true, false))
               == four[ResultPath(p.id) := ResultDoc(p.id, outcome)]
  {
    hide ValidId, SafeRef, DecisionValid, Free, Provenance, Spread, OnlyCandidate, RefApart;
    hide DataPath, ReportPath, PackagePath, ResultPath;
    var all := FilesOf(draft, facts, d, p);
    NamedDiffer(draft.id, p.id);
    var c := Candidate(p.candidateId, p.objective, p.applicability);
    OnlyIsMatching(draft.candidates, c);
    SpreadIsFree(all, two, d.ref);
    var three := two[d.ref := DecisionDoc(d)];
    assert Witnessed(three, p, Updated(draft, facts), d) by { DataPathIs(draft.id); }
    ProvenanceIff(three, p);
    SpreadIsFree(all, three, PackagePath(p.id));
    var four := three[PackagePath(p.id) := PackageDoc(p)];
    assert Grows(three, four);
    GrownProvenance(three, four, p);
    SpreadIsFree(all, four, ResultPath(p.id));
  }

  lemma DataPathIs(id: string)
    ensures DataPath(id) == ["retrospectives", id + ".yaml"]
  {
  }

  /** From the empty repository, calls on files that fit together go through to the result. */
  lemma FittingRunGoesThrough(draft: Retro, facts: Path, d: Decision, p: Package, outcome: string)
    requires Fitting(draft, facts, d, p)
    ensures var now := Run(map[], CallsFor(draft, facts, d, p, outcome));
            && PackagePath(p.id) in now && now[PackagePath(p.id)] == PackageDoc(p)
            && ResultPath(p.id) in now && now[ResultPath(p.id)] == ResultDoc(p.id, outcome)
  {
    hide DecisionValid, Provenance, Free, OnlyCandidate, Confirmed, CanConfirm, SafeRef, ValidId, Spread;
    hide DataPath, ReportPath, PackagePath, ResultPath;
    NamedDiffer(draft.id, p.id);
    assert Apply(map[], WriteRetro(draft, WriteStop.Complete)) == Drafted(draft) by { EmptyIsFree(draft); }
    SpreadIsFree(FilesOf(draft, facts, d, p), Drafted(draft), facts);
    DraftConfirmed(draft, facts);
    var two := Confirmed(Drafted(draft), draft.id, facts, DONE);
    RestGoesThrough(draft, facts, d, p, outcome, two);
    RunFive(map[], CallsFor(draft, facts, d, p, outcome));
  }

  lemma EmptyIsFree(draft: Retro)
    requires ValidId(draft.id) && draft.status.Draft? && draft.confirmationRef == None
    ensures CanWriteRetro(map[], draft)
  {
  }

  lemma RunFive(repo: Repo, c: seq<Call>)
    requires |c| == 5
    ensures Run(repo, c) == Apply(Apply(Apply(Apply(Apply(repo, c[0]), c[1]), c[2]), c[3]), c[4])
  {
    hide Apply;
    var one := Apply(repo, c[0]);
    var two := Apply(one, c[1]);
    assert c[1..][1..] == c[2..] && c[2..] == [c[2], c[3], c[4]];
    assert Run(repo, c) == Run(one, c[1..]) == Run(two, c[2..]);
    RunThree(two, c[2], c[3], c[4]);
  }

  // ----- No path leads out of the repository

  ghost predicate SafePaths(repo: Repo) {
    forall q :: q in repo ==> SafeRef(q)
  }

  lemma NamesAreSafe(id: string, p: Path)
    ensures SafeRef(DataPath(id)) && SafeRef(ReportPath(id)) && SafeRef(PackagePath(id)) && SafeRef(ResultPath(id))
    ensures SafeRef(p) ==> SafeRef(Temporary(p))
  {
    assert |id + ".yaml"| >= 5 && |id + ".md"| >= 3 && |id + ".result.yaml"| >= 5;
    if p != [] && SafeRef(p) {
      var name := "." + p[|p| - 1] + ".tmp";
      assert |name| >= 5;
      assert forall part :: part in Temporary(p) ==> part == name || part in p;
    }
  }

  lemma {:induction false} ReachSafe(repo: Repo, actions: seq<Action>, n: nat)
    requires n <= |actions| && SafePaths(repo)
    requires forall a, p :: a in actions && p in Touched(a) ==> SafeRef(p)
    ensures SafePaths(Reach(repo, actions, n).0)
  {
    hide SafeRef;
    if n > 0 {
      ReachSafe(repo, actions, n - 1);
      var a := actions[n - 1];
      assert a in actions;
      assert forall p :: p in Touched(a) ==> SafeRef(p);
    }
  }

  lemma ConfirmationSafe(repo: Repo, id: string, ref: Path, stop: Stop)
    requires SafePaths(repo) && CanConfirm(repo, id, ref) && StopOk(stop)
    ensures SafePaths(Confirmed(repo, id, ref, stop))
  {
    hide SafePaths, SafeRef, Temporary, DataPath, ReportPath, Free, ValidId, Reach;
    NamesAreSafe(id, DataPath(id));
    NamesAreSafe(id, ReportPath(id));
    NamesAreSafe(id, ref);
    var u := Updated(repo[DataPath(id)].retro, ref);
    match stop
    case InWriting(n) =>
      ReachSafe(repo, Writing(id, ref, u), n);
    case InPlacing(n, m) =>
      var written := Reach(repo, Writing(id, ref, u), 6).0;
      var placed := Reach(written, Placing(id, ref), n).0;
      ReachSafe(repo, Writing(id, ref, u), 6);
      ReachSafe(written, Placing(id, ref), n);
      ReachSafe(placed, Cleaning(id, ref), m);
  }

  lemma CallSafe(repo: Repo, c: Call)
    requires SafePaths(repo)
    ensures SafePaths(Apply(repo, c))
  {
    hide SafeRef, Temporary, DataPath, ReportPath, PackagePath, ResultPath, Confirmed, CanWriteRetro, Provenance, Free;
    hide CanWritePackage, CanWriteResult;
    match c
    case WriteRetro(r, stop) => NamesAreSafe(r.id, []);
    case ConfirmFacts(id, ref, stop) =>
      if CanConfirm(repo, id, ref) && StopOk(stop) {
        ConfirmationSafe(repo, id, ref, stop);
      }
    case RecordDecision(d, torn) =>
    case WritePackage(p, torn) => NamesAreSafe(p.id, []);
    case WriteResult(id, _, _, _) => NamesAreSafe(id, []);
  }

  lemma {:induction false} RunSafe(repo: Repo, calls: seq<Call>)
    requires SafePaths(repo)
    ensures SafePaths(Run(repo, calls))
    decreases |calls|
  {
    hide SafePaths, Apply;
    if calls != [] {
      CallSafe(repo, calls[0]);
      RunSafe(Apply(repo, calls[0]), calls[1..]);
    }
  }

  /** No call of any run puts anything at a path with a part that goes up. */
  lemma EveryPathSafe(calls: seq<Call>, q: Path)
    requires q in Run(map[], calls)
    ensures forall part :: part in q ==> part !in {"", ".", ".."}
  {
    hide Run;
    RunSafe(map[], calls);
    assert SafeRef(q);
  }
}
