/** The record writers together. */
module Evolution {
  // The record writers together: once a package is written, does its provenance check keep succeeding?
  // (meta_flow/evolution.py, lines 391-556 and 896-921; meta_flow/retrospective.py, lines 459-475 and 485-538)

  import opened Wrappers
  import opened FileTree
  import opened Records
  import opened Confirmation
  import opened Text

  function PackagePath(id: string): Path { ["evolution", id + ".yaml"] }

  function ResultPath(id: string): Path { ["evolution", id + ".result.yaml"] }

  /** The id in `retrospectives/<id>.yaml`. */
  function RetroIdOf(ref: Path): Option<string> {
    if |ref| == 2 && ref[0] == "retrospectives" && |ref[1]| >= 5 && ref[1][|ref[1]| - 5..] == ".yaml"
    then Some(ref[1][..|ref[1]| - 5])
    else None
  }

  function Matching(candidates: seq<Candidate>, id: string): seq<Candidate> {
    if candidates == [] then []
    else (if candidates[0].id == id then [candidates[0]] else []) + Matching(candidates[1..], id)
  }

  /** The rules that writing and loading a decision share. */
  predicate DecisionValid(d: Decision) {
    && d.decision in {"accepted", "changed", "deferred", "rejected"}
    && SafeRef(d.ref)
    && !Blank(d.rationale) && |d.rationale| <= 4000
    && (d.decision == "deferred" ==> !Blank(d.restart))
  }

  /** `load_recommendation_decision` */
  function ReadDecision(repo: Repo, ref: Path): Option<Decision> {
    if ref in repo && repo[ref].DecisionDoc? && repo[ref].decision.ref == ref && DecisionValid(repo[ref].decision)
    then Some(repo[ref].decision) else None
  }

  /** `load_retrospective`, as far as which file it reads. */
  function ReadRetro(repo: Repo, id: string): Option<Retro> {
    if ValidId(id) && DataPath(id) in repo && repo[DataPath(id)].RetroDoc? then Some(repo[DataPath(id)].retro) else None
  }

  /** `validate_evolution_provenance` */
  predicate Provenance(repo: Repo, p: Package) {
    && RetroIdOf(p.sourceRef).Some? && ValidId(RetroIdOf(p.sourceRef).value)
    && p.sourceRef in repo && repo[p.sourceRef].RetroDoc?
    && var r := repo[p.sourceRef].retro;
    && DataPath(r.id) == p.sourceRef
    && r.project == p.project
    && r.status.FactsConfirmed? && r.confirmationRef == Some(p.factsRef)
    && p.factsRef in repo && repo[p.factsRef] == FactsDoc(r.id)
    && |Matching(r.candidates, p.candidateId)| == 1
    && Matching(r.candidates, p.candidateId)[0].objective == p.objective
    && Matching(r.candidates, p.candidateId)[0].applicability == p.applicability
    && ReadDecision(repo, p.decisionRef).Some?
    && var d := ReadDecision(repo, p.decisionRef).value;
    && d.retroId == r.id && d.candidateId == p.candidateId && d.decision == "accepted"
  }

  /** Where writing a retrospective stops. Only an error, not a kill, runs the handler that unlinks the data. */
  datatype WriteStop =
    | Complete
    | DataTorn
    | ReportRefused(torn: bool)
    | KilledBetween
    | KilledReporting

  datatype Call =
    | WriteRetro(retro: Retro, retroStop: WriteStop)
    | ConfirmFacts(id: string, ref: Path, stop: Stop)
    | RecordDecision(decision: Decision, torn: bool)
    | WritePackage(package: Package, torn: bool)
    | WriteResult(packageId: string, outcome: string, workMatches: bool, torn: bool)

  /** The status rules of `validate_retrospective`. */
  predicate StatusValid(r: Retro) {
    match r.status
    case Draft => r.confirmationRef.None?
    case FactsConfirmed => r.confirmationRef.Some? && SafeRef(r.confirmationRef.value)
  }

  predicate CanWriteRetro(repo: Repo, r: Retro) {
    ValidId(r.id) && StatusValid(r) && Free(repo, DataPath(r.id)) && Free(repo, ReportPath(r.id))
  }

  predicate CanDecide(repo: Repo, d: Decision) {
    && DecisionValid(d) && Free(repo, d.ref) && ValidId(d.retroId)
    && DataPath(d.retroId) in repo && repo[DataPath(d.retroId)].RetroDoc?
    && repo[DataPath(d.retroId)].retro.status.FactsConfirmed?
    && |Matching(repo[DataPath(d.retroId)].retro.candidates, d.candidateId)| == 1
  }

  predicate CanWritePackage(repo: Repo, p: Package) {
    p.factsRef != p.decisionRef && Provenance(repo, p) && Free(repo, PackagePath(p.id))
  }

  predicate CanWriteResult(repo: Repo, id: string, workMatches: bool) {
    && PackagePath(id) in repo && repo[PackagePath(id)].PackageDoc?
    && Provenance(repo, repo[PackagePath(id)].package) && workMatches && Free(repo, ResultPath(id))
  }

  /** The repository after one call; a call whose checks fail changes nothing. */
  function Apply(repo: Repo, call: Call): Repo {
    match call
    case WriteRetro(r, stop) =>
      if !CanWriteRetro(repo, r) then repo
      else
        (match stop
         case Complete => repo[DataPath(r.id) := RetroDoc(r)][ReportPath(r.id) := ReportDoc(r)]
         case DataTorn => repo[DataPath(r.id) := Torn]
         case ReportRefused(torn) => if torn then repo[ReportPath(r.id) := Torn] else repo
         case KilledBetween => repo[DataPath(r.id) := RetroDoc(r)]
         case KilledReporting => repo[DataPath(r.id) := RetroDoc(r)][ReportPath(r.id) := Torn])
    case ConfirmFacts(id, ref, stop) =>
      if CanConfirm(repo, id, ref) && StopOk(stop) then Confirmed(repo, id, ref, stop) else repo
    case RecordDecision(d, torn) =>
      if CanDecide(repo, d) then repo[d.ref := if torn then Torn else DecisionDoc(d)] else repo
    case WritePackage(p, torn) =>
      if CanWritePackage(repo, p) then repo[PackagePath(p.id) := if torn then Torn else PackageDoc(p)] else repo
    case WriteResult(id, outcome, workMatches, torn) =>
      if CanWriteResult(repo, id, workMatches)
      then repo[ResultPath(id) := if torn then Torn else ResultDoc(id, outcome)] else repo
  }

  // ----- What a call leaves alone

  /** Everything there was is still there, unchanged. */
  ghost predicate Grows(repo: Repo, now: Repo) {
    forall p :: p in repo ==> p in now && now[p] == repo[p]
  }

  lemma CreateOnlyGrows(repo: Repo, call: Call)
    requires !call.ConfirmFacts?
    ensures Grows(repo, Apply(repo, call))
  {
    hide CanDecide, CanWritePackage, CanWriteResult, StatusValid, ValidId, Provenance, Matching;
    hide DataPath, ReportPath, PackagePath, ResultPath;
    assert call.RecordDecision? && CanDecide(repo, call.decision) ==> Free(repo, call.decision.ref) by {
      if call.RecordDecision? {
        DecisionIsFree(repo, call.decision);
      }
    }
    assert call.WritePackage? && CanWritePackage(repo, call.package) ==> Free(repo, PackagePath(call.package.id)) by {
      if call.WritePackage? {
        PackageIsFree(repo, call.package);
      }
    }
    assert call.WriteResult? && CanWriteResult(repo, call.packageId, call.workMatches)
      ==> Free(repo, ResultPath(call.packageId)) by {
      if call.WriteResult? {
        ResultIsFree(repo, call.packageId, call.workMatches);
      }
    }
  }

  lemma DecisionIsFree(repo: Repo, d: Decision)
    ensures CanDecide(repo, d) ==> Free(repo, d.ref)
  {
  }

  lemma PackageIsFree(repo: Repo, p: Package)
    ensures CanWritePackage(repo, p) ==> Free(repo, PackagePath(p.id)) && Provenance(repo, p)
  {
  }

  lemma ResultIsFree(repo: Repo, id: string, workMatches: bool)
    ensures CanWriteResult(repo, id, workMatches) ==> Free(repo, ResultPath(id))
  {
  }

  /** A confirmation changes no record but the draft and the report of its own retrospective. */
  lemma ConfirmationKeepsOthers(repo: Repo, id: string, ref: Path, stop: Stop, p: Path)
    requires CanConfirm(repo, id, ref) && StopOk(stop)
    requires p !in Temporaries(id, ref) && p != ref && p != DataPath(id) && p != ReportPath(id)
    ensures SameAt(repo, Confirmed(repo, id, ref, stop), p)
  {
    var u := Updated(repo[DataPath(id)].retro, ref);
    match stop
    case InWriting(n) =>
      ReachKeeps(repo, Writing(id, ref, u), n, p);
    case InPlacing(n, m) =>
      var written := Reach(repo, Writing(id, ref, u), 6).0;
      var placed := Reach(written, Placing(id, ref), n).0;
      ReachKeeps(repo, Writing(id, ref, u), 6, p);
      ReachKeeps(written, Placing(id, ref), n, p);
      ReachKeeps(placed, Cleaning(id, ref), m, p);
  }

  lemma ExistingIsNotTemporary(repo: Repo, id: string, ref: Path, p: Path)
    requires CanConfirm(repo, id, ref) && p in repo
    ensures p !in Temporaries(id, ref) && p != ref
  {
  }

  lemma SameProvenance(repo: Repo, now: Repo, p: Package)
    requires Provenance(repo, p)
    requires SameAt(repo, now, p.sourceRef) && SameAt(repo, now, p.factsRef) && SameAt(repo, now, p.decisionRef)
    ensures Provenance(now, p)
  {
  }

  lemma SourceIsNotReport(ref: Path, id: string)
    requires RetroIdOf(ref).Some?
    ensures ref != ReportPath(id)
  {
    assert ref[1][|ref[1]| - 1] == ".yaml"[4] == 'l';
    assert (id + ".md")[|id + ".md"| - 1] == 'd';
    assert ReportPath(id)[1] == id + ".md";
  }

  /** A confirmation keeps a package's provenance if its report is neither of the package's two witnesses. */
  lemma ConfirmationKeepsProvenance(repo: Repo, id: string, ref: Path, p: Package)
    requires CanConfirm(repo, id, ref) && Provenance(repo, p)
    requires ReportPath(id) !in {p.factsRef, p.decisionRef}
    ensures forall stop :: StopOk(stop) ==> Provenance(Confirmed(repo, id, ref, stop), p)
  {
    hide Confirmed, Temporaries, Matching, ValidId, RetroIdOf, Free, SafeRef, StopOk;
    SourceIsNotReport(p.sourceRef, id);
    forall stop | StopOk(stop) ensures Provenance(Confirmed(repo, id, ref, stop), p) {
      forall q | q in {p.sourceRef, p.factsRef, p.decisionRef}
        ensures SameAt(repo, Confirmed(repo, id, ref, stop), q)
      {
        assert q != DataPath(id);
        ExistingIsNotTemporary(repo, id, ref, q);
        ConfirmationKeepsOthers(repo, id, ref, stop, q);
      }
      SameProvenance(repo, Confirmed(repo, id, ref, stop), p);
    }
  }

  /** The first replace already puts the new report over whatever stood at the report path. */
  lemma FirstReplace(repo: Repo, id: string, ref: Path)
    requires CanConfirm(repo, id, ref) && ReportPath(id) in repo
    ensures var now := Confirmed(repo, id, ref, InPlacing(1, 0));
            ReportPath(id) in now && now[ReportPath(id)].ReportDoc?
  {
    hide Temporary, Free, ValidId, SafeRef;
    PathsApart(repo, id, ref);
    WritingReaches(repo, id, ref);
    var w, p := Written(repo, id, ref), Placing(id, ref);
    assert Reach(w, p, 0) == (w, true) && p[0] == Move(Temporary(ReportPath(id)), ReportPath(id));
    assert ref != ReportPath(id) by { FreeIsNamed(repo, ref); }
    assert w[Temporary(ReportPath(id))].ReportDoc?;
  }

  /** A confirmation keeps a package's provenance at every stop exactly when its report is not such a witness. */
  lemma ConfirmationKeepsProvenanceIff(repo: Repo, id: string, ref: Path, p: Package)
    requires CanConfirm(repo, id, ref) && Provenance(repo, p)
    ensures (forall stop :: StopOk(stop) ==> Provenance(Confirmed(repo, id, ref, stop), p))
       <==> ReportPath(id) !in {p.factsRef, p.decisionRef}
  {
    hide Confirmed, Matching, ValidId, RetroIdOf, CanConfirm;
    if ReportPath(id) !in {p.factsRef, p.decisionRef} {
      ConfirmationKeepsProvenance(repo, id, ref, p);
    } else {
      assert StopOk(InPlacing(1, 0));
      FirstReplace(repo, id, ref);
    }
  }

  // ----- Every retrospective owns its report

  /** Where there is a retrospective there is its report, or what a kill left of it. */
  ghost predicate Paired(repo: Repo) {
    forall id :: DataPath(id) in repo && repo[DataPath(id)].RetroDoc? ==> HasReport(repo, id)
  }

  predicate HasReport(repo: Repo, id: string) {
    ReportPath(id) in repo && (repo[ReportPath(id)].ReportDoc? || repo[ReportPath(id)].Torn?)
  }

  lemma PathsInjective(id: string, other: string)
    ensures DataPath(id) == DataPath(other) ==> id == other
    ensures ReportPath(id) == ReportPath(other) ==> id == other
  {
    assert id == (id + ".yaml")[..|id + ".yaml"| - 5] && other == (other + ".yaml")[..|other + ".yaml"| - 5];
    assert id == (id + ".md")[..|id + ".md"| - 3] && other == (other + ".md")[..|other + ".md"| - 3];
    assert DataPath(id)[1] == id + ".yaml" && DataPath(other)[1] == other + ".yaml";
    assert ReportPath(id)[1] == id + ".md" && ReportPath(other)[1] == other + ".md";
  }

  /** Adding a record that is no retrospective keeps the pairs. */
  lemma AddedPaired(repo: Repo, p: Path, record: Record)
    requires Paired(repo) && p !in repo && !record.RetroDoc?
    ensures Paired(repo[p := record])
  {
  }

  lemma RetroAddedPaired(repo: Repo, r: Retro, report: Record)
    requires Paired(repo) && ValidId(r.id) && DataPath(r.id) !in repo && ReportPath(r.id) !in repo
    requires report.ReportDoc? || report.Torn?
    ensures Paired(repo[DataPath(r.id) := RetroDoc(r)][ReportPath(r.id) := report])
  {
    var now := repo[DataPath(r.id) := RetroDoc(r)][ReportPath(r.id) := report];
    forall id | DataPath(id) in now && now[DataPath(id)].RetroDoc? ensures HasReport(now, id) {
      NamesApart(r.id, id, DataPath(r.id));
      NamesApart(r.id, r.id, DataPath(r.id));
      PathsInjective(id, r.id);
      ReportIsNotData(r.id, id);
    }
  }

  lemma ReportIsNotData(id: string, other: string)
    ensures ReportPath(id) != DataPath(other)
  {
    assert (other + ".yaml")[|other + ".yaml"| - 1] == 'l' && (id + ".md")[|id + ".md"| - 1] == 'd';
    assert DataPath(other)[1] == other + ".yaml" && ReportPath(id)[1] == id + ".md";
  }

  /** During a confirmation, what stands at the report path stays a report. */
  lemma ReportStays(repo: Repo, id: string, ref: Path, stop: Stop)
    requires CanConfirm(repo, id, ref) && StopOk(stop)
    requires HasReport(repo, id)
    ensures HasReport(Confirmed(repo, id, ref, stop), id)
  {
    hide Temporary, Free, ValidId, SafeRef;
    assert ref != [] && ref != ReportPath(id) by { FreeIsNamed(repo, ref); }
    PathsApart(repo, id, ref);
    var u := Updated(repo[DataPath(id)].retro, ref);
    match stop
    case InWriting(n) =>
      ReachKeeps(repo, Writing(id, ref, u), n, ReportPath(id));
    case InPlacing(n, m) =>
      WritingReaches(repo, id, ref);
      var w, p := Written(repo, id, ref), Placing(id, ref);
      ReportPlaced(w, p[0].from, ReportPath(id), p[1], p[2], n);
      CleaningReaches(Reach(w, p, n).0, id, ref, m);
  }

  lemma ReportPlaced(w: Repo, tr: Path, r: Path, b: Action, c: Action, n: nat)
    requires n <= 3 && tr in w && r in w && w[tr].ReportDoc? && (w[r].ReportDoc? || w[r].Torn?)
    requires r !in Touched(b) && r !in Touched(c)
    ensures var now := Reach(w, [Move(tr, r), b, c], n).0; r in now && (now[r].ReportDoc? || now[r].Torn?)
  {
    var p := [Move(tr, r), b, c];
    assert Reach(w, p, 0) == (w, true);
    assert Reach(w, p, 1) == ((w - {tr})[r := w[tr]], true);
    assert n >= 2 ==> SameAt(Reach(w, p, 1).0, Reach(w, p, 2).0, r);
    assert n >= 3 ==> SameAt(Reach(w, p, 2).0, Reach(w, p, 3).0, r);
  }

  lemma ConfirmationPaired(repo: Repo, id: string, ref: Path, stop: Stop)
    requires Paired(repo) && CanConfirm(repo, id, ref) && StopOk(stop)
    ensures Paired(Confirmed(repo, id, ref, stop))
  {
    hide Confirmed, Free, SafeRef, ValidId, DataPath, ReportPath, Temporaries;
    var now := Confirmed(repo, id, ref, stop);
    ReportStays(repo, id, ref, stop);
    forall other | DataPath(other) in now && now[DataPath(other)].RetroDoc? ensures HasReport(now, other) {
      if other != id {
        DataIsNotTemporary(repo, id, ref, other);
        PathsInjective(id, other);
        ReportIsNotData(id, other);
        if DataPath(other) == ref {
          RefHoldsNoRetro(repo, id, ref, stop);
        } else {
          ConfirmationKeepsOthers(repo, id, ref, stop, DataPath(other));
          ExistingIsNotTemporary(repo, id, ref, ReportPath(other));
          ReportIsNotData(other, id);
          ConfirmationKeepsOthers(repo, id, ref, stop, ReportPath(other));
        }
      }
    }
  }

  lemma DataIsNotTemporary(repo: Repo, id: string, ref: Path, other: string)
    requires CanConfirm(repo, id, ref)
    ensures DataPath(other) !in Temporaries(id, ref)
    ensures DataPath(other) == ref ==> RefApart(id, ref)
  {
    NamesApart(id, other, DataPath(id));
    NamesApart(id, other, ReportPath(id));
    NamesApart(id, other, ref);
  }

  /** Unless it is a temporary, the confirmation path only ever holds the decision record. */
  lemma RefHoldsNoRetro(repo: Repo, id: string, ref: Path, stop: Stop)
    requires CanConfirm(repo, id, ref) && StopOk(stop) && RefApart(id, ref) && ref != ReportPath(id)
    ensures var now := Confirmed(repo, id, ref, stop); ref in now ==> now[ref] == FactsDoc(id)
  {
    hide Temporary, Free, ValidId, SafeRef;
    assert ref != [] && ref !in repo by { FreeIsNamed(repo, ref); }
    PathsApart(repo, id, ref);
    var u := Updated(repo[DataPath(id)].retro, ref);
    match stop
    case InWriting(n) =>
      ReachKeeps(repo, Writing(id, ref, u), n, ref);
    case InPlacing(n, m) =>
      WritingReaches(repo, id, ref);
      var w := Written(repo, id, ref);
      PlacingReaches(w, Temporary(ReportPath(id)), ReportPath(id), Temporary(ref), ref,
                     Temporary(DataPath(id)), DataPath(id));
      RefNotTemporary(repo, id, ref);
      CleaningReaches(Reach(w, Placing(id, ref), n).0, id, ref, m);
  }

  /** Not a kill after the data of a new retrospective and before the first byte of its report. */
  predicate Handled(call: Call) {
    call.WriteRetro? ==> !call.retroStop.KilledBetween?
  }

  lemma ApplyPaired(repo: Repo, call: Call)
    requires Paired(repo) && Handled(call)
    ensures Paired(Apply(repo, call))
  {
    hide Paired, CanDecide, CanWritePackage, CanWriteResult, CanConfirm, Confirmed, StatusValid, ValidId, StopOk;
    match call
    case WriteRetro(r, stop) =>
      if CanWriteRetro(repo, r) {
        match stop
        case Complete => RetroAddedPaired(repo, r, ReportDoc(r));
        case KilledReporting => RetroAddedPaired(repo, r, Torn);
        case DataTorn => AddedPaired(repo, DataPath(r.id), Torn);
        case ReportRefused(_) => AddedPaired(repo, ReportPath(r.id), Torn);
      }
    case ConfirmFacts(id, ref, stop) =>
      if CanConfirm(repo, id, ref) && StopOk(stop) {
        ConfirmationPaired(repo, id, ref, stop);
      }
    case RecordDecision(d, torn) =>
      DecisionIsFree(repo, d);
      if CanDecide(repo, d) {
        AddedPaired(repo, d.ref, if torn then Torn else DecisionDoc(d));
      }
    case WritePackage(p, torn) =>
      PackageIsFree(repo, p);
      if CanWritePackage(repo, p) {
        AddedPaired(repo, PackagePath(p.id), if torn then Torn else PackageDoc(p));
      }
    case WriteResult(id, outcome, workMatches, torn) =>
      ResultIsFree(repo, id, workMatches);
      if CanWriteResult(repo, id, workMatches) {
        AddedPaired(repo, ResultPath(id), if torn then Torn else ResultDoc(id, outcome));
      }
  }

  /** The next confirmation may put its report over one of the package's two witnesses. */
  ghost predicate Endangered(repo: Repo, p: Package) {
    exists id, ref :: CanConfirm(repo, id, ref) && ReportPath(id) in {p.factsRef, p.decisionRef}
  }

  /** In any repository whatever: no call, stopped anywhere, loses the provenance exactly when it is not endangered. */
  lemma EveryCallKeepsProvenanceIff(repo: Repo, p: Package)
    requires Provenance(repo, p)
    ensures (forall call :: Provenance(Apply(repo, call), p)) <==> !Endangered(repo, p)
  {
    hide Provenance, CanConfirm, Confirmed, CanDecide, CanWritePackage, CanWriteResult, CanWriteRetro;
    if Endangered(repo, p) {
      var id, ref :| CanConfirm(repo, id, ref) && ReportPath(id) in {p.factsRef, p.decisionRef};
      ConfirmationKeepsProvenanceIff(repo, id, ref, p);
      var stop :| StopOk(stop) && !Provenance(Confirmed(repo, id, ref, stop), p);
      assert !Provenance(Apply(repo, ConfirmFacts(id, ref, stop)), p);
    } else {
      forall call ensures Provenance(Apply(repo, call), p) {
        if call.ConfirmFacts? {
          if CanConfirm(repo, call.id, call.ref) && StopOk(call.stop) {
            ConfirmationKeepsProvenance(repo, call.id, call.ref, p);
          }
        } else {
          CreateOnlyGrows(repo, call);
          GrownProvenance(repo, Apply(repo, call), p);
        }
      }
    }
  }

  lemma GrownProvenance(repo: Repo, now: Repo, p: Package)
    requires Provenance(repo, p) && Grows(repo, now)
    ensures Provenance(now, p)
  {
    hide Matching, ValidId, RetroIdOf, DecisionValid;
    SameProvenance(repo, now, p);
  }

  /** Every package in the repository passes its provenance check. */
  ghost predicate AllProven(repo: Repo) {
    forall q :: q in repo && repo[q].PackageDoc? ==> Provenance(repo, repo[q].package)
  }

  /** Only the package writer creates packages, and it has checked their provenance. */
  lemma NewPackage(repo: Repo, call: Call, q: Path)
    requires q in Apply(repo, call) && Apply(repo, call)[q].PackageDoc?
    requires !(q in repo && repo[q] == Apply(repo, call)[q])
    ensures call == WritePackage(Apply(repo, call)[q].package, false) && CanWritePackage(repo, call.package)
  {
    hide Provenance, CanConfirm, CanDecide, CanWriteRetro, CanWriteResult, Confirmed;
    if call.ConfirmFacts? {
      if CanConfirm(repo, call.id, call.ref) && StopOk(call.stop) {
        ConfirmationWritesNoPackage(repo, call.id, call.ref, call.stop, q);
      }
    } else if call.WritePackage? {
      PackageIsFree(repo, call.package);
    }
  }

  ghost predicate OldOrNoPackage(repo: Repo, now: Repo, q: Path) {
    q in now && now[q].PackageDoc? ==> q in repo && repo[q] == now[q]
  }

  /** Actions on a repository whose movable sources hold no package bring none in. */
  lemma {:induction false} ReachWritesNoPackage(repo: Repo, actions: seq<Action>, n: nat, sources: set<Path>)
    requires n <= |actions|
    requires forall a :: a in actions ==> (a.Put? ==> !a.record.PackageDoc?) && (a.Move? ==> a.from in sources)
    requires forall s :: s in sources && s in repo ==> !repo[s].PackageDoc?
    ensures forall q :: OldOrNoPackage(repo, Reach(repo, actions, n).0, q)
    ensures forall s :: s in sources && s in Reach(repo, actions, n).0 ==> !Reach(repo, actions, n).0[s].PackageDoc?
  {
    if n > 0 {
      ReachWritesNoPackage(repo, actions, n - 1, sources);
      assert actions[n - 1] in actions;
      var before, now := Reach(repo, actions, n - 1).0, Reach(repo, actions, n).0;
      forall q ensures OldOrNoPackage(repo, now, q) {
        assert OldOrNoPackage(repo, before, q);
      }
    }
  }

  lemma ConfirmationWritesNoPackage(repo: Repo, id: string, ref: Path, stop: Stop, q: Path)
    requires CanConfirm(repo, id, ref) && StopOk(stop)
    ensures OldOrNoPackage(repo, Confirmed(repo, id, ref, stop), q)
  {
    hide Temporary, Free, ValidId, SafeRef, Reach;
    var u := Updated(repo[DataPath(id)].retro, ref);
    var t := Temporaries(id, ref);
    match stop
    case InWriting(n) =>
      ReachWritesNoPackage(repo, Writing(id, ref, u), n, t);
    case InPlacing(n, m) =>
      var written := Reach(repo, Writing(id, ref, u), 6).0;
      var placed := Reach(written, Placing(id, ref), n).0;
      ReachWritesNoPackage(repo, Writing(id, ref, u), 6, t);
      ReachWritesNoPackage(written, Placing(id, ref), n, t);
      ReachWritesNoPackage(placed, Cleaning(id, ref), m, t);
      assert OldOrNoPackage(repo, written, q) && OldOrNoPackage(written, placed, q);
      assert OldOrNoPackage(placed, Reach(placed, Cleaning(id, ref), m).0, q);
  }

  /** A create-only call keeps all packages proven. */
  lemma CreateOnlyAllProven(repo: Repo, call: Call)
    requires !call.ConfirmFacts? && AllProven(repo)
    ensures AllProven(Apply(repo, call))
  {
    hide Provenance, CanDecide, CanWriteRetro, CanWriteResult;
    var now := Apply(repo, call);
    CreateOnlyGrows(repo, call);
    forall q | q in now && now[q].PackageDoc? ensures Provenance(now, now[q].package) {
      if !(q in repo && repo[q] == now[q]) {
        NewPackage(repo, call, q);
        PackageIsFree(repo, now[q].package);
      }
      GrownProvenance(repo, now, now[q].package);
    }
  }
}
