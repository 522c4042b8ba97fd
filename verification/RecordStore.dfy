/** The record writers in place. */
module RecordStore {
  // The record writers in place: existence checks, then the writes one by one (meta_flow/retrospective.py, lines
  // 459-538; meta_flow/evolution.py, lines 424-448, 548-556 and 896-921).

  import opened Wrappers
  import opened FileTree
  import opened Records
  import opened Confirmation
  import opened Evolution
  import opened Text

  class Store {
    var repo: Repo

    constructor ()
      ensures repo == map[]
    {
      repo := map[];
    }

    /** Carries out the first `n` actions, up to one that raises. */
    method Perform(actions: seq<Action>, n: nat) returns (going: bool)
      requires n <= |actions|
      modifies this
      ensures (repo, going) == Reach(old(repo), actions, n)
    {
      going := true;
      for i := 0 to n
        invariant (repo, going) == Reach(old(repo), actions, i)
      {
        if going {
          match actions[i] {
            case Put(p, r) =>
              repo := repo[p := r];
            case Move(p, q) =>
              if p in repo {
                repo := (repo - {p})[q := repo[p]];
              } else {
                going := false;
              }
            case Drop(p) =>
              repo := repo - {p};
          }
        }
      }
    }

    /**
     * `write_retrospective_create_only`: on success both files stand. Nothing that was there changes, and unless
     * the call is killed between its two writes every retrospective still has its report.
     */
    method WriteRetrospective(r: Retro, stop: WriteStop) returns (ok: bool)
      modifies this
      ensures repo == Apply(old(repo), WriteRetro(r, stop))
      ensures ok <==> CanWriteRetro(old(repo), r) && stop.Complete?
      ensures ok ==> DataPath(r.id) in repo && repo[DataPath(r.id)] == RetroDoc(r)
      ensures ok ==> ReportPath(r.id) in repo && repo[ReportPath(r.id)] == ReportDoc(r)
      ensures Grows(old(repo), repo)
      ensures Paired(old(repo)) && !stop.KilledBetween? ==> Paired(repo)
      ensures AllProven(old(repo)) ==> AllProven(repo)
    {
      hide Paired, AllProven, Grows, Free, ValidId, StatusValid, DataPath, ReportPath;
      CreateOnlyGrows(repo, WriteRetro(r, stop));
      if Paired(repo) && Handled(WriteRetro(r, stop)) {
        ApplyPaired(repo, WriteRetro(r, stop));
      }
      if AllProven(repo) {
        CreateOnlyAllProven(repo, WriteRetro(r, stop));
      }
      ReportIsNotData(r.id, r.id);
      ok := false;
      if !ValidId(r.id) || !StatusValid(r) || !Free(repo, DataPath(r.id)) || !Free(repo, ReportPath(r.id)) {
        return;
      }
      FreeIsNamed(repo, DataPath(r.id));
      repo := repo[DataPath(r.id) := if stop.DataTorn? then Torn else RetroDoc(r)];
      match stop {
        case DataTorn =>
        case KilledBetween =>
        case KilledReporting =>
          repo := repo[ReportPath(r.id) := Torn];
        case ReportRefused(torn) =>
          if torn {
            repo := repo[ReportPath(r.id) := Torn];
          }
          repo := repo - {DataPath(r.id)};
        case Complete =>
          repo := repo[ReportPath(r.id) := ReportDoc(r)];
          ok := true;
      }
    }

    /** `confirm_retrospective_facts` */
    method ConfirmRetrospectiveFacts(id: string, ref: Path, stop: Stop)
      requires StopOk(stop)
      modifies this
      ensures repo == Apply(old(repo), ConfirmFacts(id, ref, stop))
    {
      hide Reach, Free, ValidId, SafeRef, Temporary;
      if !CanConfirm(repo, id, ref) {
        return;
      }
      FreeIsNamed(repo, ref);
      var updated := Updated(repo[DataPath(id)].retro, ref);
      if stop.InWriting? {
        var _ := Perform(Writing(id, ref, updated), stop.written);
        return;
      }
      var _ := Perform(Writing(id, ref, updated), 6);
      var _ := Perform(Placing(id, ref), stop.placed);
      var _ := Perform(Cleaning(id, ref), stop.cleaned);
    }

    /** `load_retrospective` */
    method LoadRetrospective(id: string) returns (r: Option<Retro>)
      ensures r == ReadRetro(repo, id)
    {
      if !ValidId(id) || DataPath(id) !in repo {
        return None;
      }
      match repo[DataPath(id)] {
        case RetroDoc(retro) => r := Some(retro);
        case _ => r := None;
      }
    }

    /** `load_recommendation_decision` */
    method LoadDecision(ref: Path) returns (r: Option<Decision>)
      ensures r == ReadDecision(repo, ref)
    {
      if !SafeRef(ref) || ref !in repo || !repo[ref].DecisionDoc? {
        return None;
      }
      var d := repo[ref].decision;
      if d.ref != ref || d.decision !in {"accepted", "changed", "deferred", "rejected"} {
        return None;
      }
      if Blank(d.rationale) || |d.rationale| > 4000 || (d.decision == "deferred" && Blank(d.restart)) {
        return None;
      }
      r := Some(d);
    }

    /** The checks of `validate_evolution_provenance`, one after the other. */
    method ValidateProvenance(p: Package) returns (ok: bool)
      ensures ok == Provenance(repo, p)
    {
      hide ValidId, DecisionValid, RetroIdOf, Matching, ReadDecision;
      ok := false;
      if RetroIdOf(p.sourceRef).None? {
        return;
      }
      DataPathOfId(p.sourceRef);
      var loaded := LoadRetrospective(RetroIdOf(p.sourceRef).value);
      if loaded.None? {
        return;
      }
      var r := loaded.value;
      if DataPath(r.id) != p.sourceRef || r.project != p.project {
        return;
      }
      if !r.status.FactsConfirmed? || r.confirmationRef != Some(p.factsRef) {
        return;
      }
      if p.factsRef !in repo || repo[p.factsRef] != FactsDoc(r.id) {
        return;
      }
      var candidates := MatchingCandidates(r.candidates, p.candidateId);
      if |candidates| != 1 {
        return;
      }
      if candidates[0].objective != p.objective || candidates[0].applicability != p.applicability {
        return;
      }
      var d := LoadDecision(p.decisionRef);
      if d.None? || d.value.retroId != r.id || d.value.candidateId != p.candidateId || d.value.decision != "accepted" {
        return;
      }
      ok := true;
    }

    /**
     * `record_recommendation_decision`: on success the decision is read back as it was given. Nothing that was
     * there changes, so no package loses its provenance.
     */
    method RecordRecommendation(d: Decision, torn: bool) returns (ok: bool)
      modifies this
      ensures ok <==> CanDecide(old(repo), d) && !torn
      ensures repo == Apply(old(repo), RecordDecision(d, torn))
      ensures ok ==> ReadDecision(repo, d.ref) == Some(d)
      ensures Grows(old(repo), repo) && (!CanDecide(old(repo), d) ==> repo == old(repo))
      ensures Paired(old(repo)) ==> Paired(repo)
      ensures AllProven(old(repo)) ==> AllProven(repo)
    {
      hide ValidId, SafeRef, Free, Matching, Paired, AllProven, Provenance, Blank;
      CreateOnlyGrows(repo, RecordDecision(d, torn));
      if Paired(repo) && Handled(RecordDecision(d, torn)) {
        ApplyPaired(repo, RecordDecision(d, torn));
      }
      if AllProven(repo) {
        CreateOnlyAllProven(repo, RecordDecision(d, torn));
      }
      ok := false;
      if d.decision !in {"accepted", "changed", "deferred", "rejected"} || !SafeRef(d.ref) {
        return;
      }
      var loaded := LoadRetrospective(d.retroId);
      if loaded.None? || !loaded.value.status.FactsConfirmed? {
        return;
      }
      var candidates := MatchingCandidates(loaded.value.candidates, d.candidateId);
      if |candidates| != 1 {
        return;
      }
      if Blank(d.rationale) || |d.rationale| > 4000 || (d.decision == "deferred" && Blank(d.restart)) {
        return;
      }
      if !Free(repo, d.ref) {
        return;
      }
      repo := repo[d.ref := if torn then Torn else DecisionDoc(d)];
      ok := !torn;
    }

    /**
     * `write_evolution_package_create_only`: on success the package stands at its path and passes its provenance
     * check; everything that was there stays.
     */
    method WriteEvolutionPackage(p: Package, torn: bool) returns (ok: bool)
      modifies this
      ensures ok <==> CanWritePackage(old(repo), p) && !torn
      ensures repo == Apply(old(repo), WritePackage(p, torn))
      ensures ok ==> Provenance(repo, p)
      ensures ok ==> PackagePath(p.id) in repo && repo[PackagePath(p.id)] == PackageDoc(p)
      ensures Grows(old(repo), repo) && (!CanWritePackage(old(repo), p) ==> repo == old(repo))
      ensures Paired(old(repo)) ==> Paired(repo)
      ensures AllProven(old(repo)) ==> AllProven(repo)
    {
      hide Free, Paired, AllProven, Provenance, PackagePath;
      ghost var before := repo;
      CreateOnlyGrows(before, WritePackage(p, torn));
      if Paired(before) && Handled(WritePackage(p, torn)) {
        ApplyPaired(before, WritePackage(p, torn));
      }
      if AllProven(before) {
        CreateOnlyAllProven(before, WritePackage(p, torn));
      }
      ok := false;
      if p.factsRef == p.decisionRef {
        return;
      }
      var proven := ValidateProvenance(p);
      if !proven || !Free(repo, PackagePath(p.id)) {
        return;
      }
      GrownProvenance(before, Apply(before, WritePackage(p, torn)), p);
      repo := repo[PackagePath(p.id) := if torn then Torn else PackageDoc(p)];
      ok := !torn;
    }

    /**
     * `write_evolution_result_create_only`; `workMatches` stands for the check of the Work record. On success the
     * result stands at its path beside a package that passes its provenance check.
     */
    method WriteEvolutionResult(id: string, outcome: string, workMatches: bool, torn: bool) returns (ok: bool)
      modifies this
      ensures ok <==> CanWriteResult(old(repo), id, workMatches) && !torn
      ensures repo == Apply(old(repo), WriteResult(id, outcome, workMatches, torn))
      ensures ok ==> PackagePath(id) in repo && repo[PackagePath(id)].PackageDoc?
                     && Provenance(repo, repo[PackagePath(id)].package)
      ensures ok ==> ResultPath(id) in repo && repo[ResultPath(id)] == ResultDoc(id, outcome)
      ensures Grows(old(repo), repo) && (!CanWriteResult(old(repo), id, workMatches) ==> repo == old(repo))
      ensures Paired(old(repo)) ==> Paired(repo)
      ensures AllProven(old(repo)) ==> AllProven(repo)
    {
      hide Free, Paired, AllProven, Provenance, PackagePath, ResultPath;
      ghost var before := repo;
      CreateOnlyGrows(before, WriteResult(id, outcome, workMatches, torn));
      if Paired(before) && Handled(WriteResult(id, outcome, workMatches, torn)) {
        ApplyPaired(before, WriteResult(id, outcome, workMatches, torn));
      }
      if AllProven(before) {
        CreateOnlyAllProven(before, WriteResult(id, outcome, workMatches, torn));
      }
      ok := false;
      if PackagePath(id) !in repo || !repo[PackagePath(id)].PackageDoc? {
        return;
      }
      var p := repo[PackagePath(id)].package;
      var proven := ValidateProvenance(p);
      if !proven || !workMatches || !Free(repo, ResultPath(id)) {
        return;
      }
      GrownProvenance(before, Apply(before, WriteResult(id, outcome, workMatches, torn)), p);
      repo := repo[ResultPath(id) := if torn then Torn else ResultDoc(id, outcome)];
      ok := !torn;
    }
  }

  /** `[item for item in candidates if item.candidate_id == id]` */
  method MatchingCandidates(candidates: seq<Candidate>, id: string) returns (matches: seq<Candidate>)
    ensures matches == Matching(candidates, id)
  {
    matches := [];
    for i := 0 to |candidates|
      invariant matches + Matching(candidates[i..], id) == Matching(candidates, id)
    {
      if candidates[i].id == id {
        matches := matches + [candidates[i]];
      }
    }
  }

  /** The id in a reference names the file it was taken from. */
  lemma DataPathOfId(ref: Path)
    requires RetroIdOf(ref).Some?
    ensures DataPath(RetroIdOf(ref).value) == ref
  {
    assert ref[1] == ref[1][..|ref[1]| - 5] + ".yaml";
    assert ref == [ref[0], ref[1]];
  }
}
