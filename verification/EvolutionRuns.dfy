/** Whole runs of the record writers. */
module EvolutionRuns {
  // Whole runs of the record writers, each call stopped anywhere by an error or a kill: which packages keep
  // passing their provenance check (meta_flow/evolution.py, lines 391-556 and 896-921; meta_flow/retrospective.py,
  // lines 459-475 and 485-538).

  import opened Wrappers
  import opened FileTree
  import opened Records
  import opened Confirmation
  import opened Evolution
  import opened Text

  function Run(repo: Repo, calls: seq<Call>): Repo
    decreases |calls|
  {
    if calls == [] then repo else Run(Apply(repo, calls[0]), calls[1..])
  }

  // ----- What can become of the drafts

  predicate IsDraft(repo: Repo, q: Path) {
    q in repo && repo[q].RetroDoc? && repo[q].retro.status.Draft?
  }

  /** No file is gone, and where a report stood before there is no new draft. */
  ghost predicate Stays(repo: Repo, now: Repo) {
    && repo.Keys <= now.Keys
    && forall id :: ReportPath(id) in repo && IsDraft(now, DataPath(id)) ==> IsDraft(repo, DataPath(id))
  }

  lemma StaysTransitive(a: Repo, b: Repo, c: Repo)
    requires Stays(a, b) && Stays(b, c)
    ensures Stays(a, c)
  {
    hide IsDraft;
  }

  /** Actions that put and move no draft bring none in. */
  lemma {:induction false} ReachAddsNoDraft(repo: Repo, actions: seq<Action>, n: nat)
    requires n <= |actions|
    requires forall a :: a in actions ==>
      && (a.Put? && a.record.RetroDoc? ==> !a.record.retro.status.Draft?)
      && (a.Move? ==> !IsDraft(repo, a.from))
    ensures forall q :: IsDraft(Reach(repo, actions, n).0, q) ==> IsDraft(repo, q)
  {
    if n > 0 {
      ReachAddsNoDraft(repo, actions, n - 1);
      assert actions[n - 1] in actions;
    }
  }

  /** Files that no action moves away or unlinks stay. */
  lemma {:induction false} ReachKeepsFiles(files: set<Path>, repo: Repo, actions: seq<Action>, n: nat)
    requires n <= |actions| && files <= repo.Keys
    requires forall a :: a in actions ==> (a.Move? ==> a.from !in files) && (a.Drop? ==> a.path !in files)
    ensures files <= Reach(repo, actions, n).0.Keys
  {
    if n > 0 {
      ReachKeepsFiles(files, repo, actions, n - 1);
      assert actions[n - 1] in actions;
    }
  }

  lemma ConfirmationAddsNoDraft(repo: Repo, id: string, ref: Path, stop: Stop)
    requires CanConfirm(repo, id, ref) && StopOk(stop)
    ensures forall q :: IsDraft(Confirmed(repo, id, ref, stop), q) ==> IsDraft(repo, q)
  {
    hide Temporary, Free, ValidId, SafeRef, Reach;
    var u := Updated(repo[DataPath(id)].retro, ref);
    var writing, placing, cleaning := Writing(id, ref, u), Placing(id, ref), Cleaning(id, ref);
    match stop {
      case InWriting(n) => ReachAddsNoDraft(repo, writing, n);
      case InPlacing(n, m) =>
        var written := Reach(repo, writing, 6).0;
        ReachAddsNoDraft(repo, writing, 6);
        ReachAddsNoDraft(written, placing, n);
        ReachAddsNoDraft(Reach(written, placing, n).0, cleaning, m);
    }
  }

  lemma ConfirmationKeepsFiles(repo: Repo, id: string, ref: Path, stop: Stop)
    requires CanConfirm(repo, id, ref) && StopOk(stop)
    ensures repo.Keys <= Confirmed(repo, id, ref, stop).Keys
  {
    hide Temporary, Free, ValidId, SafeRef, Reach;
    var u := Updated(repo[DataPath(id)].retro, ref);
    var writing, placing, cleaning := Writing(id, ref, u), Placing(id, ref), Cleaning(id, ref);
    match stop {
      case InWriting(n) => ReachKeepsFiles(repo.Keys, repo, writing, n);
      case InPlacing(n, m) =>
        var written := Reach(repo, writing, 6).0;
        ReachKeepsFiles(repo.Keys, repo, writing, 6);
        ReachKeepsFiles(repo.Keys, written, placing, n);
        ReachKeepsFiles(repo.Keys, Reach(written, placing, n).0, cleaning, m);
    }
  }

  lemma NewRetroStays(repo: Repo, r: Retro, stop: WriteStop)
    requires CanWriteRetro(repo, r)
    ensures Stays(repo, Apply(repo, WriteRetro(r, stop)))
  {
    hide ValidId, StatusValid, Free, CanWriteRetro;
    assert ReportPath(r.id) !in repo by { NoReportYet(repo, r); }
    CreateOnlyGrows(repo, WriteRetro(r, stop));
    var now := Apply(repo, WriteRetro(r, stop));
    forall id | ReportPath(id) in repo && IsDraft(now, DataPath(id)) ensures IsDraft(repo, DataPath(id)) {
      PathsInjective(id, r.id);
      ReportIsNotData(r.id, id);
    }
  }

  lemma NoReportYet(repo: Repo, r: Retro)
    ensures CanWriteRetro(repo, r) ==> ReportPath(r.id) !in repo
  {
  }

  /** One more record that is no retrospective. */
  lemma RecordStays(repo: Repo, p: Path, record: Record)
    requires !record.RetroDoc?
    ensures Stays(repo, repo[p := record])
  {
  }

  lemma CallStays(repo: Repo, call: Call)
    ensures Stays(repo, Apply(repo, call))
  {
    hide IsDraft, CanWriteRetro, CanDecide, CanWritePackage, CanWriteResult, CanConfirm, Confirmed, StopOk;
    hide DataPath, ReportPath, PackagePath, ResultPath;
    match call {
      case WriteRetro(r, stop) =>
        if CanWriteRetro(repo, r) {
          NewRetroStays(repo, r, stop);
        }
      case ConfirmFacts(id, ref, stop) =>
        if CanConfirm(repo, id, ref) && StopOk(stop) {
          ConfirmationAddsNoDraft(repo, id, ref, stop);
          ConfirmationKeepsFiles(repo, id, ref, stop);
        }
      case RecordDecision(d, torn) => RecordStays(repo, d.ref, if torn then Torn else DecisionDoc(d));
      case WritePackage(p, torn) => RecordStays(repo, PackagePath(p.id), if torn then Torn else PackageDoc(p));
      case WriteResult(id, outcome, _, torn) =>
        RecordStays(repo, ResultPath(id), if torn then Torn else ResultDoc(id, outcome));
    }
  }

  // ----- One package

  /** A draft whose report path was taken could have been confirmed before as well. */
  lemma ConfirmableBefore(repo: Repo, now: Repo, id: string, ref: Path)
    requires Stays(repo, now) && CanConfirm(now, id, ref) && ReportPath(id) in repo
    ensures CanConfirm(repo, id, ref)
  {
    hide Temporary, ValidId, SafeRef;
    assert IsDraft(now, DataPath(id));
    FreeBefore(repo, now, ref);
  }

  /** A package that passes its check does not become endangered later. */
  lemma StaysUnendangered(repo: Repo, now: Repo, p: Package)
    requires Provenance(repo, p) && Stays(repo, now) && !Endangered(repo, p)
    ensures !Endangered(now, p)
  {
    hide CanConfirm, Provenance, Stays;
    WitnessesThere(repo, p);
    forall id, ref | CanConfirm(now, id, ref) ensures ReportPath(id) !in {p.factsRef, p.decisionRef} {
      if ReportPath(id) in {p.factsRef, p.decisionRef} {
        ConfirmableBefore(repo, now, id, ref);
      }
    }
  }

  lemma WitnessesThere(repo: Repo, p: Package)
    requires Provenance(repo, p)
    ensures p.factsRef in repo && repo[p.factsRef].FactsDoc?
    ensures p.decisionRef in repo && repo[p.decisionRef].DecisionDoc?
  {
    hide Matching, ValidId, RetroIdOf, DecisionValid;
  }

  lemma FreeBefore(repo: Repo, now: Repo, p: Path)
    requires repo.Keys <= now.Keys && Free(now, p)
    ensures Free(repo, p)
  {
  }

  /** The package passes its check, and no draft can come over its witnesses. */
  ghost predicate Safe(repo: Repo, p: Package) {
    Provenance(repo, p) && !Endangered(repo, p)
  }

  lemma CallKeepsSafe(repo: Repo, call: Call, p: Package)
    requires Safe(repo, p)
    ensures Safe(Apply(repo, call), p)
  {
    hide Provenance, Endangered, Apply, Stays;
    EveryCallKeepsProvenanceIff(repo, p);
    CallStays(repo, call);
    StaysUnendangered(repo, Apply(repo, call), p);
  }

  lemma {:induction false} RunKeepsSafe(repo: Repo, calls: seq<Call>, p: Package)
    requires Safe(repo, p)
    ensures Safe(Run(repo, calls), p)
    decreases |calls|
  {
    hide Safe, Apply;
    if calls != [] {
      CallKeepsSafe(repo, calls[0], p);
      RunKeepsSafe(Apply(repo, calls[0]), calls[1..], p);
    }
  }

  /**
   * In any repository whatever: a package keeps passing its provenance check through every run, with errors and
   * kills anywhere, exactly when no draft that can be confirmed has its report path at one of its witnesses.
   */
  lemma EveryRunKeepsProvenanceIff(repo: Repo, p: Package)
    requires Provenance(repo, p)
    ensures (forall calls :: Provenance(Run(repo, calls), p)) <==> !Endangered(repo, p)
  {
    hide Provenance, Endangered, Apply;
    if Endangered(repo, p) {
      EveryCallKeepsProvenanceIff(repo, p);
      var call :| !Provenance(Apply(repo, call), p);
      RunOne(repo, call);
      assert !Provenance(Run(repo, [call]), p);
    } else {
      forall calls ensures Provenance(Run(repo, calls), p) {
        RunKeepsSafe(repo, calls, p);
      }
    }
  }

  lemma RunOne(repo: Repo, call: Call)
    ensures Run(repo, [call]) == Apply(repo, call)
  {
    assert [call][1..] == [];
  }

  /** Where every retrospective has its report, no package is endangered. */
  lemma PairedIsUnendangered(repo: Repo, p: Package)
    requires Paired(repo) && Provenance(repo, p)
    ensures !Endangered(repo, p)
  {
    hide Temporary, ValidId, SafeRef, Free, Provenance;
    WitnessesThere(repo, p);
    forall id, ref | CanConfirm(repo, id, ref) ensures ReportPath(id) !in {p.factsRef, p.decisionRef} {
      assert HasReport(repo, id);
    }
  }

  /** In particular, from such a repository on, whatever calls follow and wherever they are stopped. */
  lemma RunKeepsProvenance(repo: Repo, calls: seq<Call>, p: Package)
    requires Paired(repo) && Provenance(repo, p)
    ensures Provenance(Run(repo, calls), p)
  {
    hide Provenance, Paired, Endangered;
    PairedIsUnendangered(repo, p);
    EveryRunKeepsProvenanceIff(repo, p);
  }

  // ----- All packages

  ghost predicate AllSafe(repo: Repo) {
    forall q :: q in repo && repo[q].PackageDoc? ==> Safe(repo, repo[q].package)
  }

  /** At every point of the run all packages are safe. */
  ghost predicate AlwaysSafe(repo: Repo, calls: seq<Call>)
    decreases |calls|
  {
    AllSafe(repo) && (calls != [] ==> AlwaysSafe(Apply(repo, calls[0]), calls[1..]))
  }

  /** The call, if it writes a package, writes one that no draft endangers. */
  ghost predicate WritesSafely(repo: Repo, call: Call) {
    call.WritePackage? && !call.torn && CanWritePackage(repo, call.package) ==>
      !Endangered(Apply(repo, call), call.package)
  }

  ghost predicate AllWriteSafely(repo: Repo, calls: seq<Call>)
    decreases |calls|
  {
    calls != [] ==> WritesSafely(repo, calls[0]) && AllWriteSafely(Apply(repo, calls[0]), calls[1..])
  }

  lemma CallSafeIff(repo: Repo, call: Call)
    requires AllSafe(repo)
    ensures AllSafe(Apply(repo, call)) <==> WritesSafely(repo, call)
  {
    hide Safe, Provenance, Endangered, CanConfirm, CanDecide, CanWriteRetro, CanWriteResult, Confirmed, PackagePath;
    var now := Apply(repo, call);
    forall q | q in now && now[q].PackageDoc? && WritesSafely(repo, call) ensures Safe(now, now[q].package) {
      if q in repo && repo[q] == now[q] {
        CallKeepsSafe(repo, call, repo[q].package);
      } else {
        NewPackage(repo, call, q);
        WrittenIsProven(repo, call);
      }
    }
    if call.WritePackage? && !call.torn && CanWritePackage(repo, call.package) {
      WrittenIsProven(repo, call);
    }
  }

  lemma WrittenIsProven(repo: Repo, call: Call)
    requires call.WritePackage? && !call.torn && CanWritePackage(repo, call.package)
    ensures var now := Apply(repo, call);
            && PackagePath(call.package.id) in now && now[PackagePath(call.package.id)] == PackageDoc(call.package)
            && (Safe(now, call.package) <==> !Endangered(now, call.package))
  {
    hide Provenance, Endangered, PackagePath, Free;
    CreateOnlyGrows(repo, call);
    GrownProvenance(repo, Apply(repo, call), call.package);
  }

  /**
   * Over any run, with errors and kills anywhere: all packages are safe at every point exactly when every package
   * that is written is unendangered at that moment.
   */
  lemma {:induction false} AllSafeIff(repo: Repo, calls: seq<Call>)
    requires AllSafe(repo)
    ensures AlwaysSafe(repo, calls) <==> AllWriteSafely(repo, calls)
    decreases |calls|
  {
    hide AllSafe, WritesSafely, Apply;
    if calls != [] {
      CallSafeIff(repo, calls[0]);
      if AllSafe(Apply(repo, calls[0])) {
        AllSafeIff(Apply(repo, calls[0]), calls[1..]);
      }
    }
  }

  lemma {:induction false} AlwaysSafeIsProven(repo: Repo, calls: seq<Call>)
    requires AlwaysSafe(repo, calls)
    ensures AllProven(Run(repo, calls))
    decreases |calls|
  {
    hide Apply, Provenance, Endangered;
    if calls != [] {
      AlwaysSafeIsProven(Apply(repo, calls[0]), calls[1..]);
    }
  }

  /** From an empty repository on, with kills anywhere: all packages pass their check if they are so written. */
  lemma EveryPackageProven(calls: seq<Call>)
    requires AllWriteSafely(map[], calls)
    ensures AllProven(Run(map[], calls))
  {
    hide AllWriteSafely, AlwaysSafe, Run, AllProven;
    AllSafeIff(map[], calls);
    AlwaysSafeIsProven(map[], calls);
  }

  /** Without kills between the two writes of a new retrospective every package is so written. */
  lemma {:induction false} HandledWriteSafely(repo: Repo, calls: seq<Call>)
    requires Paired(repo) && forall c :: c in calls ==> Handled(c)
    ensures AllWriteSafely(repo, calls)
    decreases |calls|
  {
    hide Paired, Apply, Handled, Provenance, Endangered, Safe;
    if calls != [] {
      var now := Apply(repo, calls[0]);
      ApplyPaired(repo, calls[0]);
      assert WritesSafely(repo, calls[0]) by {
        if calls[0].WritePackage? && !calls[0].torn && CanWritePackage(repo, calls[0].package) {
          CreateOnlyGrows(repo, calls[0]);
          GrownProvenance(repo, now, calls[0].package);
          PairedIsUnendangered(now, calls[0].package);
        }
      }
      HandledWriteSafely(now, calls[1..]);
    }
  }

  /** So in every repository reached from an empty one without such kills every package passes its check. */
  lemma EveryPackageProvenFromEmpty(calls: seq<Call>)
    requires forall c :: c in calls ==> Handled(c)
    ensures AllProven(Run(map[], calls))
  {
    hide AllWriteSafely, Run, AllProven, Handled;
    HandledWriteSafely(map[], calls);
    EveryPackageProven(calls);
  }

  // ----- A package that is written endangered

  /** The calls up to the package, the first one killed between its two writes. */
  function CallsWithKill(draft: Retro, d: Decision, p: Package): seq<Call> {
    [WriteRetro(draft, KilledBetween), RecordDecision(d, false), WritePackage(p, false)]
  }

  /** The repository after them. */
  function WithKill(repo: Repo, draft: Retro, d: Decision, p: Package): Repo {
    repo[DataPath(draft.id) := RetroDoc(draft)][d.ref := DecisionDoc(d)][PackagePath(p.id) := PackageDoc(p)]
  }

  /**
   * A kill leaves any draft without its report. Any decision recorded at the report's path may then support a
   * package, and confirming the draft puts its report over the decision.
   */
  lemma KillLosesProvenance(repo: Repo, draft: Retro, d: Decision, p: Package, ref: Path)
    requires draft.status.Draft? && CanWriteRetro(repo, draft)
    requires d.ref == ReportPath(draft.id) == p.decisionRef && CanDecide(repo[DataPath(draft.id) := RetroDoc(draft)], d)
    requires CanWritePackage(repo[DataPath(draft.id) := RetroDoc(draft)][d.ref := DecisionDoc(d)], p)
    requires CanConfirm(WithKill(repo, draft, d, p), draft.id, ref)
    ensures Run(repo, CallsWithKill(draft, d, p)) == WithKill(repo, draft, d, p)
    ensures Provenance(WithKill(repo, draft, d, p), p)
    ensures !Provenance(Apply(WithKill(repo, draft, d, p), ConfirmFacts(draft.id, ref, InPlacing(1, 0))), p)
  {
    hide Provenance, CanConfirm, Confirmed, CanDecide, CanWriteRetro, DataPath, ReportPath, PackagePath;
    var a, b, c := WriteRetro(draft, KilledBetween), RecordDecision(d, false), WritePackage(p, false);
    RunThree(repo, a, b, c);
    var r2, r3 := Apply(Apply(repo, a), b), WithKill(repo, draft, d, p);
    CreateOnlyGrows(r2, c);
    GrownProvenance(r2, r3, p);
    FirstReplace(r3, draft.id, ref);
    ReportIsNoDecision(Apply(r3, ConfirmFacts(draft.id, ref, InPlacing(1, 0))), p);
  }

  lemma ReportIsNoDecision(repo: Repo, p: Package)
    requires p.decisionRef in repo && repo[p.decisionRef].ReportDoc?
    ensures !Provenance(repo, p)
  {
  }

  lemma RunThree(repo: Repo, a: Call, b: Call, c: Call)
    ensures Run(repo, [a, b, c]) == Apply(Apply(Apply(repo, a), b), c)
  {
    assert [a, b, c][1..] == [b, c] && [b, c][1..] == [c] && [c][1..] == [];
    assert Run(Apply(Apply(repo, a), b), [c]) == Apply(Apply(Apply(repo, a), b), c);
    assert Run(Apply(repo, a), [b, c]) == Run(Apply(Apply(repo, a), b), [c]);
  }

  // ----- Such a repository

  const CONFIRMED := Retro("a", "project", [Candidate("c", "objective", "project-local")],
                           FactsConfirmed, Some(["facts"]), "body")
  const DRAFT := Retro("x", "project", [], Draft, None, "body")
  const ACCEPTED := Decision("a", "c", "accepted", ["retrospectives", "x.md"], "rationale", "")
  const PACKAGE := Package("e", "project", ["retrospectives", "a.yaml"], "c", ["facts"],
                           ["retrospectives", "x.md"], "objective", "project-local")

  function Before(): Repo {
    map[["retrospectives", "a.yaml"] := RetroDoc(CONFIRMED),
        ["retrospectives", "a.md"] := ReportDoc(CONFIRMED),
        ["facts"] := FactsDoc("a")]
  }

  /** The paths of the run. */
  const PATHS := { ["retrospectives", "a.yaml"], ["retrospectives", "a.md"], ["facts"],
                   ["retrospectives", "x.yaml"], ["retrospectives", "x.md"], ["evolution", "e.yaml"] }

  lemma Names()
    ensures DataPath("a") == ["retrospectives", "a.yaml"] && ReportPath("a") == ["retrospectives", "a.md"]
    ensures DataPath("x") == ["retrospectives", "x.yaml"] && ReportPath("x") == ["retrospectives", "x.md"]
    ensures PackagePath("e") == ["evolution", "e.yaml"]
    ensures "a.yaml" != "a.md" && "a.yaml" != "x.yaml" && "a.md" != "x.md" && "x.yaml" != "x.md"
    ensures "a.yaml" != "x.md" && "a.md" != "x.yaml" && "evolution" != "retrospectives" && "facts" != "retrospectives"
  {
    assert "a" + ".yaml" == "a.yaml" && "a" + ".md" == "a.md";
    assert "x" + ".yaml" == "x.yaml" && "x" + ".md" == "x.md" && "e" + ".yaml" == "e.yaml";
    assert |"a.yaml"| == 6 && |"a.md"| == 4 && "a.yaml"[0] == 'a' && "x.yaml"[0] == 'x';
    assert "a.md"[0] == 'a' && "x.md"[0] == 'x' && |"evolution"| == 9 && |"retrospectives"| == 14 && |"facts"| == 5;
  }

  /** The names have no dots in front, and only `facts` is a name of one part. */
  lemma PathNames(q: Path)
    requires q in PATHS
    ensures q != [] && q[|q| - 1] != "" && q[|q| - 1][0] != '.' && q[0] != "confirmation"
    ensures if q == ["facts"] then |q| == 1 else |q| == 2 && q[0] != "facts"
  {
    assert "confirmation"[0] == 'c' && "retrospectives"[0] == 'r' && "evolution"[0] == 'e' && "facts"[0] == 'f';
  }

  lemma FreeOnPaths(repo: Repo, p: Path)
    requires repo.Keys <= PATHS && p !in repo && (p in PATHS || p == ["confirmation"])
    ensures Free(repo, p)
  {
    hide PATHS;
    if p in PATHS {
      PathNames(p);
    }
    forall q | q in repo ensures !Above(p, q) && !Above(q, p) {
      PathNames(q);
    }
  }

  /** No temporary is there. */
  lemma DottedNotThere(repo: Repo, p: Path)
    requires p != [] && repo.Keys <= PATHS
    ensures Temporary(p) !in repo
  {
    hide PATHS;
    var name := "." + p[|p| - 1] + ".tmp";
    assert name[0] == '.' && Temporary(p)[|p| - 1] == name;
    if Temporary(p) in repo {
      PathNames(Temporary(p));
    }
  }

  lemma SafeNames()
    ensures ValidId("a") && ValidId("x") && SafeRef(["confirmation"]) && DecisionValid(ACCEPTED)
    ensures Matching(CONFIRMED.candidates, "c") == CONFIRMED.candidates && |CONFIRMED.candidates| == 1
  {
    assert !IsSpace("rationale"[0]);
    assert CONFIRMED.candidates[1..] == [];
  }

  lemma ProvenHere(repo: Repo)
    requires ["retrospectives", "a.yaml"] in repo && repo[["retrospectives", "a.yaml"]] == RetroDoc(CONFIRMED)
    requires ["facts"] in repo && repo[["facts"]] == FactsDoc("a")
    requires ["retrospectives", "x.md"] in repo && repo[["retrospectives", "x.md"]] == DecisionDoc(ACCEPTED)
    ensures Provenance(repo, PACKAGE)
  {
    hide Matching, ValidId, DecisionValid;
    Names();
    SafeNames();
    assert RetroIdOf(["retrospectives", "a.yaml"]) == Some("a") by {
      assert "a.yaml"[1..] == ".yaml" && "a.yaml"[..1] == "a";
    }
  }

  /** The condition on kills is needed: a run in which a package loses its provenance. */
  lemma KillExample()
    ensures Provenance(WithKill(Before(), DRAFT, ACCEPTED, PACKAGE), PACKAGE)
    ensures Run(Before(), CallsWithKill(DRAFT, ACCEPTED, PACKAGE)) == WithKill(Before(), DRAFT, ACCEPTED, PACKAGE)
    ensures !Provenance(Apply(WithKill(Before(), DRAFT, ACCEPTED, PACKAGE),
                              ConfirmFacts("x", ["confirmation"], InPlacing(1, 0))), PACKAGE)
  {
    hide Provenance, Confirmed, Run, Apply, Free, ValidId, SafeRef, Matching, DecisionValid, Temporary;
    Names();
    SafeNames();
    PathNames(["facts"]);
    var r1 := Before()[["retrospectives", "x.yaml"] := RetroDoc(DRAFT)];
    var r2 := r1[["retrospectives", "x.md"] := DecisionDoc(ACCEPTED)];
    var r3 := r2[["evolution", "e.yaml"] := PackageDoc(PACKAGE)];
    FreeOnPaths(Before(), ["retrospectives", "x.yaml"]);
    FreeOnPaths(Before(), ["retrospectives", "x.md"]);
    FreeOnPaths(r1, ["retrospectives", "x.md"]);
    ProvenHere(r2);
    FreeOnPaths(r2, ["evolution", "e.yaml"]);
    assert r3.Keys <= PATHS;
    FreeOnPaths(r3, ["confirmation"]);
    DottedNotThere(r3, DataPath("x"));
    DottedNotThere(r3, ReportPath("x"));
    DottedNotThere(r3, ["confirmation"]);
    KillLosesProvenance(Before(), DRAFT, ACCEPTED, PACKAGE, ["confirmation"]);
  }
}
