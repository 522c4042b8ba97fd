/**
 * The process repository: which record stands at which path, and the single file-system actions the record
 * writers are made of (meta_flow/retrospective.py and meta_flow/evolution.py).
 */
module Records {
  import opened Wrappers
  import opened FileTree

  datatype Status = Draft | FactsConfirmed

  datatype Candidate = Candidate(id: string, objective: string, applicability: string)

  /** A retrospective; `body` stands for the fields that no later step looks at. */
  datatype Retro = Retro(
    id: string,
    project: string,
    candidates: seq<Candidate>,
    status: Status,
    confirmationRef: Option<Path>,
    body: string)

  datatype Decision = Decision(retroId: string, candidateId: string, decision: string, ref: Path, rationale: string,
                                restart: string)

  datatype Package = Package(
    id: string,
    project: string,
    sourceRef: Path,
    candidateId: string,
    factsRef: Path,
    decisionRef: Path,
    objective: string,
    applicability: string)

  datatype Record =
    | RetroDoc(retro: Retro)
    | ReportDoc(reported: Retro)
    | FactsDoc(retroId: string)
    | DecisionDoc(decision: Decision)
    | PackageDoc(package: Package)
    | ResultDoc(packageId: string, outcome: string)
    | Torn  // a write that was interrupted

  type Repo = map<Path, Record>

  predicate IsAlnum(c: char) {
    'a' <= c <= 'z' || 'A' <= c <= 'Z' || '0' <= c <= '9'
  }

  /** `_ID_RE` */
  predicate ValidId(id: string) {
    && 1 <= |id| <= 64
    && IsAlnum(id[0])
    && forall i :: 0 <= i < |id| ==> IsAlnum(id[i]) || id[i] in {'.', '_', '-'}
  }

  /** A ref none of whose parts goes up. */
  predicate SafeRef(ref: Path) {
    forall part :: part in ref ==> part !in {"", ".", ".."}
  }

  /** Nothing exists at the path, as a file or as a directory, and no file is in the way of its parents. */
  predicate Free(repo: Repo, p: Path) {
    p != [] && p !in repo && forall q :: q in repo ==> !Above(p, q) && !Above(q, p)
  }

  function DataPath(id: string): Path { ["retrospectives", id + ".yaml"] }

  function ReportPath(id: string): Path { ["retrospectives", id + ".md"] }

  /** `path.with_name(f".{path.name}.tmp")` */
  function Temporary(p: Path): Path {
    if p == [] then [] else p[..|p| - 1] + ["." + p[|p| - 1] + ".tmp"]
  }

  /** The names of records and of temporaries never meet. */
  lemma NamesApart(id: string, other: string, p: Path)
    requires ValidId(id) && p != []
    ensures DataPath(id) != ReportPath(other)
    ensures Temporary(p) != p
    ensures Temporary(p) != DataPath(other)
    ensures Temporary(p) != ReportPath(id)
  {
    var name := "." + p[|p| - 1] + ".tmp";
    assert Temporary(p)[|p| - 1] == name;
    assert |name| == |p[|p| - 1]| + 5;
    assert name[0] == '.' && (id + ".md")[0] == id[0];
    assert (id + ".yaml")[|id + ".yaml"| - 1] == 'l' && (other + ".md")[|other + ".md"| - 1] == 'd';
    assert name[|name| - 1] == 'p' && (other + ".yaml")[|other + ".yaml"| - 1] == 'l';
    assert DataPath(id)[1] == id + ".yaml" && ReportPath(other)[1] == other + ".md";
  }

  lemma TemporaryInjective(p: Path, q: Path)
    requires p != [] && q != [] && Temporary(p) == Temporary(q)
    ensures p == q
  {
    var m, n := p[|p| - 1], q[|q| - 1];
    assert |Temporary(p)| == |p| && |Temporary(q)| == |q|;
    assert Temporary(p)[|p| - 1] == "." + m + ".tmp" && Temporary(q)[|q| - 1] == "." + n + ".tmp";
    assert |m| == |n|;
    assert m == ("." + m + ".tmp")[1..|m| + 1] && n == ("." + n + ".tmp")[1..|n| + 1];
    assert p[..|p| - 1] == Temporary(p)[..|p| - 1] && q[..|q| - 1] == Temporary(q)[..|q| - 1];
    assert p == p[..|p| - 1] + [m] && q == q[..|q| - 1] + [n];
  }

  // ----- Actions

  datatype Action =
    | Put(path: Path, record: Record)
    | Move(from: Path, to: Path)  // `os.replace`, which raises when there is nothing to move
    | Drop(path: Path)

  function Do(repo: Repo, a: Action): Option<Repo> {
    match a
    case Put(p, r) => Some(repo[p := r])
    case Move(p, q) => if p in repo then Some((repo - {p})[q := repo[p]]) else None
    case Drop(p) => Some(repo - {p})
  }

  /** The repository after the first `n` actions, or after those before one that raised; and whether none has. */
  function Reach(repo: Repo, actions: seq<Action>, n: nat): (Repo, bool)
    requires n <= |actions|
  {
    if n == 0 then (repo, true)
    else
      var (r, going) := Reach(repo, actions, n - 1);
      if !going then (r, false)
      else
        match Do(r, actions[n - 1])
        case None => (r, false)
        case Some(next) => (next, true)
  }

  function Touched(a: Action): set<Path> {
    match a
    case Put(p, _) => {p}
    case Move(p, q) => {p, q}
    case Drop(p) => {p}
  }

  /** `b` says of `p` what `a` says. */
  predicate SameAt(a: Repo, b: Repo, p: Path) {
    (p in a <==> p in b) && (p in a ==> a[p] == b[p])
  }

  /** What no action touches stays. */
  lemma {:induction false} ReachKeeps(repo: Repo, actions: seq<Action>, n: nat, p: Path)
    requires n <= |actions| && forall a :: a in actions ==> p !in Touched(a)
    ensures SameAt(repo, Reach(repo, actions, n).0, p)
  {
    if n > 0 {
      ReachKeeps(repo, actions, n - 1, p);
      assert p !in Touched(actions[n - 1]);
    }
  }
}
