/** The exclusion policy and the source tree observer. */
module DigestPolicy {
  // The exclusion policy for a provider's payload, and the observer of its source tree
  // (delivery/scripts/digest_policy.py, lines 175-195 and 252-356). Hashing is a parameter. A logical ref is the
  // sequence of its parts.

  import opened Wrappers
  import opened PosixPath
  import Text

  type Ref = seq<string>

  datatype Reason = PyCache | Pyc | Build | Dist | KnownGenerated | DistributionMetadata

  /** `_exclusion_reason` */
  function ExclusionReason(ref: Ref, known: set<Ref>): Option<Reason> {
    if "__pycache__" in ref then Some(PyCache)
    else if ref != [] && |ref[|ref| - 1]| > 4 && Text.EndsWith(ref[|ref| - 1], ".pyc") then Some(Pyc)
    else if |ref| >= 2 && ref[0] == "delivery" && ref[1] == "build" then Some(Build)
    else if |ref| >= 2 && ref[0] == "delivery" && ref[1] == "dist" then Some(Dist)
    else if ref in known then Some(KnownGenerated)
    else None
  }

  /** A file is left out exactly for being compiled, built, or known to be generated. */
  lemma ExcludedIff(ref: Ref, known: set<Ref>)
    ensures ExclusionReason(ref, known).Some? <==>
            || (exists i :: 0 <= i < |ref| && ref[i] == "__pycache__")
            || (exists stem: string, i :: stem != "" && i == |ref| - 1 >= 0 && ref[i] == stem + ".pyc")
            || ["delivery", "build"] <= ref || ["delivery", "dist"] <= ref
            || ref in known
  {
    if ref != [] {
      var last := ref[|ref| - 1];
      if |last| > 4 && Text.EndsWith(last, ".pyc") {
        assert last == last[..|last| - 4] + ".pyc";
      }
      if stem: string :| stem != "" && last == stem + ".pyc" {
        assert last[|last| - 4..] == ".pyc";
      }
    }
    assert |ref| >= 2 ==> ref[..2] == [ref[0], ref[1]];
  }

  /** `_is_distribution_generated` */
  predicate DistributionGenerated(ref: Ref) {
    && ref != []
    && (exists i :: 0 <= i < |ref| - 1 && Text.EndsWith(ref[i], ".dist-info"))
    && ref[|ref| - 1] in {"INSTALLER", "RECORD", "REQUESTED", "direct_url.json", "uv_cache.json"}
  }

  /** `payload_exclusion_reason` on a safe ref. */
  function PayloadReason(ref: Ref, known: set<Ref>): Option<Reason> {
    if ExclusionReason(ref, known).Some? then ExclusionReason(ref, known)
    else if DistributionGenerated(ref) then Some(DistributionMetadata)
    else None
  }

  /** `_safe_archive_ref` */
  function SafeArchiveRef(name: string): Option<Ref> {
    if name == "" || '\\' in name || name[0] == '/' || ".." in PathParts(name) then None
    else Some(PathParts(name))
  }

  /** The text of a ref: its parts behind each other with slashes between them. */
  function RefText(ref: Ref): string {
    if ref == [] then "" else if |ref| == 1 then ref[0] else RefText(ref[..|ref| - 1]) + "/" + ref[|ref| - 1]
  }

  predicate PlainPart(part: string) {
    part !in {"", ".", ".."} && '/' !in part && '\\' !in part
  }

  ghost predicate PlainRef(ref: Ref) {
    forall part :: part in ref ==> PlainPart(part)
  }

  lemma PlainSplit(ref: Ref)
    requires PlainRef(ref) && ref != []
    ensures PlainRef(ref[..|ref| - 1]) && PlainPart(ref[|ref| - 1])
  {
  }

  lemma {:induction false} RefTextParts(ref: Ref)
    requires PlainRef(ref)
    ensures PathParts(RefText(ref)) == ref
  {
    hide PlainRef, PlainPart;
    if ref != [] {
      var rest, last := ref[..|ref| - 1], ref[|ref| - 1];
      PlainSplit(ref);
      assert PathParts(last) == [last] by { PartOfPlain(last); }
      assert ref == rest + [last];
      if |ref| > 1 {
        RefTextParts(rest);
        PartsOfBoth(RefText(rest), last);
        WithoutDotsOfBoth(Parts(RefText(rest)), Parts(last));
      }
    }
  }

  lemma PartOfPlain(part: string)
    requires PlainPart(part)
    ensures PathParts(part) == [part]
  {
    PartsOfName(part);
    assert part != ".";
    assert [part][1..] == [] && [part][0] == part;
    assert WithoutDots([part]) == [part] + WithoutDots([]);
  }

  lemma {:induction false} RefTextPlain(ref: Ref)
    requires PlainRef(ref) && ref != []
    ensures RefText(ref) != "" && RefText(ref)[0] != '/' && '\\' !in RefText(ref)
  {
    hide PlainRef;
    PlainSplit(ref);
    if |ref| > 1 {
      RefTextPlain(ref[..|ref| - 1]);
    }
  }

  lemma {:induction false} WithoutDotsOfBoth(a: seq<string>, b: seq<string>)
    ensures WithoutDots(a + b) == WithoutDots(a) + WithoutDots(b)
  {
    if a == [] {
      assert a + b == b;
    } else {
      assert (a + b)[1..] == a[1..] + b;
      WithoutDotsOfBoth(a[1..], b);
    }
  }

  /** A ref of plain parts is safe in an archive under its text, and comes back from it; no ref that goes up does. */
  lemma ArchiveRefRoundTrip(ref: Ref, name: string)
    ensures ref != [] && PlainRef(ref) ==> SafeArchiveRef(RefText(ref)) == Some(ref)
    ensures SafeArchiveRef(name) == Some(ref) ==> ".." !in ref && "." !in ref
  {
    hide RefText, Parts;
    if ref != [] && PlainRef(ref) {
      RefTextParts(ref);
      RefTextPlain(ref);
    }
  }

  // ----- The source tree

  datatype NodeKind = Regular(data: string) | Directory | Link | Unsupported

  /** What stands at a path below the delivery root, and whether the path, links resolved, still lies below it. */
  datatype Node = Node(path: Ref, kind: NodeKind, inside: bool)

  datatype Finding =
    | Inventory(code: string)
    | DuplicateOwner(ref: Ref)
    | SymLink(ref: Ref)
    | SubmoduleMarker(ref: Ref)
    | OutsideRoot(ref: Ref)
    | UnsupportedType(ref: Ref)
    | TrackedGenerated(ref: Ref)
    | UnsafeName(name: string)
    | OutsideName(name: string)

  /** The records, and the counters of the excluded files by reason. */
  datatype Observation = Observation(records: map<Ref, string>, excluded: multiset<Reason>)

  function AsSet(findings: seq<Finding>): (r: set<Finding>)
    ensures r == {} <==> findings == []
  {
    var r := set f | f in findings;
    assert findings != [] ==> findings[0] in r;
    r
  }

  lemma OneMore(findings: seq<Finding>, f: Finding)
    ensures AsSet(findings + [f]) == AsSet(findings) + {f}
  {
  }

  predicate InGit(path: Ref) {
    path != [] && path[0] == ".git"
  }

  function Logical(path: Ref): (ref: Ref)
    ensures ref != [] && ref[1..] == path
  {
    ["delivery"] + path
  }

  /** The nodes below the root, each path once. */
  ghost predicate Listing(nodes: seq<Node>) {
    && (forall n :: n in nodes ==> n.path != [])
    && (forall i, j :: 0 <= i < j < |nodes| ==> nodes[i].path != nodes[j].path)
  }

  /** What is wrong with a node, if anything. */
  function NodeFinding(n: Node, tracked: set<Ref>, known: set<Ref>): Option<Finding> {
    var ref := Logical(n.path);
    if InGit(n.path) then None
    else if n.kind.Link? then Some(SymLink(ref))
    else if n.path != [] && n.path[|n.path| - 1] == ".git" then Some(SubmoduleMarker(ref))
    else if !n.inside then Some(OutsideRoot(ref))
    else if n.kind.Directory? then None
    else if n.kind.Unsupported? then Some(UnsupportedType(ref))
    else
      var reason := ExclusionReason(ref, known);
      if reason.Some? && !reason.value.KnownGenerated? && ref in tracked then Some(TrackedGenerated(ref)) else None
  }

  /** A node that nothing is wrong with, looked at from outside the root's `.git`. */
  predicate CleanNode(n: Node, tracked: set<Ref>, known: set<Ref>) {
    && !n.kind.Link? && !n.kind.Unsupported? && n.inside
    && !(n.path != [] && n.path[|n.path| - 1] == ".git")
    && (n.kind.Regular? && Logical(n.path) in tracked ==>
          ExclusionReason(Logical(n.path), known).None?
          || ExclusionReason(Logical(n.path), known).value.KnownGenerated?)
  }

  /** A tree has no findings exactly when all its nodes outside the root's `.git` are clean. */
  lemma TreeFindingsIff(nodes: seq<Node>, tracked: set<Ref>, known: set<Ref>)
    ensures TreeFindings(nodes, tracked, known) == {} <==>
            forall n :: n in nodes && (n.path == [] || n.path[0] != ".git") ==> CleanNode(n, tracked, known)
  {
    hide ExclusionReason, TreeFindings, Logical;
    forall n | n in nodes
      ensures NodeFinding(n, tracked, known).None? <==>
              (n.path != [] && n.path[0] == ".git") || CleanNode(n, tracked, known)
    {
    }
  }

  function Found(finding: Option<Finding>): set<Finding> {
    if finding.Some? then {finding.value} else {}
  }

  /** The findings about the nodes: none exactly when no node has one. */
  function TreeFindings(nodes: seq<Node>, tracked: set<Ref>, known: set<Ref>): (r: set<Finding>)
    ensures r == {} <==> forall n :: n in nodes ==> NodeFinding(n, tracked, known).None?
  {
    hide NodeFinding;
    if nodes == [] then {}
    else
      var rest, n := nodes[..|nodes| - 1], nodes[|nodes| - 1];
      assert nodes == rest + [n];
      TreeFindings(rest, tracked, known) + Found(NodeFinding(n, tracked, known))
  }

  /** The regular files of the tree by logical ref. */
  function TreeFiles(nodes: seq<Node>): map<Ref, string> {
    if nodes == [] then map[]
    else
      var files, n := TreeFiles(nodes[..|nodes| - 1]), nodes[|nodes| - 1];
      if n.kind.Regular? then files[Logical(n.path) := n.kind.data] else files
  }

  /** The file lies in the version control container at the root. */
  predicate GitRef(ref: Ref) {
    |ref| >= 2 && ref[1] == ".git"
  }

  /** The records of a source tree with these files, whatever the order they are visited in. */
  function SourceRecords(files: map<Ref, string>, known: set<Ref>, digest: string -> string): map<Ref, string> {
    map ref | ref in files && !GitRef(ref) && ExclusionReason(ref, known).None? :: digest(files[ref])
  }

  /** Why the source observer leaves a file out; what lies below the root's `.git` is not even looked at. */
  function SourceWhy(known: set<Ref>): Ref -> Option<Reason> {
    (ref: Ref) => if GitRef(ref) then None else ExclusionReason(ref, known)
  }

  /** The files left out for one reason. */
  function ExcludedRefs(files: map<Ref, string>, why: Ref -> Option<Reason>, reason: Reason): set<Ref> {
    set ref | ref in files && why(ref) == Some(reason)
  }

  ghost predicate Counts(excluded: multiset<Reason>, files: map<Ref, string>, why: Ref -> Option<Reason>) {
    forall reason: Reason :: excluded[reason] == |ExcludedRefs(files, why, reason)|
  }

  ghost predicate Recorded(records: map<Ref, string>, excluded: multiset<Reason>, files: map<Ref, string>,
                           known: set<Ref>, digest: string -> string) {
    records == SourceRecords(files, known, digest) && Counts(excluded, files, SourceWhy(known))
  }

  /** The effect of one more file on the records and counters. */
  lemma OneMoreFile(records: map<Ref, string>, excluded: multiset<Reason>, files: map<Ref, string>,
                    ref: Ref, data: string, known: set<Ref>, digest: string -> string)
    requires ref !in files && Recorded(records, excluded, files, known, digest)
    ensures GitRef(ref) ==> Recorded(records, excluded, files[ref := data], known, digest)
    ensures !GitRef(ref) && ExclusionReason(ref, known).None? ==>
              Recorded(records[ref := digest(data)], excluded, files[ref := data], known, digest)
    ensures !GitRef(ref) && ExclusionReason(ref, known).Some? ==>
              Recorded(records, excluded + multiset{ExclusionReason(ref, known).value}, files[ref := data], known,
                       digest)
  {
    hide ExclusionReason, GitRef;
    CountsAfter(files, ref, data, SourceWhy(known), excluded);
  }

  lemma CountsAfter(files: map<Ref, string>, ref: Ref, data: string, why: Ref -> Option<Reason>,
                    excluded: multiset<Reason>)
    requires ref !in files && Counts(excluded, files, why)
    ensures Counts(if why(ref).Some? then excluded + multiset{why(ref).value} else excluded, files[ref := data], why)
  {
    hide ExcludedRefs;
    forall reason: Reason
      ensures |ExcludedRefs(files[ref := data], why, reason)| == |ExcludedRefs(files, why, reason)|
                + if why(ref) == Some(reason) then 1 else 0
    {
      ExcludedAfter(files, ref, data, why, reason);
    }
  }

  lemma ExcludedAfter(files: map<Ref, string>, ref: Ref, data: string, why: Ref -> Option<Reason>, reason: Reason)
    requires ref !in files
    ensures |ExcludedRefs(files[ref := data], why, reason)| == |ExcludedRefs(files, why, reason)|
              + if why(ref) == Some(reason) then 1 else 0
  {
    var before, after := ExcludedRefs(files, why, reason), ExcludedRefs(files[ref := data], why, reason);
    if why(ref) == Some(reason) {
      assert after == before + {ref};
    } else {
      assert after == before;
    }
  }

  /** Only the visited nodes have files. */
  lemma {:induction false} FilesAreNodes(nodes: seq<Node>, i: nat, ref: Ref)
    requires i <= |nodes| && forall k :: 0 <= k < i ==> Logical(nodes[k].path) != ref
    ensures ref !in TreeFiles(nodes[..i])
  {
    hide Logical;
    if i > 0 {
      FilesAreNodes(nodes, i - 1, ref);
      assert nodes[..i][..i - 1] == nodes[..i - 1];
    }
  }

  /** What the next node adds. */
  lemma NextNode(nodes: seq<Node>, i: nat, tracked: set<Ref>, known: set<Ref>)
    requires Listing(nodes) && i < |nodes|
    ensures TreeFindings(nodes[..i + 1], tracked, known)
         == TreeFindings(nodes[..i], tracked, known) + Found(NodeFinding(nodes[i], tracked, known))
    ensures TreeFiles(nodes[..i + 1])
         == if nodes[i].kind.Regular? then TreeFiles(nodes[..i])[Logical(nodes[i].path) := nodes[i].kind.data]
            else TreeFiles(nodes[..i])
    ensures Logical(nodes[i].path) !in TreeFiles(nodes[..i])
    ensures forall k :: 0 <= k < i ==> Logical(nodes[k].path) != Logical(nodes[i].path)
    ensures GitRef(Logical(nodes[i].path)) <==> InGit(nodes[i].path)
  {
    hide NodeFinding;
    assert nodes[..i + 1][..i] == nodes[..i];
    assert nodes[i] in nodes;
    FilesAreNodes(nodes, i, Logical(nodes[i].path));
  }

  /** A skipped duplicate would leave the records behind, but a listing has none. */
  lemma NotSeen(nodes: seq<Node>, i: nat, seen: set<Ref>)
    requires i < |nodes| && forall k :: 0 <= k < i ==> Logical(nodes[k].path) != Logical(nodes[i].path)
    requires forall ref :: ref in seen ==> exists k :: 0 <= k < i && Logical(nodes[k].path) == ref
    ensures Logical(nodes[i].path) !in seen
  {
    hide Logical;
  }

  /** Whatever is recorded so far stays right with the next node, treated as the observer treats it. */
  lemma ObserveNode(n: Node, records: map<Ref, string>, excluded: multiset<Reason>, files: map<Ref, string>,
                    after: map<Ref, string>, known: set<Ref>, digest: string -> string)
    requires Recorded(records, excluded, files, known, digest)
    requires Logical(n.path) !in files && (GitRef(Logical(n.path)) <==> InGit(n.path))
    requires after == if n.kind.Regular? then files[Logical(n.path) := n.kind.data] else files
    ensures InGit(n.path) || !n.kind.Regular? ==> Recorded(records, excluded, after, known, digest)
    ensures !InGit(n.path) && n.kind.Regular? && ExclusionReason(Logical(n.path), known).None? ==>
              Recorded(records[Logical(n.path) := digest(n.kind.data)], excluded, after, known, digest)
    ensures !InGit(n.path) && n.kind.Regular? && ExclusionReason(Logical(n.path), known).Some? ==>
              Recorded(records, excluded + multiset{ExclusionReason(Logical(n.path), known).value}, after, known,
                       digest)
  {
    hide ExclusionReason, Recorded, Logical, GitRef, InGit;
    if n.kind.Regular? {
      OneMoreFile(records, excluded, files, Logical(n.path), n.kind.data, known, digest);
    }
  }

  lemma NothingObserved(known: set<Ref>, digest: string -> string)
    ensures Recorded(map[], multiset{}, TreeFiles([]), known, digest)
  {
    hide ExclusionReason;
  }

  lemma BothSets(a: seq<Finding>, b: seq<Finding>)
    ensures AsSet(a + b) == AsSet(a) + AsSet(b)
  {
  }

  /** `observe_delivery_tree` on the nodes below the delivery root. */
  method ObserveTree(nodes: seq<Node>, inventory: seq<Finding>, tracked: set<Ref>, known: set<Ref>,
                     digest: string -> string)
    returns (r: Result<Observation, set<Finding>>)
    requires Listing(nodes)
    ensures r.Ok? <==> AsSet(inventory) + TreeFindings(nodes, tracked, known) == {}
    ensures r.Ok? ==> Recorded(r.value.records, r.value.excluded, TreeFiles(nodes), known, digest)
    ensures r.Err? ==> r.error == AsSet(inventory) + TreeFindings(nodes, tracked, known)
  {
    hide ExclusionReason, Recorded, SourceRecords, Counts, TreeFindings, TreeFiles, AsSet, Listing;
    hide Logical, GitRef, InGit;
    var findings := inventory;
    var records: map<Ref, string> := map[];
    var excluded: multiset<Reason> := multiset{};
    var generated: seq<Finding> := [];
    var seen: set<Ref> := {};
    NothingObserved(known, digest);
    assert nodes[..0] == [];
    for i := 0 to |nodes|
      invariant AsSet(findings) + AsSet(generated) == AsSet(inventory) + TreeFindings(nodes[..i], tracked, known)
      invariant AsSet(findings) + AsSet(generated) == {} ==>
                  Recorded(records, excluded, TreeFiles(nodes[..i]), known, digest)
      invariant forall ref :: ref in seen ==> exists k :: 0 <= k < i && Logical(nodes[k].path) == ref
    {
      var n := nodes[i];
      NextNode(nodes, i, tracked, known);
      NotSeen(nodes, i, seen);
      if AsSet(findings) + AsSet(generated) == {} {
        ObserveNode(n, records, excluded, TreeFiles(nodes[..i]), TreeFiles(nodes[..i + 1]), known, digest);
      }
      if InGit(n.path) {
        continue;
      }
      var ref := Logical(n.path);
      if ref in seen {
        findings := findings + [DuplicateOwner(ref)];
        continue;
      }
      seen := seen + {ref};
      if n.kind.Link? {
        OneMore(findings, SymLink(ref));
        findings := findings + [SymLink(ref)];
        continue;
      }
      if n.path != [] && n.path[|n.path| - 1] == ".git" {
        OneMore(findings, SubmoduleMarker(ref));
        findings := findings + [SubmoduleMarker(ref)];
        continue;
      }
      if !n.inside {
        OneMore(findings, OutsideRoot(ref));
        findings := findings + [OutsideRoot(ref)];
        continue;
      }
      if n.kind.Directory? {
        continue;
      }
      if !n.kind.Regular? {
        OneMore(findings, UnsupportedType(ref));
        findings := findings + [UnsupportedType(ref)];
        continue;
      }
      var reason := ExclusionReason(ref, known);
      if reason.Some? {
        excluded := excluded + multiset{reason.value};
        if !reason.value.KnownGenerated? && ref in tracked {
          OneMore(generated, TrackedGenerated(ref));
          generated := generated + [TrackedGenerated(ref)];
        }
        continue;
      }
      records := records[ref := digest(n.kind.data)];
    }
    assert nodes[..|nodes|] == nodes;
    BothSets(findings, generated);
    if findings + generated != [] {
      return Err(AsSet(findings + generated));
    }
    return Ok(Observation(records, excluded));
  }
}
