/** The wheel and installation observers. */
module PayloadObservers {
  // The observers of a wheel and of an installed distribution, and when they agree with each other and with the
  // source tree (delivery/scripts/digest_policy.py, lines 338-416; delivery/scripts/install.py, lines 686-727).

  import opened Wrappers
  import opened DigestPolicy
  import opened Ordering
  import opened PosixPath

  // ----- The wheel

  /** A member of the archive. */
  datatype Info = Info(name: string, link: bool, data: string)

  /** `name.rstrip("/")` */
  function WithoutSlashes(name: string): string {
    if name != "" && name[|name| - 1] == '/' then WithoutSlashes(name[..|name| - 1]) else name
  }

  function InfoRef(info: Info): Option<Ref> {
    SafeArchiveRef(WithoutSlashes(info.name))
  }

  predicate IsDir(info: Info) {
    info.name != "" && info.name[|info.name| - 1] == '/'
  }

  /** The member is a file with a safe name. */
  predicate IsFile(info: Info) {
    InfoRef(info).Some? && !IsDir(info)
  }

  /** The first file stored under each logical ref. */
  function WheelFiles(infos: seq<Info>): map<Ref, string> {
    if infos == [] then map[]
    else
      var files, info := WheelFiles(infos[..|infos| - 1]), infos[|infos| - 1];
      if IsFile(info) && InfoRef(info).value !in files then files[InfoRef(info).value := info.data] else files
  }

  /** `name.replace("\\", "/")` */
  function Slashed(name: string): string {
    if name == "" then "" else [if name[0] == '\\' then '/' else name[0]] + Slashed(name[1..])
  }

  /** The name leads out of the archive's root. */
  predicate LeadsOut(name: string) {
    (name != "" && name[0] == '/') || ".." in PathParts(Slashed(name))
  }

  /** The finding about a member that comes after files with these refs. */
  function InfoFinding(info: Info, files: map<Ref, string>): Option<Finding> {
    if InfoRef(info).None? then Some(if LeadsOut(info.name) then OutsideName(info.name) else UnsafeName(info.name))
    else if IsDir(info) then None
    else if InfoRef(info).value in files then Some(DuplicateOwner(InfoRef(info).value))
    else if info.link then Some(SymLink(InfoRef(info).value))
    else None
  }

  function WheelFindings(infos: seq<Info>): set<Finding> {
    if infos == [] then {}
    else
      var rest := infos[..|infos| - 1];
      WheelFindings(rest) + Found(InfoFinding(infos[|infos| - 1], WheelFiles(rest)))
  }

  /** The records of a payload with these files. */
  function PayloadRecords(files: map<Ref, string>, known: set<Ref>, digest: string -> string): map<Ref, string> {
    map ref | ref in files && PayloadReason(ref, known).None? :: digest(files[ref])
  }

  /** The part of a map below `delivery/`. */
  function DeliveryPart(m: map<Ref, string>): map<Ref, string> {
    map ref | ref in m && ref != [] && ref[0] == "delivery" :: m[ref]
  }

  datatype WheelObservation = WheelObservation(records: map<Ref, string>, delivery: map<Ref, string>,
                                              excluded: multiset<Reason>)

  function PayloadWhy(known: set<Ref>): Ref -> Option<Reason> {
    (ref: Ref) => PayloadReason(ref, known)
  }

  /** The records of the files seen so far, among them those of the delivery tree, and the counters of the others. */
  ghost predicate Observes(o: WheelObservation, files: map<Ref, string>, known: set<Ref>, digest: string -> string) {
    && o.records == PayloadRecords(files, known, digest)
    && o.delivery == DeliveryPart(o.records)
    && Counts(o.excluded, files, PayloadWhy(known))
  }

  lemma NextInfo(infos: seq<Info>, i: nat)
    requires i < |infos|
    ensures WheelFindings(infos[..i + 1])
         == WheelFindings(infos[..i]) + Found(InfoFinding(infos[i], WheelFiles(infos[..i])))
    ensures WheelFiles(infos[..i + 1])
         == if IsFile(infos[i]) && InfoRef(infos[i]).value !in WheelFiles(infos[..i])
            then WheelFiles(infos[..i])[InfoRef(infos[i]).value := infos[i].data] else WheelFiles(infos[..i])
  {
    hide InfoFinding, InfoRef, IsDir, Found;
    assert infos[..i + 1][..i] == infos[..i];
  }

  lemma ObserveFile(o: WheelObservation, files: map<Ref, string>, ref: Ref, data: string, known: set<Ref>,
                    digest: string -> string)
    requires ref !in files && Observes(o, files, known, digest)
    ensures PayloadReason(ref, known).Some? ==>
              Observes(o.(excluded := o.excluded + multiset{PayloadReason(ref, known).value}), files[ref := data],
                       known, digest)
    ensures PayloadReason(ref, known).None? ==>
              var delivery := if ref != [] && ref[0] == "delivery" then o.delivery[ref := digest(data)] else o.delivery;
              Observes(WheelObservation(o.records[ref := digest(data)], delivery, o.excluded), files[ref := data],
                       known, digest)
  {
    hide PayloadReason, PayloadRecords, DeliveryPart, Counts;
    CountsAfter(files, ref, data, PayloadWhy(known), o.excluded);
    RecordsAfter(files, ref, data, known, digest);
    DeliveryAfter(o.records, ref, digest(data));
  }

  lemma RecordsAfter(files: map<Ref, string>, ref: Ref, data: string, known: set<Ref>, digest: string -> string)
    requires ref !in files
    ensures PayloadRecords(files[ref := data], known, digest)
         == if PayloadReason(ref, known).Some? then PayloadRecords(files, known, digest)
            else PayloadRecords(files, known, digest)[ref := digest(data)]
  {
    hide PayloadReason;
  }

  lemma DeliveryAfter(records: map<Ref, string>, ref: Ref, value: string)
    ensures DeliveryPart(records[ref := value])
         == if ref != [] && ref[0] == "delivery" then DeliveryPart(records)[ref := value]
            else DeliveryPart(records)
  {
  }

  /** `observe_wheel_payload` */
  method ObserveWheel(infos: seq<Info>, known: set<Ref>, digest: string -> string)
    returns (r: Result<WheelObservation, set<Finding>>)
    ensures r.Ok? <==> WheelFindings(infos) == {}
    ensures r.Ok? ==> Observes(r.value, WheelFiles(infos), known, digest)
    ensures r.Err? ==> r.error == WheelFindings(infos)
  {
    hide PayloadReason, InfoRef, IsDir, AsSet, PayloadRecords, DeliveryPart, WheelFiles, WheelFindings;
    hide SafeArchiveRef, LeadsOut, Counts;
    var records: map<Ref, string> := map[];
    var delivery: map<Ref, string> := map[];
    var excluded: multiset<Reason> := multiset{};
    var findings: seq<Finding> := [];
    var seen: set<Ref> := {};
    NoInfos(known, digest);
    assert infos[..0] == [];
    for i := 0 to |infos|
      invariant AsSet(findings) == WheelFindings(infos[..i])
      invariant seen == WheelFiles(infos[..i]).Keys
      invariant findings == [] ==>
                  Observes(WheelObservation(records, delivery, excluded), WheelFiles(infos[..i]), known, digest)
    {
      hide Observes;
      var info := infos[i];
      NextInfo(infos, i);
      var ref := InfoRef(info);
      if ref.None? {
        var code := if LeadsOut(info.name) then OutsideName(info.name) else UnsafeName(info.name);
        OneMore(findings, code);
        findings := findings + [code];
        continue;
      }
      if IsDir(info) {
        continue;
      }
      if ref.value in seen {
        OneMore(findings, DuplicateOwner(ref.value));
        findings := findings + [DuplicateOwner(ref.value)];
        continue;
      }
      seen := seen + {ref.value};
      if info.link {
        OneMore(findings, SymLink(ref.value));
        findings := findings + [SymLink(ref.value)];
        continue;
      }
      if findings == [] {
        ObserveFile(WheelObservation(records, delivery, excluded), WheelFiles(infos[..i]), ref.value, info.data, known,
                    digest);
      }
      var reason := PayloadReason(ref.value, known);
      if reason.Some? {
        excluded := excluded + multiset{reason.value};
        continue;
      }
      records := records[ref.value := digest(info.data)];
      if ref.value != [] && ref.value[0] == "delivery" {
        delivery := delivery[ref.value := digest(info.data)];
      }
    }
    assert infos[..|infos|] == infos;
    if findings != [] {
      return Err(AsSet(findings));
    }
    return Ok(WheelObservation(records, delivery, excluded));
  }

  lemma NoInfos(known: set<Ref>, digest: string -> string)
    ensures WheelFindings([]) == {} && WheelFiles([]) == map[]
    ensures Observes(WheelObservation(map[], map[], multiset{}), WheelFiles([]), known, digest)
  {
    hide PayloadReason;
  }

  // ----- The order of the archive does not matter

  /** The archive raises no finding: every name safe, no link among the files, no two files with one ref. */
  ghost predicate CleanWheel(infos: seq<Info>) {
    && (forall info :: info in infos ==> CleanInfo(info))
    && DistinctFiles(infos)
  }

  predicate CleanInfo(info: Info) {
    InfoRef(info).Some? && (IsFile(info) ==> !info.link)
  }

  predicate SameFile(a: Info, b: Info) {
    IsFile(a) && IsFile(b) && InfoRef(a) == InfoRef(b)
  }

  ghost predicate DistinctFiles(infos: seq<Info>) {
    forall i, j :: 0 <= i < j < |infos| ==> !SameFile(infos[i], infos[j])
  }

  /** A member names `ref`. */
  predicate Names(info: Info, ref: Ref) {
    IsFile(info) && InfoRef(info) == Some(ref)
  }

  lemma {:induction false} RefsOfFiles(infos: seq<Info>, ref: Ref)
    ensures ref in WheelFiles(infos) <==> exists info :: info in infos && Names(info, ref)
  {
    hide InfoRef, IsDir;
    if infos != [] {
      var rest, last := infos[..|infos| - 1], infos[|infos| - 1];
      RefsOfFiles(rest, ref);
      assert infos == rest + [last];
      assert forall info :: info in infos <==> info in rest || info == last;
      if ref in WheelFiles(infos) && ref !in WheelFiles(rest) {
        assert Names(last, ref);
      }
    }
  }

  lemma CleanSnoc(rest: seq<Info>, last: Info)
    ensures CleanWheel(rest + [last]) <==>
            CleanWheel(rest) && CleanInfo(last) && forall info :: info in rest ==> !SameFile(info, last)
  {
    hide CleanInfo, SameFile;
    var infos := rest + [last];
    assert forall i :: 0 <= i < |rest| ==> infos[i] == rest[i];
    assert infos[|rest|] == last;
    if CleanWheel(infos) {
      assert forall info :: info in rest ==> info in infos;
    }
  }

  lemma {:induction false} FindingsIff(infos: seq<Info>)
    ensures WheelFindings(infos) == {} <==> CleanWheel(infos)
  {
    hide CleanWheel, InfoRef, IsDir, WheelFiles;
    if infos == [] {
      assert CleanWheel([]) by { EmptyIsClean(); }
    } else {
      var rest, last := infos[..|infos| - 1], infos[|infos| - 1];
      FindingsIff(rest);
      CleanSnoc(rest, last);
      assert infos == rest + [last];
      if IsFile(last) {
        RefsOfFiles(rest, InfoRef(last).value);
      }
    }
  }

  lemma EmptyIsClean()
    ensures CleanWheel([])
  {
  }

  /** In an archive without findings each file has the contents stored under its ref. */
  lemma {:induction false} CleanFiles(infos: seq<Info>, info: Info)
    requires CleanWheel(infos) && info in infos && IsFile(info)
    ensures InfoRef(info).value in WheelFiles(infos) && WheelFiles(infos)[InfoRef(info).value] == info.data
  {
    hide CleanWheel, InfoRef, IsDir, CleanInfo;
    var rest, last := infos[..|infos| - 1], infos[|infos| - 1];
    assert infos == rest + [last];
    CleanSnoc(rest, last);
    if info in rest {
      CleanFiles(rest, info);
    } else {
      RefsOfFiles(rest, InfoRef(info).value);
    }
  }

  lemma {:induction false} FileAtMostOnce(infos: seq<Info>, info: Info)
    requires DistinctFiles(infos) && IsFile(info)
    ensures multiset(infos)[info] <= 1
  {
    hide InfoRef, IsDir;
    if infos != [] {
      assert infos == [infos[0]] + infos[1..];
      FileAtMostOnce(infos[1..], info);
      if infos[0] == info {
        assert info !in infos[1..] by {
          assert forall j :: 0 < j < |infos| ==> !SameFile(infos[0], infos[j]);
        }
      }
    }
  }

  lemma CleanAnyOrder(a: seq<Info>, b: seq<Info>)
    requires multiset(a) == multiset(b) && CleanWheel(a)
    ensures CleanWheel(b)
  {
    hide CleanInfo, IsFile, InfoRef;
    SameMembers(a, b);
    forall i, j | 0 <= i < j < |b| ensures !SameFile(b[i], b[j]) {
      if SameFile(b[i], b[j]) {
        assert b[i] in b && b[j] in b;
        if b[i] == b[j] {
          TwiceIn(b, i, j);
          FileAtMostOnce(a, b[i]);
        } else {
          NotBoth(a, b[i], b[j]);
        }
      }
    }
  }

  lemma TwiceIn(b: seq<Info>, i: nat, j: nat)
    requires i < j < |b| && b[i] == b[j]
    ensures multiset(b)[b[i]] >= 2
  {
    assert b == b[..i] + [b[i]] + b[i + 1..j] + [b[j]] + b[j + 1..];
  }

  lemma NotBoth(a: seq<Info>, x: Info, y: Info)
    requires DistinctFiles(a) && x in a && y in a && x != y
    ensures !SameFile(x, y)
  {
    hide IsFile, InfoRef;
    var k :| 0 <= k < |a| && a[k] == x;
    var l :| 0 <= l < |a| && a[l] == y;
    assert SameFile(a[k], a[l]) <==> SameFile(a[l], a[k]);
  }

  /** Whether an archive is accepted, and with which files, does not depend on the order of its members. */
  lemma ArchiveOrder(a: seq<Info>, b: seq<Info>)
    requires multiset(a) == multiset(b)
    ensures WheelFindings(a) == {} <==> WheelFindings(b) == {}
    ensures WheelFindings(a) == {} ==> WheelFiles(a) == WheelFiles(b)
  {
    hide WheelFindings, WheelFiles, CleanWheel, InfoRef, IsDir;
    FindingsIff(a);
    FindingsIff(b);
    if CleanWheel(a) || CleanWheel(b) {
      if CleanWheel(a) { CleanAnyOrder(a, b); } else { CleanAnyOrder(b, a); }
      SameMembers(a, b);
      forall ref ensures ref in WheelFiles(a) <==> ref in WheelFiles(b) {
        RefsOfFiles(a, ref);
        RefsOfFiles(b, ref);
      }
      forall ref | ref in WheelFiles(a) ensures WheelFiles(a)[ref] == WheelFiles(b)[ref] {
        RefsOfFiles(a, ref);
        var info :| info in a && Names(info, ref);
        CleanFiles(a, info);
        CleanFiles(b, info);
      }
    }
  }

  // ----- The installed distribution

  predicate Relative(name: string) {
    (name == "" || name[0] != '/') && ".." !in PathParts(name)
  }

  /** The refs of the listed names the observer follows. */
  function ListedRefs(names: seq<string>): set<Ref> {
    set name | name in names && Relative(name) :: PathParts(name)
  }

  /** The records of an installation: its listed files that are on disk. */
  function InstalledRecords(listed: set<Ref>, disk: map<Ref, string>, known: set<Ref>, digest: string -> string):
    map<Ref, string>
  {
    map ref | ref in disk && ref in listed && PayloadReason(ref, known).None? :: digest(disk[ref])
  }

  /** The name on which the observer raises an error. */
  predicate Raises(name: string) {
    Relative(name) && '\\' in name
  }

  lemma OneMoreListed(names: seq<string>, i: nat, disk: map<Ref, string>, known: set<Ref>, digest: string -> string)
    requires i < |names|
    ensures
      var ref := PathParts(names[i]);
      var before := InstalledRecords(ListedRefs(names[..i]), disk, known, digest);
      InstalledRecords(ListedRefs(names[..i + 1]), disk, known, digest)
      == if Relative(names[i]) && PayloadReason(ref, known).None? && ref in disk then before[ref := digest(disk[ref])]
         else before
  {
    hide PayloadReason, Relative, PathParts;
    var listed, ref := ListedRefs(names[..i]), PathParts(names[i]);
    assert names[..i + 1] == names[..i] + [names[i]];
    assert ListedRefs(names[..i + 1]) == if Relative(names[i]) then listed + {ref} else listed;
  }

  /** The records `installed_distribution_payload_digest` hashes; `disk` holds the regular files below the root. */
  method ObserveInstalled(names: seq<string>, disk: map<Ref, string>, known: set<Ref>, digest: string -> string)
    returns (r: Result<map<Ref, string>, Finding>)
    ensures r.Ok? <==> forall name :: name in names ==> !Raises(name)
    ensures r.Ok? ==> r.value == InstalledRecords(ListedRefs(names), disk, known, digest)
    ensures r.Err? ==> r.error.UnsafeName? && r.error.name in names && Raises(r.error.name)
  {
    hide PayloadReason, ListedRefs, InstalledRecords, PathParts;
    var records: map<Ref, string> := map[];
    assert names[..0] == [];
    NoneListed(disk, known, digest);
    for i := 0 to |names|
      invariant records == InstalledRecords(ListedRefs(names[..i]), disk, known, digest)
      invariant forall k :: 0 <= k < i ==> !Raises(names[k])
    {
      OneMoreListed(names, i, disk, known, digest);
      if !Relative(names[i]) {
        continue;
      }
      if '\\' in names[i] {
        assert names[i] in names && Raises(names[i]);
        return Err(UnsafeName(names[i]));
      }
      var ref := PathParts(names[i]);
      if PayloadReason(ref, known).Some? {
        continue;
      }
      if ref !in disk {
        continue;
      }
      records := records[ref := digest(disk[ref])];
    }
    assert names[..|names|] == names;
    return Ok(records);
  }

  lemma NoneListed(disk: map<Ref, string>, known: set<Ref>, digest: string -> string)
    ensures InstalledRecords(ListedRefs([]), disk, known, digest) == map[]
  {
  }

  // ----- When the observers agree

  /** No included file is treated differently on the two sides: only a wheel leaves out distribution metadata, only
      a source tree what lies below the root's `.git`. */
  ghost predicate Comparable(files: map<Ref, string>, known: set<Ref>) {
    forall ref :: ref in files ==> SameTreatment(ref, known)
  }

  predicate SameTreatment(ref: Ref, known: set<Ref>) {
    ExclusionReason(ref, known).None? ==> (DistributionGenerated(ref) <==> GitRef(ref))
  }

  lemma Treatment(ref: Ref, known: set<Ref>)
    ensures SameTreatment(ref, known) <==>
            ((!GitRef(ref) && ExclusionReason(ref, known).None?) <==> PayloadReason(ref, known).None?)
  {
    hide ExclusionReason, DistributionGenerated, GitRef;
  }

  /** A source tree and a wheel with the same delivery files have the same delivery records exactly then. */
  lemma SourceMatchesWheelIff(nodes: seq<Node>, infos: seq<Info>, known: set<Ref>, digest: string -> string)
    requires DeliveryPart(WheelFiles(infos)) == TreeFiles(nodes)
    ensures SourceRecords(TreeFiles(nodes), known, digest)
              == DeliveryPart(PayloadRecords(WheelFiles(infos), known, digest))
            <==> Comparable(TreeFiles(nodes), known)
  {
    hide PayloadReason, ExclusionReason, GitRef, TreeFiles, WheelFiles, SameTreatment;
    var files, wheel := TreeFiles(nodes), WheelFiles(infos);
    var source, delivery := SourceRecords(files, known, digest), DeliveryPart(PayloadRecords(wheel, known, digest));
    forall ref | ref in files ensures SameTreatment(ref, known) <==> (ref in source <==> ref in delivery) {
      Treatment(ref, known);
    }
    if Comparable(files, known) {
      assert forall ref :: ref in source <==> ref in delivery;
    }
  }

  /** Exactly the included files of the wheel are listed and on disk, with their contents. */
  ghost predicate Faithful(wheel: map<Ref, string>, listed: set<Ref>, disk: map<Ref, string>, known: set<Ref>) {
    forall ref :: PayloadReason(ref, known).None? ==>
      (ref in wheel <==> ref in disk && ref in listed) && (ref in wheel ==> wheel[ref] == disk[ref])
  }

  ghost predicate OneToOne(digest: string -> string) {
    forall a, b :: digest(a) == digest(b) ==> a == b
  }

  /** A faithful installation has the records of its wheel, and with a digest free of collisions no other does. */
  lemma InstalledMatchesWheelIff(infos: seq<Info>, names: seq<string>, disk: map<Ref, string>, known: set<Ref>,
                                 digest: string -> string)
    ensures Faithful(WheelFiles(infos), ListedRefs(names), disk, known) ==>
              InstalledRecords(ListedRefs(names), disk, known, digest)
              == PayloadRecords(WheelFiles(infos), known, digest)
    ensures OneToOne(digest)
            && InstalledRecords(ListedRefs(names), disk, known, digest)
               == PayloadRecords(WheelFiles(infos), known, digest)
            ==> Faithful(WheelFiles(infos), ListedRefs(names), disk, known)
  {
    hide PayloadReason, WheelFiles, ListedRefs;
    var wheel, listed := WheelFiles(infos), ListedRefs(names);
    var installed, payload := InstalledRecords(listed, disk, known, digest), PayloadRecords(wheel, known, digest);
    if OneToOne(digest) && installed == payload {
      forall ref | PayloadReason(ref, known).None?
        ensures (ref in wheel <==> ref in disk && ref in listed) && (ref in wheel ==> wheel[ref] == disk[ref])
      {
        assert ref in payload <==> ref in wheel;
        assert ref in installed <==> ref in disk && ref in listed;
        if ref in payload {
          assert digest(wheel[ref]) == digest(disk[ref]);
        }
      }
    }
  }
}
