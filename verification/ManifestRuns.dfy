/** Runs of installations and uninstallations. */
module ManifestRuns {
  // Whole runs of installations and uninstallations: the manifest refines a map from installation to owned
  // entries.

  import opened FileTree
  import opened Manifest

  /** A command on one installation. */
  datatype Op =
    | InstallOp(key: Key, entries: seq<Entry>, kinds: set<string>, dirs: set<Path>)
    | UninstallOp(key: Key, kinds: set<string>, dirs: set<Path>, scanned: seq<Path>)

  function Record(key: Key, entries: seq<Entry>): Install {
    Install(key.platform, key.scope, key.workspace, "installed", entries)
  }

  function Step(installs: seq<Install>, op: Op): seq<Install> {
    match op
    case InstallOp(key, entries, _, _) => Others(installs, key) + [Record(key, entries)]
    case UninstallOp(key, kinds, dirs, scanned) =>
      var after := Uninstalled(installs, key, kinds, dirs, scanned);
      if after.Some? then after.value else installs
  }

  function Run(ops: seq<Op>): seq<Install> {
    if ops == [] then [] else Step(Run(ops[..|ops| - 1]), ops[|ops| - 1])
  }

  /** What an installation owns according to the manifest. */
  function Owned(installs: seq<Install>, key: Key): seq<Entry> {
    match Find(installs, key)
    case None => []
    case Some(i) => installs[i].entries
  }

  /** What it should own: what the last installation wrote, without the kinds uninstalled since. */
  function Expected(ops: seq<Op>, key: Key): seq<Entry> {
    if ops == [] then []
    else
      var before, op := Expected(ops[..|ops| - 1], key), ops[|ops| - 1];
      if op.key != key then before
      else
        match op
        case InstallOp(_, entries, _, _) => entries
        case UninstallOp(_, kinds, dirs, _) =>
          if HasLegacy(before, kinds, dirs) then before else Kept(before, kinds)
  }

  /** The commands name platforms by their canonical names, as `normalize_platform` makes them. */
  ghost predicate Normalized(ops: seq<Op>) {
    forall op :: op in ops ==> op.key.platform !in ALIASES
  }

  predicate Clash(a: Install, b: Install) {
    KeyOf(a) == KeyOf(b) && a.status == b.status == "installed"
  }

  /** At most one installed record for each installation. */
  ghost predicate OneInstalled(installs: seq<Install>) {
    forall i, j :: 0 <= i < j < |installs| ==> !Clash(installs[i], installs[j])
  }

  lemma OwnedBy(installs: seq<Install>, install: Install, key: Key)
    requires OneInstalled(installs) && install in installs && Found(install, key)
    ensures Owned(installs, key) == install.entries
  {
    hide KeyOf;
    var i :| 0 <= i < |installs| && installs[i] == install;
    var found := Find(installs, key).value;
    assert Clash(installs[i], installs[found]) && Clash(installs[found], installs[i]);
  }

  lemma OwnedByNone(installs: seq<Install>, key: Key)
    requires forall install :: install in installs ==> !Found(install, key)
    ensures Owned(installs, key) == []
  {
  }

  /** The same installed records of an installation, the same entries. */
  lemma SameOwned(a: seq<Install>, b: seq<Install>, key: Key)
    requires OneInstalled(a) && OneInstalled(b)
    requires forall install :: Found(install, key) ==> (install in a <==> install in b)
    ensures Owned(a, key) == Owned(b, key)
  {
    hide Found;
    match Find(a, key) {
      case Some(i) =>
        assert a[i] in a;
        OwnedBy(b, a[i], key);
      case None =>
        OwnedByNone(b, key);
    }
  }

  lemma OneInstalledSnoc(rest: seq<Install>, last: Install)
    requires OneInstalled(rest) && forall install :: install in rest ==> !Clash(install, last)
    ensures OneInstalled(rest + [last])
  {
    hide Clash;
  }

  lemma {:induction false} OthersOneInstalled(installs: seq<Install>, key: Key)
    requires OneInstalled(installs)
    ensures OneInstalled(Others(installs, key))
  {
    hide Clash, KeyOf;
    if installs != [] {
      var rest, last := installs[..|installs| - 1], installs[|installs| - 1];
      OthersOneInstalled(rest, key);
      if KeyOf(last) == key {
        assert Others(installs, key) == Others(rest, key);
      } else {
        forall install | install in Others(rest, key) ensures !Clash(install, last) {
          var i :| 0 <= i < |rest| && rest[i] == install;
          assert installs[i] == install;
        }
        OneInstalledSnoc(Others(rest, key), last);
      }
    }
  }

  lemma AfterInstall(installs: seq<Install>, key: Key, entries: seq<Entry>, kinds: set<string>, dirs: set<Path>)
    requires OneInstalled(installs) && key.platform !in ALIASES
    ensures var after := Step(installs, InstallOp(key, entries, kinds, dirs));
      && OneInstalled(after)
      && Owned(after, key) == entries
      && forall k :: k != key ==> Owned(after, k) == Owned(installs, k)
  {
    hide Others, Owned;
    var record := Record(key, entries);
    var after := Others(installs, key) + [record];
    assert KeyOf(record) == key;
    OthersOneInstalled(installs, key);
    OneInstalledSnoc(Others(installs, key), record);
    assert record in after;
    OwnedBy(after, record, key);
    forall k | k != key ensures Owned(after, k) == Owned(installs, k) {
      SameOwned(after, installs, k);
    }
  }

  /** Removing the manifest file when nothing is installed loses no owned entry. */
  lemma SavedOwned(installs: seq<Install>)
    ensures forall key :: Owned(Saved(installs), key) == Owned(installs, key)
    ensures OneInstalled(installs) ==> OneInstalled(Saved(installs))
  {
    if !AnyActive(installs) {
      forall key ensures Owned([], key) == Owned(installs, key) {
        OwnedByNone([], key);
        match Find(installs, key) {
          case Some(i) => assert installs[i] in installs;
          case None =>
        }
      }
    }
  }

  /** Appending a record that is not installed owns nothing. */
  lemma AppendInactive(installs: seq<Install>, record: Install)
    requires OneInstalled(installs) && record.status != "installed"
    ensures OneInstalled(installs + [record])
    ensures forall k :: Owned(installs + [record], k) == Owned(installs, k)
  {
    hide Owned, KeyOf;
    OneInstalledSnoc(installs, record);
    forall k ensures Owned(installs + [record], k) == Owned(installs, k) {
      SameOwned(installs + [record], installs, k);
    }
  }

  /** Replacing an installed record by one of the same installation, installed or not. */
  lemma ReplaceRecord(installs: seq<Install>, i: nat, record: Install)
    requires OneInstalled(installs) && i < |installs| && installs[i].status == "installed"
    requires KeyOf(record) == KeyOf(installs[i])
    ensures OneInstalled(installs[i := record])
    ensures forall k :: k != KeyOf(record) ==> Owned(installs[i := record], k) == Owned(installs, k)
    ensures Owned(installs[i := record], KeyOf(record)) == if record.status == "installed" then record.entries else []
  {
    hide Owned, KeyOf;
    var after := installs[i := record];
    forall m, n | 0 <= m < n < |after| ensures !Clash(after[m], after[n]) {
      assert !Clash(installs[m], installs[n]);
    }
    forall k | k != KeyOf(record) ensures Owned(after, k) == Owned(installs, k) {
      ReplaceElsewhere(installs, i, record, k);
      SameOwned(after, installs, k);
    }
    if record.status == "installed" {
      assert after[i] in after;
      OwnedBy(after, record, KeyOf(record));
    } else {
      forall install | install in after ensures !Found(install, KeyOf(record)) {
        var n :| 0 <= n < |after| && after[n] == install;
        if n != i {
          assert !Clash(installs[if n < i then n else i], installs[if n < i then i else n]);
        }
      }
      OwnedByNone(after, KeyOf(record));
    }
  }

  lemma ReplaceElsewhere(installs: seq<Install>, i: nat, record: Install, k: Key)
    requires i < |installs| && KeyOf(record) == KeyOf(installs[i]) != k
    ensures forall install :: Found(install, k) ==> (install in installs[i := record] <==> install in installs)
  {
    hide KeyOf;
    forall install | Found(install, k) ensures install in installs[i := record] <==> install in installs {
      if install in installs {
        var n :| 0 <= n < |installs| && installs[n] == install;
        assert installs[i := record][n] == install;
      }
    }
  }

  lemma AfterUninstall(installs: seq<Install>, key: Key, kinds: set<string>, dirs: set<Path>, scanned: seq<Path>)
    requires OneInstalled(installs) && key.platform !in ALIASES
    ensures var after := Step(installs, UninstallOp(key, kinds, dirs, scanned));
      && OneInstalled(after)
      && (Owned(after, key) == if HasLegacy(Owned(installs, key), kinds, dirs) then Owned(installs, key)
                               else Kept(Owned(installs, key), kinds))
      && forall k :: k != key ==> Owned(after, k) == Owned(installs, k)
  {
    hide Kept, HasLegacy, Saved, OneInstalled;
    NothingToKeep(kinds, dirs);
    match Find(installs, key) {
      case None =>
        var record := Install(key.platform, key.scope, key.workspace, "uninstalled", []);
        AppendInactive(installs, record);
        SavedOwned(installs + [record]);
      case Some(i) =>
        var kept := Kept(installs[i].entries, kinds);
        var record := installs[i].(entries := kept, status := if kept == [] then "uninstalled" else "installed");
        ReplaceRecord(installs, i, record);
        SavedOwned(installs[i := record]);
        KeepsAll(installs[i].entries, kinds);
    }
  }

  /**
   * An uninstallation is refused exactly when an entry that it would remove stands for a directory, or when there is
   * nothing to remove.
   */
  lemma UninstallRefusedIff(installs: seq<Install>, key: Key, kinds: set<string>, dirs: set<Path>, scanned: seq<Path>)
    ensures Uninstalled(installs, key, kinds, dirs, scanned).None? <==>
            || (exists e :: e in Owned(installs, key) && e.kind in kinds && e.path != [] && e.path in dirs)
            || (scanned == [] && forall e :: e in Owned(installs, key) ==> e.kind !in kinds)
  {
  }

  /** An uninstallation that succeeds leaves an installed record exactly if it has not removed all kinds there were. */
  lemma UninstallEndsIff(installs: seq<Install>, key: Key, kinds: set<string>, dirs: set<Path>, scanned: seq<Path>)
    requires OneInstalled(installs) && Find(installs, key).Some?
    requires Uninstalled(installs, key, kinds, dirs, scanned).Some?
    ensures Find(Step(installs, UninstallOp(key, kinds, dirs, scanned)), key).Some?
       <==> exists e :: e in Owned(installs, key) && e.kind !in kinds
  {
    hide Kept, HasLegacy, OneInstalled, Find;
    var i := Find(installs, key).value;
    var kept := Kept(installs[i].entries, kinds);
    var record := installs[i].(entries := kept, status := if kept == [] then "uninstalled" else "installed");
    var after := installs[i := record];
    assert after[i] == record;
    if kept == [] {
      forall install | install in after ensures !Found(install, key) {
        OthersNotFound(installs, i, record, key, install);
      }
      assert forall e :: e in installs[i].entries ==> e.kind in kinds by {
        assert forall e :: e in installs[i].entries && e.kind !in kinds ==> e in kept;
      }
    } else {
      assert kept[0] in kept;
      assert record in after && Found(record, key);
    }
  }

  /**
   * An uninstallation that succeeds leaves a record of the installation, installed or not, unless nothing that is
   * installed has any entry left: then the manifest is removed.
   */
  lemma UninstallRecords(installs: seq<Install>, key: Key, kinds: set<string>, dirs: set<Path>, scanned: seq<Path>)
    requires Uninstalled(installs, key, kinds, dirs, scanned).Some? && key.platform !in ALIASES
    ensures var after := Step(installs, UninstallOp(key, kinds, dirs, scanned));
            && (after == [] <==> !AnyActive(after))
            && (after != [] ==> exists install :: install in after && KeyOf(install) == key)
  {
    hide Kept, HasLegacy, Selects;
    match Find(installs, key) {
      case None =>
        var record := Install(key.platform, key.scope, key.workspace, "uninstalled", []);
        assert record in installs + [record] && KeyOf(record) == key;
      case Some(i) =>
        var kept := Kept(installs[i].entries, kinds);
        var record := installs[i].(entries := kept, status := if kept == [] then "uninstalled" else "installed");
        assert installs[i := record][i] == record && record in installs[i := record] && KeyOf(record) == key;
    }
  }

  lemma OthersNotFound(installs: seq<Install>, i: nat, record: Install, key: Key, install: Install)
    requires OneInstalled(installs) && i < |installs| && Found(installs[i], key)
    requires record.status != "installed" && install in installs[i := record]
    ensures !Found(install, key)
  {
    hide KeyOf;
    var n :| 0 <= n < |installs| && installs[i := record][n] == install;
    if n != i {
      assert !Clash(installs[if n < i then n else i], installs[if n < i then i else n]);
    }
  }

  lemma NothingToKeep(kinds: set<string>, dirs: set<Path>)
    ensures Kept([], kinds) == [] && !HasLegacy([], kinds, dirs)
  {
  }

  lemma {:induction false} KeepsAll(entries: seq<Entry>, kinds: set<string>)
    ensures !Selects(entries, kinds) ==> Kept(entries, kinds) == entries
  {
    if entries != [] {
      var rest, last := entries[..|entries| - 1], entries[|entries| - 1];
      assert entries == rest + [last];
      KeepsAll(rest, kinds);
    }
  }

  /**
   * Over any run at most one record of an installation is installed, and the lookup finds the entries of its last
   * installation without the kinds uninstalled since: the manifest refines a map from installation to entries.
   */
  lemma {:induction false} RunRefinesMap(ops: seq<Op>)
    requires Normalized(ops)
    ensures OneInstalled(Run(ops))
    ensures forall key :: Owned(Run(ops), key) == Expected(ops, key)
    decreases |ops|
  {
    hide Step, Owned, HasLegacy, Kept, OneInstalled;
    if ops == [] {
      NoneInstalled();
    } else {
      var rest, op := ops[..|ops| - 1], ops[|ops| - 1];
      assert forall o :: o in rest ==> o in ops;
      assert op in ops;
      RunRefinesMap(rest);
      match op {
        case InstallOp(key, entries, kinds, dirs) => AfterInstall(Run(rest), key, entries, kinds, dirs);
        case UninstallOp(key, kinds, dirs, scanned) => AfterUninstall(Run(rest), key, kinds, dirs, scanned);
      }
    }
  }

  lemma NoneInstalled()
    ensures OneInstalled([]) && forall key :: Owned([], key) == []
  {
  }

  /** An installation leaves the other records, and their order, as they are. */
  lemma InstallKeepsOthers(installs: seq<Install>, key: Key, entries: seq<Entry>, kinds: set<string>, dirs: set<Path>)
    requires key.platform !in ALIASES
    ensures Others(Step(installs, InstallOp(key, entries, kinds, dirs)), key) == Others(installs, key)
  {
    var others, record := Others(installs, key), Record(key, entries);
    assert (others + [record])[..|others|] == others;
    OthersOfOthers(others, key);
  }

  lemma {:induction false} OthersOfOthers(installs: seq<Install>, key: Key)
    requires forall install :: install in installs ==> KeyOf(install) != key
    ensures Others(installs, key) == installs
  {
    hide KeyOf;
    if installs != [] {
      var rest, last := installs[..|installs| - 1], installs[|installs| - 1];
      assert installs == rest + [last];
      OthersOfOthers(rest, key);
    }
  }

  // ----- Pruning

  /** The paths of an installation that are on disk: written, then pruned; removed by an uninstallation. */
  function OnDisk(ops: seq<Op>, key: Key): set<Path> {
    if ops == [] then {}
    else
      var rest, op := ops[..|ops| - 1], ops[|ops| - 1];
      var before, owned := OnDisk(rest, key), Owned(Run(rest), key);
      if op.key != key then before
      else
        match op
        case InstallOp(_, entries, kinds, dirs) =>
          before + PathsOf(entries) - PathsOf(Stale(owned, Selected(entries, kinds), kinds, dirs))
        case UninstallOp(_, kinds, dirs, scanned) =>
          if HasLegacy(owned, kinds, dirs) then before
          else before - Selected(owned, kinds) - (set p | p in scanned)
  }

  /**
   * At the end of every installation in a run, each path of a selected kind that it wrote is on disk: pruning the
   * entries of the installations before it has removed none of them.
   */
  lemma InstalledIsOnDisk(ops: seq<Op>, n: nat)
    requires n < |ops| && ops[n].InstallOp?
    ensures Selected(ops[n].entries, ops[n].kinds) <= OnDisk(ops[..n + 1], ops[n].key)
  {
    hide Stale, Owned, Run;
    var until, op := ops[..n + 1], ops[n];
    assert until[..n] == ops[..n] && until[n] == op;
    var current := Selected(op.entries, op.kinds);
    CurrentIsNotPruned(Owned(Run(ops[..n]), op.key), current, op.kinds, op.dirs);
    assert current <= PathsOf(op.entries);
  }

  /** Pruning deals with the entry: its kind was selected and it is no skill directory that new leaves lie in. */
  predicate Retires(e: Entry, current: set<Path>, kinds: set<string>, dirs: set<Path>) {
    e.kind in kinds && !Migrates(e, current, dirs)
  }

  /** The installation records `p` anew, or retires an entry that owned it. */
  predicate Covers(owned: seq<Entry>, entries: seq<Entry>, kinds: set<string>, dirs: set<Path>, p: Path) {
    || p in PathsOf(entries)
    || exists e :: e in owned && e.path == p && Retires(e, Selected(entries, kinds), kinds, dirs)
  }

  /** What an installation leaves on disk without a record: exactly what was there and it does not cover. */
  lemma OrphansOfInstall(before: set<Path>, owned: seq<Entry>, entries: seq<Entry>, kinds: set<string>,
                         dirs: set<Path>, p: Path)
    requires before <= PathsOf(owned)
    ensures p in before + PathsOf(entries) - PathsOf(Stale(owned, Selected(entries, kinds), kinds, dirs))
            && p !in PathsOf(entries)
       <==> p in before && !Covers(owned, entries, kinds, dirs, p)
  {
    hide Migrates;
    var current := Selected(entries, kinds);
    assert p in current ==> p in PathsOf(entries);
    if p in before && p !in PathsOf(entries) {
      assert p in PathsOf(owned) && p != [];
      forall e | e in owned && e.path == p
        ensures Retires(e, current, kinds, dirs) <==> e in Stale(owned, current, kinds, dirs)
      {
      }
    }
  }

  /** Every installation of the key covers what is on disk when it is made. */
  ghost predicate CoversAll(ops: seq<Op>, key: Key) {
    ops == []
    || (var rest, op := ops[..|ops| - 1], ops[|ops| - 1];
        CoversAll(rest, key) && CoversDisk(rest, op, key))
  }

  /** The command, if it is an installation of the key, covers what is on disk. */
  ghost predicate CoversDisk(rest: seq<Op>, op: Op, key: Key) {
    op.key == key && op.InstallOp? ==>
      forall p :: p in OnDisk(rest, key) ==> Covers(Owned(Run(rest), key), op.entries, op.kinds, op.dirs, p)
  }

  ghost predicate Recorded(ops: seq<Op>, key: Key) {
    OnDisk(ops, key) <= PathsOf(Owned(Run(ops), key))
  }

  /** At every point of the run, every path on disk is recorded. */
  ghost predicate AlwaysRecorded(ops: seq<Op>, key: Key) {
    Recorded(ops, key) && (ops != [] ==> AlwaysRecorded(ops[..|ops| - 1], key))
  }

  lemma UninstallUnrecords(before: set<Path>, owned: seq<Entry>, kinds: set<string>)
    requires before <= PathsOf(owned)
    ensures before - Selected(owned, kinds) <= PathsOf(Kept(owned, kinds))
  {
    forall p | p in before - Selected(owned, kinds) ensures p in PathsOf(Kept(owned, kinds)) {
      var e :| e in owned && e.path != [] && e.path == p;
      assert e in Kept(owned, kinds);
    }
  }

  /** One more command on a run that has orphaned nothing so far. */
  lemma StepRecordedIff(rest: seq<Op>, op: Op, key: Key)
    requires Normalized(rest + [op]) && Recorded(rest, key)
    ensures Recorded(rest + [op], key) <==> CoversDisk(rest, op, key)
  {
    hide Step, Owned, HasLegacy, Kept, OneInstalled, PathsOf, Selected, Stale, Covers;
    var ops := rest + [op];
    assert ops[..|ops| - 1] == rest;
    assert forall o :: o in rest ==> o in ops;
    RunRefinesMap(ops);
    RunRefinesMap(rest);
    if op.key == key {
      var before, owned := OnDisk(rest, key), Owned(Run(rest), key);
      match op {
        case InstallOp(_, entries, kinds, dirs) =>
          forall p { OrphansOfInstall(before, owned, entries, kinds, dirs, p); }
        case UninstallOp(_, kinds, _, _) => UninstallUnrecords(before, owned, kinds);
      }
    }
  }

  /**
   * Over any run, whatever components it installs: nothing is ever orphaned exactly when every installation
   * covers what is on disk, by recording it anew or by retiring an entry that owned it.
   */
  lemma {:induction false} NoOrphansIff(ops: seq<Op>, key: Key)
    requires Normalized(ops)
    ensures AlwaysRecorded(ops, key) <==> CoversAll(ops, key)
    decreases |ops|
  {
    hide Recorded, CoversDisk;
    if ops == [] {
      NothingOnDisk(key);
    } else {
      var rest, op := ops[..|ops| - 1], ops[|ops| - 1];
      assert ops == rest + [op];
      NoOrphansIff(rest, key);
      if AlwaysRecorded(rest, key) {
        StepRecordedIff(rest, op, key);
      }
    }
  }

  lemma NothingOnDisk(key: Key)
    ensures Recorded([], key)
  {
  }

  /** The installations of the key select every kind that it owns, and meet none of its skills as a directory. */
  ghost predicate SelectsOwned(ops: seq<Op>, key: Key) {
    ops == []
    || (var rest, op := ops[..|ops| - 1], ops[|ops| - 1];
        && SelectsOwned(rest, key)
        && (op.key == key && op.InstallOp? ==>
              forall e :: e in Owned(Run(rest), key) ==>
                e.kind in op.kinds && !(e.kind == "skill" && e.path in op.dirs)))
  }

  /** In particular nothing is orphaned while every installation selects all that was installed before it. */
  lemma {:induction false} NoOrphans(ops: seq<Op>, key: Key)
    requires Normalized(ops) && SelectsOwned(ops, key)
    ensures AlwaysRecorded(ops, key)
    decreases |ops|
  {
    hide OnDisk, Run, Owned, Selected;
    if ops != [] {
      var rest, op := ops[..|ops| - 1], ops[|ops| - 1];
      assert forall o :: o in rest ==> o in ops;
      NoOrphans(rest, key);
      NoOrphansIff(rest, key);
      if op.key == key && op.InstallOp? {
        var owned := Owned(Run(rest), key);
        forall p | p in OnDisk(rest, key) ensures Covers(owned, op.entries, op.kinds, op.dirs, p) {
          assert Recorded(rest, key);
          var e :| e in owned && e.path == p;
          assert Retires(e, Selected(op.entries, op.kinds), op.kinds, op.dirs);
        }
      }
    }
    NoOrphansIff(ops, key);
  }

  /** Installing one component after another forgets the first: its path stays on disk with no record. */
  lemma PartialInstallForgets(key: Key, rules: Path, agent: Path)
    requires key.platform !in ALIASES && rules != [] && agent != [] && rules != agent
    ensures var ops := [InstallOp(key, [Entry("managed-block", rules)], {"managed-block"}, {}),
                        InstallOp(key, [Entry("agent", agent)], {"agent"}, {})];
      rules in OnDisk(ops, key) && Owned(Run(ops), key) == [Entry("agent", agent)]
  {
    TwoInstalls(key, Entry("managed-block", rules), Entry("agent", agent), {"managed-block"}, {"agent"}, {});
  }

  /** So does a full installation over a recorded skill directory: it stays, and only its new leaf is recorded. */
  lemma SkillDirectoryForgotten(key: Key, dir: Path)
    requires key.platform !in ALIASES && dir != []
    ensures var leaf := Entry("skill", dir + ["SKILL.md"]);
      var ops := [InstallOp(key, [Entry("skill", dir)], ALL_KINDS, {}), InstallOp(key, [leaf], ALL_KINDS, {dir})];
      dir in OnDisk(ops, key) && Owned(Run(ops), key) == [leaf]
  {
    var leaf := Entry("skill", dir + ["SKILL.md"]);
    assert leaf in [leaf];
    assert leaf.path in Selected([leaf], ALL_KINDS) && Below(leaf.path, dir);
    assert |leaf.path| > |dir|;
    TwoInstalls(key, Entry("skill", dir), leaf, ALL_KINDS, ALL_KINDS, {dir});
  }

  /** One entry after another, the second installation not covering the first. */
  lemma TwoInstalls(key: Key, a: Entry, b: Entry, first: set<string>, second: set<string>, dirs: set<Path>)
    requires key.platform !in ALIASES && a.path != [] && b.path != a.path
    requires !Retires(a, Selected([b], second), second, dirs)
    ensures var ops := [InstallOp(key, [a], first, {}), InstallOp(key, [b], second, dirs)];
      a.path in OnDisk(ops, key) && Owned(Run(ops), key) == [b]
  {
    hide Step, Owned, HasLegacy, Kept, OneInstalled, Migrates, Selected;
    var one, two := InstallOp(key, [a], first, {}), InstallOp(key, [b], second, dirs);
    assert [one, two][..1] == [one] && [one][..0] == [];
    NoneInstalled();
    RunRefinesMap([one]);
    RunRefinesMap([one, two]);
    assert a in [a];
    assert PathsOf([a]) == {a.path};
    assert OnDisk([one], key) == {a.path} by { NothingStale(Selected([a], first), first); }
  }

  lemma NothingStale(current: set<Path>, kinds: set<string>)
    ensures Stale([], current, kinds, {}) == [] && PathsOf([]) == {}
  {
  }

  const ALL_KINDS := {"managed-block", "agent", "skill"}
}
