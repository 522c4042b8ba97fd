/** The installation manifest. */
module Manifest {
  // The installation manifest: which paths each platform, scope and workspace owns (delivery/scripts/install.py,
  // lines 247-250, 1324-1357, 1591-1630 and 1657-1762, with the calls in `main`). Removals succeed here; a failing
  // one leaves the manifest unsaved.

  import opened Wrappers
  import opened FileTree

  /** A path the installer wrote. The empty path stands for a missing one. */
  datatype Entry = Entry(kind: string, path: Path)

  datatype Install = Install(platform: string, scope: string, workspace: string, status: string, entries: seq<Entry>)

  /** What identifies an installation. */
  datatype Key = Key(platform: string, scope: string, workspace: string)

  const ALIASES: map<string, string> := map["claude-code" := "claude", "qoder-cli" := "qoder", "qodercli" := "qoder"]

  /** `platform_manifest_names` */
  function ManifestNames(platform: string): set<string> {
    {platform} + set alias | alias in ALIASES && ALIASES[alias] == platform
  }

  function Canonical(platform: string): string {
    if platform in ALIASES then ALIASES[platform] else platform
  }

  function KeyOf(install: Install): Key {
    Key(Canonical(install.platform), install.scope, install.workspace)
  }

  /** The comparison the manifest functions make. */
  predicate Matches(install: Install, key: Key) {
    install.platform in ManifestNames(key.platform) && install.scope == key.scope && install.workspace == key.workspace
  }

  lemma MatchesIff(install: Install, key: Key)
    requires key.platform !in ALIASES
    ensures Matches(install, key) <==> KeyOf(install) == key
  {
  }

  predicate Found(install: Install, key: Key) {
    KeyOf(install) == key && install.status == "installed"
  }

  /** The first installed record for the key. */
  function Find(installs: seq<Install>, key: Key): (r: Option<nat>)
    ensures r.Some? ==> r.value < |installs| && Found(installs[r.value], key)
    ensures r.Some? ==> forall i :: 0 <= i < r.value ==> !Found(installs[i], key)
    ensures r.None? ==> forall i :: 0 <= i < |installs| ==> !Found(installs[i], key)
  {
    hide Found;
    if installs == [] then None
    else if Found(installs[0], key) then Some(0)
    else
      match Find(installs[1..], key)
      case None =>
        assert forall i :: 0 < i < |installs| ==> installs[i] == installs[1..][i - 1];
        None
      case Some(i) =>
        assert forall j :: 0 < j <= i ==> installs[j] == installs[1..][j - 1];
        Some(i + 1)
  }

  /** The records of other installations, in their order. */
  function Others(installs: seq<Install>, key: Key): (r: seq<Install>)
    ensures forall install :: install in r <==> install in installs && KeyOf(install) != key
  {
    hide KeyOf;
    if installs == [] then []
    else
      var rest, last := installs[..|installs| - 1], installs[|installs| - 1];
      assert installs == rest + [last];
      Others(rest, key) + if KeyOf(last) == key then [] else [last]
  }

  /** The entries that stay when some kinds are uninstalled. */
  function Kept(entries: seq<Entry>, kinds: set<string>): (r: seq<Entry>)
    ensures forall e :: e in r <==> e in entries && e.kind !in kinds
  {
    if entries == [] then []
    else
      var rest, last := entries[..|entries| - 1], entries[|entries| - 1];
      assert entries == rest + [last];
      Kept(rest, kinds) + if last.kind in kinds then [] else [last]
  }

  /** An entry of a selected kind stands for a directory, as old manifests recorded skills. */
  predicate HasLegacy(entries: seq<Entry>, kinds: set<string>, dirs: set<Path>) {
    exists e :: e in entries && e.kind in kinds && e.path != [] && e.path in dirs
  }

  predicate Selects(entries: seq<Entry>, kinds: set<string>) {
    exists e :: e in entries && e.kind in kinds
  }

  predicate AnyActive(installs: seq<Install>) {
    exists install :: install in installs && install.status == "installed" && install.entries != []
  }

  /** The saved manifest: the file is removed once nothing is installed. */
  function Saved(installs: seq<Install>): seq<Install> {
    if AnyActive(installs) then installs else []
  }

  /** What an uninstallation of these kinds leaves; `scanned` are the paths found by scanning for audit marks. */
  function Uninstalled(installs: seq<Install>, key: Key, kinds: set<string>, dirs: set<Path>, scanned: seq<Path>):
    Option<seq<Install>>
  {
    match Find(installs, key)
    case None =>
      if scanned == [] then None
      else Some(Saved(installs + [Install(key.platform, key.scope, key.workspace, "uninstalled", [])]))
    case Some(i) =>
      var entries := installs[i].entries;
      if HasLegacy(entries, kinds, dirs) || (!Selects(entries, kinds) && scanned == []) then None
      else
        var kept := Kept(entries, kinds);
        Some(Saved(installs[i := installs[i].(entries := kept,
                                              status := if kept == [] then "uninstalled" else "installed")]))
  }

  // ----- Stale entries

  predicate Below(path: Path, top: Path) {
    top <= path
  }

  function PathsOf(entries: seq<Entry>): set<Path> {
    set e | e in entries && e.path != [] :: e.path
  }

  /** The paths of the selected kinds: those an installation has just written, or an uninstallation removes. */
  function Selected(entries: seq<Entry>, kinds: set<string>): set<Path> {
    set e | e in entries && e.kind in kinds && e.path != [] :: e.path
  }

  /** A recorded skill directory that the new leaf paths lie in. */
  predicate Migrates(e: Entry, current: set<Path>, dirs: set<Path>) {
    e.kind == "skill" && e.path in dirs && exists p :: p in current && Below(p, e.path)
  }

  predicate IsStale(e: Entry, current: set<Path>, kinds: set<string>, dirs: set<Path>) {
    e.kind in kinds && e.path != [] && e.path !in current && !Migrates(e, current, dirs)
  }

  /** The stale ones among the entries, in their order. */
  function Stale(entries: seq<Entry>, current: set<Path>, kinds: set<string>, dirs: set<Path>): (r: seq<Entry>)
    ensures forall e :: e in r <==> e in entries && IsStale(e, current, kinds, dirs)
  {
    hide IsStale;
    if entries == [] then []
    else
      var rest, last := entries[..|entries| - 1], entries[|entries| - 1];
      assert entries == rest + [last];
      Stale(rest, current, kinds, dirs) + if IsStale(last, current, kinds, dirs) then [last] else []
  }

  /** Whatever is recorded: what was just written is not pruned. */
  lemma CurrentIsNotPruned(entries: seq<Entry>, current: set<Path>, kinds: set<string>, dirs: set<Path>)
    ensures PathsOf(Stale(entries, current, kinds, dirs)) !! current
  {
    hide Migrates;
  }

  // ----- The manifest payload

  class Payload {
    var installs: seq<Install>

    constructor ()
      ensures installs == []
    {
      installs := [];
    }

    /** `find_matching_install` */
    method FindMatchingInstall(key: Key) returns (r: Option<nat>)
      requires key.platform !in ALIASES
      ensures r == Find(installs, key)
    {
      hide Matches, Found, KeyOf;
      for i := 0 to |installs|
        invariant forall j :: 0 <= j < i ==> !Found(installs[j], key)
      {
        FoundIff(installs[i], key);
        if Matches(installs[i], key) && installs[i].status == "installed" {
          return Some(i);
        }
      }
      return None;
    }

    /** `upsert_manifest_entry` */
    method UpsertEntry(entry: Install)
      requires entry.platform !in ALIASES
      modifies this
      ensures installs == Others(old(installs), KeyOf(entry)) + [entry]
    {
      hide Others, Matches;
      var key := Key(entry.platform, entry.scope, entry.workspace);
      var kept: seq<Install> := [];
      NoOthers(key);
      assert installs[..0] == [];
      for i := 0 to |installs|
        invariant installs == old(installs)
        invariant kept == Others(installs[..i], key)
      {
        MatchesIff(installs[i], key);
        OneMoreOther(installs, i, key);
        if !Matches(installs[i], key) {
          kept := kept + [installs[i]];
        }
      }
      assert installs[..|installs|] == installs;
      installs := kept + [entry];
    }

    /** `uninstall_platform`, and the saving of the manifest after it; false when it fails before any change. */
    method Uninstall(key: Key, kinds: set<string>, dirs: set<Path>, scanned: seq<Path>) returns (ok: bool)
      requires key.platform !in ALIASES
      modifies this
      ensures ok <==> Uninstalled(old(installs), key, kinds, dirs, scanned).Some?
      ensures installs == if ok then Uninstalled(old(installs), key, kinds, dirs, scanned).value else old(installs)
    {
      hide Found, Kept, AnyActive, Canonical;
      var matching := FindMatchingInstall(key);
      if matching.Some? && HasLegacy(installs[matching.value].entries, kinds, dirs) {
        return false;
      }
      var remaining: seq<Entry> := [];
      var removedCount := 0;
      var removedPaths: set<Path> := {};
      if matching.Some? {
        var entries := installs[matching.value].entries;
        remaining, removedCount, removedPaths := RemoveEntries(entries, kinds);
      }
      removedCount := RemoveScanned(scanned, removedCount, removedPaths);
      if removedCount == 0 {
        return false;
      }
      if matching.None? {
        installs := installs + [Install(key.platform, key.scope, key.workspace, "uninstalled", [])];
      } else {
        var i := matching.value;
        installs := installs[i := installs[i].(entries := remaining)];
        installs := installs[i := installs[i].(status := if remaining != [] then "installed" else "uninstalled")];
        assert installs == old(installs)[i := old(installs)[i].(entries := remaining, status := installs[i].status)];
      }
      if !AnyActive(installs) {
        installs := [];
      }
      return true;
    }
  }

  /** The loop over the recorded entries. */
  method RemoveEntries(entries: seq<Entry>, kinds: set<string>)
    returns (remaining: seq<Entry>, removedCount: nat, removedPaths: set<Path>)
    ensures remaining == Kept(entries, kinds)
    ensures removedCount > 0 <==> Selects(entries, kinds)
    ensures removedCount == 0 ==> removedPaths == {}
  {
    hide Kept;
    remaining, removedCount, removedPaths := [], 0, {};
    NoneKept(kinds);
    assert entries[..0] == [];
    for i := 0 to |entries|
      invariant remaining == Kept(entries[..i], kinds)
      invariant removedCount > 0 <==> Selects(entries[..i], kinds)
      invariant removedCount == 0 ==> removedPaths == {}
    {
      OneMoreKept(entries, i, kinds);
      if entries[i].kind !in kinds {
        remaining := remaining + [entries[i]];
        continue;
      }
      removedPaths := removedPaths + {entries[i].path};
      removedCount := removedCount + 1;
    }
    assert entries[..|entries|] == entries;
  }

  /** The loop over the scanned files, which skips what is already removed. */
  method RemoveScanned(scanned: seq<Path>, before: nat, already: set<Path>) returns (removedCount: nat)
    requires before == 0 ==> already == {}
    ensures removedCount == 0 <==> before == 0 && scanned == []
  {
    var removedPaths := already;
    removedCount := before;
    for i := 0 to |scanned|
      invariant removedCount == 0 <==> before == 0 && i == 0
      invariant removedCount == 0 ==> removedPaths == {}
    {
      if scanned[i] in removedPaths {
        continue;
      }
      removedPaths := removedPaths + {scanned[i]};
      removedCount := removedCount + 1;
    }
  }

  /** The entries `prune_stale_manifest_entries` removes, in the order it removes them. */
  method PruneStale(entries: seq<Entry>, currentEntries: seq<Entry>, kinds: set<string>, dirs: set<Path>)
    returns (pruned: seq<Entry>)
    ensures pruned == Stale(entries, Selected(currentEntries, kinds), kinds, dirs)
    ensures PathsOf(pruned) !! Selected(currentEntries, kinds)
    ensures forall e :: e in pruned <==>
              && e in entries && e.kind in kinds && e.path != [] && e.path !in Selected(currentEntries, kinds)
              && !(e.kind == "skill" && e.path in dirs
                   && exists p :: p in Selected(currentEntries, kinds) && Below(p, e.path))
  {
    var current := Selected(currentEntries, kinds);
    CurrentIsNotPruned(entries, current, kinds, dirs);
    hide Stale, Selected, PathsOf;
    pruned := [];
    NoneStale(current, kinds, dirs);
    assert entries[..0] == [];
    for i := 0 to |entries|
      invariant pruned == Stale(entries[..i], current, kinds, dirs)
    {
      OneMoreStale(entries, i, current, kinds, dirs);
      var e := entries[i];
      if e.kind !in kinds {
        continue;
      }
      if e.path == [] || e.path in current {
        continue;
      }
      if e.kind == "skill" && e.path in dirs {
        if exists p :: p in current && Below(p, e.path) {
          continue;
        }
      }
      pruned := pruned + [e];
    }
    assert entries[..|entries|] == entries;
  }

  lemma FoundIff(install: Install, key: Key)
    requires key.platform !in ALIASES
    ensures Found(install, key) <==> Matches(install, key) && install.status == "installed"
  {
    hide Matches;
    MatchesIff(install, key);
  }

  lemma NoOthers(key: Key)
    ensures Others([], key) == []
  {
  }

  lemma OneMoreOther(installs: seq<Install>, i: nat, key: Key)
    requires i < |installs|
    ensures Others(installs[..i + 1], key)
         == Others(installs[..i], key) + if KeyOf(installs[i]) == key then [] else [installs[i]]
  {
    hide KeyOf;
    assert installs[..i + 1][..i] == installs[..i];
  }

  lemma NoneKept(kinds: set<string>)
    ensures Kept([], kinds) == []
  {
  }

  lemma OneMoreKept(entries: seq<Entry>, i: nat, kinds: set<string>)
    requires i < |entries|
    ensures Kept(entries[..i + 1], kinds)
         == Kept(entries[..i], kinds) + if entries[i].kind in kinds then [] else [entries[i]]
    ensures Selects(entries[..i + 1], kinds) <==> Selects(entries[..i], kinds) || entries[i].kind in kinds
  {
    assert entries[..i + 1][..i] == entries[..i];
    assert entries[..i + 1] == entries[..i] + [entries[i]];
  }

  lemma NoneStale(current: set<Path>, kinds: set<string>, dirs: set<Path>)
    ensures Stale([], current, kinds, dirs) == []
  {
  }

  lemma OneMoreStale(entries: seq<Entry>, i: nat, current: set<Path>, kinds: set<string>, dirs: set<Path>)
    requires i < |entries|
    ensures Stale(entries[..i + 1], current, kinds, dirs)
         == Stale(entries[..i], current, kinds, dirs)
              + if IsStale(entries[i], current, kinds, dirs) then [entries[i]] else []
  {
    hide IsStale;
    assert entries[..i + 1][..i] == entries[..i];
  }
}
