/** The calls of the installer, in place. */
module Installer {
  // The installer's calls on the file tree and its undo log, in place (delivery/scripts/install.py, lines 982-1176
  // and 1765-1786).

  import opened Wrappers
  import opened Text
  import opened ManagedBlock
  import opened FileTree
  import opened Ordering
  import opened Transaction
  import opened Cleanup
  import SharedFile

  /** `sorted(keys, reverse=True)` */
  method ReverseSorted(keys: set<Path>) returns (order: seq<Path>)
    ensures forall p :: p in order <==> p in keys
    ensures forall i, j :: 0 <= i < j < |order| ==> Le(order[j], order[i]) && order[i] != order[j]
  {
    var listed := ListSet(keys);
    var ascending := Sorted(listed, By((p: Path) => p));
    SortedAscending(listed, (p: Path) => p);
    SortedDistinct(listed, ascending);
    SameMembers(listed, ascending);
    order := Reversed(ascending);
  }

  function Reversed(s: seq<Path>): (r: seq<Path>)
    ensures |r| == |s| && forall i :: 0 <= i < |s| ==> r[i] == s[|s| - 1 - i]
    ensures forall p :: p in r <==> p in s
  {
    if s == [] then []
    else
      assert s == [s[0]] + s[1..];
      Reversed(s[1..]) + [s[0]]
  }

  /** The state and outcome of an upsert: no target, damaged sentinels, or a write. */
  function Upserted(s: State, path: Path, block: string, platform: string, fault: Fault): (State, bool) {
    var ready := s.(tree := MakeDirs(s.tree, Parent(path)));
    if !TargetOk(s.tree, path) then (ready, false)
    else
      match UpsertText(TextAt(s.tree, path), block, platform)
      case Err(_) => (ready, false)
      case Ok(text) => Write(s, path, text, fault)
  }

  /** The state and outcome of a clear, which leaves an absent file and a file without the block alone. */
  function Cleared(s: State, path: Path, platform: string, fault: Fault): (State, bool) {
    var ready := s.(tree := MakeDirs(s.tree, Parent(path)));
    if !Exists(s.tree, path) then (s, true)
    else if !TargetOk(s.tree, path) then (ready, false)
    else
      match ClearText(TextAt(s.tree, path), platform)
      case Err(_) => (ready, false)
      case Ok(None) => (ready, true)
      case Ok(Some(text)) => Write(s, path, text, fault)
  }

  /** The file at the path takes part in the operation, as it is on disk, and no other file does. */
  ghost predicate OpOnDisk(t: Tree, u: Tree, path: Path, op: SharedFile.Op, fault: Fault, ok: bool) {
    var before, after := TextAt(t, path), SharedFile.Apply(TextAt(t, path), op);
    && SameElsewhere(t, u, path)
    && (ok <==>
          && (TargetOk(t, path) || (op.Clear? && !Exists(t, path)))
          && after.Ok? && (fault.NoFault? || after.value == before))
    && (ok ==> Ok(TextAt(u, path)) == after)
    && (!ok ==> TextAt(u, path) == before || (fault.Torn? && TextAt(u, path) == Some(fault.partial)))
  }

  lemma UpsertedOnDisk(s: State, path: Path, content: string, commit: string, generated: string, p: string,
                       fault: Fault)
    ensures var (next, ok) := Upserted(s, path, RenderBlock(p, content, commit, generated), p, fault);
            OpOnDisk(s.tree, next.tree, path, SharedFile.Upsert(p, content, commit, generated), fault, ok)
  {
    hide RenderBlock, UpsertText, Write, TargetOk, Parent, Components, Blocked;
    var written := UpsertText(TextAt(s.tree, path), RenderBlock(p, content, commit, generated), p);
    if written.Ok? {
      WriteWrites(s, path, written.value, fault);
    }
  }

  lemma ClearedOnDisk(s: State, path: Path, p: string, fault: Fault)
    ensures var (next, ok) := Cleared(s, path, p, fault);
            OpOnDisk(s.tree, next.tree, path, SharedFile.Clear(p), fault, ok)
  {
    hide FindRange, Replaced, Write, Parent, Components, Blocked;
    var cleared := ClearText(TextAt(s.tree, path), p);
    if cleared.Ok? && cleared.value.Some? {
      WriteWrites(s, path, cleared.value.value, fault);
    }
  }

  lemma WriteWhenReady(s: State, path: Path, text: string, fault: Fault)
    requires WellFormed(s.tree) && TargetOk(s.tree, path)
    ensures Write(s.(tree := MakeDirs(s.tree, Parent(path))), path, text, fault) == Write(s, path, text, fault)
    ensures WellFormed(MakeDirs(s.tree, Parent(path)))
  {
    MakeDirsWellFormed(s.tree, Parent(path));
    assert path !in Components(Parent(path));
  }

  lemma UpsertWrites(s: State, path: Path, block: string, platform: string, fault: Fault, text: string)
    requires WellFormed(s.tree) && TargetOk(s.tree, path)
    requires UpsertText(TextAt(s.tree, path), block, platform) == Ok(text)
    ensures Upserted(s, path, block, platform, fault)
         == Write(s.(tree := MakeDirs(s.tree, Parent(path))), path, text, fault)
    ensures WellFormed(MakeDirs(s.tree, Parent(path)))
  {
    hide Write, UpsertText, WellFormed, TargetOk;
    WriteWhenReady(s, path, text, fault);
  }

  lemma ClearWrites(s: State, path: Path, platform: string, fault: Fault, text: string)
    requires WellFormed(s.tree) && TargetOk(s.tree, path) && path in s.tree.files
    requires ClearText(TextAt(s.tree, path), platform) == Ok(Some(text))
    ensures Cleared(s, path, platform, fault)
         == Write(s.(tree := MakeDirs(s.tree, Parent(path))), path, text, fault)
    ensures WellFormed(MakeDirs(s.tree, Parent(path)))
  {
    hide Write, ClearText, WellFormed, TargetOk;
    WriteWhenReady(s, path, text, fault);
  }

  lemma WriteSame(s: State, path: Path, fault: Fault)
    requires path in s.tree.files && TargetOk(s.tree, path)
    ensures Write(s, path, s.tree.files[path], fault) == (s.(tree := MakeDirs(s.tree, Parent(path))), true)
  {
  }

  lemma LongestExists(paths: set<Path>)
    requires paths != {}
    ensures exists d :: d in paths && forall c :: c in paths ==> |c| <= |d|
  {
    var p :| p in paths;
    if paths != {p} {
      var rest := paths - {p};
      LongestExists(rest);
      var d :| d in rest && forall c :: c in rest ==> |c| <= |d|;
      var longest := if |p| <= |d| then d else p;
      assert longest in paths && forall c :: c in paths ==> c == p || c in rest;
    }
  }

  /** The directories between a removed leaf and the root. */
  method ParentsOf(leaf: Path, root: Path) returns (parents: set<Path>)
    ensures forall d :: d in parents <==> Above(root, d) && Above(d, leaf)
  {
    parents := {};
    var parent := Parent(leaf);
    while parent != root && root <= parent
      invariant Above(parent, leaf) || parent == leaf == []
      invariant forall d :: d in parents <==> Above(root, d) && Above(d, leaf) && |parent| < |d|
      decreases |parent|
    {
      forall d | Above(d, leaf) && |d| == |parent| ensures d == parent {
        assert d == leaf[..|d|] && parent == leaf[..|parent|];
      }
      parents, parent := parents + {parent}, Parent(parent);
    }
    forall d | Above(root, d) && Above(d, leaf) ensures |parent| < |d| {
      assert d == leaf[..|d|] && parent == leaf[..|parent|];
    }
  }

  method ParentsToCheck(removed: seq<Path>, root: Path) returns (candidates: set<Path>)
    ensures candidates == Candidates(root, removed)
  {
    candidates := {};
    for i := 0 to |removed|
      invariant candidates == Candidates(root, removed[..i])
    {
      assert removed[..i + 1] == removed[..i] + [removed[i]];
      var parents := ParentsOf(removed[i], root);
      candidates := candidates + parents;
    }
    assert removed[..|removed|] == removed;
  }

  class Files {
    var tree: Tree
    var log: Log

    function Now(): State
      reads this
    {
      State(tree, log)
    }

    constructor (start: Tree)
      ensures tree == start && log == map[]
    {
      tree, log := start, map[];
    }

    method EnsureDirectory(path: Path) returns (ok: bool)
      requires WellFormed(tree)
      modifies this`tree
      ensures ok == !Blocked(old(tree), path)
      ensures tree == MakeDirs(old(tree), path)
    {
      for i := 1 to |path| + 1
        invariant forall k :: 0 <= k < i ==> path[..k] !in tree.files
      {
        var component := path[..i];
        if component in tree.files {
          assert component in Components(path);
          return false;
        }
      }
      assert forall a :: a in Components(path) ==> a == path[..|a|];
      tree := tree.(dirs := tree.dirs + Components(path));
      ok := true;
    }

    method EnsureFileTarget(path: Path) returns (ok: bool)
      requires WellFormed(tree)
      modifies this`tree
      ensures ok == TargetOk(old(tree), path)
      ensures tree == MakeDirs(old(tree), Parent(path))
    {
      var parentOk := EnsureDirectory(Parent(path));
      if !parentOk {
        return false;
      }
      assert path in Components(Parent(path)) ==> path == [];
      ok := path !in tree.dirs;
    }

    method RecordOriginalText(path: Path)
      modifies this
      ensures Now() == Record(old(Now()), path)
    {
      if path !in log {
        log := log[path := if path in tree.files then Some(tree.files[path]) else None];
      }
    }

    method WriteText(path: Path, content: string, fault: Fault) returns (ok: bool)
      requires WellFormed(tree)
      modifies this
      ensures (Now(), ok) == Write(old(Now()), path, content, fault)
      ensures Wrote(old(tree), tree, path, content, fault, ok)
    {
      ok := EnsureFileTarget(path);
      if !ok {
        return;
      }
      if path in tree.files && tree.files[path] == content {
        return;
      }
      if fault.BeforeRecord? {
        return false;
      }
      RecordOriginalText(path);
      if fault.AfterRecord? {
        return false;
      }
      tree := tree.(files := tree.files[path := if fault.Torn? then fault.partial else content]);
      ok := !fault.Torn?;
    }

    method RemovePath(path: Path, fault: Fault) returns (ok: bool)
      requires WellFormed(tree)
      modifies this
      ensures (Now(), ok) == Remove(old(Now()), path, fault)
      ensures Removed(old(tree), tree, path, fault, ok)
    {
      if path in tree.dirs {
        return false;
      }
      if path in tree.files {
        if fault.BeforeRecord? {
          return false;
        }
        RecordOriginalText(path);
        if !fault.NoFault? {
          return false;
        }
        tree := tree.(files := tree.files - {path});
      }
      ok := true;
    }

    /** `rollback_transaction`: it stops at the first path it cannot restore. */
    method Rollback() returns (ok: bool, order: seq<Path>)
      requires WellFormed(tree)
      modifies this`tree
      ensures Lists(order, log) && BelowFirst(order)
      ensures (tree, ok) == RestoreAll(old(tree), log, order)
    {
      order := ReverseSorted(log.Keys);
      ReverseSortedBelowFirst(order);
      for i := 0 to |order|
        invariant WellFormed(tree)
        invariant RestoreAll(old(tree), log, order) == RestoreAll(tree, log, order[i..])
      {
        var path := order[i];
        assert order[i..][0] == path && order[i..][1..] == order[i + 1..];
        match log[path] {
          case None =>
            if path in tree.dirs {
              return false, order;
            }
            if path in tree.files {
              RemoveWellFormed(tree, path);
            }
            tree := tree.(files := tree.files - {path});
          case Some(text) =>
            ghost var before := tree;
            var target := EnsureFileTarget(path);
            if !target {
              return false, order;
            }
            PutWellFormed(before, path, text);
            tree := tree.(files := tree.files[path := text]);
        }
      }
      ok := true;
    }

    /** `upsert_managed_block`: the two errors are a target that cannot be written and damaged sentinels. */
    method UpsertManagedBlock(path: Path, content: string, commit: string, generated: string,
                              platform: string, fault: Fault)
      returns (ok: bool)
      requires WellFormed(tree)
      modifies this
      ensures (Now(), ok)
           == Upserted(old(Now()), path, RenderBlock(platform, content, commit, generated), platform, fault)
      ensures OpOnDisk(old(tree), tree, path, SharedFile.Upsert(platform, content, commit, generated), fault, ok)
    {
      hide OpOnDisk;
      UpsertedOnDisk(Now(), path, content, commit, generated, platform, fault);
      hide FindRange, RenderBlock, Write, WellFormed, MakeDirs, TargetOk, RStrip, EndsWith, Join, Glue;
      var block := RenderBlock(platform, content, commit, generated);
      ok := EnsureFileTarget(path);
      if !ok {
        return;
      }
      if path !in tree.files {
        UpsertWrites(old(Now()), path, block, platform, fault, block + "\n");
        ok := WriteText(path, block + "\n", fault);
        return;
      }
      var existing := tree.files[path];
      match FindRange(existing, platform) {
        case Err(_) =>
          ok := false;
        case Ok(None) =>
          var separator := if existing != "" && !EndsWith(existing, "\n\n") then "\n\n" else "";
          var merged := RStrip(existing) + separator + block + "\n";
          var text := if RStrip(existing) != "" then merged else block + "\n";
          UpsertWrites(old(Now()), path, block, platform, fault, text);
          ok := WriteText(path, text, fault);
        case Ok(Some((begin, end))) =>
          var replaced := RStrip(existing[..begin]);
          var suffix := LStripNewlines(existing[end..]);
          var text := Join([replaced, block, RStrip(suffix)]) + "\n";
          JoinThree(replaced, block, RStrip(suffix));
          UpsertWrites(old(Now()), path, block, platform, fault, text);
          ok := WriteText(path, text, fault);
      }
    }

    /** `clear_managed_block` */
    method ClearManagedBlock(path: Path, platform: string, fault: Fault) returns (ok: bool)
      requires WellFormed(tree)
      modifies this
      ensures (Now(), ok) == Cleared(old(Now()), path, platform, fault)
      ensures OpOnDisk(old(tree), tree, path, SharedFile.Clear(platform), fault, ok)
    {
      hide OpOnDisk;
      ClearedOnDisk(Now(), path, platform, fault);
      hide FindRange, Write, WellFormed, MakeDirs, RStrip, Join;
      if !Exists(tree, path) {
        return true;
      }
      ok := EnsureFileTarget(path);
      if !ok {
        return;
      }
      var existing := tree.files[path];
      match FindRange(existing, platform) {
        case Err(_) =>
          ok := false;
        case Ok(None) =>
          WriteSame(old(Now()), path, fault);
        case Ok(Some((begin, end))) =>
          var prefix := RStrip(existing[..begin]);
          var suffix := LStripNewlines(existing[end..]);
          var text := Join([prefix, RStrip(suffix)]) + "\n";
          JoinThree(prefix, "", RStrip(suffix));
          JoinThree("", prefix, RStrip(suffix));
          ClearWrites(old(Now()), path, platform, fault, text);
          ok := WriteText(path, text, fault);
      }
    }

    /** `_prune_empty_removed_parents`: exactly the removable candidates go, and nothing else changes. */
    method PruneEmptyRemovedParents(removed: seq<Path>, root: Path)
      requires WellFormed(tree)
      modifies this`tree
      ensures tree.files == old(tree.files) && WellFormed(tree)
      ensures forall d :: d in tree.dirs <==>
                d in old(tree.dirs) && !Removable(old(tree), Candidates(root, removed), d)
    {
      var candidates := ParentsToCheck(removed, root);
      ghost var all := candidates;
      assert all - candidates == {};
      ghost var before := tree;
      while candidates != {}
        invariant candidates <= all
        invariant forall c, d :: c in all - candidates && d in candidates ==> |c| >= |d|
        invariant Swept(before, all, all - candidates, tree)
        decreases candidates
      {
        LongestExists(candidates);
        var d :| d in candidates && forall c :: c in candidates ==> |c| <= |d|;
        ghost var done := all - candidates;
        TakeTurn(before, all, done, tree, d);
        if d in tree.dirs && !HasChild(tree, d) {
          tree := tree.(dirs := tree.dirs - {d});
        }
        candidates := candidates - {d};
        assert all - candidates == done + {d};
      }
      assert all - candidates == all;
      SweptAll(before, all, tree);
    }
  }
}
