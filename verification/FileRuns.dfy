/** Runs of upserts and clears on disk. */
module FileRuns {
  // Whole runs of upserts and clears on the file tree: any platforms, any files, each call stopped anywhere
  // (delivery/scripts/install.py, lines 982-1176).

  import opened Wrappers
  import opened Text
  import opened ManagedBlock
  import opened FileTree
  import opened Transaction
  import opened Installer
  import opened BlockContent
  import SharedFile

  /** A call of `upsert_managed_block` or `clear_managed_block`. */
  datatype Call = Call(path: Path, op: SharedFile.Op, fault: Fault)

  function Do(s: State, call: Call): (State, bool) {
    match call.op
    case Upsert(p, content, commit, generated) =>
      Upserted(s, call.path, RenderBlock(p, content, commit, generated), p, call.fault)
    case Clear(p) => Cleared(s, call.path, p, call.fault)
  }

  /** The state reached, and whether all calls returned. */
  function DoAll(s: State, calls: seq<Call>): (State, bool)
    decreases |calls|
  {
    if calls == [] then (s, true)
    else
      var (next, ok) := Do(s, calls[0]);
      if ok then DoAll(next, calls[1..]) else (next, false)
  }

  /** The operations on one file. */
  function OpsOn(calls: seq<Call>, path: Path): seq<SharedFile.Op> {
    if calls == [] then []
    else (if calls[0].path == path then [calls[0].op] else []) + OpsOn(calls[1..], path)
  }

  lemma DoneOnDisk(s: State, call: Call)
    ensures var (next, ok) := Do(s, call); OpOnDisk(s.tree, next.tree, call.path, call.op, call.fault, ok)
  {
    hide Upserted, Cleared, OpOnDisk, RenderBlock;
    match call.op
    case Upsert(p, content, commit, generated) =>
      UpsertedOnDisk(s, call.path, content, commit, generated, p, call.fault);
    case Clear(p) => ClearedOnDisk(s, call.path, p, call.fault);
  }

  lemma FirstOp(file: Option<string>, op: SharedFile.Op, rest: seq<SharedFile.Op>, next: Option<string>)
    requires SharedFile.Apply(file, op) == Ok(next)
    ensures SharedFile.Run(file, [op] + rest) == SharedFile.Run(next, rest)
  {
    hide SharedFile.Apply;
    assert ([op] + rest)[1..] == rest;
  }

  /** Each file on disk goes through the operations on it, whatever the calls on other files in between. */
  lemma {:induction false} RunOnDisk(s: State, calls: seq<Call>, path: Path)
    requires DoAll(s, calls).1
    ensures SharedFile.Run(TextAt(s.tree, path), OpsOn(calls, path)) == Ok(TextAt(DoAll(s, calls).0.tree, path))
    decreases |calls|
  {
    hide Do, SharedFile.Apply;
    if calls != [] {
      var next, rest := Do(s, calls[0]).0, OpsOn(calls[1..], path);
      DoneOnDisk(s, calls[0]);
      RunOnDisk(next, calls[1..], path);
      if calls[0].path == path {
        assert Ok(TextAt(next.tree, path)) == SharedFile.Apply(TextAt(s.tree, path), calls[0].op);
        FirstOp(TextAt(s.tree, path), calls[0].op, rest, TextAt(next.tree, path));
      } else {
        assert TextAt(next.tree, path) == TextAt(s.tree, path);
        assert OpsOn(calls, path) == rest;
      }
    }
  }

  lemma {:induction false} OpsOnMembers(calls: seq<Call>, path: Path)
    ensures forall op :: op in OpsOn(calls, path) <==>
              exists k :: 0 <= k < |calls| && calls[k] == Call(path, op, calls[k].fault)
  {
    if calls != [] {
      OpsOnMembers(calls[1..], path);
      assert forall k :: 0 < k < |calls| ==> calls[k] == calls[1..][k - 1];
    }
  }

  /** The `n`-th call is the last one of its platform on its file. */
  predicate IsLastCall(calls: seq<Call>, n: nat) {
    n < |calls| && forall k :: n < k < |calls| && calls[k].path == calls[n].path ==>
                     calls[k].op.platform != calls[n].op.platform
  }

  lemma FirstIsLast(op: SharedFile.Op, rest: seq<SharedFile.Op>)
    requires forall other :: other in rest ==> other.platform != op.platform
    ensures IsLast([op] + rest, 0)
  {
    assert forall k :: 0 < k < |[op] + rest| ==> ([op] + rest)[k] == rest[k - 1] && rest[k - 1] in rest;
  }

  lemma LaterIsLast(op: SharedFile.Op, rest: seq<SharedFile.Op>, m: nat)
    requires IsLast(rest, m)
    ensures IsLast([op] + rest, m + 1) && ([op] + rest)[m + 1] == rest[m]
  {
    assert forall k :: 0 < k < |[op] + rest| ==> ([op] + rest)[k] == rest[k - 1];
  }

  lemma {:induction false} LastOpOn(calls: seq<Call>, n: nat)
    requires IsLastCall(calls, n)
    ensures exists m: nat :: IsLast(OpsOn(calls, calls[n].path), m) && OpsOn(calls, calls[n].path)[m] == calls[n].op
    decreases n
  {
    var path := calls[n].path;
    var ops, rest := OpsOn(calls, path), OpsOn(calls[1..], path);
    if n == 0 {
      OpsOnMembers(calls[1..], path);
      assert forall k :: 0 < k < |calls| ==> calls[1..][k - 1] == calls[k];
      FirstIsLast(calls[0].op, rest);
    } else {
      assert forall k :: 0 < k < |calls| ==> calls[1..][k - 1] == calls[k];
      assert forall k :: 0 <= k < |calls| - 1 ==> calls[1..][k] == calls[k + 1];
      LastOpOn(calls[1..], n - 1);
      var m: nat :| IsLast(rest, m) && rest[m] == calls[n].op;
      if calls[0].path == path {
        LaterIsLast(calls[0].op, rest, m);
      } else {
        assert ops == rest;
      }
    }
  }

  /** The file was absent or free of sentinels, and the operations on it are clean. */
  ghost predicate CleanFile(t: Tree, calls: seq<Call>, path: Path) {
    && (path in t.files ==> MarkFree(t.files[path]))
    && forall call :: call in calls && call.path == path ==> SharedFile.CleanOp(call.op)
  }

  /**
   * Over any run of calls on any files: on disk, each platform owns in a clean file exactly the block its own last
   * call on the file left there.
   */
  lemma EveryFileOwns(s: State, calls: seq<Call>, path: Path, p: string)
    requires DoAll(s, calls).1 && CleanFile(s.tree, calls, path) && PlatformName(p)
    ensures SharedFile.Owns(TextAt(DoAll(s, calls).0.tree, path), p, SharedFile.LastBlock(OpsOn(calls, path), p))
  {
    hide DoAll, MarkFree, SharedFile.CleanOp, SharedFile.Run, SharedFile.Owns, SharedFile.LastBlock, PlatformName;
    RunOnDisk(s, calls, path);
    OpsOnMembers(calls, path);
    SharedFile.AnyRunOwns(TextAt(s.tree, path), OpsOn(calls, path), p);
  }

  /** And the block holds the content of that call, or is gone if the call was a clear. */
  lemma EveryFileCarries(s: State, calls: seq<Call>, n: nat)
    requires DoAll(s, calls).1 && IsLastCall(calls, n) && CleanFile(s.tree, calls, calls[n].path)
    ensures var file, op := TextAt(DoAll(s, calls).0.tree, calls[n].path), calls[n].op;
            if op.Upsert? then file.Some? && FoundCarrying(file.value, op)
            else file.None? || FindRange(file.value, op.platform) == Ok(None)
  {
    hide DoAll, MarkFree, SharedFile.CleanOp, SharedFile.Run, FoundCarrying, FindRange;
    var path := calls[n].path;
    RunOnDisk(s, calls, path);
    OpsOnMembers(calls, path);
    LastOpOn(calls, n);
    var m: nat :| IsLast(OpsOn(calls, path), m) && OpsOn(calls, path)[m] == calls[n].op;
    AnyRunCarries(TextAt(s.tree, path), OpsOn(calls, path), m);
  }

  /** A call is a write, or does nothing. */
  lemma DoIsWrite(s: State, call: Call)
    requires WellFormed(s.tree)
    ensures Do(s, call) == (s, true) || exists text, fault ::
              && Do(s, call).0 == Write(s, call.path, text, fault).0
              && (Do(s, call).1 ==> Write(s, call.path, text, fault).1)
  {
    hide RenderBlock, FindRange, Blocked, Components, Replaced;
    var path, before := call.path, TextAt(s.tree, call.path);
    var other := if before.Some? then before.value + "x" else "";
    assert before.Some? ==> |other| == |before.value| + 1;
    assert Write(s, path, other, BeforeRecord) == (s.(tree := MakeDirs(s.tree, Parent(path))), false);
    match call.op {
      case Upsert(p, content, commit, generated) =>
        var upserted := UpsertText(before, RenderBlock(p, content, commit, generated), p);
        if TargetOk(s.tree, path) && upserted.Ok? {
          assert Do(s, call) == Write(s, path, upserted.value, call.fault);
        } else {
          assert Do(s, call) == Write(s, path, other, BeforeRecord);
        }
      case Clear(p) =>
        var cleared := ClearText(before, p);
        if Exists(s.tree, path) {
          if TargetOk(s.tree, path) && cleared.Ok? {
            assert Do(s, call) == Write(s, path, cleared.value.value, call.fault);
          } else {
            assert Do(s, call) == Write(s, path, other, BeforeRecord);
          }
        }
    }
  }

  // ----- When a run goes through

  lemma FileIsTarget(t: Tree, path: Path)
    requires WellFormed(t) && path in t.files
    ensures TargetOk(t, path)
  {
    forall a | a in Components(Parent(path)) ensures a !in t.files {
      assert Above(a, path);
    }
  }

  lemma WriteStaysTarget(s: State, path: Path, text: string, fault: Fault)
    requires WellFormed(s.tree) && TargetOk(s.tree, path)
    ensures var next := Write(s, path, text, fault).0; WellFormed(next.tree) && TargetOk(next.tree, path)
  {
    MakeDirsWellFormed(s.tree, Parent(path));
    PutWellFormed(s.tree, path, text);
    if fault.Torn? {
      PutWellFormed(s.tree, path, fault.partial);
    }
    var next := Write(s, path, text, fault).0.tree;
    if path in next.files {
      FileIsTarget(next, path);
    } else {
      assert path !in Components(Parent(path));
    }
  }

  lemma StaysTarget(s: State, call: Call)
    requires WellFormed(s.tree) && TargetOk(s.tree, call.path)
    ensures WellFormed(Do(s, call).0.tree) && TargetOk(Do(s, call).0.tree, call.path)
  {
    hide Do, Write, WellFormed, TargetOk;
    DoIsWrite(s, call);
    if Do(s, call) != (s, true) {
      var text, fault :| Do(s, call).0 == Write(s, call.path, text, fault).0;
      WriteStaysTarget(s, call.path, text, fault);
    }
  }

  /** Without faults, calls on one writable file go through exactly when the operations on its text succeed. */
  lemma {:induction false} RunGoesThroughIff(s: State, calls: seq<Call>, path: Path)
    requires WellFormed(s.tree) && TargetOk(s.tree, path)
    requires forall call :: call in calls ==> call.path == path && call.fault.NoFault?
    ensures DoAll(s, calls).1 <==> SharedFile.Run(TextAt(s.tree, path), OpsOn(calls, path)).Ok?
    decreases |calls|
  {
    hide Do, SharedFile.Apply, WellFormed, TargetOk;
    if calls != [] {
      var (next, ok) := Do(s, calls[0]);
      assert calls[0] in calls;
      DoneOnDisk(s, calls[0]);
      StaysTarget(s, calls[0]);
      var rest := OpsOn(calls[1..], path);
      assert OpsOn(calls, path) == [calls[0].op] + rest;
      if ok {
        RunGoesThroughIff(next, calls[1..], path);
        FirstOp(TextAt(s.tree, path), calls[0].op, rest, TextAt(next.tree, path));
      }
    }
  }

  // ----- Rolling a run back

  /** The log is exact and the state can be rolled back. */
  ghost predicate CanRollBack(start: Tree, s: State) {
    Exact(start, s) && Restorable(s.tree, s.log)
  }

  lemma {:induction false} RunCanRollBack(start: Tree, s: State, calls: seq<Call>)
    requires CanRollBack(start, s) && Settled(s, {})
    ensures CanRollBack(start, DoAll(s, calls).0)
    decreases |calls|
  {
    hide Do, Write, Exact, Restorable, Settled;
    if calls != [] {
      var call := calls[0];
      var (next, ok) := Do(s, call);
      assert WellFormed(s.tree) by { ExactIsWellFormed(start, s); }
      DoIsWrite(s, call);
      if (next, ok) != (s, true) {
        var text, fault :| next == Write(s, call.path, text, fault).0 && (ok ==> Write(s, call.path, text, fault).1);
        WriteExact(start, s, call.path, text, fault);
        WriteRestorable(start, s, call.path, text, fault, {});
      }
      if ok {
        RunCanRollBack(start, next, calls[1..]);
      }
    }
  }

  lemma ExactIsWellFormed(start: Tree, s: State)
    requires Exact(start, s)
    ensures WellFormed(s.tree)
  {
  }

  /** Wherever a run of calls on any files stops, the rollback gets through and all files are as at the start. */
  lemma EveryRunRollsBack(start: Tree, calls: seq<Call>, order: seq<Path>)
    requires WellFormed(start) && Lists(order, DoAll(State(start, map[]), calls).0.log)
    ensures var s := DoAll(State(start, map[]), calls).0;
            RestoreAll(s.tree, s.log, order).1 && RestoreAll(s.tree, s.log, order).0.files == start.files
  {
    hide DoAll, RestoreAll;
    RunCanRollBack(start, State(start, map[]), calls);
    RollbackRestores(start, DoAll(State(start, map[]), calls).0, order, order);
  }
}
