/** The undo log and its rollback. */
module Transaction {
  // The installer's undo log (delivery/scripts/install.py, lines 229-232, 982-984 and 1007-1086).
  //
  // A call may be stopped between any two of its effects, and a write may be torn. The main results: what a rollback
  // of any such run restores, and exactly when a rollback gets through.

  import opened Wrappers
  import opened FileTree
  import opened Ordering

  /** `Transaction.original_text`: the text a path had before its first mutation, `None` if it was absent. */
  type Log = map<Path, Option<string>>

  datatype State = State(tree: Tree, log: Log)

  /** `record_original_text`: only the first call for a path counts. */
  function Record(s: State, p: Path): State {
    if p in s.log then s else s.(log := s.log[p := TextAt(s.tree, p)])
  }

  /** Where a call is stopped by an error or an interrupt. */
  datatype Fault =
    | NoFault
    | BeforeRecord
    | AfterRecord
    | Torn(partial: string)  // the file was opened for writing, and holds `partial`

  function Put(s: State, p: Path, text: string): State {
    s.(tree := s.tree.(files := s.tree.files[p := text]))
  }

  /** `write_text`, and the copying of a skill leaf: the state reached and whether the call returned. */
  function Write(s: State, p: Path, text: string, fault: Fault): (State, bool) {
    var ready := s.(tree := MakeDirs(s.tree, Parent(p)));
    if !TargetOk(s.tree, p) then (ready, false)
    else if TextAt(s.tree, p) == Some(text) then (ready, true)
    else
      match fault
      case BeforeRecord => (ready, false)
      case AfterRecord => (Record(ready, p), false)
      case Torn(partial) => (Put(Record(ready, p), p, partial), false)
      case NoFault => (Put(Record(ready, p), p, text), true)
  }

  /** `remove_path` */
  function Remove(s: State, p: Path, fault: Fault): (State, bool) {
    if p in s.tree.dirs then (s, false)
    else if p !in s.tree.files then (s, true)
    else if fault.BeforeRecord? then (s, false)
    else if !fault.NoFault? then (Record(s, p), false)
    else
      var r := Record(s, p);
      (r.(tree := r.tree.(files := r.tree.files - {p})), true)
  }

  predicate IsEmptyDir(t: Tree, d: Path) {
    d in t.dirs && (forall p :: p in t.files ==> !Above(d, p)) && (forall p :: p in t.dirs ==> !Above(d, p))
  }

  /** `rmdir`, which the empty-parent cleanup calls inside the same transaction. */
  function RemoveDir(s: State, d: Path): (State, bool) {
    if d != [] && IsEmptyDir(s.tree, d) then (s.(tree := s.tree.(dirs := s.tree.dirs - {d})), true) else (s, false)
  }

  datatype Op =
    | WriteOp(path: Path, text: string, fault: Fault)
    | RemoveOp(path: Path, fault: Fault)
    | RemoveDirOp(path: Path)

  function Apply(s: State, op: Op): (State, bool) {
    match op
    case WriteOp(p, text, fault) => Write(s, p, text, fault)
    case RemoveOp(p, fault) => Remove(s, p, fault)
    case RemoveDirOp(d) => RemoveDir(s, d)
  }

  /** A run stops at the first call that does not return. */
  function Run(s: State, ops: seq<Op>): State
    decreases |ops|
  {
    if ops == [] then s
    else
      var (next, ok) := Apply(s, ops[0]);
      if ok then Run(next, ops[1..]) else next
  }

  // ----- What the calls do to the texts on disk

  ghost predicate SameElsewhere(t: Tree, u: Tree, p: Path) {
    forall q :: q != p ==> TextAt(u, q) == TextAt(t, q)
  }

  /** A write that returns has put its text there; one that does not has put nothing there, or a part of a text. */
  ghost predicate Wrote(t: Tree, u: Tree, p: Path, text: string, fault: Fault, ok: bool) {
    && SameElsewhere(t, u, p)
    && (ok <==> TargetOk(t, p) && (fault.NoFault? || TextAt(t, p) == Some(text)))
    && (ok ==> TextAt(u, p) == Some(text))
    && (!ok ==> TextAt(u, p) == TextAt(t, p) || (fault.Torn? && TextAt(u, p) == Some(fault.partial)))
    && u.dirs == (if Blocked(t, Parent(p)) then t.dirs else t.dirs + Components(Parent(p)))
  }

  lemma WriteWrites(s: State, p: Path, text: string, fault: Fault)
    ensures var (next, ok) := Write(s, p, text, fault); Wrote(s.tree, next.tree, p, text, fault, ok)
  {
  }

  /** A removal that returns leaves no file; one that does not leaves everything. */
  ghost predicate Removed(t: Tree, u: Tree, p: Path, fault: Fault, ok: bool) {
    && SameElsewhere(t, u, p) && u.dirs == t.dirs
    && (ok <==> p !in t.dirs && (fault.NoFault? || p !in t.files))
    && (ok ==> TextAt(u, p) == None)
    && (!ok ==> u == t)
  }

  /** Exactly an empty directory below the root goes, and nothing else changes. */
  lemma RemoveDirRemoves(s: State, d: Path)
    ensures var (next, ok) := RemoveDir(s, d);
            && next.tree.files == s.tree.files && next.log == s.log
            && next.tree.dirs == (if ok then s.tree.dirs - {d} else s.tree.dirs)
            && (ok <==> d in s.tree.dirs && d != [] && forall p :: Exists(s.tree, p) ==> !Above(d, p))
  {
  }

  lemma RemoveRemoves(s: State, p: Path, fault: Fault)
    ensures var (next, ok) := Remove(s, p, fault); Removed(s.tree, next.tree, p, fault, ok)
  {
  }

  /** The log is exact: it holds the starting text of every path in it, and nothing else has changed. */
  ghost predicate Exact(start: Tree, s: State) {
    && WellFormed(start)
    && WellFormed(s.tree)
    && (forall p :: p in s.log ==> s.log[p] == TextAt(start, p))
    && (forall p :: p !in s.log ==> TextAt(s.tree, p) == TextAt(start, p))
  }

  lemma WriteExact(start: Tree, s: State, p: Path, text: string, fault: Fault)
    requires Exact(start, s)
    ensures Exact(start, Write(s, p, text, fault).0)
  {
    MakeDirsWellFormed(s.tree, Parent(p));
    if TargetOk(s.tree, p) {
      PutWellFormed(s.tree, p, text);
      if fault.Torn? {
        PutWellFormed(s.tree, p, fault.partial);
      }
    }
  }

  lemma RemoveExact(start: Tree, s: State, p: Path, fault: Fault)
    requires Exact(start, s)
    ensures Exact(start, Remove(s, p, fault).0)
  {
    if p in s.tree.files {
      RemoveWellFormed(s.tree, p);
    }
  }

  lemma ApplyExact(start: Tree, s: State, op: Op)
    requires Exact(start, s)
    ensures Exact(start, Apply(s, op).0)
  {
    match op
    case WriteOp(p, text, fault) => WriteExact(start, s, p, text, fault);
    case RemoveOp(p, fault) => RemoveExact(start, s, p, fault);
    case RemoveDirOp(_) =>
  }

  /** Wherever a run of calls stops, the log is exact. */
  lemma {:induction false} RunExact(start: Tree, s: State, ops: seq<Op>)
    requires Exact(start, s)
    ensures Exact(start, Run(s, ops))
    decreases |ops|
  {
    hide Exact, Apply;
    if ops != [] {
      ApplyExact(start, s, ops[0]);
      if Apply(s, ops[0]).1 {
        RunExact(start, Apply(s, ops[0]).0, ops[1..]);
      }
    }
  }

  // ----- Rollback

  /** One turn of the rollback loop: the tree reached and whether it went through. */
  function Restore(t: Tree, p: Path, original: Option<string>): (Tree, bool) {
    match original
    case None => if p in t.dirs then (t, false) else (t.(files := t.files - {p}), true)
    case Some(text) =>
      var ready := MakeDirs(t, Parent(p));
      if TargetOk(t, p) then (ready.(files := ready.files[p := text]), true) else (ready, false)
  }

  function RestoreAll(t: Tree, log: Log, order: seq<Path>): (Tree, bool)
    requires forall p :: p in order ==> p in log
    decreases |order|
  {
    if order == [] then (t, true)
    else
      var (next, ok) := Restore(t, order[0], log[order[0]]);
      if ok then RestoreAll(next, log, order[1..]) else (next, false)
  }

  function Members(order: seq<Path>): set<Path> {
    set p | p in order
  }

  /** `order` lists the logged paths. */
  ghost predicate Lists(order: seq<Path>, log: Log) {
    forall p :: p in order <==> p in log
  }

  /** Nothing precedes what lies below it, as in `sorted(paths, reverse=True)`. */
  ghost predicate BelowFirst(order: seq<Path>) {
    forall i, j :: 0 <= i < j < |order| ==> !Above(order[i], order[j])
  }

  /** No logged path has become a directory, and none lies above a logged path that held a file. */
  ghost predicate Restorable(t: Tree, log: Log) {
    && (forall p :: p in log ==> p !in t.dirs)
    && (forall a, p :: a in log && p in log && Above(a, p) ==> log[p].None?)
  }

  /** The tree in which the paths in `done` are back to their starting text. */
  ghost predicate Restored(start: Tree, t: Tree, log: Log, done: set<Path>, u: Tree)
    requires done <= log.Keys
  {
    && WellFormed(u)
    && (forall p :: TextAt(u, p) == if p in done then TextAt(start, p) else TextAt(t, p))
    && (forall d :: d in u.dirs <==> d in t.dirs || exists p :: p in done && log[p].Some? && Above(d, p))
  }

  lemma RestoreOne(start: Tree, t: Tree, log: Log, done: set<Path>, u: Tree, p: Path)
    requires Exact(start, State(t, log)) && Restorable(t, log)
    requires done <= log.Keys && p in log && Restored(start, t, log, done, u)
    ensures Restore(u, p, log[p]).1 && Restored(start, t, log, done + {p}, Restore(u, p, log[p]).0)
  {
    assert p !in u.dirs && p != [];
    if log[p].Some? {
      forall a | a in Components(Parent(p)) ensures a !in u.files {
        assert Above(a, p);
        assert a in start.dirs && TextAt(start, a) == None;
      }
      PutWellFormed(u, p, log[p].value);
      var v := Restore(u, p, log[p]).0;
      assert forall d :: d in v.dirs <==> d in u.dirs || Above(d, p);
    } else if p in u.files {
      RemoveWellFormed(u, p);
    }
  }

  lemma {:induction false} RestoreRest(start: Tree, t: Tree, log: Log, done: set<Path>, u: Tree, order: seq<Path>)
    requires Exact(start, State(t, log)) && Restorable(t, log)
    requires done <= log.Keys && Restored(start, t, log, done, u)
    requires forall p :: p in order ==> p in log
    ensures RestoreAll(u, log, order).1
    ensures Restored(start, t, log, done + Members(order), RestoreAll(u, log, order).0)
    decreases |order|
  {
    hide Exact, Restorable, Restored, Restore;
    if order == [] {
      assert done + Members(order) == done;
    } else {
      var p := order[0];
      RestoreOne(start, t, log, done, u, p);
      RestoreRest(start, t, log, done + {p}, Restore(u, p, log[p]).0, order[1..]);
      assert done + {p} + Members(order[1..]) == done + Members(order);
    }
  }

  lemma RestoredUnique(start: Tree, t: Tree, log: Log, u: Tree, v: Tree)
    requires Restored(start, t, log, log.Keys, u) && Restored(start, t, log, log.Keys, v)
    ensures u == v
  {
    assert forall p :: TextAt(u, p) == TextAt(v, p);
    assert forall p :: p in u.files <==> TextAt(u, p).Some?;
    assert forall p :: p in v.files <==> TextAt(v, p).Some?;
    assert u.files == v.files;
    assert u.dirs == v.dirs;
  }

  /**
   * Rolling back a restorable state goes through in every order, restores the text of every file that existed
   * and deletes every file that did not; the result does not depend on the order, and a second rollback changes
   * nothing.
   */
  lemma RollbackRestores(start: Tree, s: State, order: seq<Path>, again: seq<Path>)
    requires Exact(start, s) && Restorable(s.tree, s.log) && Lists(order, s.log) && Lists(again, s.log)
    ensures RestoreAll(s.tree, s.log, order).1
    ensures RestoreAll(s.tree, s.log, order).0.files == start.files
    ensures RestoreAll(s.tree, s.log, order) == RestoreAll(s.tree, s.log, again)
    ensures RestoreAll(RestoreAll(s.tree, s.log, order).0, s.log, again) == RestoreAll(s.tree, s.log, order)
  {
    var t, log := s.tree, s.log;
    var u := RestoreAll(t, log, order).0;
    assert Restored(start, t, log, {}, t);
    RestoreRest(start, t, log, {}, t, order);
    RestoreRest(start, t, log, {}, t, again);
    assert {} + Members(order) == log.Keys && {} + Members(again) == log.Keys;
    RestoredUnique(start, t, log, u, RestoreAll(t, log, again).0);
    RestoreRest(start, t, log, log.Keys, u, again);
    assert log.Keys + Members(again) == log.Keys;
    RestoredUnique(start, t, log, u, RestoreAll(u, log, again).0);
    RestoredFiles(start, s, u);
  }

  lemma RestoredFiles(start: Tree, s: State, u: Tree)
    requires Exact(start, s) && Restored(start, s.tree, s.log, s.log.Keys, u)
    ensures u.files == start.files
  {
    assert forall p :: TextAt(u, p) == TextAt(start, p);
    assert forall p :: p in u.files <==> TextAt(u, p).Some?;
    assert forall p :: p in start.files <==> TextAt(start, p).Some?;
  }

  lemma {:induction false} DirectoryStops(t: Tree, log: Log, order: seq<Path>, p: Path)
    requires forall q :: q in order ==> q in log
    requires p in order && p in t.dirs
    ensures !RestoreAll(t, log, order).1
    decreases |order|
  {
    if order[0] != p {
      DirectoryStops(Restore(t, order[0], log[order[0]]).0, log, order[1..], p);
    }
  }

  lemma {:induction false} AncestorStops(t: Tree, log: Log, order: seq<Path>, a: Path, p: Path)
    requires forall q :: q in order ==> q in log
    requires a in order && p in order && Above(a, p) && log[p].Some? && BelowFirst(order)
    ensures !RestoreAll(t, log, order).1
    decreases |order|
  {
    var i :| 0 <= i < |order| && order[i] == a;
    var j :| 0 <= j < |order| && order[j] == p;
    assert j < i;
    var next := Restore(t, order[0], log[order[0]]).0;
    if j == 0 {
      assert order[1..][i - 1] == a;
      if TargetOk(t, p) {
        assert a in Components(Parent(p));
        DirectoryStops(next, log, order[1..], a);
      }
    } else {
      assert order[1..][i - 1] == a && order[1..][j - 1] == p;
      AncestorStops(next, log, order[1..], a, p);
    }
  }

  /** The sorted order the installer uses gets through exactly when the state is restorable. */
  lemma RollbackGetsThroughIff(start: Tree, s: State, order: seq<Path>)
    requires Exact(start, s) && Lists(order, s.log) && BelowFirst(order)
    ensures RestoreAll(s.tree, s.log, order).1 <==> Restorable(s.tree, s.log)
  {
    if Restorable(s.tree, s.log) {
      RollbackRestores(start, s, order, order);
    } else if exists p :: p in s.log && p in s.tree.dirs {
      var p :| p in s.log && p in s.tree.dirs;
      DirectoryStops(s.tree, s.log, order, p);
    } else {
      var a, p :| a in s.log && p in s.log && Above(a, p) && s.log[p].Some?;
      AncestorStops(s.tree, s.log, order, a, p);
    }
  }

  /** `sorted(original_text, reverse=True)` lists every path after everything below it. */
  lemma ReverseSortedBelowFirst(order: seq<Path>)
    requires forall i, j :: 0 <= i < j < |order| ==> Le(order[j], order[i]) && order[i] != order[j]
    ensures BelowFirst(order)
  {
    forall i, j | 0 <= i < j < |order| ensures !Above(order[i], order[j]) {
      if Above(order[i], order[j]) {
        PrefixLe(order[i], order[j]);
        Total(order[i], order[j]);
      }
    }
  }

  /** Every run from an empty log, stopped anywhere: rollback is exact if it gets through, and it does if restorable. */
  lemma AnyRunRollsBack(start: Tree, ops: seq<Op>, order: seq<Path>)
    requires WellFormed(start) && Lists(order, Run(State(start, map[]), ops).log) && BelowFirst(order)
    ensures var s := Run(State(start, map[]), ops);
            var (u, ok) := RestoreAll(s.tree, s.log, order);
            (ok <==> Restorable(s.tree, s.log)) && (ok ==> u.files == start.files)
  {
    var s := Run(State(start, map[]), ops);
    RunExact(start, State(start, map[]), ops);
    RollbackGetsThroughIff(start, s, order);
    if Restorable(s.tree, s.log) {
      RollbackRestores(start, s, order, order);
    }
  }

  // ----- Runs that are always restorable

  predicate Apart(w: Path, removed: set<Path>) {
    forall r :: r in removed ==> !Above(w, r) && !Above(r, w)
  }

  /** No write goes above or below a path that was removed before it; `removed` are those removed so far. */
  predicate Fits(ops: seq<Op>, removed: set<Path>)
    decreases |ops|
  {
    ops == []
    || match ops[0]
       case WriteOp(w, _, _) => Apart(w, removed) && Fits(ops[1..], removed)
       case RemoveOp(r, _) => Fits(ops[1..], removed + {r})
       case RemoveDirOp(_) => Fits(ops[1..], removed)
  }

  /** While the run goes on, every logged path is a file or has been removed. */
  ghost predicate Settled(s: State, removed: set<Path>) {
    forall p :: p in s.log ==> p in s.tree.files || p in removed
  }

  lemma WriteRestorable(start: Tree, s: State, w: Path, text: string, fault: Fault, removed: set<Path>)
    requires Exact(start, s) && Restorable(s.tree, s.log) && Settled(s, removed)
    requires Apart(w, removed)
    ensures var (next, ok) := Write(s, w, text, fault);
            Restorable(next.tree, next.log) && (ok ==> Settled(next, removed))
  {
    if !Blocked(s.tree, Parent(w)) {
      forall q | q in s.log ensures !Above(q, w) {
        assert q in s.tree.files ==> q !in Components(Parent(w));
      }
      assert forall q :: q in s.log ==> q !in Components(Parent(w));
    }
  }

  lemma RemoveRestorable(start: Tree, s: State, r: Path, fault: Fault, removed: set<Path>)
    requires Exact(start, s) && Restorable(s.tree, s.log) && Settled(s, removed)
    ensures var (next, ok) := Remove(s, r, fault);
            Restorable(next.tree, next.log) && (ok ==> Settled(next, removed + {r}))
  {
  }

  lemma {:induction false} FittingRun(start: Tree, s: State, ops: seq<Op>, removed: set<Path>)
    requires Exact(start, s) && Restorable(s.tree, s.log) && Settled(s, removed) && Fits(ops, removed)
    ensures Restorable(Run(s, ops).tree, Run(s, ops).log)
    decreases |ops|
  {
    hide Exact, Restorable, Settled, Write, Remove, Apart;
    if ops != [] {
      var (next, ok) := Apply(s, ops[0]);
      ApplyExact(start, s, ops[0]);
      var later := removed;
      match ops[0] {
        case WriteOp(w, text, fault) => WriteRestorable(start, s, w, text, fault, removed);
        case RemoveOp(r, fault) =>
          later := removed + {r};
          RemoveRestorable(start, s, r, fault, removed);
        case RemoveDirOp(d) => RemoveDirRestorable(s, d, removed);
      }
      if ok {
        FittingRun(start, next, ops[1..], later);
      }
    }
  }

  lemma RemoveDirRestorable(s: State, d: Path, removed: set<Path>)
    requires Restorable(s.tree, s.log) && Settled(s, removed)
    ensures Restorable(RemoveDir(s, d).0.tree, s.log) && Settled(RemoveDir(s, d).0, removed)
    ensures RemoveDir(s, d).0.log == s.log
  {
  }

  /** If no path is written above or below one removed before, the rollback is exact wherever the run stops. */
  lemma FittingRunRollsBack(start: Tree, ops: seq<Op>, order: seq<Path>)
    requires WellFormed(start) && Fits(ops, {}) && Lists(order, Run(State(start, map[]), ops).log)
    ensures var s := Run(State(start, map[]), ops);
            RestoreAll(s.tree, s.log, order).1 && RestoreAll(s.tree, s.log, order).0.files == start.files
  {
    var s0 := State(start, map[]);
    RunExact(start, s0, ops);
    FittingRun(start, s0, ops, {});
    RollbackRestores(start, Run(s0, ops), order, order);
  }

  /** All writes come before all removals and directory clean-ups, as in an installation with its pruning. */
  predicate WritesFirst(ops: seq<Op>) {
    forall i, j :: 0 <= i < j < |ops| && ops[j].WriteOp? ==> ops[i].WriteOp?
  }

  lemma {:induction false} WritesFirstFits(ops: seq<Op>, removed: set<Path>)
    requires WritesFirst(ops) && (removed == {} || forall op :: op in ops ==> !op.WriteOp?)
    ensures Fits(ops, removed)
    decreases |ops|
  {
    if ops != [] {
      var rest := ops[1..];
      forall op | op in rest && !ops[0].WriteOp? ensures !op.WriteOp? {
        var j :| 0 <= j < |rest| && rest[j] == op;
        assert ops[j + 1] == op;
      }
      WritesFirstFits(rest, if ops[0].RemoveOp? then removed + {ops[0].path} else removed);
    }
  }

  /** So the rollback of every such run is exact, whatever its paths. */
  lemma WritesFirstRollsBack(start: Tree, ops: seq<Op>, order: seq<Path>)
    requires WellFormed(start) && WritesFirst(ops) && Lists(order, Run(State(start, map[]), ops).log)
    ensures var s := Run(State(start, map[]), ops);
            RestoreAll(s.tree, s.log, order).1 && RestoreAll(s.tree, s.log, order).0.files == start.files
  {
    hide Fits, WritesFirst, Run, RestoreAll, Lists;
    WritesFirstFits(ops, {});
    FittingRunRollsBack(start, ops, order);
  }

  /** The condition is not idle: a file replaced by a directory leaves the rollback stuck, its text lost. */
  lemma ReplacedByDirectory()
    ensures var start := Tree(map[["a"] := "text"], {[]});
            var ops := [RemoveOp(["a"], NoFault), WriteOp(["a", "b"], "new", NoFault)];
            var s := Run(State(start, map[]), ops);
            && WellFormed(start) && s.log.Keys == {["a"], ["a", "b"]}
            && !RestoreAll(s.tree, s.log, [["a", "b"], ["a"]]).1
            && ["a"] !in RestoreAll(s.tree, s.log, [["a", "b"], ["a"]]).0.files
  {
    var start := Tree(map[["a"] := "text"], {[]});
    var ops := [RemoveOp(["a"], NoFault), WriteOp(["a", "b"], "new", NoFault)];
    var s1 := State(Tree(map[], {[]}), map[["a"] := Some("text")]);
    assert Apply(State(start, map[]), ops[0]) == (s1, true);
    var log := s1.log[["a", "b"] := None];
    var s2 := State(Tree(map[["a", "b"] := "new"], {[], ["a"]}), log);
    assert Parent(["a", "b"]) == ["a"] && Parent(["a"]) == [];
    assert Components([]) == {[]} && Components(["a"]) == {[], ["a"]};
    assert !Blocked(s1.tree, ["a"]) && TargetOk(s1.tree, ["a", "b"]);
    assert MakeDirs(s1.tree, ["a"]) == Tree(map[], {[], ["a"]});
    assert ["a", "b"] != ["a"];
    assert Write(s1, ["a", "b"], "new", NoFault) == (s2, true);
    assert ops[1..] == [ops[1]] && [ops[1]][1..] == [];
    assert Run(s1, [ops[1]]) == s2;
    assert Run(State(start, map[]), ops) == s2;
    var order := [["a", "b"], ["a"]];
    var u := Tree(map[], {[], ["a"]});
    assert Restore(s2.tree, ["a", "b"], None) == (u, true);
    assert order[1..] == [["a"]];
    assert RestoreAll(u, log, [["a"]]) == (u, false);
  }
}
