/** Confirming the facts of a retrospective. */
module Confirmation {
  // Confirming the facts of a retrospective: three files change in an order that is to survive a failure anywhere
  // (meta_flow/retrospective.py, lines 485-538).

  import opened Wrappers
  import opened FileTree
  import opened Records

  function Updated(r: Retro, ref: Path): Retro {
    r.(status := FactsConfirmed, confirmationRef := Some(ref))
  }

  /** The temporaries are written first, outside any handler. */
  function Writing(id: string, ref: Path, u: Retro): seq<Action> {
    [ Put(Temporary(DataPath(id)), Torn), Put(Temporary(DataPath(id)), RetroDoc(u)),
      Put(Temporary(ReportPath(id)), Torn), Put(Temporary(ReportPath(id)), ReportDoc(u)),
      Put(Temporary(ref), Torn), Put(Temporary(ref), FactsDoc(id)) ]
  }

  /** Then they are put in place: the report, the decision record, and last the data. */
  function Placing(id: string, ref: Path): seq<Action> {
    [ Move(Temporary(ReportPath(id)), ReportPath(id)),
      Move(Temporary(ref), ref),
      Move(Temporary(DataPath(id)), DataPath(id)) ]
  }

  /** Whatever happened while placing, the handler unlinks what is left of the temporaries. */
  function Cleaning(id: string, ref: Path): seq<Action> {
    [ Drop(Temporary(DataPath(id))), Drop(Temporary(ReportPath(id))), Drop(Temporary(ref)) ]
  }

  function Temporaries(id: string, ref: Path): set<Path> {
    {Temporary(DataPath(id)), Temporary(ReportPath(id)), Temporary(ref)}
  }

  /** How far a call got: an error or a kill while writing, or while placing with part of the clean-up done. */
  datatype Stop = InWriting(written: nat) | InPlacing(placed: nat, cleaned: nat)

  const DONE := InPlacing(3, 3)

  predicate StopOk(stop: Stop) {
    match stop
    case InWriting(n) => n <= 6
    case InPlacing(n, m) => n <= 3 && m <= 3
  }

  /** The checks before the first write. */
  predicate CanConfirm(repo: Repo, id: string, ref: Path) {
    && ValidId(id) && SafeRef(ref) && Free(repo, ref)
    && DataPath(id) in repo && repo[DataPath(id)].RetroDoc? && repo[DataPath(id)].retro.status.Draft?
    && Temporary(DataPath(id)) !in repo && Temporary(ReportPath(id)) !in repo && Temporary(ref) !in repo
  }

  /** The repository after a call that stopped at `stop`. */
  function Confirmed(repo: Repo, id: string, ref: Path, stop: Stop): Repo
    requires CanConfirm(repo, id, ref) && StopOk(stop)
  {
    var u := Updated(repo[DataPath(id)].retro, ref);
    match stop
    case InWriting(n) => Reach(repo, Writing(id, ref, u), n).0
    case InPlacing(n, m) =>
      var written := Reach(repo, Writing(id, ref, u), 6).0;
      var placed := Reach(written, Placing(id, ref), n).0;
      Reach(placed, Cleaning(id, ref), m).0
  }

  /** Machine truth is the old or the new data, and claims the confirmation only with both witnesses in place. */
  ghost predicate Intact(repo: Repo, id: string, ref: Path, now: Repo)
    requires CanConfirm(repo, id, ref)
  {
    var r := repo[DataPath(id)].retro;
    var u := Updated(r, ref);
    && DataPath(id) in now
    && (now[DataPath(id)] == RetroDoc(r) || now[DataPath(id)] == RetroDoc(u))
    && (now[DataPath(id)] == RetroDoc(u) ==>
        && ref in now && now[ref] == FactsDoc(id)
        && ReportPath(id) in now && now[ReportPath(id)] == ReportDoc(u))
  }

  /** The confirmation path is not one of the temporaries of the data and the report. */
  predicate RefApart(id: string, ref: Path) {
    ref != Temporary(DataPath(id)) && ref != Temporary(ReportPath(id))
  }

  /** All temporaries written. */
  function Written(repo: Repo, id: string, ref: Path): Repo
    requires CanConfirm(repo, id, ref)
  {
    var u := Updated(repo[DataPath(id)].retro, ref);
    repo[Temporary(DataPath(id)) := RetroDoc(u)]
        [Temporary(ReportPath(id)) := ReportDoc(u)]
        [Temporary(ref) := FactsDoc(id)]
  }

  lemma WritingReaches(repo: Repo, id: string, ref: Path)
    requires CanConfirm(repo, id, ref)
    ensures var u := Updated(repo[DataPath(id)].retro, ref);
            Reach(repo, Writing(id, ref, u), 6) == (Written(repo, id, ref), true)
  {
    var u := Updated(repo[DataPath(id)].retro, ref);
    PutsReach(repo, Temporary(DataPath(id)), RetroDoc(u), Temporary(ReportPath(id)), ReportDoc(u),
              Temporary(ref), FactsDoc(id));
  }

  lemma PutsReach(w: Repo, p: Path, x: Record, q: Path, y: Record, r: Path, z: Record)
    ensures Reach(w, [Put(p, Torn), Put(p, x), Put(q, Torn), Put(q, y), Put(r, Torn), Put(r, z)], 6)
         == (w[p := x][q := y][r := z], true)
  {
    var a := [Put(p, Torn), Put(p, x), Put(q, Torn), Put(q, y), Put(r, Torn), Put(r, z)];
    assert w[p := Torn][p := x] == w[p := x];
    assert Reach(w, a, 1) == (w[p := Torn], true);
    assert Reach(w, a, 2) == (w[p := x], true);
    assert w[p := x][q := Torn][q := y] == w[p := x][q := y];
    assert Reach(w, a, 3) == (w[p := x][q := Torn], true);
    assert Reach(w, a, 4) == (w[p := x][q := y], true);
    assert w[p := x][q := y][r := Torn][r := z] == w[p := x][q := y][r := z];
    assert Reach(w, a, 5) == (w[p := x][q := y][r := Torn], true);
  }

  /** Where the paths of a call differ. */
  lemma PathsApart(repo: Repo, id: string, ref: Path)
    requires CanConfirm(repo, id, ref)
    ensures DataPath(id) != ReportPath(id) && ref != DataPath(id)
    ensures Temporary(DataPath(id)) != Temporary(ReportPath(id)) && Temporary(ref) != Temporary(DataPath(id))
    ensures ref != ReportPath(id) ==> Temporary(ref) != Temporary(ReportPath(id))
    ensures DataPath(id) !in Temporaries(id, ref) && ReportPath(id) !in Temporaries(id, ref)
    ensures Temporary(ref) != ref
  {
    var d, r := DataPath(id), ReportPath(id);
    NamesApart(id, id, d);
    NamesApart(id, id, r);
    NamesApart(id, id, ref);
    if Temporary(d) == Temporary(r) {
      TemporaryInjective(d, r);
    }
    if Temporary(ref) == Temporary(d) {
      TemporaryInjective(ref, d);
    }
    if Temporary(ref) == Temporary(r) {
      TemporaryInjective(ref, r);
    }
  }

  /** The three replaces, when all paths differ. */
  lemma PlacingReaches(w: Repo, tr: Path, r: Path, tf: Path, f: Path, td: Path, d: Path)
    requires tr in w && tf in w && td in w
    requires tr != tf && tr != td && tf != td && td != f && tf != r && td != r
    ensures var p := [Move(tr, r), Move(tf, f), Move(td, d)];
            && Reach(w, p, 0) == (w, true)
            && Reach(w, p, 1) == ((w - {tr})[r := w[tr]], true)
            && Reach(w, p, 2) == (((w - {tr})[r := w[tr]] - {tf})[f := w[tf]], true)
            && Reach(w, p, 3) == ((((w - {tr})[r := w[tr]] - {tf})[f := w[tf]] - {td})[d := w[td]], true)
  {
    var p := [Move(tr, r), Move(tf, f), Move(td, d)];
    assert Reach(w, p, 1) == ((w - {tr})[r := w[tr]], true);
    assert Reach(w, p, 2) == (((w - {tr})[r := w[tr]] - {tf})[f := w[tf]], true);
  }

  /** The clean-up removes the temporaries and nothing else. */
  lemma {:induction false} CleaningReaches(w: Repo, id: string, ref: Path, m: nat)
    requires m <= 3
    ensures forall p :: p !in Temporaries(id, ref) ==> SameAt(w, Reach(w, Cleaning(id, ref), m).0, p)
    ensures m == 3 ==> forall p :: p in Temporaries(id, ref) ==> p !in Reach(w, Cleaning(id, ref), m).0
  {
    var c := Cleaning(id, ref);
    assert Reach(w, c, 1) == (w - {Temporary(DataPath(id))}, true);
    assert Reach(w, c, 2) == (w - {Temporary(DataPath(id))} - {Temporary(ReportPath(id))}, true);
    assert Reach(w, c, 3)
        == (w - {Temporary(DataPath(id))} - {Temporary(ReportPath(id))} - {Temporary(ref)}, true);
  }

  /** While the temporaries are written, nothing but them changes. */
  lemma WritingKeeps(repo: Repo, id: string, ref: Path, n: nat, p: Path)
    requires CanConfirm(repo, id, ref) && n <= 6 && p !in Temporaries(id, ref)
    ensures SameAt(repo, Reach(repo, Writing(id, ref, Updated(repo[DataPath(id)].retro, ref)), n).0, p)
  {
    ReachKeeps(repo, Writing(id, ref, Updated(repo[DataPath(id)].retro, ref)), n, p);
  }

  /** When the confirmation goes to the place of a missing report, the second replace has nothing to move. */
  lemma PlacingOnReport(w: Repo, tr: Path, r: Path, td: Path, d: Path, n: nat)
    requires tr in w && td in w && tr != r && n <= 3 && d != r && d != tr
    ensures SameAt(w, Reach(w, [Move(tr, r), Move(tr, r), Move(td, d)], n).0, d)
  {
    var p := [Move(tr, r), Move(tr, r), Move(td, d)];
    var w1 := (w - {tr})[r := w[tr]];
    assert Reach(w, p, 1) == (w1, true);
    assert Reach(w, p, 2) == (w1, false);
    assert Reach(w, p, 3) == (w1, false);
  }

  lemma FreeIsNamed(repo: Repo, p: Path)
    requires Free(repo, p)
    ensures p != [] && p !in repo
  {
  }

  /** What holds of the placed files once the first `n` replaces went through. */
  lemma Placed(repo: Repo, id: string, ref: Path, n: nat)
    requires CanConfirm(repo, id, ref) && RefApart(id, ref) && n <= 3
    ensures var now := Reach(Written(repo, id, ref), Placing(id, ref), n).0;
            && Intact(repo, id, ref, now)
            && (n < 3 ==> now[DataPath(id)] == repo[DataPath(id)])
            && (n == 3 && ref != ReportPath(id) ==>
                now[DataPath(id)] == RetroDoc(Updated(repo[DataPath(id)].retro, ref)))
  {
    hide Temporary, Reach, Free, ValidId, SafeRef;
    PathsApart(repo, id, ref);
    var w := Written(repo, id, ref);
    var td, tr, tf := Temporary(DataPath(id)), Temporary(ReportPath(id)), Temporary(ref);
    if ref == ReportPath(id) {
      PlacingOnReport(w, tr, ref, td, DataPath(id), n);
    } else {
      PlacingReaches(w, tr, ReportPath(id), tf, ref, td, DataPath(id));
    }
  }

  /**
   * At every point where a confirmation can stop, by an error or a kill: if the data says the facts are confirmed,
   * the decision record and the report are in place; before the last replace the data is the draft it was; and
   * once the handler has run no temporary is left.
   */
  lemma ConfirmationKeepsOrder(repo: Repo, id: string, ref: Path, stop: Stop)
    requires CanConfirm(repo, id, ref) && RefApart(id, ref) && StopOk(stop)
    ensures var now := Confirmed(repo, id, ref, stop);
            && Intact(repo, id, ref, now)
            && (stop.InWriting? || stop.placed < 3 ==> now[DataPath(id)] == repo[DataPath(id)])
            && (stop.InPlacing? && stop.cleaned == 3 ==> forall t :: t in Temporaries(id, ref) ==> t !in now)
  {
    hide Reach, Temporaries, Free, ValidId, SafeRef;
    PathsApart(repo, id, ref);
    match stop
    case InWriting(n) =>
      WritingKeeps(repo, id, ref, n, DataPath(id));
    case InPlacing(n, m) =>
      WritingReaches(repo, id, ref);
      Placed(repo, id, ref, n);
      CleaningReaches(Reach(Written(repo, id, ref), Placing(id, ref), n).0, id, ref, m);
      RefNotTemporary(repo, id, ref);
  }

  lemma RefNotTemporary(repo: Repo, id: string, ref: Path)
    requires CanConfirm(repo, id, ref) && RefApart(id, ref)
    ensures ref !in Temporaries(id, ref)
  {
    PathsApart(repo, id, ref);
  }

  /** The confirmed data, its report and the decision record are in place. */
  predicate Complete(now: Repo, id: string, ref: Path, u: Retro) {
    && DataPath(id) in now && now[DataPath(id)] == RetroDoc(u)
    && ReportPath(id) in now && now[ReportPath(id)] == ReportDoc(u)
    && ref in now && now[ref] == FactsDoc(id)
  }

  /** The retrospective with its facts confirmed by the record at `ref`, and otherwise as it was. */
  predicate ConfirmedFrom(r: Retro, ref: Path, u: Retro) {
    && u.status.FactsConfirmed? && u.confirmationRef == Some(ref)
    && u.id == r.id && u.project == r.project && u.candidates == r.candidates && u.body == r.body
  }

  /** A decision record on the path of the temporary data is moved over the machine truth. */
  lemma DataAliasDestroysData(repo: Repo, id: string, ref: Path)
    requires CanConfirm(repo, id, ref) && ref == Temporary(DataPath(id))
    ensures var now := Confirmed(repo, id, ref, DONE);
            DataPath(id) in now && now[DataPath(id)] == FactsDoc(id)
  {
    hide Temporary, Free, ValidId, SafeRef;
    PathsApart(repo, id, ref);
    WritingReaches(repo, id, ref);
    var w := Written(repo, id, ref);
    AliasPlacing(w, Temporary(ReportPath(id)), ReportPath(id), Temporary(ref), ref, DataPath(id));
    CleaningReaches(Reach(w, Placing(id, ref), 3).0, id, ref, 3);
  }

  lemma AliasPlacing(w: Repo, tr: Path, r: Path, tf: Path, td: Path, d: Path)
    requires tr in w && tf in w && td in w && tr != tf && tr != td && tf != td && tf != r && td != r
    ensures var now := Reach(w, [Move(tr, r), Move(tf, td), Move(td, d)], 3).0; d in now && now[d] == w[tf]
  {
    var p := [Move(tr, r), Move(tf, td), Move(td, d)];
    var w1 := (w - {tr})[r := w[tr]];
    var w2 := (w1 - {tf})[td := w[tf]];
    assert Reach(w, p, 1) == (w1, true);
    assert Reach(w, p, 2) == (w2, true);
  }

  /** A decision record on the path of the temporary report is unlinked by the handler. */
  lemma ReportAliasLosesDecision(repo: Repo, id: string, ref: Path)
    requires CanConfirm(repo, id, ref) && ref == Temporary(ReportPath(id))
    ensures var now := Confirmed(repo, id, ref, DONE);
            && DataPath(id) in now && now[DataPath(id)] == RetroDoc(Updated(repo[DataPath(id)].retro, ref))
            && ref !in now
  {
    hide Temporary, Reach, Free, ValidId, SafeRef;
    PathsApart(repo, id, ref);
    WritingReaches(repo, id, ref);
    var w := Written(repo, id, ref);
    PlacingReaches(w, ref, ReportPath(id), Temporary(ref), ref, Temporary(DataPath(id)), DataPath(id));
    CleaningReaches(Reach(w, Placing(id, ref), 3).0, id, ref, 3);
  }

  /** The ordering guarantee holds at every stop exactly when the confirmation path is neither temporary. */
  lemma OrderHoldsIffRefApart(repo: Repo, id: string, ref: Path)
    requires CanConfirm(repo, id, ref)
    ensures (forall stop :: StopOk(stop) ==> Intact(repo, id, ref, Confirmed(repo, id, ref, stop)))
       <==> RefApart(id, ref)
  {
    hide CanConfirm, Temporary, Confirmed;
    if RefApart(id, ref) {
      forall stop | StopOk(stop) ensures Intact(repo, id, ref, Confirmed(repo, id, ref, stop)) {
        ConfirmationKeepsOrder(repo, id, ref, stop);
      }
    } else {
      assert StopOk(DONE);
      if ref == Temporary(DataPath(id)) {
        DataAliasDestroysData(repo, id, ref);
      } else {
        ReportAliasLosesDecision(repo, id, ref);
      }
    }
  }

  // ----- Trying again

  /** Neither the draft nor its two temporaries stand in the way of another call. */
  predicate Retryable(now: Repo, id: string) {
    && DataPath(id) in now && now[DataPath(id)].RetroDoc? && now[DataPath(id)].retro.status.Draft?
    && Temporary(DataPath(id)) !in now && Temporary(ReportPath(id)) !in now
  }

  /** The stops after which the draft can be confirmed again. */
  predicate StopAllowsRetry(id: string, ref: Path, stop: Stop) {
    match stop
    case InWriting(n) => n == 0
    case InPlacing(n, m) =>
      && (n < 3 || ref == ReportPath(id))  // the data is still the draft
      && m >= 1                            // its temporary is gone
      && (m >= 2 || n == 1 || (n >= 2 && ref != Temporary(ReportPath(id))))  // and the report's
  }

  lemma {:induction false} FirstPutStays(repo: Repo, a: seq<Action>, n: nat)
    requires 1 <= n <= |a| && forall i :: 0 <= i < |a| ==> a[i].Put?
    ensures a[0].path in Reach(repo, a, n).0 && Reach(repo, a, n).1
  {
    if n > 1 {
      FirstPutStays(repo, a, n - 1);
    } else {
      assert Reach(repo, a, 0) == (repo, true);
    }
  }

  /** Which of the two temporaries the replaces leave, and what they make of the data. */
  lemma PlacingLeaves(w: Repo, tr: Path, r: Path, tf: Path, f: Path, td: Path, d: Path, n: nat)
    requires tr in w && tf in w && td in w && d in w && n <= 3
    requires td != tr && td != tf && d !in {td, tr, tf} && r !in {td, tr, tf} && f !in {tf, d} && d != r
    requires if f == r then tf == tr else tf != tr
    ensures var now := Reach(w, [Move(tr, r), Move(tf, f), Move(td, d)], n).0;
            && (td in now <==> n < 3 || f == r)
            && (tr in now <==> n == 0 || (n >= 2 && f == tr))
            && d in now
            && now[d] == (if n < 3 || f == r then w[d] else if f == td then w[tf] else w[td])
  {
    var p := [Move(tr, r), Move(tf, f), Move(td, d)];
    var w1 := (w - {tr})[r := w[tr]];
    assert Reach(w, p, 0) == (w, true);
    assert Reach(w, p, 1) == (w1, true);
    if f == r {
      assert Reach(w, p, 2) == (w1, false);
      assert Reach(w, p, 3) == (w1, false);
    } else {
      var w2 := (w1 - {tf})[f := w1[tf]];
      assert Reach(w, p, 2) == (w2, true);
      assert Reach(w, p, 3) == ((w2 - {td})[d := w2[td]], true);
    }
  }

  lemma CleaningDrops(w: Repo, id: string, ref: Path, m: nat)
    requires m <= 3
    requires Temporary(DataPath(id)) != Temporary(ReportPath(id)) && Temporary(ref) != Temporary(DataPath(id))
    requires DataPath(id) !in Temporaries(id, ref)
    ensures var now := Reach(w, Cleaning(id, ref), m).0;
            && (Temporary(DataPath(id)) in now <==> Temporary(DataPath(id)) in w && m == 0)
            && (Temporary(ReportPath(id)) in now <==> Temporary(ReportPath(id)) in w && m < 2)
            && SameAt(w, now, DataPath(id))
  {
    hide Temporary;
    var td, tr, tf := Temporary(DataPath(id)), Temporary(ReportPath(id)), Temporary(ref);
    var c := Cleaning(id, ref);
    assert Reach(w, c, 0) == (w, true);
    assert Reach(w, c, 1) == (w - {td}, true);
    assert Reach(w, c, 2) == (w - {td} - {tr}, true);
    assert Reach(w, c, 3) == (w - {td} - {tr} - {tf}, true);
  }

  /** Wherever a call stopped: the draft can be confirmed again exactly after these stops. */
  lemma RetryableIff(repo: Repo, id: string, ref: Path, stop: Stop)
    requires CanConfirm(repo, id, ref) && StopOk(stop)
    ensures Retryable(Confirmed(repo, id, ref, stop), id) <==> StopAllowsRetry(id, ref, stop)
  {
    hide Temporary, Reach, Free, ValidId, SafeRef;
    PathsApart(repo, id, ref);
    var u := Updated(repo[DataPath(id)].retro, ref);
    match stop {
      case InWriting(n) =>
        if n > 0 {
          FirstPutStays(repo, Writing(id, ref, u), n);
        } else {
          NothingReached(repo, Writing(id, ref, u));
        }
      case InPlacing(n, m) =>
        WritingReaches(repo, id, ref);
        var w := Written(repo, id, ref);
        PlacingLeaves(w, Temporary(ReportPath(id)), ReportPath(id), Temporary(ref), ref,
                      Temporary(DataPath(id)), DataPath(id), n);
        CleaningDrops(Reach(w, Placing(id, ref), n).0, id, ref, m);
    }
  }

  lemma NothingReached(repo: Repo, actions: seq<Action>)
    ensures Reach(repo, actions, 0) == (repo, true)
  {
  }

  /** So a later call with a safe, free path gets past the checks exactly after these stops. */
  lemma LaterConfirmationIff(repo: Repo, id: string, ref: Path, stop: Stop, later: Path)
    requires CanConfirm(repo, id, ref) && StopOk(stop)
    requires SafeRef(later) && Free(Confirmed(repo, id, ref, stop), later)
    requires Temporary(later) !in Confirmed(repo, id, ref, stop)
    ensures CanConfirm(Confirmed(repo, id, ref, stop), id, later) <==> StopAllowsRetry(id, ref, stop)
  {
    hide Confirmed, Temporary, Free, ValidId, SafeRef, StopAllowsRetry;
    RetryableIff(repo, id, ref, stop);
  }

  /**
   * A call that is not stopped leaves all three in place exactly when its path is neither of the temporaries nor
   * that of a missing report.
   */
  lemma ConfirmationCompletesIff(repo: Repo, id: string, ref: Path)
    requires CanConfirm(repo, id, ref)
    ensures (exists u :: ConfirmedFrom(repo[DataPath(id)].retro, ref, u)
                         && Complete(Confirmed(repo, id, ref, DONE), id, ref, u))
       <==> RefApart(id, ref) && ref != ReportPath(id)
  {
    hide Reach, Temporary, Temporaries, Free, ValidId, SafeRef;
    assert ConfirmedFrom(repo[DataPath(id)].retro, ref, Updated(repo[DataPath(id)].retro, ref));
    if ref == ReportPath(id) {
      RetryableIff(repo, id, ref, DONE);
    } else if RefApart(id, ref) {
      PathsApart(repo, id, ref);
      WritingReaches(repo, id, ref);
      Placed(repo, id, ref, 3);
      CleaningReaches(Reach(Written(repo, id, ref), Placing(id, ref), 3).0, id, ref, 3);
      RefNotTemporary(repo, id, ref);
    } else if ref == Temporary(DataPath(id)) {
      DataAliasDestroysData(repo, id, ref);
    } else {
      ReportAliasLosesDecision(repo, id, ref);
    }
  }
}
