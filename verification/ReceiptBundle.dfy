/** Committing a receipt and its sidecar. */
module ReceiptBundle {
  // Replacing a provider receipt together with its sidecar: the receipt is the commit marker
  // (scripts/qualify_provider_artifact.py, lines 18-80).
  //
  // Both files are named by the attempt that wrote them, 0 standing for what was there at first. Each attempt may
  // fail in any of its steps, its rollback included, and may be killed between any two of them.

  /** Which attempt wrote the receipt and which the sidecar that are on disk. */
  datatype Disk = Disk(receipt: nat, sidecar: nat)

  /** Which of its steps go wrong. A failed atomic write leaves its file as it was. */
  datatype Faults = Faults(
    sidecarFails: bool,
    receiptFails: bool,
    postcheckFails: bool,
    restoreReceiptFails: bool,
    restoreSidecarFails: bool)

  /** The states the disk goes through during the rollback: the receipt is restored first. */
  function Rollback(before: Disk, now: Disk, f: Faults): seq<Disk> {
    if f.restoreReceiptFails then []
    else
      var receiptBack := now.(receipt := before.receipt);
      [receiptBack] + (if f.restoreSidecarFails then [] else [receiptBack.(sidecar := before.sidecar)])
  }

  /** The states the disk goes through during attempt `n`, and whether the attempt succeeds. */
  function Attempt(before: Disk, n: nat, f: Faults): (seq<Disk>, bool) {
    if f.sidecarFails then ([before] + Rollback(before, before, f), false)
    else
      var s1 := before.(sidecar := n);
      if f.receiptFails then ([before, s1] + Rollback(before, s1, f), false)
      else
        var s2 := s1.(receipt := n);
        if f.postcheckFails then ([before, s1, s2] + Rollback(before, s2, f), false)
        else ([before, s1, s2], true)
  }

  /** A new receipt is never seen with an old sidecar, and the rollback undoes everything it gets to. */
  lemma AttemptStates(before: Disk, n: nat, f: Faults)
    ensures var (states, ok) := Attempt(before, n, f);
            && states != [] && states[0] == before
            && (forall i :: 0 <= i < |states| ==>
                  states[i] in {before, Disk(before.receipt, n), Disk(n, n)})
            && (ok <==> !f.sidecarFails && !f.receiptFails && !f.postcheckFails)
            && (ok ==> states[|states| - 1] == Disk(n, n))
            && (!ok && !f.restoreReceiptFails && !f.restoreSidecarFails ==> states[|states| - 1] == before)
  {
  }

  /** An attempt and the point at which it is killed, if it does not run out by itself before. */
  datatype Try = Try(faults: Faults, killedAfter: nat)

  /** What the disk goes through until the attempt is killed or over. */
  function Seen(before: Disk, n: nat, t: Try): (r: seq<Disk>)
    ensures r != []
  {
    var states := Attempt(before, n, t.faults).0;
    AttemptStates(before, n, t.faults);
    if t.killedAfter < |states| then states[..t.killedAfter + 1] else states
  }

  /** The states the disk goes through over attempts `n`, `n + 1`, and so on. */
  function Run(disk: Disk, n: nat, tries: seq<Try>): seq<Disk>
    decreases |tries|
  {
    if tries == [] then [disk]
    else
      var seen := Seen(disk, n, tries[0]);
      seen + Run(seen[|seen| - 1], n + 1, tries[1..])
  }

  /** A kill leaves one of the states of the attempt. */
  lemma SeenStates(before: Disk, n: nat, t: Try)
    ensures forall d :: d in Seen(before, n, t) ==> d in {before, Disk(before.receipt, n), Disk(n, n)}
    ensures Seen(before, n, t)[0] == before
  {
    hide Attempt;
    AttemptStates(before, n, t.faults);
    assert forall d :: d in Seen(before, n, t) ==> d in Attempt(before, n, t.faults).0;
  }

  /** Over any run of failing and killed attempts, the sidecar on disk is never older than the receipt. */
  lemma {:induction false} SidecarNeverOlder(disk: Disk, n: nat, tries: seq<Try>)
    requires disk.receipt <= disk.sidecar < n
    ensures forall d :: d in Run(disk, n, tries) ==> d.receipt <= d.sidecar
    decreases |tries|
  {
    hide Seen;
    if tries != [] {
      var seen := Seen(disk, n, tries[0]);
      SeenStates(disk, n, tries[0]);
      var last := seen[|seen| - 1];
      assert last in seen;
      SidecarNeverOlder(last, n + 1, tries[1..]);
    }
  }

  /** From one state to the next the receipt becomes newer only when its own sidecar is already in place. */
  predicate SidecarFirst(d: Disk, e: Disk) {
    e.receipt > d.receipt ==> d.sidecar == e.sidecar == e.receipt
  }

  ghost predicate EachSidecarFirst(states: seq<Disk>) {
    forall i :: 0 <= i < |states| - 1 ==> SidecarFirst(states[i], states[i + 1])
  }

  lemma AttemptSidecarFirst(before: Disk, n: nat, f: Faults)
    requires before.receipt < n
    ensures EachSidecarFirst(Attempt(before, n, f).0)
  {
    var states := Attempt(before, n, f).0;
    assert |states| <= 5;
  }

  lemma {:induction false} RunStarts(disk: Disk, n: nat, tries: seq<Try>)
    ensures Run(disk, n, tries) != [] && Run(disk, n, tries)[0] == disk
  {
    if tries != [] {
      SeenStates(disk, n, tries[0]);
    }
  }

  lemma JoinSidecarFirst(a: seq<Disk>, b: seq<Disk>)
    requires EachSidecarFirst(a) && EachSidecarFirst(b) && a != [] && b != [] && a[|a| - 1] == b[0]
    ensures EachSidecarFirst(a + b)
  {
    forall i | 0 <= i < |a + b| - 1 ensures SidecarFirst((a + b)[i], (a + b)[i + 1]) {
      assert i >= |a| ==> SidecarFirst(b[i - |a|], b[i - |a| + 1]);
      assert i < |a| - 1 ==> SidecarFirst(a[i], a[i + 1]);
    }
  }

  /** Over any run of failing and killed attempts a newer receipt only ever appears beside its own sidecar. */
  lemma {:induction false} ReceiptFollowsSidecar(disk: Disk, n: nat, tries: seq<Try>)
    requires disk.receipt <= disk.sidecar < n
    ensures EachSidecarFirst(Run(disk, n, tries))
    decreases |tries|
  {
    hide Attempt, SidecarFirst;
    if tries != [] {
      var seen := Seen(disk, n, tries[0]);
      AttemptSidecarFirst(disk, n, tries[0].faults);
      assert EachSidecarFirst(seen);
      SeenStates(disk, n, tries[0]);
      var last := seen[|seen| - 1];
      assert last in seen;
      ReceiptFollowsSidecar(last, n + 1, tries[1..]);
      RunStarts(last, n + 1, tries[1..]);
      JoinSidecarFirst(seen, Run(last, n + 1, tries[1..]));
    }
  }

  class Bundle {
    var receipt: nat
    var sidecar: nat
    ghost var seen: seq<Disk>

    ghost predicate Valid()
      reads this
    {
      seen != [] && seen[|seen| - 1] == Disk(receipt, sidecar)
    }

    constructor (disk: Disk)
      ensures Valid() && seen == [disk]
    {
      receipt, sidecar, seen := disk.receipt, disk.sidecar, [disk];
    }

    method WriteSidecar(n: nat)
      modifies this
      ensures receipt == old(receipt) && sidecar == n && seen == old(seen) + [Disk(receipt, n)]
    {
      sidecar := n;
      seen := seen + [Disk(receipt, sidecar)];
    }

    method WriteReceipt(n: nat)
      modifies this
      ensures receipt == n && sidecar == old(sidecar) && seen == old(seen) + [Disk(n, sidecar)]
    {
      receipt := n;
      seen := seen + [Disk(receipt, sidecar)];
    }

    /** `_write_bundle_atomic`: the states the disk goes through are those of `Attempt`. */
    method WriteBundle(n: nat, f: Faults) returns (ok: bool)
      requires Valid()
      modifies this
      ensures Valid()
      ensures var (states, success) := Attempt(Disk(old(receipt), old(sidecar)), n, f);
              ok == success && seen == old(seen) + states[1..]
    {
      var beforeReceipt, beforeSidecar := receipt, sidecar;
      if !f.sidecarFails {
        WriteSidecar(n);
        if !f.receiptFails {
          WriteReceipt(n);
          if !f.postcheckFails {
            return true;
          }
        }
      }
      if !f.restoreReceiptFails {
        WriteReceipt(beforeReceipt);
        if !f.restoreSidecarFails {
          WriteSidecar(beforeSidecar);
        }
      }
      ok := false;
    }
  }
}
