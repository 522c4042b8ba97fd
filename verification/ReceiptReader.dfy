/** Reading a receipt during its replacement. */
module ReceiptReader {
  // What a reader of a provider receipt and its sidecar is told while they are being replaced
  // (delivery/scripts/digest_policy.py, lines 463-518).

  import opened ReceiptBundle

  /** What a tree holds, by logical reference. */
  type Records = map<string, string>

  /**
   * The trees that the attempts qualified, with the digest that goes into receipt and sidecar. What was there at
   * first, number 0, may be a receipt of an old version without a sidecar.
   */
  datatype Trees = Trees(of: nat -> Records, digest: Records -> string, firstHasSidecar: bool)

  datatype Verdict = Bound | Legacy | Refused

  /** `load_digest_policy_sidecar`, asked for the receipt's source tree digest. */
  function Read(d: Disk, trees: Trees, allowMissing: bool): Verdict {
    if d.sidecar == 0 && !trees.firstHasSidecar then if allowMissing then Legacy else Refused
    else if trees.digest(trees.of(d.sidecar)) == trees.digest(trees.of(d.receipt)) then Bound
    else Refused
  }

  /**
   * At every point of any run, trees being qualified again or not: only the receipt that was there at first is read
   * without a sidecar, and a receipt is refused only while a newer sidecar stands beside it, or if it is the first
   * one and has none.
   */
  lemma ReadDuringRun(disk: Disk, n: nat, tries: seq<Try>, trees: Trees, allowMissing: bool, d: Disk)
    requires disk.receipt <= disk.sidecar < n && d in Run(disk, n, tries)
    ensures Read(d, trees, allowMissing).Legacy? ==> d.receipt == 0
    ensures Read(d, trees, allowMissing).Refused? ==>
              d.receipt < d.sidecar || (d == Disk(0, 0) && !trees.firstHasSidecar && !allowMissing)
  {
    hide Run, Attempt;
    SidecarNeverOlder(disk, n, tries);
  }

  /** Over any run, the receipt is read as bound whenever a newer one has just been put there. */
  lemma NewReceiptIsBound(disk: Disk, n: nat, tries: seq<Try>, trees: Trees, allowMissing: bool, i: nat)
    requires disk.receipt <= disk.sidecar < n && i + 1 < |Run(disk, n, tries)|
    requires Run(disk, n, tries)[i + 1].receipt > Run(disk, n, tries)[i].receipt
    ensures Read(Run(disk, n, tries)[i + 1], trees, allowMissing).Bound?
  {
    ReceiptFollowsSidecar(disk, n, tries);
    assert SidecarFirst(Run(disk, n, tries)[i], Run(disk, n, tries)[i + 1]);
  }

  /**
   * A successful attempt ends with its own receipt, bound. A failed one whose rollback gets through ends read as the
   * disk was before it. Between them, what was not refused before is refused only as the old receipt with the
   * sidecar of another tree.
   */
  lemma ReadDuringAttempt(before: Disk, n: nat, f: Faults, trees: Trees, allowMissing: bool)
    requires n > 0
    ensures var (states, ok) := Attempt(before, n, f);
            var last := states[|states| - 1];
            && (ok ==> Read(last, trees, allowMissing).Bound? && last.receipt == n)
            && (!ok && !f.restoreReceiptFails && !f.restoreSidecarFails ==>
                Read(last, trees, allowMissing) == Read(before, trees, allowMissing))
            && (forall i :: 0 <= i < |states| && !Read(before, trees, allowMissing).Refused?
                            && Read(states[i], trees, allowMissing).Refused? ==>
                  states[i] == Disk(before.receipt, n) && trees.of(before.receipt) != trees.of(n))
  {
    hide Attempt;
    AttemptStates(before, n, f);
  }

  /** Without collisions, a receipt that has a sidecar is read as bound exactly when both describe one tree. */
  lemma BoundIff(d: Disk, trees: Trees, allowMissing: bool)
    requires forall a: Records, b: Records :: trees.digest(a) == trees.digest(b) ==> a == b
    requires d.sidecar > 0 || trees.firstHasSidecar
    ensures Read(d, trees, allowMissing).Bound? <==> trees.of(d.receipt) == trees.of(d.sidecar)
  {
  }
}
