/** The empty-directory pass. */
module Cleanup {
  // The directories that one deepest-first pass over the parents of removed leaves deletes
  // (delivery/scripts/install.py, lines 1765-1786).

  import opened FileTree

  /** The paths strictly below the root and above a removed leaf. */
  function Candidates(root: Path, removed: seq<Path>): (r: set<Path>)
    ensures forall d :: d in r <==> Above(root, d) && exists leaf :: leaf in removed && Above(d, leaf)
  {
    set leaf, d | leaf in removed && d in Components(leaf) && Above(d, leaf) && Above(root, d) :: d
  }

  /** `any(candidate.iterdir())` */
  predicate HasChild(t: Tree, d: Path) {
    || (exists p :: p in t.files && p != [] && Parent(p) == d)
    || (exists p :: p in t.dirs && p != [] && Parent(p) == d)
  }

  /** Nothing at all lies below `d` but directories that are candidates themselves. */
  ghost predicate Removable(t: Tree, candidates: set<Path>, d: Path) {
    && d in t.dirs
    && d in candidates
    && (forall p :: p in t.files ==> !Above(d, p))
    && (forall p :: p in t.dirs && Above(d, p) ==> p in candidates)
  }

  ghost function Doomed(t: Tree, candidates: set<Path>): set<Path> {
    set d | d in t.dirs && Removable(t, candidates, d)
  }

  /** The tree after the candidates in `done` have had their turn. */
  ghost predicate Swept(t: Tree, candidates: set<Path>, done: set<Path>, u: Tree) {
    u.files == t.files && u.dirs == t.dirs - (Doomed(t, candidates) * done)
  }

  /** The step from `d` towards something below it. */
  function Towards(d: Path, p: Path): Path
    requires Above(d, p)
  {
    p[..|d| + 1]
  }

  lemma TowardsIsChild(t: Tree, d: Path, p: Path)
    requires WellFormed(t) && Exists(t, p) && Above(d, p)
    ensures Parent(Towards(d, p)) == d && Above(d, Towards(d, p)) && Exists(t, Towards(d, p))
    ensures Towards(d, p) != p ==> Above(Towards(d, p), p) && Towards(d, p) in t.dirs
  {
    if |p| > |d| + 1 {
      assert Above(Towards(d, p), p);
    } else {
      assert Towards(d, p) == p;
    }
  }

  /** When every deeper candidate has had its turn, a candidate is empty exactly if it is removable. */
  lemma EmptyIffRemovable(t: Tree, candidates: set<Path>, done: set<Path>, u: Tree, d: Path)
    requires WellFormed(t) && Swept(t, candidates, done, u)
    requires d in candidates && d in t.dirs
    requires forall c :: c in candidates && |c| > |d| ==> c in done
    ensures !HasChild(u, d) <==> Removable(t, candidates, d)
  {
    if Removable(t, candidates, d) {
      ChildlessIfRemovable(t, candidates, done, u, d);
    } else if exists p :: p in t.files && Above(d, p) {
      var p :| p in t.files && Above(d, p);
      ChildRemains(t, candidates, done, u, d, p);
    } else {
      var p :| p in t.dirs && Above(d, p) && p !in candidates;
      ChildRemains(t, candidates, done, u, d, p);
    }
  }

  lemma ChildlessIfRemovable(t: Tree, candidates: set<Path>, done: set<Path>, u: Tree, d: Path)
    requires Swept(t, candidates, done, u) && Removable(t, candidates, d)
    requires forall c :: c in candidates && |c| > |d| ==> c in done
    ensures !HasChild(u, d)
  {
    forall p | Exists(u, p) && p != [] ensures Parent(p) != d {
      if Parent(p) == d {
        RemovableBelow(t, candidates, d, p);
      }
    }
  }

  lemma ChildRemains(t: Tree, candidates: set<Path>, done: set<Path>, u: Tree, d: Path, p: Path)
    requires WellFormed(t) && Swept(t, candidates, done, u) && Above(d, p)
    requires p in t.files || (p in t.dirs && p !in candidates)
    ensures HasChild(u, d)
  {
    TowardsIsChild(t, d, p);
    var c := Towards(d, p);
    assert !Removable(t, candidates, c);
    assert Exists(u, c) && c != [];
  }

  /** One turn of the pass over the candidates. */
  lemma TakeTurn(t: Tree, candidates: set<Path>, done: set<Path>, u: Tree, d: Path)
    requires WellFormed(t) && Swept(t, candidates, done, u) && d in candidates && d !in done
    requires forall c :: c in candidates && |c| > |d| ==> c in done
    ensures Swept(t, candidates, done + {d},
                  if d in u.dirs && !HasChild(u, d) then u.(dirs := u.dirs - {d}) else u)
  {
    if d in t.dirs {
      EmptyIffRemovable(t, candidates, done, u, d);
    }
  }

  lemma SweptAll(t: Tree, candidates: set<Path>, u: Tree)
    requires WellFormed(t) && Swept(t, candidates, candidates, u) && [] !in candidates
    ensures forall d :: d in u.dirs <==> d in t.dirs && !Removable(t, candidates, d)
    ensures WellFormed(u)
  {
    assert Doomed(t, candidates) * candidates == Doomed(t, candidates);
    forall d, p | Exists(u, p) && Above(d, p) ensures d in u.dirs {
      if Removable(t, candidates, d) {
        RemovableBelow(t, candidates, d, p);
      }
    }
  }

  lemma RemovableBelow(t: Tree, candidates: set<Path>, d: Path, p: Path)
    requires Removable(t, candidates, d) && Exists(t, p) && Above(d, p)
    ensures Removable(t, candidates, p)
  {
    assert forall q :: Above(p, q) ==> Above(d, q);
  }
}
