/**
 * A directory tree without links: which paths are files, with what text, and which are directories. What lies above
 * anything is a directory; `ensure_directory` and the test of a file target are here.
 */
module FileTree {
  import opened Wrappers

  /** A path is the sequence of its parts, the root being empty. */
  type Path = seq<string>

  datatype Tree = Tree(files: map<Path, string>, dirs: set<Path>)

  function Parent(p: Path): Path {
    if p == [] then [] else p[..|p| - 1]
  }

  /** `a` is a proper ancestor of `p`. */
  predicate Above(a: Path, p: Path) {
    a < p
  }

  predicate Exists(t: Tree, p: Path) {
    p in t.files || p in t.dirs
  }

  /** What lies above anything is a directory, and nothing is both a file and a directory. */
  ghost predicate WellFormed(t: Tree) {
    && [] in t.dirs
    && t.files.Keys !! t.dirs
    && forall a, p :: Exists(t, p) && Above(a, p) ==> a in t.dirs
  }

  function TextAt(t: Tree, p: Path): Option<string> {
    if p in t.files then Some(t.files[p]) else None
  }

  predicate AtOrAbove(a: Path, p: Path) {
    a <= p
  }

  /** The path itself and everything above it. */
  function Components(p: Path): (r: set<Path>)
    ensures forall a :: a in r <==> AtOrAbove(a, p)
  {
    if p == [] then {p}
    else
      assert forall a :: AtOrAbove(a, p) <==> a == p || AtOrAbove(a, Parent(p));
      {p} + Components(Parent(p))
  }

  predicate Blocked(t: Tree, p: Path) {
    exists a :: a in Components(p) && a in t.files
  }

  /** `ensure_directory`: nothing happens when a component is a file; otherwise all components become directories. */
  function MakeDirs(t: Tree, p: Path): (r: Tree)
    ensures r.files == t.files
  {
    if Blocked(t, p) then t else t.(dirs := t.dirs + Components(p))
  }

  /** Whether `ensure_file_target` lets a file be written at `p`. */
  predicate TargetOk(t: Tree, p: Path) {
    !Blocked(t, Parent(p)) && p !in t.dirs
  }

  lemma MakeDirsWellFormed(t: Tree, p: Path)
    requires WellFormed(t)
    ensures WellFormed(MakeDirs(t, p))
  {
  }

  lemma PutWellFormed(t: Tree, p: Path, text: string)
    requires WellFormed(t) && TargetOk(t, p)
    ensures WellFormed(MakeDirs(t, Parent(p)).(files := t.files[p := text]))
  {
    MakeDirsWellFormed(t, Parent(p));
    var u := MakeDirs(t, Parent(p)).(files := t.files[p := text]);
    assert p !in u.dirs && p != [];
    forall a, q | Exists(u, q) && Above(a, q) ensures a in u.dirs {
      if q == p {
        assert a <= Parent(p);
      }
    }
  }

  lemma RemoveWellFormed(t: Tree, p: Path)
    requires WellFormed(t) && p in t.files
    ensures WellFormed(t.(files := t.files - {p}))
  {
  }
}
