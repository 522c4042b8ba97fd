/** The searches of the writer detector. */
module Detector {
  // The searches of the writer detector through an assignment environment that may be cyclic
  // (meta_flow/checks/detector_qualification.py, lines 229-235, 328-411 and 541-568).

  import opened Wrappers

  /** The expression nodes the searches tell apart; any other node, and a missing one, is `Other`. */
  datatype Expr =
    | Constant(isText: bool)
    | Name(id: string)
    | Divided(left: Expr, right: Expr)
    | Attribute(value: Expr, attr: string)
    | Call(func: Expr, args: seq<Expr>)
    | Subscript(value: Expr)
    | Display(items: seq<Expr>)  // a dict, list, set or tuple display
    | Other

  /** What the searches look names up in. `lower` stands for `str.lower`. */
  datatype Env = Env(
    aliases: map<string, string>,
    assignments: map<string, Expr>,
    annotated: set<string>,
    lower: string -> string)

  function QualifiedName(node: Expr, aliases: map<string, string>): string {
    match node
    case Name(id) => if id in aliases then aliases[id] else id
    case Attribute(value, attr) =>
      var prefix := QualifiedName(value, aliases);
      if prefix != "" then prefix + "." + attr else attr
    case _ => ""
  }

  /** The attribute chain `id.a.b.c`. */
  function Dotted(id: string, attrs: seq<string>): Expr {
    if attrs == [] then Name(id) else Attribute(Dotted(id, attrs[..|attrs| - 1]), attrs[|attrs| - 1])
  }

  function WithDots(attrs: seq<string>): string {
    if attrs == [] then "" else WithDots(attrs[..|attrs| - 1]) + "." + attrs[|attrs| - 1]
  }

  /** The name of an attribute chain is that of its head, an import alias resolved, and then the attributes. */
  lemma {:induction false} QualifiedNameIs(id: string, attrs: seq<string>, aliases: map<string, string>)
    requires id != "" && (id in aliases ==> aliases[id] != "")
    ensures QualifiedName(Dotted(id, attrs), aliases) == (if id in aliases then aliases[id] else id) + WithDots(attrs)
  {
    if attrs != [] {
      QualifiedNameIs(id, attrs[..|attrs| - 1], aliases);
    }
  }

  predicate IsTokenChar(c: char) {
    'a' <= c <= 'z' || '0' <= c <= '9'
  }

  const PATH_WORDS := {
    "archive", "destination", "dir", "directory", "file", "manifest", "output",
    "path", "ref", "root", "source", "target", "temp", "temporary"
  }

  /** Some maximal run of `[a-z0-9]` in the lowered name is a path word. */
  predicate NameLooksPath(env: Env, name: string) {
    var s := env.lower(name);
    exists i, j | 0 <= i < j <= |s| ::
      && s[i..j] in PATH_WORDS
      && (forall k :: i <= k < j ==> IsTokenChar(s[k]))
      && (i > 0 ==> !IsTokenChar(s[i - 1]))
      && (j < |s| ==> !IsTokenChar(s[j]))
  }

  /** `qualified.rsplit(".", 1)[-1]` */
  function Leaf(s: string): string {
    if s == "" || s[|s| - 1] == '.' then "" else Leaf(s[..|s| - 1]) + [s[|s| - 1]]
  }

  /** What follows the last dot, or everything if there is none. */
  predicate FollowsLastDot(s: string, leaf: string) {
    && |leaf| <= |s| && s[|s| - |leaf|..] == leaf && '.' !in leaf
    && (|leaf| < |s| ==> s[|s| - |leaf| - 1] == '.')
  }

  lemma {:induction false} LeafIs(s: string)
    ensures FollowsLastDot(s, Leaf(s))
  {
    if s != "" && s[|s| - 1] != '.' {
      LeafIs(s[..|s| - 1]);
      OneMoreBehind(s, Leaf(s[..|s| - 1]));
    }
  }

  lemma OneMoreBehind(s: string, leaf: string)
    requires s != "" && s[|s| - 1] != '.' && FollowsLastDot(s[..|s| - 1], leaf)
    ensures FollowsLastDot(s, leaf + [s[|s| - 1]])
  {
    var init := s[..|s| - 1];
    assert s[|init| - |leaf|..] == init[|init| - |leaf|..] + [s[|s| - 1]];
  }

  predicate CallLooksPath(env: Env, func: Expr) {
    var qualified := env.lower(QualifiedName(func, env.aliases));
    var leaf := Leaf(qualified);
    || qualified in {"pathlib.path", "pathlib.purepath", "pathlib.pureposixpath"}
    || NameLooksPath(env, leaf)
    || "resolve_" <= leaf || "current_" <= leaf || "canonical_" <= leaf
  }

  /** `_looks_path_expression` */
  predicate LooksPath(env: Env, node: Expr, seen: set<string>)
    decreases env.assignments.Keys - seen, node
  {
    match node
    case Constant(isText) => isText
    case Name(id) =>
      || id in env.annotated
      || NameLooksPath(env, id)
      || (id in env.assignments && id !in seen && LooksPath(env, env.assignments[id], seen + {id}))
    case Divided(_, _) => true
    case Attribute(value, attr) => attr in {"parent", "parents", "path", "root"} || LooksPath(env, value, seen)
    case Call(func, _) => CallLooksPath(env, func) || (func.Attribute? && LooksPath(env, func.value, seen))
    case Subscript(value) => LooksPath(env, value, seen)
    case _ => false
  }

  // ----- The meaning of the search, without `seen`

  /** The node is path-like in itself. */
  predicate IsPathLike(env: Env, node: Expr) {
    match node
    case Constant(isText) => isText
    case Name(id) => id in env.annotated || NameLooksPath(env, id)
    case Divided(_, _) => true
    case Attribute(_, attr) => attr in {"parent", "parents", "path", "root"}
    case Call(func, _) => CallLooksPath(env, func)
    case _ => false
  }

  /** The node whose value this node's value is taken from. */
  function Unfold(env: Env, node: Expr): Option<Expr> {
    match node
    case Name(id) => if id in env.assignments then Some(env.assignments[id]) else None
    case Attribute(value, _) => Some(value)
    case Call(Attribute(value, _), _) => Some(value)
    case Subscript(value) => Some(value)
    case _ => None
  }

  /** `n` unfoldings lead from `node` to a path-like node. */
  predicate Reaches(env: Env, node: Expr, n: nat)
    decreases n
  {
    if n == 0 then IsPathLike(env, node)
    else Unfold(env, node).Some? && Reaches(env, Unfold(env, node).value, n - 1)
  }

  /** As `Reaches`, no name in `seen` being unfolded on the way. */
  predicate ReachesAvoiding(env: Env, node: Expr, seen: set<string>, n: nat)
    decreases n
  {
    if n == 0 then IsPathLike(env, node)
    else
      && (node.Name? ==> node.id !in seen)
      && Unfold(env, node).Some?
      && ReachesAvoiding(env, Unfold(env, node).value, seen, n - 1)
  }

  lemma {:induction false} SearchIsSound(env: Env, node: Expr, seen: set<string>)
    requires LooksPath(env, node, seen)
    ensures exists n: nat :: Reaches(env, node, n)
    decreases env.assignments.Keys - seen, node
  {
    hide NameLooksPath, CallLooksPath;
    if IsPathLike(env, node) {
      assert Reaches(env, node, 0);
    } else {
      match node {
        case Name(id) => SearchIsSound(env, env.assignments[id], seen + {id});
        case Attribute(value, _) => SearchIsSound(env, value, seen);
        case Call(func, _) => SearchIsSound(env, func.value, seen);
        case Subscript(value) => SearchIsSound(env, value, seen);
      }
      var n: nat :| Reaches(env, Unfold(env, node).value, n);
      assert Reaches(env, node, n + 1);
    }
  }

  /** A chain that unfolds `x` after all comes by `x` again, with fewer unfoldings to go. */
  lemma {:induction false} ComesBack(env: Env, node: Expr, seen: set<string>, x: string, n: nat)
    requires ReachesAvoiding(env, node, seen, n) && !ReachesAvoiding(env, node, seen + {x}, n)
    ensures exists m: nat | m <= n :: ReachesAvoiding(env, Name(x), seen, m)
    decreases n
  {
    hide IsPathLike;
    if node != Name(x) {
      ComesBack(env, Unfold(env, node).value, seen, x, n - 1);
    }
  }

  /** Cutting the search at a seen name loses nothing: a chain through the name again could be shortened. */
  lemma {:induction false} SearchIsComplete(env: Env, node: Expr, seen: set<string>, n: nat)
    requires ReachesAvoiding(env, node, seen, n)
    ensures LooksPath(env, node, seen)
    decreases n
  {
    hide NameLooksPath, CallLooksPath;
    if !IsPathLike(env, node) {
      var next := Unfold(env, node).value;
      if node.Name? {
        if ReachesAvoiding(env, next, seen + {node.id}, n - 1) {
          SearchIsComplete(env, next, seen + {node.id}, n - 1);
        } else {
          ComesBack(env, next, seen, node.id, n - 1);
          var m: nat :| m < n && ReachesAvoiding(env, node, seen, m);
          SearchIsComplete(env, node, seen, m);
        }
      } else {
        SearchIsComplete(env, next, seen, n - 1);
      }
    }
  }

  lemma {:induction false} NothingToAvoid(env: Env, node: Expr, n: nat)
    requires Reaches(env, node, n)
    ensures ReachesAvoiding(env, node, {}, n)
    decreases n
  {
    if n > 0 {
      NothingToAvoid(env, Unfold(env, node).value, n - 1);
    }
  }

  /**
   * On any assignments, cyclic ones included: the search from no seen names answers yes exactly when some finite
   * chain of unfoldings reaches a path-like node.
   */
  lemma LooksPathIff(env: Env, node: Expr)
    ensures LooksPath(env, node, {}) <==> exists n: nat :: Reaches(env, node, n)
  {
    if LooksPath(env, node, {}) {
      SearchIsSound(env, node, {});
    }
    if exists n: nat :: Reaches(env, node, n) {
      var n: nat :| Reaches(env, node, n);
      NothingToAvoid(env, node, n);
      SearchIsComplete(env, node, {}, n);
    }
  }

  // ----- Containers

  /** `_is_proven_container_value`; `annotated` holds the annotated container names. */
  predicate ProvenContainer(env: Env, node: Expr, seen: set<string>)
    decreases env.assignments.Keys - seen
  {
    match node
    case Display(_) => true
    case Attribute(_, attr) => attr == "__dict__" || attr in env.annotated
    case Name(id) =>
      || id in env.annotated
      || (id !in seen && id in env.assignments && ProvenContainer(env, env.assignments[id], seen + {id}))
    case Call(func, _) => QualifiedName(func, env.aliases) in {"dict", "list", "set", "tuple"}
    case _ => false
  }

  /** The expression at the end of `n` assignments, starting from a name. */
  function Assigned(env: Env, node: Expr, n: nat): Option<Expr>
    decreases n
  {
    if n == 0 then Some(node)
    else if node.Name? && node.id in env.assignments then Assigned(env, env.assignments[node.id], n - 1)
    else None
  }

  predicate IsContainer(env: Env, node: Expr) {
    match node
    case Display(_) => true
    case Attribute(_, attr) => attr == "__dict__" || attr in env.annotated
    case Name(id) => id in env.annotated
    case Call(func, _) => QualifiedName(func, env.aliases) in {"dict", "list", "set", "tuple"}
    case _ => false
  }

  /** `n` assignments lead from `node` to a container. */
  predicate ContainerAfter(env: Env, node: Expr, n: nat) {
    Assigned(env, node, n).Some? && IsContainer(env, Assigned(env, node, n).value)
  }

  /** None of the first `n` names of the chain is in `seen`. */
  predicate Fresh(env: Env, node: Expr, seen: set<string>, n: nat)
    decreases n
  {
    n == 0 || !node.Name? || node.id !in env.assignments
    || (node.id !in seen && Fresh(env, env.assignments[node.id], seen, n - 1))
  }

  lemma {:induction false} ContainerIsSound(env: Env, node: Expr, seen: set<string>)
    requires ProvenContainer(env, node, seen)
    ensures exists n: nat :: ContainerAfter(env, node, n)
    decreases env.assignments.Keys - seen
  {
    if IsContainer(env, node) {
      assert ContainerAfter(env, node, 0);
    } else {
      ContainerIsSound(env, env.assignments[node.id], seen + {node.id});
      var n: nat :| ContainerAfter(env, env.assignments[node.id], n);
      assert ContainerAfter(env, node, n + 1);
    }
  }

  lemma {:induction false} NameComesBack(env: Env, node: Expr, seen: set<string>, x: string, n: nat)
    requires ContainerAfter(env, node, n) && Fresh(env, node, seen, n) && !Fresh(env, node, seen + {x}, n)
    ensures exists m: nat | m <= n :: ContainerAfter(env, Name(x), m) && Fresh(env, Name(x), seen, m)
    decreases n
  {
    if node != Name(x) {
      NameComesBack(env, env.assignments[node.id], seen, x, n - 1);
    }
  }

  lemma {:induction false} ContainerIsComplete(env: Env, node: Expr, seen: set<string>, n: nat)
    requires ContainerAfter(env, node, n) && Fresh(env, node, seen, n)
    ensures ProvenContainer(env, node, seen)
    decreases n
  {
    if !IsContainer(env, node) {
      var next := env.assignments[node.id];
      if Fresh(env, next, seen + {node.id}, n - 1) {
        ContainerIsComplete(env, next, seen + {node.id}, n - 1);
      } else {
        NameComesBack(env, next, seen, node.id, n - 1);
        var m: nat :| m < n && ContainerAfter(env, node, m) && Fresh(env, node, seen, m);
        ContainerIsComplete(env, node, seen, m);
      }
    }
  }

  lemma {:induction false} AllFresh(env: Env, node: Expr, n: nat)
    ensures Fresh(env, node, {}, n)
    decreases n
  {
    if n > 0 && node.Name? && node.id in env.assignments {
      AllFresh(env, env.assignments[node.id], n - 1);
    }
  }

  /** A name chain, cyclic or not, proves a container exactly when following it far enough reaches one. */
  lemma ProvenContainerIff(env: Env, node: Expr)
    ensures ProvenContainer(env, node, {}) <==> exists n: nat :: ContainerAfter(env, node, n)
  {
    if ProvenContainer(env, node, {}) {
      ContainerIsSound(env, node, {});
    }
    if exists n: nat :: ContainerAfter(env, node, n) {
      var n: nat :| ContainerAfter(env, node, n);
      AllFresh(env, node, n);
      ContainerIsComplete(env, node, {}, n);
    }
  }
}
