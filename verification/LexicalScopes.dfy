/**
 * The lexical scopes around a line: enclosing definitions found by their line ranges and sorted by width
 * (meta_flow/checks/detector_qualification.py, lines 492-503).
 */
module LexicalScopes {
  import opened Ordering
  import opened ScopeWalk

  predicate IsDefinition(n: Node) {
    n.kind in {FunctionDef, AsyncFunctionDef, ClassDef}
  }

  function Width(n: Node): int {
    n.last - n.first
  }

  /** A function or class definition whose lines include `line`. */
  predicate Encloses(n: Node, line: int) {
    IsDefinition(n) && n.first <= line <= n.last
  }

  /** The enclosing definitions in the order in which the tree nests them. */
  function Chain(n: Node, line: int): seq<Node> {
    (if Encloses(n, line) then [n] else []) + ChainOf(n.children, line)
  }

  function ChainOf(ns: seq<Node>, line: int): seq<Node> {
    if ns == [] then [] else Chain(ns[0], line) + ChainOf(ns[1..], line)
  }

  predicate Apart(a: Node, b: Node) {
    a.last < b.first || b.last < a.first
  }

  /** Definitions in different parts of the tree share no line. */
  ghost predicate PartsApart(a: seq<Node>, b: seq<Node>) {
    forall x, y :: x in a && y in b && IsDefinition(x) && IsDefinition(y) ==> Apart(x, y)
  }

  /** As source text nests: a definition is strictly wider than those in it, and siblings share no line. */
  ghost predicate Nests(n: Node) {
    && NestsAll(n.children)
    && (IsDefinition(n) ==> forall x :: x in AllOf(n.children) && IsDefinition(x) ==> Width(x) < Width(n))
  }

  ghost predicate NestsAll(ns: seq<Node>) {
    ns == [] || (Nests(ns[0]) && NestsAll(ns[1..]) && PartsApart(All(ns[0]), AllOf(ns[1..])))
  }

  // ----- Sorting

  /** `(-(end - lineno), lineno)` in ascending order. */
  predicate Before(a: Node, b: Node) {
    Width(a) > Width(b) || (Width(a) == Width(b) && a.first <= b.first)
  }

  ghost predicate Descending(s: seq<Node>) {
    forall i, j :: 0 <= i < j < |s| ==> Width(s[i]) > Width(s[j])
  }

  lemma {:induction false} InsertRestores(t: seq<Node>, k: nat)
    requires k < |t| && Descending(t)
    ensures Insert(t[k], t[..k] + t[k + 1..], Before) == t
  {
    hide Width, Before;
    var s := t[..k] + t[k + 1..];
    if k == 0 {
      assert s == t[1..];
      if s != [] {
        WiderIsBefore(t, 0, 1);
      }
      assert [t[0]] + t[1..] == t;
    } else {
      WiderIsBefore(t, 0, k);
      AfterFirst(t, k);
      InsertRestores(t[1..], k - 1);
      assert [t[0]] + t[1..] == t;
    }
  }

  lemma AfterFirst(t: seq<Node>, k: nat)
    requires 0 < k < |t|
    ensures var s := t[..k] + t[k + 1..];
            s[0] == t[0] && s[1..] == t[1..][..k - 1] + t[1..][k..] && t[1..][k - 1] == t[k]
  {
  }

  lemma WiderIsBefore(t: seq<Node>, i: nat, j: nat)
    requires i < j < |t| && Descending(t)
    ensures Before(t[i], t[j]) && !Before(t[j], t[i])
  {
  }

  /** Sorting brings any order of nodes with different widths into the descending one. */
  lemma {:induction false} SortedIs(s: seq<Node>, t: seq<Node>)
    requires multiset(s) == multiset(t) && Descending(t)
    ensures Sorted(s, Before) == t
  {
    hide Width, Insert;
    assert |s| == |multiset(s)| == |multiset(t)| == |t|;
    if s != [] {
      assert s[0] in multiset(t);
      var k :| 0 <= k < |t| && t[k] == s[0];
      var u := t[..k] + t[k + 1..];
      WithoutOne(s, t, k);
      assert Descending(u) by { DropDescending(t, k); }
      SortedIs(s[1..], u);
      InsertRestores(t, k);
    }
  }

  lemma WithoutOne(s: seq<Node>, t: seq<Node>, k: nat)
    requires multiset(s) == multiset(t) && s != [] && k < |t| && t[k] == s[0]
    ensures multiset(s[1..]) == multiset(t[..k] + t[k + 1..])
  {
    assert s == [s[0]] + s[1..];
    assert t == t[..k] + ([t[k]] + t[k + 1..]);
    assert multiset(t) == multiset(t[..k]) + (multiset{t[k]} + multiset(t[k + 1..]));
    assert multiset(s) == multiset{s[0]} + multiset(s[1..]);
    assert multiset(t[..k] + t[k + 1..]) == multiset(t[..k]) + multiset(t[k + 1..]);
    assert multiset(s[1..]) == multiset(s) - multiset{s[0]};
  }

  lemma DropDescending(t: seq<Node>, k: nat)
    requires k < |t| && Descending(t)
    ensures Descending(t[..k] + t[k + 1..])
  {
    hide Width;
  }

  // ----- The loop

  /** The nodes that enclose the line, in the order of the walk. */
  function Enclosing(walk: seq<Node>, line: int): seq<Node> {
    if walk == [] then []
    else
      var rest, last := walk[..|walk| - 1], walk[|walk| - 1];
      Enclosing(rest, line) + if Encloses(last, line) then [last] else []
  }

  /** `_scopes_for_line`, the nodes of the tree being walked in any order. */
  method ScopesForLine(tree: Node, walk: seq<Node>, line: int) returns (scopes: seq<Node>)
    ensures scopes == [tree] + Sorted(Enclosing(walk, line), Before)
  {
    var matches: seq<Node> := [];
    assert walk[..0] == [];
    for i := 0 to |walk|
      invariant matches == Enclosing(walk[..i], line)
    {
      assert walk[..i + 1][..i] == walk[..i];
      if !IsDefinition(walk[i]) {
        continue;
      }
      if walk[i].first <= line <= walk[i].last {
        matches := matches + [walk[i]];
      }
    }
    assert walk[..|walk|] == walk;
    scopes := [tree] + Sorted(matches, Before);
  }

  lemma {:induction false} EnclosingCounts(walk: seq<Node>, line: int, x: Node)
    ensures multiset(Enclosing(walk, line))[x] == if Encloses(x, line) then multiset(walk)[x] else 0
  {
    hide Encloses;
    if walk != [] {
      var rest, last := walk[..|walk| - 1], walk[|walk| - 1];
      assert walk == rest + [last];
      EnclosingCounts(rest, line, x);
    }
  }

  lemma {:induction false} EnclosingConcat(a: seq<Node>, b: seq<Node>, line: int)
    ensures Enclosing(a + b, line) == Enclosing(a, line) + Enclosing(b, line)
  {
    hide Encloses;
    if b == [] {
      assert a + b == a;
    } else {
      var rest, last := b[..|b| - 1], b[|b| - 1];
      EnclosingConcat(a, rest, line);
      assert (a + b)[..|a + b| - 1] == a + rest;
    }
  }

  /** The chain is what encloses the line, in preorder. */
  lemma {:induction false} ChainIsEnclosing(n: Node, line: int)
    ensures Enclosing(All(n), line) == Chain(n, line)
    decreases n
  {
    hide Encloses;
    ChainOfIsEnclosing(n.children, line);
    EnclosingConcat([n], AllOf(n.children), line);
    assert [n][..0] == [] && Enclosing([], line) == [];
    assert Enclosing([n], line) == if Encloses(n, line) then [n] else [];
  }

  lemma {:induction false} ChainOfIsEnclosing(ns: seq<Node>, line: int)
    ensures Enclosing(AllOf(ns), line) == ChainOf(ns, line)
    decreases ns
  {
    hide Encloses;
    if ns != [] {
      ChainIsEnclosing(ns[0], line);
      ChainOfIsEnclosing(ns[1..], line);
      EnclosingConcat(All(ns[0]), AllOf(ns[1..]), line);
    }
  }

  lemma {:induction false} EnclosingMembers(walk: seq<Node>, line: int)
    ensures forall x :: x in Enclosing(walk, line) ==> x in walk && Encloses(x, line)
  {
    hide Encloses;
    if walk != [] {
      EnclosingMembers(walk[..|walk| - 1], line);
    }
  }

  // ----- The chain

  /** Each scope lies in all those before it. */
  ghost predicate EachInside(s: seq<Node>) {
    forall i, j :: 0 <= i < j < |s| ==> s[j] in AllOf(s[i].children)
  }

  lemma {:induction false} ChainNests(n: Node, line: int)
    requires Nests(n)
    ensures Descending(Chain(n, line)) && EachInside(Chain(n, line))
    decreases n
  {
    hide Descending, EachInside, Width, Enclosing;
    ChainOfNests(n.children, line);
    ChainOfIsEnclosing(n.children, line);
    EnclosingMembers(AllOf(n.children), line);
    var inner := ChainOf(n.children, line);
    assert forall x :: x in inner ==> x in AllOf(n.children) && IsDefinition(x);
    if Encloses(n, line) {
      OuterFirst(n, inner);
    } else {
      assert [] + inner == inner;
    }
  }

  lemma OuterFirst(n: Node, inner: seq<Node>)
    requires Descending(inner) && EachInside(inner)
    requires forall x :: x in inner ==> x in AllOf(n.children) && Width(x) < Width(n)
    ensures Descending([n] + inner) && EachInside([n] + inner)
  {
    hide Width, AllOf;
  }

  lemma {:induction false} ChainOfNests(ns: seq<Node>, line: int)
    requires NestsAll(ns)
    ensures Descending(ChainOf(ns, line)) && EachInside(ChainOf(ns, line))
    decreases ns
  {
    if ns != [] {
      var a, b := Chain(ns[0], line), ChainOf(ns[1..], line);
      ChainNests(ns[0], line);
      ChainOfNests(ns[1..], line);
      OnlyOneEncloses(ns, line);
      assert a == [] || b == [];
    }
  }

  lemma BothEnclose(x: Node, y: Node, line: int)
    requires Encloses(x, line) && Encloses(y, line)
    ensures IsDefinition(x) && IsDefinition(y) && !Apart(x, y)
  {
  }

  /** Siblings share no line, so at most one part of the tree encloses it. */
  lemma OnlyOneEncloses(ns: seq<Node>, line: int)
    requires NestsAll(ns) && ns != []
    ensures Chain(ns[0], line) == [] || ChainOf(ns[1..], line) == []
  {
    hide Chain, ChainOf;
    var a, b := Chain(ns[0], line), ChainOf(ns[1..], line);
    ChainIsEnclosing(ns[0], line);
    ChainOfIsEnclosing(ns[1..], line);
    EnclosingMembers(All(ns[0]), line);
    EnclosingMembers(AllOf(ns[1..]), line);
    if a != [] && b != [] {
      assert a[0] in All(ns[0]) && b[0] in AllOf(ns[1..]);
      BothEnclose(a[0], b[0], line);
    }
  }

  /**
   * In a tree that nests as source text does, whatever the order of the walk: sorting by width gives the scopes
   * around the line from the outermost to the innermost, each inside all those before it.
   */
  lemma ScopesAreChain(tree: Node, walk: seq<Node>, line: int)
    requires Nests(tree) && multiset(walk) == multiset(All(tree))
    ensures Sorted(Enclosing(walk, line), Before) == Chain(tree, line)
    ensures EachInside(Chain(tree, line))
  {
    hide Nests, Sorted, Enclosing, Chain, All, EachInside, Encloses;
    ChainNests(tree, line);
    ChainIsEnclosing(tree, line);
    forall x ensures multiset(Enclosing(walk, line))[x] == multiset(Enclosing(All(tree), line))[x] {
      EnclosingCounts(walk, line, x);
      EnclosingCounts(All(tree), line, x);
    }
    SortedIs(Enclosing(walk, line), Chain(tree, line));
  }
}
