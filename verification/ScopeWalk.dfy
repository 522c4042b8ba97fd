/** Walking one lexical scope. */
module ScopeWalk {
  // Walking one lexical scope of a syntax tree with an explicit stack (meta_flow/checks/detector_qualification.py,
  // lines 238-252).

  datatype Kind = FunctionDef | AsyncFunctionDef | ClassDef | Lambda | Plain

  /** A syntax node with its line range; `id` tells nodes of the same shape apart. */
  datatype Node = Node(id: nat, kind: Kind, first: int, last: int, children: seq<Node>)

  predicate OpensScope(n: Node) {
    !n.kind.Plain?
  }

  /** The preorder of the tree at `n`, pruned at the scopes strictly below it. */
  function Preorder(n: Node): seq<Node> {
    [n] + PreorderOf(n.children)
  }

  function PreorderOf(ns: seq<Node>): seq<Node> {
    if ns == [] then [] else Visited(ns[0]) + PreorderOf(ns[1..])
  }

  /** What the walk makes of a child. */
  function Visited(n: Node): seq<Node> {
    if OpensScope(n) then [] else [n] + PreorderOf(n.children)
  }

  function Size(n: Node): nat {
    1 + Sizes(n.children)
  }

  function Sizes(ns: seq<Node>): nat {
    if ns == [] then 0 else Size(ns[0]) + Sizes(ns[1..])
  }

  /** What the nodes on the stack still contribute, the top (the last one) first. */
  function Pending(stack: seq<Node>): seq<Node> {
    if stack == [] then [] else Preorder(stack[|stack| - 1]) + Pending(stack[..|stack| - 1])
  }

  function StackSize(stack: seq<Node>): nat {
    if stack == [] then 0 else Size(stack[|stack| - 1]) + StackSize(stack[..|stack| - 1])
  }

  lemma PushedPending(stack: seq<Node>, n: Node)
    ensures Pending(stack + [n]) == Preorder(n) + Pending(stack)
    ensures StackSize(stack + [n]) == Size(n) + StackSize(stack)
  {
    assert (stack + [n])[..|stack|] == stack;
  }

  lemma TopPending(stack: seq<Node>)
    requires stack != []
    ensures var node, below := stack[|stack| - 1], stack[..|stack| - 1];
            && Pending(stack) == [node] + (PreorderOf(node.children) + Pending(below))
            && StackSize(stack) == 1 + Sizes(node.children) + StackSize(below)
  {
  }

  lemma NothingPending(ns: seq<Node>)
    ensures PreorderOf(ns[|ns|..]) == [] && Sizes(ns[|ns|..]) == 0 && Pending([]) == []
  {
  }

  lemma PrunedStep(ns: seq<Node>, i: nat, rest: seq<Node>)
    requires i < |ns|
    ensures PreorderOf(ns[i..]) + rest
         == (if OpensScope(ns[i]) then [] else Preorder(ns[i])) + (PreorderOf(ns[i + 1..]) + rest)
    ensures Sizes(ns[i..]) == Size(ns[i]) + Sizes(ns[i + 1..])
  {
    assert ns[i..][1..] == ns[i + 1..];
  }

  /** The loop with a stack that is popped and pushed gives the recursive preorder. */
  method Walk(root: Node) returns (result: seq<Node>)
    ensures result == Preorder(root)
  {
    hide Preorder, PreorderOf, Pending, Size, Sizes, StackSize;
    result := [];
    var stack := [root];
    NothingPending([]);
    PushedPending([], root);
    assert [] + [root] == [root] && Preorder(root) + [] == Preorder(root);
    while stack != []
      invariant result + Pending(stack) == Preorder(root)
      decreases StackSize(stack)
    {
      TopPending(stack);
      ghost var before := result + Pending(stack);
      var node := stack[|stack| - 1];
      stack := stack[..|stack| - 1];
      ghost var below := stack;
      result := result + [node];
      var children := node.children;
      NothingPending(children);
      for i := |children| downto 0
        invariant Pending(stack) == PreorderOf(children[i..]) + Pending(below)
        invariant StackSize(stack) <= Sizes(children[i..]) + StackSize(below)
      {
        var child := children[i];
        PrunedStep(children, i, Pending(below));
        if !OpensScope(child) {
          PushedPending(stack, child);
          stack := stack + [child];
        }
      }
      assert children[0..] == children;
      assert result + Pending(stack) == before;
    }
  }

  // ----- All scopes together

  /** `ast.walk`, as far as which nodes it yields. */
  function All(n: Node): seq<Node> {
    [n] + AllOf(n.children)
  }

  function AllOf(ns: seq<Node>): seq<Node> {
    if ns == [] then [] else All(ns[0]) + AllOf(ns[1..])
  }

  /** What the walks rooted at the scope nodes among `ns` yield. */
  function ScopeWalks(ns: seq<Node>): multiset<Node> {
    if ns == [] then multiset{}
    else (if OpensScope(ns[0]) then multiset(Preorder(ns[0])) else multiset{}) + ScopeWalks(ns[1..])
  }

  lemma {:induction false} ScopeWalksConcat(a: seq<Node>, b: seq<Node>)
    ensures ScopeWalks(a + b) == ScopeWalks(a) + ScopeWalks(b)
  {
    if a == [] {
      assert a + b == b;
    } else {
      assert (a + b)[1..] == a[1..] + b;
      ScopeWalksConcat(a[1..], b);
    }
  }

  lemma TreePartition(n: Node)
    requires multiset(AllOf(n.children)) == multiset(PreorderOf(n.children)) + ScopeWalks(AllOf(n.children))
    ensures multiset(All(n)) == multiset(Visited(n)) + ScopeWalks(All(n))
  {
    var below, pruned, walks := AllOf(n.children), PreorderOf(n.children), ScopeWalks(AllOf(n.children));
    assert All(n)[0] == n && All(n)[1..] == below;
    assert multiset(All(n)) == multiset{n} + multiset(below);
    assert multiset(Preorder(n)) == multiset{n} + multiset(pruned);
  }

  lemma Regroup(a: multiset<Node>, p: multiset<Node>, w: multiset<Node>,
                b: multiset<Node>, q: multiset<Node>, v: multiset<Node>)
    requires a == p + w && b == q + v
    ensures a + b == (p + q) + (w + v)
  {
  }

  lemma {:induction false} ForestPartition(ns: seq<Node>)
    ensures multiset(AllOf(ns)) == multiset(PreorderOf(ns)) + ScopeWalks(AllOf(ns))
  {
    if ns != [] {
      var n, rest := ns[0], ns[1..];
      ForestPartition(n.children);
      ForestPartition(rest);
      hide Visited, All, ScopeWalks;
      TreePartition(n);
      ScopeWalksConcat(All(n), AllOf(rest));
      Regroup(multiset(All(n)), multiset(Visited(n)), ScopeWalks(All(n)),
              multiset(AllOf(rest)), multiset(PreorderOf(rest)), ScopeWalks(AllOf(rest)));
    } else {
      assert AllOf(ns) == [] && PreorderOf(ns) == [];
    }
  }

  /** The walk from the module and the walks from every scope node below it yield each node exactly once. */
  lemma WalksPartition(root: Node)
    ensures multiset(All(root)) == multiset(Preorder(root)) + ScopeWalks(All(root)[1..])
  {
    ForestPartition(root.children);
    assert All(root)[1..] == AllOf(root.children);
  }

  /** A walk yields its root, and no other node that opens a scope. */
  lemma {:induction false} OneScope(ns: seq<Node>)
    ensures forall n :: n in PreorderOf(ns) ==> !OpensScope(n)
  {
    if ns != [] {
      OneScope(ns[1..]);
      if !OpensScope(ns[0]) {
        OneScope(ns[0].children);
      }
    }
  }
}
