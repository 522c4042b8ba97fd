/** Replaying a correction chain. */
module CorrectionReplay {
  // Replaying a correction chain on a derived copy (meta_flow/checks/correction.py, lines 92-105).

  import opened Wrappers
  import opened Ordering
  import opened PosixPath
  import opened Correction

  // ----- One operation

  /** The nested assignment; `None` when it would have to pass through a value that is not an object. */
  function SetAt(fields: map<string, Json>, parts: seq<string>, value: Json): Option<map<string, Json>>
    requires parts != []
    decreases |parts|
  {
    if |parts| == 1 then Some(fields[parts[0] := value])
    else
      match if parts[0] in fields then fields[parts[0]] else Object(map[])
      case Scalar(_) => None
      case Object(inner) =>
        match SetAt(inner, parts[1..], value)
        case None => None
        case Some(inner') => Some(fields[parts[0] := Object(inner')])
  }

  /** The top-level keys a correction may touch. */
  predicate Correctable(key: string) {
    key == "annotations" || key == "provenance" || "evidence_refs" <= key
  }

  /** What a path under `word` begins with. */
  lemma FirstPart(path: string, word: string)
    requires word != "" && (forall i :: 0 <= i < |word| ==> word[i] != '/') && "/" + word <= path
    ensures Parts(path) != [] && word <= Parts(path)[0]
    ensures |path| == |word| + 1 || path[|word| + 1] == '/' ==> Parts(path)[0] == word
  {
    var s := path[1..];
    assert s[..|word|] == ("/" + word)[1..] == word;
    assert forall i :: 0 <= i < |word| ==> s[i] == word[i];
    assert TokenLength(s) >= |word|;
    assert s[..TokenLength(s)][..|word|] == word;
  }

  /** An allowed path begins at a correctable key. */
  lemma AllowedIsCorrectable(path: string)
    requires PathAllowed(path)
    ensures Parts(path) != [] && Correctable(Parts(path)[0])
  {
    hide Parts;
    if "/evidence_refs" <= path {
      Under(path, "evidence_refs");
    } else if path == "/annotations" || "/annotations/" <= path {
      Under(path, "annotations");
    } else {
      Under(path, "provenance");
    }
  }

  lemma Under(path: string, word: string)
    requires word in {"evidence_refs", "annotations", "provenance"}
    requires if word == "evidence_refs" then "/" + word <= path else path == "/" + word || "/" + word + "/" <= path
    ensures Parts(path) != [] && Correctable(Parts(path)[0])
  {
    hide Parts;
    assert "/" + word + "/" <= path ==> path[|word| + 1] == ("/" + word + "/")[|word| + 1] == '/';
    FirstPart(path, word);
  }

  // ----- The fold

  function ApplyPatch(fields: map<string, Json>, patch: seq<PatchOp>): Option<map<string, Json>>
    requires forall op :: op in patch ==> PathAllowed(op.path)
    decreases |patch|
  {
    if patch == [] then Some(fields)
    else
      AllowedIsCorrectable(patch[0].path);
      match SetAt(fields, Parts(patch[0].path), patch[0].value)
      case None => None
      case Some(next) => ApplyPatch(next, patch[1..])
  }

  function Key(e: Event): seq<string> {
    [e.createdAt, e.eventId]
  }

  /** The chain without `e`. */
  function Others(chain: seq<Event>, e: Event): (r: seq<Event>)
    ensures forall x :: x in r <==> x in chain && x != e
  {
    if chain == [] then []
    else (if chain[0] == e then [] else [chain[0]]) + Others(chain[1..], e)
  }

  lemma AcceptedPatch(e: Event, chain: seq<Event>)
    requires Errors(e, chain) == []
    ensures forall op :: op in e.patch ==> PathAllowed(op.path)
  {
    hide Errors, PathAllowed, Linked;
    ErrorsIff(e, chain);
    assert forall i :: 0 <= i < |e.patch| ==> OpAllowed(e.patch[i]);
  }

  /** The events of `order` in turn, an event that the rest of the chain does not accept being passed over. */
  function Fold(fields: map<string, Json>, order: seq<Event>, chain: seq<Event>): Option<map<string, Json>>
    decreases |order|
  {
    if order == [] then Some(fields)
    else if Errors(order[0], Others(chain, order[0])) != [] then Fold(fields, order[1..], chain)
    else
      AcceptedPatch(order[0], Others(chain, order[0]));
      match ApplyPatch(fields, order[0].patch)
      case None => None
      case Some(next) => Fold(next, order[1..], chain)
  }

  /** `replay_corrections`; `None` when an operation would pass through a value that is not an object. */
  function Replay(original: map<string, Json>, chain: seq<Event>): Option<map<string, Json>> {
    Fold(original, Sorted(chain, By(Key)), chain)
  }

  method ReplayCorrections(original: map<string, Json>, chain: seq<Event>) returns (derived: Option<map<string, Json>>)
    ensures derived == Replay(original, chain)
  {
    hide Errors, ApplyPatch, Others;
    var order := Sorted(chain, By(Key));
    var fields := original;
    for i := 0 to |order|
      invariant Fold(original, order, chain) == Fold(fields, order[i..], chain)
    {
      var event := order[i];
      assert order[i..][0] == event && order[i..][1..] == order[i + 1..];
      var errors := Validate(event, Others(chain, event));
      if errors != [] {
        continue;
      }
      AcceptedPatch(event, Others(chain, event));
      var next := PatchCopy(fields, event.patch);
      if next.None? {
        return None;
      }
      fields := next.value;
    }
    derived := Some(fields);
  }

  method PatchCopy(original: map<string, Json>, patch: seq<PatchOp>) returns (derived: Option<map<string, Json>>)
    requires forall op :: op in patch ==> PathAllowed(op.path)
    ensures derived == ApplyPatch(original, patch)
  {
    hide SetAt, PathAllowed, Correctable;
    var fields := original;
    for i := 0 to |patch|
      invariant ApplyPatch(original, patch) == ApplyPatch(fields, patch[i..])
    {
      assert patch[i..][0] == patch[i] && patch[i..][1..] == patch[i + 1..];
      AllowedIsCorrectable(patch[i].path);
      var next := SetAt(fields, Parts(patch[i].path), patch[i].value);
      if next.None? {
        return None;
      }
      fields := next.value;
    }
    derived := Some(fields);
  }

  // ----- What replay keeps

  /** Every key outside the correctable ones is as it was. */
  ghost predicate KeepsRest(original: map<string, Json>, derived: map<string, Json>) {
    forall key :: !Correctable(key) ==>
      (key in derived <==> key in original) && (key in original ==> derived[key] == original[key])
  }

  lemma SetAtKeepsRest(fields: map<string, Json>, parts: seq<string>, value: Json)
    requires parts != [] && Correctable(parts[0]) && SetAt(fields, parts, value).Some?
    ensures KeepsRest(fields, SetAt(fields, parts, value).value)
  {
    hide Correctable;
  }

  lemma {:induction false} PatchKeepsRest(fields: map<string, Json>, patch: seq<PatchOp>)
    requires (forall op :: op in patch ==> PathAllowed(op.path)) && ApplyPatch(fields, patch).Some?
    ensures KeepsRest(fields, ApplyPatch(fields, patch).value)
    decreases |patch|
  {
    hide PathAllowed, Correctable, SetAt;
    if patch != [] {
      AllowedIsCorrectable(patch[0].path);
      var parts := Parts(patch[0].path);
      SetAtKeepsRest(fields, parts, patch[0].value);
      PatchKeepsRest(SetAt(fields, parts, patch[0].value).value, patch[1..]);
    }
  }

  lemma {:induction false} FoldKeepsRest(fields: map<string, Json>, order: seq<Event>, chain: seq<Event>)
    requires Fold(fields, order, chain).Some?
    ensures KeepsRest(fields, Fold(fields, order, chain).value)
    decreases |order|
  {
    hide Errors, ApplyPatch, Correctable;
    if order != [] {
      var e := order[0];
      if Errors(e, Others(chain, e)) != [] {
        FoldKeepsRest(fields, order[1..], chain);
      } else {
        AcceptedPatch(e, Others(chain, e));
        PatchKeepsRest(fields, e.patch);
        FoldKeepsRest(ApplyPatch(fields, e.patch).value, order[1..], chain);
      }
    }
  }

  /** On any chain, replay changes no top-level key but annotations, provenance and those of evidence_refs. */
  lemma ReplayKeepsRest(original: map<string, Json>, chain: seq<Event>)
    requires Replay(original, chain).Some?
    ensures KeepsRest(original, Replay(original, chain).value)
  {
    FoldKeepsRest(original, Sorted(chain, By(Key)), chain);
  }

  // ----- The order of the chain does not matter

  lemma {:induction false} GraphByMembers(a: seq<Event>, b: seq<Event>)
    requires DistinctIds(a) && DistinctIds(b) && forall e :: e in a <==> e in b
    ensures Graph(a) == Graph(b)
  {
    GraphOfDistinct(a);
    GraphOfDistinct(b);
    forall id | id in Graph(a) ensures id in Graph(b) && Graph(a)[id] == Graph(b)[id] {
      var e :| e in a && e.eventId == id;
      assert e in b;
    }
    forall id | id in Graph(b) ensures id in Graph(a) {
      var e :| e in b && e.eventId == id;
      assert e in a;
    }
  }

  /** Validation looks at the members of a chain with distinct ids, not at their order. */
  lemma ErrorsByMembers(e: Event, a: seq<Event>, b: seq<Event>)
    requires DistinctIds(a) && DistinctIds(b) && forall x :: x in a <==> x in b
    ensures Errors(e, a) == Errors(e, b)
  {
    hide Graph, WalkFindsSeen, ShapeErrors, DistinctIds;
    GraphByMembers(a, b);
    if a != [] {
      assert a[0] in b;
    }
    if b != [] {
      assert b[0] in a;
    }
  }

  lemma {:induction false} OthersDistinct(chain: seq<Event>, e: Event)
    requires DistinctIds(chain)
    ensures DistinctIds(Others(chain, e))
  {
    if chain != [] {
      var rest := Others(chain[1..], e);
      OthersDistinct(chain[1..], e);
      forall x | x in rest ensures x.eventId != chain[0].eventId {
        assert x in chain[1..];
      }
    }
  }

  lemma {:induction false} FoldByMembers(fields: map<string, Json>, order: seq<Event>, a: seq<Event>, b: seq<Event>)
    requires DistinctIds(a) && DistinctIds(b) && forall x :: x in a <==> x in b
    ensures Fold(fields, order, a) == Fold(fields, order, b)
    decreases |order|
  {
    hide Errors, ApplyPatch, DistinctIds;
    if order != [] {
      var e := order[0];
      OthersDistinct(a, e);
      OthersDistinct(b, e);
      ErrorsByMembers(e, Others(a, e), Others(b, e));
      if Errors(e, Others(a, e)) != [] {
        FoldByMembers(fields, order[1..], a, b);
      } else {
        AcceptedPatch(e, Others(a, e));
        var next := ApplyPatch(fields, e.patch);
        if next.Some? {
          FoldByMembers(next.value, order[1..], a, b);
        }
      }
    }
  }

  lemma DistinctKeysOfChain(chain: seq<Event>)
    requires DistinctIds(chain)
    ensures DistinctKeys(multiset(chain), Key)
  {
    forall e ensures multiset(chain)[e] <= 1 {
      DistinctOnce(chain, e);
    }
    forall x, y | x in multiset(chain) && y in multiset(chain) && Key(x) == Key(y) ensures x == y {
      assert Key(x)[1] == Key(y)[1];
      var i :| 0 <= i < |chain| && chain[i] == x;
      var j :| 0 <= j < |chain| && chain[j] == y;
    }
  }

  /** Two orders of the same events, their ids distinct, replay alike. */
  lemma ReplayPermutation(original: map<string, Json>, a: seq<Event>, b: seq<Event>)
    requires multiset(a) == multiset(b) && DistinctIds(a) && DistinctIds(b)
    ensures Replay(original, a) == Replay(original, b)
  {
    hide Sorted, Fold, DistinctIds;
    DistinctKeysOfChain(a);
    SortedPermutation(a, b, Key);
    SameMembers(a, b);
    FoldByMembers(original, Sorted(a, By(Key)), a, b);
  }
}
