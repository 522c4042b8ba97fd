/** What a replay leaves at each path. */
module CorrectionValues {
  // What a replayed correction chain leaves at each path of the document (meta_flow/checks/correction.py, lines
  // 45-53 and 92-105).

  import opened Wrappers
  import opened Ordering
  import opened PosixPath
  import opened Correction
  import opened CorrectionReplay

  /** The value at the end of the path, if there is one. */
  function At(v: Json, parts: seq<string>): Option<Json>
    decreases |parts|
  {
    if parts == [] then Some(v)
    else if v.Object? && parts[0] in v.fields then At(v.fields[parts[0]], parts[1..])
    else None
  }

  /** The paths are the same, or one lies above the other. */
  predicate Meet(a: seq<string>, b: seq<string>) {
    a <= b || b <= a
  }

  // ----- One assignment

  lemma {:induction false} SetAtSets(fields: map<string, Json>, parts: seq<string>, value: Json)
    requires parts != [] && SetAt(fields, parts, value).Some?
    ensures At(Object(SetAt(fields, parts, value).value), parts) == Some(value)
    decreases |parts|
  {
    if |parts| > 1 {
      var inner := if parts[0] in fields then fields[parts[0]] else Object(map[]);
      SetAtSets(inner.fields, parts[1..], value);
    } else {
      assert parts[1..] == [];
    }
  }

  lemma MeetTails(a: seq<string>, b: seq<string>)
    requires a != [] && b != [] && a[0] == b[0]
    ensures Meet(a, b) <==> Meet(a[1..], b[1..])
  {
    assert a == [a[0]] + a[1..] && b == [b[0]] + b[1..];
  }

  lemma {:induction false} SetAtKeeps(fields: map<string, Json>, parts: seq<string>, value: Json, path: seq<string>)
    requires parts != [] && SetAt(fields, parts, value).Some? && !Meet(parts, path)
    ensures At(Object(SetAt(fields, parts, value).value), path) == At(Object(fields), path)
    decreases |parts|
  {
    assert path != [];
    if path[0] == parts[0] {
      MeetTails(parts, path);
      assert parts[1..] != [];
      var inner := if parts[0] in fields then fields[parts[0]] else Object(map[]);
      SetAtKeeps(inner.fields, parts[1..], value, path[1..]);
    }
  }

  /** The assignment fails exactly when something on the way to its place is not an object. */
  lemma {:induction false} SetAtFailsIff(fields: map<string, Json>, parts: seq<string>, value: Json)
    requires parts != []
    ensures SetAt(fields, parts, value).None? <==> exists k :: 0 < k < |parts| && ScalarAt(fields, parts, k)
    decreases |parts|
  {
    if |parts| > 1 {
      var inner := if parts[0] in fields then fields[parts[0]] else Object(map[]);
      forall k | 0 < k < |parts| {
        ScalarBehind(fields, parts, inner, k);
      }
      if inner.Scalar? {
        assert ScalarAt(fields, parts, 1);
      } else {
        SetAtFailsIff(inner.fields, parts[1..], value);
        if exists k :: 0 < k < |parts[1..]| && ScalarAt(inner.fields, parts[1..], k) {
          var k :| 0 < k < |parts[1..]| && ScalarAt(inner.fields, parts[1..], k);
          assert ScalarAt(fields, parts, k + 1);
        }
      }
    }
  }

  lemma ScalarBehind(fields: map<string, Json>, parts: seq<string>, inner: Json, k: nat)
    requires 0 < k < |parts| && inner == if parts[0] in fields then fields[parts[0]] else Object(map[])
    ensures ScalarAt(fields, parts, k)
       <==> if k == 1 then inner.Scalar? else inner.Object? && ScalarAt(inner.fields, parts[1..], k - 1)
  {
    var way := parts[..k];
    assert way[0] == parts[0] && way[1..] == parts[1..][..k - 1];
    assert At(inner, []) == Some(inner);
    assert k == 1 ==> way[1..] == [];
    assert k > 1 ==> At(Object(map[]), way[1..]) == None;
    assert At(Object(fields), way) == if parts[0] in fields then At(inner, way[1..]) else None;
  }

  predicate ScalarAt(fields: map<string, Json>, parts: seq<string>, k: nat)
    requires k <= |parts|
  {
    At(Object(fields), parts[..k]).Some? && At(Object(fields), parts[..k]).value.Scalar?
  }

  // ----- One event

  /** None of the operations from the `i`-th on is at the path, above it or below it. */
  predicate LeavesAlone(patch: seq<PatchOp>, i: nat, path: seq<string>) {
    forall j :: i <= j < |patch| ==> !Meet(Parts(patch[j].path), path)
  }

  lemma {:induction false} PatchKeeps(fields: map<string, Json>, patch: seq<PatchOp>, path: seq<string>)
    requires (forall op :: op in patch ==> PathAllowed(op.path)) && ApplyPatch(fields, patch).Some?
    requires LeavesAlone(patch, 0, path)
    ensures At(Object(ApplyPatch(fields, patch).value), path) == At(Object(fields), path)
    decreases |patch|
  {
    hide PathAllowed, SetAt, Meet, At;
    if patch != [] {
      AllowedIsCorrectable(patch[0].path);
      var parts := Parts(patch[0].path);
      SetAtKeeps(fields, parts, patch[0].value, path);
      assert forall j :: 0 <= j < |patch[1..]| ==> patch[1..][j] == patch[j + 1];
      PatchKeeps(SetAt(fields, parts, patch[0].value).value, patch[1..], path);
    }
  }

  lemma {:induction false} PatchSets(fields: map<string, Json>, patch: seq<PatchOp>, i: nat)
    requires (forall op :: op in patch ==> PathAllowed(op.path)) && ApplyPatch(fields, patch).Some?
    requires i < |patch| && LeavesAlone(patch, i + 1, Parts(patch[i].path))
    ensures At(Object(ApplyPatch(fields, patch).value), Parts(patch[i].path)) == Some(patch[i].value)
    decreases |patch|
  {
    hide PathAllowed, SetAt, Meet, At;
    AllowedIsCorrectable(patch[0].path);
    var parts := Parts(patch[0].path);
    var next := SetAt(fields, parts, patch[0].value).value;
    assert forall j :: 0 <= j < |patch[1..]| ==> patch[1..][j] == patch[j + 1];
    if i == 0 {
      SetAtSets(fields, parts, patch[0].value);
      PatchKeeps(next, patch[1..], parts);
    } else {
      PatchSets(next, patch[1..], i - 1);
    }
  }

  // ----- The chain

  /** The event is well-shaped and linked to the other events of the chain. */
  predicate Counts(chain: seq<Event>, e: Event) {
    WellShaped(e) && Linked(e, Others(chain, e))
  }

  lemma CountsIff(chain: seq<Event>, e: Event)
    ensures Errors(e, Others(chain, e)) == [] <==> Counts(chain, e)
  {
    hide Errors, WellShaped, Linked;
    ErrorsIff(e, Others(chain, e));
  }

  lemma {:induction false} FoldKeeps(fields: map<string, Json>, order: seq<Event>, chain: seq<Event>, path: seq<string>)
    requires Fold(fields, order, chain).Some?
    requires forall e :: e in order && Counts(chain, e) ==> LeavesAlone(e.patch, 0, path)
    ensures At(Object(Fold(fields, order, chain).value), path) == At(Object(fields), path)
    decreases |order|
  {
    hide Errors, ApplyPatch, Counts, LeavesAlone, At;
    if order != [] {
      var e := order[0];
      CountsIff(chain, e);
      assert forall x :: x in order[1..] ==> x in order;
      if Counts(chain, e) {
        AcceptedPatch(e, Others(chain, e));
        PatchKeeps(fields, e.patch, path);
        FoldKeeps(ApplyPatch(fields, e.patch).value, order[1..], chain, path);
      } else {
        FoldKeeps(fields, order[1..], chain, path);
      }
    }
  }

  lemma {:induction false} FoldSets(fields: map<string, Json>, order: seq<Event>, chain: seq<Event>, k: nat, i: nat)
    requires Fold(fields, order, chain).Some?
    requires k < |order| && Counts(chain, order[k]) && i < |order[k].patch|
    requires LeavesAlone(order[k].patch, i + 1, Parts(order[k].patch[i].path))
    requires forall l :: k < l < |order| && Counts(chain, order[l]) ==>
               LeavesAlone(order[l].patch, 0, Parts(order[k].patch[i].path))
    ensures At(Object(Fold(fields, order, chain).value), Parts(order[k].patch[i].path)) == Some(order[k].patch[i].value)
    decreases |order|
  {
    hide Errors, ApplyPatch, Counts, LeavesAlone, At;
    var e, rest := order[0], order[1..];
    CountsIff(chain, e);
    assert forall l :: 0 <= l < |rest| ==> rest[l] == order[l + 1];
    if k == 0 {
      AcceptedPatch(e, Others(chain, e));
      PatchSets(fields, e.patch, i);
      FoldKeeps(ApplyPatch(fields, e.patch).value, rest, chain, Parts(e.patch[i].path));
    } else if Counts(chain, e) {
      AcceptedPatch(e, Others(chain, e));
      FoldSets(ApplyPatch(fields, e.patch).value, rest, chain, k - 1, i);
    } else {
      FoldSets(fields, rest, chain, k - 1, i);
    }
  }

  /** `f` comes no earlier than `e`, by creation time and then by id. */
  predicate NotBefore(f: Event, e: Event) {
    StrLe(e.createdAt, f.createdAt) && (e.createdAt == f.createdAt ==> StrLe(e.eventId, f.eventId))
  }

  lemma KeyOrder(e: Event, f: Event)
    ensures Le(Key(e), Key(f)) <==> NotBefore(f, e)
  {
    StrTotal(e.createdAt, e.createdAt);
    StrTotal(e.eventId, e.eventId);
    assert Key(e)[1..] == [e.eventId] && Key(f)[1..] == [f.eventId];
    assert [e.eventId][1..] == [] && [f.eventId][1..] == [];
    assert Le([e.eventId], [f.eventId]) <==> StrLe(e.eventId, f.eventId);
  }

  lemma {:induction false} LastIndex(order: seq<Event>, e: Event)
    requires e in order
    ensures exists k :: 0 <= k < |order| && order[k] == e && e !in order[k + 1..]
  {
    var last := |order| - 1;
    if order[last] == e {
      assert order[last + 1..] == [];
    } else {
      LastIndex(order[..last], e);
      var k :| 0 <= k < last && order[k] == e && e !in order[..last][k + 1..];
      assert order[k + 1..] == order[..last][k + 1..] + [order[last]];
    }
  }

  /**
   * On any chain whose replay goes through: the path of an operation of an accepted event holds the operation's
   * value, if no later operation of the event and no other accepted event that comes no earlier is at the path,
   * above it or below it.
   */
  lemma LastCorrectionHolds(original: map<string, Json>, chain: seq<Event>, e: Event, i: nat)
    requires Replay(original, chain).Some?
    requires e in chain && Counts(chain, e) && i < |e.patch| && LeavesAlone(e.patch, i + 1, Parts(e.patch[i].path))
    requires forall f :: f in chain && f != e && Counts(chain, f) && NotBefore(f, e) ==>
               LeavesAlone(f.patch, 0, Parts(e.patch[i].path))
    ensures At(Object(Replay(original, chain).value), Parts(e.patch[i].path)) == Some(e.patch[i].value)
  {
    hide Fold, Counts, LeavesAlone, NotBefore, At, Key, Le;
    var order := Sorted(chain, By(Key));
    SortedAscending(chain, Key);
    SameMembers(chain, order);
    LastIndex(order, e);
    var k :| 0 <= k < |order| && order[k] == e && e !in order[k + 1..];
    forall l | k < l < |order| && Counts(chain, order[l])
      ensures LeavesAlone(order[l].patch, 0, Parts(e.patch[i].path))
    {
      assert order[k + 1..][l - k - 1] == order[l] && order[l] in order;
      KeyOrder(e, order[l]);
    }
    FoldSets(original, order, chain, k, i);
  }

  /** A path that no operation of an accepted event meets keeps its original value. */
  lemma UncorrectedStays(original: map<string, Json>, chain: seq<Event>, path: seq<string>)
    requires Replay(original, chain).Some?
    requires forall e :: e in chain && Counts(chain, e) ==> LeavesAlone(e.patch, 0, path)
    ensures At(Object(Replay(original, chain).value), path) == At(Object(original), path)
  {
    hide Fold, Counts, LeavesAlone, At;
    SameMembers(chain, Sorted(chain, By(Key)));
    FoldKeeps(original, Sorted(chain, By(Key)), chain, path);
  }

  // ----- The paths a correction may have

  /** The name behind the slash that begins the path. */
  function FirstName(path: string): string
    requires path != ""
  {
    path[1..][..TokenLength(path[1..])]
  }

  /** A path is allowed exactly when it is a slash followed by a correctable name. */
  lemma PathAllowedIff(path: string)
    ensures PathAllowed(path) <==> path != "" && path[0] == '/' && Correctable(FirstName(path))
  {
    hide FirstName;
    assert "/" + "evidence_refs" == "/evidence_refs";
    assert "/" + "annotations" == "/annotations" && "/" + "annotations" + "/" == "/annotations/";
    assert "/" + "provenance" == "/provenance" && "/" + "provenance" + "/" == "/provenance/";
    if path != "" && path[0] == '/' {
      NameBehindSlash(path, "evidence_refs");
      NameBehindSlash(path, "annotations");
      NameBehindSlash(path, "provenance");
    }
  }

  lemma NameWithin(s: string, word: string)
    requires word <= s && '/' !in word
    ensures |word| <= TokenLength(s)
  {
    assert forall i :: 0 <= i < |word| ==> s[i] == word[i] && s[i] != '/';
  }

  lemma NameBehindSlash(path: string, word: string)
    requires path != "" && path[0] == '/' && '/' !in word
    ensures "/" + word <= path <==> word <= FirstName(path)
    ensures path == "/" + word || "/" + word + "/" <= path <==> word == FirstName(path)
  {
    var s := path[1..];
    var n := TokenLength(s);
    assert path == "/" + s;
    assert "/" + word <= path <==> word <= s by {
      assert "/" + word <= path ==> s[..|word|] == path[1..|word| + 1] == ("/" + word)[1..];
    }
    if word <= s {
      NameWithin(s, word);
      assert s[..n][..|word|] == word;
    }
    if "/" + word + "/" <= path {
      assert path[|word| + 1] == ("/" + word + "/")[|word| + 1] == '/';
      assert "/" + word <= path;
    }
    if word == FirstName(path) && n < |s| {
      assert path[..|word| + 2] == "/" + word + "/";
    }
  }
}
