/** Unresolved dynamic writers against their allowlist. */
module Allowlist {
  // Matching the unresolved dynamic writers against their allowlist (meta_flow/checks/detector_qualification.py,
  // lines 1269-1314).

  import opened Ordering
  import Text

  /** A call site of a writer. */
  datatype WriterCall = WriterCall(callId: string, ref: string, line: int, targetKind: string)

  /** An entry of the allowlist, or something without exactly its fields. */
  datatype Item =
    | Malformed
    | Item(callId: string, owner: string, reason: string, evidenceRef: string, evidenceSha: string)

  datatype Finding =
    | FieldsInvalid
    | ValueInvalid(callId: string)
    | Duplicate
    | EvidenceMissing(callId: string)
    | EvidenceDigestInvalid(callId: string)
    | EvidenceDrift(callId: string)
    | NewUnresolvedWriter(callId: string, ref: string, line: int)
    | Stale(callId: string)

  predicate IsSha256(s: string) {
    |s| == 64 && forall i :: 0 <= i < 64 ==> '0' <= s[i] <= '9' || 'a' <= s[i] <= 'f'
  }

  /** `ref.removeprefix("process/")` */
  function EvidencePath(ref: string): string {
    if "process/" <= ref then ref[8..] else ref
  }

  predicate Usable(item: Item) {
    item.Item? && item.callId != "" && !Text.Blank(item.owner) && !Text.Blank(item.reason)
  }

  /** What is wrong with the evidence of a usable entry. */
  function EvidenceFindings(item: Item, files: map<string, string>, digest: string -> string): seq<Finding>
    requires Usable(item)
  {
    var path := EvidencePath(item.evidenceRef);
    if path !in files then [EvidenceMissing(item.callId)]
    else if !IsSha256(item.evidenceSha) then [EvidenceDigestInvalid(item.callId)]
    else if digest(files[path]) != item.evidenceSha then [EvidenceDrift(item.callId)]
    else []
  }

  /** The usable entries by call, a later one hiding an earlier one. */
  function Allowed(items: seq<Item>): (r: map<string, Item>)
    ensures forall id :: id in r <==> exists item :: item in items && Usable(item) && item.callId == id
  {
    hide Usable;
    if items == [] then map[]
    else
      var rest, last := items[..|items| - 1], items[|items| - 1];
      assert items == rest + [last];
      if Usable(last) then
        assert last in items;
        assert last.Item? by { UsableIsItem(last); }
        Allowed(rest)[last.callId := last]
      else Allowed(rest)
  }

  lemma UsableIsItem(item: Item)
    ensures Usable(item) ==> item.Item?
  {
  }

  /** The findings about an entry that comes after others. */
  function ItemFindings(item: Item, before: map<string, Item>, files: map<string, string>, digest: string -> string):
    seq<Finding>
  {
    if item.Malformed? then [FieldsInvalid]
    else if !Usable(item) then [ValueInvalid(item.callId)]
    else (if item.callId in before then [Duplicate] else []) + EvidenceFindings(item, files, digest)
  }

  function AllFindings(items: seq<Item>, files: map<string, string>, digest: string -> string): seq<Finding> {
    if items == [] then []
    else
      var rest := items[..|items| - 1];
      AllFindings(rest, files, digest) + ItemFindings(items[|items| - 1], Allowed(rest), files, digest)
  }

  function Unresolved(calls: seq<WriterCall>): set<string> {
    set c | c in calls && c.targetKind == "dynamic" :: c.callId
  }

  /** One finding for each unresolved call that is not allowed, in their order. */
  function NewWriters(calls: seq<WriterCall>, allowed: set<string>): (r: seq<Finding>)
    ensures r == [] <==> Unresolved(calls) <= allowed
  {
    if calls == [] then []
    else
      var rest, last := calls[..|calls| - 1], calls[|calls| - 1];
      assert calls == rest + [last];
      assert Unresolved(calls) == Unresolved(rest) + if last.targetKind == "dynamic" then {last.callId} else {};
      NewWriters(rest, allowed)
      + if last.targetKind == "dynamic" && last.callId !in allowed
        then [NewUnresolvedWriter(last.callId, last.ref, last.line)] else []
  }

  function IdKey(id: string): seq<string> {
    [id]
  }

  /** `sorted(ids)` of a set. */
  ghost predicate SortedListing(ids: seq<string>, s: set<string>) {
    && (forall id :: id in ids <==> id in s)
    && (forall i, j :: 0 <= i < j < |ids| ==> ids[i] != ids[j])
    && Ascending(ids, IdKey)
  }

  function StaleEntries(ids: seq<string>): seq<Finding> {
    seq(|ids|, i requires 0 <= i < |ids| => Stale(ids[i]))
  }

  /** The findings about the entries, then those about new writers, then those about stale entries. */
  ghost predicate Reports(findings: seq<Finding>, calls: seq<WriterCall>, items: seq<Item>, files: map<string, string>,
                          digest: string -> string) {
    exists stale ::
      && SortedListing(stale, Allowed(items).Keys - Unresolved(calls))
      && findings == AllFindings(items, files, digest) + NewWriters(calls, Allowed(items).Keys) + StaleEntries(stale)
  }

  lemma NextItem(items: seq<Item>, i: nat, files: map<string, string>, digest: string -> string)
    requires i < |items|
    ensures AllFindings(items[..i + 1], files, digest)
         == AllFindings(items[..i], files, digest) + ItemFindings(items[i], Allowed(items[..i]), files, digest)
    ensures Allowed(items[..i + 1])
         == if Usable(items[i]) then Allowed(items[..i])[items[i].callId := items[i]] else Allowed(items[..i])
  {
    hide Usable, ItemFindings;
    UsableIsItem(items[i]);
    assert items[..i + 1][..i] == items[..i];
  }

  method SortIds(s: set<string>) returns (ids: seq<string>)
    ensures SortedListing(ids, s)
  {
    var listed := ListSet(s);
    ids := Sorted(listed, By(IdKey));
    SortedAscending(listed, IdKey);
    SortedDistinct(listed, ids);
    SameMembers(listed, ids);
  }

  /** `qualify_dynamic_allowlist` */
  method QualifyDynamicAllowlist(calls: seq<WriterCall>, items: seq<Item>, files: map<string, string>,
                                 digest: string -> string)
    returns (allowlist: map<string, Item>, findings: seq<Finding>)
    ensures allowlist == Allowed(items)
    ensures Reports(findings, calls, items, files, digest)
  {
    hide Text.Blank, IsSha256, EvidencePath, Unresolved, Allowed, AllFindings, NewWriters, StaleEntries, SortedListing;
    allowlist, findings := map[], [];
    NothingListed(files, digest);
    assert items[..0] == [];
    for i := 0 to |items|
      invariant allowlist == Allowed(items[..i])
      invariant findings == AllFindings(items[..i], files, digest)
    {
      var item := items[i];
      NextItem(items, i, files, digest);
      if item.Malformed? {
        findings := findings + [FieldsInvalid];
        continue;
      }
      if item.callId == "" || Text.Blank(item.owner) || Text.Blank(item.reason) {
        findings := findings + [ValueInvalid(item.callId)];
        continue;
      }
      if item.callId in allowlist {
        findings := findings + [Duplicate];
      }
      var path := EvidencePath(item.evidenceRef);
      if path !in files {
        findings := findings + [EvidenceMissing(item.callId)];
      } else if !IsSha256(item.evidenceSha) {
        findings := findings + [EvidenceDigestInvalid(item.callId)];
      } else if digest(files[path]) != item.evidenceSha {
        findings := findings + [EvidenceDrift(item.callId)];
      }
      allowlist := allowlist[item.callId := item];
    }
    assert items[..|items|] == items;
    var stale := SortIds(allowlist.Keys - Unresolved(calls));
    findings := findings + NewWriters(calls, allowlist.Keys) + StaleEntries(stale);
  }

  /** An entry that is complete and whose evidence has the digest it states. */
  predicate Attested(item: Item, files: map<string, string>, digest: string -> string) {
    && Usable(item)
    && EvidencePath(item.evidenceRef) in files && IsSha256(item.evidenceSha)
    && digest(files[EvidencePath(item.evidenceRef)]) == item.evidenceSha
  }

  predicate SameCall(a: Item, b: Item) {
    Usable(a) && Usable(b) && a.callId == b.callId
  }

  /** Every entry is attested and no two name one call. */
  ghost predicate AllAttested(items: seq<Item>, files: map<string, string>, digest: string -> string) {
    && (forall item :: item in items ==> Attested(item, files, digest))
    && (forall i, j :: 0 <= i < j < |items| ==> !SameCall(items[i], items[j]))
  }

  lemma AttestedSnoc(rest: seq<Item>, last: Item, files: map<string, string>, digest: string -> string)
    ensures AllAttested(rest + [last], files, digest) <==>
            AllAttested(rest, files, digest) && Attested(last, files, digest)
            && forall item :: item in rest ==> !SameCall(item, last)
  {
    hide Attested, SameCall;
    var items := rest + [last];
    assert forall i :: 0 <= i < |rest| ==> items[i] == rest[i];
    assert items[|rest|] == last;
    if AllAttested(items, files, digest) {
      assert forall item :: item in rest ==> item in items;
    }
  }

  lemma ItemFindingsIff(item: Item, before: map<string, Item>, files: map<string, string>, digest: string -> string)
    ensures ItemFindings(item, before, files, digest) == []
       <==> Attested(item, files, digest) && item.callId !in before
  {
    hide Text.Blank, IsSha256, EvidencePath;
  }

  /** A usable entry names an allowed call exactly when an entry before it does. */
  lemma AllowedCalls(before: seq<Item>, item: Item)
    ensures Usable(item) ==>
              (item.callId in Allowed(before) <==> exists other :: other in before && SameCall(other, item))
  {
    hide Text.Blank;
  }

  lemma AttestedIsUsable(item: Item, files: map<string, string>, digest: string -> string)
    ensures Attested(item, files, digest) ==> Usable(item)
  {
  }

  lemma {:induction false} FindingsIff(items: seq<Item>, files: map<string, string>, digest: string -> string)
    ensures AllFindings(items, files, digest) == [] <==> AllAttested(items, files, digest)
  {
    hide AllAttested, Attested, ItemFindings, Usable;
    if items == [] {
      assert AllAttested([], files, digest) by { NothingAttested(files, digest); }
    } else {
      var rest, last := items[..|items| - 1], items[|items| - 1];
      FindingsIff(rest, files, digest);
      ItemFindingsIff(last, Allowed(rest), files, digest);
      AttestedIsUsable(last, files, digest);
      AllowedCalls(rest, last);
      AttestedSnoc(rest, last, files, digest);
      assert items == rest + [last];
    }
  }

  lemma NothingAttested(files: map<string, string>, digest: string -> string)
    ensures AllAttested([], files, digest)
  {
  }

  /**
   * There are no findings exactly when every entry is attested, no two name one call, and the named calls are
   * exactly the unresolved dynamic writers.
   */
  lemma NoFindingsIff(findings: seq<Finding>, calls: seq<WriterCall>, items: seq<Item>, files: map<string, string>,
                      digest: string -> string)
    requires Reports(findings, calls, items, files, digest)
    ensures findings == [] <==> AllAttested(items, files, digest) && Allowed(items).Keys == Unresolved(calls)
  {
    hide AllFindings, AllAttested, Allowed, Unresolved, NewWriters;
    FindingsIff(items, files, digest);
    var stale :| SortedListing(stale, Allowed(items).Keys - Unresolved(calls))
              && findings == AllFindings(items, files, digest) + NewWriters(calls, Allowed(items).Keys)
                             + StaleEntries(stale);
    EmptyListing(stale, Allowed(items).Keys, Unresolved(calls));
  }

  lemma EmptyListing(ids: seq<string>, a: set<string>, b: set<string>)
    requires SortedListing(ids, a - b)
    ensures ids == [] <==> a <= b
  {
    assert ids != [] ==> ids[0] in ids;
    assert forall id :: id in a ==> id in b || id in ids;
  }

  lemma NothingListed(files: map<string, string>, digest: string -> string)
    ensures Allowed([]) == map[] && AllFindings([], files, digest) == []
  {
  }
}
