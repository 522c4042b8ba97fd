/**
 * What one platform's upserts and clears do to any file whatever: fixpoints and undoing
 * (delivery/scripts/install.py, lines 1138-1176). No condition is put on the user's text here.
 */
module UpsertLaws {
  import opened Wrappers
  import opened Text
  import opened ManagedBlock
  import opened SharedFile

  /** Where the platform's sentinels first occur, nothing of them stands before. */
  lemma NothingBefore(text: string, p: string, i: nat, j: nat)
    requires PlatformName(p) && FindRange(text, p) == Ok(Some((i, j)))
    ensures Absent(BeginPrefix(p), text[..i]) && Absent(EndMarker(p), text[..i])
  {
    hide BeginPrefix, EndMarker;
    BeginIsSentinel(p);
    EndIsSentinel(p);
    AbsentBefore(BeginPrefix(p), text, i);
    AbsentBefore(EndMarker(p), text, i);
  }

  lemma AbsentBefore(n: string, text: string, i: nat)
    requires i <= |text| && n != "" && (Find(text, n).Some? ==> i <= Find(text, n).value)
    ensures Absent(n, text[..i])
  {
    forall k: nat ensures !OccursAt(text[..i], n, k) {
      if k + |n| <= i {
        assert text[..i][k..k + |n|] == text[k..k + |n|];
        assert !OccursAt(text, n, k);
      }
    }
  }

  /** `x` is `r` with a blank line, or with nothing, put after it. */
  predicate Spaced(x: string, r: string) {
    x == r || x == r + "\n\n"
  }

  lemma SpacedFacts(n: string, x: string, r: string)
    requires Spaced(x, r) && !EndsInSpace(r)
    requires Sentinel(n) && Absent(n, r)
    ensures RStrip(x) == r && Absent(n, x)
  {
    RStripUnique(x, r);
    assert n[0] != '\n';
    BlankLineAbsent(n);
    AbsentConcat(n, r, "\n\n");
  }

  lemma BlankLineAbsent(n: string)
    requires Sentinel(n)
    ensures Absent(n, "\n\n")
  {
    forall i: nat ensures !OccursAt("\n\n", n, i) {
      if i + |n| <= 2 {
        assert "\n\n"[i..i + |n|][0] == "\n\n"[i] == '\n';
      }
    }
  }

  /** What follows a block in a file that an upsert wrote. */
  function Following(a: string): string {
    if a == "" then "\n" else "\n\n" + a + "\n"
  }

  lemma FollowingStripped(a: string)
    requires !EndsInSpace(a) && (a != "" ==> !IsNewline(a[0]))
    ensures RStrip(LStripNewlines(Following(a))) == a
  {
    LStripNewlinesConcatAny(a);
    RStripUnique(a + "\n", a);
  }

  lemma LStripNewlinesConcatAny(a: string)
    requires a != "" ==> !IsNewline(a[0])
    ensures LStripNewlines(Following(a)) == if a == "" then "" else a + "\n"
  {
    if a != "" {
      hide LStripNewlines;
      BlankLineStripped();
      LStripNewlinesConcat("\n\n", a + "\n");
      assert "\n\n" + a + "\n" == "\n\n" + (a + "\n");
      assert "" + (a + "\n") == a + "\n";
    } else {
      BlankLineStripped();
    }
  }

  lemma BlankLineStripped()
    ensures LStripNewlines("\n\n") == "" && LStripNewlines("\n") == ""
  {
    assert "\n\n"[1..] == "\n" && "\n"[1..] == "";
    assert LStripNewlines("\n") == "";
  }

  /** The block stands after `r` and before `a`, each set off by a blank line if there is anything there. */
  function Settled(r: string, block: string, a: string): string {
    Glue(r, Glue(block, a)) + "\n"
  }

  lemma SettledParts(r: string, block: string, a: string)
    requires block != ""
    ensures Settled(r, block, a) == (if r == "" then "" else r + "\n\n") + (block + Following(a))
  {
    assert block + ("\n\n" + a) + "\n" == block + ("\n\n" + a + "\n");
  }

  /**
   * A file in which the block of `p` follows `x`, where `x` is `r` with or without a blank line: upserting the
   * block there settles it, and clearing leaves what was around it.
   */
  lemma UpsertSettles(x: string, r: string, p: string, inner: string, a: string)
    requires PlatformName(p) && InnerText(inner) && Spaced(x, r) && !EndsInSpace(r)
    requires Absent(BeginPrefix(p), r) && Absent(EndMarker(p), r)
    requires !EndsInSpace(a) && (a != "" ==> !IsNewline(a[0]))
    ensures UpsertText(Some(x + (BlockOf(p, inner) + Following(a))), BlockOf(p, inner), p)
         == Ok(Settled(r, BlockOf(p, inner), a))
    ensures ClearText(Some(x + (BlockOf(p, inner) + Following(a))), p) == Ok(Some(Glue(r, a) + "\n"))
  {
    hide *;
    var block := BlockOf(p, inner);
    var text := x + (block + Following(a));
    BeginIsSentinel(p);
    EndIsSentinel(p);
    SpacedFacts(BeginPrefix(p), x, r);
    SpacedFacts(EndMarker(p), x, r);
    BlockFound(x, p, inner, Following(a));
    UpsertWhenFound(text, p, |x|, |x| + |block|, block);
    PartsOf(text, x, block, Following(a));
    FollowingStripped(a);
    ReplacedIs(text, |x|, |x| + |block|, block, r, a);
    ReplacedIs(text, |x|, |x| + |block|, "", r, a);
    SettledIs(r, block, a);
  }

  lemma ReplacedIs(text: string, i: nat, j: nat, middle: string, r: string, a: string)
    requires i <= j <= |text| && RStrip(text[..i]) == r && RStrip(LStripNewlines(text[j..])) == a
    ensures Replaced(text, i, j, middle) == Glue(r, Glue(middle, a)) + "\n"
  {
    hide RStrip, LStripNewlines, Glue;
  }

  lemma SettledIs(r: string, block: string, a: string)
    ensures Settled(r, block, a) == Glue(r, Glue(block, a)) + "\n"
    ensures Glue("", a) == a
  {
  }

  lemma SettledIsFixpoint(r: string, p: string, inner: string, a: string)
    requires PlatformName(p) && InnerText(inner) && !EndsInSpace(r)
    requires Absent(BeginPrefix(p), r) && Absent(EndMarker(p), r)
    requires !EndsInSpace(a) && (a != "" ==> !IsNewline(a[0]))
    ensures UpsertText(Some(Settled(r, BlockOf(p, inner), a)), BlockOf(p, inner), p)
         == Ok(Settled(r, BlockOf(p, inner), a))
  {
    hide BlockOf, Settled, Following, InnerText, UpsertText, ClearText, Absent;
    BlockEndsSolid(p, inner);
    SettledParts(r, BlockOf(p, inner), a);
    UpsertSettles(if r == "" then "" else r + "\n\n", r, p, inner, a);
  }

  /**
   * Replacing a block, found through its own or through the legacy sentinels, by the same block again
   * changes nothing, whatever text surrounds it.
   */
  lemma ReplaceIsFixpoint(text: string, p: string, inner: string)
    requires PlatformName(p) && InnerText(inner)
    requires FindRange(text, p).Ok? && FindRange(text, p).value.Some?
    ensures UpsertText(Some(text), BlockOf(p, inner), p).Ok?
    ensures var once := UpsertText(Some(text), BlockOf(p, inner), p);
            UpsertText(Some(once.value), BlockOf(p, inner), p) == once
  {
    hide FindRange, UpsertText, ClearText, BlockOf, InnerText, Absent, Settled;
    var (i, j) := FindRange(text, p).value.value;
    var block := BlockOf(p, inner);
    var r, a := RStrip(text[..i]), RStrip(LStripNewlines(text[j..]));
    NothingBefore(text, p, i, j);
    BeginIsSentinel(p);
    EndIsSentinel(p);
    AbsentPart(BeginPrefix(p), text[..i], 0, |r|);
    AbsentPart(EndMarker(p), text[..i], 0, |r|);
    RStripped(text[..i]);
    NewlinesStripped(text[j..]);
    RStripped(LStripNewlines(text[j..]));
    assert text[..i][0..|r|] == r;
    UpsertWhenFound(text, p, i, j, block);
    ReplacedIs(text, i, j, block, r, a);
    SettledIs(r, block, a);
    assert a != "" ==> a[0] == LStripNewlines(text[j..])[0];
    SettledIsFixpoint(r, p, inner, a);
  }

  /** The file after the first upsert of a platform that it does not know. */
  lemma AppendedParts(text: string, p: string, inner: string) returns (x: string)
    requires PlatformName(p) && InnerText(inner) && FindRange(text, p) == Ok(None)
    ensures Appended(text, BlockOf(p, inner)) == x + (BlockOf(p, inner) + Following(""))
    ensures Spaced(x, RStrip(text))
    ensures x == (if RStrip(text) != "" && !EndsWith(text, "\n\n") then RStrip(text) + "\n\n" else RStrip(text))
    ensures Absent(BeginPrefix(p), RStrip(text)) && Absent(EndMarker(p), RStrip(text))
  {
    hide BlockOf, InnerText, Absent, EndsWith;
    var r, block := RStrip(text), BlockOf(p, inner);
    x := if r != "" && !EndsWith(text, "\n\n") then r + "\n\n" else r;
    AbsentPart(BeginPrefix(p), text, 0, |r|);
    AbsentPart(EndMarker(p), text, 0, |r|);
    RStripped(text);
    assert text[0..|r|] == r;
    AppendedIs(text, block);
    assert r + "" + block + "\n" == r + (block + "\n");
    assert r + "\n\n" + block + "\n" == r + "\n\n" + (block + "\n");
  }

  lemma AppendedIs(text: string, block: string)
    ensures Appended(text, block)
         == if RStrip(text) == "" then block + "\n"
            else if EndsWith(text, "\n\n") then RStrip(text) + "" + block + "\n"
            else RStrip(text) + "\n\n" + block + "\n"
  {
  }

  /**
   * From a file without the block, the second upsert settles the file for good. The first already has, except
   * when there is user text and it ends in a blank line: the separator is then left out.
   */
  lemma AppendIsFixpointUnless(text: string, p: string, inner: string)
    requires PlatformName(p) && InnerText(inner) && FindRange(text, p) == Ok(None)
    ensures UpsertText(Some(text), BlockOf(p, inner), p).Ok?
    ensures var once := UpsertText(Some(text), BlockOf(p, inner), p).value;
            var twice := UpsertText(Some(once), BlockOf(p, inner), p);
            && twice.Ok?
            && UpsertText(Some(twice.value), BlockOf(p, inner), p) == twice
            && (twice.value == once <==> !(RStrip(text) != "" && EndsWith(text, "\n\n")))
  {
    hide FindRange, UpsertText, ClearText, BlockOf, InnerText, Absent, Settled, EndsWith, Appended, Following;
    var r, block := RStrip(text), BlockOf(p, inner);
    RStripped(text);
    var x := AppendedParts(text, p, inner);
    UpsertWhenAbsent(text, p, block);
    UpsertSettles(x, r, p, inner, "");
    SettledIsFixpoint(r, p, inner, "");
    BlockEndsSolid(p, inner);
    SettledParts(r, block, "");
    var tail := block + Following("");
    assert |x + tail| == |x| + |tail|;
  }

  /** Clearing after a first upsert gives back the original text, right-stripped, with one newline. */
  lemma ClearUndoesUpsert(file: Option<string>, p: string, inner: string)
    requires PlatformName(p) && InnerText(inner)
    requires file.Some? ==> FindRange(file.value, p) == Ok(None)
    ensures UpsertText(file, BlockOf(p, inner), p).Ok?
    ensures ClearText(Some(UpsertText(file, BlockOf(p, inner), p).value), p)
         == Ok(Some(RStrip(Characters(file)) + "\n"))
  {
    hide FindRange, UpsertText, ClearText, BlockOf, InnerText, Absent, EndsWith, Appended, Following;
    var block := BlockOf(p, inner);
    var x := "";
    if file.Some? {
      x := AppendedParts(file.value, p, inner);
      UpsertWhenAbsent(file.value, p, block);
    } else {
      UpsertOfAbsentText(p, block);
      EmptyAbsent(p);
    }
    RStripped(Characters(file));
    UpsertSettles(x, RStrip(Characters(file)), p, inner, "");
  }

  lemma UpsertOfAbsentText(p: string, block: string)
    ensures UpsertText(None, block, p) == Ok("" + (block + Following("")))
  {
    assert "" + (block + "\n") == block + "\n";
  }

  lemma EmptyAbsent(p: string)
    ensures Absent(BeginPrefix(p), "") && Absent(EndMarker(p), "")
  {
  }
}
