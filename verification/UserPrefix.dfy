/**
 * What the user wrote stays in front of the file character for character
 * (delivery/scripts/install.py, lines 1138-1176).
 */
module UserPrefix {
  import opened Wrappers
  import opened Text
  import opened ManagedBlock
  import opened SharedFile

  /** The text begins with `h`, and no sentinel lies across the end of `h`. */
  predicate Begins(text: string, h: string) {
    h <= text && Seam(h, text[|h|..])
  }

  /** The text ends in exactly one newline, after something that is no space, or is that newline. */
  predicate Settled(text: string) {
    text == RStrip(text) + "\n"
  }

  /** The file is as the user left it, or settled with the user's right-stripped text in front. */
  ghost predicate Keeps(start: Option<string>, file: Option<string>) {
    file == start
    || (file.Some? && Begins(file.value, RStrip(Characters(start))) && Settled(file.value))
  }

  lemma PrefixStays(h: string, s: string)
    requires h <= s && !EndsInSpace(h)
    ensures h <= RStrip(s)
  {
    hide RStrip;
    RStripped(s);
    if h != "" {
      assert s[|h| - 1] == h[|h| - 1];
    }
  }

  lemma GlueSolid(x: string, y: string)
    requires !EndsInSpace(x) && !EndsInSpace(y)
    ensures !EndsInSpace(Glue(x, y))
  {
  }

  lemma SolidSettles(g: string)
    requires !EndsInSpace(g)
    ensures Settled(g + "\n")
  {
    RStripUnique(g + "\n", g);
  }

  /** Something put after a trimmed part of the text, in a line of its own or as a sentinel. */
  lemma BeginsBefore(text: string, h: string, i: nat, more: string)
    requires Begins(text, h) && !EndsInSpace(h) && |h| <= i <= |text|
    requires more != "" && (more[0] == '\n' || more[0] == '<')
    ensures Begins(RStrip(text[..i]) + more, h)
  {
    hide RStrip;
    var b := RStrip(text[..i]);
    PrefixStays(h, text[..i]);
    RStripped(text[..i]);
    var rest := (b + more)[|h|..];
    if |b| > |h| {
      assert rest[0] == b[|h|] == text[|h|] == text[|h|..][0];
    } else {
      assert rest == more;
    }
    assert h != "" ==> h[|h| - 1] != '\n';
  }

  /** What is found for a platform lies behind the user's text. */
  lemma FoundBehind(text: string, h: string, p: string, i: nat, j: nat)
    requires Begins(text, h) && MarkFree(h) && PlatformName(p)
    ensures FindRange(text, p) == Ok(Some((i, j))) ==> |h| <= i <= j <= |text|
  {
    hide BeginPrefix, EndMarker, Find, OccursAt;
    if FindRange(text, p) != Ok(Some((i, j))) {
      return;
    }
    var n := if OccursAt(text, BeginPrefix(p), i) then BeginPrefix(p) else LEGACY_BEGIN;
    BeginIsSentinel(p);
    LegacyAreSentinels();
    assert OccursAt(text, n, i);
    AbsentLonger(MARK, n, h);
    assert text == h + text[|h|..];
    OccursInConcat(n, h, text[|h|..], i);
  }

  lemma ReplacedKeeps(text: string, h: string, i: nat, j: nat, middle: string)
    requires Begins(text, h) && !EndsInSpace(h) && |h| <= i <= j <= |text| && !EndsInSpace(middle)
    ensures Begins(Replaced(text, i, j, middle), h) && Settled(Replaced(text, i, j, middle))
  {
    hide RStrip, LStripNewlines, Settled, EndsInSpace;
    var b, a := RStrip(text[..i]), RStrip(LStripNewlines(text[j..]));
    RStripped(text[..i]);
    RStripped(LStripNewlines(text[j..]));
    GlueSolid(middle, a);
    GlueSolid(b, Glue(middle, a));
    SolidSettles(Glue(b, Glue(middle, a)));
    PrefixStays(h, text[..i]);
    var tail := Glue(middle, a);
    if b != "" {
      var more := if tail == "" then "\n" else "\n\n" + tail + "\n";
      BeginsBefore(text, h, i, more);
      assert Glue(b, tail) + "\n" == b + more;
    } else {
      assert h == "";
    }
  }

  lemma AppendedKeeps(text: string, h: string, block: string)
    requires Begins(text, h) && !EndsInSpace(h) && block != "" && block[0] == '<' && !EndsInSpace(block)
    ensures Begins(Appended(text, block), h) && Settled(Appended(text, block))
  {
    hide RStrip, Settled, EndsWith;
    var b := RStrip(text);
    var sep := if text != "" && !EndsWith(text, "\n\n") then "\n\n" else "";
    PrefixStays(h, text);
    assert text[..|text|] == text;
    if b != "" {
      BeginsBefore(text, h, |text|, sep + block + "\n");
      assert b + sep + block + "\n" == b + (sep + block + "\n");
      SolidSettles(b + sep + block);
    } else {
      assert h == "";
      SolidSettles(block);
    }
  }

  /** The user's own text is clean, and no block is found in it. */
  lemma StartIsBare(text: string, p: string)
    requires MarkFree(text) && PlatformName(p)
    ensures FindRange(text, p) == Ok(None)
    ensures MarkFree(RStrip(text)) && !EndsInSpace(RStrip(text))
  {
    hide FindRange, Holds;
    HoldsText(text);
    LookupAbsent(text, map[], NonSpace(text), p);
    RStripped(text);
    AbsentPart(MARK, text, 0, |RStrip(text)|);
    assert text[0..|RStrip(text)|] == RStrip(text);
  }

  lemma AppendedToStart(text: string, block: string)
    requires block != "" && block[0] == '<' && !EndsInSpace(block)
    ensures Begins(Appended(text, block), RStrip(text)) && Settled(Appended(text, block))
  {
    hide RStrip, Settled, EndsWith;
    RStripped(text);
    var b := RStrip(text);
    var sep := if text != "" && !EndsWith(text, "\n\n") then "\n\n" else "";
    if b != "" {
      assert b + sep + block + "\n" == b + (sep + block + "\n");
      SolidSettles(b + sep + block);
    } else {
      SolidSettles(block);
    }
  }

  /** One call on a file that keeps the user's text leaves one that does. */
  lemma ApplyKeeps(start: Option<string>, file: Option<string>, op: Op)
    requires start.Some? ==> MarkFree(start.value)
    requires Keeps(start, file) && PlatformName(op.platform)
    ensures Apply(file, op).Ok? ==> Keeps(start, Apply(file, op).value)
  {
    hide FindRange, RenderBlock, MarkFree, RStrip, Begins, Settled, Appended, Replaced, EndsInSpace, Seam;
    var h, p := RStrip(Characters(start)), op.platform;
    HeadIsClean(start, p);
    if op.Upsert? {
      BlockEndsSolid(p, Inner(op.content, op.commit, op.generated));
      RenderIsBlock(op);
    }
    var middle := if op.Upsert? then RenderBlock(p, op.content, op.commit, op.generated) else "";
    if file.Some? && FindRange(file.value, p).Ok? {
      match FindRange(file.value, p).value {
        case Some((i, j)) =>
          FoundBehind(file.value, h, p, i, j);
          EmptyIsSolid();
          ReplacedKeeps(file.value, h, i, j, middle);
        case None =>
          if op.Upsert? {
            if file == start {
              AppendedToStart(file.value, middle);
            } else {
              AppendedKeeps(file.value, h, middle);
            }
          }
      }
    } else if op.Upsert? && file.None? {
      BlockAlone(middle);
    }
  }

  lemma RenderIsBlock(op: Op)
    requires op.Upsert?
    ensures RenderBlock(op.platform, op.content, op.commit, op.generated)
         == BlockOf(op.platform, Inner(op.content, op.commit, op.generated))
  {
  }

  lemma EmptyIsSolid()
    ensures !EndsInSpace("")
  {
  }

  lemma BlockAlone(block: string)
    requires block != "" && !EndsInSpace(block)
    ensures Begins(block + "\n", "") && Settled(block + "\n") && RStrip("") == ""
  {
    SolidSettles(block);
  }

  lemma HeadIsClean(start: Option<string>, p: string)
    requires PlatformName(p) && (start.Some? ==> MarkFree(start.value))
    ensures start.Some? ==> FindRange(start.value, p) == Ok(None)
    ensures MarkFree(RStrip(Characters(start))) && !EndsInSpace(RStrip(Characters(start)))
  {
    hide FindRange, RStrip, MarkFree;
    EmptyIsMarkFree();
    StartIsBare(Characters(start), p);
  }

  lemma {:induction false} RunKeepsUserText(start: Option<string>, file: Option<string>, ops: seq<Op>)
    requires start.Some? ==> MarkFree(start.value)
    requires Keeps(start, file) && forall op :: op in ops ==> PlatformName(op.platform)
    ensures Run(file, ops).Ok? ==> Keeps(start, Run(file, ops).value)
    decreases |ops|
  {
    hide Keeps, Apply, MarkFree, PlatformName;
    if ops != [] {
      if Apply(file, ops[0]).Ok? {
        ApplyKeeps(start, file, ops[0]);
        RunKeepsUserText(start, Apply(file, ops[0]).value, ops[1..]);
      }
    }
  }

  /**
   * Start from no file or from sentinel-free text and let any platforms upsert and clear: the user's text, right-
   * stripped, stays in front of the file character for character.
   */
  lemma UserTextStaysInFront(start: Option<string>, ops: seq<Op>)
    requires start.Some? ==> MarkFree(start.value)
    requires forall op :: op in ops ==> CleanOp(op)
    ensures Run(start, ops).Ok? && RStrip(Characters(start)) <= Characters(Run(start, ops).value)
  {
    hide RStrip, MarkFree, Run, Settled, Holds, Owned, NonSpace;
    StartHolds(start);
    RunRefines(start, map[], NonSpace(Characters(start)), ops);
    assert forall op :: op in ops ==> PlatformName(op.platform);
    RunKeepsUserText(start, start, ops);
    RStripped(Characters(start));
  }

  lemma StartHolds(start: Option<string>)
    requires start.Some? ==> MarkFree(start.value)
    ensures FileHolds(start, map[], NonSpace(Characters(start)))
  {
    hide Holds;
    if start.Some? {
      HoldsText(start.value);
    }
  }

  /** Once every platform has cleared its block, the file is as the user left it, or right-stripped with one newline. */
  lemma ClearedRunRestoresUserText(start: Option<string>, ops: seq<Op>)
    requires start.Some? ==> MarkFree(start.value)
    requires forall op :: op in ops ==> CleanOp(op)
    requires forall p :: LastBlock(ops, p).None?
    ensures Run(start, ops).Ok?
    ensures Run(start, ops).value in {start, Some(RStrip(Characters(start)) + "\n")}
  {
    hide RStrip, MarkFree, Run, Owned, NonSpace, LastBlock;
    ClearedRunKeepsUserText(start, ops);
    assert forall op :: op in ops ==> PlatformName(op.platform);
    RunKeepsUserText(start, start, ops);
    var file := Run(start, ops).value;
    if file != start {
      OnlySpaceBehind(file.value, Characters(start));
    }
  }

  lemma OnlySpaceBehind(text: string, user: string)
    requires Begins(text, RStrip(user)) && Settled(text) && NonSpace(text) == NonSpace(user)
    ensures text == RStrip(user) + "\n"
  {
    hide RStrip, Seam;
    var h := RStrip(user);
    RStripped(user);
    NonSpaceRStrip(user);
    assert text == h + text[|h|..];
    NonSpaceConcat(h, text[|h|..]);
    AllSpace(text[|h|..]);
    RStripUnique(text, h);
  }

  lemma {:induction false} AllSpace(s: string)
    requires NonSpace(s) == ""
    ensures forall i :: 0 <= i < |s| ==> IsSpace(s[i])
  {
    if s != "" {
      AllSpace(s[1..]);
      assert forall i :: 0 < i < |s| ==> s[i] == s[1..][i - 1];
    }
  }
}
