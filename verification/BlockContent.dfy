/** What stands in a platform's block. */
module BlockContent {
  // What stands in a platform's block: the rule content that was put there (delivery/scripts/install.py, lines
  // 844-860 and 1089-1176).
  //
  // The statements here are in terms of the characters of the file, not of the functions that render it.

  import opened Wrappers
  import opened Text
  import opened ManagedBlock
  import opened SharedFile

  // ----- Trimmed text

  /** `t` is `s` without the whitespace around it. */
  ghost predicate TrimOf(t: string, s: string) {
    exists i: nat, j: nat :: TrimAt(t, s, i, j)
  }

  predicate TrimAt(t: string, s: string, i: nat, j: nat) {
    && i <= j <= |s| && t == s[i..j] && Blank(s[..i]) && Blank(s[j..])
    && !EndsInSpace(t) && (t != "" ==> !IsSpace(t[0]))
  }

  lemma StrippedIsTrim(s: string)
    ensures TrimOf(RStrip(LStrip(s)), s)
  {
    hide LStrip, RStrip;
    var l := LStrip(s);
    var i, r := |s| - |l|, RStrip(l);
    LStripped(s);
    RStripped(l);
    assert s[i..] == l && r == l[..|r|] == s[i..i + |r|];
    assert s[i + |r|..] == l[|r|..];
    assert TrimAt(r, s, i, i + |r|);
  }

  /** Text that does not begin with a space need only be trimmed at its end. */
  lemma RStrippedIsTrim(s: string)
    requires s != "" ==> !IsSpace(s[0])
    ensures TrimOf(RStrip(s), s)
  {
    hide RStrip;
    RStripped(s);
    var r := RStrip(s);
    assert r == s[0..|r|];
    assert TrimAt(r, s, 0, |r|);
  }

  /** Whitespace behind the text makes no difference. */
  lemma TrimBeforeBlank(t: string, a: string, w: string)
    requires Blank(w)
    ensures TrimOf(t, a) <==> TrimOf(t, a + w)
  {
    if TrimOf(t, a) {
      var i: nat, j: nat :| TrimAt(t, a, i, j);
      assert (a + w)[i..j] == t && (a + w)[..i] == a[..i] && (a + w)[j..] == a[j..] + w;
      assert TrimAt(t, a + w, i, j);
    }
    if TrimOf(t, a + w) {
      var i: nat, j: nat :| TrimAt(t, a + w, i, j);
      TrimWithinText(t, a, w, i, j);
    }
  }

  lemma LastIsBlank(a: string, w: string, j: nat)
    requires Blank(w) && |a| < j <= |a + w|
    ensures IsSpace((a + w)[j - 1])
  {
  }

  lemma TrimWithinText(t: string, a: string, w: string, i: nat, j: nat)
    requires Blank(w) && TrimAt(t, a + w, i, j)
    ensures TrimOf(t, a)
  {
    var s := a + w;
    if t == "" {
      forall k | 0 <= k < |a| ensures IsSpace(a[k]) {
        assert a[k] == s[k];
        assert k < i ==> s[k] == s[..i][k];
        assert k >= j ==> s[k] == s[j..][k - j];
      }
      assert TrimAt("", a, 0, 0);
    } else {
      if j > |a| {
        LastIsBlank(a, w, j);
      }
      assert s[j - 1] == t[|t| - 1];
      assert a[i..j] == t && a[..i] == s[..i];
      forall k | 0 <= k < |a[j..]| ensures IsSpace(a[j..][k]) {
        assert a[j..][k] == s[j..][k];
      }
      assert TrimAt(t, a, i, j);
    }
  }

  lemma TrimKeepsInk(t: string, s: string)
    requires TrimOf(t, s)
    ensures NonSpace(t) == NonSpace(s)
  {
    var i: nat, j: nat :| TrimAt(t, s, i, j);
    assert s == s[..i] + (t + s[j..]);
    NonSpaceConcat(s[..i], t + s[j..]);
    NonSpaceConcat(t, s[j..]);
    NonSpaceOfSpaces(s[..i]);
    NonSpaceOfSpaces(s[j..]);
  }

  // ----- Front matter

  /** A line `---` opens the content, the first closing fence after it begins at `i`, and `j` is behind that fence. */
  ghost predicate FencedAt(content: string, opening: string, i: nat, j: nat) {
    && opening in {"---\n", "---\r\n"} && opening <= content
    && |opening| <= i && ClosesAt(content, i) && (forall k: nat :: |opening| <= k < i ==> !ClosesAt(content, k))
    && i <= j <= |content| && NonSpace(content[i..j]) == "---"
  }

  /** The front matter of the content ends at `j`; there is none if no line `---` opens it or no fence closes it. */
  ghost predicate FrontEnds(content: string, j: nat) {
    if exists opening, i: nat, k: nat :: FencedAt(content, opening, i, k)
    then exists opening, i: nat :: FencedAt(content, opening, i, j)
    else j == 0
  }

  /** The search for the closing fence stops at the first. */
  lemma {:induction false} CloseFound(s: string, from: nat)
    requires from <= |s|
    ensures CloseFrom(s, from).None? ==> forall k: nat :: from <= k ==> !ClosesAt(s, k)
    ensures CloseFrom(s, from).Some? ==> exists i: nat :: FirstClose(s, from, i, CloseFrom(s, from).value)
    decreases |s| - from
  {
    hide NonSpace;
    if ClosesAt(s, from) {
      FenceInk(s, from, CloseFrom(s, from).value);
      assert FirstClose(s, from, from, CloseFrom(s, from).value);
    } else if from < |s| {
      CloseFound(s, from + 1);
      if CloseFrom(s, from).Some? {
        var i: nat :| FirstClose(s, from + 1, i, CloseFrom(s, from).value);
        assert FirstClose(s, from, i, CloseFrom(s, from).value);
      }
    }
  }

  ghost predicate FirstClose(s: string, from: nat, i: nat, j: nat) {
    && from <= i && ClosesAt(s, i) && (forall k: nat :: from <= k < i ==> !ClosesAt(s, k))
    && i <= j <= |s| && NonSpace(s[i..j]) == "---"
  }

  lemma DashesInk(a: string, b: string)
    requires Blank(a) && Blank(b)
    ensures NonSpace(a + ("---" + b)) == "---"
  {
    NonSpaceConcat(a, "---" + b);
    NonSpaceConcat("---", b);
    NonSpaceOfSpaces(a);
    NonSpaceOfSpaces(b);
    assert "---"[1..] == "--" && "--"[1..] == "-" && "-"[1..] == "";
    assert NonSpace("-") == "-" && NonSpace("--") == "--" && NonSpace("---") == "---";
  }

  /** The fence at `i`, with the line break before it. */
  function FenceAt(s: string, i: nat): string
    requires i < |s|
  {
    if s[i] == '\r' then "\r\n---" else "\n---"
  }

  lemma FenceStands(s: string, i: nat)
    requires ClosesAt(s, i)
    ensures i < |s| && OccursAt(s, FenceAt(s, i), i)
  {
    assert OccursAt(s, "\n---", i) ==> s[i..i + 4][0] == s[i];
    assert OccursAt(s, "\r\n---", i) ==> s[i..i + 5][0] == s[i];
  }

  lemma BreakBehind(s: string, i: nat, j: nat)
    requires i < |s| && ClosesAt(s, i) && CloseFrom(s, i) == Some(j)
    ensures i + |FenceAt(s, i)| <= j <= |s| && Blank(s[i + |FenceAt(s, i)|..j])
  {
  }

  lemma FenceInk(s: string, i: nat, j: nat)
    requires i <= |s| && ClosesAt(s, i) && CloseFrom(s, i) == Some(j)
    ensures i <= j <= |s| && NonSpace(s[i..j]) == "---"
  {
    hide NonSpace, ClosesAt, CloseFrom, Blank;
    FenceStands(s, i);
    BreakBehind(s, i, j);
    var start := if s[i] == '\r' then "\r\n" else "\n";
    var k := i + |FenceAt(s, i)|;
    assert FenceAt(s, i) == start + "---";
    assert s[i..j] == s[i..k] + s[k..j];
    assert s[i..j] == start + ("---" + s[k..j]);
    assert Blank(start) by { BreakIsBlank(); }
    DashesInk(start, s[k..j]);
  }

  lemma BreakIsBlank()
    ensures Blank("\n") && Blank("\r\n") && Blank("")
  {
  }

  /** The expression matches exactly the front matter. */
  lemma FrontMatched(s: string)
    ensures FrontEnds(s, if FrontmatterEnd(s).Some? then FrontmatterEnd(s).value else 0)
  {
    hide CloseFrom, NonSpace, ClosesAt;
    assert "---\n"[3] == '\n' && "---\r\n"[3] == '\r';
    forall opening | opening in {"---\n", "---\r\n"}
      ensures opening <= s <==> OccursAt(s, opening, 0)
    {
      assert opening <= s ==> s[0..|opening|] == opening;
    }
    assert !("---\n" <= s && "---\r\n" <= s);
    if "---\n" <= s {
      CloseFound(s, 4);
    } else if "---\r\n" <= s {
      CloseFound(s, 5);
    }
    if FrontmatterEnd(s).Some? {
      var opening, j := if "---\n" <= s then "---\n" else "---\r\n", FrontmatterEnd(s).value;
      var i: nat :| FirstClose(s, |opening|, i, j);
      assert FencedAt(s, opening, i, j);
    }
  }

  /** Fences end in no space, so whitespace behind the content brings none in. */
  lemma ClosesBeforeBlank(a: string, w: string, i: nat)
    requires Blank(w)
    ensures ClosesAt(a + w, i) <==> ClosesAt(a, i)
  {
    forall fence | fence in {"\n---", "\r\n---"} ensures OccursAt(a + w, fence, i) <==> OccursAt(a, fence, i) {
      if i + |fence| <= |a| {
        assert (a + w)[i..i + |fence|] == a[i..i + |fence|];
      } else if i + |fence| <= |a + w| {
        assert (a + w)[i..i + |fence|][|fence| - 1] == w[i + |fence| - 1 - |a|];
        assert fence[|fence| - 1] == '-';
      }
    }
  }

  lemma FencedBeforeBlank(a: string, w: string, opening: string, i: nat, j: nat)
    requires Blank(w) && j <= |a|
    ensures FencedAt(a + w, opening, i, j) <==> FencedAt(a, opening, i, j)
  {
    hide ClosesAt, NonSpace, Blank;
    forall k: nat ensures ClosesAt(a + w, k) <==> ClosesAt(a, k) {
      ClosesBeforeBlank(a, w, k);
    }
    if i <= j {
      assert (a + w)[i..j] == a[i..j];
    }
    if ClosesAt(a, i) && |opening| <= i {
      CloseFits(a, i);
      assert opening <= a + w <==> opening <= a;
    }
  }

  lemma CloseFits(a: string, i: nat)
    requires ClosesAt(a, i)
    ensures i + 4 <= |a|
  {
  }

  /** Trailing whitespace behind the fence may be cut off. */
  lemma FenceCut(a: string, w: string, opening: string, i: nat, j: nat)
    requires Blank(w) && FencedAt(a + w, opening, i, j) && j > |a|
    ensures FencedAt(a + w, opening, i, |a|)
  {
    hide NonSpace;
    ClosesBeforeBlank(a, w, i);
    CloseFits(a, i);
    assert (a + w)[i..j] == (a + w)[i..|a|] + w[..j - |a|];
    NonSpaceConcat((a + w)[i..|a|], w[..j - |a|]);
    NonSpaceOfSpaces(w[..j - |a|]);
  }

  function Least(i: nat, j: nat): nat { if i <= j then i else j }

  /** Where the front matter ends does not depend on the whitespace at the end of the content. */
  lemma FrontEndsBeforeBlank(a: string, v: string, w: string, j: nat)
    requires Blank(v) && Blank(w) && FrontEnds(a + v, j)
    ensures FrontEnds(a + w, Least(j, |a|))
  {
    hide FencedAt, Blank;
    forall opening, i: nat, k: nat | k <= |a|
      ensures FencedAt(a + w, opening, i, k) <==> FencedAt(a + v, opening, i, k)
    {
      FencedBeforeBlank(a, v, opening, i, k);
      FencedBeforeBlank(a, w, opening, i, k);
    }
    forall opening, i: nat, k: nat | FencedAt(a + v, opening, i, k) && k > |a|
      ensures FencedAt(a + v, opening, i, |a|)
    {
      FenceCut(a, v, opening, i, k);
    }
    forall opening, i: nat, k: nat | FencedAt(a + w, opening, i, k) && k > |a|
      ensures FencedAt(a + w, opening, i, |a|)
    {
      FenceCut(a, w, opening, i, k);
    }
    if exists opening, i: nat, k: nat :: FencedAt(a + w, opening, i, k) {
      var opening, i: nat, k: nat :| FencedAt(a + w, opening, i, k);
      assert FencedAt(a + v, opening, i, Least(k, |a|));
    }
    if exists opening, i: nat, k: nat :: FencedAt(a + v, opening, i, k) {
      var opening, i: nat :| FencedAt(a + v, opening, i, j);
      assert FencedAt(a + w, opening, i, Least(j, |a|));
    }
  }

  // ----- The rendered block

  function Head(platform: string, commit: string, generated: string): string {
    "<!-- myflow:managed:begin platform=" + platform + " v=1 commit=" + commit + " generated=" + generated + " -->\n"
  }

  function AuditLine(commit: string, generated: string): string {
    "<!-- myflow-managed: version=1.0.0 canonical-commit=" + commit + " generated=" + generated + " -->"
  }

  function Tail(platform: string): string {
    "\n<!-- myflow:managed:end platform=" + platform + " -->"
  }

  function Lines(front: string, audit: string, body: string): string {
    (if front == "" then "" else front + "\n") + audit + (if body == "" then "" else "\n\n" + body)
  }

  /** A block with this front matter and this body. */
  function Laid(platform: string, front: string, body: string, commit: string, generated: string): string {
    Head(platform, commit, generated) + Lines(front, AuditLine(commit, generated), body) + Tail(platform)
  }

  /** The block holds the content: its front matter, then its body behind the audit line. */
  ghost predicate Carries(block: string, platform: string, content: string, commit: string, generated: string) {
    exists j: nat, front, body ::
      && Cut(content, j, front, body)
      && block == Laid(platform, front, body, commit, generated)
  }

  /** The content without the whitespace around its two parts. */
  ghost predicate Cut(content: string, j: nat, front: string, body: string) {
    j <= |content| && FrontEnds(content, j) && TrimOf(front, content[..j]) && TrimOf(body, content[j..])
  }

  /** So nothing of the content but whitespace is missing. */
  lemma CutKeepsInk(content: string, j: nat, front: string, body: string)
    requires Cut(content, j, front, body)
    ensures NonSpace(front) + NonSpace(body) == NonSpace(content)
  {
    hide FrontEnds, TrimOf;
    TrimKeepsInk(front, content[..j]);
    TrimKeepsInk(body, content[j..]);
    assert content == content[..j] + content[j..];
    NonSpaceConcat(content[..j], content[j..]);
  }

  lemma SolidThenBlank(a: string, b: string)
    requires a != "" && !EndsInSpace(a)
    ensures RStrip(a + "\n\n" + LStrip(b))
         == a + if RStrip(LStrip(b)) == "" then "" else "\n\n" + RStrip(LStrip(b))
  {
    hide LStrip;
    var l := LStrip(b);
    var r := RStrip(l);
    RStripped(l);
    assert a + "\n\n" + l == a + ("\n\n" + l);
    RStripUnique(a + ("\n\n" + l), a + if r == "" then "" else "\n\n" + r);
  }

  function EndOfFront(s: string): (j: nat)
    ensures j <= |s|
  {
    if FrontmatterEnd(s).Some? then FrontmatterEnd(s).value else 0
  }

  lemma FrontIsSolid(s: string)
    ensures s[..EndOfFront(s)] != "" ==> !IsSpace(s[0])
    ensures FrontmatterEnd(s).Some? ==> RStrip(s[..EndOfFront(s)]) != ""
  {
    hide CloseFrom, RStrip;
    if FrontmatterEnd(s).Some? {
      var x := s[..EndOfFront(s)];
      assert s[0] == '-' by {
        assert OccursAt(s, "---\n", 0) ==> s[0] == s[0..4][0];
        assert OccursAt(s, "---\r\n", 0) ==> s[0] == s[0..5][0];
      }
      RStripped(x);
      assert x != "" && x[0] == '-';
    }
  }

  lemma AuditedIsLines(s: string, commit: string, generated: string)
    ensures RStrip(InjectAudit(s, commit, generated))
         == Lines(RStrip(s[..EndOfFront(s)]), MarkdownAudit(commit, generated), RStrip(LStrip(s[EndOfFront(s)..])))
  {
    hide FrontmatterEnd, RStrip, LStrip, MarkdownAudit;
    var audit, j := MarkdownAudit(commit, generated), EndOfFront(s);
    AuditIsSolid(commit, generated);
    FrontIsSolid(s);
    if FrontmatterEnd(s).Some? {
      var front := RStrip(s[..j]);
      SolidThenBlank(front + "\n" + audit, s[j..]);
    } else {
      assert s[0..] == s && s[..0] == "";
      RStripped("");
      SolidThenBlank(audit, s);
      assert "" + audit == audit;
    }
  }

  lemma AuditIsSolid(commit: string, generated: string)
    ensures MarkdownAudit(commit, generated) != "" && !EndsInSpace(MarkdownAudit(commit, generated))
  {
    var audit := MarkdownAudit(commit, generated);
    assert audit[|audit| - 1] == " -->"[3];
  }

  lemma RenderedIsLaid(p: string, content: string, commit: string, generated: string)
    ensures var s := RStrip(content) + "\n";
            RenderBlock(p, content, commit, generated)
            == Laid(p, RStrip(s[..EndOfFront(s)]), RStrip(LStrip(s[EndOfFront(s)..])), commit, generated)
  {
    hide InjectAudit, RStrip, LStrip, EndOfFront;
    var s := RStrip(content) + "\n";
    AuditedIsLines(s, commit, generated);
    Joined(p, RStrip(s[..EndOfFront(s)]), RStrip(LStrip(s[EndOfFront(s)..])), commit, generated);
  }

  lemma Joined(p: string, front: string, body: string, commit: string, generated: string)
    ensures BeginPrefix(p) + ("v=1 commit=" + commit + " generated=" + generated + " -->\n"
              + Lines(front, MarkdownAudit(commit, generated), body) + "\n") + EndMarker(p)
         == Laid(p, front, body, commit, generated)
  {
    hide BeginPrefix, EndMarker, MarkdownAudit, Lines, Head, AuditLine, Tail;
    HeadIs(p, commit, generated);
    AuditIs(commit, generated);
    TailIs(p);
    Regrouped(BeginPrefix(p), "v=1 commit=" + commit + " generated=" + generated + " -->\n",
              Lines(front, AuditLine(commit, generated), body), "\n", EndMarker(p));
  }

  lemma Regrouped(a: string, b: string, c: string, d: string, e: string)
    ensures a + (b + c + d) + e == (a + b) + c + (d + e)
  {
  }

  lemma HeadIs(p: string, commit: string, generated: string)
    ensures BeginPrefix(p) + ("v=1 commit=" + commit + " generated=" + generated + " -->\n")
         == Head(p, commit, generated)
  {
    var rest := commit + " generated=" + generated + " -->\n";
    assert "v=1 commit=" + commit + " generated=" + generated + " -->\n" == "v=1 commit=" + rest;
    assert BLOCK_BEGIN + " platform=" == "<!-- myflow:managed:begin platform=";
    assert " " + "v=1 commit=" == " v=1 commit=";
    assert BeginPrefix(p) + ("v=1 commit=" + rest) == BLOCK_BEGIN + " platform=" + p + (" " + "v=1 commit=") + rest;
  }

  lemma AuditIs(commit: string, generated: string)
    ensures MarkdownAudit(commit, generated) == AuditLine(commit, generated)
  {
    assert "<!-- myflow-managed: version=" + MANAGED_VERSION + " canonical-commit="
        == "<!-- myflow-managed: version=1.0.0 canonical-commit=";
  }

  lemma TailIs(p: string)
    ensures "\n" + EndMarker(p) == Tail(p)
  {
    assert "\n" + MARK + "end platform=" == "\n<!-- myflow:managed:end platform=";
  }

  /** A rendered block holds the content it was rendered from. */
  lemma RenderedCarries(p: string, content: string, commit: string, generated: string)
    ensures Carries(RenderBlock(p, content, commit, generated), p, content, commit, generated)
  {
    hide InjectAudit, RStrip, LStrip, FrontEnds, TrimOf, Blank, RenderBlock, Laid, FrontmatterEnd;
    var a := RStrip(content);
    var s, w := a + "\n", content[|a|..];
    var j0 := EndOfFront(s);
    var j := Least(j0, |a|);
    RStripped(content);
    BlankRest(content);
    assert content == a + w && Blank("\n") && Blank("") by { BreakIsBlank(); }
    FrontMatched(s);
    FrontEndsBeforeBlank(a, "\n", w, j0);
    var front, body := RStrip(s[..j0]), RStrip(LStrip(s[j0..]));
    FrontIsSolid(s);
    assert s[..j0] != "" ==> s[..j0][0] == s[0];
    RStrippedIsTrim(s[..j0]);
    StrippedIsTrim(s[j0..]);
    var x, v := a[..j], if j0 <= |a| then "" else "\n";
    assert s[..j0] == x + v && content[..j] == x;
    TrimBeforeBlank(front, x, v);
    var y, u := a[j..], if j0 <= |a| then "\n" else "";
    assert s[j0..] == y + u && content[j..] == y + w;
    TrimBeforeBlank(body, y, u);
    TrimBeforeBlank(body, y, w);
    assert Cut(content, j, front, body);
    RenderedIsLaid(p, content, commit, generated);
  }

  lemma BlankRest(s: string)
    ensures Blank(s[|RStrip(s)|..])
  {
    RStripped(s);
  }

  // ----- After any run

  /** The lookup finds a block that holds the content of the upsert. */
  ghost predicate FoundCarrying(text: string, op: Op)
    requires op.Upsert?
  {
    match FindRange(text, op.platform)
    case Ok(Some((i, j))) => Carries(text[i..j], op.platform, op.content, op.commit, op.generated)
    case _ => false
  }

  /** The `n`-th call is the last one of its platform. */
  predicate IsLast(ops: seq<Op>, n: nat) {
    n < |ops| && forall k :: n < k < |ops| ==> ops[k].platform != ops[n].platform
  }

  lemma {:induction false} LastBlockIs(ops: seq<Op>, n: nat)
    requires IsLast(ops, n)
    ensures var op := ops[n];
            LastBlock(ops, op.platform)
            == if op.Clear? then None else Some(RenderBlock(op.platform, op.content, op.commit, op.generated))
    decreases |ops|
  {
    hide RenderBlock;
    if n < |ops| - 1 {
      LastBlockIs(ops[..|ops| - 1], n);
    }
  }

  /**
   * From no file or sentinel-free text, after any run of upserts and clears: the block that the lookup finds for a
   * platform holds the content of the platform's last upsert, and there is none if its last call was a clear.
   */
  lemma AnyRunCarries(start: Option<string>, ops: seq<Op>, n: nat)
    requires start.Some? ==> MarkFree(start.value)
    requires forall op :: op in ops ==> CleanOp(op)
    requires IsLast(ops, n)
    ensures Run(start, ops).Ok?
    ensures var file := Run(start, ops).value;
            if ops[n].Upsert? then file.Some? && FoundCarrying(file.value, ops[n])
            else file.None? || FindRange(file.value, ops[n].platform) == Ok(None)
  {
    hide MarkFree, Run, LastBlock, FindRange, RenderBlock, Carries, NoAngle, PlatformName;
    var op := ops[n];
    assert CleanOp(op);
    AnyRunOwns(start, ops, op.platform);
    LastBlockIs(ops, n);
    if op.Upsert? {
      RenderedCarries(op.platform, op.content, op.commit, op.generated);
      var text, block := Run(start, ops).value.value, RenderBlock(op.platform, op.content, op.commit, op.generated);
      var i: nat :| OwnsOne(text, op.platform, block, i);
    }
  }

  // ----- Blocks of older versions

  /** A block between the sentinels that name no platform. */
  function LegacyBlock(inner: string): string {
    LEGACY_BEGIN + inner + LEGACY_END
  }

  lemma LegacyIsForeign(p: string)
    ensures forall rest: string :: !(BeginPrefix(p) <= LEGACY_BEGIN + rest) && !(BeginPrefix(p) <= LEGACY_END + rest)
    ensures forall rest: string :: !(EndMarker(p) <= LEGACY_BEGIN + rest) && !(EndMarker(p) <= LEGACY_END + rest)
    ensures forall rest: string :: !(LEGACY_END <= LEGACY_BEGIN + rest)
  {
    assert LEGACY_BEGIN[|MARK|] == 'b' && LEGACY_END[|MARK|] == 'e';
    assert LEGACY_BEGIN[|MARK| + 6] == 'v' && LEGACY_END[|MARK| + 4] == '-';
    assert BeginPrefix(p)[|MARK|] == 'b' && BeginPrefix(p)[|MARK| + 6] == 'p';
    assert EndMarker(p)[|MARK|] == 'e' && EndMarker(p)[|MARK| + 4] == 'p';
  }

  /** A sentinel that is none of the legacy ones does not occur in a legacy block and what follows it. */
  lemma AbsentFromLegacy(n: string, inner: string, after: string)
    requires Sentinel(n) && MARK <= n && InnerText(inner) && Absent(n, after)
    requires !(n <= LEGACY_BEGIN + inner) && !(n <= LEGACY_END + after)
    ensures Absent(n, LegacyBlock(inner) + after)
  {
    hide LEGACY_BEGIN, LEGACY_END, Absent, Sentinel;
    LegacyAreSentinels();
    AbsentLonger(MARK, n, inner);
    AbsentAfter(n, LEGACY_BEGIN, inner);
    AbsentAfter(n, LEGACY_END, after);
    AbsentConcat(n, LEGACY_BEGIN + inner, LEGACY_END + after);
    assert LEGACY_BEGIN + inner + (LEGACY_END + after) == LegacyBlock(inner) + after;
  }

  lemma NoneFound(text: string, p: string)
    requires FindRange(text, p) == Ok(None)
    ensures Absent(BeginPrefix(p), text) && Absent(EndMarker(p), text)
    ensures Absent(LEGACY_BEGIN, text) && Absent(LEGACY_END, text)
  {
    hide BeginPrefix, EndMarker, Absent;
  }

  /** In a file whose other blocks name their platforms, the lookup of a platform without one finds the legacy block. */
  lemma LegacyFound(before: string, inner: string, after: string, p: string)
    requires FindRange(before, p) == Ok(None) && FindRange(after, p) == Ok(None)
    requires PlatformName(p) && InnerText(inner)
    ensures FindRange(before + (LegacyBlock(inner) + after), p)
         == Ok(Some((|before|, |before| + |LegacyBlock(inner)|)))
  {
    hide BeginPrefix, EndMarker, LEGACY_BEGIN, LEGACY_END, Absent, Sentinel, Find;
    NoneFound(before, p);
    NoneFound(after, p);
    LegacyIsForeign(p);
    LegacyAreSentinels();
    BeginIsSentinel(p);
    EndIsSentinel(p);
    AbsentFromLegacy(BeginPrefix(p), inner, after);
    AbsentFromLegacy(EndMarker(p), inner, after);
    var rest := LegacyBlock(inner) + after;
    assert rest[0] == '<' by { LegacyStarts(inner, after); }
    AbsentConcat(BeginPrefix(p), before, rest);
    AbsentConcat(EndMarker(p), before, rest);
    SharedFile.Found(LEGACY_BEGIN, LEGACY_END, before, inner, after);
  }

  lemma LegacyStarts(inner: string, after: string)
    ensures LegacyBlock(inner) != "" && (LegacyBlock(inner) + after)[0] == '<'
  {
  }

  /** An upsert puts the block of its platform in the place of the legacy one, and changes nothing else. */
  lemma LegacyMigrates(before: string, m1: map<string, string>, k1: string, legacy: string,
                       after: string, m2: map<string, string>, k2: string, p: string, inner: string)
    requires Holds(before, m1, k1) && Holds(after, m2, k2) && m1.Keys !! m2.Keys && p !in m1 && p !in m2
    requires PlatformName(p) && InnerText(legacy) && InnerText(inner)
    ensures var upserted := UpsertText(Some(before + (LegacyBlock(legacy) + after)), BlockOf(p, inner), p);
            upserted.Ok? && Holds(upserted.value, m1 + map[p := BlockOf(p, inner)] + m2, k1 + k2)
  {
    hide *;
    var text, block := before + (LegacyBlock(legacy) + after), BlockOf(p, inner);
    LookupAbsent(before, m1, k1, p);
    LookupAbsent(after, m2, k2, p);
    LegacyFound(before, legacy, after, p);
    PartsOf(text, before, LegacyBlock(legacy), after);
    UpsertWhenFound(text, p, |before|, |before| + |LegacyBlock(legacy)|, block);
    HoldsBlock(p, inner);
    HoldsReplaced(text, |before|, |before| + |LegacyBlock(legacy)|, m1, k1, m2, k2, block, map[p := block]);
    assert m1 + (map[p := block] + m2) == m1 + map[p := block] + m2;
  }

  // ----- Damaged sentinels

  /** An end marker with no begin before it, or a begin without any end. */
  ghost predicate Unpaired(text: string, begin: string, end: string) {
    || (exists j: nat :: OccursAt(text, end, j) && forall i: nat :: i <= j ==> !OccursAt(text, begin, i))
    || (Absent(end, text) && !Absent(begin, text))
  }

  /**
   * The lookup fails exactly when the sentinels of the platform are not paired, or when the file has none of them
   * and the legacy ones are not paired.
   */
  lemma LookupFailsIff(text: string, p: string)
    ensures FindRange(text, p).Err? <==>
            || Unpaired(text, BeginPrefix(p), EndMarker(p))
            || (Absent(BeginPrefix(p), text) && Absent(EndMarker(p), text) && Unpaired(text, LEGACY_BEGIN, LEGACY_END))
  {
    hide BeginPrefix, EndMarker, LEGACY_BEGIN, LEGACY_END, Unpaired, Find;
    PairFailsIff(text, BeginPrefix(p), EndMarker(p), WrongOrder, Damaged);
    PairFailsIff(text, LEGACY_BEGIN, LEGACY_END, LegacyWrongOrder, LegacyDamaged);
  }

  lemma PairFailsIff(text: string, begin: string, end: string, wrongOrder: SentinelError, damaged: SentinelError)
    ensures Pair(Find(text, begin), Find(text, end), |end|, wrongOrder, damaged).Err? <==> Unpaired(text, begin, end)
    ensures Pair(Find(text, begin), Find(text, end), |end|, wrongOrder, damaged) == Ok(None) <==>
            Absent(begin, text) && Absent(end, text)
  {
    hide OccursAt;
  }
}
