/**
 * Managed blocks in a rules file that several platforms share
 * (delivery/scripts/install.py, lines 844-860 and 1089-1176).
 *
 * This file holds the text functions. SharedFile proves what any run of them does to the file.
 */
module ManagedBlock {
  import opened Wrappers
  import opened Text

  /** What every sentinel of every platform begins with. */
  const MARK := "<!-- myflow:managed:"

  const BLOCK_BEGIN := MARK + "begin"
  const LEGACY_BEGIN := BLOCK_BEGIN + " v="
  const LEGACY_END := MARK + "end -->"

  function BeginPrefix(platform: string): string {
    BLOCK_BEGIN + " platform=" + platform + " "
  }

  function EndMarker(platform: string): string {
    MARK + "end platform=" + platform + " -->"
  }

  // ----- Rendering

  const MANAGED_VERSION := "1.0.0"

  function MarkdownAudit(commit: string, generated: string): string {
    "<!-- myflow-managed: version=" + MANAGED_VERSION
    + (" canonical-commit=" + commit + " generated=" + generated + " -->")
  }

  /** The closing fence of the front matter, `\r?\n---`, stands at `i`. */
  predicate ClosesAt(s: string, i: nat) {
    OccursAt(s, "\n---", i) || OccursAt(s, "\r\n---", i)
  }

  /** The end of a match of `\r?\n---\r?\n?` at the first place at or after `i` that has one. */
  function CloseFrom(s: string, i: nat): (r: Option<nat>)
    requires i <= |s|
    ensures r.Some? ==> i < r.value <= |s|
    decreases |s| - i
  {
    if ClosesAt(s, i) then
      var fence := if s[i] == '\r' then i + 5 else i + 4;
      var cr := if fence < |s| && s[fence] == '\r' then fence + 1 else fence;
      Some(if cr < |s| && s[cr] == '\n' then cr + 1 else cr)
    else if i == |s| then None
    else CloseFrom(s, i + 1)
  }

  /** `FRONTMATTER_RE.match(s).end()`, the expression being `^---\r?\n(.*?)\r?\n---\r?\n?` with DOTALL. */
  function FrontmatterEnd(s: string): (r: Option<nat>)
    ensures r.Some? ==> r.value <= |s|
  {
    if OccursAt(s, "---\n", 0) then CloseFrom(s, 4)
    else if OccursAt(s, "---\r\n", 0) then CloseFrom(s, 5)
    else None
  }

  function InjectAudit(content: string, commit: string, generated: string): string {
    var audit := MarkdownAudit(commit, generated);
    match FrontmatterEnd(content)
    case None => audit + "\n\n" + LStrip(content)
    case Some(end) => RStrip(content[..end]) + "\n" + audit + "\n\n" + LStrip(content[end..])
  }

  /** What a rendered block holds between its begin prefix and its end marker. */
  function Inner(content: string, commit: string, generated: string): string {
    "v=1 commit=" + commit + " generated=" + generated + " -->\n"
    + RStrip(InjectAudit(RStrip(content) + "\n", commit, generated)) + "\n"
  }

  /** A block of the file: the two sentinels of a platform around an inner text. */
  function BlockOf(platform: string, inner: string): string {
    BeginPrefix(platform) + inner + EndMarker(platform)
  }

  function RenderBlock(platform: string, content: string, commit: string, generated: string): string {
    BlockOf(platform, Inner(content, commit, generated))
  }

  // ----- Looking a block up

  datatype SentinelError = WrongOrder | Damaged | LegacyWrongOrder | LegacyDamaged

  type Found = Result<Option<(nat, nat)>, SentinelError>

  /** Two optional indices make a range, a clean absence, or damage. */
  function Pair(begin: Option<nat>, end: Option<nat>, endLength: nat,
                wrongOrder: SentinelError, damaged: SentinelError): Found
  {
    match (begin, end)
    case (Some(b), Some(e)) => if b > e then Err(wrongOrder) else Ok(Some((b, e + endLength)))
    case (None, None) => Ok(None)
    case _ => Err(damaged)
  }

  function FindRange(content: string, platform: string): (r: Found)
    ensures r.Ok? && r.value.Some? ==> r.value.value.0 <= r.value.value.1 <= |content|
  {
    var endMarker := EndMarker(platform);
    var found := Pair(Find(content, BeginPrefix(platform)), Find(content, endMarker), |endMarker|,
                      WrongOrder, Damaged);
    if found != Ok(None) then found
    else Pair(Find(content, LEGACY_BEGIN), Find(content, LEGACY_END), |LEGACY_END|,
              LegacyWrongOrder, LegacyDamaged)
  }

  // ----- Upsert and clear

  /** Two paragraphs with a blank line between them, an empty one dropped. */
  function Glue(a: string, b: string): string {
    if a == "" then b else if b == "" then a else a + ("\n\n" + b)
  }

  /** `"\n\n".join(part for part in parts if part)` */
  function Join(parts: seq<string>): string {
    if parts == [] then "" else Glue(parts[0], Join(parts[1..]))
  }

  lemma JoinThree(x: string, y: string, z: string)
    ensures Join([x, y, z]) == Glue(x, Glue(y, z))
    ensures Join([y, z]) == Glue(y, z)
  {
    assert [x, y, z][1..] == [y, z] && [y, z][1..] == [z] && [z][1..] == [];
    assert Join([z]) == z && Join([y, z]) == Glue(y, z);
  }

  /** A block put where the file has none. */
  function Appended(existing: string, block: string): string {
    var separator := if existing != "" && !EndsWith(existing, "\n\n") then "\n\n" else "";
    if RStrip(existing) != "" then RStrip(existing) + separator + block + "\n" else block + "\n"
  }

  /** The file with `[begin, end)` replaced by `middle`, re-spaced. */
  function Replaced(existing: string, begin: nat, end: nat, middle: string): string
    requires begin <= end <= |existing|
  {
    Glue(RStrip(existing[..begin]), Glue(middle, RStrip(LStripNewlines(existing[end..])))) + "\n"
  }

  /** The text of the file after an upsert of `block`. */
  function UpsertText(existing: Option<string>, block: string, platform: string): Result<string, SentinelError> {
    match existing
    case None => Ok(block + "\n")
    case Some(text) =>
      match FindRange(text, platform)
      case Err(e) => Err(e)
      case Ok(None) => Ok(Appended(text, block))
      case Ok(Some((begin, end))) => Ok(Replaced(text, begin, end, block))
  }

  /** The text of the file after a clear; `None` when there is no file. */
  function ClearText(existing: Option<string>, platform: string): Result<Option<string>, SentinelError> {
    match existing
    case None => Ok(None)
    case Some(text) =>
      match FindRange(text, platform)
      case Err(e) => Err(e)
      case Ok(None) => Ok(existing)
      case Ok(Some((begin, end))) => Ok(Some(Replaced(text, begin, end, "")))
  }

  // ----- Sentinels in text

  /** A platform name that keeps its sentinels recognisable. */
  predicate PlatformName(platform: string) {
    forall i :: 0 <= i < |platform| ==> platform[i] != '<' && platform[i] != '\n' && platform[i] != ' '
  }

  /** Text that starts with `<` and has no further `<` and no newline: it can overlap no seam below. */
  predicate Sentinel(n: string) {
    n != "" && n[0] == '<' && forall i :: 1 <= i < |n| ==> n[i] != '<' && n[i] != '\n'
  }

  /** No sentinel can lie across the place where `a` and `b` meet. */
  predicate Seam(a: string, b: string) {
    a == "" || b == "" || a[|a| - 1] == '\n' || b[0] == '\n' || b[0] == '<'
  }

  ghost predicate MarkFree(s: string) {
    Absent(MARK, s)
  }

  lemma MarkIsSentinel()
    ensures Sentinel(MARK)
  {
  }

  lemma OccursInConcat(n: string, a: string, b: string, i: nat)
    requires Sentinel(n) && Seam(a, b)
    ensures OccursAt(a + b, n, i) <==> if i < |a| then OccursAt(a, n, i) else OccursAt(b, n, i - |a|)
  {
    if i + |n| <= |a| {
      assert (a + b)[i..i + |n|] == a[i..i + |n|];
    } else if i + |n| <= |a + b| && |a| <= i {
      SliceAfter(a, b, i, |n|);
    } else if i + |n| <= |a + b| {
      var here := (a + b)[i..i + |n|];
      assert here[|a| - 1 - i] == a[|a| - 1] && here[|a| - i] == b[0];
    }
  }

  lemma AbsentConcat(n: string, a: string, b: string)
    requires Sentinel(n) && Seam(a, b) && Absent(n, a) && Absent(n, b)
    ensures Absent(n, a + b)
  {
    forall i: nat ensures !OccursAt(a + b, n, i) {
      OccursInConcat(n, a, b, i);
    }
  }

  lemma AbsentPart(n: string, s: string, i: nat, j: nat)
    requires Absent(n, s) && i <= j <= |s|
    ensures Absent(n, s[i..j])
  {
    forall k: nat ensures !OccursAt(s[i..j], n, k) {
      if k + |n| <= j - i {
        SliceOfSlice(s, i, j, k, |n|);
        assert !OccursAt(s, n, i + k);
      }
    }
  }

  lemma AbsentLonger(n: string, longer: string, s: string)
    requires n <= longer && Absent(n, s)
    ensures Absent(longer, s)
  {
    forall i: nat ensures !OccursAt(s, longer, i) {
      if i + |longer| <= |s| {
        assert s[i..i + |longer|][..|n|] == s[i..i + |n|];
        assert !OccursAt(s, n, i);
      }
    }
  }

  /** After a sentinel, only the sentinel itself can begin a new occurrence before the text that follows it. */
  lemma AbsentAfter(n: string, sentinel: string, s: string)
    requires Sentinel(n) && Sentinel(sentinel) && Absent(n, s) && !(n <= sentinel + s)
    ensures Absent(n, sentinel + s)
  {
    forall i: nat ensures !OccursAt(sentinel + s, n, i) {
      if i + |n| <= |sentinel + s| {
        var here := (sentinel + s)[i..i + |n|];
        if i >= |sentinel| {
          SliceAfter(sentinel, s, i, |n|);
          assert !OccursAt(s, n, i - |sentinel|);
        } else if i > 0 {
          assert here[0] == sentinel[i];
        }
      }
    }
  }

  /** The first occurrence of a sentinel absent from what precedes it. */
  lemma FindAfter(n: string, a: string, b: string)
    requires Sentinel(n) && Seam(a, b) && Absent(n, a) && n <= b
    ensures Find(a + b, n) == Some(|a|)
  {
    assert (a + b)[|a|..|a| + |n|] == b[..|n|];
    assert OccursAt(a + b, n, |a|);
    forall i: nat | i < |a| ensures !OccursAt(a + b, n, i) {
      OccursInConcat(n, a, b, i);
    }
  }

  // ----- Sentinels of different kinds and platforms

  lemma BeginIsSentinel(p: string)
    requires PlatformName(p)
    ensures Sentinel(BeginPrefix(p)) && MARK <= BeginPrefix(p)
  {
  }

  lemma EndIsSentinel(p: string)
    requires PlatformName(p)
    ensures Sentinel(EndMarker(p)) && MARK <= EndMarker(p)
    ensures !EndsInSpace(EndMarker(p))
  {
  }

  lemma LegacyAreSentinels()
    ensures Sentinel(LEGACY_BEGIN) && MARK <= LEGACY_BEGIN
    ensures Sentinel(LEGACY_END) && MARK <= LEGACY_END
  {
  }

  /** `n` matches neither sentinel of `platform`, whatever text follows. */
  ghost predicate Foreign(n: string, platform: string) {
    forall rest: string :: !(n <= BeginPrefix(platform) + rest) && !(n <= EndMarker(platform) + rest)
  }

  /** A name cut off at its first space is the whole name. */
  lemma NamesDiffer(p: string, q: string, x: string, y: string)
    requires PlatformName(p) && PlatformName(q) && x != "" && y != "" && x[0] == ' ' && y[0] == ' '
    requires p + x <= q + y
    ensures p == q
  {
    assert (p + x)[|p|] == ' ' && (q + y)[|q|] == ' ';
    assert |p| == |q|;
    assert forall i :: 0 <= i < |p| ==> p[i] == (p + x)[i] == (q + y)[i] == q[i];
  }

  lemma DropCommon(a: string, x: string, y: string)
    requires a + x <= a + y
    ensures x <= y
  {
    assert x == (a + x)[|a|..] && y == (a + y)[|a|..];
  }

  lemma PlatformsForeign(p: string, q: string)
    requires PlatformName(p) && PlatformName(q) && p != q
    ensures Foreign(BeginPrefix(p), q) && Foreign(EndMarker(p), q)
  {
    hide PlatformName, BeginPrefix, EndMarker;
    forall rest: string
      ensures !(BeginPrefix(p) <= BeginPrefix(q) + rest) && !(BeginPrefix(p) <= EndMarker(q) + rest)
      ensures !(EndMarker(p) <= BeginPrefix(q) + rest) && !(EndMarker(p) <= EndMarker(q) + rest)
    {
      BeginEndDiffer(p, q, rest);
      BeginsDiffer(p, q, rest);
      EndsDiffer(p, q, rest);
    }
  }

  lemma BeginsDiffer(p: string, q: string, rest: string)
    requires PlatformName(p) && PlatformName(q) && p != q
    ensures !(BeginPrefix(p) <= BeginPrefix(q) + rest)
  {
    hide PlatformName;
    if BeginPrefix(p) <= BeginPrefix(q) + rest {
      var common := BLOCK_BEGIN + " platform=";
      assert BeginPrefix(p) == common + (p + " ") && BeginPrefix(q) + rest == common + (q + (" " + rest));
      DropCommon(common, p + " ", q + (" " + rest));
      NamesDiffer(p, q, " ", " " + rest);
    }
  }

  lemma EndsDiffer(p: string, q: string, rest: string)
    requires PlatformName(p) && PlatformName(q) && p != q
    ensures !(EndMarker(p) <= EndMarker(q) + rest)
  {
    hide PlatformName;
    if EndMarker(p) <= EndMarker(q) + rest {
      var common := MARK + "end platform=";
      assert EndMarker(p) == common + (p + " -->") && EndMarker(q) + rest == common + (q + (" -->" + rest));
      DropCommon(common, p + " -->", q + (" -->" + rest));
      NamesDiffer(p, q, " -->", " -->" + rest);
    }
  }

  lemma BeginEndDiffer(p: string, q: string, rest: string)
    ensures !(BeginPrefix(p) <= EndMarker(q) + rest) && !(EndMarker(p) <= BeginPrefix(q) + rest)
  {
    assert BeginPrefix(p)[|MARK|] == 'b' && EndMarker(p)[|MARK|] == 'e';
    assert (BeginPrefix(q) + rest)[|MARK|] == 'b' && (EndMarker(q) + rest)[|MARK|] == 'e';
  }

  lemma LegacyForeign(p: string)
    ensures Foreign(LEGACY_BEGIN, p) && Foreign(LEGACY_END, p)
  {
    forall rest: string
      ensures !(LEGACY_BEGIN <= BeginPrefix(p) + rest) && !(LEGACY_BEGIN <= EndMarker(p) + rest)
      ensures !(LEGACY_END <= BeginPrefix(p) + rest) && !(LEGACY_END <= EndMarker(p) + rest)
    {
      assert LEGACY_BEGIN[|MARK|] == 'b' && LEGACY_END[|MARK|] == 'e';
      assert LEGACY_BEGIN[|MARK| + 6] == 'v' && LEGACY_END[|MARK| + 4] == '-';
      assert (BeginPrefix(p) + rest)[|MARK|] == 'b' && (EndMarker(p) + rest)[|MARK|] == 'e';
      assert (BeginPrefix(p) + rest)[|MARK| + 6] == 'p' && (EndMarker(p) + rest)[|MARK| + 4] == 'p';
    }
  }
}
