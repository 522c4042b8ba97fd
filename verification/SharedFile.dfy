/** A rules file as a map to blocks. */
module SharedFile {
  // A rules file refines a map from platform to block (delivery/scripts/install.py, lines 1089-1176).
  //
  // The abstract file is text in which blocks stand; every upsert and clear of the real text is a concatenation of
  // such files, so each fact is proved once, about concatenation.

  import opened Wrappers
  import opened Text
  import opened ManagedBlock

  datatype Doc =
    | End(text: string)
    | Then(text: string, platform: string, inner: string, rest: Doc)

  /** The characters of the file. */
  function Content(d: Doc): string {
    match d
    case End(s) => s
    case Then(s, p, inner, rest) => s + (BlockOf(p, inner) + Content(rest))
  }

  /** The abstract value: the block each platform owns. */
  function Blocks(d: Doc): map<string, string> {
    match d
    case End(_) => map[]
    case Then(_, p, inner, rest) => map[p := BlockOf(p, inner)] + Blocks(rest)
  }

  /** What the user wrote: the text outside all blocks. */
  function UserText(d: Doc): string {
    match d
    case End(s) => s
    case Then(s, _, _, rest) => s + UserText(rest)
  }

  function First(d: Doc): string { d.text }

  function Last(d: Doc): string {
    match d
    case End(s) => s
    case Then(_, _, _, rest) => Last(rest)
  }

  ghost predicate InnerText(inner: string) {
    MarkFree(inner) && inner != "" && inner[|inner| - 1] == '\n'
  }

  ghost predicate Valid(d: Doc) {
    match d
    case End(s) => MarkFree(s)
    case Then(s, p, inner, rest) =>
      MarkFree(s) && PlatformName(p) && InnerText(inner) && Valid(rest) && p !in Blocks(rest)
  }

  function Cat(a: Doc, b: Doc): Doc {
    match a
    case End(s) =>
      (match b
       case End(t) => End(s + t)
       case Then(t, p, inner, rest) => Then(s + t, p, inner, rest))
    case Then(s, p, inner, rest) => Then(s, p, inner, Cat(rest, b))
  }

  /** The file with its last text right-stripped. */
  function TrimEnd(d: Doc): Doc {
    match d
    case End(s) => End(RStrip(s))
    case Then(s, p, inner, rest) => Then(s, p, inner, TrimEnd(rest))
  }

  /** The file with its first text left-stripped of line breaks. */
  function TrimStart(d: Doc): Doc { d.(text := LStripNewlines(d.text)) }

  // ----- Concatenation

  lemma {:induction false} ContentCat(a: Doc, b: Doc)
    ensures Content(Cat(a, b)) == Content(a) + Content(b)
  {
    match a
    case End(s) =>
    case Then(s, p, inner, rest) =>
      ContentCat(rest, b);
  }

  lemma {:induction false} UserTextCat(a: Doc, b: Doc)
    ensures UserText(Cat(a, b)) == UserText(a) + UserText(b)
  {
    match a
    case End(s) =>
    case Then(s, p, inner, rest) =>
      UserTextCat(rest, b);
  }

  lemma {:induction false} BlocksCat(a: Doc, b: Doc)
    ensures Blocks(Cat(a, b)) == Blocks(a) + Blocks(b)
  {
    match a
    case End(s) =>
      assert Blocks(a) + Blocks(b) == Blocks(b);
    case Then(s, p, inner, rest) =>
      BlocksCat(rest, b);
      var here := map[p := BlockOf(p, inner)];
      assert here + Blocks(rest) + Blocks(b) == here + (Blocks(rest) + Blocks(b));
  }

  lemma {:induction false} ValidCat(a: Doc, b: Doc)
    requires Valid(a) && Valid(b) && Blocks(a).Keys !! Blocks(b).Keys
    requires Seam(Last(a), First(b))
    ensures Valid(Cat(a, b))
  {
    match a
    case End(s) =>
      MarkIsSentinel();
      AbsentConcat(MARK, s, First(b));
    case Then(s, p, inner, rest) =>
      BlocksCat(rest, b);
      assert p in Blocks(a);
      ValidCat(rest, b);
  }

  lemma {:induction false} ValidTrimEnd(d: Doc)
    requires Valid(d)
    ensures Valid(TrimEnd(d)) && Blocks(TrimEnd(d)) == Blocks(d)
    ensures NonSpace(UserText(TrimEnd(d))) == NonSpace(UserText(d))
  {
    match d
    case End(s) =>
      AbsentPart(MARK, s, 0, |RStrip(s)|);
      RStripped(s);
      assert s[0..|RStrip(s)|] == RStrip(s);
      NonSpaceRStrip(s);
    case Then(s, p, inner, rest) =>
      ValidTrimEnd(rest);
      NonSpaceConcat(s, UserText(rest));
      NonSpaceConcat(s, UserText(TrimEnd(rest)));
  }

  lemma {:induction false} ContentTrimEnd(d: Doc)
    requires Valid(d)
    ensures Content(TrimEnd(d)) == RStrip(Content(d))
  {
    if d.Then? {
      ContentTrimEnd(d.rest);
      BlockEndsSolid(d.platform, d.inner);
      RStripAfterBlock(d.text, BlockOf(d.platform, d.inner), Content(d.rest));
    }
  }

  lemma BlockEndsSolid(p: string, inner: string)
    requires PlatformName(p)
    ensures BlockOf(p, inner) != "" && !EndsInSpace(BlockOf(p, inner)) && BlockOf(p, inner)[0] == '<'
  {
    EndIsSentinel(p);
    var b, e := BeginPrefix(p), EndMarker(p);
    assert (b + inner + e)[|b + inner + e| - 1] == e[|e| - 1];
  }

  lemma RStripAfterBlock(s: string, block: string, tail: string)
    requires block != "" && !EndsInSpace(block)
    ensures RStrip(s + (block + tail)) == s + (block + RStrip(tail))
  {
    assert s + (block + tail) == (s + block) + tail;
    assert s + (block + RStrip(tail)) == (s + block) + RStrip(tail);
    RStripConcat(s + block, tail);
  }

  lemma ValidTrimStart(d: Doc)
    requires Valid(d)
    ensures Valid(TrimStart(d)) && Blocks(TrimStart(d)) == Blocks(d)
    ensures NonSpace(UserText(TrimStart(d))) == NonSpace(UserText(d))
  {
    var s := d.text;
    var t := LStripNewlines(s);
    NewlinesStripped(s);
    AbsentPart(MARK, s, |s| - |t|, |s|);
    assert s[|s| - |t|..|s|] == t;
    NonSpaceLStripNewlines(s);
    if d.Then? {
      NonSpaceConcat(s, UserText(d.rest));
      NonSpaceConcat(t, UserText(d.rest));
    }
  }

  lemma ContentTrimStart(d: Doc)
    requires Valid(d)
    ensures Content(TrimStart(d)) == LStripNewlines(Content(d))
  {
    if d.Then? {
      BlockEndsSolid(d.platform, d.inner);
      LStripNewlinesConcat(d.text, BlockOf(d.platform, d.inner) + Content(d.rest));
    }
  }

  // ----- Finding a block

  /** A sentinel foreign to every block of the file occurs nowhere in it. */
  lemma {:induction false} AbsentFromDoc(n: string, d: Doc)
    requires Valid(d) && Sentinel(n) && MARK <= n
    requires forall p :: p in Blocks(d) ==> Foreign(n, p)
    ensures Absent(n, Content(d))
  {
    AbsentLonger(MARK, n, d.text);
    if d.Then? {
      var rest := Content(d.rest);
      assert forall p :: p in Blocks(d.rest) ==> p in Blocks(d);
      AbsentFromDoc(n, d.rest);
      AbsentLonger(MARK, n, d.inner);
      assert Foreign(n, d.platform);
      BeginIsSentinel(d.platform);
      EndIsSentinel(d.platform);
      AbsentAfter(n, BeginPrefix(d.platform), d.inner);
      AbsentAfter(n, EndMarker(d.platform), rest);
      AbsentConcat(n, BeginPrefix(d.platform) + d.inner, EndMarker(d.platform) + rest);
      assert BeginPrefix(d.platform) + d.inner + (EndMarker(d.platform) + rest) == BlockOf(d.platform, d.inner) + rest;
      AbsentConcat(n, d.text, BlockOf(d.platform, d.inner) + rest);
    }
  }

  lemma AbsentForeign(p: string, d: Doc)
    requires Valid(d) && PlatformName(p) && p !in Blocks(d)
    ensures Absent(BeginPrefix(p), Content(d)) && Absent(EndMarker(p), Content(d))
  {
    ValidNames(d);
    forall q | q in Blocks(d) ensures Foreign(BeginPrefix(p), q) && Foreign(EndMarker(p), q) {
      PlatformsForeign(p, q);
    }
    BeginIsSentinel(p);
    EndIsSentinel(p);
    AbsentFromDoc(BeginPrefix(p), d);
    AbsentFromDoc(EndMarker(p), d);
  }

  lemma {:induction false} ValidNames(d: Doc)
    requires Valid(d)
    ensures forall p :: p in Blocks(d) ==> PlatformName(p)
  {
    if d.Then? {
      ValidNames(d.rest);
    }
  }

  /** A platform without a block is not found, through its own sentinels or through the legacy ones. */
  lemma NotFound(d: Doc, p: string)
    requires Valid(d) && PlatformName(p) && p !in Blocks(d)
    ensures FindRange(Content(d), p) == Ok(None)
  {
    AbsentForeign(p, d);
    forall q | q in Blocks(d) ensures Foreign(LEGACY_BEGIN, q) && Foreign(LEGACY_END, q) {
      LegacyForeign(q);
    }
    LegacyAreSentinels();
    AbsentFromDoc(LEGACY_BEGIN, d);
    AbsentFromDoc(LEGACY_END, d);
  }

  lemma FoundEnd(b: string, e: string, before: string, inner: string, after: string)
    requires Sentinel(b) && Sentinel(e) && MARK <= e && MarkFree(inner)
    requires inner != "" && inner[|inner| - 1] == '\n'
    requires Absent(e, before) && !(e <= b + inner)
    ensures Find(before + (b + inner) + (e + after), e) == Some(|before| + |b + inner|)
  {
    AbsentLonger(MARK, e, inner);
    AbsentAfter(e, b, inner);
    AbsentConcat(e, before, b + inner);
    FindAfter(e, before + (b + inner), e + after);
  }

  lemma Regroup(b: string, e: string, before: string, inner: string, after: string)
    ensures before + (b + inner + e + after) == before + (b + (inner + e + after))
    ensures before + (b + inner + e + after) == before + (b + inner) + (e + after)
  {
  }

  lemma Found(b: string, e: string, before: string, inner: string, after: string)
    requires Sentinel(b) && Sentinel(e) && MARK <= e && MarkFree(inner)
    requires inner != "" && inner[|inner| - 1] == '\n'
    requires Absent(b, before) && Absent(e, before) && !(e <= b + inner)
    ensures Find(before + (b + inner + e + after), b) == Some(|before|)
    ensures Find(before + (b + inner + e + after), e) == Some(|before| + |b + inner|)
  {
    Regroup(b, e, before, inner, after);
    FindAfter(b, before, b + (inner + e + after));
    FoundEnd(b, e, before, inner, after);
  }

  /** Text before a block that holds neither sentinel of the platform does not hide the block. */
  lemma BlockFound(before: string, p: string, inner: string, after: string)
    requires PlatformName(p) && InnerText(inner)
    requires Absent(BeginPrefix(p), before) && Absent(EndMarker(p), before)
    ensures FindRange(before + (BlockOf(p, inner) + after), p)
         == Ok(Some((|before|, |before| + |BlockOf(p, inner)|)))
  {
    hide BeginPrefix, EndMarker, Sentinel, Absent, Find;
    BeginIsSentinel(p);
    EndIsSentinel(p);
    BeginEndDiffer(p, p, inner);
    Found(BeginPrefix(p), EndMarker(p), before, inner, after);
  }

  /** The file cut before and after the block of `p`. */
  lemma {:induction false} Split(d: Doc, p: string)
    requires Valid(d) && p in Blocks(d)
    ensures exists a, inner, b :: SplitsInto(d, p, a, inner, b)
  {
    if d.platform == p {
      assert SplitsInto(d, p, End(d.text), d.inner, d.rest);
    } else {
      Split(d.rest, p);
      var a, inner, b :| SplitsInto(d.rest, p, a, inner, b);
      BlocksCat(a, Then("", p, inner, b));
      assert SplitsInto(d, p, Then(d.text, d.platform, d.inner, a), inner, b);
    }
  }

  ghost predicate SplitsInto(d: Doc, p: string, a: Doc, inner: string, b: Doc) {
    && d == Cat(a, Then("", p, inner, b))
    && Valid(a) && Valid(b) && PlatformName(p) && InnerText(inner)
    && (forall q :: q in Blocks(a) ==> q in Blocks(d) && q != p && q !in Blocks(b))
    && p !in Blocks(b)
  }

  lemma ContentFromBlock(p: string, inner: string, b: Doc)
    ensures Content(Then("", p, inner, b)) == BlockOf(p, inner) + Content(b)
    ensures UserText(Then("", p, inner, b)) == UserText(b)
  {
  }

  lemma FoundAfter(a: Doc, p: string, inner: string, after: string)
    requires Valid(a) && PlatformName(p) && InnerText(inner) && p !in Blocks(a)
    ensures FindRange(Content(a) + (BlockOf(p, inner) + after), p)
         == Ok(Some((|Content(a)|, |Content(a)| + |BlockOf(p, inner)|)))
  {
    hide FindRange, BlockOf, Content, Valid, InnerText;
    AbsentForeign(p, a);
    BlockFound(Content(a), p, inner, after);
  }

  // ----- The abstraction relation

  /** `text` is a well-formed file with exactly these blocks, in which the user wrote `ink` up to whitespace. */
  ghost predicate Holds(text: string, blocks: map<string, string>, ink: string) {
    exists d :: IsDoc(d, text, blocks, ink)
  }

  ghost predicate IsDoc(d: Doc, text: string, blocks: map<string, string>, ink: string) {
    Valid(d) && Content(d) == text && Blocks(d) == blocks && NonSpace(UserText(d)) == ink
  }

  lemma HoldsText(s: string)
    requires MarkFree(s)
    ensures Holds(s, map[], NonSpace(s))
  {
    assert IsDoc(End(s), s, map[], NonSpace(s));
  }

  lemma HoldsBlock(p: string, inner: string)
    requires PlatformName(p) && InnerText(inner)
    ensures Holds(BlockOf(p, inner), map[p := BlockOf(p, inner)], "")
  {
    EmptyIsMarkFree();
    var rest := End("");
    var d := Then("", p, inner, rest);
    assert Valid(rest) && Blocks(rest) == map[] && Content(rest) == "" && UserText(rest) == "";
    assert Valid(d) && Blocks(d) == map[p := BlockOf(p, inner)] && UserText(d) == "";
    ContentFromBlock(p, inner, rest);
    assert IsDoc(d, BlockOf(p, inner), map[p := BlockOf(p, inner)], "");
  }

  lemma EmptyIsMarkFree()
    ensures MarkFree("") && MarkFree("\n") && MarkFree("\n\n")
  {
  }

  lemma HoldsRStrip(s: string, m: map<string, string>, k: string)
    requires Holds(s, m, k)
    ensures Holds(RStrip(s), m, k)
  {
    var d :| IsDoc(d, s, m, k);
    ValidTrimEnd(d);
    ContentTrimEnd(d);
    assert IsDoc(TrimEnd(d), RStrip(s), m, k);
  }

  lemma HoldsLStrip(s: string, m: map<string, string>, k: string)
    requires Holds(s, m, k)
    ensures Holds(LStripNewlines(s), m, k)
  {
    var d :| IsDoc(d, s, m, k);
    ValidTrimStart(d);
    ContentTrimStart(d);
    assert IsDoc(TrimStart(d), LStripNewlines(s), m, k);
  }

  /** Two files with no block of the same platform meet where no sentinel can arise. */
  lemma HoldsCat(a: Doc, b: Doc)
    requires Valid(a) && Valid(b) && Blocks(a).Keys !! Blocks(b).Keys && Seam(Last(a), First(b))
    ensures Holds(Content(a) + Content(b), Blocks(a) + Blocks(b),
                  NonSpace(UserText(a)) + NonSpace(UserText(b)))
  {
    ValidCat(a, b);
    BlocksCat(a, b);
    ContentCat(a, b);
    UserTextCat(a, b);
    NonSpaceConcat(UserText(a), UserText(b));
    assert IsDoc(Cat(a, b), Content(a) + Content(b), Blocks(a) + Blocks(b),
                 NonSpace(UserText(a)) + NonSpace(UserText(b)));
  }

  lemma {:induction false} LastOfContent(d: Doc)
    requires Last(d) != ""
    ensures Content(d) != "" && Content(d)[|Content(d)| - 1] == Last(d)[|Last(d)| - 1]
  {
    if d.Then? {
      LastOfContent(d.rest);
    }
  }

  lemma HoldsConcat(s: string, m: map<string, string>, k: string, t: string, n: map<string, string>, l: string)
    requires Holds(s, m, k) && Holds(t, n, l) && m.Keys !! n.Keys && Seam(s, t)
    ensures Holds(s + t, m + n, k + l)
  {
    var a :| IsDoc(a, s, m, k);
    var b :| IsDoc(b, t, n, l);
    hide Valid, Blocks, NonSpace, UserText;
    if Last(a) != "" {
      LastOfContent(a);
    }
    assert First(b) == "" || First(b)[0] == t[0];
    HoldsCat(a, b);
  }

  lemma HoldsGlue(s: string, m: map<string, string>, k: string, t: string, n: map<string, string>, l: string)
    requires Holds(s, m, k) && Holds(t, n, l) && m.Keys !! n.Keys
    ensures Holds(Glue(s, t), m + n, k + l)
  {
    hide Holds;
    if s == "" {
      HoldsEmpty(m, k);
      assert map[] + n == n && k + l == l;
    } else if t == "" {
      HoldsEmpty(n, l);
      assert m + map[] == m && k + "" == k;
    } else {
      HoldsBlankLine(t, n, l);
      assert Seam(s, "\n\n" + t);
      HoldsConcat(s, m, k, "\n\n" + t, n, l);
    }
  }

  lemma HoldsBlankLine(t: string, n: map<string, string>, l: string)
    requires Holds(t, n, l)
    ensures Holds("\n\n" + t, n, l)
  {
    hide Holds, MarkFree;
    EmptyIsMarkFree();
    HoldsText("\n\n");
    HoldsConcat("\n\n", map[], "", t, n, l);
    assert map[] + n == n && "" + l == l;
  }

  lemma HoldsNewline(s: string, m: map<string, string>, k: string)
    requires Holds(s, m, k)
    ensures Holds(s + "\n", m, k)
  {
    hide Holds, MarkFree;
    EmptyIsMarkFree();
    HoldsText("\n");
    HoldsConcat(s, m, k, "\n", map[], "");
    assert m + map[] == m && k + "" == k;
  }

  /** An empty file holds nothing. */
  lemma HoldsEmpty(m: map<string, string>, k: string)
    requires Holds("", m, k)
    ensures m == map[] && k == ""
  {
    var d :| IsDoc(d, "", m, k);
    assert d.End?;
  }

  // ----- Looking up, upserting and clearing

  lemma LookupAbsent(text: string, m: map<string, string>, k: string, p: string)
    requires Holds(text, m, k) && PlatformName(p) && p !in m
    ensures FindRange(text, p) == Ok(None)
  {
    var d :| IsDoc(d, text, m, k);
    NotFound(d, p);
  }

  /** The parts of a file around the block of a platform. */
  lemma Around(text: string, m: map<string, string>, k: string, p: string)
    returns (before: string, m1: map<string, string>, k1: string, after: string, m2: map<string, string>, k2: string)
    requires Holds(text, m, k) && p in m
    ensures text == before + (m[p] + after)
    ensures Holds(before, m1, k1) && Holds(after, m2, k2)
    ensures m == m1 + map[p := m[p]] + m2 && k == k1 + k2
    ensures m1.Keys !! m2.Keys && p !in m1 && p !in m2
    ensures FindRange(text, p) == Ok(Some((|before|, |before| + |m[p]|)))
  {
    hide FindRange, Valid, Content, Blocks, NonSpace, UserText, BlockOf;
    var d :| IsDoc(d, text, m, k);
    Split(d, p);
    var a, inner, b :| SplitsInto(d, p, a, inner, b);
    FoundAfter(a, p, inner, Content(b));
    SplitBlocks(d, a, p, inner, b);
    SplitText(d, a, p, inner, b);
    assert IsDoc(a, Content(a), Blocks(a), NonSpace(UserText(a)));
    assert IsDoc(b, Content(b), Blocks(b), NonSpace(UserText(b)));
    before, m1, k1 := Content(a), Blocks(a), NonSpace(UserText(a));
    after, m2, k2 := Content(b), Blocks(b), NonSpace(UserText(b));
  }

  lemma SplitText(d: Doc, a: Doc, p: string, inner: string, b: Doc)
    requires d == Cat(a, Then("", p, inner, b))
    ensures Content(d) == Content(a) + (BlockOf(p, inner) + Content(b))
    ensures NonSpace(UserText(d)) == NonSpace(UserText(a)) + NonSpace(UserText(b))
  {
    var t := Then("", p, inner, b);
    ContentCat(a, t);
    UserTextCat(a, t);
    NonSpaceConcat(UserText(a), UserText(b));
    ContentFromBlock(p, inner, b);
  }

  lemma SplitBlocks(d: Doc, a: Doc, p: string, inner: string, b: Doc)
    requires d == Cat(a, Then("", p, inner, b)) && p !in Blocks(b)
    ensures p in Blocks(d) && Blocks(d)[p] == BlockOf(p, inner)
    ensures Blocks(d) == Blocks(a) + map[p := Blocks(d)[p]] + Blocks(b)
  {
    var t := Then("", p, inner, b);
    BlocksCat(a, t);
    AddedBetween(Blocks(a), p, BlockOf(p, inner), Blocks(b));
  }

  lemma AddedBetween(m: map<string, string>, p: string, v: string, n: map<string, string>)
    requires p !in n
    ensures m + (map[p := v] + n) == m + map[p := v] + n
    ensures (m + (map[p := v] + n))[p] == v
  {
  }

  /** An upsert succeeds, sets the block of its platform and nothing else. */
  lemma UpsertHolds(text: string, m: map<string, string>, k: string, p: string, inner: string)
    requires Holds(text, m, k) && PlatformName(p) && InnerText(inner)
    ensures UpsertText(Some(text), BlockOf(p, inner), p).Ok?
    ensures Holds(UpsertText(Some(text), BlockOf(p, inner), p).value, m[p := BlockOf(p, inner)], k)
  {
    hide *;
    if p in m {
      var before, m1, k1, after, m2, k2 := Around(text, m, k, p);
      HoldsBlock(p, inner);
      PartsOf(text, before, m[p], after);
      HoldsReplaced(text, |before|, |before| + |m[p]|, m1, k1, m2, k2, BlockOf(p, inner), map[p := BlockOf(p, inner)]);
      ReplacedMap(m, m1, p, m2, BlockOf(p, inner));
      UpsertWhenFound(text, p, |before|, |before| + |m[p]|, BlockOf(p, inner));
    } else {
      LookupAbsent(text, m, k, p);
      HoldsBlock(p, inner);
      BlockEndsSolid(p, inner);
      HoldsAppended(text, m, k, BlockOf(p, inner), map[p := BlockOf(p, inner)]);
      UpsertWhenAbsent(text, p, BlockOf(p, inner));
      assert m + map[p := BlockOf(p, inner)] == m[p := BlockOf(p, inner)];
    }
  }

  lemma UpsertWhenFound(text: string, p: string, i: nat, j: nat, block: string)
    requires FindRange(text, p) == Ok(Some((i, j)))
    ensures UpsertText(Some(text), block, p) == Ok(Replaced(text, i, j, block))
    ensures ClearText(Some(text), p) == Ok(Some(Replaced(text, i, j, "")))
  {
    hide FindRange, Replaced;
  }

  lemma UpsertWhenAbsent(text: string, p: string, block: string)
    requires FindRange(text, p) == Ok(None)
    ensures UpsertText(Some(text), block, p) == Ok(Appended(text, block))
    ensures ClearText(Some(text), p) == Ok(Some(text))
  {
    hide FindRange, Appended;
  }

  lemma PartsOf(text: string, before: string, block: string, after: string)
    requires text == before + (block + after)
    ensures |before| + |block| <= |text| && text[..|before|] == before && text[|before| + |block|..] == after
  {
  }

  lemma ReplacedMap(m: map<string, string>, m1: map<string, string>, p: string, m2: map<string, string>, v: string)
    requires p in m && m == m1 + map[p := m[p]] + m2 && p !in m1 && p !in m2
    ensures m1 + (map[p := v] + m2) == m[p := v]
    ensures m1 + m2 == m - {p}
  {
  }

  /** Replacing what stands between two files by a middle part, or by nothing. */
  lemma HoldsReplaced(text: string, i: nat, j: nat, m1: map<string, string>, k1: string,
                      m2: map<string, string>, k2: string, middle: string, m3: map<string, string>)
    requires i <= j <= |text| && Holds(text[..i], m1, k1) && Holds(text[j..], m2, k2) && Holds(middle, m3, "")
    requires m1.Keys !! m2.Keys && m1.Keys !! m3.Keys && m2.Keys !! m3.Keys
    ensures Holds(Replaced(text, i, j, middle), m1 + (m3 + m2), k1 + k2)
  {
    hide Holds;
    var b, a := RStrip(text[..i]), RStrip(LStripNewlines(text[j..]));
    HoldsRStrip(text[..i], m1, k1);
    HoldsLStrip(text[j..], m2, k2);
    HoldsRStrip(LStripNewlines(text[j..]), m2, k2);
    HoldsGlue(middle, m3, "", a, m2, k2);
    assert "" + k2 == k2;
    HoldsGlue(b, m1, k1, Glue(middle, a), m3 + m2, k2);
    HoldsNewline(Glue(b, Glue(middle, a)), m1 + (m3 + m2), k1 + k2);
  }

  /** Putting a block at the end of a file that does not own one of its platform. */
  lemma HoldsAppended(text: string, m: map<string, string>, k: string, block: string, n: map<string, string>)
    requires Holds(text, m, k) && Holds(block, n, "") && m.Keys !! n.Keys
    requires block != "" && block[0] == '<'
    ensures Holds(Appended(text, block), m + n, k)
  {
    hide Holds;
    var r := RStrip(text);
    HoldsRStrip(text, m, k);
    HoldsNewline(block, n, "");
    assert k + "" == k;
    if r == "" {
      HoldsEmpty(m, k);
      assert map[] + n == n;
    } else if EndsWith(text, "\n\n") {
      HoldsConcat(r, m, k, block + "\n", n, "");
      assert r + "" + block + "\n" == r + (block + "\n");
    } else {
      HoldsBlankLine(block + "\n", n, "");
      HoldsConcat(r, m, k, "\n\n" + (block + "\n"), n, "");
      assert r + "\n\n" + block + "\n" == r + ("\n\n" + (block + "\n"));
    }
  }

  /** A clear removes the block of its platform and nothing else. */
  lemma ClearHolds(text: string, m: map<string, string>, k: string, p: string)
    requires Holds(text, m, k) && PlatformName(p)
    ensures ClearText(Some(text), p).Ok? && ClearText(Some(text), p).value.Some?
    ensures Holds(ClearText(Some(text), p).value.value, m - {p}, k)
  {
    hide *;
    if p in m {
      var before, m1, k1, after, m2, k2 := Around(text, m, k, p);
      EmptyIsMarkFree();
      HoldsText("");
      NonSpaceOfSpaces("");
      PartsOf(text, before, m[p], after);
      HoldsReplaced(text, |before|, |before| + |m[p]|, m1, k1, m2, k2, "", map[]);
      ReplacedMap(m, m1, p, m2, "");
      assert map[] + m2 == m2;
      UpsertWhenFound(text, p, |before|, |before| + |m[p]|, "");
    } else {
      LookupAbsent(text, m, k, p);
      UpsertWhenAbsent(text, p, "");
      assert m - {p} == m;
    }
  }

  // ----- Rendered blocks

  predicate NoAngle(s: string) {
    forall i :: 0 <= i < |s| ==> s[i] != '<'
  }

  lemma NoAngleIsMarkFree(s: string)
    requires NoAngle(s)
    ensures MarkFree(s)
  {
    forall i: nat ensures !OccursAt(s, MARK, i) {
      if i + |MARK| <= |s| {
        assert s[i..i + |MARK|][0] == s[i] != MARK[0];
      }
    }
  }

  lemma AuditIsMarkFree(commit: string, generated: string)
    requires NoAngle(commit) && NoAngle(generated)
    ensures MarkFree(MarkdownAudit(commit, generated)) && MarkdownAudit(commit, generated)[0] == '<'
  {
    var start := "<!-- myflow-managed: version=" + MANAGED_VERSION;
    var rest := " canonical-commit=" + commit + " generated=" + generated + " -->";
    NoAngleIsMarkFree(rest);
    assert MarkdownAudit(commit, generated) == start + rest;
    assert (start + rest)[11] == '-' && MARK[11] == ':';
    MarkIsSentinel();
    AbsentAfter(MARK, start, rest);
  }

  lemma AuditedIsMarkFree(content: string, commit: string, generated: string)
    requires MarkFree(content) && NoAngle(commit) && NoAngle(generated)
    ensures MarkFree(InjectAudit(content, commit, generated))
  {
    hide MarkdownAudit, FrontmatterEnd, RStrip, LStrip, Absent;
    var audit := MarkdownAudit(commit, generated);
    AuditIsMarkFree(commit, generated);
    EmptyIsMarkFree();
    var end := FrontmatterEnd(content).Some? ;
    var cut := if end then FrontmatterEnd(content).value else 0;
    var body := LStrip(content[cut..]);
    MarkFreeStripped(content, cut);
    MarkFreeConcat(audit, "\n\n");
    MarkFreeConcat(audit + "\n\n", body);
    assert content[0..] == content;
    if end {
      var prefix := RStrip(content[..cut]);
      MarkFreeConcat(prefix, "\n");
      MarkFreeConcat(prefix + "\n", audit + "\n\n" + body);
      assert prefix + "\n" + (audit + "\n\n" + body) == prefix + "\n" + audit + "\n\n" + body;
    }
  }

  lemma MarkFreeConcat(a: string, b: string)
    requires MarkFree(a) && MarkFree(b) && Seam(a, b)
    ensures MarkFree(a + b)
  {
    MarkIsSentinel();
    AbsentConcat(MARK, a, b);
  }

  lemma MarkFreeStripped(s: string, cut: nat)
    requires MarkFree(s) && cut <= |s|
    ensures MarkFree(RStrip(s[..cut])) && MarkFree(LStrip(s[cut..]))
  {
    hide Absent, LStrip, RStrip;
    var r, l := RStrip(s[..cut]), LStrip(s[cut..]);
    RStripped(s[..cut]);
    LStripped(s[cut..]);
    AbsentPart(MARK, s, 0, |r|);
    assert s[0..|r|] == r;
    AbsentPart(MARK, s, cut, |s|);
    assert s[cut..|s|] == s[cut..];
    AbsentPart(MARK, s[cut..], |s[cut..]| - |l|, |s[cut..]|);
    assert s[cut..][|s[cut..]| - |l|..|s[cut..]|] == l;
  }

  /** Sentinel-free rule content is rendered to an inner text that cannot be mistaken for a sentinel. */
  lemma InnerIsInnerText(content: string, commit: string, generated: string)
    requires MarkFree(content) && NoAngle(commit) && NoAngle(generated)
    ensures InnerText(Inner(content, commit, generated))
  {
    hide InjectAudit, RStrip, MarkFree;
    var head := "v=1 commit=" + commit + " generated=" + generated + " -->\n";
    NoAngleIsMarkFree(head);
    EmptyIsMarkFree();
    RenderedIsMarkFree(content, commit, generated);
    var body := RStrip(InjectAudit(RStrip(content) + "\n", commit, generated));
    MarkFreeConcat(head, body);
    MarkFreeConcat(head + body, "\n");
  }

  lemma RenderedIsMarkFree(content: string, commit: string, generated: string)
    requires MarkFree(content) && NoAngle(commit) && NoAngle(generated)
    ensures MarkFree(RStrip(InjectAudit(RStrip(content) + "\n", commit, generated)))
  {
    hide *;
    EmptyIsMarkFree();
    MarkFreeStripped(content, |content|);
    assert content[..|content|] == content;
    SeamNewline(RStrip(content));
    MarkFreeConcat(RStrip(content), "\n");
    var audited := InjectAudit(RStrip(content) + "\n", commit, generated);
    AuditedIsMarkFree(RStrip(content) + "\n", commit, generated);
    MarkFreeStripped(audited, |audited|);
    assert audited[..|audited|] == audited;
  }

  lemma SeamNewline(s: string)
    ensures Seam(s, "\n")
  {
  }

  // ----- Any run of upserts and clears

  datatype Op =
    | Upsert(platform: string, content: string, commit: string, generated: string)
    | Clear(platform: string)

  ghost predicate CleanOp(op: Op) {
    PlatformName(op.platform)
    && (op.Upsert? ==> MarkFree(op.content) && NoAngle(op.commit) && NoAngle(op.generated))
  }

  /** One call of `upsert_managed_block` or `clear_managed_block`, on a file that may be absent. */
  function Apply(file: Option<string>, op: Op): Result<Option<string>, SentinelError> {
    match op
    case Clear(p) => ClearText(file, p)
    case Upsert(p, content, commit, generated) =>
      match UpsertText(file, RenderBlock(p, content, commit, generated), p)
      case Err(e) => Err(e)
      case Ok(text) => Ok(Some(text))
  }

  function Run(file: Option<string>, ops: seq<Op>): Result<Option<string>, SentinelError>
    decreases |ops|
  {
    if ops == [] then Ok(file)
    else
      match Apply(file, ops[0])
      case Err(e) => Err(e)
      case Ok(next) => Run(next, ops[1..])
  }

  /** The map from platform to block after a run. */
  function Owned(m: map<string, string>, ops: seq<Op>): map<string, string>
    decreases |ops|
  {
    if ops == [] then m
    else
      match ops[0]
      case Clear(p) => Owned(m - {p}, ops[1..])
      case Upsert(p, content, commit, generated) =>
        Owned(m[p := RenderBlock(p, content, commit, generated)], ops[1..])
  }

  /** The block the last operation on `p` left: none if it was a clear or there was no operation. */
  function LastBlock(ops: seq<Op>, p: string): Option<string> {
    if ops == [] then None
    else
      var last := ops[|ops| - 1];
      if last.platform != p then LastBlock(ops[..|ops| - 1], p)
      else if last.Clear? then None
      else Some(RenderBlock(p, last.content, last.commit, last.generated))
  }

  ghost predicate FileHolds(file: Option<string>, m: map<string, string>, k: string) {
    match file
    case None => m == map[] && k == ""
    case Some(text) => Holds(text, m, k)
  }

  lemma ApplyHolds(file: Option<string>, m: map<string, string>, k: string, op: Op)
    requires FileHolds(file, m, k) && CleanOp(op)
    ensures Apply(file, op).Ok?
    ensures FileHolds(Apply(file, op).value, Owned(m, [op]), k)
  {
    hide Holds, UpsertText, ClearText, MarkFree, NoAngle, Inner;
    var p := op.platform;
    assert Owned(Owned(m, []), []) == m && [op][1..] == [];
    match op
    case Clear(_) =>
      if file.Some? {
        ClearHolds(file.value, m, k, p);
      } else {
        ClearOfAbsent(p);
      }
    case Upsert(_, content, commit, generated) =>
      InnerIsInnerText(content, commit, generated);
      var inner := Inner(content, commit, generated);
      if file.Some? {
        UpsertHolds(file.value, m, k, p, inner);
      } else {
        UpsertOfAbsent(p, inner);
      }
  }

  lemma ClearOfAbsent(p: string)
    ensures ClearText(None, p) == Ok(None)
  {
  }

  lemma UpsertOfAbsent(p: string, inner: string)
    requires PlatformName(p) && InnerText(inner)
    ensures UpsertText(None, BlockOf(p, inner), p).Ok?
    ensures Holds(UpsertText(None, BlockOf(p, inner), p).value, map[][p := BlockOf(p, inner)], "")
  {
    hide Holds;
    HoldsBlock(p, inner);
    HoldsNewline(BlockOf(p, inner), map[p := BlockOf(p, inner)], "");
  }

  /** Every run of clean operations succeeds and does to the file what it does to the map. */
  lemma {:induction false} RunRefines(file: Option<string>, m: map<string, string>, k: string, ops: seq<Op>)
    requires FileHolds(file, m, k) && forall op :: op in ops ==> CleanOp(op)
    ensures Run(file, ops).Ok? && FileHolds(Run(file, ops).value, Owned(m, ops), k)
    decreases |ops|
  {
    hide FileHolds, CleanOp, Apply;
    if ops != [] {
      ApplyHolds(file, m, k, ops[0]);
      RunRefines(Apply(file, ops[0]).value, Owned(m, [ops[0]]), k, ops[1..]);
      OwnedFirst(m, ops);
    }
  }

  lemma OwnedFirst(m: map<string, string>, ops: seq<Op>)
    requires ops != []
    ensures Owned(m, ops) == Owned(Owned(m, [ops[0]]), ops[1..])
  {
    hide RenderBlock;
    assert [ops[0]][1..] == [];
  }

  lemma {:induction false} OwnedLast(m: map<string, string>, ops: seq<Op>, op: Op)
    ensures Owned(m, ops + [op]) == Owned(Owned(m, ops), [op])
    decreases |ops|
  {
    hide RenderBlock;
    if ops == [] {
      assert [] + [op] == [op];
    } else {
      assert (ops + [op])[1..] == ops[1..] + [op];
      OwnedFirst(m, ops);
      OwnedFirst(m, ops + [op]);
      OwnedLast(Owned(m, [ops[0]]), ops[1..], op);
    }
  }

  /** The map says of each platform what its last operation did. */
  lemma {:induction false} OwnedIsLastBlock(ops: seq<Op>, p: string)
    ensures p in Owned(map[], ops) <==> LastBlock(ops, p).Some?
    ensures p in Owned(map[], ops) ==> LastBlock(ops, p) == Some(Owned(map[], ops)[p])
  {
    hide RenderBlock;
    if ops != [] {
      var init, last := ops[..|ops| - 1], ops[|ops| - 1];
      OwnedIsLastBlock(init, p);
      OwnedLast(map[], init, last);
      assert ops == init + [last] && [last][1..] == [];
    }
  }

  // ----- What a reader of the file sees after any run

  /** `text` holds exactly one begin sentinel of `p`, and looking `p` up gives exactly `block`. */
  ghost predicate OwnsOne(text: string, p: string, block: string, i: nat) {
    && OccursAt(text, block, i)
    && FindRange(text, p) == Ok(Some((i, i + |block|)))
    && forall j: nat :: OccursAt(text, BeginPrefix(p), j) <==> j == i
  }

  ghost predicate Owns(file: Option<string>, p: string, block: Option<string>) {
    match (file, block)
    case (None, _) => block.None?
    case (Some(text), None) => FindRange(text, p) == Ok(None)
    case (Some(text), Some(b)) => exists i: nat :: OwnsOne(text, p, b, i)
  }

  lemma OnlyFirst(n: string, s: string, j: nat)
    requires Sentinel(n) && Absent(n, s) && j > 0
    ensures !OccursAt(n + s, n, j)
  {
    if j + |n| <= |n + s| {
      if |n| <= j {
        SliceAfter(n, s, j, |n|);
        assert !OccursAt(s, n, j - |n|);
      } else {
        assert (n + s)[j..j + |n|][0] == n[j];
      }
    }
  }

  lemma OnlyOccurrence(n: string, before: string, rest: string)
    requires Sentinel(n) && Absent(n, before) && Absent(n, rest)
    ensures forall j: nat :: OccursAt(before + (n + rest), n, j) <==> j == |before|
  {
    forall j: nat ensures OccursAt(before + (n + rest), n, j) <==> j == |before| {
      OccursInConcat(n, before, n + rest, j);
      if j > |before| {
        OnlyFirst(n, rest, j - |before|);
      } else if j == |before| {
        assert (n + rest)[0..|n|] == n;
      }
    }
  }

  lemma OneBegin(a: Doc, p: string, inner: string, b: Doc)
    requires Valid(a) && Valid(b) && PlatformName(p) && InnerText(inner) && p !in Blocks(a) && p !in Blocks(b)
    ensures forall j: nat ::
              OccursAt(Content(a) + (BlockOf(p, inner) + Content(b)), BeginPrefix(p), j) <==> j == |Content(a)|
  {
    hide Valid, Blocks, Content, Absent, Sentinel, BeginPrefix, EndMarker, OccursAt;
    AbsentForeign(p, a);
    AbsentForeign(p, b);
    BeginIsSentinel(p);
    EndIsSentinel(p);
    BeginEndDiffer(p, p, Content(b));
    AbsentRest(BeginPrefix(p), inner, EndMarker(p), Content(b));
    OnlyOccurrence(BeginPrefix(p), Content(a), inner + (EndMarker(p) + Content(b)));
    assert BlockOf(p, inner) + Content(b) == BeginPrefix(p) + (inner + (EndMarker(p) + Content(b)));
  }

  lemma AbsentRest(n: string, inner: string, e: string, after: string)
    requires Sentinel(n) && Sentinel(e) && MARK <= n && InnerText(inner)
    requires Absent(n, after) && !(n <= e + after)
    ensures Absent(n, inner + (e + after))
  {
    AbsentLonger(MARK, n, inner);
    AbsentAfter(n, e, after);
    AbsentConcat(n, inner, e + after);
  }

  lemma HoldsOwns(text: string, m: map<string, string>, k: string, p: string)
    requires Holds(text, m, k) && p in m
    ensures Owns(Some(text), p, Some(m[p]))
  {
    hide FindRange, Valid, Content, Blocks, NonSpace, UserText, OccursAt;
    var d :| IsDoc(d, text, m, k);
    var i := DocOwns(d, p);
  }

  lemma DocOwns(d: Doc, p: string) returns (i: nat)
    requires Valid(d) && p in Blocks(d)
    ensures OwnsOne(Content(d), p, Blocks(d)[p], i)
  {
    hide FindRange, BlockOf, InnerText;
    Split(d, p);
    var a, inner, b :| SplitsInto(d, p, a, inner, b);
    i := |Content(a)|;
    FoundAfter(a, p, inner, Content(b));
    SplitBlocks(d, a, p, inner, b);
    SplitText(d, a, p, inner, b);
    OneBegin(a, p, inner, b);
    OccursBetween(Content(a), BlockOf(p, inner), Content(b));
  }

  lemma OccursBetween(a: string, b: string, c: string)
    ensures OccursAt(a + (b + c), b, |a|)
  {
    assert (a + (b + c))[|a|..|a| + |b|] == b;
  }

  /**
   * Start from no file or from sentinel-free user text, and let any platforms upsert and clear in any order:
   * no call fails, and each platform owns exactly the block its own last call left, character for character.
   */
  lemma AnyRunOwns(start: Option<string>, ops: seq<Op>, p: string)
    requires start.Some? ==> MarkFree(start.value)
    requires forall op :: op in ops ==> CleanOp(op)
    requires PlatformName(p)
    ensures Run(start, ops).Ok? && Owns(Run(start, ops).value, p, LastBlock(ops, p))
  {
    hide Holds, MarkFree, CleanOp, Run, Owned, LastBlock, FindRange, OwnsOne;
    var k := if start.Some? then NonSpace(start.value) else "";
    if start.Some? {
      HoldsText(start.value);
    }
    RunRefines(start, map[], k, ops);
    OwnedIsLastBlock(ops, p);
    var m, file := Owned(map[], ops), Run(start, ops).value;
    if file.Some? {
      if p in m {
        HoldsOwns(file.value, m, k, p);
      } else {
        LookupAbsent(file.value, m, k, p);
      }
    }
  }

  function Characters(file: Option<string>): string {
    if file.Some? then file.value else ""
  }

  /** Once every platform has cleared its block, what is left is what the user wrote, up to whitespace. */
  lemma ClearedRunKeepsUserText(start: Option<string>, ops: seq<Op>)
    requires start.Some? ==> MarkFree(start.value)
    requires forall op :: op in ops ==> CleanOp(op)
    requires forall p :: LastBlock(ops, p).None?
    ensures Run(start, ops).Ok?
    ensures NonSpace(Characters(Run(start, ops).value)) == NonSpace(Characters(start))
  {
    hide MarkFree, CleanOp, Run, Owned, Valid, FindRange;
    var k := if start.Some? then NonSpace(start.value) else "";
    if start.Some? {
      HoldsText(start.value);
    }
    RunRefines(start, map[], k, ops);
    var m, file := Owned(map[], ops), Run(start, ops).value;
    forall p ensures p !in m {
      OwnedIsLastBlock(ops, p);
    }
    assert m == map[];
    if file.Some? {
      BarePlainText(file.value, k);
    }
  }

  lemma BarePlainText(text: string, k: string)
    requires Holds(text, map[], k)
    ensures NonSpace(text) == k
  {
    var d :| IsDoc(d, text, map[], k);
    assert d.End?;
  }
}
