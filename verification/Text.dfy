/**
 * The Python string operations the installer is built from: `str.isspace`, the three strips, `str.endswith` and
 * `str.find`, each with what its result is determined by. `NonSpace` is what all of them leave alone.
 */
module Text {
  import opened Wrappers

  /** The characters for which `str.isspace` holds. */
  predicate IsSpace(c: char) {
    || '\t' <= c <= '\r'
    || '\U{1c}' <= c <= ' '
    || c == '\U{85}'
    || c == '\U{a0}'
    || c == '\U{1680}'
    || '\U{2000}' <= c <= '\U{200a}'
    || c == '\U{2028}'
    || c == '\U{2029}'
    || c == '\U{202f}'
    || c == '\U{205f}'
    || c == '\U{3000}'
  }

  /** `not s.strip()` */
  predicate Blank(s: string) {
    forall i :: 0 <= i < |s| ==> IsSpace(s[i])
  }

  predicate EndsInSpace(s: string) {
    s != "" && IsSpace(s[|s| - 1])
  }

  /** `s.rstrip()` */
  function RStrip(s: string): (r: string)
    ensures |r| <= |s|
  {
    if EndsInSpace(s) then RStrip(s[..|s| - 1]) else s
  }

  /** The result is the longest prefix that does not end in a space. */
  lemma {:induction false} RStripped(s: string)
    ensures RStrip(s) <= s && !EndsInSpace(RStrip(s))
    ensures forall i :: |RStrip(s)| <= i < |s| ==> IsSpace(s[i])
  {
    if EndsInSpace(s) {
      RStripped(s[..|s| - 1]);
    }
  }

  /** `s.lstrip()` */
  function LStrip(s: string): (r: string)
    ensures |r| <= |s|
  {
    if s != "" && IsSpace(s[0]) then LStrip(s[1..]) else s
  }

  lemma {:induction false} LStripped(s: string)
    ensures LStrip(s) == s[|s| - |LStrip(s)|..]
    ensures LStrip(s) != "" ==> !IsSpace(LStrip(s)[0])
    ensures forall i :: 0 <= i < |s| - |LStrip(s)| ==> IsSpace(s[i])
  {
    if s != "" && IsSpace(s[0]) {
      LStripped(s[1..]);
    }
  }

  predicate IsNewline(c: char) {
    c == '\r' || c == '\n'
  }

  /** `s.lstrip("\r\n")` */
  function LStripNewlines(s: string): (r: string)
    ensures |r| <= |s|
  {
    if s != "" && IsNewline(s[0]) then LStripNewlines(s[1..]) else s
  }

  lemma {:induction false} NewlinesStripped(s: string)
    ensures LStripNewlines(s) == s[|s| - |LStripNewlines(s)|..]
    ensures LStripNewlines(s) != "" ==> !IsNewline(LStripNewlines(s)[0])
    ensures forall i :: 0 <= i < |s| - |LStripNewlines(s)| ==> IsNewline(s[i])
  {
    if s != "" && IsNewline(s[0]) {
      NewlinesStripped(s[1..]);
    }
  }

  predicate EndsWith(s: string, suffix: string) {
    |suffix| <= |s| && s[|s| - |suffix|..] == suffix
  }

  /** `needle` stands in `s` at index `i`. */
  predicate OccursAt(s: string, needle: string, i: nat) {
    i + |needle| <= |s| && s[i..i + |needle|] == needle
  }

  /** `needle not in s` */
  ghost predicate Absent(needle: string, s: string) {
    forall i: nat :: !OccursAt(s, needle, i)
  }

  /** The least index at or after `from` at which `needle` occurs. */
  function FindFrom(s: string, needle: string, from: nat): (r: Option<nat>)
    requires from <= |s|
    ensures r.None? ==> forall i: nat :: from <= i ==> !OccursAt(s, needle, i)
    ensures r.Some? ==> from <= r.value && OccursAt(s, needle, r.value)
    ensures r.Some? ==> forall i: nat :: from <= i < r.value ==> !OccursAt(s, needle, i)
    decreases |s| - from
  {
    if OccursAt(s, needle, from) then Some(from)
    else if from == |s| then None
    else FindFrom(s, needle, from + 1)
  }

  /** `s.find(needle)`, with `None` for -1. */
  function Find(s: string, needle: string): (r: Option<nat>)
    ensures r.None? <==> Absent(needle, s)
    ensures r.Some? ==> OccursAt(s, needle, r.value)
    ensures r.Some? ==> forall i: nat :: i < r.value ==> !OccursAt(s, needle, i)
  {
    FindFrom(s, needle, 0)
  }

  /** The text with its whitespace deleted: what trimming and re-spacing must leave alone. */
  function NonSpace(s: string): string {
    if s == "" then ""
    else if IsSpace(s[0]) then NonSpace(s[1..])
    else [s[0]] + NonSpace(s[1..])
  }

  lemma {:induction false} NonSpaceConcat(a: string, b: string)
    ensures NonSpace(a + b) == NonSpace(a) + NonSpace(b)
  {
    if a == "" {
      assert a + b == b;
    } else {
      assert (a + b)[1..] == a[1..] + b;
      NonSpaceConcat(a[1..], b);
    }
  }

  lemma {:induction false} NonSpaceOfSpaces(s: string)
    requires forall i :: 0 <= i < |s| ==> IsSpace(s[i])
    ensures NonSpace(s) == ""
  {
    if s != "" {
      NonSpaceOfSpaces(s[1..]);
    }
  }

  lemma NonSpaceRStrip(s: string)
    ensures NonSpace(RStrip(s)) == NonSpace(s)
  {
    var r := RStrip(s);
    RStripped(s);
    assert s == r + s[|r|..];
    NonSpaceConcat(r, s[|r|..]);
    NonSpaceOfSpaces(s[|r|..]);
  }

  lemma NonSpaceLStripNewlines(s: string)
    ensures NonSpace(LStripNewlines(s)) == NonSpace(s)
  {
    var r := LStripNewlines(s);
    var k := |s| - |r|;
    NewlinesStripped(s);
    assert s == s[..k] + r;
    NonSpaceConcat(s[..k], r);
    NonSpaceOfSpaces(s[..k]);
  }

  /** `rstrip` is determined by its result: the prefix that does not end in a space, before spaces only. */
  lemma RStripUnique(s: string, r: string)
    requires r <= s && !EndsInSpace(r)
    requires forall i :: |r| <= i < |s| ==> IsSpace(s[i])
    ensures RStrip(s) == r
  {
    var q := RStrip(s);
    RStripped(s);
    assert |q| == |r|;
  }

  /** Trimming stops at text that does not end in a space. */
  lemma RStripConcat(a: string, b: string)
    requires !EndsInSpace(a)
    ensures RStrip(a + b) == a + RStrip(b)
  {
    RStripped(b);
    RStripUnique(a + b, a + RStrip(b));
  }

  lemma {:induction false} LStripNewlinesConcat(a: string, b: string)
    requires b != "" && !IsNewline(b[0])
    ensures LStripNewlines(a + b) == LStripNewlines(a) + b
  {
    if a == "" {
      assert a + b == b;
    } else if IsNewline(a[0]) {
      assert (a + b)[1..] == a[1..] + b;
      LStripNewlinesConcat(a[1..], b);
    }
  }

  lemma SliceAfter(a: string, b: string, i: nat, n: nat)
    requires |a| <= i && i + n <= |a| + |b|
    ensures (a + b)[i..i + n] == b[i - |a|..i - |a| + n]
  {
    var left, right := (a + b)[i..i + n], b[i - |a|..i - |a| + n];
    assert forall m :: 0 <= m < n ==> left[m] == right[m];
  }

  lemma SliceOfSlice(s: string, i: nat, j: nat, k: nat, n: nat)
    requires i <= j <= |s| && k + n <= j - i
    ensures s[i..j][k..k + n] == s[i + k..i + k + n]
  {
    var left, right := s[i..j][k..k + n], s[i + k..i + k + n];
    assert forall m :: 0 <= m < n ==> left[m] == right[m];
  }
}
