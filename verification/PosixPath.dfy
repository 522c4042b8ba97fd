/**
 * Splitting slash-separated text, as `str.split` does for patch paths and `PurePosixPath.parts` for archive names and
 * recorded file names. Empty parts are dropped, and for paths the parts that are a single dot.
 */
module PosixPath {
  function TokenLength(s: string): (n: nat)
    ensures n <= |s| && (n < |s| ==> s[n] == '/') && forall i :: 0 <= i < n ==> s[i] != '/'
  {
    if s == "" || s[0] == '/' then 0 else 1 + TokenLength(s[1..])
  }

  /** `[part for part in path.split("/") if part]` */
  function Parts(path: string): seq<string> {
    if path == "" then []
    else if path[0] == '/' then Parts(path[1..])
    else
      assert TokenLength(path) > 0;
      [path[..TokenLength(path)]] + Parts(path[TokenLength(path)..])
  }

  /** A slash separates what stands before it from what stands behind it. */
  lemma {:induction false} PartsOfBoth(a: string, b: string)
    ensures Parts(a + "/" + b) == Parts(a) + Parts(b)
    decreases |a|
  {
    var s := a + "/" + b;
    if a == "" {
      assert s[1..] == b;
    } else if a[0] == '/' {
      assert s[1..] == a[1..] + "/" + b;
      PartsOfBoth(a[1..], b);
    } else {
      var n := TokenLength(a);
      TokenIs(s, n);
      assert s[..n] == a[..n] && s[n..] == a[n..] + "/" + b;
      PartsOfBoth(a[n..], b);
    }
  }

  lemma TokenIs(s: string, n: nat)
    requires n < |s| && s[n] == '/' && forall i :: 0 <= i < n ==> s[i] != '/'
    ensures TokenLength(s) == n
  {
  }

  /** A name without a slash is the only part of itself. */
  lemma PartsOfName(name: string)
    requires name != "" && '/' !in name
    ensures Parts(name) == [name]
  {
    assert TokenLength(name) == |name|;
    assert name[..|name|] == name && name[|name|..] == "";
  }

  function WithoutDots(parts: seq<string>): (r: seq<string>)
    ensures forall part :: part in r <==> part in parts && part != "."
  {
    if parts == [] then []
    else (if parts[0] == "." then [] else [parts[0]]) + WithoutDots(parts[1..])
  }

  /** `PurePosixPath(s).parts` for text that is not absolute. */
  function PathParts(s: string): seq<string> {
    WithoutDots(Parts(s))
  }
}
