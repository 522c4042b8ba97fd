/**
 * Python's `sorted` on keys that are tuples of strings, or paths compared by their parts: the order is total, a sorted
 * listing with distinct keys is unique, and so sorting forgets the order of its input.
 */
module Ordering {
  /** `a <= b` on strings, by code point. */
  predicate StrLe(a: string, b: string) {
    a == "" || (b != "" && if a[0] == b[0] then StrLe(a[1..], b[1..]) else a[0] < b[0])
  }

  /** `a <= b` on sequences of strings. */
  predicate Le(a: seq<string>, b: seq<string>) {
    a == [] || (b != [] && if a[0] == b[0] then Le(a[1..], b[1..]) else StrLe(a[0], b[0]))
  }

  /** The strings first differ at `i`, and `a` has the smaller character there. */
  predicate LessAt(a: string, b: string, i: nat) {
    i < |a| && i < |b| && a[i] < b[i] && forall k :: 0 <= k < i ==> a[k] == b[k]
  }

  lemma LessInTails(a: string, b: string, i: nat)
    requires a != "" && b != "" && a[0] == b[0]
    ensures LessAt(a[1..], b[1..], i) <==> LessAt(a, b, i + 1)
  {
    if LessAt(a, b, i + 1) {
      assert forall k :: 0 <= k < i ==> a[1..][k] == a[k + 1] && b[1..][k] == b[k + 1];
    }
    if LessAt(a[1..], b[1..], i) {
      assert forall k :: 0 < k <= i ==> a[k] == a[1..][k - 1] && b[k] == b[1..][k - 1];
    }
  }

  /** Strings are ordered by the first character that differs, a prefix coming first. */
  lemma {:induction false} StrLeIff(a: string, b: string)
    ensures StrLe(a, b) <==> a <= b || exists i: nat :: LessAt(a, b, i)
  {
    if a != "" && b != "" {
      if a[0] == b[0] {
        StrLeIff(a[1..], b[1..]);
        assert a == [a[0]] + a[1..] && b == [b[0]] + b[1..];
        forall i: nat { LessInTails(a, b, i); }
        assert !LessAt(a, b, 0);
        assert (exists i: nat :: LessAt(a, b, i)) <==> exists i: nat :: LessAt(a[1..], b[1..], i) by {
          if i: nat :| LessAt(a, b, i) {
            assert LessAt(a[1..], b[1..], i - 1);
          }
        }
      } else {
        assert forall i: nat :: LessAt(a, b, i) ==> i == 0;
        assert LessAt(a, b, 0) <==> a[0] < b[0];
      }
    }
  }

  lemma {:induction false} StrTotal(a: string, b: string)
    ensures StrLe(a, b) || StrLe(b, a)
    ensures StrLe(a, b) && StrLe(b, a) ==> a == b
  {
    if a != "" && b != "" && a[0] == b[0] {
      StrTotal(a[1..], b[1..]);
    }
  }

  lemma {:induction false} StrTransitive(a: string, b: string, c: string)
    requires StrLe(a, b) && StrLe(b, c)
    ensures StrLe(a, c)
  {
    if a != "" && a[0] == b[0] == c[0] {
      StrTransitive(a[1..], b[1..], c[1..]);
    }
  }

  lemma {:induction false} Total(a: seq<string>, b: seq<string>)
    ensures Le(a, b) || Le(b, a)
    ensures Le(a, b) && Le(b, a) ==> a == b
  {
    if a != [] && b != [] {
      StrTotal(a[0], b[0]);
      if a[0] == b[0] {
        Total(a[1..], b[1..]);
      }
    }
  }

  lemma {:induction false} Transitive(a: seq<string>, b: seq<string>, c: seq<string>)
    requires Le(a, b) && Le(b, c)
    ensures Le(a, c)
  {
    if a != [] {
      if a[0] == b[0] == c[0] {
        Transitive(a[1..], b[1..], c[1..]);
      } else {
        StrTotal(a[0], a[0]);
        StrTotal(b[0], b[0]);
        StrTotal(a[0], b[0]);
        StrTransitive(a[0], b[0], c[0]);
      }
    }
  }

  /** A path precedes everything below it. */
  lemma {:induction false} PrefixLe(a: seq<string>, b: seq<string>)
    requires a <= b
    ensures Le(a, b)
  {
    if a != [] {
      PrefixLe(a[1..], b[1..]);
    }
  }

  ghost predicate Ascending<T>(s: seq<T>, key: T -> seq<string>) {
    forall i, j :: 0 <= i < j < |s| ==> Le(key(s[i]), key(s[j]))
  }

  function Insert<T>(x: T, s: seq<T>, before: (T, T) -> bool): (r: seq<T>)
    ensures multiset(r) == multiset{x} + multiset(s)
  {
    if s == [] then [x]
    else if before(x, s[0]) then [x] + s
    else
      assert s == [s[0]] + s[1..];
      [s[0]] + Insert(x, s[1..], before)
  }

  /** Python's stable `sorted`, given which of two elements may come first. */
  function Sorted<T>(s: seq<T>, before: (T, T) -> bool): (r: seq<T>)
    ensures multiset(r) == multiset(s)
  {
    if s == [] then []
    else
      assert s == [s[0]] + s[1..];
      Insert(s[0], Sorted(s[1..], before), before)
  }

  /** The order of `sorted(s, key=key)`. */
  function By<T>(key: T -> seq<string>): (T, T) -> bool {
    (a: T, b: T) => Le(key(a), key(b))
  }

  lemma {:induction false} InsertAscending<T>(x: T, s: seq<T>, key: T -> seq<string>)
    requires Ascending(s, key)
    ensures Ascending(Insert(x, s, By(key)), key)
  {
    if s != [] {
      if Le(key(x), key(s[0])) {
        forall j | 0 <= j < |s| ensures Le(key(x), key(s[j])) {
          if j > 0 {
            Transitive(key(x), key(s[0]), key(s[j]));
          }
        }
      } else {
        Total(key(x), key(s[0]));
        var rest := Insert(x, s[1..], By(key));
        InsertAscending(x, s[1..], key);
        forall y | y in rest ensures Le(key(s[0]), key(y)) {
          assert y in multiset(rest);
          assert y == x || y in s[1..];
        }
      }
    }
  }

  lemma {:induction false} SortedAscending<T>(s: seq<T>, key: T -> seq<string>)
    ensures Ascending(Sorted(s, By(key)), key)
  {
    if s != [] {
      SortedAscending(s[1..], key);
      InsertAscending(s[0], Sorted(s[1..], By(key)), key);
    }
  }

  ghost predicate DistinctKeys<T(!new)>(m: multiset<T>, key: T -> seq<string>) {
    && (forall x :: m[x] <= 1)
    && (forall x, y :: x in m && y in m && key(x) == key(y) ==> x == y)
  }

  /** With distinct keys there is only one sorted order. */
  lemma {:induction false} AscendingUnique<T(!new)>(s: seq<T>, t: seq<T>, key: T -> seq<string>)
    requires multiset(s) == multiset(t) && Ascending(s, key) && Ascending(t, key)
    requires DistinctKeys(multiset(s), key)
    ensures s == t
  {
    hide Le;
    assert |s| == |multiset(s)| == |multiset(t)| == |t|;
    if s != [] {
      HeadLeast(s, t, key);
      HeadLeast(t, s, key);
      Total(key(s[0]), key(t[0]));
      assert s[0] in multiset(s) && t[0] in multiset(s);
      TailMultiset(s);
      TailMultiset(t);
      AscendingUnique(s[1..], t[1..], key);
    }
  }

  lemma SameMembers<T>(s: seq<T>, t: seq<T>)
    requires multiset(s) == multiset(t)
    ensures forall x :: x in s <==> x in t
  {
    forall x ensures x in s <==> x in t {
      assert x in s <==> x in multiset(s);
      assert x in t <==> x in multiset(t);
    }
  }

  lemma SortedDistinct<T>(s: seq<T>, t: seq<T>)
    requires multiset(s) == multiset(t)
    requires forall i, j :: 0 <= i < j < |s| ==> s[i] != s[j]
    ensures forall i, j :: 0 <= i < j < |t| ==> t[i] != t[j]
  {
    forall i, j | 0 <= i < j < |t| ensures t[i] != t[j] {
      if t[i] == t[j] {
        assert t == t[..i] + [t[i]] + t[i + 1..j] + [t[j]] + t[j + 1..];
        assert multiset(t)[t[i]] >= 2;
        DistinctOnce(s, t[i]);
      }
    }
  }

  lemma {:induction false} DistinctOnce<T>(s: seq<T>, x: T)
    requires forall i, j :: 0 <= i < j < |s| ==> s[i] != s[j]
    ensures multiset(s)[x] <= 1
  {
    if s != [] {
      assert s == [s[0]] + s[1..];
      DistinctOnce(s[1..], x);
      assert s[0] !in s[1..];
    }
  }

  /** The elements of a set in some order. */
  method ListSet<T(==)>(s: set<T>) returns (listed: seq<T>)
    ensures forall x :: x in listed <==> x in s
    ensures forall i, j :: 0 <= i < j < |listed| ==> listed[i] != listed[j]
  {
    var todo := s;
    listed := [];
    while todo != {}
      invariant todo <= s
      invariant forall x :: x in listed <==> x in s - todo
      invariant forall i, j :: 0 <= i < j < |listed| ==> listed[i] != listed[j]
      decreases todo
    {
      var x :| x in todo;
      assert x !in listed;
      assert forall i :: 0 <= i < |listed| ==> (listed + [x])[i] == listed[i] != x;
      todo, listed := todo - {x}, listed + [x];
    }
  }

  lemma TailMultiset<T>(s: seq<T>)
    requires s != []
    ensures multiset(s[1..]) == multiset(s) - multiset{s[0]}
  {
    assert s == [s[0]] + s[1..];
  }

  lemma HeadLeast<T>(s: seq<T>, t: seq<T>, key: T -> seq<string>)
    requires multiset(s) == multiset(t) && Ascending(s, key) && s != [] && t != []
    ensures Le(key(s[0]), key(t[0]))
  {
    assert t[0] in multiset(s);
    var i :| 0 <= i < |s| && s[i] == t[0];
    Total(key(s[0]), key(s[0]));
  }

  /** Sorting forgets the order of its input. */
  lemma SortedPermutation<T(!new)>(s: seq<T>, t: seq<T>, key: T -> seq<string>)
    requires multiset(s) == multiset(t) && DistinctKeys(multiset(s), key)
    ensures Sorted(s, By(key)) == Sorted(t, By(key))
  {
    SortedAscending(s, key);
    SortedAscending(t, key);
    AscendingUnique(Sorted(s, By(key)), Sorted(t, By(key)), key);
  }
}
