/** A stable insertion sort by a string key. It models both
    `packages.sort()` and `exports.sort((a, b) => a[0].localeCompare(b[0]))`,
    with lexicographic order standing in for the comparisons. */
module Sorting {
  import opened Strings

  /** Every earlier element's key is lexicographically at most every later one's. */
  predicate SortedBy<T>(s: seq<T>, key: T -> string) {
    forall i, j :: 0 <= i < j < |s| ==> LexLe(key(s[i]), key(s[j]))
  }

  /** Insert `x` before the first element whose key is not smaller, so that
      `x` precedes elements with an equal key. */
  function InsertBy<T>(x: T, s: seq<T>, key: T -> string): (r: seq<T>)
    requires SortedBy(s, key)
    ensures SortedBy(r, key)
    ensures multiset(r) == multiset(s) + multiset{x}
  {
    if |s| == 0 then [x]
    else if LexLe(key(x), key(s[0])) then
      assert SortedBy([x] + s, key) by {
        forall i, j | 0 <= i < j < |s| + 1
          ensures LexLe(key(([x] + s)[i]), key(([x] + s)[j]))
        {
          if i == 0 && j > 1 {
            LexLeTransitive(key(x), key(s[0]), key(s[j - 1]));
          }
        }
      }
      [x] + s
    else
      var rest := InsertBy(x, s[1..], key);
      assert s == [s[0]] + s[1..];
      LexLeTotal(key(x), key(s[0]));
      assert SortedBy([s[0]] + rest, key) by {
        forall j | 0 <= j < |rest|
          ensures LexLe(key(s[0]), key(rest[j]))
        {
          assert rest[j] in multiset(rest);
          assert rest[j] in multiset(s[1..]) || rest[j] == x;
          if rest[j] != x {
            var k :| 0 <= k < |s[1..]| && s[1..][k] == rest[j];
            assert s[k + 1] == rest[j];
          }
        }
      }
      [s[0]] + rest
  }

  /** The elements of `s` whose key is `k`, in their order in `s`. */
  function WithKey<T>(s: seq<T>, key: T -> string, k: string): seq<T>
    decreases |s|
  {
    if |s| == 0 then []
    else (if key(s[0]) == k then [s[0]] else []) + WithKey(s[1..], key, k)
  }

  /** Inserting `x` puts it in front of the elements that share its key and
      leaves the order of every other key's elements alone. */
  lemma {:induction false} InsertByStable<T>(x: T, s: seq<T>, key: T -> string, k: string)
    requires SortedBy(s, key)
    ensures WithKey(InsertBy(x, s, key), key, k) ==
              (if key(x) == k then [x] else []) + WithKey(s, key, k)
    decreases |s|
  {
    var r := InsertBy(x, s, key);
    if |s| == 0 {
      assert r == [x] && r[1..] == [];
    } else if LexLe(key(x), key(s[0])) {
      assert r == [x] + s && r[1..] == s;
    } else {
      var rest := InsertBy(x, s[1..], key);
      assert r == [s[0]] + rest && r[1..] == rest;
      var head := if key(s[0]) == k then [s[0]] else [];
      var mid := if key(x) == k then [x] else [];
      var tail := WithKey(s[1..], key, k);
      assert WithKey(r, key, k) == head + WithKey(rest, key, k);
      assert WithKey(s, key, k) == head + tail;
      InsertByStable(x, s[1..], key, k);
      assert key(s[0]) != key(x) by {
        LexLeReflexive(key(x));
      }
      SwapEmpty(head, mid, tail);
    }
  }

  lemma SwapEmpty<T>(a: seq<T>, b: seq<T>, c: seq<T>)
    requires a == [] || b == []
    ensures a + (b + c) == b + (a + c)
  {
    if a == [] {
      assert a + (b + c) == b + c && a + c == c;
    } else {
      assert b + (a + c) == a + c && b + c == c;
    }
  }

  /** The sorted rearrangement of `s`. The sort is stable: elements with
      equal keys keep their relative order. */
  function SortBy<T>(s: seq<T>, key: T -> string): (r: seq<T>)
    ensures SortedBy(r, key)
    ensures multiset(r) == multiset(s)
    ensures |r| == |s|
    ensures forall k :: WithKey(r, key, k) == WithKey(s, key, k)
  {
    if |s| == 0 then []
    else
      assert s == [s[0]] + s[1..];
      var sorted := SortBy(s[1..], key);
      var r := InsertBy(s[0], sorted, key);
      assert forall k :: WithKey(r, key, k) == WithKey(s, key, k) by {
        forall k
          ensures WithKey(r, key, k) == WithKey(s, key, k)
        {
          InsertByStable(s[0], sorted, key, k);
        }
      }
      r
  }

  /** Identity key, for sorting plain strings. */
  function Self(s: string): string { s }
}
