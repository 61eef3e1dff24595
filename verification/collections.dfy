/** `withoutAll(array, values)`: the elements of `array` that are not among
    `values`, in their original order and with their original multiplicity. */
module Collections {

  /** `a` can be obtained from `b` by deleting elements. */
  predicate IsSubsequence<T(==)>(a: seq<T>, b: seq<T>)
    decreases |b|
  {
    if |a| == 0 then true
    else if |b| == 0 then false
    else (a[0] == b[0] && IsSubsequence(a[1..], b[1..])) || IsSubsequence(a, b[1..])
  }

  function WithoutAll<T(==,!new)>(arr: seq<T>, values: seq<T>): (r: seq<T>)
    ensures forall x :: x in r ==> x in arr && x !in values
    ensures |r| <= |arr|
    ensures forall x :: x !in values ==> multiset(r)[x] == multiset(arr)[x]
    ensures forall x :: x in values ==> multiset(r)[x] == 0
  {
    if |arr| == 0 then []
    else
      assert arr == [arr[0]] + arr[1..];
      if arr[0] in values then WithoutAll(arr[1..], values)
      else [arr[0]] + WithoutAll(arr[1..], values)
  }

  /** The result keeps the relative order of `array`. */
  lemma {:induction false} WithoutAllIsSubsequence<T(!new)>(arr: seq<T>, values: seq<T>)
    ensures IsSubsequence(WithoutAll(arr, values), arr)
    decreases |arr|
  {
    if |arr| > 0 {
      WithoutAllIsSubsequence(arr[1..], values);
      var rest := WithoutAll(arr[1..], values);
      if arr[0] in values {
        SubsequenceOfTail(rest, arr);
      } else {
        assert ([arr[0]] + rest)[1..] == rest;
      }
    }
  }

  lemma {:induction false} SubsequenceOfTail<T>(a: seq<T>, b: seq<T>)
    requires |b| > 0 && IsSubsequence(a, b[1..])
    ensures IsSubsequence(a, b)
  {
  }

  /** A subsequence never holds an element more often than the whole. */
  lemma {:induction false} SubsequenceMultiset<T>(a: seq<T>, b: seq<T>)
    requires IsSubsequence(a, b)
    ensures multiset(a) <= multiset(b)
    decreases |b|
  {
    if |a| > 0 {
      assert b == [b[0]] + b[1..];
      if a[0] == b[0] && IsSubsequence(a[1..], b[1..]) {
        SubsequenceMultiset(a[1..], b[1..]);
        assert a == [a[0]] + a[1..];
      } else {
        SubsequenceMultiset(a, b[1..]);
      }
    }
  }

  /** The result is the only subsequence of `array` that avoids `values` and
      keeps every other element as often as `array` has it. */
  lemma {:induction false} WithoutAllUnique<T(!new)>(arr: seq<T>, values: seq<T>, s: seq<T>)
    requires IsSubsequence(s, arr)
    requires forall x :: x in s ==> x !in values
    requires forall x :: x !in values ==> multiset(s)[x] == multiset(arr)[x]
    ensures s == WithoutAll(arr, values)
    decreases |arr|
  {
    if |arr| == 0 {
    } else {
      var h := arr[0];
      var t := arr[1..];
      assert arr == [h] + t;
      if h in values {
        if |s| > 0 {
          assert s[0] in s;
        }
        WithoutAllUnique(t, values, s);
      } else {
        assert multiset(s)[h] == multiset(arr)[h] == multiset(t)[h] + 1;
        if |s| > 0 && s[0] == h && IsSubsequence(s[1..], t) {
          assert s == [h] + s[1..];
          forall x | x in s[1..]
            ensures x !in values
          {
            assert x in s;
          }
          WithoutAllUnique(t, values, s[1..]);
        } else {
          SubsequenceMultiset(s, t);
          assert false;
        }
      }
    }
  }

  /** Excluding nothing returns the array unchanged. */
  lemma {:induction false} WithoutAllOfNothing<T(!new)>(arr: seq<T>)
    ensures WithoutAll(arr, []) == arr
    decreases |arr|
  {
    if |arr| > 0 {
      WithoutAllOfNothing(arr[1..]);
      assert arr == [arr[0]] + arr[1..];
    }
  }

  /** Filtering commutes with concatenation. */
  lemma {:induction false} WithoutAllConcat<T(!new)>(a: seq<T>, b: seq<T>, values: seq<T>)
    ensures WithoutAll(a + b, values) == WithoutAll(a, values) + WithoutAll(b, values)
    decreases |a|
  {
    if |a| == 0 {
      assert a + b == b;
    } else {
      var ab := a + b;
      assert ab[0] == a[0] && ab[1..] == a[1..] + b;
      WithoutAllConcat(a[1..], b, values);
    }
  }

  /** Excluding the same values twice changes nothing the second time. */
  lemma {:induction false} WithoutAllIdempotent<T(!new)>(arr: seq<T>, values: seq<T>)
    ensures WithoutAll(WithoutAll(arr, values), values) == WithoutAll(arr, values)
  {
    var r := WithoutAll(arr, values);
    WithoutAllIsSubsequence(r, values);
    WithoutAllIsSubsequence(arr, values);
    SubsequenceTransitive(WithoutAll(r, values), r, arr);
    WithoutAllUnique(arr, values, WithoutAll(r, values));
  }

  lemma {:induction false} SubsequenceTransitive<T>(a: seq<T>, b: seq<T>, c: seq<T>)
    requires IsSubsequence(a, b) && IsSubsequence(b, c)
    ensures IsSubsequence(a, c)
    decreases |c|
  {
    if |a| > 0 {
      if b[0] == c[0] && IsSubsequence(b[1..], c[1..]) {
        if a[0] == b[0] && IsSubsequence(a[1..], b[1..]) {
          SubsequenceTransitive(a[1..], b[1..], c[1..]);
        } else {
          SubsequenceTransitive(a, b[1..], c[1..]);
        }
      } else {
        SubsequenceTransitive(a, b, c[1..]);
      }
    }
  }

  /** The documented example: `withoutAll([2, 1, 2, 3], [1, 2])` is `[3]`. */
  lemma WithoutAllExample()
    ensures WithoutAll([2, 1, 2, 3], [1, 2]) == [3]
  {
    assert [2, 1, 2, 3][1..] == [1, 2, 3];
    assert [1, 2, 3][1..] == [2, 3];
    assert [2, 3][1..] == [3];
    assert [3][1..] == [];
  }
}
