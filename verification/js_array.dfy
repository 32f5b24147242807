/**
 * The JavaScript array operations the shopping list uses, with the meaning ECMAScript gives
 * them: `some` with a strict-equality callback, `indexOf`, `splice` and `filter` with a
 * callback of the form `x => key(x) !== k`.
 */
module JsArray {

  function Min(a: int, b: int): int { if a < b then a else b }
  function Max(a: int, b: int): int { if a < b then b else a }

  /** `s.some(x => x === v)`. */
  function SomeEqual<T(==)>(s: seq<T>, v: T): (r: bool)
    ensures r <==> exists i :: 0 <= i < |s| && s[i] == v
  {
    s != [] && (s[0] == v || SomeEqual(s[1..], v))
  }

  /** `s.indexOf(v)`: the first index holding v, or -1 when there is none. */
  function IndexOf<T(==)>(s: seq<T>, v: T): (r: int)
    ensures -1 <= r < |s|
    ensures r == -1 <==> v !in s
    ensures 0 <= r ==> s[r] == v && forall j :: 0 <= j < r ==> s[j] != v
  {
    if s == [] then -1
    else if s[0] == v then 0
    else
      var i := IndexOf(s[1..], v);
      if i == -1 then -1 else i + 1
  }

  /**
   * The array `s.splice(start, deleteCount)` leaves behind: a negative start counts from the
   * end (clamped at 0), a start past the end is clamped to the length, and at most the
   * elements that exist from there on are deleted.
   */
  function Splice<T>(s: seq<T>, start: int, deleteCount: int): (r: seq<T>)
    ensures |r| <= |s|
    ensures forall x :: x in r ==> x in s
  {
    var len := |s|;
    var actualStart := if start < 0 then Max(len + start, 0) else Min(start, len);
    var actualDeleteCount := Min(Max(deleteCount, 0), len - actualStart);
    s[..actualStart] + s[actualStart + actualDeleteCount..]
  }

  /** Splicing one element at an index in range removes exactly that element. */
  lemma SpliceOneAt<T>(s: seq<T>, i: int)
    requires 0 <= i < |s|
    ensures Splice(s, i, 1) == s[..i] + s[i + 1..]
    ensures |Splice(s, i, 1)| == |s| - 1
  {
  }

  /** Splicing one element at -1 removes the last element, and leaves an empty array alone. */
  lemma SpliceOneAtMinusOne<T>(s: seq<T>)
    ensures Splice(s, -1, 1) == if s == [] then [] else s[..|s| - 1]
  {
  }

  /** `s.filter(x => key(x) !== k)`. */
  function Without<T, K(==)>(s: seq<T>, key: T -> K, k: K): (r: seq<T>)
    ensures |r| <= |s|
  {
    if s == [] then []
    else (if key(s[0]) != k then [s[0]] else []) + Without(s[1..], key, k)
  }

  /** How many elements of s have key k. */
  function CountKey<T, K(==)>(s: seq<T>, key: T -> K, k: K): (n: nat)
    ensures n <= |s|
  {
    if s == [] then 0
    else (if key(s[0]) == k then 1 else 0) + CountKey(s[1..], key, k)
  }

  /** r can be obtained from s by deleting elements, without reordering the rest. */
  predicate IsSubsequence<T(==)>(r: seq<T>, s: seq<T>) {
    r == [] || (s != [] && if r[0] == s[0] then IsSubsequence(r[1..], s[1..]) else IsSubsequence(r, s[1..]))
  }

  lemma {:induction false} CountKeyAppend<T, K>(a: seq<T>, b: seq<T>, key: T -> K, k: K)
    ensures CountKey(a + b, key, k) == CountKey(a, key, k) + CountKey(b, key, k)
  {
    if a == [] {
      assert a + b == b;
    } else {
      assert (a + b)[1..] == a[1..] + b;
      CountKeyAppend(a[1..], b, key, k);
    }
  }

  /** Nothing with key k survives the filter. */
  lemma {:induction false} WithoutExcludes<T, K>(s: seq<T>, key: T -> K, k: K)
    ensures forall x :: x in Without(s, key, k) ==> key(x) != k
  {
    if s != [] {
      WithoutExcludes(s[1..], key, k);
    }
  }

  /** Every element with another key survives, as often as it occurs in s. */
  lemma {:induction false} WithoutMultiplicity<T, K>(s: seq<T>, key: T -> K, k: K)
    ensures forall x :: multiset(Without(s, key, k))[x] == if key(x) == k then 0 else multiset(s)[x]
  {
    if s != [] {
      WithoutMultiplicity(s[1..], key, k);
      assert s == [s[0]] + s[1..];
    }
  }

  /** The survivors keep their relative order. */
  lemma {:induction false} WithoutIsSubsequence<T, K>(s: seq<T>, key: T -> K, k: K)
    ensures IsSubsequence(Without(s, key, k), s)
  {
    if s != [] {
      WithoutIsSubsequence(s[1..], key, k);
      var r := Without(s, key, k);
      if key(s[0]) == k {
        WithoutExcludes(s[1..], key, k);
        assert r == Without(s[1..], key, k);
        assert r != [] ==> r[0] in r;
      }
    }
  }

  /** The filter drops exactly the elements with key k. */
  lemma {:induction false} WithoutLength<T, K>(s: seq<T>, key: T -> K, k: K)
    ensures |Without(s, key, k)| == |s| - CountKey(s, key, k)
  {
    if s != [] {
      WithoutLength(s[1..], key, k);
    }
  }

  /** When no element has key k, the filter returns s itself. */
  lemma {:induction false} WithoutAbsent<T, K>(s: seq<T>, key: T -> K, k: K)
    requires forall x :: x in s ==> key(x) != k
    ensures Without(s, key, k) == s
  {
    if s != [] {
      assert forall x :: x in s[1..] ==> x in s;
      WithoutAbsent(s[1..], key, k);
      assert s == [s[0]] + s[1..];
    }
  }

  /** Filtering twice by the same key is filtering once. */
  lemma WithoutIdempotent<T, K>(s: seq<T>, key: T -> K, k: K)
    ensures Without(Without(s, key, k), key, k) == Without(s, key, k)
  {
    WithoutExcludes(s, key, k);
    WithoutAbsent(Without(s, key, k), key, k);
  }

  /** Filtering distributes over concatenation. */
  lemma {:induction false} WithoutAppend<T, K>(a: seq<T>, b: seq<T>, key: T -> K, k: K)
    ensures Without(a + b, key, k) == Without(a, key, k) + Without(b, key, k)
  {
    if a == [] {
      assert a + b == b;
    } else {
      assert (a + b)[1..] == a[1..] + b;
      WithoutAppend(a[1..], b, key, k);
    }
  }

  /** A subsequence that avoids key k is no longer than the elements of s with another key. */
  lemma {:induction false} SubsequenceBound<T, K>(r: seq<T>, s: seq<T>, key: T -> K, k: K)
    requires IsSubsequence(r, s)
    requires forall x :: x in r ==> key(x) != k
    ensures |r| <= |s| - CountKey(s, key, k)
  {
    if r != [] {
      if r[0] == s[0] {
        assert forall x :: x in r[1..] ==> x in r;
        SubsequenceBound(r[1..], s[1..], key, k);
      } else {
        SubsequenceBound(r, s[1..], key, k);
      }
    }
  }

  /**
   * The filter is the only subsequence of s that avoids key k and has one element for each
   * element of s with another key: the three facts above pin its result down completely.
   */
  lemma {:induction false} WithoutUnique<T, K>(r: seq<T>, s: seq<T>, key: T -> K, k: K)
    requires IsSubsequence(r, s)
    requires forall x :: x in r ==> key(x) != k
    requires |r| == |s| - CountKey(s, key, k)
    ensures r == Without(s, key, k)
  {
    if s == [] {
    } else if key(s[0]) == k {
      assert r != [] ==> r[0] in r && r[0] != s[0];
      SubsequenceBound(r, s[1..], key, k);
      WithoutUnique(r, s[1..], key, k);
    } else if r != [] && r[0] == s[0] {
      assert forall x :: x in r[1..] ==> x in r;
      WithoutUnique(r[1..], s[1..], key, k);
      assert r == [r[0]] + r[1..];
    } else {
      if r != [] {
        SubsequenceBound(r, s[1..], key, k);
      }
      assert false;
    }
  }
}
