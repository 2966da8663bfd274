/** Sequence and string utilities of snippets.js: reversing a string,
    checking an array for an element, and sorting a copy of an array. */
module Sequences {

  /** Reference reversal: the first element goes last. */
  function Reversed<T>(s: seq<T>): (r: seq<T>)
    ensures |r| == |s|
  {
    if |s| == 0 then [] else Reversed(s[1..]) + [s[0]]
  }

  /** Position k of the reversal holds the element k places from the end. */
  lemma {:induction false} ReversedAt<T>(s: seq<T>, k: int)
    requires 0 <= k < |s|
    ensures Reversed(s)[k] == s[|s| - 1 - k]
  {
    if k < |s| - 1 {
      ReversedAt(s[1..], k);
    }
  }

  /** Reversing twice gives back the original sequence. */
  lemma ReversedTwice<T>(s: seq<T>)
    ensures Reversed(Reversed(s)) == s
  {
    var r := Reversed(s);
    forall k | 0 <= k < |s|
      ensures Reversed(r)[k] == s[k]
    {
      ReversedAt(r, k);
      ReversedAt(s, |s| - 1 - k);
    }
  }

  /** reverseString: walks the string from its last index down to 0,
      appending each character to the result. */
  method ReverseString(str: string) returns (newStr: string)
    ensures |newStr| == |str|
    ensures forall k :: 0 <= k < |str| ==> newStr[k] == str[|str| - 1 - k]
    ensures newStr == Reversed(str)
  {
    newStr := "";
    var i := |str| - 1;
    while i >= 0
      invariant -1 <= i < |str|
      invariant |newStr| == |str| - 1 - i
      invariant forall k :: 0 <= k < |newStr| ==> newStr[k] == str[|str| - 1 - k]
    {
      newStr := newStr + [str[i]];
      i := i - 1;
    }
    forall k | 0 <= k < |str|
      ensures newStr[k] == Reversed(str)[k]
    {
      ReversedAt(str, k);
    }
  }

  /** Array.prototype.indexOf on values compared with ===: the first index
      holding elem, or -1 when there is none. */
  function IndexOf<T(==)>(arr: seq<T>, elem: T): (r: int)
    ensures -1 <= r < |arr|
    ensures r == -1 <==> elem !in arr
    ensures 0 <= r ==> arr[r] == elem
    ensures forall j :: 0 <= j < r ==> arr[j] != elem
  {
    if |arr| == 0 then -1
    else if arr[0] == elem then 0
    else
      var k := IndexOf(arr[1..], elem);
      if k == -1 then -1 else k + 1
  }

  /** arrayChecker: true exactly when elem occurs in arr. */
  function ArrayChecker<T(==)>(arr: seq<T>, elem: T): (present: bool)
    ensures present <==> elem in arr
    ensures present <==> exists j :: 0 <= j < |arr| && arr[j] == elem
  {
    IndexOf(arr, elem) != -1
  }

  /** Ascending numeric order, as produced by the comparator (a, b) => a - b. */
  predicate Sorted(s: seq<int>)
  {
    forall i, j :: 0 <= i < j < |s| ==> s[i] <= s[j]
  }

  /** A lower bound of t and of x bounds every element of a sequence
      holding exactly t's elements and x. */
  lemma BoundedByContents(lo: int, x: int, t: seq<int>, r: seq<int>)
    requires lo <= x
    requires forall k :: 0 <= k < |t| ==> lo <= t[k]
    requires multiset(r) == multiset(t) + multiset{x}
    ensures forall k :: 0 <= k < |r| ==> lo <= r[k]
  {
    forall k | 0 <= k < |r|
      ensures lo <= r[k]
    {
      assert r[k] in multiset(r);
      if r[k] != x {
        assert r[k] in multiset(t);
      }
    }
  }

  /** Places x into an ascending sequence, keeping it ascending. */
  function Insert(x: int, s: seq<int>): (r: seq<int>)
    requires Sorted(s)
    ensures Sorted(r)
    ensures multiset(r) == multiset(s) + multiset{x}
    ensures |r| == |s| + 1
  {
    if |s| == 0 then [x]
    else if x <= s[0] then [x] + s
    else
      var rest := Insert(x, s[1..]);
      BoundedByContents(s[0], x, s[1..], rest);
      assert s == [s[0]] + s[1..];
      [s[0]] + rest
  }

  /** nonMutatingSort: an ascending copy of arr. The argument is a value,
      so the caller's sequence is never changed. */
  function NonMutatingSort(arr: seq<int>): (sorted: seq<int>)
    ensures Sorted(sorted)
    ensures multiset(sorted) == multiset(arr)
    ensures |sorted| == |arr|
  {
    if |arr| == 0 then []
    else
      assert arr == [arr[0]] + arr[1..];
      Insert(arr[0], NonMutatingSort(arr[1..]))
  }

  /** The head of a non-empty ascending sequence is its least element. */
  lemma SortedHeadIsLeast(s: seq<int>, x: int)
    requires Sorted(s) && x in multiset(s)
    ensures s[0] <= x
  {
    var k :| 0 <= k < |s| && s[k] == x;
  }

  /** There is only one ascending arrangement of a multiset of numbers, so
      the sort's result is determined by the contents of its argument. */
  lemma {:induction false} SortedPermutationUnique(a: seq<int>, b: seq<int>)
    requires Sorted(a) && Sorted(b)
    requires multiset(a) == multiset(b)
    ensures a == b
  {
    if |a| == 0 || |b| == 0 {
      assert |multiset(a)| == |a| && |multiset(b)| == |b|;
    } else {
      assert a[0] in multiset(a) && b[0] in multiset(b);
      SortedHeadIsLeast(b, a[0]);
      SortedHeadIsLeast(a, b[0]);
      var ta, tb := a[1..], b[1..];
      assert a == [a[0]] + ta;
      assert b == [b[0]] + tb;
      assert a[0] == b[0];
      assert multiset(a) == multiset{a[0]} + multiset(ta);
      assert multiset(b) == multiset{b[0]} + multiset(tb);
      assert multiset(ta) == multiset(a) - multiset{a[0]};
      assert multiset(tb) == multiset(b) - multiset{b[0]};
      assert Sorted(ta) && Sorted(tb);
      SortedPermutationUnique(ta, tb);
    }
  }

  /** Sorting any rearrangement of arr gives the same result. */
  lemma SortIgnoresOrder(arr: seq<int>, other: seq<int>)
    requires multiset(arr) == multiset(other)
    ensures NonMutatingSort(arr) == NonMutatingSort(other)
  {
    SortedPermutationUnique(NonMutatingSort(arr), NonMutatingSort(other));
  }

  /** Sorting an already ascending array returns a copy equal to it. */
  lemma SortFixesSorted(arr: seq<int>)
    requires Sorted(arr)
    ensures NonMutatingSort(arr) == arr
  {
    SortedPermutationUnique(NonMutatingSort(arr), arr);
  }
}
