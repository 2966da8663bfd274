/** The recursive builders at the top of snippets.js: countdown,
    rangeOfNumbers, sum and factorialize, over unbounded integers. */
module Recursion {
  import Sequences

  /** countdown: n, n-1, ..., 1, and the empty array when n < 1. */
  function Countdown(n: int): (r: seq<int>)
    decreases n
    ensures n < 1 ==> r == []
    ensures n >= 1 ==> |r| == n
    ensures forall i :: 0 <= i < |r| ==> r[i] == n - i
  {
    if n < 1 then [] else [n] + Countdown(n - 1)
  }

  /** rangeOfNumbers: startNum, startNum+1, ..., endNum inclusive, and the
      empty array when startNum > endNum. */
  function RangeOfNumbers(startNum: int, endNum: int): (r: seq<int>)
    decreases endNum - startNum
    ensures startNum > endNum ==> r == []
    ensures startNum <= endNum ==> |r| == endNum - startNum + 1
    ensures forall i :: 0 <= i < |r| ==> r[i] == startNum + i
  {
    if startNum > endNum then []
    else [startNum] + RangeOfNumbers(startNum + 1, endNum)
  }

  /** Counting down from n lists the range 1..n backwards. */
  lemma CountdownReversesRange(n: int)
    ensures Countdown(n) == Sequences.Reversed(RangeOfNumbers(1, n))
  {
    var c, r := Countdown(n), RangeOfNumbers(1, n);
    forall i | 0 <= i < |c|
      ensures c[i] == Sequences.Reversed(r)[i]
    {
      Sequences.ReversedAt(r, i);
    }
  }

  /** Reference total of a sequence, added from the front. */
  function SeqSum(s: seq<int>): int
  {
    if |s| == 0 then 0 else s[0] + SeqSum(s[1..])
  }

  /** Adding an element at the back adds it to the total. */
  lemma {:induction false} SeqSumSnoc(s: seq<int>, x: int)
    ensures SeqSum(s + [x]) == SeqSum(s) + x
  {
    if |s| > 0 {
      assert (s + [x])[1..] == s[1..] + [x];
      SeqSumSnoc(s[1..], x);
    }
  }

  /** sum: the total of the first n elements, added from the back. An n
      beyond the array reads undefined in the source, so it is excluded. */
  function Sum(arr: seq<int>, n: int): (r: int)
    requires n <= |arr|
    decreases n
    ensures n <= 0 ==> r == 0
    ensures 0 <= n ==> r == SeqSum(arr[..n])
  {
    if n <= 0 then 0
    else
      assert arr[..n] == arr[..n - 1] + [arr[n - 1]];
      SeqSumSnoc(arr[..n - 1], arr[n - 1]);
      Sum(arr, n - 1) + arr[n - 1]
  }

  /** The numbers counted down from n total n(n+1)/2. */
  lemma {:induction false} CountdownTotal(n: int)
    requires n >= 0
    ensures 2 * SeqSum(Countdown(n)) == n * (n + 1)
  {
    if n > 0 {
      CountdownTotal(n - 1);
      assert Countdown(n)[1..] == Countdown(n - 1);
      assert n * (n + 1) == (n - 1) * n + 2 * n;
    }
  }

  /** Summing all n elements of countdown(n) gives n(n+1)/2. */
  lemma SumOfCountdown(n: int)
    requires n >= 0
    ensures 2 * Sum(Countdown(n), n) == n * (n + 1)
  {
    assert Countdown(n)[..n] == Countdown(n);
    CountdownTotal(n);
  }

  /** Reference factorial. */
  function Fact(n: nat): nat
  {
    if n == 0 then 1 else n * Fact(n - 1)
  }

  /** factorialize: num! multiplied into the accumulator factorial, which
      the source defaults to 1; a num <= 0 returns the accumulator. */
  function Factorialize(num: int, factorial: int := 1): (r: int)
    decreases num
    ensures num <= 0 ==> r == factorial
    ensures num >= 0 ==> r == factorial * Fact(num)
  {
    if num <= 0 then factorial
    else
      assert factorial * num * Fact(num - 1) == factorial * Fact(num);
      Factorialize(num - 1, factorial * num)
  }

  /** Reference product of a sequence. */
  function Product(s: seq<int>): int
  {
    if |s| == 0 then 1 else s[0] * Product(s[1..])
  }

  /** With the default accumulator, factorialize(n) multiplies together the
      numbers counted down from n. */
  lemma {:induction false} FactorializeMultipliesCountdown(n: int)
    requires n >= 0
    ensures Factorialize(n) == Product(Countdown(n))
  {
    if n > 0 {
      FactorializeMultipliesCountdown(n - 1);
      assert Countdown(n) == [n] + Countdown(n - 1);
      assert Countdown(n)[1..] == Countdown(n - 1);
    }
  }
}
