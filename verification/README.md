# snippets.js exercises in Dafny

A model of the self-contained exercises in `snippets.js`, a notebook of
JavaScript study snippets, and proofs of what each one computes:

- **Recursion** — `countdown`, `rangeOfNumbers`, `sum` and `factorialize`.
  Each is a recursive function over unbounded integers and sequences. Each has
  a closed-form contract, and lemmas tie the functions to one another: the
  countdown is the range reversed, its sum is n(n+1)/2, and its product is
  what `factorialize(n)` returns.
- **Stopwatch** — the constructor function whose closure keeps `startTime`,
  `endTime`, `running` and `duration`. The watch is an immutable `Watch`
  record. Each call returns a `Call`: the watch after the call and whether the
  call threw. A call that throws returns the watch unchanged, because the
  source throws before it mutates anything. The clock is an integer
  millisecond parameter instead of `new Date()`. The duration is kept in
  milliseconds. The `duration` getter returns it in seconds, as an exact
  `real`. `Run` applies a sequence of calls. The trace lemmas cover the
  duration's sign, its growth between resets, and what a reset discards.
- **Sequences** — `reverseString` is a method with the source's
  descending-index loop. `arrayChecker` is a membership test through a model
  of `indexOf`. `nonMutatingSort` is a sorted permutation of a value-typed
  argument, and it is the only sorted permutation.
- **Url** — `onlyURL`, modelled as the same pipeline of `toLowerCase`,
  `trim`, `split(/\s+/)` and `join("-")`. Split-then-join with any
  one-character separator is proved equal to a reference that turns each
  whitespace run into that character. With a space as the separator, this
  fixes every piece of the split. `onlyURL` is also proved idempotent.

`onlyURL` is declared twice in `snippets.js`, with identical bodies
(lines 175-181 and 184-190). The later declaration wins in JavaScript. It is
modelled once.

## Model

| member | source | states |
|---|---|---|
| Recursion.Countdown | snippets.js:4-12 | empty for n < 1; otherwise n elements, element i being n - i (n down to 1) |
| Recursion.RangeOfNumbers | snippets.js:15-23 | empty when start > end; otherwise end - start + 1 elements, element i being start + i (both ends included) |
| Recursion.CountdownReversesRange | snippets.js:4-23 | countdown(n) is rangeOfNumbers(1, n) in reverse order |
| Recursion.Sum | snippets.js:26-29 | 0 for n <= 0; for 0 <= n <= length, the total of the first n elements, as computed by an independent front-to-back sum |
| Recursion.SumOfCountdown | snippets.js:4-29 | summing all n elements of countdown(n) gives n(n+1)/2 |
| Recursion.Factorialize | snippets.js:32-35 | returns the accumulator when num <= 0, and accumulator × num! (independent factorial) when num >= 0 |
| Recursion.FactorializeMultipliesCountdown | snippets.js:4-35 | with the default accumulator 1 (a default parameter, as in the source), factorialize(n) is the product of countdown(n) |
| Stopwatch.New | snippets.js:66-70 | a freshly constructed watch is idle, has no start or end time, and has duration 0 |
| Stopwatch.Duration | snippets.js:96-99 | the getter's seconds times 1000 equal the accumulated milliseconds |
| Stopwatch.Start | snippets.js:73-78 | throws "already started" exactly when running, and then the watch is unchanged; otherwise running with start time now; the duration never changes |
| Stopwatch.Stop | snippets.js:80-87 | throws "already stopped" exactly when idle, and then the watch is unchanged; otherwise idle, end time now, duration increased by exactly now - startTime, so it does not decrease when the clock has not gone back |
| Stopwatch.Reset | snippets.js:89-94 | from any state: idle, zero duration, no start or end time, the same as a freshly constructed watch |
| Stopwatch.Run | snippets.js:66-94 | after any sequence of calls, including calls that throw, a running watch has a start time |
| Stopwatch.DurationStaysNonNegative | snippets.js:73-94 | under a clock that never runs backwards, the duration is never negative after any sequence of calls |
| Stopwatch.DurationMonotoneWithoutReset | snippets.js:73-87 | between resets, and under a clock that never runs backwards, the duration never decreases |
| Stopwatch.ResetForgetsHistory | snippets.js:89-94 | a run with a reset in it ends as if a fresh watch had started after the reset |
| Stopwatch.StartTwiceThrows | snippets.js:73-78 | a second start without a stop throws "already started", and the duration is unchanged |
| Stopwatch.StopBeforeStartThrows | snippets.js:66-82 | stopping a fresh watch throws "already stopped", and the duration stays 0 |
| Stopwatch.InstantStopAddsNothing | snippets.js:73-87 | a stop at the start's instant leaves the duration unchanged |
| Stopwatch.TwoCycles | snippets.js:73-99 | 1 s of timing reads 1.0 s; a further 0.5 s cycle reads 1.5 s |
| Sequences.ReverseString | snippets.js:151-157 | same length; character k is the input's character k places from the end; equals the reference reversal |
| Sequences.ReversedTwice | snippets.js:151-157 | reversing twice gives back the input |
| Sequences.IndexOf | snippets.js:161 | -1 exactly when the element is absent; otherwise the first index holding it |
| Sequences.ArrayChecker | snippets.js:160-165 | true if and only if the element occurs in the array |
| Sequences.NonMutatingSort | snippets.js:168-172 | ascending, and the same multiset of elements as the argument |
| Sequences.SortedPermutationUnique | snippets.js:168-172 | two ascending sequences with equal multisets are equal, so the sorted copy is fully determined |
| Sequences.SortIgnoresOrder | snippets.js:168-172 | rearranging the input does not change the sorted result |
| Sequences.SortFixesSorted | snippets.js:168-172 | sorting an already ascending array returns an equal copy |
| Url.ToLower | snippets.js:177 | same length, each character lowered, no upper-case letter left, whitespace positions kept |
| Url.Trim | snippets.js:178 | neither end is whitespace; empty exactly when the input is all whitespace; a string without whitespace is unchanged |
| Url.LeadingWhitespace | snippets.js:178 | the count of leading characters that are whitespace, stopping at the first one that is not |
| Url.ContentEnd | snippets.js:178 | an index, no earlier than the end of the leading whitespace, after which every character is whitespace and before which the character (if any is kept) is not |
| Url.TrimIsSlice | snippets.js:178 | trim returns exactly the slice of the input between the end of the leading whitespace and the start of the trailing whitespace, so nothing inside is removed |
| Url.SplitWhitespace | snippets.js:179 | at least one piece; no piece contains whitespace; a string with no whitespace is one piece |
| Url.TrimmedSplitHasNoEmptyPiece | snippets.js:178-179 | a trimmed non-empty string splits into non-empty pieces only |
| Url.Join | snippets.js:180 | no pieces join to the empty string; a single piece joins to itself |
| Url.JoinLength | snippets.js:180 | the joined length is the total length of the pieces plus one separator for each neighbouring pair |
| Url.SplitJoinReplacesRuns | snippets.js:179-180 | for any one-character separator c, split-then-join with c equals replacing each whitespace run with one c |
| Url.JoinSpaceInjective | snippets.js:179-180 | two lists of whitespace-free pieces that join with spaces to the same string are equal |
| Url.SplitPiecesDetermined | snippets.js:179 | the split is the only list of whitespace-free pieces whose space-join is the string with each whitespace run made one space |
| Url.OnlyUrl | snippets.js:175-181 | no whitespace or upper case in the result; never longer than the title; empty exactly when the title is all whitespace |
| Url.OnlyUrlHyphenatesRuns | snippets.js:175-181 | the result is the lowered, trimmed title with each whitespace run replaced by one hyphen |
| Url.OnlyUrlIdempotent | snippets.js:175-181 | applying onlyURL to its own output changes nothing |

## Left out

- `calculator`, `convertCtoF` and `convertFtoC` (snippets.js:42-55, 143-148): one-line floating-point arithmetic. The model has no IEEE doubles.
- `clock` (snippets.js:58-63), `highlightDivs` (snippets.js:103-109) and the Node `fs` block (snippets.js:112-140): timers, the DOM, console output and asynchronous file I/O, with no result to state.
- Stopwatch.Stop: the source divides each elapsed time by 1000 in floating point and adds it to a float. The model keeps exact integer milliseconds. The getter's exact `real` is what that float sum approximates.
- Stopwatch clock: `new Date()` is replaced by the `now` argument of `Start` and `Stop`. Time is in integer milliseconds.
- Stopwatch.Stop requires the watch to be `Valid` (a running watch has a start time). Every state reachable from a fresh watch satisfies this, as `Run` shows. The source has no other way to reach a running watch.
- Stopwatch.Duration: the getter is the only read path. Dafny datatypes are immutable, so "not externally settable" holds without further modelling.
- Recursion.Sum: `n` above the array length is excluded by a precondition. There the source reads `undefined` and returns NaN.
- Recursion: JavaScript numbers are doubles. The model uses unbounded integers, so precision loss for large factorials and sums is not modelled. Non-integer and non-numeric arguments are not modelled either.
- Sequences.ReverseString: a Dafny string is a sequence of Unicode code points, but JavaScript's `length` and `str[i]` count UTF-16 code units. For characters outside the Basic Multilingual Plane (such as emoji) the source reverses the two halves of a surrogate pair separately. The model keeps each code point whole. The two agree on every string without such characters.
- Sequences.IndexOf: NaN and the other cases where `===` is not reflexive are not modelled. Elements are compared with Dafny equality.
- Sequences.NonMutatingSort: the algorithm behind `Array.prototype.sort` is not modelled. The result is specified as the unique ascending permutation. It is computed here by insertion. The argument is a value, so the caller's array is never changed.
- Url.OnlyUrl: restricted to ASCII titles. Unicode case mapping and the non-ASCII whitespace of `\s` and `trim` (such as U+00A0 and U+FEFF) are not modelled.
- Url.Join: its own contract covers zero and one piece. `JoinLength` states the length of a longer join. Its contents for split pieces are stated by `SplitJoinReplacesRuns`. These facts are kept out of `Join`'s contract because a length clause there makes the `onlyURL` proof run out of resources.
