# holier-than-thou: the per-hole processing loop, in Dafny

The program downloads the solutions log of every code.golf hole. A log is the
full history of submitted solutions, each a `Solution` record: bytes, chars,
golfer, hole, language, scoring metric, submission timestamp, and a `rank`
that the log does not carry and that defaults to 0. The program then processes
each hole's log in place, in this order:

1. `retain` the solutions whose `scoring` tag is the selected metric (`"bytes"`).
2. `retain` the solutions whose `submitted` timestamp is, as a string, `<=` the
   cutoff (`"2026"`).
3. `sort_by_key` on `submitted`, then `reverse`, then `sort_by_key` on
   `golfer`. Both sorts are stable. The result is grouped by golfer in
   ascending order, with each golfer's most recent submission first.

Last, it reports how many solutions are left over all holes.

The model follows that structure:

- `Lex` defines Rust's `str` ordering. Dafny's `<` on sequences means prefix,
  so it cannot be used.
- `Sequences` defines `Filter` and `Reversed` as values: what `retain` and
  `reverse` leave behind.
- `StableSort` defines `InsertionSort`, a reference stable sort by a string key.
  It proves that this sort is sorted, is a permutation and is stable. It also
  proves that the result is the only possible stable sort, so it equals what
  Rust's `sort_by_key` returns.
- `Vectors.Vec` is the part of `Vec<T>` the loop uses. It is a buffer whose
  first `len` slots hold the contents. It has in-place `Retain`, `Reverse` and
  `SortByKey`, and each one is proved to leave `Contents()` equal to the
  reference function of the old contents.
- `Solutions` has the `Solution` record, the `SolutionLog` class with
  `Process`, which is one iteration of the loop, `ProcessAll`, which is the
  loop over all logs plus the reported total, and the lemmas that state what
  the loop body promises.

Notes on the model:

- Rust compares `str` values byte by byte over UTF-8. Dafny's `char` is a
  Unicode scalar value, and UTF-8 keeps scalar-value order, so `Lex.LexLe`
  gives the same answer as Rust for every string, not only for ASCII.
- The cutoff `"2026"` is compared as it is. The code does not widen a bare
  year to the end of that year. A full timestamp of 2026, such as
  `"2026-01-01T…"`, extends the string `"2026"`, so it sorts after it and is
  dropped, while every timestamp whose first four characters sort before
  `"2026"` is kept. So for full timestamps this cutoff means "before 2026"
  (`CutoffExcludesItsOwnYear`, `CutoffKeepsEarlierYears`,
  `CutoffDecidedByYear`).
- `ProcessAll` requires that the logs own pairwise distinct vectors and
  buffers (`Separate`). Rust's ownership of `Vec<SolutionLog>` guarantees
  this, and the source makes no other demand of the data.

## Model

| member | source | states |
|---|---|---|
| `Lex.LexLeCharacterised` | src/main.rs:79 | the string `<=` used by the cutoff filter holds exactly when the left string is a prefix of the right one, or the two first differ at a position where the left character is smaller |
| `Lex.LexLeReflexive` | src/main.rs:79 | every string is `<=` itself, which makes the cutoff comparison inclusive |
| `Lex.LexLeTotal` | src/main.rs:83 | any two timestamps or golfer names are comparable, in one direction or the other |
| `Lex.LexLeTransitive` | src/main.rs:83 | the string order used as a sort key is transitive |
| `Lex.LexLeAntisymmetric` | src/main.rs:85 | two keys that are each `<=` the other are equal |
| `Lex.ProperExtensionNotLe` | src/main.rs:79 | a string that properly extends another sorts strictly after it |
| `Lex.LexLtIsNotLe` | src/main.rs:83 | "not `b <= a`" holds exactly when `a <= b` and `a != b`, so it is the strict order a stable sort compares by |
| `Lex.ExtensionOfSameLength` | src/main.rs:79 | a proper extension of a string `p` as long as `b` is `<= b` exactly when `p` is strictly below `b` |
| `Sequences.Filter` | src/main.rs:78-79 | `retain` never makes the vector longer |
| `Sequences.FilterCount` | src/main.rs:78-79 | after `retain`, an element occurs as often as before if the closure accepts it, and not at all otherwise |
| `Sequences.FilterMember` | src/main.rs:78-79 | an element is in the result of `retain` exactly when it was in the vector and the closure accepts it |
| `Sequences.FilterKeepsOrder` | src/main.rs:78-79 | two accepted elements keep their relative order, at positions given by how many accepted elements come before each |
| `Sequences.FilterFilter` | src/main.rs:78-79 | two `retain` calls in a row equal one `retain` by the conjunction of their closures |
| `Sequences.FilterConcat` | src/main.rs:78 | retaining over a concatenation is the concatenation of the retained parts |
| `Sequences.Reversed` | src/main.rs:84 | `reverse` keeps the length |
| `Sequences.ReversedAt` | src/main.rs:84 | after `reverse`, position `k` holds the element from position `n - 1 - k` |
| `Sequences.ReversedMultiset` | src/main.rs:84 | `reverse` is a permutation |
| `Sequences.ReversedReversed` | src/main.rs:84 | reversing twice gives back the original order |
| `StableSort.InsertKeepsKeyClasses` | src/main.rs:85 | inserting one element into a sorted prefix adds it to the end of its own key class and leaves all other key classes unchanged |
| `StableSort.InsertionSortCorrect` | src/main.rs:83 | sorting by key leaves the sequence in non-decreasing key order, with the same elements the same number of times, and each key class in input order |
| `StableSort.InsertionSortStable` | src/main.rs:85 | the sort is stable: for every key, the elements with that key keep their input order |
| `StableSort.StablyOrderedPermutation` | src/main.rs:85 | an ordering that keeps every key class in input order is a permutation of the input |
| `StableSort.SortedWithSameClassesEqual` | src/main.rs:85 | two key-sorted sequences with identical key classes are equal |
| `StableSort.StableSortIsUnique` | src/main.rs:83 | any ordering that is sorted by the key and stable is exactly the reference sort, so the insertion sort gives the same result as Rust's `sort_by_key` |
| `StableSort.ReversedSortedDescending` | src/main.rs:83-84 | a list sorted ascending by timestamp, once reversed, is in descending timestamp order |
| `StableSort.FilterSortedDescending` | src/main.rs:85 | any subsequence picked out of a list in descending order is still in descending order |
| `Vectors.Vec.FromSeq` | src/main.rs:34 | a new vector holds exactly the given solutions |
| `Vectors.Vec.Len` | src/main.rs:125 | `len()` is the number of elements the vector holds |
| `Vectors.Vec.Retain` | src/main.rs:78-79 | in place, the vector's contents become exactly the accepted elements in their original order, and the buffer stays the same one |
| `Vectors.Compact` | src/main.rs:78-79 | the compaction loop moves the accepted elements of the first `n` slots, in order, to the front and returns how many there are |
| `Vectors.Vec.Reverse` | src/main.rs:84 | in place, the contents become the old contents reversed |
| `Vectors.Vec.SortByKey` | src/main.rs:83 | in place, the contents become the stable sort of the old contents by the key |
| `Vectors.InsertInPlace` | src/main.rs:85 | one insertion step moves the next element left past every element of the sorted prefix with a strictly greater key, and leaves the slots after it untouched |
| `Vectors.InsertAt` | src/main.rs:85 | the slot that the in-place insertion step finds is where the reference insertion puts the element |
| `Solutions.RetainedIsOneFilter` | src/main.rs:78-79 | the two `retain` calls keep exactly the solutions that have the selected scoring and were submitted at or before the cutoff |
| `Solutions.RetainedExactly` | src/main.rs:78-79 | a solution is removed exactly when it fails the scoring test or the cutoff test, and a solution that passes keeps all of its occurrences |
| `Solutions.RetainedKeepsOrder` | src/main.rs:78-79 | the surviving solutions keep their original relative order, so the result is a subsequence of the log |
| `Solutions.CutoffIsInclusive` | src/main.rs:79 | a solution with the selected scoring whose timestamp equals the cutoff string is kept |
| `Solutions.CutoffExcludesItsOwnYear` | src/main.rs:44 | with the program's cutoff `"2026"`, every longer timestamp starting with `2026` is dropped |
| `Solutions.CutoffKeepsEarlierYears` | src/main.rs:44 | with the program's cutoff `"2026"`, every timestamp whose first four characters sort strictly before `"2026"` is kept |
| `Solutions.CutoffDecidedByYear` | src/main.rs:44 | with the program's cutoff `"2026"`, a timestamp longer than four characters passes exactly when its first four characters sort strictly before `"2026"` |
| `Solutions.ReorderedIsPermutation` | src/main.rs:83-85 | sorting by timestamp, reversing and sorting by golfer keep the same solutions, each as often as before, and so the same count |
| `Solutions.ReorderedGroupedByGolfer` | src/main.rs:85 | after the last step the solutions are in non-decreasing golfer order |
| `Solutions.ReorderedLatestFirst` | src/main.rs:81-85 | of two solutions by the same golfer, the later one comes first, so each golfer's latest submission leads the group |
| `Solutions.ProcessedCorrect` | src/main.rs:73-104 | one iteration leaves exactly the qualifying solutions, each unchanged and as often as in the log, grouped by golfer in ascending order, latest first |
| `Solutions.ProcessedWithProgramSettings` | src/main.rs:42-44 | with the program's settings `"bytes"` and `"2026"`, a solution with a full timestamp is kept exactly when it is scored by bytes and dated before 2026; the result is grouped by golfer and has one entry per qualifying solution |
| `Solutions.NoDeduplication` | src/main.rs:86 | two different qualifying solutions by the same golfer both remain, because the deduplication step is disabled |
| `Solutions.TotalAfterProcessing` | src/main.rs:125 | after processing, the sum of the per-hole counts equals the number of qualifying solutions over all holes, and it is at most the number before processing |
| `Solutions.SolutionLog.constructor` | src/main.rs:58-63 | a log is built with the hole's id and the fetched solutions |
| `Solutions.SolutionLog.Process` | src/main.rs:78-85 | in place, the log's solutions become the processed old solutions, and `hole_id` is unchanged |
| `Solutions.ProcessOne` | src/main.rs:73-104 | processing one log changes only that log's solutions |
| `Solutions.TotalSolutions` | src/main.rs:125 | the reported total is the sum of the lengths of all logs' contents |
| `Solutions.ProcessAll` | src/main.rs:73-125 | every log's contents become their processed old contents, and every `hole_id` is unchanged; the returned total is the number of qualifying solutions over all holes |

## Left out

- Fetching the hole list and each hole's log over HTTP, with up to 10 retries and a panic after the last one (src/main.rs:51-52, 58-65, 130-145). This is network I/O and async `join_all` concurrency. A log enters the model as a value passed to `SolutionLog`'s constructor.
- JSON decoding with serde (src/main.rs:3, 52, 141), including the `#[serde(default)]` that gives `rank` its value 0. This is a foreign library. The model carries `rank` as a field that nothing writes.
- Timing with `Instant` and all `println!` output, including the dump of the `catalan-numbers` log (src/main.rs:48-49, 56, 69-71, 106-124). This is I/O. The reported total is the value `ProcessAll` returns.
- The commented-out code: `dedup_by_key` (src/main.rs:86), the length-based rank sort (src/main.rs:90-96), and the golfer filter with its re-sort (src/main.rs:102-103). None of it runs. The golfer list at src/main.rs:43 is used only by that dead code.
- `Hole` and `HoleLink` (src/main.rs:5-18). They only carry data for the fetch layer.
- Ranking, scores, sole-leader handling, cross-hole comparison and the bar chart do not exist in src/main.rs, so they are not part of this model.
- The algorithm Rust's `sort_by_key` uses internally, and the cloning of each key. The model sorts by insertion, which can give a different comparison count and memory use but the same result, since `StableSort.StableSortIsUnique` shows a stable sort has only one possible outcome.
- `Vec` capacity, reallocation and ownership transfer. The vector is a fixed buffer that only shrinks. Slots past `len` after `retain` are left unspecified, as for a truncated `Vec`.
- The `u32` lengths and `usize` rank are bounded types. The loop does no arithmetic on them, and `usize` is taken as 64 bits. The total is an unbounded `nat`, so the model does not capture `usize` overflow of the sum, which would need more than 2^64 solutions.
