/** The records of a hole's submission log and the per-hole processing loop
    of the program's `main`: keep the solutions scored by the selected metric
    and submitted no later than the cutoff, then order them so that each
    golfer's solutions are together, latest first. */
module Solutions {
  import opened Lex
  import opened Sequences
  import opened StableSort
  import opened Vectors

  newtype U32 = x: int | 0 <= x < 0x1_0000_0000
  newtype USize = x: int | 0 <= x < 0x1_0000_0000_0000_0000

  /** One entry of a hole's solutions log. `rank` is absent from the log and
      takes its default, `0`; nothing in the loop writes it. */
  datatype Solution = Solution(
    bytes: U32,
    chars: U32,
    golfer: string,
    hole: string,
    lang: string,
    scoring: string,
    submitted: string,
    rank: USize)

  /** The metric and cutoff the program runs with. */
  const SelectedScoring: string := "bytes"
  const TimestampCutoff: string := "2026"

  function Golfer(s: Solution): string { s.golfer }
  function Submitted(s: Solution): string { s.submitted }

  /** The closure of the first `retain`. */
  function HasScoring(scoring: string): Solution -> bool
  {
    (s: Solution) => s.scoring == scoring
  }

  /** The closure of the second `retain`: submitted at or before `cutoff`. */
  function SubmittedBy(cutoff: string): Solution -> bool
  {
    (s: Solution) => LexLe(s.submitted, cutoff)
  }

  /** A solution survives the two filters exactly when this holds. */
  predicate Qualifies(scoring: string, cutoff: string, s: Solution)
  {
    s.scoring == scoring && LexLe(s.submitted, cutoff)
  }

  function Qualifying(scoring: string, cutoff: string): Solution -> bool
  {
    (s: Solution) => Qualifies(scoring, cutoff, s)
  }

  /** The log after the two `retain` calls. */
  function Retained(s: seq<Solution>, scoring: string, cutoff: string): seq<Solution>
  {
    Filter(SubmittedBy(cutoff), Filter(HasScoring(scoring), s))
  }

  /** The log after sorting by `submitted`, reversing and sorting by `golfer`. */
  function Reordered(s: seq<Solution>): seq<Solution>
  {
    InsertionSort(Golfer, Reversed(InsertionSort(Submitted, s)))
  }

  /** The whole body of the per-hole loop. */
  function Processed(s: seq<Solution>, scoring: string, cutoff: string): seq<Solution>
  {
    Reordered(Retained(s, scoring, cutoff))
  }

  // ---------------------------------------------------------------------
  // The two filters

  /** The two filters in a row are one filter by `Qualifies`. */
  lemma RetainedIsOneFilter(s: seq<Solution>, scoring: string, cutoff: string)
    ensures Retained(s, scoring, cutoff) == Filter(Qualifying(scoring, cutoff), s)
  {
    FilterFilter(HasScoring(scoring), SubmittedBy(cutoff), Qualifying(scoring, cutoff), s);
  }

  /** A solution is removed exactly when it fails the scoring test or the
      cutoff test; one that passes both keeps every one of its occurrences. */
  lemma RetainedExactly(s: seq<Solution>, scoring: string, cutoff: string, x: Solution)
    ensures multiset(Retained(s, scoring, cutoff))[x]
         == if Qualifies(scoring, cutoff, x) then multiset(s)[x] else 0
    ensures x in Retained(s, scoring, cutoff)
        <==> x in s && x.scoring == scoring && LexLe(x.submitted, cutoff)
  {
    RetainedIsOneFilter(s, scoring, cutoff);
    FilterCount(Qualifying(scoring, cutoff), s, x);
    FilterMember(Qualifying(scoring, cutoff), s, x);
  }

  /** The filters keep relative order: two qualifying solutions `s[i]` and
      `s[j]`, `i < j`, are found in the result at increasing positions, each
      the number of qualifying solutions before it. */
  lemma RetainedKeepsOrder(s: seq<Solution>, scoring: string, cutoff: string, i: nat, j: nat)
    requires i < j < |s|
    requires Qualifies(scoring, cutoff, s[i]) && Qualifies(scoring, cutoff, s[j])
    ensures |Retained(s[..i], scoring, cutoff)| < |Retained(s[..j], scoring, cutoff)| < |Retained(s, scoring, cutoff)|
    ensures Retained(s, scoring, cutoff)[|Retained(s[..i], scoring, cutoff)|] == s[i]
    ensures Retained(s, scoring, cutoff)[|Retained(s[..j], scoring, cutoff)|] == s[j]
  {
    RetainedIsOneFilter(s, scoring, cutoff);
    RetainedIsOneFilter(s[..i], scoring, cutoff);
    RetainedIsOneFilter(s[..j], scoring, cutoff);
    FilterKeepsOrder(Qualifying(scoring, cutoff), s, i, j);
  }

  /** The cutoff is inclusive: a solution submitted exactly at the cutoff
      string, under the selected metric, is kept. */
  lemma CutoffIsInclusive(s: seq<Solution>, scoring: string, cutoff: string, x: Solution)
    requires x in s && x.scoring == scoring && x.submitted == cutoff
    ensures x in Retained(s, scoring, cutoff)
  {
    LexLeReflexive(cutoff);
    RetainedExactly(s, scoring, cutoff, x);
  }

  /** With the program's cutoff "2026", a timestamp in the year 2026 is
      dropped: it extends the string "2026" and so sorts after it. */
  lemma CutoffExcludesItsOwnYear(t: string)
    requires |t| > 4 && t[..4] == TimestampCutoff
    ensures !LexLe(t, TimestampCutoff)
  {
    ProperExtensionNotLe(t, TimestampCutoff);
  }

  /** With the program's cutoff "2026", every timestamp whose first four
      characters sort strictly before "2026" is kept. */
  lemma CutoffKeepsEarlierYears(t: string)
    requires |t| >= 4 && LexLe(t[..4], TimestampCutoff) && t[..4] != TimestampCutoff
    ensures LexLe(t, TimestampCutoff)
  {
    if |t| > 4 {
      ExtensionOfSameLength(t[..4], TimestampCutoff, t);
    } else {
      assert t == t[..4];
    }
  }

  /** With the program's cutoff "2026", a timestamp longer than a bare year
      passes the cutoff test exactly when its first four characters sort
      strictly before "2026". */
  lemma CutoffDecidedByYear(t: string)
    requires |t| > 4
    ensures LexLe(t, TimestampCutoff) <==> LexLe(t[..4], TimestampCutoff) && t[..4] != TimestampCutoff
  {
    ExtensionOfSameLength(t[..4], TimestampCutoff, t);
  }

  // ---------------------------------------------------------------------
  // The three reordering steps

  /** The reordering only permutes: the same solutions, as often as before. */
  lemma ReorderedIsPermutation(s: seq<Solution>)
    ensures multiset(Reordered(s)) == multiset(s)
    ensures |Reordered(s)| == |s|
  {
    var a := InsertionSort(Submitted, s);
    InsertionSortMultiset(Submitted, s);
    ReversedMultiset(a);
    InsertionSortMultiset(Golfer, Reversed(a));
    assert |multiset(Reordered(s))| == |multiset(s)|;
  }

  /** After the last step the solutions are in non-decreasing golfer order. */
  lemma ReorderedGroupedByGolfer(s: seq<Solution>)
    ensures SortedBy(Golfer, Reordered(s))
  {
    InsertionSortSorted(Golfer, Reversed(InsertionSort(Submitted, s)));
  }

  /** Each golfer's solutions appear with the most recent first: the golfer
      sort is stable and runs on a list in descending timestamp order. */
  lemma ReorderedLatestFirst(s: seq<Solution>, i: nat, j: nat)
    requires i < j < |Reordered(s)|
    requires Reordered(s)[i].golfer == Reordered(s)[j].golfer
    ensures LexLe(Reordered(s)[j].submitted, Reordered(s)[i].submitted)
  {
    var a := InsertionSort(Submitted, s);
    var b := Reversed(a);
    var r := Reordered(s);
    var p := HasKey(Golfer, r[i].golfer);
    InsertionSortSorted(Submitted, s);
    ReversedSortedDescending(Submitted, a);
    FilterSortedDescending(Submitted, p, b);
    InsertionSortStable(Golfer, b);
    assert Filter(p, r) == Filter(p, b);
    FilterKeepsOrder(p, r, i, j);
  }

  // ---------------------------------------------------------------------
  // The whole loop body

  /** What the loop body leaves in a hole's log: exactly the qualifying
      solutions (each as often as in the input, unchanged, so duplicates of a
      golfer are not removed), grouped by golfer in ascending order, each
      golfer's latest submission first. */
  lemma ProcessedCorrect(s: seq<Solution>, scoring: string, cutoff: string)
    ensures multiset(Processed(s, scoring, cutoff)) == multiset(Filter(Qualifying(scoring, cutoff), s))
    ensures |Processed(s, scoring, cutoff)| == |Filter(Qualifying(scoring, cutoff), s)|
    ensures forall x :: x in Processed(s, scoring, cutoff) <==> x in s && Qualifies(scoring, cutoff, x)
    ensures SortedBy(Golfer, Processed(s, scoring, cutoff))
    ensures forall i, j :: 0 <= i < j < |Processed(s, scoring, cutoff)|
                           && Processed(s, scoring, cutoff)[i].golfer == Processed(s, scoring, cutoff)[j].golfer
                           ==> LexLe(Processed(s, scoring, cutoff)[j].submitted, Processed(s, scoring, cutoff)[i].submitted)
  {
    var f := Retained(s, scoring, cutoff);
    var r := Processed(s, scoring, cutoff);
    RetainedIsOneFilter(s, scoring, cutoff);
    ReorderedIsPermutation(f);
    ReorderedGroupedByGolfer(f);
    forall x ensures x in r <==> x in s && Qualifies(scoring, cutoff, x) {
      assert x in r <==> x in multiset(r);
      assert x in f <==> x in multiset(f);
      RetainedExactly(s, scoring, cutoff, x);
    }
    forall i, j | 0 <= i < j < |r| && r[i].golfer == r[j].golfer
      ensures LexLe(r[j].submitted, r[i].submitted)
    {
      ReorderedLatestFirst(f, i, j);
    }
  }

  /** No deduplication happens: two different qualifying solutions by the
      same golfer are both still there after the loop body. */
  lemma NoDeduplication(s: seq<Solution>, scoring: string, cutoff: string, x: Solution, y: Solution)
    requires x in s && y in s && x != y && x.golfer == y.golfer
    requires Qualifies(scoring, cutoff, x) && Qualifies(scoring, cutoff, y)
    ensures x in Processed(s, scoring, cutoff) && y in Processed(s, scoring, cutoff)
    ensures |Processed(s, scoring, cutoff)| >= 2
  {
    ProcessedCorrect(s, scoring, cutoff);
    var r := Processed(s, scoring, cutoff);
    assert multiset(r)[x] >= 1 && multiset(r)[y] >= 1;
    assert multiset{x, y} <= multiset(r);
    assert |multiset{x, y}| == 2;
  }

  /** The loop body under the program's own settings: a solution with a full
      timestamp is kept exactly when it is scored by bytes and dated before
      2026, and the kept solutions are grouped by golfer, latest first. */
  lemma ProcessedWithProgramSettings(s: seq<Solution>, x: Solution)
    requires |x.submitted| > 4
    ensures x in Processed(s, SelectedScoring, TimestampCutoff)
        <==> x in s && x.scoring == "bytes"
             && LexLe(x.submitted[..4], "2026") && x.submitted[..4] != "2026"
    ensures SortedBy(Golfer, Processed(s, SelectedScoring, TimestampCutoff))
    ensures |Processed(s, SelectedScoring, TimestampCutoff)| == |Filter(Qualifying(SelectedScoring, TimestampCutoff), s)|
  {
    ProcessedCorrect(s, SelectedScoring, TimestampCutoff);
    CutoffDecidedByYear(x.submitted);
  }

  // ---------------------------------------------------------------------
  // All holes, and the reported total

  /** Every hole's log, processed. */
  function ProcessedAll(logs: seq<seq<Solution>>, scoring: string, cutoff: string): seq<seq<Solution>>
  {
    seq(|logs|, k requires 0 <= k < |logs| => Processed(logs[k], scoring, cutoff))
  }

  /** The sum of the logs' lengths. */
  function Total(logs: seq<seq<Solution>>): nat
  {
    if |logs| == 0 then 0 else |logs[0]| + Total(logs[1..])
  }

  /** All the logs one after another. */
  function Flatten(logs: seq<seq<Solution>>): seq<Solution>
  {
    if |logs| == 0 then [] else logs[0] + Flatten(logs[1..])
  }

  /** The total after processing counts the qualifying solutions of all
      holes together, and the processing never adds solutions. */
  lemma {:induction false} TotalAfterProcessing(logs: seq<seq<Solution>>, scoring: string, cutoff: string)
    ensures Total(ProcessedAll(logs, scoring, cutoff)) == |Filter(Qualifying(scoring, cutoff), Flatten(logs))|
    ensures Total(ProcessedAll(logs, scoring, cutoff)) <= Total(logs)
  {
    if |logs| > 0 {
      TotalAfterProcessing(logs[1..], scoring, cutoff);
      assert ProcessedAll(logs, scoring, cutoff)[1..] == ProcessedAll(logs[1..], scoring, cutoff);
      ProcessedCorrect(logs[0], scoring, cutoff);
      FilterConcat(Qualifying(scoring, cutoff), logs[0], Flatten(logs[1..]));
    }
  }

  /** `SolutionLog`: a hole's id and its solutions, which the loop updates in
      place. */
  class SolutionLog {
    var holeId: string
    var solutions: Vec<Solution>

    ghost predicate Valid()
      reads this, solutions
    {
      solutions.Valid()
    }

    constructor (holeId: string, solutions: seq<Solution>)
      ensures Valid() && this.holeId == holeId
      ensures fresh(this.solutions) && fresh(this.solutions.elems)
      ensures this.solutions.Contents() == solutions
    {
      this.holeId := holeId;
      this.solutions := new Vec.FromSeq(solutions);
    }

    /** One iteration of the loop over the logs. */
    method Process(scoring: string, cutoff: string)
      requires Valid()
      modifies solutions, solutions.elems
      ensures Valid() && solutions.elems == old(solutions.elems)
      ensures solutions.Contents() == Processed(old(solutions.Contents()), scoring, cutoff)
      ensures holeId == old(holeId)
    {
      solutions.Retain(HasScoring(scoring));
      solutions.Retain(SubmittedBy(cutoff));
      solutions.SortByKey(Submitted);
      solutions.Reverse();
      solutions.SortByKey(Golfer);
    }
  }

  ghost function Vecs(logs: seq<SolutionLog>): set<Vec<Solution>>
    reads logs
  {
    set l | l in logs :: l.solutions
  }

  ghost function Buffers(logs: seq<SolutionLog>): set<array<Solution>>
    reads logs, Vecs(logs)
  {
    set l | l in logs :: l.solutions.elems
  }

  ghost predicate AllValid(logs: seq<SolutionLog>)
    reads logs, Vecs(logs)
  {
    forall k :: 0 <= k < |logs| ==> logs[k].Valid()
  }

  /** Each log owns its vector and its buffer, as a `Vec<SolutionLog>` does
      in Rust. */
  ghost predicate Separate(logs: seq<SolutionLog>)
    reads logs, Vecs(logs)
  {
    forall i, j :: 0 <= i < |logs| && 0 <= j < |logs| && i != j ==>
      logs[i].solutions != logs[j].solutions && logs[i].solutions.elems != logs[j].solutions.elems
  }

  /** The contents of every log. */
  ghost function Snapshot(logs: seq<SolutionLog>): (r: seq<seq<Solution>>)
    reads logs, Vecs(logs), Buffers(logs)
    requires AllValid(logs)
    ensures |r| == |logs|
    ensures forall k :: 0 <= k < |logs| ==> r[k] == logs[k].solutions.Contents()
  {
    if |logs| == 0 then [] else [logs[0].solutions.Contents()] + Snapshot(logs[1..])
  }

  /** The number the program reports: the sum of the logs' lengths. */
  function TotalSolutions(logs: seq<SolutionLog>): (total: nat)
    reads logs, Vecs(logs), Buffers(logs)
    requires AllValid(logs)
    ensures total == Total(Snapshot(logs))
  {
    if |logs| == 0 then 0 else logs[0].solutions.Len() + TotalSolutions(logs[1..])
  }

  /** Processing one log leaves every other log as it was. */
  method ProcessOne(logs: seq<SolutionLog>, i: nat, scoring: string, cutoff: string)
    requires i < |logs|
    requires AllValid(logs) && Separate(logs)
    modifies logs[i].solutions, logs[i].solutions.elems
    ensures AllValid(logs) && Separate(logs)
    ensures forall k :: 0 <= k < |logs| ==> logs[k].solutions.elems == old(logs[k].solutions.elems)
    ensures logs[i].solutions.Contents() == Processed(old(logs[i].solutions.Contents()), scoring, cutoff)
    ensures forall k :: 0 <= k < |logs| && k != i ==> logs[k].solutions.Contents() == old(logs[k].solutions.Contents())
  {
    logs[i].Process(scoring, cutoff);
  }

  /** The loop over all logs, followed by the reported total. */
  method ProcessAll(logs: seq<SolutionLog>, scoring: string, cutoff: string) returns (total: nat)
    requires AllValid(logs) && Separate(logs)
    modifies Vecs(logs), Buffers(logs)
    ensures AllValid(logs)
    ensures Snapshot(logs) == ProcessedAll(old(Snapshot(logs)), scoring, cutoff)
    ensures forall k :: 0 <= k < |logs| ==> logs[k].holeId == old(logs[k].holeId)
    ensures total == TotalSolutions(logs)
    ensures total == |Filter(Qualifying(scoring, cutoff), Flatten(old(Snapshot(logs))))|
  {
    ghost var before := Snapshot(logs);
    var i := 0;
    while i < |logs|
      invariant 0 <= i <= |logs|
      invariant AllValid(logs) && Separate(logs)
      invariant forall k :: 0 <= k < |logs| ==> logs[k].solutions.elems == old(logs[k].solutions.elems)
      invariant forall k :: 0 <= k < i ==> logs[k].solutions.Contents() == Processed(before[k], scoring, cutoff)
      invariant forall k :: i <= k < |logs| ==> logs[k].solutions.Contents() == before[k]
    {
      assert logs[i].solutions in Vecs(logs);
      assert logs[i].solutions.elems in old(Buffers(logs));
      ProcessOne(logs, i, scoring, cutoff);
      i := i + 1;
    }
    total := TotalSolutions(logs);
    TotalAfterProcessing(before, scoring, cutoff);
    assert Snapshot(logs) == ProcessedAll(before, scoring, cutoff);
  }
}
