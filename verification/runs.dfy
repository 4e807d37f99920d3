/** CountRun of TimSorter.cs: the natural run at the start of a slice. */
module Runs {
  import opened Order
  import opened Results
  import opened Shared

  /** What CountRun returns: the run's length and whether it was counted as
      descending (and is to be reversed). */
  datatype Run = Run(count: nat, descending: bool)

  /** Every neighbour pair inside s[..n] steps the same way: with
      `descending` each element may stand before its predecessor, otherwise
      each is strictly above it. */
  ghost predicate Steps(s: seq<Item>, n: nat, descending: bool)
    requires n <= |s|
  {
    forall i :: 1 <= i < n ==> (StepsDown(s, i) <==> descending)
  }

  /** The loop of CountRun, from index `lo`: the index of the first
      neighbour pair that breaks the pattern, or the end of the slice. */
  function RunEnd(s: seq<Item>, lo: nat, descending: bool): (e: nat)
    requires 1 <= lo <= |s|
    requires Steps(s, lo, descending)
    ensures lo <= e <= |s| && Steps(s, e, descending)
    ensures e < |s| ==> (Le(s[e], s[e - 1]) <==> !descending)
    decreases |s| - lo
  {
    if lo == |s| || (IsLowerThan(s[lo], s[lo - 1]) != descending) then lo
    else RunEnd(s, lo + 1, descending)
  }

  /** CountRun: throws on an empty slice, reports (1, ascending) for one
      element, and otherwise counts the longest prefix whose neighbours all
      step the way the first two do; the first step is "descending" when the
      second element may stand before the first. */
  function CountRun(s: seq<Item>): (r: Result<Run>)
    ensures r.Failure? <==> |s| == 0
    ensures |s| == 1 ==> r == Success(Run(1, false))
    ensures |s| >= 2 ==> r.Success? && 2 <= r.value.count <= |s|
    ensures |s| >= 2 ==> (r.value.descending <==> Le(s[1], s[0]))
    ensures r.Success? ==> r.value.count <= |s| && Steps(s, r.value.count, r.value.descending)
    ensures r.Success? && r.value.count < |s| ==>
      (Le(s[r.value.count], s[r.value.count - 1]) <==> !r.value.descending)
  {
    if |s| == 0 then Failure("Span is empty")
    else if |s| == 1 then Success(Run(1, false))
    else
      var descending := IsLowerThan(s[1], s[0]);
      Success(Run(RunEnd(s, 2, descending), descending))
  }

  lemma StepAt(s: seq<Item>, n: nat, descending: bool, i: nat)
    requires n <= |s| && Steps(s, n, descending) && 1 <= i < n
    ensures StepsDown(s, i) <==> descending
  {
  }

  /** The run is the longest one: any prefix length at which the first
      step's pattern holds throughout and then breaks (or the slice ends)
      is the count CountRun reports. */
  lemma CountRunIsLongest(s: seq<Item>, n: nat)
    requires 2 <= n <= |s|
    requires Steps(s, n, Le(s[1], s[0]))
    requires n < |s| ==> (Le(s[n], s[n - 1]) <==> !Le(s[1], s[0]))
    ensures CountRun(s) == Success(Run(n, Le(s[1], s[0])))
  {
    var run := CountRun(s).value;
    if run.count < n {
      // The pattern holds at run.count, inside s[..n], and breaks there.
      StepAt(s, n, run.descending, run.count);
      assert false;
    } else if n < run.count {
      StepAt(s, run.count, run.descending, n);
      assert false;
    }
  }

  /** An ascending run (each element strictly above its predecessor) is
      sorted. */
  lemma {:induction false} AscendingRunSorted(s: seq<Item>, n: nat)
    requires n <= |s| && Steps(s, n, false)
    ensures Sorted(s[..n])
  {
    if n > 1 {
      assert Steps(s, n - 1, false);
      AscendingRunSorted(s, n - 1);
      assert s[..n] == s[..n - 1] + [s[n - 1]];
      assert !StepsDown(s, n - 1);
      SortedAppend(s[..n - 1], s[n - 1]);
    }
  }

  /** A descending run, reversed, is sorted: this is what the driver puts
      in its place. */
  lemma DescendingRunReversedSorted(s: seq<Item>, n: nat)
    requires n <= |s| && Steps(s, n, true)
    ensures Sorted(Reverse(s[..n]))
  {
    var t := s[..n];
    forall i | 1 <= i < |t|
      ensures StepsDown(t, i)
    {
      assert StepsDown(s, i);
      assert t[i] == s[i] && t[i - 1] == s[i - 1];
    }
    ReverseNonIncreasing(t);
  }

  /** The run CountRun reports is, after the driver's reversal of a
      descending one, sorted. */
  lemma CountedRunSorted(s: seq<Item>)
    requires |s| > 0
    ensures var run := CountRun(s).value;
      Sorted(if run.descending then Reverse(s[..run.count]) else s[..run.count])
  {
    var run := CountRun(s).value;
    if run.descending {
      DescendingRunReversedSorted(s, run.count);
    } else {
      AscendingRunSorted(s, run.count);
    }
  }

  /** The three runs the unit tests check. */
  lemma CountRunExamples()
    ensures CountRun([Item(3, 0), Item(2, 1), Item(1, 2)]) == Success(Run(3, true))
    ensures CountRun([Item(1, 0), Item(2, 1), Item(3, 2)]) == Success(Run(3, false))
    ensures CountRun([Item(1, 0), Item(2, 1), Item(-1, 2)]) == Success(Run(2, false))
  {
  }
}
