/** The abstract progress of the two merge loops of MergeState.cs, apart
    from where the elements sit in memory.

    MergeLo builds its output from the front: `out` is what it has written,
    `ra` and `rb` are what is left of A and of B. MergeHi builds it from the
    back: `out` is the written suffix and `ra`, `rb` the unmerged prefixes.
    Each step moves a block from the front (or back) of one rest onto the
    output; the step lemmas say when that keeps the output sorted and every
    element accounted for. */
module Merging {
  import opened Order
  import opened State

  /** Merging from the low end: the output is sorted and may precede both
      rests, and A's last element may follow all of B. */
  ghost predicate LoProgress(out: seq<Item>, ra: seq<Item>, rb: seq<Item>) {
    && Sorted(out) && Sorted(ra) && Sorted(rb)
    && (|out| > 0 && |ra| > 0 ==> Le(out[|out| - 1], ra[0]))
    && (|out| > 0 && |rb| > 0 ==> Le(out[|out| - 1], rb[0]))
    && (|ra| > 0 && |rb| > 0 ==> Le(rb[|rb| - 1], ra[|ra| - 1]))
  }

  lemma LoProgressStart(A: seq<Item>, B: seq<Item>)
    requires Mergeable(A, B)
    ensures LoProgress([], A, B)
  {
  }

  /** Moving the first `k` elements of B to the output keeps the progress
      invariant when the last of them may precede the next element of A. */
  lemma LoMoveB(out: seq<Item>, ra: seq<Item>, rb: seq<Item>, k: nat)
    requires LoProgress(out, ra, rb)
    requires 0 < k <= |rb|
    requires |ra| > 0 ==> Le(rb[k - 1], ra[0])
    ensures LoProgress(out + rb[..k], ra, rb[k..])
    ensures multiset(out + rb[..k]) + multiset(ra) + multiset(rb[k..]) == multiset(out) + multiset(ra) + multiset(rb)
  {
    SortedSplit(rb, k);
    SortedConcat(out, rb[..k]);
    SplitMultiset(rb, k);
  }

  /** Moving the first `k` elements of A to the output keeps the progress
      invariant when the last of them may precede the next element of B. */
  lemma LoMoveA(out: seq<Item>, ra: seq<Item>, rb: seq<Item>, k: nat)
    requires LoProgress(out, ra, rb)
    requires 0 < k <= |ra|
    requires |rb| > 0 ==> Le(ra[k - 1], rb[0])
    ensures LoProgress(out + ra[..k], ra[k..], rb)
    ensures multiset(out + ra[..k]) + multiset(ra[k..]) == multiset(out) + multiset(ra)
  {
    SortedSplit(ra, k);
    SortedConcat(out, ra[..k]);
    SplitMultiset(ra, k);
  }

  /** Once one side is used up, appending the other completes the merge. */
  lemma LoFinish(out: seq<Item>, ra: seq<Item>, rb: seq<Item>)
    requires LoProgress(out, ra, rb)
    requires |ra| == 0 || |rb| == 0
    ensures Sorted(out + ra + rb)
  {
    if |ra| == 0 {
      assert out + ra + rb == out + rb;
      SortedConcat(out, rb);
    } else {
      assert out + ra + rb == out + ra;
      SortedConcat(out, ra);
    }
  }

  /** With one element of A left, it is A's last and goes after all of B. */
  lemma LoFinishLastA(out: seq<Item>, ra: seq<Item>, rb: seq<Item>)
    requires LoProgress(out, ra, rb)
    requires |ra| == 1 && |rb| > 0
    ensures Sorted(out + rb + ra)
    ensures multiset(out + rb + ra) == multiset(out) + multiset(ra) + multiset(rb)
  {
    SortedConcat(out, rb);
    SortedAppend(out + rb, ra[0]);
    assert ra == [ra[0]];
  }

  /** A gallop that took the elements of A strictly below B's first element
      cannot have taken all of A: A's last element is not below B's last,
      which is not below B's first. */
  lemma LoGallopLeavesA(out: seq<Item>, ra: seq<Item>, rb: seq<Item>, k: nat)
    requires LoProgress(out, ra, rb)
    requires 0 < k <= |ra| && |rb| > 0
    requires !Le(rb[0], ra[k - 1])
    ensures k < |ra|
  {
    assert Le(rb[0], rb[|rb| - 1]) || |rb| == 1;
  }

  /** Merging from the high end: the output suffix is sorted and may follow
      both unmerged prefixes, and B's first element may precede A's first. */
  ghost predicate HiProgress(ra: seq<Item>, rb: seq<Item>, out: seq<Item>) {
    && Sorted(ra) && Sorted(rb) && Sorted(out)
    && (|ra| > 0 && |out| > 0 ==> Le(ra[|ra| - 1], out[0]))
    && (|rb| > 0 && |out| > 0 ==> Le(rb[|rb| - 1], out[0]))
    && (|ra| > 0 && |rb| > 0 ==> Le(rb[0], ra[0]))
  }

  lemma HiProgressStart(A: seq<Item>, B: seq<Item>)
    requires Mergeable(A, B)
    ensures HiProgress(A, B, [])
  {
  }

  /** Moving the last `k` elements of A in front of the output keeps the
      progress invariant when the first of them may follow the last of B. */
  lemma HiMoveA(ra: seq<Item>, rb: seq<Item>, out: seq<Item>, k: nat)
    requires HiProgress(ra, rb, out)
    requires 0 < k <= |ra|
    requires |rb| > 0 ==> Le(rb[|rb| - 1], ra[|ra| - k])
    ensures HiProgress(ra[..|ra| - k], rb, ra[|ra| - k..] + out)
    ensures multiset(ra[..|ra| - k]) + multiset(rb) + multiset(ra[|ra| - k..] + out) == multiset(ra) + multiset(rb) + multiset(out)
  {
    var m := |ra| - k;
    SortedSplit(ra, m);
    SortedConcat(ra[m..], out);
    SplitMultiset(ra, m);
  }

  /** Moving the last `k` elements of B in front of the output keeps the
      progress invariant when the first of them may follow the last of A. */
  lemma HiMoveB(ra: seq<Item>, rb: seq<Item>, out: seq<Item>, k: nat)
    requires HiProgress(ra, rb, out)
    requires 0 < k <= |rb|
    requires |ra| > 0 ==> Le(ra[|ra| - 1], rb[|rb| - k])
    ensures HiProgress(ra, rb[..|rb| - k], rb[|rb| - k..] + out)
    ensures multiset(ra) + multiset(rb[..|rb| - k]) + multiset(rb[|rb| - k..] + out) == multiset(ra) + multiset(rb) + multiset(out)
  {
    var m := |rb| - k;
    SortedSplit(rb, m);
    SortedConcat(rb[m..], out);
    SplitMultiset(rb, m);
  }

  /** Once one side is used up, putting the other in front completes the merge. */
  lemma HiFinish(ra: seq<Item>, rb: seq<Item>, out: seq<Item>)
    requires HiProgress(ra, rb, out)
    requires |ra| == 0 || |rb| == 0
    ensures Sorted(ra + rb + out)
  {
    if |ra| == 0 {
      assert ra + rb + out == rb + out;
      SortedConcat(rb, out);
    } else {
      assert ra + rb + out == ra + out;
      SortedConcat(ra, out);
    }
  }

  /** With one element of B left, it is B's first and goes before all of A. */
  lemma HiFinishFirstB(ra: seq<Item>, rb: seq<Item>, out: seq<Item>)
    requires HiProgress(ra, rb, out)
    requires |rb| == 1 && |ra| > 0
    ensures Sorted(rb + ra + out)
    ensures multiset(rb + ra + out) == multiset(ra) + multiset(rb) + multiset(out)
  {
    SortedConcat(ra, out);
    SortedPrepend(rb[0], ra + out);
    assert rb == [rb[0]];
    assert rb + ra + out == [rb[0]] + (ra + out);
  }

  /** A gallop that took the elements of B strictly above A's last element
      cannot have taken all of B: B's first element is not above A's first,
      which is not above A's last. */
  lemma HiGallopLeavesB(ra: seq<Item>, rb: seq<Item>, out: seq<Item>, k: nat)
    requires HiProgress(ra, rb, out)
    requires 0 < k <= |rb| && |ra| > 0
    requires !Le(rb[|rb| - k], ra[|ra| - 1])
    ensures k < |rb|
  {
    assert Le(ra[0], ra[|ra| - 1]) || |ra| == 1;
  }
}
