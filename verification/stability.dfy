/** Stability. The doc comments of TimSorter.cs call the sort stable, but
    every comparison goes through the non-strict IsLowerThan, so two places
    in the driver move equal elements past each other. Each is shown here on
    the two-element input [(1, 0), (1, 1)] as the code is written, next to
    the corrected definition (the strict test CPython's list sort uses) and
    a proof that it keeps equal elements in input order. */
module Stability {
  import opened Order
  import opened Results
  import opened Shared
  import opened Gallop
  import opened Runs
  import opened BinaryInsertion

  const Twins: seq<Item> := [Item(1, 0), Item(1, 1)]
  const SwappedTwins: seq<Item> := [Item(1, 1), Item(1, 0)]

  /* ---------- CountRun followed by the driver's reversal ---------- */

  /** As written: two equal neighbours are counted as a descending run and
      the driver reverses it, so the element with the larger tag ends first;
      a sorted input is not left as it was. */
  lemma ReversedRunUnstable()
    ensures TagsIncreasing(Twins) && StablySorted(Twins)
    ensures CountRun(Twins) == Success(Run(2, true))
    ensures Reverse(Twins[..2]) == SwappedTwins
    ensures !StablySorted(SwappedTwins)
  {
    var r := Reverse(Twins[..2]);
    assert Twins[..2] == Twins;
    assert r[0] == Twins[1] && r[1] == Twins[0];
    assert !(SwappedTwins[0].tag < SwappedTwins[1].tag);
  }

  /** The element at `i` is strictly below its predecessor. */
  predicate StrictlyDown(s: seq<Item>, i: nat)
    requires 1 <= i < |s|
  {
    !Le(s[i - 1], s[i])
  }

  ghost predicate StrictSteps(s: seq<Item>, n: nat, descending: bool)
    requires n <= |s|
  {
    forall i :: 1 <= i < n ==> (StrictlyDown(s, i) <==> descending)
  }

  function StrictRunEnd(s: seq<Item>, lo: nat, descending: bool): (e: nat)
    requires 1 <= lo <= |s|
    requires StrictSteps(s, lo, descending)
    ensures lo <= e <= |s| && StrictSteps(s, e, descending)
    ensures e < |s| ==> (StrictlyDown(s, e) <==> !descending)
    decreases |s| - lo
  {
    if lo == |s| || (StrictlyDown(s, lo) != descending) then lo
    else StrictRunEnd(s, lo + 1, descending)
  }

  /** Corrected CountRun: a run is descending only when each element is
      strictly below its predecessor; equal neighbours extend an ascending
      run. */
  function StrictCountRun(s: seq<Item>): (r: Result<Run>)
    ensures r.Failure? <==> |s| == 0
    ensures |s| == 1 ==> r == Success(Run(1, false))
    ensures |s| >= 2 ==> r.Success? && 2 <= r.value.count <= |s|
    ensures |s| >= 2 ==> (r.value.descending <==> !Le(s[0], s[1]))
    ensures r.Success? ==> r.value.count <= |s| && StrictSteps(s, r.value.count, r.value.descending)
    ensures r.Success? && r.value.count < |s| ==>
      (StrictlyDown(s, r.value.count) <==> !r.value.descending)
  {
    if |s| == 0 then Failure("Span is empty")
    else if |s| == 1 then Success(Run(1, false))
    else
      var descending := StrictlyDown(s, 1);
      Success(Run(StrictRunEnd(s, 2, descending), descending))
  }

  lemma {:induction false} KeysClimb(t: seq<Item>)
    requires forall i :: 1 <= i < |t| ==> t[i - 1].key <= t[i].key
    ensures forall i, j :: 0 <= i < j < |t| ==> t[i].key <= t[j].key
  {
    if |t| > 1 {
      var u := t[..|t| - 1];
      assert forall i :: 0 <= i < |u| ==> u[i] == t[i];
      KeysClimb(u);
      forall i, j | 0 <= i < j < |t|
        ensures t[i].key <= t[j].key
      {
        if j < |t| - 1 {
          assert u[i].key <= u[j].key;
        } else if i < j - 1 {
          assert u[i].key <= u[j - 1].key;
        }
      }
    }
  }

  lemma {:induction false} KeysFall(t: seq<Item>)
    requires forall i :: 1 <= i < |t| ==> t[i].key < t[i - 1].key
    ensures forall i, j :: 0 <= i < j < |t| ==> t[j].key < t[i].key
  {
    if |t| > 1 {
      var u := t[..|t| - 1];
      assert forall i :: 0 <= i < |u| ==> u[i] == t[i];
      KeysFall(u);
      forall i, j | 0 <= i < j < |t|
        ensures t[j].key < t[i].key
      {
        if j < |t| - 1 {
          assert u[j].key < u[i].key;
        } else if i < j - 1 {
          assert u[j - 1].key < u[i].key;
        }
      }
    }
  }

  /** Corrected: the run StrictCountRun reports, reversed when descending,
      is stably sorted whenever the input's tags increase: an ascending run
      keeps its order, and a strictly descending one has no equal keys. */
  lemma StrictRunStable(s: seq<Item>)
    requires |s| > 0 && TagsIncreasing(s)
    ensures var run := StrictCountRun(s).value;
      StablySorted(if run.descending then Reverse(s[..run.count]) else s[..run.count])
  {
    var run := StrictCountRun(s).value;
    var t := s[..run.count];
    assert forall i :: 0 <= i < |t| ==> t[i] == s[i];
    if run.descending {
      forall i | 1 <= i < |t|
        ensures t[i].key < t[i - 1].key
      {
        assert StrictlyDown(s, i);
      }
      KeysFall(t);
      var r := Reverse(t);
      forall i, j | 0 <= i < j < |r|
        ensures r[i].key < r[j].key
      {
        assert r[i] == t[|t| - 1 - i] && r[j] == t[|t| - 1 - j];
      }
    } else {
      forall i | 1 <= i < |t|
        ensures t[i - 1].key <= t[i].key
      {
        assert !StrictlyDown(s, i);
      }
      KeysClimb(t);
    }
  }

  /** Corrected, on the same input: the equal pair is one ascending run and
      stays as it is. */
  lemma StrictRunKeepsTwins()
    ensures StrictCountRun(Twins) == Success(Run(2, false))
  {
  }

  /* ---------- BinarySort ---------- */

  /** As written: the pivot (1, 1) is inserted before its equal (1, 0). */
  lemma BinarySortUnstable()
    ensures TagsIncreasing(Twins) && Sorted(Twins[..1])
    ensures InsertionSort(Twins, 1) == SwappedTwins
    ensures !StablySorted(SwappedTwins)
  {
    assert Twins[..1] == [Item(1, 0)];
    assert CountLt(Twins[..1], Twins[1]) == 0;
    assert InsertAt(Twins, 1, 0) == SwappedTwins;
    assert !(SwappedTwins[0].tag < SwappedTwins[1].tag);
  }

  /** Corrected BinarySort: each element is inserted after the elements of
      the prefix it may follow, i.e. at CountLe (after its equals). */
  function StableInsertionSort(s: seq<Item>, start: nat): seq<Item>
    requires start <= |s|
    decreases |s| - start
  {
    if start == |s| then s
    else StableInsertionSort(InsertAt(s, start, CountLe(s[..start], s[start])), start + 1)
  }

  /** The state of the corrected insertion after `k` elements: the prefix is
      stably sorted and every element from `k` on has a larger tag than
      every element before it. */
  ghost predicate StableProgress(r: seq<Item>, k: nat)
    requires k <= |r|
  {
    && StablySorted(r[..k])
    && forall i, j :: 0 <= i < j < |r| && k <= j ==> r[i].tag < r[j].tag
  }

  /** On a sorted prefix the count of elements `Le` key is the split point
      after equals. */
  lemma {:induction false} CountLeSplits(s: seq<Item>, key: Item)
    requires Sorted(s)
    ensures AfterEquals(s, key, CountLe(s, key))
  {
    if |s| > 0 {
      SortedSplit(s, 1);
      CountLeSplits(s[1..], key);
      assert forall i :: 1 <= i < |s| ==> s[i] == s[1..][i - 1];
    }
  }

  /** Where each element of InsertAt(r, k, l) comes from in `r`. */
  function Source(k: nat, l: nat, i: nat): nat {
    if i < l then i else if i == l then k else if i <= k then i - 1 else i
  }

  lemma InsertAtSource(r: seq<Item>, k: nat, l: nat, i: nat)
    requires l <= k < |r| && i < |r|
    ensures InsertAt(r, k, l)[i] == r[Source(k, l, i)]
  {
  }

  /** One step of the corrected insertion keeps StableProgress. */
  lemma StableInsertStep(r: seq<Item>, k: nat)
    requires k < |r| && StableProgress(r, k)
    ensures StableProgress(InsertAt(r, k, CountLe(r[..k], r[k])), k + 1)
  {
    var x := r[k];
    var p := r[..k];
    var l := CountLe(p, x);
    CountLeSplits(p, x);
    var r' := InsertAt(r, k, l);
    forall i | 0 <= i < |r|
      ensures r'[i] == r[Source(k, l, i)]
    {
      InsertAtSource(r, k, l, i);
    }
    var q := r'[..k + 1];
    forall i, j | 0 <= i < j < |q|
      ensures Le(q[i], q[j])
      ensures q[i].key == q[j].key ==> q[i].tag < q[j].tag
    {
      assert q[i] == r'[i] && q[j] == r'[j];
      if i == l {
        assert r'[j] == p[j - 1];
        assert !Le(p[j - 1], x);
      } else if j == l {
        assert r'[i] == p[i];
        assert Le(p[i], x);
      } else {
        assert r'[i] == p[Source(k, l, i)] && r'[j] == p[Source(k, l, j)];
      }
    }
    forall i, j | 0 <= i < j < |r'| && k + 1 <= j
      ensures r'[i].tag < r'[j].tag
    {
      assert r'[j] == r[j];
    }
  }

  /** Corrected: from StableProgress the corrected insertion ends with a
      stably sorted permutation. */
  lemma {:induction false} StableInsertionSortIsStable(s: seq<Item>, start: nat)
    requires start <= |s| && StableProgress(s, start)
    ensures StablySorted(StableInsertionSort(s, start))
    ensures multiset(StableInsertionSort(s, start)) == multiset(s)
    decreases |s| - start
  {
    if start == |s| {
      assert s[..start] == s;
    } else {
      StableInsertStep(s, start);
      InsertAtPermutes(s, start, CountLe(s[..start], s[start]));
      StableInsertionSortIsStable(InsertAt(s, start, CountLe(s[..start], s[start])), start + 1);
    }
  }

  /** Corrected, from scratch: an input whose tags increase comes out stably
      sorted; on the two equal elements nothing moves. */
  lemma StableInsertionSortOfTagged(s: seq<Item>)
    requires TagsIncreasing(s)
    ensures StablySorted(StableInsertionSort(s, 0)) && multiset(StableInsertionSort(s, 0)) == multiset(s)
  {
    StableInsertionSortIsStable(s, 0);
  }

  lemma StableInsertionKeepsTwins()
    ensures StableInsertionSort(Twins, 1) == Twins
  {
    assert Twins[..1] == [Item(1, 0)];
    assert CountLe(Twins[..1], Twins[1]) == 1;
    assert InsertAt(Twins, 1, 1) == Twins;
  }
}
