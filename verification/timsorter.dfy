/** Sort of TimSorter.cs: the driver. It walks the span from left to right,
    takes the natural run at the current position (reversing a descending
    one), extends a short run to the minimum run length by binary insertion,
    pushes it on the pending stack and lets MergeCollapse rebalance the
    stack; at the end MergeForceCollapse merges everything into one run. */
module Sorter {
  import opened Order
  import opened Results
  import opened Shared
  import opened State
  import opened Config
  import opened MinRun
  import opened Runs
  import opened BinaryInsertion
  import opened Collapse

  function Min(a: nat, b: nat): nat {
    if a <= b then a else b
  }

  /** The keys of a span, in order. */
  function Keys(s: seq<Item>): (k: seq<int>)
    ensures |k| == |s| && forall i :: 0 <= i < |s| ==> k[i] == s[i].key
  {
    seq(|s|, i requires 0 <= i < |s| => s[i].key)
  }

  lemma KeysConcat(u: seq<Item>, v: seq<Item>)
    ensures Keys(u + v) == Keys(u) + Keys(v)
  {
    assert forall i :: 0 <= i < |u + v| ==> Keys(u + v)[i] == (Keys(u) + Keys(v))[i];
  }

  /** Taking the same element out of two equal multisets leaves equal ones. */
  lemma Cancel<T>(m1: multiset<T>, m2: multiset<T>, x: T)
    requires m1 + multiset{x} == m2 + multiset{x}
    ensures m1 == m2
  {
    forall y | true
      ensures m1[y] == m2[y]
    {
      assert (m1 + multiset{x})[y] == (m2 + multiset{x})[y];
    }
  }

  /** Taking the element at `j` out of a sequence. */
  lemma MultisetRemove<T>(b: seq<T>, j: nat)
    requires j < |b|
    ensures multiset(b) == multiset(b[..j] + b[j + 1..]) + multiset{b[j]}
  {
    assert b == b[..j] + [b[j]] + b[j + 1..];
  }

  lemma KeysRemove(b: seq<Item>, j: nat)
    requires j < |b|
    ensures Keys(b[..j] + b[j + 1..]) == Keys(b)[..j] + Keys(b)[j + 1..]
  {
    KeysConcat(b[..j], b[j + 1..]);
    assert Keys(b[..j]) == Keys(b)[..j];
    assert Keys(b[j + 1..]) == Keys(b)[j + 1..];
  }

  /** Removing the same element from two rearrangements of each other. */
  lemma RemoveMatching(a: seq<Item>, b: seq<Item>, j: nat)
    requires multiset(a) == multiset(b) && 0 < |a| && j < |b| && b[j] == a[0]
    ensures multiset(a[1..]) == multiset(b[..j] + b[j + 1..])
  {
    assert a[..0] + a[1..] == a[1..];
    MultisetRemove(a, 0);
    MultisetRemove(b, j);
    Cancel(multiset(a[1..]), multiset(b[..j] + b[j + 1..]), a[0]);
  }

  /** Multisets of keys: equal heads and equal rests make equal wholes. */
  lemma KeyBagStep(ka: seq<int>, kb: seq<int>, j: nat)
    requires 0 < |ka| && j < |kb| && ka[0] == kb[j]
    requires multiset(ka[1..]) == multiset(kb[..j] + kb[j + 1..])
    ensures multiset(ka) == multiset(kb)
  {
    assert ka == [ka[0]] + ka[1..];
    assert kb == kb[..j] + [kb[j]] + kb[j + 1..];
  }

  /** ... and putting its key back on both sides. */
  lemma RestoreMatchingKeys(a: seq<Item>, b: seq<Item>, j: nat)
    requires 0 < |a| && j < |b| && b[j] == a[0]
    requires multiset(Keys(a[1..])) == multiset(Keys(b[..j] + b[j + 1..]))
    ensures multiset(Keys(a)) == multiset(Keys(b))
  {
    var ka, kb := Keys(a), Keys(b);
    assert Keys(a[1..]) == ka[1..];
    KeysRemove(b, j);
    KeyBagStep(ka, kb, j);
  }

  /** Rearranging the items rearranges their keys. */
  lemma {:induction false} PermutationKeys(a: seq<Item>, b: seq<Item>)
    requires multiset(a) == multiset(b)
    ensures multiset(Keys(a)) == multiset(Keys(b))
    decreases |a|
  {
    if |a| > 0 {
      assert a[0] in multiset(b);
      var j :| 0 <= j < |b| && b[j] == a[0];
      RemoveMatching(a, b, j);
      PermutationKeys(a[1..], b[..j] + b[j + 1..]);
      RestoreMatchingKeys(a, b, j);
    }
  }

  /** Two ascending integer sequences with the same elements are equal. */
  lemma {:induction false} AscendingUnique(x: seq<int>, y: seq<int>)
    requires forall i, j :: 0 <= i < j < |x| ==> x[i] <= x[j]
    requires forall i, j :: 0 <= i < j < |y| ==> y[i] <= y[j]
    requires multiset(x) == multiset(y)
    ensures x == y
    decreases |x|
  {
    assert |x| == |multiset(x)| == |multiset(y)| == |y|;
    if |x| > 0 {
      assert x[0] in multiset(y) && y[0] in multiset(x);
      var j :| 0 <= j < |y| && y[j] == x[0];
      var i :| 0 <= i < |x| && x[i] == y[0];
      assert x[0] <= x[i] && y[0] <= y[j];
      assert x == [x[0]] + x[1..] && y == [y[0]] + y[1..];
      assert x[0] == y[0];
      assert multiset(x) == multiset(x[1..]) + multiset{x[0]};
      assert multiset(y) == multiset(y[1..]) + multiset{x[0]};
      Cancel(multiset(x[1..]), multiset(y[1..]), x[0]);
      AscendingUnique(x[1..], y[1..]);
    }
  }

  /** Sorting is unique up to ties: two sorted rearrangements of the same
      items have the same keys in the same places. */
  lemma SortedPermutationKeys(a: seq<Item>, b: seq<Item>)
    requires Sorted(a) && Sorted(b) && multiset(a) == multiset(b)
    ensures Keys(a) == Keys(b)
  {
    PermutationKeys(a, b);
    AscendingUnique(Keys(a), Keys(b));
  }

  /** `s'` is `s` with the window [lo, end) replaced by `m`. */
  lemma ReplaceWindow(s: seq<Item>, lo: nat, end: nat, m: seq<Item>, s': seq<Item>)
    requires lo <= end <= |s| && |m| == end - lo
    requires s' == s[..lo] + m + s[end..]
    ensures |s'| == |s| && s'[..lo] == s[..lo] && s'[lo..end] == m && s'[end..] == s[end..]
  {
    assert s'[..lo] == s[..lo];
    assert s'[lo..end] == m;
    assert s'[end..] == s[end..];
  }

  /** ... and when `m` is a permutation of the window, `s'` one of `s`. */
  lemma ReplaceWindowPermutes(s: seq<Item>, lo: nat, end: nat, m: seq<Item>, s': seq<Item>)
    requires lo <= end <= |s| && |m| == end - lo
    requires s' == s[..lo] + m + s[end..]
    requires multiset(m) == multiset(s[lo..end])
    ensures multiset(s') == multiset(s)
  {
    assert s == s[..lo] + s[lo..end] + s[end..];
  }

  /** The in-place reversal of the window [lo, end) that the driver applies
      to a descending run. */
  method ReverseWindow(s: seq<Item>, lo: nat, end: nat) returns (s': seq<Item>)
    requires lo <= end <= |s|
    ensures |s'| == |s| && multiset(s') == multiset(s)
    ensures s'[..lo] == s[..lo] && s'[lo..end] == Reverse(s[lo..end]) && s'[end..] == s[end..]
  {
    var w := s[lo..end];
    var rev := Reverse(w);
    assert multiset(rev) == multiset(w);
    s' := s[..lo] + rev + s[end..];
    ReplaceWindow(s, lo, end, rev, s');
    ReplaceWindowPermutes(s, lo, end, rev, s');
  }

  /** The natural run at `lo`, read in place: once reversed when counted as
      descending, it is sorted. */
  lemma RunWindowSorted(s: seq<Item>, lo: nat, n: nat, descending: bool)
    requires lo < |s| && CountRun(s[lo..]) == Success(Run(n, descending))
    ensures lo + n <= |s|
    ensures descending ==> Sorted(Reverse(s[lo..lo + n]))
    ensures !descending ==> Sorted(s[lo..lo + n])
  {
    assert s[lo..][..n] == s[lo..lo + n];
    CountedRunSorted(s[lo..]);
  }

  /** The first half of a pass: the natural run at `lo`, reversed in place
      when CountRun reports it descending, so that it ends up sorted. */
  method AscendingRun(s: seq<Item>, lo: nat) returns (s': seq<Item>, run: Run)
    requires lo < |s|
    ensures CountRun(s[lo..]) == Success(run) && 0 < run.count <= |s| - lo
    ensures |s'| == |s| && multiset(s') == multiset(s)
    ensures s'[..lo] == s[..lo] && s'[lo + run.count..] == s[lo + run.count..]
    ensures run.descending ==> s'[lo..lo + run.count] == Reverse(s[lo..lo + run.count])
    ensures !run.descending ==> s' == s
    ensures Sorted(s'[lo..lo + run.count])
  {
    run := CountRun(s[lo..]).value;
    var end := lo + run.count;
    RunWindowSorted(s, lo, run.count, run.descending);
    if run.descending {
      s' := ReverseWindow(s, lo, end);
    } else {
      s' := s;
    }
    assert s'[end..] == s[end..];
  }

  /** BinarySort applied to the window [lo, end) of `s`, whose first `n`
      elements are already sorted. */
  method SortWindow(s: seq<Item>, lo: nat, n: nat, end: nat) returns (s': seq<Item>)
    requires lo + n <= end <= |s| && Sorted(s[lo..lo + n])
    ensures |s'| == |s| && multiset(s') == multiset(s)
    ensures s'[..lo] == s[..lo] && s'[end..] == s[end..]
    ensures Sorted(s'[lo..end])
  {
    var window := s[lo..end];
    assert window[..n] == s[lo..lo + n];
    var sorted := BinarySort(window, n);
    s' := s[..lo] + sorted + s[end..];
    ReplaceWindow(s, lo, end, sorted, s');
    ReplaceWindowPermutes(s, lo, end, sorted, s');
  }

  /** The second half of a pass: a sorted run of `n < minrun` elements at
      `lo` is extended to `min(minrun, |s| - lo)` elements by binary
      insertion; a longer run is left as it is. */
  method ExtendRun(s: seq<Item>, lo: nat, n: nat, minrun: nat) returns (s': seq<Item>, n': nat)
    requires 0 < n && lo + n <= |s| && Sorted(s[lo..lo + n])
    ensures n' == (if n < minrun then Min(minrun, |s| - lo) else n)
    ensures |s'| == |s| && multiset(s') == multiset(s)
    ensures s'[..lo] == s[..lo] && s'[lo + n'..] == s[lo + n'..]
    ensures Sorted(s'[lo..lo + n'])
    ensures n >= minrun ==> s' == s
  {
    s', n' := s, n;
    if n < minrun {
      var force := if |s| - lo <= minrun then |s| - lo else minrun;
      s' := SortWindow(s, lo, n, lo + force);
      n' := force;
    }
  }

  /** One pass of the driver's loop before the push: the run found at `lo`
      is made ascending and, when shorter than `minrun`, extended to
      `min(minrun, |s| - lo)` elements. `n` is the length of the run pushed. */
  method NextRun(s: seq<Item>, lo: nat, minrun: nat) returns (s': seq<Item>, n: nat)
    requires lo < |s|
    ensures 0 < n <= |s| - lo
    ensures n >= Min(minrun, |s| - lo)
    ensures CountRun(s[lo..]).value.count <= n
    ensures n > CountRun(s[lo..]).value.count ==> n == Min(minrun, |s| - lo)
    ensures |s'| == |s| && multiset(s') == multiset(s)
    ensures s'[..lo] == s[..lo] && s'[lo + n..] == s[lo + n..]
    ensures Sorted(s'[lo..lo + n])
  {
    var s1, run := AscendingRun(s, lo);
    var n1 := run.count;
    s', n := ExtendRun(s1, lo, n1, minrun);
    if n > n1 {
      assert s'[..lo] == s1[..lo];
      assert s'[lo + n..] == s1[lo + n..] by {
        assert s1[lo + n..] == s1[lo + n1..][n - n1..];
        assert s[lo + n..] == s[lo + n1..][n - n1..];
      }
    }
  }

  /** Pushing the run [lo, lo + n) keeps the stack well formed, provided the
      span below `lo` was left alone and the new run is sorted. */
  lemma PushRun(span: seq<Item>, span': seq<Item>, p: seq<PendingBlock>, lo: nat, n: nat)
    requires WellFormed(span, p, 0, lo)
    requires 0 < n && lo + n <= |span| == |span'| && span'[..lo] == span[..lo]
    requires Sorted(span'[lo..lo + n])
    ensures WellFormed(span', p + [PendingBlock(lo, n)], 0, lo + n)
  {
    var q := p + [PendingBlock(lo, n)];
    forall j | 0 <= j < |p|
      ensures RunOk(span', p[j])
    {
      RunWithin(span, p, 0, lo, j);
      SameOutside(span, span', lo, |span|, p[j].offset, p[j].End());
    }
    assert forall j :: 0 <= j < |p| ==> q[j] == p[j];
  }

  /** Sort(span, comparer, config): spans shorter than two are left alone;
      otherwise the loop pushes one run per pass (natural, reversed when
      descending, extended to `minrun` when short), rebalancing the stack
      after each push, and the final collapse leaves a single sorted run
      that covers the whole span. The merge state, and with it the two
      buffers whose lengths the configuration fixes, is only created for
      spans of two or more. */
  method Sort(span: seq<Item>, config: TimSortConfig) returns (r: seq<Item>)
    requires |span| >= 2 ==> config.mergeStateTempSize >= 0 && config.maxMergePending >= 0
    ensures |span| < 2 ==> r == span
    ensures |r| == |span| && Sorted(r) && multiset(r) == multiset(span)
    ensures Sorted(span) ==> Keys(r) == Keys(span)
  {
    r := span;
    if |span| < 2 {
      return;
    }
    var ms := NewMergeState(config);
    var nremaining := |span|;
    var lo := 0;
    var minrun := MergeComputeMinRun(nremaining);
    // The source's do-while: nremaining is at least two on entry.
    while nremaining > 0
      invariant lo + nremaining == |span| == |r|
      invariant WellFormed(r, ms.pending, 0, lo)
      invariant lo > 0 ==> |ms.pending| > 0
      invariant multiset(r) == multiset(span)
      decreases nremaining
    {
      var r', n := NextRun(r, lo, minrun);
      PushRun(r, r', ms.pending, lo, n);
      ms := AddPendingBlock(ms, lo, n);
      r, ms := MergeCollapse(r', ms, 0, lo + n);
      lo := lo + n;
      nremaining := nremaining - n;
    }
    r, ms := MergeForceCollapse(r, ms, 0, |span|);
    assert CheckNoPendingLeft(r, ms);
    assert r[0..|span|] == r;
    if Sorted(span) {
      SortedPermutationKeys(r, span);
    }
  }
}
