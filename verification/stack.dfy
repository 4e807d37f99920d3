/** The pending-run stack of MergeState.cs: MergeAt merges two neighbouring
    entries, MergeCollapse restores the run-length conditions on the top of
    the stack, and MergeForceCollapse merges everything into one run.

    The span is threaded through as a value: each operation returns the
    updated span together with the updated state. `lo` and `hi` are the
    part of the span the stack covers; nothing outside it is touched. */
module Collapse {
  import opened Order
  import opened Gallop
  import opened State
  import opened MergeLow
  import opened MergeHigh
  import opened Threshold

  /** Reference definition: entries `i` and `i + 1` replaced by one entry
      that starts where `i` starts and covers both. */
  function MergedStack(p: seq<PendingBlock>, i: nat): seq<PendingBlock>
    requires i + 1 < |p|
  {
    p[..i] + [PendingBlock(p[i].offset, p[i].length + p[i + 1].length)] + p[i + 2..]
  }

  /** The stack update of MergeAt as the source performs it: entry `i` gets
      the combined length, entry `i + 2` slides down when `i` is the
      third-last, and the stack loses its top. It is the reference merge of
      the two entries. */
  function StackAfterMerge(p: seq<PendingBlock>, i: nat): (r: seq<PendingBlock>)
    requires i + 2 == |p| || i + 3 == |p|
    ensures |r| == |p| - 1
    ensures r == MergedStack(p, i)
  {
    var q := p[i := PendingBlock(p[i].offset, p[i].length + p[i + 1].length)];
    var q' := if i + 3 == |p| then q[i + 1 := q[i + 2]] else q;
    q'[..|p| - 1]
  }

  /** Runs further down the stack end before runs further up begin. */
  lemma {:induction false} AdjacentMonotone(p: seq<PendingBlock>, j: nat, k: nat)
    requires Adjacent(p) && j < k < |p|
    ensures p[j].offset + p[j].length <= p[k].offset
    decreases k - j
  {
    if k > j + 1 {
      AdjacentMonotone(p, j, k - 1);
    }
  }

  /** Every run of a well-formed stack lies inside the range it tiles. */
  lemma RunWithin(span: seq<Item>, p: seq<PendingBlock>, lo: nat, hi: nat, j: nat)
    requires WellFormed(span, p, lo, hi) && j < |p|
    ensures lo <= p[j].offset && p[j].offset + p[j].length <= hi
  {
    if j > 0 {
      AdjacentMonotone(p, 0, j);
    }
    if j < |p| - 1 {
      AdjacentMonotone(p, j, |p| - 1);
    }
  }

  /** Two spans that agree outside [off, end) agree on every window that
      misses it. */
  lemma SameOutside(span: seq<Item>, span': seq<Item>, off: nat, end: nat, a: nat, b: nat)
    requires |span'| == |span| && off <= end <= |span| && a <= b <= |span|
    requires span'[..off] == span[..off] && span'[end..] == span[end..]
    requires b <= off || end <= a
    ensures span'[a..b] == span[a..b]
  {
    forall k | a <= k < b
      ensures span'[k] == span[k]
    {
      if b <= off {
        assert span'[..off][k] == span[..off][k];
      } else {
        assert span'[end..][k - end] == span[end..][k - end];
      }
    }
  }

  /** Where the entries of the merged stack come from. */
  lemma MergedStackShape(p: seq<PendingBlock>, i: nat)
    requires i + 1 < |p|
    ensures var q := MergedStack(p, i);
      && |q| == |p| - 1
      && (forall j :: 0 <= j < i ==> q[j] == p[j])
      && q[i] == PendingBlock(p[i].offset, p[i].length + p[i + 1].length)
      && (forall j :: i < j < |q| ==> q[j] == p[j + 1])
  {
  }

  /** Merging two neighbouring entries keeps the stack adjacent. */
  lemma MergedStackAdjacent(p: seq<PendingBlock>, i: nat)
    requires Adjacent(p) && i + 1 < |p|
    ensures Adjacent(MergedStack(p, i))
  {
    var q := MergedStack(p, i);
    MergedStackShape(p, i);
    forall j | 0 <= j < |q| - 1
      ensures q[j].offset + q[j].length == q[j + 1].offset
    {
      if j + 1 < i {
        assert q[j] == p[j] && q[j + 1] == p[j + 1];
      } else if j + 1 == i {
        assert q[j] == p[j];
      } else if j == i {
        assert q[j + 1] == p[j + 2];
      } else {
        assert q[j] == p[j + 1] && q[j + 1] == p[j + 2];
      }
    }
  }

  /** The runs of the merged stack are sorted in the new span when the
      merged run is and the span changed only inside it. */
  lemma MergedStackRuns(span: seq<Item>, span': seq<Item>, p: seq<PendingBlock>, i: nat)
    requires Adjacent(p) && RunsSorted(span, p) && i + 1 < |p|
    requires |span'| == |span|
    requires p[i].offset <= p[i + 1].offset + p[i + 1].length <= |span|
    requires span'[..p[i].offset] == span[..p[i].offset]
    requires span'[p[i + 1].offset + p[i + 1].length..] == span[p[i + 1].offset + p[i + 1].length..]
    requires RunOk(span', PendingBlock(p[i].offset, p[i].length + p[i + 1].length))
    ensures RunsSorted(span', MergedStack(p, i))
  {
    var q := MergedStack(p, i);
    var off := p[i].offset;
    var end := p[i + 1].offset + p[i + 1].length;
    MergedStackShape(p, i);
    forall j | 0 <= j < |q|
      ensures RunOk(span', q[j])
    {
      if j < i {
        assert q[j] == p[j] && RunOk(span, p[j]);
        AdjacentMonotone(p, j, i);
        SameOutside(span, span', off, end, p[j].offset, p[j].offset + p[j].length);
      } else if j > i {
        assert q[j] == p[j + 1] && RunOk(span, p[j + 1]);
        AdjacentMonotone(p, i + 1, j + 1);
        SameOutside(span, span', off, end, p[j + 1].offset, p[j + 1].offset + p[j + 1].length);
      }
    }
  }

  /** Merging entries `i` and `i + 1` of a well-formed stack, with the span
      changed only inside those two runs and sorted there, leaves a
      well-formed stack over the same range. */
  lemma MergedStackWellFormed(span: seq<Item>, span': seq<Item>, p: seq<PendingBlock>, i: nat, lo: nat, hi: nat)
    requires WellFormed(span, p, lo, hi) && i + 1 < |p|
    requires |span'| == |span|
    requires p[i].offset <= p[i + 1].offset + p[i + 1].length <= |span|
    requires span'[..p[i].offset] == span[..p[i].offset]
    requires span'[p[i + 1].offset + p[i + 1].length..] == span[p[i + 1].offset + p[i + 1].length..]
    requires Sorted(span'[p[i].offset..p[i + 1].offset + p[i + 1].length])
    ensures WellFormed(span', MergedStack(p, i), lo, hi)
  {
    assert RunOk(span, p[i]) && RunOk(span, p[i + 1]);
    assert p[i].offset + p[i].length == p[i + 1].offset;
    MergedStackAdjacent(p, i);
    MergedStackRuns(span, span', p, i);
    MergedStackShape(p, i);
  }

  /** The trimmed runs MergeAt hands on: A without its `ka` elements
      strictly below B's first, and B cut after its `kb` elements `Le` A's
      last. They are mergeable, and `kb` is positive. */
  lemma TrimmedMergeable(A: seq<Item>, B: seq<Item>, ka: nat, kb: nat)
    requires Sorted(A) && Sorted(B) && |A| > 0 && |B| > 0
    requires BeforeEquals(A, B[0], ka) && ka < |A|
    requires AfterEquals(B, A[|A| - 1], kb)
    ensures 0 < kb
    ensures Mergeable(A[ka..], B[..kb])
  {
    assert Le(A[ka], A[|A| - 1]) || ka == |A| - 1;
    SortedSplit(A, ka);
    SortedSplit(B, kb);
  }

  /** A lower bound of every element of `s` bounds every element of a
      permutation of `s`. */
  lemma PermutationAbove(x: Item, r: seq<Item>, s: seq<Item>)
    requires multiset(r) == multiset(s)
    requires forall t :: 0 <= t < |s| ==> Le(x, s[t])
    ensures forall t :: 0 <= t < |r| ==> Le(x, r[t])
  {
    forall t | 0 <= t < |r|
      ensures Le(x, r[t])
    {
      assert r[t] in multiset(r);
      assert r[t] in s;
    }
  }

  /** An upper bound of every element of `s` bounds every element of a
      permutation of `s`. */
  lemma PermutationBelow(y: Item, r: seq<Item>, s: seq<Item>)
    requires multiset(r) == multiset(s)
    requires forall t :: 0 <= t < |s| ==> Le(s[t], y)
    ensures forall t :: 0 <= t < |r| ==> Le(r[t], y)
  {
    forall t | 0 <= t < |r|
      ensures Le(r[t], y)
    {
      assert r[t] in multiset(r);
      assert r[t] in s;
    }
  }

  /** The part MergeAt leaves to MergeLo/MergeHi lies between the trimmed
      head of A and the trimmed tail of B. */
  lemma MiddleBetween(A: seq<Item>, B: seq<Item>, ka: nat, kb: nat)
    requires Sorted(A) && Sorted(B) && |A| > 0 && |B| > 0
    requires BeforeEquals(A, B[0], ka) && ka < |A|
    requires AfterEquals(B, A[|A| - 1], kb)
    ensures var mid := A[ka..] + B[..kb];
      && (ka > 0 ==> forall t :: 0 <= t < |mid| ==> Le(A[ka - 1], mid[t]))
      && (kb < |B| ==> forall t :: 0 <= t < |mid| ==> Le(mid[t], B[kb]))
  {
    var mid := A[ka..] + B[..kb];
    forall t | 0 <= t < |mid|
      ensures ka > 0 ==> Le(A[ka - 1], mid[t])
      ensures kb < |B| ==> Le(mid[t], B[kb])
    {
      if t < |A| - ka {
        assert mid[t] == A[ka + t];
        assert Le(A[ka + t], A[|A| - 1]) || ka + t == |A| - 1;
      } else {
        assert mid[t] == B[t - (|A| - ka)];
        assert Le(B[0], B[t - (|A| - ka)]) || t == |A| - ka;
      }
    }
  }

  /** Putting the merged middle back between the untouched ends of A and B
      gives a sorted run holding the elements of A and B. */
  lemma MergedRunSorted(A: seq<Item>, B: seq<Item>, ka: nat, kb: nat, r: seq<Item>)
    requires Sorted(A) && Sorted(B) && |A| > 0 && |B| > 0
    requires BeforeEquals(A, B[0], ka) && ka < |A|
    requires AfterEquals(B, A[|A| - 1], kb)
    requires Sorted(r) && multiset(r) == multiset(A[ka..] + B[..kb])
    ensures Sorted(A[..ka] + r + B[kb..])
  {
    var mid := A[ka..] + B[..kb];
    SortedSplit(A, ka);
    SortedSplit(B, kb);
    MiddleBetween(A, B, ka, kb);
    if ka > 0 {
      PermutationAbove(A[ka - 1], r, mid);
    }
    SortedConcat(A[..ka], r);
    if kb < |B| {
      PermutationBelow(B[kb], r, mid);
    }
    SortedConcat(A[..ka] + r, B[kb..]);
  }

  /** ... and it holds exactly the elements of A and B. */
  lemma MergedRunPermutation(A: seq<Item>, B: seq<Item>, ka: nat, kb: nat, r: seq<Item>)
    requires ka <= |A| && kb <= |B|
    requires multiset(r) == multiset(A[ka..] + B[..kb])
    ensures multiset(A[..ka] + r + B[kb..]) == multiset(A + B)
  {
    SplitMultiset(A, ka);
    SplitMultiset(B, kb);
  }

  /** The merged window `A[..ka] + r + B[kb..]`: as long as A and B
      together, keeping their trimmed ends. */
  lemma MergedWindowShape(A: seq<Item>, B: seq<Item>, ka: nat, kb: nat, r: seq<Item>)
    requires ka <= |A| && kb <= |B| && |r| == |A| - ka + kb
    ensures var m := A[..ka] + r + B[kb..];
      |m| == |A| + |B| && m[..ka] == A[..ka] && m[|A| + kb..] == B[kb..]
  {
    var m := A[..ka] + r + B[kb..];
    assert m[..ka] == A[..ka];
    assert m[|A| + kb..] == B[kb..];
  }

  /** The merge proper of MergeAt: what is left of A and B after trimming
      goes to MergeLo (`usedLo`) when A's rest is not longer than B's, to
      MergeHi otherwise. Either adapts the galloping threshold by the
      sessions it galloped through. */
  method MergeTrimmed(A: seq<Item>, B: seq<Item>, ka: nat, kb: nat, ms: MergeState)
    returns (r: seq<Item>, ms': MergeState, ghost usedLo: bool, ghost sessions: seq<nat>, ghost ended: bool)
    requires ka < |A| && 0 < kb <= |B|
    requires Mergeable(A[ka..], B[..kb])
    ensures usedLo <==> |A| - ka <= kb
    ensures |r| == |A| - ka + kb && Sorted(r) && multiset(r) == multiset(A[ka..] + B[..kb])
    ensures ms'.pending == ms.pending && ms'.capacity == ms.capacity
    ensures ms'.minGallopFixed == ms.minGallopFixed
    ensures ms'.minGallop == Replay(ms.minGallop, sessions, ended)
    ensures ms.minGallop >= 1 ==> ms'.minGallop >= 1
  {
    var la := |A| - ka;
    var seg := A[ka..] + B[..kb];
    assert seg[..la] == A[ka..] && seg[la..] == B[..kb];
    usedLo := la <= kb;
    if la <= kb {
      r, ms', sessions, ended := MergeLo(seg, la, ms);
    } else {
      r, ms', sessions, ended := MergeHi(seg, la, ms);
    }
  }

  /** Trims and merges two neighbouring sorted runs A and B, as MergeAt does
      once the stack is updated: `m` is what the window of A and B holds
      afterwards. The elements of A strictly below B's first element and
      those of B strictly above A's last are left where they are. The
      galloping threshold changes only by the galloping `sessions` of the
      merge proper. */
  method MergeRuns(A: seq<Item>, B: seq<Item>, ms: MergeState)
    returns (m: seq<Item>, ms': MergeState, ghost sessions: seq<nat>, ghost ended: bool)
    requires Sorted(A) && Sorted(B) && |A| > 0 && |B| > 0
    ensures |m| == |A| + |B| && Sorted(m) && multiset(m) == multiset(A + B)
    ensures m[..CountLt(A, B[0])] == A[..CountLt(A, B[0])]
    ensures m[|A| + CountLe(B, A[|A| - 1])..] == B[CountLe(B, A[|A| - 1])..]
    ensures ms'.pending == ms.pending && ms'.capacity == ms.capacity
    ensures ms'.minGallopFixed == ms.minGallopFixed
    ensures ms'.minGallop == Replay(ms.minGallop, sessions, ended)
    ensures CountLt(A, B[0]) == |A| ==> ms' == ms && sessions == [] && !ended
    ensures ms.minGallop >= 1 ==> ms'.minGallop >= 1
  {
    ms', sessions, ended := ms, [], false;
    var ka := GallopRight(B[0], A, 0);
    if ka == |A| {
      // All of A is strictly below B's first element: already in order.
      m := A + B;
      SortedConcat(A, B);
      assert m[|A| + CountLe(B, A[|A| - 1])..] == B[CountLe(B, A[|A| - 1])..];
      return;
    }
    var kb := GallopLeft(A[|A| - 1], B, |B| - 1);
    TrimmedMergeable(A, B, ka, kb);
    if kb == 0 {
      // The source returns early when kb is 0; with a consistent comparer it
      // cannot be, as A's last element is not below B's first.
      assert false;
    }
    var r;
    ghost var usedLo;
    r, ms', usedLo, sessions, ended := MergeTrimmed(A, B, ka, kb, ms);
    m := A[..ka] + r + B[kb..];
    MergedRunSorted(A, B, ka, kb, r);
    MergedRunPermutation(A, B, ka, kb, r);
    MergedWindowShape(A, B, ka, kb, r);
  }

  /** Writing `m` over the window [off, end) of the span. */
  function Splice(span: seq<Item>, off: nat, end: nat, m: seq<Item>): (r: seq<Item>)
    requires off <= end <= |span| && |m| == end - off
    ensures |r| == |span| && r[off..end] == m
    ensures r[..off] == span[..off] && r[end..] == span[end..]
  {
    span[..off] + m + span[end..]
  }

  /** What Splice keeps of the span: the whole multiset when `m` is a
      permutation of the window, and the parts of the window where `m`
      agrees with it. */
  lemma SpliceKeeps(span: seq<Item>, off: nat, mid: nat, end: nat, m: seq<Item>, ka: nat, kb: nat, span': seq<Item>)
    requires off <= mid <= end <= |span| && |m| == end - off
    requires span' == Splice(span, off, end, m)
    requires multiset(m) == multiset(span[off..end])
    requires ka <= mid - off && kb <= end - mid
    requires m[..ka] == span[off..off + ka]
    requires m[mid - off + kb..] == span[mid + kb..end]
    ensures multiset(span') == multiset(span)
    ensures span'[off..off + ka] == span[off..off + ka]
    ensures span'[mid + kb..end] == span[mid + kb..end]
  {
    assert span == span[..off] + span[off..end] + span[end..];
    assert span' == span'[..off] + span'[off..end] + span'[end..];
    assert span'[off..off + ka] == span'[off..end][..ka];
    assert span'[mid + kb..end] == span'[off..end][mid - off + kb..];
  }

  /** The elements of a run. */
  function Window(span: seq<Item>, b: PendingBlock): seq<Item>
    requires b.End() <= |span|
  {
    span[b.offset..b.End()]
  }

  /** How many leading elements of run `a` MergeAt leaves in place: those
      strictly below the first element of run `b`. */
  function KeptHead(span: seq<Item>, a: PendingBlock, b: PendingBlock): nat
    requires a.End() <= |span| && b.End() <= |span| && 0 < b.length
  {
    CountLt(Window(span, a), Window(span, b)[0])
  }

  /** How many leading elements of run `b` MergeAt merges: those that may
      stand before the last element of run `a`; the rest stay in place. */
  function MergedTail(span: seq<Item>, a: PendingBlock, b: PendingBlock): nat
    requires a.End() <= |span| && b.End() <= |span| && 0 < a.length
  {
    CountLe(Window(span, b), Window(span, a)[a.length - 1])
  }

  /** After merging runs `a` and `b` (neighbours, `a` first), the elements
      MergeAt trims off are where they were: the head of `a` strictly below
      `b`'s first element and the tail of `b` strictly above `a`'s last. */
  ghost predicate TrimmedInPlace(span: seq<Item>, span': seq<Item>, a: PendingBlock, b: PendingBlock)
    requires a.End() <= |span| && b.End() <= |span| && 0 < a.length && 0 < b.length
    requires |span'| == |span|
  {
    && span'[a.offset..a.offset + KeptHead(span, a, b)] == span[a.offset..a.offset + KeptHead(span, a, b)]
    && span'[b.offset + MergedTail(span, a, b)..b.End()] == span[b.offset + MergedTail(span, a, b)..b.End()]
  }

  lemma TrimmedInPlaceIntro(span: seq<Item>, span': seq<Item>, a: PendingBlock, b: PendingBlock, ka: nat, kb: nat)
    requires a.End() <= |span| && b.End() <= |span| && 0 < a.length && 0 < b.length
    requires |span'| == |span|
    requires ka == KeptHead(span, a, b) && kb == MergedTail(span, a, b)
    requires span'[a.offset..a.offset + ka] == span[a.offset..a.offset + ka]
    requires span'[b.offset + kb..b.End()] == span[b.offset + kb..b.End()]
    ensures TrimmedInPlace(span, span', a, b)
  {
  }

  /** What writing the merge `m` of neighbouring runs `a` and `b` back over
      their window does to the span; `ka` and `kb` are KeptHead and MergedTail. */
  lemma MergeAtFacts(span: seq<Item>, a: PendingBlock, b: PendingBlock, m: seq<Item>, span': seq<Item>, ka: nat, kb: nat)
    requires RunOk(span, a) && RunOk(span, b) && a.End() == b.offset
    requires |m| == a.length + b.length && Sorted(m)
    requires multiset(m) == multiset(Window(span, a) + Window(span, b))
    requires ka <= a.length && kb <= b.length
    requires m[..ka] == Window(span, a)[..ka]
    requires m[a.length + kb..] == Window(span, b)[kb..]
    requires span' == Splice(span, a.offset, b.End(), m)
    ensures Sorted(span'[a.offset..b.End()])
    ensures multiset(span') == multiset(span)
    ensures multiset(span'[a.offset..b.End()]) == multiset(span[a.offset..b.End()])
    ensures span'[a.offset..a.offset + ka] == span[a.offset..a.offset + ka]
    ensures span'[b.offset + kb..b.End()] == span[b.offset + kb..b.End()]
  {
    var off, end := a.offset, b.End();
    var A, B := Window(span, a), Window(span, b);
    assert span[off..end] == A + B;
    assert forall j :: 0 <= j < ka ==> A[j] == span[off + j];
    assert A[..ka] == span[off..off + ka];
    assert B[kb..] == span[b.offset + kb..end];
    SpliceKeeps(span, off, b.offset, end, m, ka, kb, span');
  }

  /** Merges neighbouring runs `a` and `b` in place: the window they cover
      becomes one sorted run holding the same elements, with the trimmed
      parts in place, and nothing outside it changes. */
  method MergeNeighbours(span: seq<Item>, a: PendingBlock, b: PendingBlock, ms: MergeState)
    returns (span': seq<Item>, ms': MergeState)
    requires RunOk(span, a) && RunOk(span, b) && a.End() == b.offset
    ensures |span'| == |span| && multiset(span') == multiset(span)
    ensures Sorted(span'[a.offset..b.End()])
    ensures multiset(span'[a.offset..b.End()]) == multiset(span[a.offset..b.End()])
    ensures span'[..a.offset] == span[..a.offset] && span'[b.End()..] == span[b.End()..]
    ensures TrimmedInPlace(span, span', a, b)
    ensures ms'.pending == ms.pending
    ensures ms'.minGallopFixed == ms.minGallopFixed && ms'.capacity == ms.capacity
    ensures ms.minGallop >= 1 ==> ms'.minGallop >= 1
  {
    var m;
    ghost var sessions, ended;
    m, ms', sessions, ended := MergeRuns(Window(span, a), Window(span, b), ms);
    span' := Splice(span, a.offset, b.End(), m);
    ghost var ka, kb := KeptHead(span, a, b), MergedTail(span, a, b);
    MergeAtFacts(span, a, b, m, span', ka, kb);
    TrimmedInPlaceIntro(span, span', a, b, ka, kb);
  }

  /** MergeAt: merges the runs at stack entries `i` and `i + 1`, where `i`
      is the second- or third-last entry. The two entries become one that
      starts where the first did and covers both (the entry above them, if
      any, slides down); the two runs become one sorted run holding the same
      elements, the parts MergeRuns trims off stay in place, and nothing
      outside the two runs changes. */
  method MergeAt(span: seq<Item>, ms: MergeState, i: nat, ghost lo: nat, ghost hi: nat)
    returns (span': seq<Item>, ms': MergeState)
    requires i + 2 == |ms.pending| || i + 3 == |ms.pending|
    requires WellFormed(span, ms.pending, lo, hi)
    ensures ms'.pending == MergedStack(ms.pending, i)
    ensures WellFormed(span', ms'.pending, lo, hi)
    ensures |span'| == |span| && multiset(span') == multiset(span)
    ensures multiset(span'[ms.pending[i].offset..ms.pending[i + 1].End()])
         == multiset(span[ms.pending[i].offset..ms.pending[i + 1].End()])
    ensures span'[..ms.pending[i].offset] == span[..ms.pending[i].offset]
    ensures span'[ms.pending[i + 1].End()..] == span[ms.pending[i + 1].End()..]
    ensures 0 < ms.pending[i].length && 0 < ms.pending[i + 1].length
    ensures TrimmedInPlace(span, span', ms.pending[i], ms.pending[i + 1])
    ensures ms'.minGallopFixed == ms.minGallopFixed && ms'.capacity == ms.capacity
    ensures ms.minGallop >= 1 ==> ms'.minGallop >= 1
  {
    var p := ms.pending;
    var a, b := p[i], p[i + 1];
    assert RunOk(span, a) && RunOk(span, b);
    assert a.End() == b.offset;
    span', ms' := MergeNeighbours(span, a, b, ms.(pending := StackAfterMerge(p, i)));
    MergedStackWellFormed(span, span', p, i, lo, hi);
  }

  /** A merge that changes the span only inside [off, end) within [lo, hi)
      keeps everything outside [lo, hi) as it was. */
  lemma KeepOutside(span: seq<Item>, span1: seq<Item>, span2: seq<Item>, lo: nat, hi: nat, off: nat, end: nat)
    requires |span1| == |span| && |span2| == |span| && lo <= off <= end <= hi <= |span|
    requires span1[..lo] == span[..lo] && span1[hi..] == span[hi..]
    requires span2[..off] == span1[..off] && span2[end..] == span1[end..]
    ensures span2[..lo] == span[..lo] && span2[hi..] == span[hi..]
  {
    assert span2[..lo] == span2[..off][..lo];
    assert span1[..lo] == span1[..off][..lo];
    assert span2[hi..] == span2[end..][hi - end..];
    assert span1[hi..] == span1[end..][hi - end..];
  }

  /** MergeAt inside a well-formed stack over [lo, hi): the span outside
      [lo, hi) is untouched and the stack shrinks by one. */
  method MergeAtWithin(span0: seq<Item>, span: seq<Item>, ms: MergeState, i: nat, ghost lo: nat, ghost hi: nat)
    returns (span': seq<Item>, ms': MergeState)
    requires i + 2 == |ms.pending| || i + 3 == |ms.pending|
    requires WellFormed(span, ms.pending, lo, hi)
    requires |span| == |span0| && span[..lo] == span0[..lo] && span[hi..] == span0[hi..]
    ensures |ms'.pending| == |ms.pending| - 1
    ensures WellFormed(span', ms'.pending, lo, hi)
    ensures |span'| == |span| && multiset(span') == multiset(span)
    ensures span'[..lo] == span0[..lo] && span'[hi..] == span0[hi..]
    ensures ms'.minGallopFixed == ms.minGallopFixed && ms'.capacity == ms.capacity
    ensures ms.minGallop >= 1 ==> ms'.minGallop >= 1
  {
    RunWithin(span, ms.pending, lo, hi, i);
    RunWithin(span, ms.pending, lo, hi, i + 1);
    span', ms' := MergeAt(span, ms, i, lo, hi);
    KeepOutside(span0, span, span', lo, hi, ms.pending[i].offset, ms.pending[i + 1].End());
  }

  /** MergeCollapse: merges entries near the top of the stack until the top
      three satisfy the run-length conditions (TopBalanced) or one entry is
      left. Deeper entries are not examined. */
  method MergeCollapse(span: seq<Item>, ms: MergeState, ghost lo: nat, ghost hi: nat)
    returns (span': seq<Item>, ms': MergeState)
    requires WellFormed(span, ms.pending, lo, hi)
    ensures WellFormed(span', ms'.pending, lo, hi)
    ensures TopBalanced(ms'.pending)
    ensures |ms'.pending| <= |ms.pending| && (|ms.pending| > 0 ==> |ms'.pending| > 0)
    ensures |ms.pending| <= 1 ==> span' == span && ms' == ms
    ensures |span'| == |span| && multiset(span') == multiset(span)
    ensures span'[..lo] == span[..lo] && span'[hi..] == span[hi..]
    ensures ms'.minGallopFixed == ms.minGallopFixed && ms'.capacity == ms.capacity
    ensures ms.minGallop >= 1 ==> ms'.minGallop >= 1
  {
    span', ms' := span, ms;
    if |ms.pending| <= 1 {
      return;  // the loop below would not run
    }
    while |ms'.pending| > 1
      invariant WellFormed(span', ms'.pending, lo, hi)
      invariant |ms'.pending| <= |ms.pending| && (|ms.pending| > 0 ==> |ms'.pending| > 0)
      invariant |span'| == |span| && multiset(span') == multiset(span)
      invariant span'[..lo] == span[..lo] && span'[hi..] == span[hi..]
      invariant ms'.minGallopFixed == ms.minGallopFixed && ms'.capacity == ms.capacity
      invariant ms.minGallop >= 1 ==> ms'.minGallop >= 1
      decreases |ms'.pending|
    {
      var p := ms'.pending;
      var n := |p| - 2;
      if n > 0 && p[n - 1].length <= p[n].length + p[n + 1].length {
        if p[n - 1].length < p[n + 1].length {
          n := n - 1;
        }
      } else if !(p[n].length <= p[n + 1].length) {
        break;
      }
      span', ms' := MergeAtWithin(span, span', ms', n, lo, hi);
    }
  }

  /** The part of the span between unchanged outer parts of a permuted span
      is itself permuted. */
  lemma WindowPermutation(span: seq<Item>, span': seq<Item>, lo: nat, hi: nat)
    requires |span'| == |span| && lo <= hi <= |span|
    requires multiset(span') == multiset(span)
    requires span'[..lo] == span[..lo] && span'[hi..] == span[hi..]
    ensures multiset(span'[lo..hi]) == multiset(span[lo..hi])
  {
    assert span == span[..lo] + span[lo..hi] + span[hi..];
    assert span' == span'[..lo] + span'[lo..hi] + span'[hi..];
    assert multiset(span) == multiset(span[..lo]) + multiset(span[lo..hi]) + multiset(span[hi..]);
    assert multiset(span') == multiset(span[..lo]) + multiset(span'[lo..hi]) + multiset(span[hi..]);
    forall x | true
      ensures multiset(span'[lo..hi])[x] == multiset(span[lo..hi])[x]
    {
      assert multiset(span')[x] == multiset(span)[x];
    }
  }

  /** MergeForceCollapse: merges the top two entries (or the two below the
      top, when the third-last run is shorter than the last) until one entry
      is left. That entry covers [lo, hi), which is then sorted and holds the
      elements it held before. */
  method MergeForceCollapse(span: seq<Item>, ms: MergeState, ghost lo: nat, ghost hi: nat)
    returns (span': seq<Item>, ms': MergeState)
    requires WellFormed(span, ms.pending, lo, hi)
    ensures WellFormed(span', ms'.pending, lo, hi)
    ensures |ms.pending| <= 1 ==> span' == span && ms' == ms
    ensures |ms.pending| >= 1 ==> |ms'.pending| == 1 && ms'.pending[0] == PendingBlock(lo, hi - lo)
    ensures |span'| == |span| && multiset(span') == multiset(span)
    ensures span'[..lo] == span[..lo] && span'[hi..] == span[hi..]
    ensures multiset(span'[lo..hi]) == multiset(span[lo..hi])
    ensures |ms.pending| >= 1 ==> Sorted(span'[lo..hi])
    ensures |ms.pending| >= 1 && lo == 0 && hi == |span| ==> CheckNoPendingLeft(span', ms')
    ensures ms'.minGallopFixed == ms.minGallopFixed && ms'.capacity == ms.capacity
    ensures ms.minGallop >= 1 ==> ms'.minGallop >= 1
  {
    span', ms' := span, ms;
    if |ms.pending| <= 1 {
      return;  // the loop below would not run
    }
    while |ms'.pending| > 1
      invariant WellFormed(span', ms'.pending, lo, hi)
      invariant |ms'.pending| <= |ms.pending| && (|ms.pending| > 0 ==> |ms'.pending| > 0)
      invariant |span'| == |span| && multiset(span') == multiset(span)
      invariant span'[..lo] == span[..lo] && span'[hi..] == span[hi..]
      invariant ms'.minGallopFixed == ms.minGallopFixed && ms'.capacity == ms.capacity
      invariant ms.minGallop >= 1 ==> ms'.minGallop >= 1
      decreases |ms'.pending|
    {
      var p := ms'.pending;
      var cn := |p| - 2;
      if cn > 0 && p[cn - 1].length < p[cn + 1].length {
        cn := cn - 1;
      }
      span', ms' := MergeAtWithin(span, span', ms', cn, lo, hi);
    }
    WindowPermutation(span, span', lo, hi);
    if |ms'.pending| == 1 {
      assert RunOk(span', ms'.pending[0]);
    }
  }
}
