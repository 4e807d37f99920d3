/** The data MergeState.cs carries through one sort call: the galloping
    threshold, the scratch buffer `TempA`, and the stack of pending runs. */
module State {
  import opened Order
  import Config

  /** PendingBlock.cs: a run of `length` elements starting at `offset`. */
  datatype PendingBlock = PendingBlock(offset: nat, length: nat) {
    /** The index just past the run. */
    function End(): nat {
      offset + length
    }
  }

  /** MergeState. `pending` holds the N entries of the stack in use;
      `capacity` is the length of the `Pending` array, which the model keeps
      but never checks (see README). */
  datatype MergeState = MergeState(
    minGallop: int,
    minGallopFixed: int,
    tempA: seq<Item>,
    pending: seq<PendingBlock>,
    capacity: int)

  /** `default(T)`: what a freshly allocated buffer holds. */
  const Blank := Item(0, 0)

  /** `new MergeState(comparer, config)`: both thresholds start at the
      configured `MinGallop`, the scratch buffer has the configured length and
      the stack is empty. Allocating an array of negative length throws, so the
      two sizes must be non-negative. */
  function NewMergeState(config: Config.TimSortConfig): (ms: MergeState)
    requires config.mergeStateTempSize >= 0 && config.maxMergePending >= 0
    ensures ms.minGallop == config.minGallop && ms.minGallopFixed == config.minGallop
    ensures |ms.tempA| == config.mergeStateTempSize
    ensures ms.pending == [] && ms.capacity == config.maxMergePending
  {
    MergeState(config.minGallop, config.minGallop,
               seq(config.mergeStateTempSize, _ => Blank), [], config.maxMergePending)
  }

  /** MergeGetMem: makes the scratch buffer hold at least `needed` elements.
      A buffer that is large enough is kept; otherwise a new one replaces it
      (its contents are never read before being written). Nothing else
      changes. */
  function MergeGetMem(ms: MergeState, needed: nat): (r: MergeState)
    ensures |r.tempA| >= needed
    ensures needed <= |ms.tempA| ==> r == ms
    ensures r.minGallop == ms.minGallop && r.minGallopFixed == ms.minGallopFixed
    ensures r.pending == ms.pending && r.capacity == ms.capacity
  {
    if needed <= |ms.tempA| then ms
    else ms.(tempA := seq(needed, _ => Blank))
  }

  /** AddPendingBlock: pushes the run (offset, length) on top of the stack. */
  function AddPendingBlock(ms: MergeState, offset: nat, length: nat): (r: MergeState)
    ensures |r.pending| == |ms.pending| + 1
    ensures r.pending[..|ms.pending|] == ms.pending
    ensures r.pending[|ms.pending|] == PendingBlock(offset, length)
    ensures r.minGallop == ms.minGallop && r.tempA == ms.tempA
    ensures r.minGallopFixed == ms.minGallopFixed && r.capacity == ms.capacity
  {
    ms.(pending := ms.pending + [PendingBlock(offset, length)])
  }

  /** CheckNoPendingLeft: the bottom run starts at 0 and covers the span. */
  predicate CheckNoPendingLeft(span: seq<Item>, ms: MergeState)
    requires |ms.pending| >= 1
  {
    ms.pending[0].offset == 0 && |span| == ms.pending[0].length
  }

  /** Two runs MergeLo/MergeHi can merge: A = span[..na] and B = span[na..] are
      non-empty and sorted, B's first element may precede A's first, and A's
      last element may follow every element of B. MergeAt establishes this by
      trimming before it calls either. */
  ghost predicate Mergeable(A: seq<Item>, B: seq<Item>) {
    && |A| > 0 && |B| > 0
    && Sorted(A) && Sorted(B)
    && Le(B[0], A[0])
    && Le(B[|B| - 1], A[|A| - 1])
  }

  /** Stack adjacency: each run ends where the next one starts. */
  ghost predicate Adjacent(p: seq<PendingBlock>) {
    forall j :: 0 <= j < |p| - 1 ==> p[j].offset + p[j].length == p[j + 1].offset
  }

  /** One run: non-empty, inside the span, and sorted. */
  ghost predicate RunOk(span: seq<Item>, b: PendingBlock) {
    && 0 < b.length
    && b.offset + b.length <= |span|
    && Sorted(span[b.offset..b.offset + b.length])
  }

  /** Every run on the stack is non-empty, lies inside the span and is sorted. */
  ghost predicate RunsSorted(span: seq<Item>, p: seq<PendingBlock>) {
    forall j :: 0 <= j < |p| ==> RunOk(span, p[j])
  }

  /** The stack is adjacent, its runs are sorted, and together they tile
      [lo, hi) of the span (an empty stack tiles the empty range). */
  ghost predicate WellFormed(span: seq<Item>, p: seq<PendingBlock>, lo: nat, hi: nat) {
    && Adjacent(p)
    && RunsSorted(span, p)
    && (|p| == 0 ==> lo == hi)
    && (|p| > 0 ==> p[0].offset == lo && p[|p| - 1].offset + p[|p| - 1].length == hi)
    && lo <= hi <= |span|
  }

  /** The run-length conditions MergeCollapse restores, on the top three
      entries only: len[-2] > len[-1] and len[-3] > len[-2] + len[-1]. */
  predicate TopBalanced(p: seq<PendingBlock>) {
    || |p| <= 1
    || (&& p[|p| - 2].length > p[|p| - 1].length
        && (|p| < 3 || p[|p| - 3].length > p[|p| - 2].length + p[|p| - 1].length))
  }
}
