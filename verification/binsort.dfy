/** BinarySort of TimSorter.cs: binary insertion of span[start..] into the
    sorted prefix span[..start]. */
module BinaryInsertion {
  import opened Order
  import opened Gallop

  /** Moves `s[j]` to position `i <= j`; the elements in between slide up
      by one place, as BinarySort's block copy followed by the store of the
      pivot does. */
  function InsertAt(s: seq<Item>, j: nat, i: nat): (r: seq<Item>)
    requires i <= j < |s|
    ensures |r| == |s|
  {
    s[..i] + [s[j]] + s[i..j] + s[j + 1..]
  }

  /** Moving one element loses none. */
  lemma InsertAtPermutes(s: seq<Item>, j: nat, i: nat)
    requires i <= j < |s|
    ensures multiset(InsertAt(s, j, i)) == multiset(s)
  {
    assert s == s[..i] + s[i..j] + [s[j]] + s[j + 1..];
  }

  /** Reference definition of the result: each element from `start` on is
      inserted in front of the first element of the prefix it is not
      strictly above, i.e. at CountLt (before its equals). */
  function InsertionSort(s: seq<Item>, start: nat): seq<Item>
    requires start <= |s|
    decreases |s| - start
  {
    if start == |s| then s
    else InsertionSort(InsertAt(s, start, CountLt(s[..start], s[start])), start + 1)
  }

  /** The binary search of BinarySort over the sorted prefix s[..start]:
      `pivot` goes at the first position whose element it may stand before. */
  method InsertionPoint(s: seq<Item>, start: nat, pivot: Item) returns (l: nat)
    requires 0 < start <= |s| && Sorted(s[..start])
    ensures l <= start && BeforeEquals(s[..start], pivot, l)
    ensures l == CountLt(s[..start], pivot)
  {
    l := 0;
    var r := start;
    // The source's do-while: its body runs at least once, as l < r here.
    while l < r
      invariant 0 <= l <= r <= start
      invariant forall i :: 0 <= i < l ==> !Le(pivot, s[i])
      invariant forall i :: r <= i < start ==> Le(pivot, s[i])
    {
      var p := l + (r - l) / 2;
      assert s[..start][p] == s[p];
      if IsLowerThan(pivot, s[p]) {
        assert forall i :: p <= i < start ==> s[..start][p] == s[p] && s[..start][i] == s[i];
        r := p;
      } else {
        assert forall i :: 0 <= i <= p ==> s[..start][i] == s[i];
        l := p + 1;
      }
    }
    BeforeEqualsIsCountLt(s[..start], pivot, l);
  }

  /** Inserting the element at `j` at its CountLt position extends the
      sorted prefix by one. */
  lemma InsertExtendsSorted(s: seq<Item>, j: nat, l: nat)
    requires j < |s| && Sorted(s[..j]) && BeforeEquals(s[..j], s[j], l)
    ensures Sorted(InsertAt(s, j, l)[..j + 1])
  {
    var x := s[j];
    var r := InsertAt(s, j, l);
    assert r[..j + 1] == s[..l] + [x] + s[l..j];
    SortedSplit(s[..j], l);
    assert s[..j][..l] == s[..l] && s[..j][l..] == s[l..j];
    if l > 0 {
      assert s[..j][l - 1] == s[l - 1];
    }
    SortedAppend(s[..l], x);
    if l < j {
      assert s[..j][l] == s[l];
    }
    SortedConcat(s[..l] + [x], s[l..j]);
  }

  /** One pass of BinarySort's outer loop: the element at `k` goes into the
      sorted prefix before it, which grows by one; what is left for the
      remaining passes to do is unchanged. */
  method InsertNext(r: seq<Item>, k: nat) returns (r': seq<Item>)
    requires 0 < k < |r| && Sorted(r[..k])
    ensures |r'| == |r| && multiset(r') == multiset(r)
    ensures Sorted(r'[..k + 1])
    ensures r'[k + 1..] == r[k + 1..]
    ensures InsertionSort(r', k + 1) == InsertionSort(r, k)
  {
    var l := InsertionPoint(r, k, r[k]);
    InsertExtendsSorted(r, k, l);
    InsertAtPermutes(r, k, l);
    r' := InsertAt(r, k, l);
  }

  /** Passes `k` to the end of BinarySort's outer loop: the prefix of
      length `k` is sorted and the rest is inserted one element at a time. */
  method InsertFrom(r: seq<Item>, k: nat) returns (r': seq<Item>)
    requires 0 < k <= |r| && Sorted(r[..k])
    ensures |r'| == |r| && Sorted(r') && multiset(r') == multiset(r)
    ensures r' == InsertionSort(r, k)
    decreases |r| - k
  {
    if k == |r| {
      assert r[..k] == r;
      r' := r;
    } else {
      var r1 := InsertNext(r, k);
      r' := InsertFrom(r1, k + 1);
    }
  }

  /** BinarySort(span, start): given the sorted prefix span[..start], sorts
      the whole span in place by binary insertion. The source treats
      start 0 as 1. */
  method BinarySort(span: seq<Item>, start: nat) returns (r: seq<Item>)
    requires start <= |span| && Sorted(span[..start])
    ensures |r| == |span| && Sorted(r) && multiset(r) == multiset(span)
    ensures r == InsertionSort(span, start)
  {
    if |span| == 0 {
      r := span;
    } else if start == 0 {
      assert InsertAt(span, 0, CountLt(span[..0], span[0])) == span;
      r := InsertFrom(span, 1);
    } else {
      r := InsertFrom(span, start);
    }
  }
}
