/** The elements being sorted, the caller's comparer, and the orderings every
    other module states its contracts against. */
module Order {

  /** An element of the span. The comparer looks only at `key`; `tag` is a label
      it ignores, carried so that stability can be stated. */
  datatype Item = Item(key: int, tag: int)

  /** The caller's `IComparer<T>.Compare`: negative, zero or positive. */
  function Compare(x: Item, y: Item): (c: int)
    ensures c < 0 <==> x.key < y.key
    ensures c == 0 <==> x.key == y.key
    ensures -1 <= c <= 1
  {
    if x.key < y.key then -1 else if x.key == y.key then 0 else 1
  }

  /** The total preorder the comparer induces: `x` may stand before `y`. */
  predicate Le(x: Item, y: Item) {
    x.key <= y.key
  }

  /** Shared.IsLowerThan: `Compare(x, y) <= 0`. Despite the name this is the
      NON-strict test; its negation is the strict "y is below x". */
  function IsLowerThan(x: Item, y: Item): (b: bool)
    ensures b <==> Le(x, y)
    ensures !b <==> (Le(y, x) && !Le(x, y))
  {
    Compare(x, y) <= 0
  }

  /** `Le` is a total preorder (reflexive, transitive, total) but not
      antisymmetric: distinct items can compare equal. */
  lemma LeIsTotalPreorder(x: Item, y: Item, z: Item)
    ensures Le(x, x)
    ensures Le(x, y) && Le(y, z) ==> Le(x, z)
    ensures Le(x, y) || Le(y, x)
    ensures x.tag != y.tag && x.key == y.key ==> x != y && Le(x, y) && Le(y, x)
  {
  }

  /** Non-decreasing under the comparer. */
  ghost predicate Sorted(s: seq<Item>) {
    forall i, j :: 0 <= i < j < |s| ==> Le(s[i], s[j])
  }

  /** Every element of `a` may stand before every element of `b`. */
  ghost predicate AllLe(a: seq<Item>, b: seq<Item>) {
    forall i, j :: 0 <= i < |a| && 0 <= j < |b| ==> Le(a[i], b[j])
  }

  /** Labels give each element's original position: strictly increasing. */
  ghost predicate TagsIncreasing(s: seq<Item>) {
    forall i, j :: 0 <= i < j < |s| ==> s[i].tag < s[j].tag
  }

  /** Sorted, and elements that compare equal appear in increasing tag order;
      for a permutation of a `TagsIncreasing` input this is stability. */
  ghost predicate StablySorted(s: seq<Item>) {
    && Sorted(s)
    && forall i, j :: 0 <= i < j < |s| && s[i].key == s[j].key ==> s[i].tag < s[j].tag
  }

  lemma SortedSlice(s: seq<Item>, lo: int, hi: int)
    requires Sorted(s) && 0 <= lo <= hi <= |s|
    ensures Sorted(s[lo..hi])
  {
    assert forall i :: 0 <= i < hi - lo ==> s[lo..hi][i] == s[lo + i];
  }

  /** Cutting a sorted sequence leaves two sorted pieces, the first not
      above the second where they meet. */
  lemma SortedSplit(s: seq<Item>, m: int)
    requires Sorted(s) && 0 <= m <= |s|
    ensures Sorted(s[..m]) && Sorted(s[m..])
    ensures 0 < m < |s| ==> Le(s[..m][m - 1], s[m..][0])
  {
    SortedSlice(s, 0, m);
    SortedSlice(s, m, |s|);
    assert s[0..m] == s[..m];
    assert s[m..|s|] == s[m..];
  }

  /** Cutting a sequence loses no element. */
  lemma SplitMultiset(s: seq<Item>, m: int)
    requires 0 <= m <= |s|
    ensures multiset(s[..m]) + multiset(s[m..]) == multiset(s)
  {
    assert s == s[..m] + s[m..];
  }

  /** Two sorted pieces whose meeting point is ordered make a sorted whole. */
  lemma SortedConcat(a: seq<Item>, b: seq<Item>)
    requires Sorted(a) && Sorted(b)
    requires |a| > 0 && |b| > 0 ==> Le(a[|a| - 1], b[0])
    ensures Sorted(a + b)
  {
    var c := a + b;
    forall i, j | 0 <= i < j < |c|
      ensures Le(c[i], c[j])
    {
      if j < |a| {
        assert c[i] == a[i] && c[j] == a[j];
      } else if i >= |a| {
        assert c[i] == b[i - |a|] && c[j] == b[j - |a|];
      } else {
        assert c[i] == a[i] && c[j] == b[j - |a|];
        assert Le(a[i], a[|a| - 1]) || i == |a| - 1;
        assert Le(b[0], b[j - |a|]) || j == |a|;
      }
    }
  }

  /** Sorted with one more element whose key is not below the last. */
  lemma SortedAppend(a: seq<Item>, x: Item)
    requires Sorted(a)
    requires |a| > 0 ==> Le(a[|a| - 1], x)
    ensures Sorted(a + [x])
  {
    SortedConcat(a, [x]);
  }

  /** Sorted with one more element in front whose key is not above the first. */
  lemma SortedPrepend(x: Item, a: seq<Item>)
    requires Sorted(a)
    requires |a| > 0 ==> Le(x, a[0])
    ensures Sorted([x] + a)
  {
    SortedConcat([x], a);
  }
}
