/** GallopLeft and GallopRight of MergeState.cs: exponential search from a
    hint, then binary search inside the bracket found.

    Both are written with the non-strict `IsLowerThan`, so each returns the
    boundary its neighbour's comment documents: `GallopLeft` places `key`
    after its equals (every element before the result is `Le` key), and
    `GallopRight` places it before them. The int-overflow guards of the
    source (the reset of a non-positive offset to the maximum) cannot fire
    with unbounded integers and are not modelled. */
module Gallop {
  import opened Order

  /** Number of elements of `s` that may stand before `key`. */
  function CountLe(s: seq<Item>, key: Item): (n: nat)
    ensures n <= |s|
  {
    if |s| == 0 then 0 else (if Le(s[0], key) then 1 else 0) + CountLe(s[1..], key)
  }

  /** Number of elements of `s` strictly below `key`. */
  function CountLt(s: seq<Item>, key: Item): (n: nat)
    ensures n <= |s|
  {
    if |s| == 0 then 0 else (if Le(key, s[0]) then 0 else 1) + CountLt(s[1..], key)
  }

  /** `k` splits `s` into elements `Le` key and elements strictly above key. */
  ghost predicate AfterEquals(s: seq<Item>, key: Item, k: int) {
    && 0 <= k <= |s|
    && (forall i :: 0 <= i < k ==> Le(s[i], key))
    && (forall i :: k <= i < |s| ==> !Le(s[i], key))
  }

  /** `k` splits `s` into elements strictly below key and elements `Le`-above it. */
  ghost predicate BeforeEquals(s: seq<Item>, key: Item, k: int) {
    && 0 <= k <= |s|
    && (forall i :: 0 <= i < k ==> !Le(key, s[i]))
    && (forall i :: k <= i < |s| ==> Le(key, s[i]))
  }

  /** The split point after equals is unique: it is the count of elements `Le` key. */
  lemma {:induction false} AfterEqualsIsCountLe(s: seq<Item>, key: Item, k: int)
    requires AfterEquals(s, key, k)
    ensures k == CountLe(s, key)
  {
    if |s| > 0 {
      if k > 0 {
        assert AfterEquals(s[1..], key, k - 1);
        AfterEqualsIsCountLe(s[1..], key, k - 1);
      } else {
        assert AfterEquals(s[1..], key, 0);
        AfterEqualsIsCountLe(s[1..], key, 0);
      }
    }
  }

  /** The split point before equals is unique: it is the count of elements below key. */
  lemma {:induction false} BeforeEqualsIsCountLt(s: seq<Item>, key: Item, k: int)
    requires BeforeEquals(s, key, k)
    ensures k == CountLt(s, key)
  {
    if |s| > 0 {
      if k > 0 {
        assert BeforeEquals(s[1..], key, k - 1);
        BeforeEqualsIsCountLt(s[1..], key, k - 1);
      } else {
        assert BeforeEquals(s[1..], key, 0);
        BeforeEqualsIsCountLt(s[1..], key, 0);
      }
    }
  }

  /** Exponential phase of GallopLeft: brackets the answer between `lastofs`
      (an element `Le` key, or -1) and `ofs` (an element above key, or n). */
  method GallopLeftBracket(key: Item, s: seq<Item>, hint: nat) returns (lastofs: int, ofs: int)
    requires hint < |s|
    ensures -1 <= lastofs < ofs <= |s|
    ensures 0 <= lastofs ==> Le(s[lastofs], key)
    ensures ofs < |s| ==> !Le(s[ofs], key)
  {
    var a := hint;
    lastofs := 0;
    ofs := 1;
    if IsLowerThan(s[a], key) {
      // s[hint] <= key: gallop right until s[hint + lastofs] <= key < s[hint + ofs]
      var maxofs := |s| - hint;
      while ofs < maxofs
        invariant 0 <= lastofs < ofs && lastofs < maxofs
        invariant Le(s[a + lastofs], key)
        decreases maxofs - ofs
      {
        if IsLowerThan(s[a + ofs], key) {
          lastofs := ofs;
          ofs := 2 * ofs + 1;
        } else {
          break;
        }
      }
      if ofs > maxofs {
        ofs := maxofs;
      }
      lastofs := lastofs + hint;
      ofs := ofs + hint;
    } else {
      // key < s[hint]: gallop left until s[hint - ofs] <= key < s[hint - lastofs]
      var maxofs := hint + 1;
      while ofs < maxofs
        invariant 0 <= lastofs < ofs && lastofs < maxofs
        invariant !Le(s[a - lastofs], key)
        decreases maxofs - ofs
      {
        if IsLowerThan(s[a - ofs], key) {
          break;
        }
        lastofs := ofs;
        ofs := 2 * ofs + 1;
      }
      if ofs > maxofs {
        ofs := maxofs;
      }
      var k := lastofs;
      lastofs := hint - ofs;
      ofs := hint - k;
    }
  }

  /** GallopLeft: for a sorted `s`, the index after every element `Le` key,
      whatever the hint. */
  method GallopLeft(key: Item, s: seq<Item>, hint: nat) returns (k: nat)
    requires Sorted(s) && hint < |s|
    ensures AfterEquals(s, key, k)
    ensures k == CountLe(s, key)
  {
    var lastofs, ofs := GallopLeftBracket(key, s, hint);
    lastofs := lastofs + 1;
    while lastofs < ofs
      invariant 0 <= lastofs <= ofs <= |s|
      invariant forall i :: 0 <= i < lastofs ==> Le(s[i], key)
      invariant forall i :: ofs <= i < |s| ==> !Le(s[i], key)
    {
      var m := lastofs + (ofs - lastofs) / 2;
      if IsLowerThan(s[m], key) {
        lastofs := m + 1;
      } else {
        ofs := m;
      }
    }
    k := ofs;
    AfterEqualsIsCountLe(s, key, k);
  }

  /** Exponential phase of GallopRight: brackets the answer between `lastofs`
      (an element below key, or -1) and `ofs` (an element `Le`-above key, or n). */
  method GallopRightBracket(key: Item, s: seq<Item>, hint: nat) returns (lastofs: int, ofs: int)
    requires hint < |s|
    ensures -1 <= lastofs < ofs <= |s|
    ensures 0 <= lastofs ==> !Le(key, s[lastofs])
    ensures ofs < |s| ==> Le(key, s[ofs])
  {
    var a := hint;
    lastofs := 0;
    ofs := 1;
    if IsLowerThan(key, s[a]) {
      // key <= s[hint]: gallop left until s[hint - ofs] < key <= s[hint - lastofs]
      var maxofs := hint + 1;
      while ofs < maxofs
        invariant 0 <= lastofs < ofs && lastofs < maxofs
        invariant Le(key, s[a - lastofs])
        decreases maxofs - ofs
      {
        if IsLowerThan(key, s[a - ofs]) {
          lastofs := ofs;
          ofs := 2 * ofs + 1;
        } else {
          break;
        }
      }
      if ofs > maxofs {
        ofs := maxofs;
      }
      var k := lastofs;
      lastofs := hint - ofs;
      ofs := hint - k;
    } else {
      // s[hint] < key: gallop right until s[hint + lastofs] < key <= s[hint + ofs]
      var maxofs := |s| - hint;
      while ofs < maxofs
        invariant 0 <= lastofs < ofs && lastofs < maxofs
        invariant !Le(key, s[a + lastofs])
        decreases maxofs - ofs
      {
        if IsLowerThan(key, s[a + ofs]) {
          break;
        }
        lastofs := ofs;
        ofs := 2 * ofs + 1;
      }
      if ofs > maxofs {
        ofs := maxofs;
      }
      lastofs := lastofs + hint;
      ofs := ofs + hint;
    }
  }

  /** GallopRight: for a sorted `s`, the index before every element `Le`-above
      key, whatever the hint. */
  method GallopRight(key: Item, s: seq<Item>, hint: nat) returns (k: nat)
    requires Sorted(s) && hint < |s|
    ensures BeforeEquals(s, key, k)
    ensures k == CountLt(s, key)
  {
    var lastofs, ofs := GallopRightBracket(key, s, hint);
    lastofs := lastofs + 1;
    while lastofs < ofs
      invariant 0 <= lastofs <= ofs <= |s|
      invariant forall i :: 0 <= i < lastofs ==> !Le(key, s[i])
      invariant forall i :: ofs <= i < |s| ==> Le(key, s[i])
    {
      var m := lastofs + (ofs - lastofs) / 2;
      if IsLowerThan(key, s[m]) {
        ofs := m;
      } else {
        lastofs := m + 1;
      }
    }
    k := ofs;
    BeforeEqualsIsCountLt(s, key, k);
  }

  /** The comment above GallopLeft promises `a[k-1] < key <= a[k]`; on one
      element equal to the key the code returns 1 where that boundary is 0. */
  lemma GallopLeftMissesDocumentedBoundary()
    ensures AfterEquals([Item(1, 0)], Item(1, 1), 1)
    ensures BeforeEquals([Item(1, 0)], Item(1, 1), 0)
    ensures forall k :: AfterEquals([Item(1, 0)], Item(1, 1), k) ==> k == 1
  {
    forall k | AfterEquals([Item(1, 0)], Item(1, 1), k)
      ensures k == 1
    {
      AfterEqualsIsCountLe([Item(1, 0)], Item(1, 1), k);
    }
  }
}
