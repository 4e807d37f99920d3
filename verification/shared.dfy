/** Span windows and the copy helpers of Shared.cs.

    A `Span<T>` is a window over some buffer. Here a buffer is a `seq<Item>`
    value and a window is a `View` (offset and length) into it; a helper that
    writes through a window returns the updated buffer together with the
    shortened windows (`CopyContext`). When source and destination windows lie
    in the same buffer, the caller passes that buffer twice: `Span.CopyTo`
    behaves as if the source were read completely before the first write. */
module Shared {
  import opened Order

  /** A window of `len` elements starting at `off`. */
  datatype View = View(off: nat, len: nat) {
    function End(): nat {
      off + len
    }

    predicate Within(buf: seq<Item>) {
      off + len <= |buf|
    }

    /** The elements the window currently shows. */
    function In(buf: seq<Item>): seq<Item>
      requires Within(buf)
    {
      buf[off..off + len]
    }
  }

  /** Shared.CopyContext: the destination buffer after the copy and the two
      windows the helper hands back (`X` for the destination, `Y` for the source). */
  datatype CopyContext = CopyContext(buf: seq<Item>, x: View, y: View)

  /** `dest.CopyFromAndUpdate(src, len)`: copies the first `len` elements of
      `src` onto the first `len` of `dest` and drops them from both windows. */
  function CopyFromAndUpdate(dst: seq<Item>, dest: View, sbuf: seq<Item>, src: View, len: nat): (r: CopyContext)
    requires dest.Within(dst) && src.Within(sbuf)
    requires len <= src.len && len <= dest.len
    ensures |r.buf| == |dst|
    ensures forall i :: dest.off <= i < dest.off + len ==> r.buf[i] == sbuf[i - dest.off + src.off]
    ensures forall i {:trigger r.buf[i]} :: 0 <= i < |dst| && !(dest.off <= i < dest.off + len) ==> r.buf[i] == dst[i]
    ensures r.x.off == dest.off + len && r.x.End() == dest.End()
    ensures r.y.off == src.off + len && r.y.End() == src.End()
  {
    CopyContext(dst[..dest.off] + sbuf[src.off..src.off + len] + dst[dest.off + len..],
                View(dest.off + len, dest.len - len),
                View(src.off + len, src.len - len))
  }

  /** `dest.CopyFromBackAndUpdate(src)`: the last element of `src` is stored
      over the last of `dest`, and both windows lose their last element. */
  function CopyFromBackAndUpdate(dst: seq<Item>, dest: View, sbuf: seq<Item>, src: View): (r: CopyContext)
    requires dest.Within(dst) && src.Within(sbuf)
    requires 1 <= src.len && 1 <= dest.len
    ensures |r.buf| == |dst|
    ensures r.buf[dest.End() - 1] == sbuf[src.End() - 1]
    ensures forall i {:trigger r.buf[i]} :: 0 <= i < |dst| && i != dest.End() - 1 ==> r.buf[i] == dst[i]
    ensures r.x.off == dest.off && r.x.End() == dest.End() - 1
    ensures r.y.off == src.off && r.y.End() == src.End() - 1
  {
    CopyContext(dst[dest.End() - 1 := sbuf[src.End() - 1]],
                View(dest.off, dest.len - 1),
                View(src.off, src.len - 1))
  }

  /** `dest.CopyFromBackAndUpdate(src, len)`: copies the last `len` elements of
      `src` onto the last `len` of `dest` and drops them from both windows. */
  function CopyFromBackAndUpdateLen(dst: seq<Item>, dest: View, sbuf: seq<Item>, src: View, len: nat): (r: CopyContext)
    requires dest.Within(dst) && src.Within(sbuf)
    requires len <= src.len && len <= dest.len
    ensures |r.buf| == |dst|
    ensures forall i :: dest.End() - len <= i < dest.End() ==> r.buf[i] == sbuf[i - dest.End() + src.End()]
    ensures forall i {:trigger r.buf[i]} :: 0 <= i < |dst| && !(dest.End() - len <= i < dest.End()) ==> r.buf[i] == dst[i]
    ensures r.x.off == dest.off && r.x.End() == dest.End() - len
    ensures r.y.off == src.off && r.y.End() == src.End() - len
  {
    CopyContext(dst[..dest.End() - len] + sbuf[src.End() - len..src.End()] + dst[dest.End()..],
                View(dest.off, dest.len - len),
                View(src.off, src.len - len))
  }

  /** The one-element overload of CopyFromBackAndUpdate is the general one
      with `len` 1. */
  lemma BackCopyOneIsLenOne(dst: seq<Item>, dest: View, sbuf: seq<Item>, src: View)
    requires dest.Within(dst) && src.Within(sbuf)
    requires 1 <= src.len && 1 <= dest.len
    ensures CopyFromBackAndUpdate(dst, dest, sbuf, src) == CopyFromBackAndUpdateLen(dst, dest, sbuf, src, 1)
  {
    var a := CopyFromBackAndUpdate(dst, dest, sbuf, src);
    var b := CopyFromBackAndUpdateLen(dst, dest, sbuf, src, 1);
    assert a.buf == b.buf;
  }

  /** `Span.Reverse`: the same elements, last first. */
  function Reverse(s: seq<Item>): (r: seq<Item>)
    ensures |r| == |s|
    ensures forall i :: 0 <= i < |s| ==> r[i] == s[|s| - 1 - i]
    ensures multiset(r) == multiset(s)
  {
    if |s| == 0 then []
    else
      assert s == [s[0]] + s[1..];
      Reverse(s[1..]) + [s[0]]
  }

  /** The element at `i` may stand before its predecessor. */
  predicate StepsDown(s: seq<Item>, i: nat)
    requires 1 <= i < |s|
  {
    Le(s[i], s[i - 1])
  }

  /** A run that never goes up becomes, reversed, a sorted run. */
  lemma ReverseNonIncreasing(s: seq<Item>)
    requires forall i :: 1 <= i < |s| ==> StepsDown(s, i)
    ensures Sorted(Reverse(s))
  {
    var r := Reverse(s);
    NonIncreasingAll(s);
    forall i, j | 0 <= i < j < |r|
      ensures Le(r[i], r[j])
    {
      assert r[i] == s[|s| - 1 - i] && r[j] == s[|s| - 1 - j];
    }
  }

  lemma {:induction false} NonIncreasingAll(s: seq<Item>)
    requires forall i :: 1 <= i < |s| ==> StepsDown(s, i)
    ensures forall i, j :: 0 <= i < j < |s| ==> Le(s[j], s[i])
  {
    if |s| > 1 {
      var t := s[..|s| - 1];
      forall i | 1 <= i < |t|
        ensures StepsDown(t, i)
      {
        assert t[i] == s[i] && t[i - 1] == s[i - 1] && StepsDown(s, i);
      }
      NonIncreasingAll(t);
      assert forall i :: 0 <= i < |t| ==> t[i] == s[i];
      forall i, j | 0 <= i < j < |s|
        ensures Le(s[j], s[i])
      {
        if j < |s| - 1 {
          assert Le(t[j], t[i]);
        } else if i < j - 1 {
          assert StepsDown(s, j) && Le(t[j - 1], t[i]);
        } else {
          assert StepsDown(s, j);
        }
      }
    }
  }
}
