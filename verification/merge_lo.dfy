/** MergeLo of MergeState.cs: merges A = span[..na] with B = span[na..] from
    the low end, A copied to the scratch buffer, B read in place.

    Between two copies the span holds, in order: the merged output so far, a
    gap as long as what is left of A, and what is left of B, untouched.
    `LoLayout` states where each piece sits; `Merging.LoProgress` states why
    the output stays sorted. */
module MergeLow {
  import opened Order
  import opened Shared
  import opened Gallop
  import opened State
  import opened Merging
  import opened Threshold

  /** `out` is `buf[..dest.off]`, the rest of A `ra` is what `pa` shows of
      `tmp`, the rest of B `rb` is what `pb` shows of `buf`, and the gap
      between output and `pb` is exactly as long as `ra`. */
  ghost predicate LoLayout(tmp: seq<Item>, buf: seq<Item>, dest: View, pa: View, pb: View,
                           out: seq<Item>, ra: seq<Item>, rb: seq<Item>) {
    && pa.Within(tmp) && pb.End() == |buf| && dest.End() == |buf|
    && dest.off == |out| && pa.len == |ra| && pb.len == |rb|
    && pb.off == dest.off + pa.len
    && (forall i :: 0 <= i < |out| ==> buf[i] == out[i])
    && (forall i :: 0 <= i < |ra| ==> tmp[pa.off + i] == ra[i])
    && (forall i :: 0 <= i < |rb| ==> buf[pb.off + i] == rb[i])
  }

  /** The loop invariant of MergeLo: layout, progress, and no element lost. */
  ghost predicate LoInv(span: seq<Item>, tmp: seq<Item>, buf: seq<Item>, dest: View, pa: View, pb: View,
                        out: seq<Item>, ra: seq<Item>, rb: seq<Item>) {
    && |buf| == |span|
    && LoLayout(tmp, buf, dest, pa, pb, out, ra, rb)
    && LoProgress(out, ra, rb)
    && multiset(out) + multiset(ra) + multiset(rb) == multiset(span)
  }

  lemma LoStart(span: seq<Item>, na: nat, tmp: seq<Item>)
    requires 0 < na < |span| && Mergeable(span[..na], span[na..])
    requires na <= |tmp| && forall i :: 0 <= i < na ==> tmp[i] == span[i]
    ensures LoInv(span, tmp, span, View(0, |span|), View(0, na), View(na, |span| - na), [], span[..na], span[na..])
  {
    LoProgressStart(span[..na], span[na..]);
    assert span == span[..na] + span[na..];
  }

  /** The views show the rests of A and B. */
  lemma LoViews(span: seq<Item>, tmp: seq<Item>, buf: seq<Item>, dest: View, pa: View, pb: View,
                out: seq<Item>, ra: seq<Item>, rb: seq<Item>)
    requires LoInv(span, tmp, buf, dest, pa, pb, out, ra, rb)
    ensures pa.Within(tmp) && pa.In(tmp) == ra
    ensures pb.Within(buf) && pb.In(buf) == rb
    ensures |ra| > 0 ==> tmp[pa.off] == ra[0]
    ensures |rb| > 0 ==> buf[pb.off] == rb[0]
  {
    assert forall i :: 0 <= i < |ra| ==> pa.In(tmp)[i] == tmp[pa.off + i];
    assert forall i :: 0 <= i < |rb| ==> pb.In(buf)[i] == buf[pb.off + i];
  }

  /** Copying the next `k` elements of B to the output (giving `nbuf`, with
      the windows `dest2` and `pb2` handed back) keeps the invariant, provided
      the last of them may precede the next element of A. */
  lemma LoStepB(span: seq<Item>, tmp: seq<Item>, buf: seq<Item>, dest: View, pa: View, pb: View,
                out: seq<Item>, ra: seq<Item>, rb: seq<Item>,
                k: nat, nbuf: seq<Item>, dest2: View, pb2: View)
    requires LoInv(span, tmp, buf, dest, pa, pb, out, ra, rb)
    requires 0 < k <= |rb|
    requires |ra| > 0 ==> Le(rb[k - 1], ra[0])
    requires |nbuf| == |buf|
    requires forall i :: dest.off <= i < dest.off + k ==> nbuf[i] == buf[i - dest.off + pb.off]
    requires forall i {:trigger nbuf[i]} :: 0 <= i < |buf| && !(dest.off <= i < dest.off + k) ==> nbuf[i] == buf[i]
    requires dest2.off == dest.off + k && dest2.End() == dest.End()
    requires pb2.off == pb.off + k && pb2.End() == pb.End()
    ensures LoInv(span, tmp, nbuf, dest2, pa, pb2, out + rb[..k], ra, rb[k..])
  {
    LoMoveB(out, ra, rb, k);
    var out2 := out + rb[..k];
    var rb2 := rb[k..];
    forall i | 0 <= i < |out2|
      ensures nbuf[i] == out2[i]
    {
      if i < |out| {
        assert nbuf[i] == buf[i];
      } else {
        assert nbuf[i] == buf[pb.off + (i - |out|)];
      }
    }
    forall i | 0 <= i < |rb2|
      ensures nbuf[pb2.off + i] == rb2[i]
    {
      assert nbuf[pb2.off + i] == buf[pb.off + (k + i)];
    }
  }

  /** Copying the next `k` elements of A to the output keeps the invariant,
      provided the last of them may precede the next element of B. */
  lemma LoStepA(span: seq<Item>, tmp: seq<Item>, buf: seq<Item>, dest: View, pa: View, pb: View,
                out: seq<Item>, ra: seq<Item>, rb: seq<Item>,
                k: nat, nbuf: seq<Item>, dest2: View, pa2: View)
    requires LoInv(span, tmp, buf, dest, pa, pb, out, ra, rb)
    requires 0 < k <= |ra|
    requires |rb| > 0 ==> Le(ra[k - 1], rb[0])
    requires |nbuf| == |buf|
    requires forall i :: dest.off <= i < dest.off + k ==> nbuf[i] == tmp[i - dest.off + pa.off]
    requires forall i {:trigger nbuf[i]} :: 0 <= i < |buf| && !(dest.off <= i < dest.off + k) ==> nbuf[i] == buf[i]
    requires dest2.off == dest.off + k && dest2.End() == dest.End()
    requires pa2.off == pa.off + k && pa2.End() == pa.End()
    ensures LoInv(span, tmp, nbuf, dest2, pa2, pb, out + ra[..k], ra[k..], rb)
  {
    LoMoveA(out, ra, rb, k);
    var out2 := out + ra[..k];
    var ra2 := ra[k..];
    forall i | 0 <= i < |out2|
      ensures nbuf[i] == out2[i]
    {
      if i < |out| {
        assert nbuf[i] == buf[i];
      } else {
        assert nbuf[i] == tmp[pa.off + (i - |out|)];
      }
    }
    forall i | 0 <= i < |ra2|
      ensures tmp[pa2.off + i] == ra2[i]
    {
      assert tmp[pa2.off + i] == tmp[pa.off + (k + i)];
    }
    forall i | 0 <= i < |rb|
      ensures nbuf[pb.off + i] == rb[i]
    {
      assert nbuf[pb.off + i] == buf[pb.off + i];
    }
  }

  /** Local `Succeed` of MergeLo: what is left of A goes to the end. */
  function LoSucceed(buf: seq<Item>, dest: View, tmp: seq<Item>, pa: View): (r: seq<Item>)
    requires dest.Within(buf) && pa.Within(tmp) && pa.len <= dest.len
    ensures |r| == |buf|
    ensures forall i :: dest.off <= i < dest.off + pa.len ==> r[i] == tmp[i - dest.off + pa.off]
    ensures forall i {:trigger r[i]} :: 0 <= i < |buf| && !(dest.off <= i < dest.off + pa.len) ==> r[i] == buf[i]
  {
    if pa.len > 0 then CopyFromAndUpdate(buf, dest, tmp, pa, pa.len).buf else buf
  }

  /** Local `CopyB` of MergeLo: the rest of B slides down, then the one
      element left of A goes after it. */
  function LoCopyB(buf: seq<Item>, dest: View, tmp: seq<Item>, pa: View, pb: View): (r: seq<Item>)
    requires dest.Within(buf) && pa.Within(tmp) && pb.Within(buf)
    requires pa.len == 1 && 0 < pb.len < dest.len
    ensures |r| == |buf|
    ensures forall i {:trigger r[i]} :: 0 <= i < dest.off ==> r[i] == buf[i]
    ensures forall i :: dest.off <= i < dest.off + pb.len ==> r[i] == buf[i - dest.off + pb.off]
    ensures r[dest.off + pb.len] == tmp[pa.off]
  {
    var moved := CopyFromAndUpdate(buf, dest, buf, pb, pb.len).buf;
    moved[dest.off + pb.len := tmp[pa.off]]
  }

  /** When one side is used up, `Succeed` (whose result is `r`) completes a
      sorted permutation. */
  lemma LoSucceedDone(span: seq<Item>, tmp: seq<Item>, buf: seq<Item>, dest: View, pa: View, pb: View,
                      out: seq<Item>, ra: seq<Item>, rb: seq<Item>, r: seq<Item>)
    requires LoInv(span, tmp, buf, dest, pa, pb, out, ra, rb)
    requires |ra| == 0 || |rb| == 0
    requires |r| == |buf|
    requires forall i :: dest.off <= i < dest.off + pa.len ==> r[i] == tmp[i - dest.off + pa.off]
    requires forall i {:trigger r[i]} :: 0 <= i < |buf| && !(dest.off <= i < dest.off + pa.len) ==> r[i] == buf[i]
    ensures Sorted(r) && multiset(r) == multiset(span)
  {
    LoFinish(out, ra, rb);
    var whole := out + ra + rb;
    forall i | 0 <= i < |r|
      ensures r[i] == whole[i]
    {
      if i < |out| {
        assert r[i] == buf[i];
      } else if i < |out| + |ra| {
        assert r[i] == tmp[pa.off + (i - |out|)];
      } else {
        assert r[i] == buf[pb.off + (i - |out| - |ra|)];
      }
    }
    assert r == whole;
  }

  /** When one element of A is left, `CopyB` (whose result is `r`) completes
      a sorted permutation: that element is A's last, which may follow all of B. */
  lemma LoCopyBDone(span: seq<Item>, tmp: seq<Item>, buf: seq<Item>, dest: View, pa: View, pb: View,
                    out: seq<Item>, ra: seq<Item>, rb: seq<Item>, r: seq<Item>)
    requires LoInv(span, tmp, buf, dest, pa, pb, out, ra, rb)
    requires |ra| == 1 && |rb| > 0
    requires |r| == |buf|
    requires forall i {:trigger r[i]} :: 0 <= i < dest.off ==> r[i] == buf[i]
    requires forall i :: dest.off <= i < dest.off + pb.len ==> r[i] == buf[i - dest.off + pb.off]
    requires r[dest.off + pb.len] == tmp[pa.off]
    ensures Sorted(r) && multiset(r) == multiset(span)
  {
    LoFinishLastA(out, ra, rb);
    var whole := out + rb + ra;
    forall i | 0 <= i < |r|
      ensures r[i] == whole[i]
    {
      if i < |out| {
        assert r[i] == buf[i];
      } else if i < |out| + |rb| {
        assert r[i] == buf[pb.off + (i - |out|)];
      } else {
        assert r[i] == tmp[pa.off + 0];
      }
    }
    assert r == whole;
  }

  /** `(dest, pb) = dest.CopyFromAndUpdate(pb, k)`: the next `k` elements of
      B go to the output, which stays sorted when the last of them may
      precede the next element of A. */
  method LoTakeB(ghost span: seq<Item>, tmp: seq<Item>, buf: seq<Item>, dest: View, pa: View, pb: View,
                 ghost out: seq<Item>, ghost ra: seq<Item>, ghost rb: seq<Item>, k: nat)
    returns (buf': seq<Item>, dest': View, pb': View, ghost out': seq<Item>, ghost rb': seq<Item>)
    requires LoInv(span, tmp, buf, dest, pa, pb, out, ra, rb)
    requires 0 < k <= |rb|
    requires |ra| > 0 ==> Le(rb[k - 1], ra[0])
    ensures LoInv(span, tmp, buf', dest', pa, pb', out', ra, rb')
    ensures rb' == rb[k..] && pb'.len == pb.len - k
  {
    var cc := CopyFromAndUpdate(buf, dest, buf, pb, k);
    LoStepB(span, tmp, buf, dest, pa, pb, out, ra, rb, k, cc.buf, cc.x, cc.y);
    buf', dest', pb', out', rb' := cc.buf, cc.x, cc.y, out + rb[..k], rb[k..];
  }

  /** `(dest, pa) = dest.CopyFromAndUpdate(pa, k)`: the next `k` elements of
      A go to the output, which stays sorted when the last of them may
      precede the next element of B. */
  method LoTakeA(ghost span: seq<Item>, tmp: seq<Item>, buf: seq<Item>, dest: View, pa: View, pb: View,
                 ghost out: seq<Item>, ghost ra: seq<Item>, ghost rb: seq<Item>, k: nat)
    returns (buf': seq<Item>, dest': View, pa': View, ghost out': seq<Item>, ghost ra': seq<Item>)
    requires LoInv(span, tmp, buf, dest, pa, pb, out, ra, rb)
    requires 0 < k <= |ra|
    requires |rb| > 0 ==> Le(ra[k - 1], rb[0])
    ensures LoInv(span, tmp, buf', dest', pa', pb, out', ra', rb)
    ensures ra' == ra[k..] && pa'.len == pa.len - k
  {
    var cc := CopyFromAndUpdate(buf, dest, tmp, pa, k);
    LoStepA(span, tmp, buf, dest, pa, pb, out, ra, rb, k, cc.buf, cc.x, cc.y);
    buf', dest', pa', out', ra' := cc.buf, cc.x, cc.y, out + ra[..k], ra[k..];
  }

  /** The `Succeed` exit: once A or B is used up the span is sorted and
      holds the elements it started with. */
  method LoSucceedExit(ghost span: seq<Item>, tmp: seq<Item>, buf: seq<Item>, dest: View, pa: View, pb: View,
                       ghost out: seq<Item>, ghost ra: seq<Item>, ghost rb: seq<Item>)
    returns (r: seq<Item>)
    requires LoInv(span, tmp, buf, dest, pa, pb, out, ra, rb)
    requires |ra| == 0 || |rb| == 0
    ensures |r| == |buf| && Sorted(r) && multiset(r) == multiset(span)
  {
    r := LoSucceed(buf, dest, tmp, pa);
    LoSucceedDone(span, tmp, buf, dest, pa, pb, out, ra, rb, r);
  }

  /** The `CopyB` exit: with one element of A left the span is sorted and
      holds the elements it started with. */
  method LoCopyBExit(ghost span: seq<Item>, tmp: seq<Item>, buf: seq<Item>, dest: View, pa: View, pb: View,
                     ghost out: seq<Item>, ghost ra: seq<Item>, ghost rb: seq<Item>)
    returns (r: seq<Item>)
    requires LoInv(span, tmp, buf, dest, pa, pb, out, ra, rb)
    requires |ra| == 1 && |rb| > 0
    ensures |r| == |buf| && Sorted(r) && multiset(r) == multiset(span)
  {
    r := LoCopyB(buf, dest, tmp, pa, pb);
    LoCopyBDone(span, tmp, buf, dest, pa, pb, out, ra, rb, r);
  }

  /** What `GallopRight(pb[0], pa, 0)` tells the merge: the `k` elements of A
      it counts may precede B's first element, the next one may follow it,
      and (A's last element not being below B's last) not all of A is taken. */
  lemma LoGallopRightFacts(out: seq<Item>, ra: seq<Item>, rb: seq<Item>, k: nat)
    requires LoProgress(out, ra, rb) && |ra| > 0 && |rb| > 0
    requires BeforeEquals(ra, rb[0], k)
    ensures k < |ra| && Le(rb[0], ra[k])
    ensures k > 0 ==> Le(ra[k - 1], rb[0])
  {
    if k == |ra| {
      LoGallopLeavesA(out, ra, rb, k);
    }
  }

  /** What `GallopLeft(pa[0], pb, 0)` tells the merge: the `k` elements of B
      it counts may precede A's first element, and the next one may follow it. */
  lemma LoGallopLeftFacts(ra: seq<Item>, rb: seq<Item>, k: nat)
    requires |ra| > 0 && AfterEquals(rb, ra[0], k)
    ensures k > 0 ==> Le(rb[k - 1], ra[0])
    ensures k < |rb| ==> Le(ra[0], rb[k])
  {
  }

  /** The plain loop of MergeLo: one element at a time, B taken when
      `B[0] <= A[0]`, until one run has won `minGallop` times in a row
      (`done` is false) or the merge is complete (`done`, result `r`). */
  method LoPlainPhase(ghost span: seq<Item>, tmp: seq<Item>, buf: seq<Item>, dest: View, pa: View, pb: View,
                      ghost out: seq<Item>, ghost ra: seq<Item>, ghost rb: seq<Item>, minGallop: int)
    returns (done: bool, r: seq<Item>, buf': seq<Item>, dest': View, pa': View, pb': View,
             ghost out': seq<Item>, ghost ra': seq<Item>, ghost rb': seq<Item>)
    requires LoInv(span, tmp, buf, dest, pa, pb, out, ra, rb)
    requires pa.len > 1 && pb.len > 0
    ensures done ==> |r| == |span| && Sorted(r) && multiset(r) == multiset(span)
    ensures !done ==> LoInv(span, tmp, buf', dest', pa', pb', out', ra', rb')
    ensures !done ==> pa'.len > 1 && pb'.len > 0 && pa'.len + pb'.len < pa.len + pb.len
  {
    buf', dest', pa', pb', out', ra', rb' := buf, dest, pa, pb, out, ra, rb;
    var acount := 0;
    var bcount := 0;
    while true
      invariant LoInv(span, tmp, buf', dest', pa', pb', out', ra', rb')
      invariant pa'.len > 1 && pb'.len > 0
      invariant pa'.len + pb'.len <= pa.len + pb.len
      decreases pa'.len + pb'.len
    {
      LoViews(span, tmp, buf', dest', pa', pb', out', ra', rb');
      if IsLowerThan(buf'[pb'.off], tmp[pa'.off]) {
        buf', dest', pb', out', rb' := LoTakeB(span, tmp, buf', dest', pa', pb', out', ra', rb', 1);
        bcount := bcount + 1;
        acount := 0;
        if pb'.len == 0 {
          done := true;
          r := LoSucceedExit(span, tmp, buf', dest', pa', pb', out', ra', rb');
          return;
        }
        if bcount >= minGallop {
          break;
        }
      } else {
        buf', dest', pa', out', ra' := LoTakeA(span, tmp, buf', dest', pa', pb', out', ra', rb', 1);
        acount := acount + 1;
        bcount := 0;
        if pa'.len == 1 {
          done := true;
          r := LoCopyBExit(span, tmp, buf', dest', pa', pb', out', ra', rb');
          return;
        }
        if acount >= minGallop {
          break;
        }
      }
    }
    done, r := false, buf';
  }

  /** First half of a galloping round: `GallopRight(pb[0], pa, 0)` finds the
      `acount` elements of A strictly below B's first element, they go to the
      output as one block, then B's first element follows. */
  method LoGallopA(ghost span: seq<Item>, tmp: seq<Item>, buf: seq<Item>, dest: View, pa: View, pb: View,
                   ghost out: seq<Item>, ghost ra: seq<Item>, ghost rb: seq<Item>)
    returns (done: bool, r: seq<Item>, buf': seq<Item>, dest': View, pa': View, pb': View,
             ghost out': seq<Item>, ghost ra': seq<Item>, ghost rb': seq<Item>, acount: nat)
    requires LoInv(span, tmp, buf, dest, pa, pb, out, ra, rb)
    requires pa.len > 1 && pb.len > 0
    ensures |rb| > 0 && acount == CountLt(ra, rb[0])
    ensures done ==> |r| == |span| && Sorted(r) && multiset(r) == multiset(span)
    ensures !done ==> LoInv(span, tmp, buf', dest', pa', pb', out', ra', rb')
    ensures !done ==> pa'.len > 1 && pb'.len > 0 && pa'.len + pb'.len < pa.len + pb.len
  {
    buf', dest', pa', pb', out', ra', rb' := buf, dest, pa, pb, out, ra, rb;
    LoViews(span, tmp, buf, dest, pa, pb, out, ra, rb);
    var k := GallopRight(buf[pb.off], pa.In(tmp), 0);
    LoGallopRightFacts(out, ra, rb, k);
    acount := k;
    if k > 0 {
      buf', dest', pa', out', ra' := LoTakeA(span, tmp, buf, dest, pa, pb, out, ra, rb, k);
      if pa'.len == 1 {
        done := true;
        r := LoCopyBExit(span, tmp, buf', dest', pa', pb', out', ra', rb');
        return;
      }
      // Impossible for a consistent comparer: A's last element is not
      // below B[0], so GallopRight never takes all of A.
      if pa'.len == 0 {
        assert false;
      }
    }
    buf', dest', pb', out', rb' := LoTakeB(span, tmp, buf', dest', pa', pb', out', ra', rb', 1);
    if pb'.len == 0 {
      done := true;
      r := LoSucceedExit(span, tmp, buf', dest', pa', pb', out', ra', rb');
      return;
    }
    done, r := false, buf';
  }

  /** Second half of a galloping round: `GallopLeft(pa[0], pb, 0)` finds the
      `bcount` elements of B that may precede A's first element, they go to
      the output as one block, then A's first element follows. */
  method LoGallopB(ghost span: seq<Item>, tmp: seq<Item>, buf: seq<Item>, dest: View, pa: View, pb: View,
                   ghost out: seq<Item>, ghost ra: seq<Item>, ghost rb: seq<Item>)
    returns (done: bool, r: seq<Item>, buf': seq<Item>, dest': View, pa': View, pb': View,
             ghost out': seq<Item>, ghost ra': seq<Item>, ghost rb': seq<Item>, bcount: nat)
    requires LoInv(span, tmp, buf, dest, pa, pb, out, ra, rb)
    requires pa.len > 1 && pb.len > 0
    ensures |ra| > 0 && bcount == CountLe(rb, ra[0])
    ensures done ==> |r| == |span| && Sorted(r) && multiset(r) == multiset(span)
    ensures !done ==> LoInv(span, tmp, buf', dest', pa', pb', out', ra', rb')
    ensures !done ==> pa'.len > 1 && pb'.len > 0 && pa'.len + pb'.len < pa.len + pb.len
  {
    buf', dest', pa', pb', out', ra', rb' := buf, dest, pa, pb, out, ra, rb;
    LoViews(span, tmp, buf, dest, pa, pb, out, ra, rb);
    var k := GallopLeft(tmp[pa.off], pb.In(buf), 0);
    LoGallopLeftFacts(ra, rb, k);
    bcount := k;
    if k > 0 {
      buf', dest', pb', out', rb' := LoTakeB(span, tmp, buf, dest, pa, pb, out, ra, rb, k);
      if pb'.len == 0 {
        done := true;
        r := LoSucceedExit(span, tmp, buf', dest', pa', pb', out', ra', rb');
        return;
      }
    }
    buf', dest', pa', out', ra' := LoTakeA(span, tmp, buf', dest', pa', pb', out', ra', rb', 1);
    if pa'.len == 1 {
      done := true;
      r := LoCopyBExit(span, tmp, buf', dest', pa', pb', out', ra', rb');
      return;
    }
    done, r := false, buf';
  }

  /** Galloping mode of MergeLo, entered with threshold `minGallop`: it is
      raised by one on entry and lowered by one, not below 1, at the start
      of every round. `counts` holds the (`acount`, `bcount`) of every
      completed round; galloping goes on while either reaches
      `minGallopFixed`. If the merge ends inside (`done`), in round
      `rounds`, `minGallop'` is the value stored at the start of that round;
      otherwise it is raised by one more for leaving galloping mode. */
  method LoGallopMode(ghost span: seq<Item>, tmp: seq<Item>, buf: seq<Item>, dest: View, pa: View, pb: View,
                      ghost out: seq<Item>, ghost ra: seq<Item>, ghost rb: seq<Item>,
                      minGallop: int, minGallopFixed: int)
    returns (done: bool, r: seq<Item>, buf': seq<Item>, dest': View, pa': View, pb': View,
             ghost out': seq<Item>, ghost ra': seq<Item>, ghost rb': seq<Item>,
             minGallop': int, ghost rounds: nat, ghost counts: seq<(nat, nat)>)
    requires LoInv(span, tmp, buf, dest, pa, pb, out, ra, rb)
    requires pa.len > 1 && pb.len > 0
    ensures done ==> |r| == |span| && Sorted(r) && multiset(r) == multiset(span)
    ensures !done ==> LoInv(span, tmp, buf', dest', pa', pb', out', ra', rb')
    ensures !done ==> pa'.len > 1 && pb'.len > 0 && pa'.len + pb'.len < pa.len + pb.len
    ensures rounds >= 1 && rounds == |counts| + (if done then 1 else 0)
    ensures minGallop' == Session(minGallop, rounds, !done)
    ensures !done ==> |counts| > 0 && !KeepGalloping(counts[|counts| - 1].0, counts[|counts| - 1].1, minGallopFixed)
    ensures forall i :: 0 <= i < |counts| - (if done then 0 else 1) ==> KeepGalloping(counts[i].0, counts[i].1, minGallopFixed)
  {
    buf', dest', pa', pb', out', ra', rb' := buf, dest, pa, pb, out, ra, rb;
    minGallop' := minGallop + 1;
    counts := [];
    while true
      invariant LoInv(span, tmp, buf', dest', pa', pb', out', ra', rb')
      invariant pa'.len > 1 && pb'.len > 0
      invariant pa'.len + pb'.len <= pa.len + pb.len
      invariant |counts| > 0 ==> pa'.len + pb'.len < pa.len + pb.len
      invariant minGallop' == AfterRounds(minGallop + 1, |counts|)
      invariant forall i :: 0 <= i < |counts| ==> KeepGalloping(counts[i].0, counts[i].1, minGallopFixed)
      decreases pa'.len + pb'.len
    {
      minGallop' := Lowered(minGallop');
      rounds := |counts| + 1;
      var acount, bcount;
      done, r, buf', dest', pa', pb', out', ra', rb', acount := LoGallopA(span, tmp, buf', dest', pa', pb', out', ra', rb');
      if done {
        return;
      }
      done, r, buf', dest', pa', pb', out', ra', rb', bcount := LoGallopB(span, tmp, buf', dest', pa', pb', out', ra', rb');
      if done {
        return;
      }
      counts := counts + [(acount, bcount)];
      if !KeepGalloping(acount, bcount, minGallopFixed) {
        break;
      }
    }
    // Penalize leaving galloping mode.
    minGallop' := minGallop' + 1;
    done, r := false, buf';
  }

  /** MergeLo: merges the sorted runs A = span[..na] and B = span[na..]
      (trimmed by MergeAt, so `Mergeable`) into one sorted permutation of the
      span. Ties go to B: the plain loop takes B[0] when `B[0] <= A[0]`.
      Only `MinGallop` and the scratch buffer of the state change: the new
      threshold is what the galloping sessions of the merge (`sessions`, the
      rounds of each) make of the old one, the last session being cut short
      when the merge `ended` inside it. */
  method MergeLo(span: seq<Item>, na: nat, ms: MergeState)
    returns (r: seq<Item>, ms': MergeState, ghost sessions: seq<nat>, ghost ended: bool)
    requires 0 < na < |span|
    requires Mergeable(span[..na], span[na..])
    ensures |r| == |span| && Sorted(r) && multiset(r) == multiset(span)
    ensures ms'.pending == ms.pending && ms'.capacity == ms.capacity
    ensures ms'.minGallopFixed == ms.minGallopFixed
    ensures |ms'.tempA| >= na
    ensures ms'.minGallop == Replay(ms.minGallop, sessions, ended)
    ensures AllRounds(sessions) && (ended ==> |sessions| > 0)
    ensures ms.minGallop >= 1 ==> ms'.minGallop >= 1
  {
    var pa := View(0, na);
    var pb := View(na, |span| - na);
    var ms1 := MergeGetMem(ms, pa.len);
    // A is copied into the scratch buffer; its view now points there.
    var tmp := span[..na] + ms1.tempA[na..];
    var dest := View(0, |span|);
    var buf := span;
    LoStart(span, na, tmp);
    ghost var out: seq<Item> := [];
    ghost var ra := span[..na];
    ghost var rb := span[na..];
    ms' := ms1.(tempA := tmp);
    sessions, ended := [], false;

    buf, dest, pb, out, rb := LoTakeB(span, tmp, buf, dest, pa, pb, out, ra, rb, 1);
    if pb.len == 0 {
      r := LoSucceedExit(span, tmp, buf, dest, pa, pb, out, ra, rb);
      return;
    }
    if pa.len == 1 {
      r := LoCopyBExit(span, tmp, buf, dest, pa, pb, out, ra, rb);
      return;
    }

    var min_gallop := ms'.minGallop;
    while true
      invariant LoInv(span, tmp, buf, dest, pa, pb, out, ra, rb)
      invariant pa.len > 1 && pb.len > 0
      invariant ms'.pending == ms.pending && ms'.capacity == ms.capacity
      invariant ms'.minGallopFixed == ms.minGallopFixed && |ms'.tempA| >= na
      invariant min_gallop == ms'.minGallop
      invariant min_gallop == Replay(ms.minGallop, sessions, false)
      invariant !ended
      invariant AllRounds(sessions)
      decreases pa.len + pb.len
    {
      var done: bool;
      done, r, buf, dest, pa, pb, out, ra, rb := LoPlainPhase(span, tmp, buf, dest, pa, pb, out, ra, rb, min_gallop);
      if done {
        return;
      }
      // Galloping, until neither run wins MIN_GALLOP times in a row.
      ghost var rounds, counts;
      done, r, buf, dest, pa, pb, out, ra, rb, min_gallop, rounds, counts :=
        LoGallopMode(span, tmp, buf, dest, pa, pb, out, ra, rb, min_gallop, ms.minGallopFixed);
      ms' := ms'.(minGallop := min_gallop);
      ReplayAppend(ms.minGallop, sessions, rounds, done);
      sessions, ended := sessions + [rounds], done;
      if done {
        return;
      }
    }
  }
}
