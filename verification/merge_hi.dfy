/** MergeHi of MergeState.cs: merges A = span[..na] with B = span[na..] from
    the high end, B copied to the scratch buffer, A read in place.

    Between two copies the span holds, in order: what is left of A,
    untouched, a gap as long as what is left of B, and the merged output so
    far. `HiLayout` states where each piece sits; `Merging.HiProgress` states
    why the output stays sorted. */
module MergeHigh {
  import opened Order
  import opened Shared
  import opened Gallop
  import opened State
  import opened Merging
  import opened Threshold

  /** In MergeHi every window starts at index 0 of its buffer and only loses
      elements from the back, so a window is its length: `pa` is `buf[..na]`,
      `pb` is `tmp[..nb]` and `dest` is `buf[..na + nb]`. The rest of A `ra`
      is what `pa` shows, the rest of B `rb` what `pb` shows, and the output
      `out` fills `buf` after `dest`. */
  ghost predicate HiLayout(tmp: seq<Item>, buf: seq<Item>, na: nat, nb: nat,
                           ra: seq<Item>, rb: seq<Item>, out: seq<Item>) {
    && nb <= |tmp| && na + nb <= |buf|
    && na == |ra| && nb == |rb|
    && |out| == |buf| - (na + nb)
    && (forall i :: 0 <= i < |ra| ==> buf[i] == ra[i])
    && (forall i :: 0 <= i < |rb| ==> tmp[i] == rb[i])
    && (forall i :: 0 <= i < |out| ==> buf[na + nb + i] == out[i])
  }

  /** The loop invariant of MergeHi: layout, progress, and no element lost. */
  ghost predicate HiInv(span: seq<Item>, tmp: seq<Item>, buf: seq<Item>, na: nat, nb: nat,
                        ra: seq<Item>, rb: seq<Item>, out: seq<Item>) {
    && |buf| == |span|
    && HiLayout(tmp, buf, na, nb, ra, rb, out)
    && HiProgress(ra, rb, out)
    && multiset(ra) + multiset(rb) + multiset(out) == multiset(span)
  }

  lemma HiStart(span: seq<Item>, na: nat, tmp: seq<Item>)
    requires 0 < na < |span| && Mergeable(span[..na], span[na..])
    requires |span| - na <= |tmp| && forall i :: 0 <= i < |span| - na ==> tmp[i] == span[na + i]
    ensures HiInv(span, tmp, span, na, |span| - na, span[..na], span[na..], [])
  {
    HiProgressStart(span[..na], span[na..]);
    assert span == span[..na] + span[na..];
  }

  /** The windows show the rests of A and B. */
  lemma HiViews(span: seq<Item>, tmp: seq<Item>, buf: seq<Item>, na: nat, nb: nat,
                ra: seq<Item>, rb: seq<Item>, out: seq<Item>)
    requires HiInv(span, tmp, buf, na, nb, ra, rb, out)
    ensures buf[..na] == ra && tmp[..nb] == rb
  {
  }

  /** Where the pieces sit after the last `k` elements of A are copied in
      front of the output (giving `nbuf`). */
  lemma HiLayoutStepA(tmp: seq<Item>, buf: seq<Item>, na: nat, nb: nat,
                      ra: seq<Item>, rb: seq<Item>, out: seq<Item>, k: nat, nbuf: seq<Item>)
    requires HiLayout(tmp, buf, na, nb, ra, rb, out)
    requires 0 < k <= |ra|
    requires |nbuf| == |buf|
    requires forall i :: na + nb - k <= i < na + nb ==> nbuf[i] == buf[i - nb]
    requires forall i {:trigger nbuf[i]} :: 0 <= i < |buf| && !(na + nb - k <= i < na + nb) ==> nbuf[i] == buf[i]
    ensures HiLayout(tmp, nbuf, na - k, nb, ra[..|ra| - k], rb, ra[|ra| - k..] + out)
  {
    var m := |ra| - k;
    var ra2 := ra[..m];
    var out2 := ra[m..] + out;
    forall i | 0 <= i < |ra2|
      ensures nbuf[i] == ra2[i]
    {
      assert nbuf[i] == buf[i];
    }
    forall i | 0 <= i < |out2|
      ensures nbuf[m + nb + i] == out2[i]
    {
      if i < k {
        assert nbuf[m + nb + i] == buf[m + i];
      } else {
        assert nbuf[m + nb + i] == buf[na + nb + (i - k)];
      }
    }
  }

  /** Where the pieces sit after the last `k` elements of B are copied in
      front of the output. */
  lemma HiLayoutStepB(tmp: seq<Item>, buf: seq<Item>, na: nat, nb: nat,
                      ra: seq<Item>, rb: seq<Item>, out: seq<Item>, k: nat, nbuf: seq<Item>)
    requires HiLayout(tmp, buf, na, nb, ra, rb, out)
    requires 0 < k <= |rb|
    requires |nbuf| == |buf|
    requires forall i :: na + nb - k <= i < na + nb ==> nbuf[i] == tmp[i - na]
    requires forall i {:trigger nbuf[i]} :: 0 <= i < |buf| && !(na + nb - k <= i < na + nb) ==> nbuf[i] == buf[i]
    ensures HiLayout(tmp, nbuf, na, nb - k, ra, rb[..|rb| - k], rb[|rb| - k..] + out)
  {
    var m := |rb| - k;
    var out2 := rb[m..] + out;
    forall i | 0 <= i < |ra|
      ensures nbuf[i] == ra[i]
    {
      assert nbuf[i] == buf[i];
    }
    forall i | 0 <= i < |out2|
      ensures nbuf[na + m + i] == out2[i]
    {
      if i < k {
        assert nbuf[na + m + i] == tmp[m + i];
      } else {
        assert nbuf[na + m + i] == buf[na + nb + (i - k)];
      }
    }
  }

  /** Copying the last `k` elements of A in front of the output keeps the
      invariant, provided the first of them may follow the last of B. */
  lemma HiStepA(span: seq<Item>, tmp: seq<Item>, buf: seq<Item>, na: nat, nb: nat,
                ra: seq<Item>, rb: seq<Item>, out: seq<Item>, k: nat, nbuf: seq<Item>)
    requires HiInv(span, tmp, buf, na, nb, ra, rb, out)
    requires 0 < k <= |ra|
    requires |rb| > 0 ==> Le(rb[|rb| - 1], ra[|ra| - k])
    requires |nbuf| == |buf|
    requires forall i :: na + nb - k <= i < na + nb ==> nbuf[i] == buf[i - nb]
    requires forall i {:trigger nbuf[i]} :: 0 <= i < |buf| && !(na + nb - k <= i < na + nb) ==> nbuf[i] == buf[i]
    ensures HiInv(span, tmp, nbuf, na - k, nb, ra[..|ra| - k], rb, ra[|ra| - k..] + out)
  {
    HiMoveA(ra, rb, out, k);
    HiLayoutStepA(tmp, buf, na, nb, ra, rb, out, k, nbuf);
  }

  /** Copying the last `k` elements of B in front of the output keeps the
      invariant, provided the first of them may follow the last of A. */
  lemma HiStepB(span: seq<Item>, tmp: seq<Item>, buf: seq<Item>, na: nat, nb: nat,
                ra: seq<Item>, rb: seq<Item>, out: seq<Item>, k: nat, nbuf: seq<Item>)
    requires HiInv(span, tmp, buf, na, nb, ra, rb, out)
    requires 0 < k <= |rb|
    requires |ra| > 0 ==> Le(ra[|ra| - 1], rb[|rb| - k])
    requires |nbuf| == |buf|
    requires forall i :: na + nb - k <= i < na + nb ==> nbuf[i] == tmp[i - na]
    requires forall i {:trigger nbuf[i]} :: 0 <= i < |buf| && !(na + nb - k <= i < na + nb) ==> nbuf[i] == buf[i]
    ensures HiInv(span, tmp, nbuf, na, nb - k, ra, rb[..|rb| - k], rb[|rb| - k..] + out)
  {
    HiMoveB(ra, rb, out, k);
    HiLayoutStepB(tmp, buf, na, nb, ra, rb, out, k, nbuf);
  }

  /** Local `Succeed` of MergeHi: what is left of B is copied to the front
      of the destination. */
  function HiSucceed(buf: seq<Item>, tmp: seq<Item>, nb: nat): (r: seq<Item>)
    requires nb <= |tmp| && nb <= |buf|
    ensures |r| == |buf|
    ensures forall i :: 0 <= i < nb ==> r[i] == tmp[i]
    ensures forall i {:trigger r[i]} :: nb <= i < |buf| ==> r[i] == buf[i]
  {
    if nb > 0 then tmp[..nb] + buf[nb..] else buf
  }

  /** Local `CopyA` of MergeHi: the rest of A slides up by one place and
      the one element left of B is stored in front of it. */
  function HiCopyA(buf: seq<Item>, tmp: seq<Item>, na: nat): (r: seq<Item>)
    requires 0 < na < |buf| && 0 < |tmp|
    ensures |r| == |buf|
    ensures r[0] == tmp[0]
    ensures forall i :: 1 <= i < 1 + na ==> r[i] == buf[i - 1]
    ensures forall i {:trigger r[i]} :: 1 + na <= i < |buf| ==> r[i] == buf[i]
  {
    var moved := buf[..1] + buf[..na] + buf[na + 1..];
    moved[0 := tmp[0]]
  }

  /** When one side is used up, `Succeed` (whose result is `r`) completes a
      sorted permutation. */
  lemma HiSucceedDone(span: seq<Item>, tmp: seq<Item>, buf: seq<Item>, na: nat, nb: nat,
                      ra: seq<Item>, rb: seq<Item>, out: seq<Item>, r: seq<Item>)
    requires HiInv(span, tmp, buf, na, nb, ra, rb, out)
    requires |ra| == 0 || |rb| == 0
    requires |r| == |buf|
    requires forall i :: 0 <= i < nb ==> r[i] == tmp[i]
    requires forall i {:trigger r[i]} :: nb <= i < |buf| ==> r[i] == buf[i]
    ensures Sorted(r) && multiset(r) == multiset(span)
  {
    HiFinish(ra, rb, out);
    var whole := ra + rb + out;
    forall i | 0 <= i < |r|
      ensures r[i] == whole[i]
    {
      if i < |ra| {
        assert r[i] == buf[i];
      } else if i < |ra| + |rb| {
        assert r[i] == tmp[i];
      } else {
        assert r[i] == buf[na + nb + (i - na - nb)];
      }
    }
    assert r == whole;
  }

  /** When one element of B is left, `CopyA` (whose result is `r`) completes
      a sorted permutation: that element is B's first, which may precede all of A. */
  lemma HiCopyADone(span: seq<Item>, tmp: seq<Item>, buf: seq<Item>, na: nat, nb: nat,
                    ra: seq<Item>, rb: seq<Item>, out: seq<Item>, r: seq<Item>)
    requires HiInv(span, tmp, buf, na, nb, ra, rb, out)
    requires |rb| == 1 && |ra| > 0
    requires |r| == |buf|
    requires r[0] == tmp[0]
    requires forall i :: 1 <= i < 1 + na ==> r[i] == buf[i - 1]
    requires forall i {:trigger r[i]} :: 1 + na <= i < |buf| ==> r[i] == buf[i]
    ensures Sorted(r) && multiset(r) == multiset(span)
  {
    HiFinishFirstB(ra, rb, out);
    var whole := rb + ra + out;
    forall i | 0 <= i < |r|
      ensures r[i] == whole[i]
    {
      if i == 0 {
        assert r[i] == tmp[0];
      } else if i < 1 + |ra| {
        assert r[i] == buf[i - 1];
      } else {
        assert r[i] == buf[na + nb + (i - na - nb)];
      }
    }
    assert r == whole;
  }

  /** `dest.CopyFromBackAndUpdate(src, k)` with both windows starting at
      index 0: the last `k` places of `dst[..dend]` receive the last `k`
      elements of `sbuf[..send]`, and the windows shrink to `dend - k` and
      `send - k`. */
  lemma BackCopyFromStart(dst: seq<Item>, dend: nat, sbuf: seq<Item>, send: nat, k: nat, shift: nat)
    requires dend <= |dst| && send <= |sbuf| && k <= send && k <= dend && shift == dend - send
    ensures var cc := CopyFromBackAndUpdateLen(dst, View(0, dend), sbuf, View(0, send), k);
      && |cc.buf| == |dst| && cc.y.len == send - k
      && (forall i :: dend - k <= i < dend ==> cc.buf[i] == sbuf[i - shift])
      && (forall i {:trigger cc.buf[i]} :: 0 <= i < |dst| && !(dend - k <= i < dend) ==> cc.buf[i] == dst[i])
  {
  }

  /** `(dest, pa) = dest.CopyFromBackAndUpdate(pa, k)`: the last `k` elements
      of A go in front of the output, which stays sorted when the first of
      them may follow the last element of B. (The one-element overload the
      plain loop calls is this with `k` = 1, by `BackCopyOneIsLenOne`.) */
  method HiTakeA(ghost span: seq<Item>, tmp: seq<Item>, buf: seq<Item>, na: nat, nb: nat,
                 ghost ra: seq<Item>, ghost rb: seq<Item>, ghost out: seq<Item>, k: nat)
    returns (buf': seq<Item>, na': nat, ghost ra': seq<Item>, ghost out': seq<Item>)
    requires HiInv(span, tmp, buf, na, nb, ra, rb, out)
    requires 0 < k <= |ra|
    requires |rb| > 0 ==> Le(rb[|rb| - 1], ra[|ra| - k])
    ensures HiInv(span, tmp, buf', na', nb, ra', rb, out')
    ensures ra' == ra[..|ra| - k] && na' == na - k
  {
    var cc := CopyFromBackAndUpdateLen(buf, View(0, na + nb), buf, View(0, na), k);
    BackCopyFromStart(buf, na + nb, buf, na, k, nb);
    HiStepA(span, tmp, buf, na, nb, ra, rb, out, k, cc.buf);
    buf', na', ra', out' := cc.buf, cc.y.len, ra[..|ra| - k], ra[|ra| - k..] + out;
  }

  /** `(dest, pb) = dest.CopyFromBackAndUpdate(pb, k)`: the last `k` elements
      of B go in front of the output, which stays sorted when the first of
      them may follow the last element of A. */
  method HiTakeB(ghost span: seq<Item>, tmp: seq<Item>, buf: seq<Item>, na: nat, nb: nat,
                 ghost ra: seq<Item>, ghost rb: seq<Item>, ghost out: seq<Item>, k: nat)
    returns (buf': seq<Item>, nb': nat, ghost rb': seq<Item>, ghost out': seq<Item>)
    requires HiInv(span, tmp, buf, na, nb, ra, rb, out)
    requires 0 < k <= |rb|
    requires |ra| > 0 ==> Le(ra[|ra| - 1], rb[|rb| - k])
    ensures HiInv(span, tmp, buf', na, nb', ra, rb', out')
    ensures rb' == rb[..|rb| - k] && nb' == nb - k
  {
    var cc := CopyFromBackAndUpdateLen(buf, View(0, na + nb), tmp, View(0, nb), k);
    BackCopyFromStart(buf, na + nb, tmp, nb, k, na);
    HiStepB(span, tmp, buf, na, nb, ra, rb, out, k, cc.buf);
    buf', nb', rb', out' := cc.buf, cc.y.len, rb[..|rb| - k], rb[|rb| - k..] + out;
  }

  /** The `Succeed` exit: once A or B is used up the span is sorted and
      holds the elements it started with. */
  method HiSucceedExit(ghost span: seq<Item>, tmp: seq<Item>, buf: seq<Item>, na: nat, nb: nat,
                       ghost ra: seq<Item>, ghost rb: seq<Item>, ghost out: seq<Item>)
    returns (r: seq<Item>)
    requires HiInv(span, tmp, buf, na, nb, ra, rb, out)
    requires |ra| == 0 || |rb| == 0
    ensures |r| == |buf| && Sorted(r) && multiset(r) == multiset(span)
  {
    r := HiSucceed(buf, tmp, nb);
    HiSucceedDone(span, tmp, buf, na, nb, ra, rb, out, r);
  }

  /** The `CopyA` exit: with one element of B left the span is sorted and
      holds the elements it started with. */
  method HiCopyAExit(ghost span: seq<Item>, tmp: seq<Item>, buf: seq<Item>, na: nat, nb: nat,
                     ghost ra: seq<Item>, ghost rb: seq<Item>, ghost out: seq<Item>)
    returns (r: seq<Item>)
    requires HiInv(span, tmp, buf, na, nb, ra, rb, out)
    requires |rb| == 1 && |ra| > 0
    ensures |r| == |buf| && Sorted(r) && multiset(r) == multiset(span)
  {
    r := HiCopyA(buf, tmp, na);
    HiCopyADone(span, tmp, buf, na, nb, ra, rb, out, r);
  }

  /** What `GallopRight(pb[^1], pa, |pa| - 1)` = `j` tells the merge: the
      elements of A from `j` on may follow B's last element, and the one
      before them precedes it. */
  lemma HiGallopRightFacts(ra: seq<Item>, rb: seq<Item>, j: nat)
    requires |ra| > 0 && |rb| > 0 && BeforeEquals(ra, rb[|rb| - 1], j)
    ensures j < |ra| ==> Le(rb[|rb| - 1], ra[j])
    ensures j > 0 ==> Le(ra[j - 1], rb[|rb| - 1])
  {
  }

  /** What `GallopLeft(pa[^1], pb, |pb| - 1)` = `j` tells the merge: the
      elements of B from `j` on may follow A's last element, the one before
      them precedes it, and (B's first element not being above A's first)
      not all of B is taken. */
  lemma HiGallopLeftFacts(ra: seq<Item>, rb: seq<Item>, out: seq<Item>, j: nat)
    requires HiProgress(ra, rb, out) && |ra| > 0 && |rb| > 0
    requires AfterEquals(rb, ra[|ra| - 1], j)
    ensures 0 < j
    ensures j < |rb| ==> Le(ra[|ra| - 1], rb[j])
    ensures Le(rb[j - 1], ra[|ra| - 1])
  {
    if j == 0 {
      HiGallopLeavesB(ra, rb, out, |rb|);
    }
  }

  /** The plain loop of MergeHi: one element at a time from the back, A
      taken when `B[^1] <= A[^1]`, until one run has won `minGallop` times in
      a row (`done` is false) or the merge is complete (`done`, result `r`). */
  method HiPlainPhase(ghost span: seq<Item>, tmp: seq<Item>, buf: seq<Item>, na: nat, nb: nat,
                      ghost ra: seq<Item>, ghost rb: seq<Item>, ghost out: seq<Item>, minGallop: int)
    returns (done: bool, r: seq<Item>, buf': seq<Item>, na': nat, nb': nat,
             ghost ra': seq<Item>, ghost rb': seq<Item>, ghost out': seq<Item>)
    requires HiInv(span, tmp, buf, na, nb, ra, rb, out)
    requires na > 0 && nb > 1
    ensures done ==> |r| == |span| && Sorted(r) && multiset(r) == multiset(span)
    ensures !done ==> HiInv(span, tmp, buf', na', nb', ra', rb', out')
    ensures !done ==> na' > 0 && nb' > 1 && na' + nb' < na + nb
  {
    buf', na', nb', ra', rb', out' := buf, na, nb, ra, rb, out;
    var acount := 0;
    var bcount := 0;
    while true
      invariant HiInv(span, tmp, buf', na', nb', ra', rb', out')
      invariant na' > 0 && nb' > 1
      invariant na' + nb' <= na + nb
      decreases na' + nb'
    {
      HiViews(span, tmp, buf', na', nb', ra', rb', out');
      if IsLowerThan(tmp[nb' - 1], buf'[na' - 1]) {
        buf', na', ra', out' := HiTakeA(span, tmp, buf', na', nb', ra', rb', out', 1);
        acount := acount + 1;
        bcount := 0;
        if na' == 0 {
          done := true;
          r := HiSucceedExit(span, tmp, buf', na', nb', ra', rb', out');
          return;
        }
        if acount >= minGallop {
          break;
        }
      } else {
        buf', nb', rb', out' := HiTakeB(span, tmp, buf', na', nb', ra', rb', out', 1);
        bcount := bcount + 1;
        acount := 0;
        if nb' == 1 {
          done := true;
          r := HiCopyAExit(span, tmp, buf', na', nb', ra', rb', out');
          return;
        }
        if bcount >= minGallop {
          break;
        }
      }
    }
    done, r := false, buf';
  }

  /** First half of a galloping round: `GallopRight(pb[^1], pa, |pa| - 1)`
      leaves the `acount` elements of A that may follow B's last element; they
      go in front of the output as one block, then B's last element. */
  method HiGallopA(ghost span: seq<Item>, tmp: seq<Item>, buf: seq<Item>, na: nat, nb: nat,
                   ghost ra: seq<Item>, ghost rb: seq<Item>, ghost out: seq<Item>)
    returns (done: bool, r: seq<Item>, buf': seq<Item>, na': nat, nb': nat,
             ghost ra': seq<Item>, ghost rb': seq<Item>, ghost out': seq<Item>, acount: nat)
    requires HiInv(span, tmp, buf, na, nb, ra, rb, out)
    requires na > 0 && nb > 1
    ensures |rb| > 0 && acount == |ra| - CountLt(ra, rb[|rb| - 1])
    ensures done ==> |r| == |span| && Sorted(r) && multiset(r) == multiset(span)
    ensures !done ==> HiInv(span, tmp, buf', na', nb', ra', rb', out')
    ensures !done ==> na' > 0 && nb' > 1 && na' + nb' < na + nb
  {
    buf', na', nb', ra', rb', out' := buf, na, nb, ra, rb, out;
    HiViews(span, tmp, buf, na, nb, ra, rb, out);
    var j := GallopRight(tmp[nb - 1], buf[..na], na - 1);
    HiGallopRightFacts(ra, rb, j);
    var k := na - j;
    acount := k;
    if k > 0 {
      buf', na', ra', out' := HiTakeA(span, tmp, buf, na, nb, ra, rb, out, k);
      if na' == 0 {
        done := true;
        r := HiSucceedExit(span, tmp, buf', na', nb', ra', rb', out');
        return;
      }
    }
    buf', nb', rb', out' := HiTakeB(span, tmp, buf', na', nb', ra', rb', out', 1);
    if nb' == 1 {
      done := true;
      r := HiCopyAExit(span, tmp, buf', na', nb', ra', rb', out');
      return;
    }
    done, r := false, buf';
  }

  /** Second half of a galloping round: `GallopLeft(pa[^1], pb, |pb| - 1)`
      leaves the `bcount` elements of B strictly above A's last element; they
      go in front of the output as one block, then A's last element. */
  method HiGallopB(ghost span: seq<Item>, tmp: seq<Item>, buf: seq<Item>, na: nat, nb: nat,
                   ghost ra: seq<Item>, ghost rb: seq<Item>, ghost out: seq<Item>)
    returns (done: bool, r: seq<Item>, buf': seq<Item>, na': nat, nb': nat,
             ghost ra': seq<Item>, ghost rb': seq<Item>, ghost out': seq<Item>, bcount: nat)
    requires HiInv(span, tmp, buf, na, nb, ra, rb, out)
    requires na > 0 && nb > 1
    ensures |ra| > 0 && bcount == |rb| - CountLe(rb, ra[|ra| - 1])
    ensures done ==> |r| == |span| && Sorted(r) && multiset(r) == multiset(span)
    ensures !done ==> HiInv(span, tmp, buf', na', nb', ra', rb', out')
    ensures !done ==> na' > 0 && nb' > 1 && na' + nb' < na + nb
  {
    buf', na', nb', ra', rb', out' := buf, na, nb, ra, rb, out;
    HiViews(span, tmp, buf, na, nb, ra, rb, out);
    var j := GallopLeft(buf[na - 1], tmp[..nb], nb - 1);
    HiGallopLeftFacts(ra, rb, out, j);
    var k := nb - j;
    bcount := k;
    if k > 0 {
      buf', nb', rb', out' := HiTakeB(span, tmp, buf, na, nb, ra, rb, out, k);
      if nb' == 1 {
        done := true;
        r := HiCopyAExit(span, tmp, buf', na', nb', ra', rb', out');
        return;
      }
      // Impossible for a consistent comparer: B's first element is not
      // above A's first, so GallopLeft never leaves all of B.
      if nb' == 0 {
        assert false;
      }
    }
    buf', na', ra', out' := HiTakeA(span, tmp, buf', na', nb', ra', rb', out', 1);
    if na' == 0 {
      done := true;
      r := HiSucceedExit(span, tmp, buf', na', nb', ra', rb', out');
      return;
    }
    done, r := false, buf';
  }

  /** Galloping mode of MergeHi, entered with threshold `minGallop`: it is
      raised by one on entry and lowered by one, not below 1, at the start
      of every round. `counts` holds the (`acount`, `bcount`) of every
      completed round; galloping goes on while either reaches
      `minGallopFixed`. If the merge ends inside (`done`), in round
      `rounds`, `minGallop'` is the value stored at the start of that round;
      otherwise it is raised by one more for leaving galloping mode. */
  method HiGallopMode(ghost span: seq<Item>, tmp: seq<Item>, buf: seq<Item>, na: nat, nb: nat,
                      ghost ra: seq<Item>, ghost rb: seq<Item>, ghost out: seq<Item>,
                      minGallop: int, minGallopFixed: int)
    returns (done: bool, r: seq<Item>, buf': seq<Item>, na': nat, nb': nat,
             ghost ra': seq<Item>, ghost rb': seq<Item>, ghost out': seq<Item>,
             minGallop': int, ghost rounds: nat, ghost counts: seq<(nat, nat)>)
    requires HiInv(span, tmp, buf, na, nb, ra, rb, out)
    requires na > 0 && nb > 1
    ensures done ==> |r| == |span| && Sorted(r) && multiset(r) == multiset(span)
    ensures !done ==> HiInv(span, tmp, buf', na', nb', ra', rb', out')
    ensures !done ==> na' > 0 && nb' > 1 && na' + nb' < na + nb
    ensures rounds >= 1 && rounds == |counts| + (if done then 1 else 0)
    ensures minGallop' == Session(minGallop, rounds, !done)
    ensures !done ==> |counts| > 0 && !KeepGalloping(counts[|counts| - 1].0, counts[|counts| - 1].1, minGallopFixed)
    ensures forall i :: 0 <= i < |counts| - (if done then 0 else 1) ==> KeepGalloping(counts[i].0, counts[i].1, minGallopFixed)
  {
    buf', na', nb', ra', rb', out' := buf, na, nb, ra, rb, out;
    minGallop' := minGallop + 1;
    counts := [];
    while true
      invariant HiInv(span, tmp, buf', na', nb', ra', rb', out')
      invariant na' > 0 && nb' > 1
      invariant na' + nb' <= na + nb
      invariant |counts| > 0 ==> na' + nb' < na + nb
      invariant minGallop' == AfterRounds(minGallop + 1, |counts|)
      invariant forall i :: 0 <= i < |counts| ==> KeepGalloping(counts[i].0, counts[i].1, minGallopFixed)
      decreases na' + nb'
    {
      minGallop' := Lowered(minGallop');
      rounds := |counts| + 1;
      var acount, bcount;
      done, r, buf', na', nb', ra', rb', out', acount := HiGallopA(span, tmp, buf', na', nb', ra', rb', out');
      if done {
        return;
      }
      done, r, buf', na', nb', ra', rb', out', bcount := HiGallopB(span, tmp, buf', na', nb', ra', rb', out');
      if done {
        return;
      }
      counts := counts + [(acount, bcount)];
      if !KeepGalloping(acount, bcount, minGallopFixed) {
        break;
      }
    }
    // Penalize leaving galloping mode.
    minGallop' := minGallop' + 1;
    done, r := false, buf';
  }

  /** MergeHi: merges the sorted runs A = span[..na] and B = span[na..]
      (trimmed by MergeAt, so `Mergeable`) from the back into one sorted
      permutation of the span. Ties go to A: the plain loop takes A's last
      element when `B[^1] <= A[^1]`. Only `MinGallop` and the scratch
      buffer of the state change: the new threshold is what the galloping
      sessions of the merge (`sessions`, the rounds of each) make of the old
      one, the last session being cut short when the merge `ended` inside
      it. */
  method MergeHi(span: seq<Item>, na: nat, ms: MergeState)
    returns (r: seq<Item>, ms': MergeState, ghost sessions: seq<nat>, ghost ended: bool)
    requires 0 < na < |span|
    requires Mergeable(span[..na], span[na..])
    ensures |r| == |span| && Sorted(r) && multiset(r) == multiset(span)
    ensures ms'.pending == ms.pending && ms'.capacity == ms.capacity
    ensures ms'.minGallopFixed == ms.minGallopFixed
    ensures |ms'.tempA| >= |span| - na
    ensures ms'.minGallop == Replay(ms.minGallop, sessions, ended)
    ensures AllRounds(sessions) && (ended ==> |sessions| > 0)
    ensures ms.minGallop >= 1 ==> ms'.minGallop >= 1
  {
    var nb := |span| - na;
    var ms1 := MergeGetMem(ms, nb);
    // B is copied into the scratch buffer; its view now points there.
    var tmp := span[na..] + ms1.tempA[nb..];
    var buf := span;
    HiStart(span, na, tmp);
    ms' := ms1.(tempA := tmp);
    sessions, ended := [], false;
    // The lengths of pa and pb; dest is always as long as both together.
    var la: nat, lb: nat := na, nb;
    ghost var ra := span[..na];
    ghost var rb := span[na..];
    ghost var out: seq<Item> := [];

    HiViews(span, tmp, buf, la, lb, ra, rb, out);
    buf, la, ra, out := HiTakeA(span, tmp, buf, la, lb, ra, rb, out, 1);
    if la == 0 {
      r := HiSucceedExit(span, tmp, buf, la, lb, ra, rb, out);
      return;
    }
    if lb == 1 {
      r := HiCopyAExit(span, tmp, buf, la, lb, ra, rb, out);
      return;
    }

    var min_gallop := ms'.minGallop;
    while true
      invariant HiInv(span, tmp, buf, la, lb, ra, rb, out)
      invariant la > 0 && lb > 1
      invariant ms'.pending == ms.pending && ms'.capacity == ms.capacity
      invariant ms'.minGallopFixed == ms.minGallopFixed && |ms'.tempA| >= nb
      invariant min_gallop == ms'.minGallop
      invariant min_gallop == Replay(ms.minGallop, sessions, false)
      invariant !ended
      invariant AllRounds(sessions)
      decreases la + lb
    {
      var done: bool;
      done, r, buf, la, lb, ra, rb, out := HiPlainPhase(span, tmp, buf, la, lb, ra, rb, out, min_gallop);
      if done {
        return;
      }
      // Galloping, until neither run wins MIN_GALLOP times in a row.
      ghost var rounds, counts;
      done, r, buf, la, lb, ra, rb, out, min_gallop, rounds, counts :=
        HiGallopMode(span, tmp, buf, la, lb, ra, rb, out, min_gallop, ms.minGallopFixed);
      ms' := ms'.(minGallop := min_gallop);
      ReplayAppend(ms.minGallop, sessions, rounds, done);
      sessions, ended := sessions + [rounds], done;
      if done {
        return;
      }
    }
  }
}
