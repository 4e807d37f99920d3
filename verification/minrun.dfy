/** MergeComputeMinRun of TimSorter.cs: the shortest run the driver lets
    stand; shorter natural runs are extended by binary insertion. */
module MinRun {

  function Pow2(e: nat): (p: nat)
    ensures p >= 1
  {
    if e == 0 then 1 else 2 * Pow2(e - 1)
  }

  /** The loop of MergeComputeMinRun: while `n >= 64` the lowest bit of `n`
      is or-ed into the sticky bit `r` and `n` is shifted right by one; the
      result is what is left of `n` plus the sticky bit. */
  function MinRunLoop(n: nat, r: nat): (k: nat)
    requires r <= 1
    ensures n < 64 ==> k == n + r
    ensures n >= 64 ==> 32 <= k <= 64
    decreases n
  {
    if n >= 64 then MinRunLoop(n / 2, if n % 2 == 1 then 1 else r)
    else n + r
  }

  /** MergeComputeMinRun(n), for the non-negative `n` the source asserts. */
  function MergeComputeMinRun(n: nat): (k: nat)
    ensures n < 64 ==> k == n
    ensures n >= 64 ==> 32 <= k <= 64
  {
    MinRunLoop(n, 0)
  }

  /** How many times the loop shifts `n` right. */
  function MinRunShifts(n: nat): nat
    decreases n
  {
    if n >= 64 then 1 + MinRunShifts(n / 2) else 0
  }

  /** The loop computes a rounded-up quotient: with `r` 0 the value is
      `ceil(n / 2^e)`; with the sticky bit set it stands for a value a
      little above `n`, and the result is `floor(n / 2^e) + 1`. */
  lemma {:induction false} MinRunLoopCeiling(n: nat, r: nat)
    requires r <= 1
    ensures var k, p := MinRunLoop(n, r), Pow2(MinRunShifts(n));
      && (r == 0 ==> k * p - p < n <= k * p)
      && (r == 1 ==> k * p - p <= n < k * p)
    decreases n
  {
    if n >= 64 {
      var q, b := n / 2, n % 2;
      var r' := if b == 1 then 1 else r;
      MinRunLoopCeiling(q, r');
      var k, pq := MinRunLoop(q, r'), Pow2(MinRunShifts(q));
      assert MinRunLoop(n, r) == k;
      assert Pow2(MinRunShifts(n)) == 2 * pq;
      assert n == 2 * q + b;
      DoubleFactor(k, pq);
    }
  }

  lemma DoubleFactor(k: int, x: int)
    ensures k * (2 * x) == 2 * (k * x)
  {
  }

  /** For n >= 64 the minimum run is `ceil(n / 2^e)` where `e` is the number
      of halvings that bring `n` below 64, so `n / k` is at most the power
      of two `2^e`. */
  lemma MinRunIsCeiling(n: nat)
    ensures var k, p := MergeComputeMinRun(n), Pow2(MinRunShifts(n));
      k * p - p < n <= k * p
  {
    MinRunLoopCeiling(n, 0);
  }

  lemma {:induction false} MinRunLoopPow2(t: nat)
    requires t >= 5
    ensures MinRunLoop(Pow2(t), 0) == 32
  {
    if t > 5 {
      assert Pow2(t) == 2 * Pow2(t - 1);
      assert Pow2(t) % 2 == 0 && Pow2(t) / 2 == Pow2(t - 1);
      MinRunLoopPow2(t - 1);
    } else {
      assert Pow2(1) == 2 && Pow2(2) == 4 && Pow2(3) == 8 && Pow2(4) == 16;
    }
  }

  /** For an exact power of two of at least 64 the minimum run is 32. */
  lemma MinRunOfPowerOfTwo(t: nat)
    requires t >= 6
    ensures MergeComputeMinRun(Pow2(t)) == 32
  {
    MinRunLoopPow2(t);
  }
}
