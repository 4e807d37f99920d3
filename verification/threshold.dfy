/** The adaptive galloping threshold `MinGallop` of MergeState.cs.

    MergeLo and MergeHi enter galloping mode once one run has won
    `MinGallop` times in a row. Galloping mode raises the threshold by one
    on entry and lowers it by one, but not below 1, at the start of every
    round. It stays in galloping mode while either run wins at least the
    fixed `MIN_GALLOP` elements in a round, and raises the threshold by one
    again on leaving. A merge is a sequence of such galloping sessions
    between plain phases; `Replay` gives the threshold after them. */
module Threshold {

  /** One galloping round: one less, but never below 1. */
  function Lowered(g: int): (h: int)
    ensures g - 1 <= h <= g
    ensures h < g <==> g > 1
    ensures g >= 1 ==> h >= 1
  {
    if g > 1 then g - 1 else g
  }

  /** The threshold after `n` galloping rounds that start from `g`. */
  function AfterRounds(g: int, n: nat): (h: int)
    ensures g - n <= h <= g
    ensures g >= 1 ==> h >= 1
  {
    if n == 0 then g else Lowered(AfterRounds(g, n - 1))
  }

  /** A galloping session entered with threshold `g`: raised by one on
      entry, lowered once per round, and raised by one more when the
      session leaves galloping mode (`left`) rather than finishing the
      merge. */
  function Session(g: int, rounds: nat, left: bool): (h: int)
    ensures g >= 1 ==> h >= 1
    ensures h <= g + 1 + (if left then 1 else 0)
  {
    AfterRounds(g + 1, rounds) + (if left then 1 else 0)
  }

  /** The threshold after the galloping sessions of one merge, `sessions`
      holding the rounds of each in order. Every session but the last left
      galloping mode; the last one did too unless the merge `ended` inside
      it. */
  function Replay(g: int, sessions: seq<nat>, ended: bool): (h: int)
    ensures g >= 1 ==> h >= 1
    ensures |sessions| == 0 ==> h == g
    decreases |sessions|
  {
    if |sessions| == 0 then g
    else Session(Replay(g, sessions[..|sessions| - 1], false), sessions[|sessions| - 1], !ended)
  }

  /** The exit test of galloping mode: go on while either run won at least
      `MIN_GALLOP` elements in the last round. */
  predicate KeepGalloping(acount: int, bcount: int, minGallopFixed: int) {
    acount >= minGallopFixed || bcount >= minGallopFixed
  }

  /** Every galloping session runs at least one round. */
  ghost predicate AllRounds(sessions: seq<nat>) {
    forall i :: 0 <= i < |sessions| ==> sessions[i] >= 1
  }

  /** Appending a session to a merge's history. */
  lemma ReplayAppend(g: int, sessions: seq<nat>, rounds: nat, ended: bool)
    requires AllRounds(sessions) && rounds >= 1
    ensures AllRounds(sessions + [rounds])
    ensures Replay(g, sessions + [rounds], ended) == Session(Replay(g, sessions, false), rounds, !ended)
  {
  }

  /** From a threshold of at least 1, `n` rounds lower it by `n` down to
      the floor 1. */
  lemma {:induction false} AfterRoundsClosed(g: int, n: nat)
    requires g >= 1
    ensures AfterRounds(g, n) == if g - n >= 1 then g - n else 1
  {
    if n > 0 {
      AfterRoundsClosed(g, n - 1);
    }
  }

  /** A session that leaves galloping mode after `rounds` rounds ends at
      `g + 2 - rounds`, but not below 2: one round raises the threshold by
      one, and a session of more than `g` rounds sets it to 2. */
  lemma SessionLeftClosed(g: int, rounds: nat)
    requires g >= 1
    ensures Session(g, rounds, true) == if g + 1 - rounds >= 1 then g + 2 - rounds else 2
  {
    AfterRoundsClosed(g + 1, rounds);
  }

  /** From a threshold of at least 1, every completed session raises it by
      at most one, and the session a merge ends in does not raise it. */
  lemma {:induction false} ReplayBound(g: int, sessions: seq<nat>, ended: bool)
    requires g >= 1 && AllRounds(sessions)
    ensures Replay(g, sessions, ended) <= g + |sessions| - (if ended && |sessions| > 0 then 1 else 0)
    decreases |sessions|
  {
    if |sessions| > 0 {
      var front := sessions[..|sessions| - 1];
      ReplayBound(g, front, false);
      var h := Replay(g, front, false);
      var n := sessions[|sessions| - 1];
      assert AfterRounds(h + 1, n) == Lowered(AfterRounds(h + 1, n - 1));
    }
  }
}
