/**
 * The busy-wait delays, `bsp/tc4d7/timing.c`, over a free-running counter of which
 * they read the low 32 bits.  `gap(k)` ticks pass before poll number `k`.
 */
module Delays {
  import opened Words

  const STM_HZ: nat := 50_300_000

  class Clock {
    var now: nat
    var polls: nat
    const gap: nat -> nat

    constructor (now: nat, gap: nat -> nat)
      ensures this.now == now && this.gap == gap
    {
      this.now, polls, this.gap := now, 0, gap;
    }

    /** `tc_ticks` */
    method TcTicks() returns (t: Word)
      modifies this
      ensures t == now % WORDS && now == old(now) + gap(old(polls))
      ensures polls == old(polls) + 1
    {
      now, polls := now + gap(polls), polls + 1;
      t := now % WORDS;
    }

    /** One poll of the loop: the 32-bit difference to the start read. */
    method Poll(start: Word, ghost began: nat, ghost p: nat, ghost j: nat) returns (elapsed: Word)
      requires start == began % WORDS && polls == p + 1 + j && now == began + At(gap, p, j)
      modifies this
      ensures polls == p + 2 + j && now == began + At(gap, p, j + 1)
      ensures elapsed == At(gap, p, j + 1) % WORDS
    {
      var t := TcTicks();
      Difference(began, now);
      elapsed := Sub32(t, start);
    }

    /** The loop of `tc_delay_ticks`, begun in poll `p`, goes on to the first poll that shows the time has passed. */
    method AwaitTicks(start: Word, ticks: Word, ghost began: nat, ghost p: nat) returns (ghost j: nat)
      requires start == began % WORDS && now == began && polls == p + 1 && EndsAfter(gap, p, ticks)
      modifies this
      ensures FirstShown(gap, p, j, ticks)
      ensures polls == p + 1 + j && now == began + At(gap, p, j)
    {
      ghost var last: nat :| last > 0 && Shows(gap, p, last, ticks);
      var elapsed := Poll(start, began, p, 0);
      j := 1;
      while elapsed < ticks
        invariant 0 < j <= last && polls == p + 1 + j && now == began + At(gap, p, j)
        invariant (elapsed >= ticks) == Shows(gap, p, j, ticks)
        invariant forall i: nat :: 0 < i < j ==> !Shows(gap, p, i, ticks)
        decreases last - j
      {
        elapsed := Poll(start, began, p, j);
        j := j + 1;
      }
    }

    /** `tc_delay_ticks`, for any gaps with which it ends: from the start read at `began` it goes on to the first
        poll that shows the time has passed, which is never early.  With polls at most `most` apart it is late by
        less than the last gap, or by one gap for no ticks at all. */
    method TcDelayTicks(ticks: Word, ghost most: nat) returns (ghost began: nat, ghost j: nat)
      requires EndsAfter(gap, polls, ticks)
      modifies this
      ensures began == old(now) + gap(old(polls)) && now == began + At(gap, old(polls), j)
      ensures FirstShown(gap, old(polls), j, ticks) && polls == old(polls) + 1 + j
      ensures now >= began + ticks
      ensures Apart(gap, most) && most <= WORDS - ticks ==>
                now < began + ticks + gap(polls - 1) + (if ticks == 0 then 1 else 0)
    {
      ghost var p := polls;
      var start := TcTicks();
      began := now;
      j := AwaitTicks(start, ticks, began, p);
      ShownIsPast(gap, p, j, ticks);
      if Apart(gap, most) && most <= WORDS - ticks {
        NotMuchLater(gap, p, j, ticks, most);
      }
    }

    /** `tc_delay_us` */
    method TcDelayUs(us: Word, ghost most: nat) returns (ghost began: nat)
      requires EndsAfter(gap, polls, UsTicks(us))
      modifies this
      ensures began == old(now) + gap(old(polls))
      ensures us <= 85_387_023 ==> (now - began + 1) * 1_000_000 > us * 50_300_000
      ensures Apart(gap, most) && most <= WORDS - UsTicks(us) ==>
                (now - began) * 1_000_000 <= us * 50_300_000 + most * 1_000_000
    {
      UsTicksExactIff(us);
      ghost var j;
      began, j := TcDelayTicks(us * STM_HZ / 1_000_000 % WORDS, most);
    }

    /** `tc_delay_ms`: never short, and no longer than two gaps a millisecond. */
    method TcDelayMs(ms: Word, ghost most: nat)
      requires forall p: nat :: EndsAfter(gap, p, MS_TICKS)
      modifies this
      ensures now >= old(now) + ms * 50_300
      ensures Apart(gap, most) && most <= WORDS - 50_300 ==> now <= old(now) + ms * (50_300 + 2 * most)
    {
      var left := ms;
      while left > 0
        invariant 0 <= left <= ms
        invariant now >= old(now) + (ms - left) * MS_TICKS
        invariant Apart(gap, most) && most <= WORDS - MS_TICKS ==> now <= old(now) + (ms - left) * (MS_TICKS + 2 * most)
      {
        ghost var done := ms - left;
        left := left - 1;
        ghost var began, j := TcDelayTicks(MS_TICKS, most);
        OneMore(done, MS_TICKS);
        OneMore(done, MS_TICKS + 2 * most);
      }
    }
  }

  lemma OneMore(n: nat, d: nat)
    ensures (n + 1) * d == n * d + d
  {
  }

  /** The subtraction of two reads is the true difference modulo 2^32, and is it exactly below that. */
  lemma Difference(began: nat, now: nat)
    requires began <= now
    ensures Sub32(now % WORDS, began % WORDS) == (now - began) % WORDS
    ensures Sub32(now % WORDS, began % WORDS) <= now - began
  {
  }

  // ----- Microseconds -----------------------------------------------------------

  const MS_TICKS: nat := STM_HZ / 1000

  function UsTicks(us: Word): Word {
    us * STM_HZ / 1_000_000 % WORDS
  }

  /** The tick count is within one of the exact value for delays up to 85.387023 s and for no other. */
  lemma UsTicksExactIff(us: Word)
    ensures UsTicks(us) * 1_000_000 <= us * 50_300_000 < (UsTicks(us) + 1) * 1_000_000 <==> us <= 85_387_023
    ensures UsTicks(us) * 1_000_000 <= us * 50_300_000
  {
  }

  // ----- The schedule of polls -------------------------------------------------------

  /** When poll `p + j` happens, counted from poll `p`. */
  function At(gap: nat -> nat, p: nat, j: nat): nat {
    if j == 0 then 0 else At(gap, p, j - 1) + gap(p + j)
  }

  /** The 32-bit difference at poll `p + j` has reached `ticks`. */
  predicate Shows(gap: nat -> nat, p: nat, j: nat, ticks: Word) {
    At(gap, p, j) % WORDS >= ticks
  }

  /** A delay whose start is read in poll `p` ends. */
  ghost predicate EndsAfter(gap: nat -> nat, p: nat, ticks: Word) {
    exists j: nat :: j > 0 && Shows(gap, p, j, ticks)
  }

  /** Poll `p + j` is the first to show that the time has passed. */
  ghost predicate FirstShown(gap: nat -> nat, p: nat, j: nat, ticks: Word) {
    j > 0 && Shows(gap, p, j, ticks) && forall i: nat :: 0 < i < j ==> !Shows(gap, p, i, ticks)
  }

  lemma AtFirst(gap: nat -> nat, p: nat)
    ensures At(gap, p, 1) == gap(p + 1)
  {
    assert At(gap, p, 1) == At(gap, p, 0) + gap(p + 1);
  }

  /** Polls come at most `most` ticks apart. */
  ghost predicate Apart(gap: nat -> nat, most: nat) {
    forall k: nat :: 0 < gap(k) <= most
  }

  /** Whatever the gaps, a poll that shows the time has passed is not early. */
  lemma ShownIsPast(gap: nat -> nat, p: nat, j: nat, ticks: Word)
    requires Shows(gap, p, j, ticks)
    ensures At(gap, p, j) >= ticks
  {
  }

  /** The first such poll comes less than one gap after the time has passed. */
  lemma {:induction false} StillBefore(gap: nat -> nat, p: nat, j: nat, ticks: Word, most: nat)
    requires Apart(gap, most) && most <= WORDS - ticks && ticks > 0
    requires forall i: nat :: 0 < i <= j ==> !Shows(gap, p, i, ticks)
    ensures At(gap, p, j) < ticks
  {
    if j > 0 {
      StillBefore(gap, p, j - 1, ticks, most);
      assert At(gap, p, j) == At(gap, p, j - 1) + gap(p + j);
      assert !Shows(gap, p, j, ticks);
    }
  }

  lemma NotMuchLater(gap: nat -> nat, p: nat, j: nat, ticks: Word, most: nat)
    requires Apart(gap, most) && most <= WORDS - ticks && FirstShown(gap, p, j, ticks)
    ensures At(gap, p, j) < ticks + gap(p + j) + (if ticks == 0 then 1 else 0)
  {
    if ticks > 0 {
      StillBefore(gap, p, j - 1, ticks, most);
    } else {
      assert j > 1 ==> !Shows(gap, p, 1, ticks);
      AtFirst(gap, p);
    }
  }

  /** The delay loop ends, wherever it starts, whenever polls come at most `most` apart. */
  ghost predicate AlwaysEnds(ticks: Word, most: nat) {
    forall gap: nat -> nat, p: nat :: Apart(gap, most) ==> EndsAfter(gap, p, ticks)
  }

  /** A loop that has not ended is still within the first `ticks`, and the next poll cannot step past 2^32. */
  lemma {:induction false} EndsFrom(gap: nat -> nat, p: nat, ticks: Word, most: nat, k: nat) returns (n: nat)
    requires Apart(gap, most) && most <= WORDS - ticks && At(gap, p, k) < ticks
    ensures n > 0 && Shows(gap, p, n, ticks)
    decreases ticks - At(gap, p, k)
  {
    n := k + 1;
    assert At(gap, p, n) == At(gap, p, k) + gap(p + n);
    if At(gap, p, n) < ticks {
      n := EndsFrom(gap, p, ticks, most, n);
    }
  }

  /** A counter that goes around in `d` polls. */
  function Phase(k: nat, d: nat): (p: nat)
    requires d > 0
    ensures p < d
  {
    if k == 0 || Phase(k - 1, d) + 1 == d then 0 else Phase(k - 1, d) + 1
  }

  /** Unit steps, and one that reaches the wrap. */
  function WrapGap(k: nat, ticks: Word): nat
    requires ticks > 0
  {
    if Phase(k, ticks) == 0 then WORDS - ticks + 1 else 1
  }

  lemma ModuloStep(x: nat, d: nat)
    requires x % WORDS + d <= WORDS
    ensures (x + d) % WORDS == if x % WORDS + d == WORDS then 0 else x % WORDS + d
  {
  }

  /** With such gaps every poll reads less than `ticks`. */
  lemma {:induction false} NeverEnds(gap: nat -> nat, ticks: Word, k: nat)
    requires ticks > 0 && forall k: nat :: gap(k) == WrapGap(k, ticks)
    ensures At(gap, 0, k) % WORDS == Phase(k, ticks)
  {
    if k > 0 {
      NeverEnds(gap, ticks, k - 1);
      assert gap(k) == WrapGap(k, ticks);
      ModuloStep(At(gap, 0, k - 1), WrapGap(k, ticks));
    }
  }

  /** The bound on the gap is exact: one tick more and the loop may never end. */
  lemma EndsIff(ticks: Word, most: nat)
    requires ticks > 0 && most > 0
    ensures AlwaysEnds(ticks, most) <==> most <= WORDS - ticks
  {
    if most <= WORDS - ticks {
      forall gap: nat -> nat, p: nat | Apart(gap, most)
        ensures EndsAfter(gap, p, ticks)
      {
        var n := EndsFrom(gap, p, ticks, most, 0);
      }
    } else {
      var gap: nat -> nat := k => WrapGap(k, ticks);
      assert Apart(gap, most);
      forall k: nat
        ensures !Shows(gap, 0, k, ticks)
      {
        NeverEnds(gap, ticks, k);
      }
      assert !EndsAfter(gap, 0, ticks);
    }
  }
}
