/**
 * The periodic tick, `bsp/tc4d7/irq.c`: a compare register armed against the low 32
 * bits of a free-running counter, and a handler that moves it one interval ahead.
 * The counter may advance between any two register accesses of the handler.
 */
module TimerTick {
  import opened Words

  /** Where the handler stands: after its compare write, after its clear, or not running. */
  datatype Pc = Idle | Stored | Cleared

  /** `now` is the full counter; `matched` is when the pending match happened; `served` counts compare writes
      since the timer was armed, when the tick count stood at `base`. */
  datatype Timer = Timer(
    now: nat, cmp: Word, pending: bool, matched: nat, gTicks: Word, pc: Pc, served: nat, base: Word)

  datatype Event = Tick | Store | Clear | Count

  /** One counter increment, or one access of the handler; an access out of turn does not happen. */
  function Step(t: Timer, interval: Word, e: Event): Timer {
    match e
    case Tick =>
      var hit := (t.now + 1) % WORDS == t.cmp && !t.pending;
      t.(now := t.now + 1, pending := t.pending || hit, matched := if hit then t.now + 1 else t.matched)
    case Store =>
      if t.pc.Idle? && t.pending then t.(cmp := Add32(t.cmp, interval), pc := Stored, served := t.served + 1) else t
    case Clear =>
      if t.pc.Stored? then t.(pending := false, pc := Cleared) else t
    case Count =>
      if t.pc.Cleared? then t.(gTicks := Add32(t.gTicks, 1), pc := Idle) else t
  }

  function Run(t: Timer, interval: Word, es: seq<Event>): Timer {
    if es == [] then t else Step(Run(t, interval, es[..|es| - 1]), interval, es[|es| - 1])
  }

  /** The state `timer_tick_init` leaves, having read the counter at `start`. */
  function Armed(start: nat, interval: Word, now: nat, base: Word): Timer {
    Timer(now, (start + interval) % WORDS, false, 0, base, Idle, 0, base)
  }

  /** Match number `n`. */
  function Due(start: nat, interval: Word, n: nat): (d: nat)
    ensures d >= start
  {
    if n == 0 then start else Due(start, interval, n - 1) + interval
  }

  lemma {:induction false} DueIs(start: nat, interval: Word, n: nat)
    ensures Due(start, interval, n) == start + n * interval
  {
    if n > 0 {
      DueIs(start, interval, n - 1);
      assert n * interval == (n - 1) * interval + interval;
    }
  }

  /** Ticks counted so far. */
  function Counted(t: Timer): int {
    if t.pc.Idle? then t.served else t.served - 1
  }

  /** The compare register is at the next match to come, and no match has been missed. */
  predicate Good(t: Timer, start: nat, interval: Word) {
    && 0 < interval
    && t.cmp == Due(start, interval, t.served + 1) % WORDS
    && Counted(t) >= 0 && t.gTicks == (t.base + Counted(t)) % WORDS
    && match t.pc
       case Stored =>
         t.pending && t.matched == Due(start, interval, t.served) && t.matched <= t.now < t.matched + interval
       case _ =>
         if t.pending then t.matched == Due(start, interval, t.served + 1) && t.matched <= t.now
         else Due(start, interval, t.served) <= t.now < Due(start, interval, t.served + 1)
  }

  /** The pending match is less than one interval old. */
  predicate Timely(t: Timer, interval: Word) {
    t.pending ==> t.now < t.matched + interval
  }

  /** The counter meets the compare value at the match and not before. */
  lemma MeetsOnlyAt(now: nat, due: nat, interval: Word)
    requires now < due <= now + interval
    ensures (now + 1) % WORDS == due % WORDS <==> now + 1 == due
  {
  }

  lemma StepKeeps(t: Timer, start: nat, interval: Word, e: Event)
    requires Good(t, start, interval) && Timely(t, interval) && Timely(Step(t, interval, e), interval)
    ensures Good(Step(t, interval, e), start, interval)
  {
    match e
    case Tick =>
      if !t.pending {
        MeetsOnlyAt(t.now, Due(start, interval, t.served + 1), interval);
      }
    case Store =>
      AddWord(interval, Due(start, interval, t.served + 1));
      CompareAdvances(t.cmp, interval, Due(start, interval, t.served + 1));
    case Clear =>
    case Count =>
      CompareAdvances(t.gTicks, 1, t.base + Counted(t));
  }

  lemma CompareAdvances(c: Word, n: Word, d: nat)
    requires c == d % WORDS
    ensures Add32(c, n) == (d + n) % WORDS
  {
    AddWord(n, d);
  }

  ghost predicate TimelyRun(t: Timer, interval: Word, es: seq<Event>) {
    forall n: nat :: n <= |es| ==> Timely(Run(t, interval, es[..n]), interval)
  }

  lemma {:induction false} RunKeeps(t: Timer, start: nat, interval: Word, es: seq<Event>)
    requires Good(t, start, interval) && TimelyRun(t, interval, es)
    ensures Good(Run(t, interval, es), start, interval)
  {
    if es != [] {
      var front := es[..|es| - 1];
      forall n: nat | n <= |front|
        ensures Timely(Run(t, interval, front[..n]), interval)
      {
        assert front[..n] == es[..n];
      }
      RunKeeps(t, start, interval, front);
      assert es[..|es|] == es && front[..|front|] == front;
      StepKeeps(Run(t, interval, front), start, interval, es[|es| - 1]);
    }
  }

  lemma {:induction false} TimesMonotone(a: nat, b: nat, d: nat)
    requires a <= b
    ensures a * d <= b * d
    decreases b - a
  {
    if a < b {
      TimesMonotone(a, b - 1, d);
    }
  }

  lemma Quotient(x: nat, d: nat, q: nat, p: nat, r: nat)
    requires q * d <= x < q * d + d && x == p * d + r && r < d
    ensures p == q
  {
    if p < q {
      TimesMonotone(p + 1, q, d);
    } else if p > q {
      TimesMonotone(q + 1, p, d);
    }
  }

  /** Whole intervals since the start. */
  lemma WholeIntervals(start: nat, interval: Word, now: nat, n: nat)
    requires interval > 0 && Due(start, interval, n) <= now < Due(start, interval, n + 1)
    ensures (now - start) / interval == n
  {
    DueIs(start, interval, n);
    var x := now - start;
    Quotient(x, interval, n, x / interval, x % interval);
  }

  /** Between handler runs: the compare register is the start plus a whole number of intervals, and the
      tick count is the number of whole intervals elapsed, less the one still to be served. */
  ghost predicate Exact(t: Timer, start: nat, interval: Word)
    requires interval > 0
  {
    && t.now >= start
    && t.served == (t.now - start) / interval - (if t.pending then 1 else 0)
    && t.gTicks == (t.base + t.served) % WORDS
    && t.cmp == (start + (t.served + 1) * interval) % WORDS
  }

  lemma GoodIsExact(t: Timer, start: nat, interval: Word)
    requires Good(t, start, interval) && Timely(t, interval) && t.pc.Idle?
    ensures Exact(t, start, interval)
  {
    DueIs(start, interval, t.served + 1);
    WholeIntervals(start, interval, t.now, if t.pending then t.served + 1 else t.served);
  }

  /** The tick neither drifts nor loses a tick, across any number of counter wraps, if every match is served
      in less than one interval. */
  lemma TickNeverDrifts(start: nat, interval: Word, armed: nat, base: Word, es: seq<Event>)
    requires 0 < interval && start <= armed < start + interval
    requires TimelyRun(Armed(start, interval, armed, base), interval, es)
    ensures Good(Run(Armed(start, interval, armed, base), interval, es), start, interval)
    ensures Run(Armed(start, interval, armed, base), interval, es).pc.Idle? ==>
              Exact(Run(Armed(start, interval, armed, base), interval, es), start, interval)
  {
    var first := Armed(start, interval, armed, base);
    assert Due(start, interval, 1) == Due(start, interval, 0) + interval;
    RunKeeps(first, start, interval, es);
    assert es[..|es|] == es;
    var t := Run(first, interval, es);
    assert Timely(t, interval);
    if t.pc.Idle? {
      GoodIsExact(t, start, interval);
    }
  }

  // ----- The handler ---------------------------------------------------------------

  function Elapsed(t: Timer, interval: Word, n: nat): Timer {
    if n == 0 then t else Step(Elapsed(t, interval, n - 1), interval, Tick)
  }

  /** Before the clear, time only moves the counter. */
  lemma {:induction false} PendingElapses(t: Timer, interval: Word, n: nat)
    requires t.pending
    ensures Elapsed(t, interval, n) == t.(now := t.now + n)
  {
    if n > 0 {
      PendingElapses(t, interval, n - 1);
    }
  }

  /** A match served `late` ticks after it happened leaves things in order exactly if that is less than one
      interval; otherwise the next match lies in the past. */
  lemma ServiceIff(t: Timer, start: nat, interval: Word, before: nat, between: nat)
    requires Good(t, start, interval) && t.pc.Idle? && t.pending && t.now == t.matched
    ensures var stored := Step(Elapsed(t, interval, before), interval, Store);
            var cleared := Step(Elapsed(stored, interval, between), interval, Clear);
            Good(cleared, start, interval) <==> before + between < interval
  {
    PendingElapses(t, interval, before);
    var stored := Step(Elapsed(t, interval, before), interval, Store);
    PendingElapses(stored, interval, between);
    CompareAdvances(t.cmp, interval, Due(start, interval, t.served + 1));
    assert Due(start, interval, t.served + 2) == Due(start, interval, t.served + 1) + interval;
  }

  lemma MissesUntilWrap(x: nat, due: nat)
    requires due < x < due + WORDS
    ensures x % WORDS != due % WORDS
  {
  }

  /** A compare value left behind is met again only after the counter has wrapped. */
  lemma {:induction false} MissedMatchWaitsAWrap(t: Timer, interval: Word, due: nat, n: nat)
    requires !t.pending && t.cmp == due % WORDS && due <= t.now && t.now + n < due + WORDS
    ensures Elapsed(t, interval, n) == t.(now := t.now + n)
  {
    if n > 0 {
      MissedMatchWaitsAWrap(t, interval, due, n - 1);
      MissesUntilWrap(t.now + n, due);
    }
  }

  /** Ticks after the clear may bring the next match, but they never miss it. */
  lemma {:induction false} ClearedElapses(t: Timer, start: nat, interval: Word, n: nat)
    requires t.pc.Cleared? && Good(t, start, interval)
    ensures Good(Elapsed(t, interval, n), start, interval) && Elapsed(t, interval, n).pc.Cleared?
  {
    if n > 0 {
      ClearedElapses(t, start, interval, n - 1);
      var u := Elapsed(t, interval, n - 1);
      if !u.pending {
        MeetsOnlyAt(u.now, Due(start, interval, u.served + 1), interval);
      }
    }
  }

  /** One run of the handler, with `n1` ticks between the compare write and the clear and `n2` until the count. */
  function Handled(t: Timer, interval: Word, n1: nat, n2: nat): Timer {
    Step(Elapsed(Step(Elapsed(Step(t, interval, Store), interval, n1), interval, Clear), interval, n2), interval, Count)
  }

  lemma ClearedInTime(t: Timer, start: nat, interval: Word, n1: nat)
    requires Good(t, start, interval) && t.pc.Idle? && t.pending
    ensures var cleared := Step(Elapsed(Step(t, interval, Store), interval, n1), interval, Clear);
            && cleared.pc.Cleared? && cleared.now == t.now + n1 && cleared.served == t.served + 1
            && if t.now + n1 < t.matched + interval then Good(cleared, start, interval)
               else cleared.now >= Due(start, interval, cleared.served + 1)
  {
    CompareAdvances(t.cmp, interval, t.matched);
    PendingElapses(Step(t, interval, Store), interval, n1);
    assert Due(start, interval, t.served + 2) == Due(start, interval, t.served + 1) + interval;
  }

  lemma {:induction false} ElapsedMovesOn(t: Timer, interval: Word, n: nat)
    ensures var e := Elapsed(t, interval, n);
            e.now == t.now + n && e.served == t.served && e.pc == t.pc && e.gTicks == t.gTicks
  {
    if n > 0 {
      ElapsedMovesOn(t, interval, n - 1);
    }
  }

  /** The handler leaves the tick in order if the match is cleared less than one interval after it happened, and
      behind the counter otherwise. */
  lemma HandledInTime(t: Timer, start: nat, interval: Word, n1: nat, n2: nat)
    requires Good(t, start, interval) && t.pc.Idle? && t.pending
    ensures var h := Handled(t, interval, n1, n2);
            && h.pc.Idle? && h.served == t.served + 1
            && if t.now + n1 < t.matched + interval then Good(h, start, interval)
               else h.now >= Due(start, interval, h.served + 1)
  {
    var cleared := Step(Elapsed(Step(t, interval, Store), interval, n1), interval, Clear);
    ClearedInTime(t, start, interval, n1);
    ElapsedMovesOn(cleared, interval, n2);
    if t.now + n1 < t.matched + interval {
      ClearedElapses(cleared, start, interval, n2);
      var u := Elapsed(cleared, interval, n2);
      CompareAdvances(u.gTicks, 1, u.base + Counted(u));
    }
  }

  class Stm {
    var now: nat              // the counter; ABS reads its low 32 bits
    var cmp0: Word
    var flag: bool            // CMP0IR
    var gTicks: Word
    var gInterval: Word
    ghost var matched: nat
    ghost var served: nat
    ghost var pc: Pc
    ghost var base: Word

    constructor (now: nat, cmp0: Word, flag: bool)
      ensures this.now == now && this.cmp0 == cmp0 && this.flag == flag && gTicks == 0
    {
      this.now, this.cmp0, this.flag, gTicks, gInterval := now, cmp0, flag, 0, 0;
      matched, served, pc, base := 0, 0, Idle, 0;
    }

    ghost function State(): Timer
      reads this
    {
      Timer(now, cmp0, flag, matched, gTicks, pc, served, base)
    }

    /** The counter runs on for `n` ticks. */
    method Pass(n: nat)
      modifies this`now, this`flag, this`matched
      ensures now == old(now) + n
      ensures State() == Elapsed(old(State()), gInterval, n)
    {
      for i := 0 to n
        invariant now == old(now) + i
        invariant State() == Elapsed(old(State()), gInterval, i)
      {
        now := now + 1;
        if now % WORDS == cmp0 {
          if !flag {
            matched := now;
          }
          flag := true;
        }
      }
    }

    /** `timer_tick_init`, with `n1` ticks between the counter read and the compare write and `n2` until
        the flag is cleared: the tick is in order exactly if it is armed within the first interval. */
    method TimerTickInit(interval: Word, n1: nat, n2: nat)
      modifies this
      ensures gInterval == interval && now == old(now) + n1 + n2 && pc == Idle && !flag
      ensures gTicks == old(gTicks) && base == gTicks && served == 0
      ensures Good(State(), old(now), interval) <==> n1 + n2 < interval
    {
      hide Elapsed;
      gInterval := interval;
      var abs := now % WORDS;
      Pass(n1);
      cmp0 := Add32(abs, interval);
      CompareAdvances(abs, interval, old(now));
      Pass(n2);
      flag := false;
      served, pc, base := 0, Idle, gTicks;
      assert Due(old(now), interval, 1) == Due(old(now), interval, 0) + interval;
    }

    /** `stm_isr`, with `n1` ticks between the compare write and the clear and `n2` until the count: the tick
        stays in order exactly if the match is cleared less than one interval after it happened. */
    method StmIsr(start: nat, n1: nat, n2: nat)
      requires Good(State(), start, gInterval) && pc == Idle && flag
      modifies this
      ensures gInterval == old(gInterval) && State() == Handled(old(State()), gInterval, n1, n2)
      ensures pc == Idle && served == old(served) + 1
      ensures old(now) + n1 < old(matched) + gInterval ==> Good(State(), start, gInterval)
      ensures old(now) + n1 >= old(matched) + gInterval ==> now >= Due(start, gInterval, served + 1)
    {
      HandledInTime(State(), start, gInterval, n1, n2);
      hide Good, Elapsed;
      cmp0 := Add32(cmp0, gInterval);
      served, pc := served + 1, Stored;
      assert State() == Step(old(State()), gInterval, Store);
      ElapsedMovesOn(State(), gInterval, n1);
      Pass(n1);
      ghost var was := State();
      flag := false;
      pc := Cleared;
      assert State() == Step(was, gInterval, Clear);
      ElapsedMovesOn(State(), gInterval, n2);
      Pass(n2);
      gTicks := Add32(gTicks, 1);
      pc := Idle;
    }
  }
}
