/**
 * The host half of the halt-signalling protocol, `tools/common/ppu.c`, against
 * the step machine of PpuCore.  Before every access, and in every pause, the core
 * runs as many steps as the schedule `pace` gives it, so a contract that holds for
 * every schedule holds for every interleaving.  A status read that faults reads as
 * 0, which is "running".
 */
module PpuHost {
  import opened Words
  import opened PpuCore

  const CODE_BASE: int := 0xB000_0000
  const POLLS: nat := 20
  const RESUMES: nat := 40

  /** The image words that would land on the command word and on the first operand. */
  const CMD_INDEX: nat := 0xC0
  const INPUT_INDEX: nat := 0xC4

  // ----- Arithmetic of the accumulated word -----------------------------------

  function Pow2(n: nat): (p: nat)
    ensures p > 0
  {
    if n == 0 then 1 else 2 * Pow2(n - 1)
  }

  /** The low `n` bits of `v`. */
  function Low(v: nat, n: nat): (r: nat)
    ensures r < Pow2(n)
    decreases n
  {
    if n == 0 then 0 else v % 2 + 2 * Low(v / 2, n - 1)
  }

  lemma {:induction false} LowNext(v: Word, n: nat)
    ensures Low(v, n + 1) == Low(v, n) + (if BitOf(v, n) == 1 then Pow2(n) else 0)
    decreases n
  {
    if n > 0 {
      LowNext(v / 2, n - 1);
    }
  }

  lemma {:induction false} LowAll(v: nat, n: nat)
    requires v < Pow2(n)
    ensures Low(v, n) == v
    decreases n
  {
    if n > 0 {
      LowAll(v / 2, n - 1);
    }
  }

  lemma {:induction false} OrAbove(a: nat, n: nat)
    requires a < Pow2(n)
    ensures Or(a, Pow2(n)) == a + Pow2(n)
    decreases n
  {
    if n > 0 && a > 0 {
      OrAbove(a / 2, n - 1);
    }
  }

  lemma WordBits()
    ensures Pow2(32) == WORDS
  {
    assert Pow2(8) == 256;
    assert Pow2(16) == 256 * Pow2(8);
    assert Pow2(24) == 256 * Pow2(16);
    assert Pow2(32) == 256 * Pow2(24);
  }

  // ----- The token sequence -----------------------------------------------------

  /** The tokens for the first `bits` bits of one word. */
  function WordTokens(nonce: nat, word: nat, bits: nat): seq<Word>
    requires bits <= 32
  {
    if bits == 0 then [] else WordTokens(nonce, word, bits - 1) + [Token(nonce + bits - 1, word, bits - 1)]
  }

  /** Those of them that ask for a 1 bit of `value`. */
  function WordStops(nonce: nat, word: nat, bits: nat, value: Word): seq<Word>
    requires bits <= 32
  {
    if bits == 0 then []
    else WordStops(nonce, word, bits - 1, value)
         + (if BitOf(value, bits - 1) == 1 then [Token(nonce + bits - 1, word, bits - 1)] else [])
  }

  /** The log of a core that had logged `before` and then answered `bits` bits of a word. */
  function WordLog(before: Log, nonce: nat, word: nat, bits: nat, value: Word): Log
    requires bits <= 32
  {
    Log(before.taken + WordTokens(nonce, word, bits), before.stops + WordStops(nonce, word, bits, value))
  }

  /** The log of a whole call: the tokens of its words in order, 32 for each word. */
  function CallLog(nout: nat, scratch: Memory): Log {
    if nout == 0 then Log([], [])
    else WordLog(CallLog(nout - 1, scratch), 1 + 32 * (nout - 1), nout - 1, 32, ResultWord(scratch, nout - 1))
  }

  /** The core has answered the bits of a word up to bit `last`, a 1, and nothing after it. */
  predicate Stays(log: Log, before: Log, nonce: nat, word: nat, last: nat, scratch: Memory) {
    && last < 32 && log == WordLog(before, nonce, word, last + 1, ResultWord(scratch, word))
    && BitOf(ResultWord(scratch, word), last) == 1
  }

  /** A call that breaks off there has posted the tokens of the words before and of this one so far, in order. */
  predicate BreaksOff(log: Log, scratch: Memory, word: nat, last: nat) {
    Stays(log, CallLog(word, scratch), 1 + 32 * word, word, last, scratch)
  }

  lemma WordLogStart(before: Log, nonce: nat, word: nat, value: Word)
    ensures WordLog(before, nonce, word, 0, value) == before
  {
  }

  lemma WordLogNext(before: Log, nonce: nat, word: nat, bit: nat, value: Word, one: bool, log: Log)
    requires bit < 32 && one == (BitOf(value, bit) == 1)
    requires log.taken == WordLog(before, nonce, word, bit, value).taken + [Token(nonce + bit, word, bit)]
    requires log.stops == WordLog(before, nonce, word, bit, value).stops
                          + (if one then [Token(nonce + bit, word, bit)] else [])
    ensures log == WordLog(before, nonce, word, bit + 1, value)
  {
  }

  /** Collecting one more bit. */
  lemma CollectBit(v: nat, value: Word, bit: nat, one: bool)
    requires bit < 32 && v == Low(value, bit) && one == (BitOf(value, bit) == 1)
    ensures Low(value, bit + 1) == (if one then Or(v, Pow2(bit)) else v)
    ensures Low(value, bit + 1) < WORDS
  {
    LowNext(value, bit);
    OrAbove(v, bit);
    LowFits(value, bit + 1);
  }

  lemma {:induction false} LowFits(v: nat, n: nat)
    ensures Low(v, n) <= v
    decreases n
  {
    if n > 0 {
      LowFits(v / 2, n - 1);
    }
  }

  lemma TokenLow(nonce: nat, word: nat, bit: nat)
    requires bit < 256
    ensures Token(nonce, word, bit) % 256 == bit
  {
  }

  /** What the core makes of a token, whatever the word index. */
  lemma TokenFields(nonce: nat, word: nat, bit: nat, scratch: Memory)
    requires bit < 32
    ensures var token := Token(nonce, word, bit);
            && token % 256 == bit && !Done(token)
            && Decode(token, scratch).one == (BitOf(ResultWord(scratch, word), bit) == 1)
  {
    var token := Token(nonce, word, bit);
    assert token / 256 == Or(nonce, word / 256) % 65536 * 256 + word % 256;
    assert (token / 256) % 256 == word % 256;
  }

  // ----- The host ------------------------------------------------------------------

  /** The steps the schedule gives the core in `t` polls starting at slot `i`. */
  function Window(pace: (nat, nat) -> nat, i: nat, t: nat): nat {
    if t == 0 then 0 else Window(pace, i, t - 1) + pace(i + 2 * t - 2, 1000) + pace(i + 2 * t - 1, 0)
  }

  lemma {:induction false} WindowGrows(pace: (nat, nat) -> nat, i: nat, s: nat, t: nat)
    requires s <= t
    ensures Window(pace, i, s) <= Window(pace, i, t)
    decreases t
  {
    if s < t {
      WindowGrows(pace, i, s, t - 1);
    }
  }

  class Link {
    var lmu: Memory
    var core: Core
    var slot: nat   // accesses and pauses so far
    var pokes: nat  // resume requests so far
    const pace: (nat, nat) -> nat  // steps the core runs in a slot, given the pause in microseconds
    const wakes: nat -> bool       // whether a resume request reaches a halted core
    const hides: nat -> bool       // whether the status read after a resume request faults
    const blind: nat -> bool       // whether a status read in a slot faults while a bit is polled for
    const reach: nat               // image words that get through before the link faults

    constructor (lmu: Memory, core: Core, pace: (nat, nat) -> nat, wakes: nat -> bool, hides: nat -> bool,
                 blind: nat -> bool, reach: nat)
      ensures this.lmu == lmu && this.core == core && this.slot == 0 && this.pokes == 0
      ensures this.pace == pace && this.wakes == wakes && this.hides == hides && this.blind == blind
      ensures this.reach == reach
    {
      this.lmu, this.core, this.slot, this.pokes := lmu, core, 0, 0;
      this.pace, this.wakes, this.hides, this.blind, this.reach := pace, wakes, hides, blind, reach;
    }

    /** The timing assumption: every twenty polls hold one that does not fault and comes after N steps. */
    ghost predicate Timely() {
      forall i: nat :: InTime(i)
    }

    ghost predicate InTime(i: nat) {
      Shown(i, 20, N)
    }

    /** One of the first `n` polls from slot `i` shows a halt that is `due` steps away. */
    ghost predicate Shown(i: nat, n: nat, due: nat) {
      exists t: nat :: 1 <= t <= n && Shows(i, t, due)
    }

    ghost predicate Shows(i: nat, t: nat, due: nat) {
      t >= 1 && Window(pace, i, t) >= due && !blind(i + 2 * t - 1)
    }

    /** Of any forty consecutive resume requests, one reaches the core. */
    ghost predicate Wakeful() {
      forall i: nat :: WokenFrom(i)
    }

    /** No status read hides that a resume request was lost. */
    ghost predicate Candid() {
      forall k: nat :: hides(k) ==> wakes(k)
    }

    ghost predicate WokenFrom(i: nat) {
      Woken(i, i + 40)
    }

    ghost predicate Woken(i: nat, j: nat) {
      exists k: nat :: i <= k < j && wakes(k)
    }

    /** Requests `i` up to `j` were all lost, and each was seen to be lost. */
    ghost predicate Lost(i: nat, j: nat) {
      forall k: nat :: i <= k < j ==> !wakes(k) && !hides(k)
    }

    /** Of the forty requests from `i` on, one reaches the core before any is taken for a success. */
    ghost predicate Restarts(i: nat) {
      exists k: nat :: i <= k < i + 40 && wakes(k) && Lost(i, k)
    }

    /** Polling, with the posted token already consumed. */
    ghost predicate Idle()
      reads this
    {
      core.Serving? && Waiting(core.loop, Load(lmu, CMD))
    }

    /** Halted to say 1 to the posted token. */
    ghost predicate Stopped()
      reads this
    {
      && core.Serving? && core.loop.halted && core.loop.pc == Again && core.loop.r12 == Load(lmu, CMD)
    }

    method Elapse(us: nat)
      modifies this`core, this`slot
      ensures core == Run(old(core), lmu, pace(old(slot), us)) && slot == old(slot) + 1
    {
      core := Run(core, lmu, pace(slot, us));
      slot := slot + 1;
    }

    method Write(a: int, v: Word)
      modifies this`core, this`slot, this`lmu
      ensures core == Run(old(core), old(lmu), pace(old(slot), 0)) && slot == old(slot) + 1
      ensures lmu == old(lmu)[a := v]
    {
      Elapse(0);
      lmu := lmu[a := v];
    }

    /** 0 running, 2 halted; a read that faults leaves the 0 it was given. */
    method RunState(fault: bool) returns (state: int)
      modifies this`core, this`slot
      ensures core == Run(old(core), lmu, pace(old(slot), 0)) && slot == old(slot) + 1
      ensures state == (if !fault && core.Serving? && core.loop.halted then 2 else 0)
    {
      Elapse(0);
      state := if !fault && core.Serving? && core.loop.halted then 2 else 0;
    }

    /** Write the resume request: it restarts a halted core if it gets through. */
    method Poke()
      requires core.Serving?
      modifies this`core, this`slot, this`pokes
      ensures pokes == old(pokes) + 1 && slot == old(slot) + 1
      ensures var was := Run(old(core), lmu, pace(old(slot), 0));
              core == (if was.Serving? && wakes(old(pokes)) then was.(loop := was.loop.(halted := false)) else was)
    {
      Elapse(0);
      if core.Serving? && wakes(pokes) {
        core := core.(loop := core.loop.(halted := false));
      }
      pokes := pokes + 1;
    }

    lemma RunRests(n: nat)
      requires Idle() || Stopped()
      ensures var end := Run(core, lmu, n);
              && end.Serving? && end.scratch == core.scratch && end.loop.log == core.loop.log
              && (if Idle() then Waiting(end.loop, Load(lmu, CMD)) else end == core)
    {
      if Idle() {
        RunWaits(core, lmu, Load(lmu, CMD), n);
      } else {
        RunHalted(core, lmu, n);
      }
    }

    /** One round of resuming: poke, pause, run, pause, look. */
    method TryResume() returns (running: bool)
      requires Stopped()
      modifies this`core, this`slot, this`pokes
      ensures core.Serving? && core.scratch == old(core.scratch) && core.loop.log == old(core.loop.log)
      ensures if wakes(old(pokes)) then Idle() else Stopped()
      ensures running == (wakes(old(pokes)) || hides(old(pokes))) && pokes == old(pokes) + 1
      ensures slot == old(slot) + 5
    {
      RunRests(pace(slot, 0));
      Poke();
      RunRests(pace(slot, 2500));
      Elapse(2500);
      RunRests(pace(slot, 0));
      Elapse(0);  // the run request
      RunRests(pace(slot, 1200));
      Elapse(1200);
      RunRests(pace(slot, 0));
      var state := RunState(hides(pokes - 1));
      running := state == 0;
    }

    /** Gives up exactly if all forty requests are seen to be lost.  The core polls again exactly if one gets through
        before that or before a faulting read passes for a success. */
    method Resume() returns (ok: bool)
      requires Stopped()
      modifies this`core, this`slot, this`pokes
      ensures core.Serving? && core.scratch == old(core.scratch) && core.loop.log == old(core.loop.log)
      ensures ok <==> !Lost(old(pokes), old(pokes) + RESUMES)
      ensures if Restarts(old(pokes)) then ok && Idle() else Stopped()
    {
      ghost var first := pokes;
      for k := 0 to RESUMES
        invariant core.Serving? && core.scratch == old(core.scratch) && core.loop.log == old(core.loop.log)
        invariant Stopped() && pokes == first + k
        invariant Lost(first, first + k)
      {
        var running := TryResume();
        if running {
          assert wakes(first + k) || hides(first + k);
          return true;
        }
      }
      return false;
    }

    /** When no read hides a lost request, the answer is the truth. */
    lemma CandidResumes(i: nat)
      requires Candid()
      ensures Restarts(i) <==> WokenFrom(i)
      ensures Restarts(i) <==> !Lost(i, i + RESUMES)
    {
      FirstWake(i, i + RESUMES);
    }

    lemma {:induction false} FirstWake(i: nat, j: nat)
      requires Candid() && i <= j
      ensures Lost(i, j) <==> !Woken(i, j)
      ensures Woken(i, j) ==> exists k: nat :: i <= k < j && wakes(k) && Lost(i, k)
      decreases j
    {
      if i < j {
        FirstWake(i, j - 1);
      }
    }

    /** Between posting `token` after `last` and its answer: `spent` steps of the `due` ones have been run. */
    ghost predicate Answering(token: Word, last: Word, before: Log, spent: nat, due: nat)
      reads this
    {
      && core.Serving? && Load(lmu, CMD) == token != last && !Done(token)
      && Tracks(core.loop, Decode(token, core.scratch), last) && Logged(core.loop, token, before)
      && (if Settled(core.loop, Decode(token, core.scratch)) then Decode(token, core.scratch).one ==> spent >= due
          else Rank(core.loop, Decode(token, core.scratch), last) + spent == due)
    }

    /** A pause of the given length while a token is being answered. */
    method Pass(us: nat, ghost token: Word, ghost last: Word, ghost before: Log, ghost spent: nat, ghost due: nat)
      requires Answering(token, last, before, spent, due)
      modifies this`core, this`slot
      ensures slot == old(slot) + 1 && core.Serving? && core.scratch == old(core.scratch)
      ensures Answering(token, last, before, spent + pace(old(slot), us), due)
    {
      RunTracks(core, lmu, token, last, before, pace(slot, us));
      Elapse(us);
    }

    /** A 1 has halted the core exactly if all the steps it needs have been run, and a 0 never halts it. */
    lemma HaltsWhenDue(token: Word, last: Word, before: Log, spent: nat, due: nat)
      requires Answering(token, last, before, spent, due)
      ensures core.loop.halted <==> Decode(token, core.scratch).one && spent >= due
      ensures core.loop.halted ==> Stopped()
      ensures spent >= due && !Decode(token, core.scratch).one ==> Idle()
    {
    }

    /** One pause and one look at the core, the `t`-th after `first`. */
    method Look(ghost token: Word, ghost last: Word, ghost before: Log, ghost first: nat, ghost t: nat, ghost due: nat)
      returns (state: int)
      requires slot == first + 2 * t && Answering(token, last, before, Window(pace, first, t), due)
      modifies this`core, this`slot
      ensures slot == first + 2 * (t + 1) && core.Serving? && core.scratch == old(core.scratch)
      ensures Answering(token, last, before, Window(pace, first, t + 1), due)
      ensures state == 2 <==> Decode(token, core.scratch).one && Shows(first, t + 1, due)
    {
      Pass(1000, token, last, before, Window(pace, first, t), due);
      var fault := blind(slot);
      Pass(0, token, last, before, Window(pace, first, t) + pace(first + 2 * t, 1000), due);
      HaltsWhenDue(token, last, before, Window(pace, first, t + 1), due);
      state := if !fault && core.loop.halted then 2 else 0;
    }

    /** Twenty looks at most for a halt, on a core that was waiting on `last` when `token` was posted.  A halt is seen
        exactly if the bit is 1 and a look that does not fault comes after as many steps as the core needs from where
        it is, which are never more than N. */
    method AwaitHalt(ghost token: Word, ghost last: Word) returns (halted: bool)
      requires core.Serving? && Waiting(core.loop, last)
      requires Load(lmu, CMD) == token != last && !Done(token)
      modifies this`core, this`slot
      ensures core.Serving? && core.scratch == old(core.scratch)
      ensures halted <==> Decode(token, core.scratch).one
                          && Shown(old(slot), POLLS, Rank(old(core.loop), Decode(token, core.scratch), last))
      ensures Tracks(core.loop, Decode(token, core.scratch), last) && Logged(core.loop, token, old(core.loop.log))
      ensures halted ==> Stopped()
      ensures InTime(old(slot)) ==> halted == Decode(token, core.scratch).one && (!halted ==> Idle())
    {
      ghost var first, before, q := slot, core.loop.log, Decode(token, core.scratch);
      ghost var due := Rank(core.loop, q, last);
      for t := 0 to POLLS
        invariant core.Serving? && core.scratch == old(core.scratch)
        invariant slot == first + 2 * t && Answering(token, last, before, Window(pace, first, t), due)
        invariant !(q.one && Shown(first, t, due))
      {
        var state := Look(token, last, before, first, t, due);
        ShownNext(first, t, due);
        if state == 2 {
          HaltsWhenDue(token, last, before, Window(pace, first, t + 1), due);
          return true;
        }
      }
      halted := false;
      if InTime(first) {
        ShownInTime(first, due);
        HaltsWhenDue(token, last, before, Window(pace, first, POLLS), due);
      }
    }

    lemma ShownNext(i: nat, n: nat, due: nat)
      ensures Shown(i, n + 1, due) <==> Shown(i, n, due) || Shows(i, n + 1, due)
    {
    }

    /** A window in time shows every halt. */
    lemma ShownInTime(i: nat, due: nat)
      requires InTime(i) && due <= N
      ensures Shown(i, POLLS, due) && Window(pace, i, POLLS) >= due
    {
      var t: nat :| 1 <= t <= POLLS && Shows(i, t, N);
      assert Shows(i, t, due);
      WindowGrows(pace, i, t, POLLS);
    }

    /** Post a token to a polling core: every schedule in time gives back the bit it asks for. */
    method AskBit(token: Word) returns (halted: bool)
      requires Idle() && Timely() && token != Load(lmu, CMD) && !Done(token)
      modifies this`core, this`slot, this`lmu
      ensures lmu == old(lmu)[CMD := token] && core.Serving? && core.scratch == old(core.scratch)
      ensures halted == Decode(token, core.scratch).one
      ensures if halted then Stopped() else Idle()
      ensures core.loop.log == Log(old(core.loop.log.taken) + [token],
                                   if halted then old(core.loop.log.stops) + [token] else old(core.loop.log.stops))
    {
      ghost var last := Load(lmu, CMD);
      RunRests(pace(slot, 0));
      Write(CMD, token);
      halted := AwaitHalt(token, last);
    }

    /** One bit of one word: post its token, see whether the core halts, and if so resume it. */
    method ReadBit(word: nat, bit: nat, nonce: nat) returns (rc: int, one: bool)
      requires Idle() && Timely() && bit < 32 && Token(nonce, word, bit) != Load(lmu, CMD)
      modifies this
      ensures core.Serving? && core.scratch == old(core.scratch)
      ensures rc == if one && Lost(old(pokes), old(pokes) + RESUMES) then -1 else 0
      ensures if one && !Restarts(old(pokes)) then Stopped() else rc == 0 && Idle()
      ensures Load(lmu, CMD) == Token(nonce, word, bit)
      ensures one == (BitOf(ResultWord(core.scratch, word), bit) == 1)
      ensures core.loop.log.taken == old(core.loop.log.taken) + [Token(nonce, word, bit)]
      ensures core.loop.log.stops == old(core.loop.log.stops) + (if one then [Token(nonce, word, bit)] else [])
    {
      TokenFields(nonce, word, bit, core.scratch);
      one := AskBit(Token(nonce, word, bit));
      rc := 0;
      if one {
        var ok := Resume();
        rc := if ok then 0 else -1;
      }
    }

    /** The first `bits` bits of `word` have been collected in `out`, and nothing else has happened. */
    ghost predicate Collected(before: Log, scratch: Memory, nonce: nat, word: nat, bits: nat, out: nat)
      requires bits <= 32
      reads this
    {
      && Idle() && core.scratch == scratch
      && core.loop.log == WordLog(before, nonce, word, bits, ResultWord(scratch, word))
      && out == Low(ResultWord(scratch, word), bits)
      && (bits > 0 ==> Load(lmu, CMD) % 256 == bits - 1)
    }

    /** One round of the bit loop. */
    method CollectOne(ghost before: Log, ghost start: nat, word: nat, bit: nat, nonce: nat, v: Word)
      returns (rc: int, out: Word)
      requires bit < 32 && nonce == start + bit && Timely() && Candid() && Token(nonce, word, bit) != Load(lmu, CMD)
      requires Collected(before, core.scratch, start, word, bit, v)
      modifies this
      ensures core.Serving? && core.scratch == old(core.scratch)
      ensures if rc == 0 then Collected(before, core.scratch, start, word, bit + 1, out)
              else rc == -1 && Stopped() && Stays(core.loop.log, before, start, word, bit, core.scratch)
      ensures Load(lmu, CMD) % 256 == bit
      ensures Wakeful() ==> rc == 0
    {
      var one;
      CandidResumes(pokes);
      assert Wakeful() ==> WokenFrom(pokes);
      rc, one := ReadBit(word, bit, nonce);
      TokenLow(nonce, word, bit);
      CollectBit(v, ResultWord(core.scratch, word), bit, one);
      WordLogNext(before, start, word, bit, ResultWord(core.scratch, word), one, core.loop.log);
      out := if one then Or(v, Pow2(bit)) else v;
    }

    /** Clock one result word out of the core, bit by bit. */
    method ReadWord(word: nat, nonce: nat) returns (rc: int, out: Word, next: nat, ghost last: nat)
      requires Idle() && Timely() && Candid() && Token(nonce, word, 0) != Load(lmu, CMD)
      modifies this
      ensures core.Serving? && core.scratch == old(core.scratch)
      ensures if rc == 0 then Idle() && Load(lmu, CMD) % 256 == 31 else rc == -1 && Stopped() && !Done(Load(lmu, CMD))
      ensures Wakeful() ==> rc == 0
      ensures rc == 0 ==> out == ResultWord(core.scratch, word) && next == nonce + 32
      ensures rc == 0 ==> core.loop.log == WordLog(old(core.loop.log), nonce, word, 32, out)
      ensures rc == -1 ==> Stays(core.loop.log, old(core.loop.log), nonce, word, last, core.scratch)
    {
      ghost var before := core.loop.log;
      out, next, last := 0, nonce, 0;
      WordLogStart(before, nonce, word, ResultWord(core.scratch, word));
      for bit := 0 to 32
        invariant Collected(before, core.scratch, nonce, word, bit, out)
        invariant core.scratch == old(core.scratch) && next == nonce + bit
        invariant bit == 0 ==> Token(nonce, word, 0) != Load(lmu, CMD)
      {
        TokenLow(next, word, bit);
        last := bit;
        rc, out := CollectOne(before, nonce, word, bit, next, out);
        next := next + 1;
        if rc != 0 {
          return;
        }
      }
      rc := 0;
      WordBits();
      LowAll(ResultWord(core.scratch, word), 32);
    }

    /** The first `words` words have been streamed, and nothing else has happened. */
    ghost predicate Streamed(scratch: Memory, words: nat, nonce: nat)
      reads this
    {
      && Idle() && core.scratch == scratch && nonce == 1 + 32 * words
      && core.loop.log == CallLog(words, scratch)
      && (if words == 0 then Load(lmu, CMD) == 0 else Load(lmu, CMD) % 256 == 31)
    }

    /** One round of the word loop. */
    method StreamOne(word: nat, nonce: nat) returns (rc: int, out: Word, next: nat, ghost last: nat)
      requires Streamed(core.scratch, word, nonce) && Timely() && Candid()
      modifies this
      ensures core.Serving? && core.scratch == old(core.scratch)
      ensures if rc == 0 then Streamed(core.scratch, word + 1, next) else rc == -1 && Stopped() && !Done(Load(lmu, CMD))
      ensures Wakeful() ==> rc == 0
      ensures rc == 0 ==> out == ResultWord(core.scratch, word)
      ensures rc == -1 ==> BreaksOff(core.loop.log, core.scratch, word, last)
    {
      if word == 0 {
        FirstToken();
      } else {
        TokenLow(nonce, word, 0);
      }
      rc, out, next, last := ReadWord(word, nonce);
    }

    /** Post the done token: 0xFF for both the word and the bit. */
    method PostDone(nonce: nat)
      requires (Idle() || Stopped()) && !Done(Load(lmu, CMD))
      modifies this`core, this`slot, this`lmu
      ensures core.Serving? && core.scratch == old(core.scratch) && core.loop.log == old(core.loop.log)
      ensures Done(Load(lmu, CMD)) && lmu == old(lmu)[CMD := Token(nonce, 0xFF, 0xFF)]
      ensures if old(Idle()) then Finishes() else core == old(core)
    {
      ghost var last := Load(lmu, CMD);
      RunRests(pace(slot, 0));
      TokenLow(nonce, 0xFF, 0xFF);
      Write(CMD, Token(nonce, 0xFF, 0xFF));
      if Waiting(core.loop, last) {
        Finish(last);
      }
    }

    /** The word loop.  `words` of them arrive; if that is not all, a resume has failed after bit `last` of the next. */
    method StreamWords(outputs: array<Word>, nout: nat)
      returns (rc: int, nonce: nat, ghost words: nat, ghost last: nat)
      requires Streamed(core.scratch, 0, 1) && Timely() && Candid() && nout <= outputs.Length
      modifies this, outputs
      ensures core.Serving? && core.scratch == old(core.scratch)
      ensures if rc == 0 then Streamed(core.scratch, nout, nonce) else rc == -1 && Stopped() && !Done(Load(lmu, CMD))
      ensures Wakeful() ==> rc == 0
      ensures words <= nout && Delivered(outputs[..words], core.scratch) && outputs[words..] == old(outputs[words..])
      ensures if rc == 0 then words == nout else words < nout && BreaksOff(core.loop.log, core.scratch, words, last)
    {
      ghost var scratch := core.scratch;
      rc, nonce, words, last := 0, 1, 0, 0;
      for word := 0 to nout
        invariant Streamed(scratch, word, nonce) && rc == 0 && words == word
        invariant Delivered(outputs[..word], scratch)
        invariant outputs[word..] == old(outputs[word..])
      {
        var out;
        rc, out, nonce, last := StreamOne(word, nonce);
        if rc != 0 {
          return;
        }
        DeliveredNext(outputs[..word], out, scratch);
        StoreNext(outputs[..], word, out);
        outputs[word] := out;
        words := word + 1;
      }
    }

    /** The word loop of `ppu_call`: whatever `compute` left in RESULT arrives bit for bit, each token is taken once and
        stops the core exactly when its bit is 1.  If a resume fails the core stays halted by the last token posted. */
    method StreamResults(outputs: array<Word>, nout: nat) returns (rc: int, ghost words: nat, ghost last: nat)
      requires Idle() && Load(lmu, CMD) == 0 && core.loop.log == Log([], []) && Timely() && Candid()
      requires nout <= outputs.Length
      modifies this, outputs
      ensures rc == 0 || rc == -1
      ensures Wakeful() ==> rc == 0
      ensures core.Serving? && core.scratch == old(core.scratch) && Done(Load(lmu, CMD))
      ensures words <= nout && Delivered(outputs[..words], core.scratch) && outputs[words..] == old(outputs[words..])
      ensures rc == 0 ==> words == nout && core.loop.log == CallLog(nout, core.scratch) && Finishes()
      ensures rc == 0 ==> Load(lmu, CMD) == Token(1 + 32 * nout, 0xFF, 0xFF)
      ensures rc == -1 ==>
                words < nout && BreaksOff(core.loop.log, core.scratch, words, last) && core.loop.halted
    {
      var nonce;
      rc, nonce, words, last := StreamWords(outputs, nout);
      PostDone(nonce);
    }

    /** The core reaches `.Ldone` within nine steps and stays there. */
    ghost predicate Finishes()
      reads this
    {
      forall n: nat :: n >= 9 ==> Run(core, lmu, n).Serving? && Retired(Run(core, lmu, n).loop)
    }

    lemma Finish(last: Word)
      requires core.Serving? && Waiting(core.loop, last) && Done(Load(lmu, CMD)) && Load(lmu, CMD) != last
      ensures Finishes()
    {
      forall n: nat | n >= 9
        ensures Run(core, lmu, n).Serving? && Retired(Run(core, lmu, n).loop)
      {
        RunRetires(core, lmu, Load(lmu, CMD), last, n);
      }
    }

    /** Store consecutive words. */
    method WriteWords(base: int, ws: seq<Word>)
      modifies this`core, this`slot, this`lmu
      ensures lmu == WithWords(old(lmu), base, ws)
    {
      for i := 0 to |ws|
        invariant lmu == WithWords(old(lmu), base, ws[..i])
      {
        Write(base + 4 * i, ws[i]);
        assert ws[..i + 1][..i] == ws[..i];
      }
      assert ws[..|ws|] == ws;
    }

    /** The part of the image that gets through. */
    function Written(image: seq<Word>): seq<Word> {
      if |image| <= reach then image else image[..reach]
    }

    /** Load the image and start the core at it. */
    method LoadRun(image: seq<Word>) returns (rc: int)
      modifies this
      ensures rc == (if |image| <= reach then 0 else -1)
      ensures lmu == WithWords(old(lmu), CODE_BASE, Written(image))
      ensures rc == 0 ==> Booted(core)
    {
      WriteWords(CODE_BASE, Written(image));
      if |image| > reach {
        return -1;
      }
      core := Computing(Kernel(CallCompute, false, 0, 0, 0, 0, 0), core.scratch);
      return 0;
    }

    /** Hand over the inputs, load and start the image, and leave the core time to compute. */
    method Start(image: seq<Word>, inputs: seq<Word>) returns (rc: int)
      requires Quiet(image) && Reachable(Loaded(lmu, image, inputs))
      requires forall i: nat :: pace(i, 20000) >= StartupSteps(Count(Loaded(lmu, image, inputs)))
      modifies this
      ensures rc == (if |image| <= reach then 0 else -1)
      ensures rc == 0 ==> Idle() && Load(lmu, CMD) == 0 && core.loop.log == Log([], [])
      ensures rc == 0 ==> core.Serving? && ResultWord(core.scratch, 0) == SumFound(Loaded(old(lmu), image, inputs))
    {
      WriteWords(INPUTS, inputs);
      Write(CMD, 0);
      rc := LoadRun(image);
      if rc == 0 {
        LoadedOperands(old(lmu), image, inputs);
        SumIsFound(core.scratch, lmu);
        KernelComputes(core, lmu, pace(slot, 20000));
        Elapse(20000);
      }
    }

    /** `ppu_call` on the checksum image: the sum, modulo 2^32, of as many words behind the count as the count says,
        as the core finds them once the image is loaded; that is for every schedule in time, every count and buffer,
        and every image that leaves the command word 0. */
    method PpuCall(image: seq<Word>, inputs: seq<Word>, outputs: array<Word>, nout: nat)
      returns (rc: int, ghost words: nat, ghost last: nat)
      requires Quiet(image) && Reachable(Loaded(lmu, image, inputs))
      requires nout <= outputs.Length
      requires Timely() && Candid()
      requires forall i: nat :: pace(i, 20000) >= StartupSteps(Count(Loaded(lmu, image, inputs)))
      modifies this, outputs
      ensures rc == 0 || rc == -1
      ensures Wakeful() && |image| <= reach ==> rc == 0
      ensures rc == 0 && nout > 0 ==> outputs[0] == SumFound(Loaded(old(lmu), image, inputs))
      ensures rc == 0 && nout > 0 && Counted(Operands(image, inputs)) ==>
                outputs[0] == CountedSum(Operands(image, inputs))
      ensures words <= nout && outputs[words..] == old(outputs[words..])
      ensures |image| > reach ==> rc == -1 && words == 0
      ensures |image| <= reach ==> core.Serving? && Delivered(outputs[..words], core.scratch)
      ensures rc == 0 ==> words == nout && core.loop.log == CallLog(nout, core.scratch) && Finishes()
      ensures |image| <= reach && rc == -1 ==>
                words < nout && BreaksOff(core.loop.log, core.scratch, words, last) && core.loop.halted
    {
      ghost var before := lmu;
      words, last := 0, 0;
      rc := Start(image, inputs);
      if rc == 0 {
        rc, words, last := StreamResults(outputs, nout);
        if Counted(Operands(image, inputs)) {
          FoundIsCounted(before, image, inputs);
        }
      }
    }
  }

  // ----- Seventeen steps are needed --------------------------------------------

  /** All the steps of a poll window in its first pause, one too few. */
  function Burst(i: nat, us: nat): nat {
    if i == 0 then N - 1 else 0
  }

  /** A core caught just after a stale load of the command word. */
  function Stale(): Loop {
    Loop(PollCmp, false, false, 0, 0, 0, 0, 0, 0, Log([], []))
  }

  lemma {:induction false} BurstWindow(t: nat)
    requires t >= 1
    ensures Window(Burst, 0, t) == N - 1
  {
    if t > 1 {
      BurstWindow(t - 1);
    } else {
      assert Window(Burst, 0, 0) == 0;
    }
  }

  lemma BurstFallsShort(link: Link)
    requires link.pace == Burst && !link.blind(1)
    ensures link.Shown(0, POLLS, N - 1) && !link.Shown(0, POLLS, N)
  {
    BurstWindow(1);
    assert link.Shows(0, 1, N - 1);
    forall t: nat | 1 <= t <= POLLS
      ensures !link.Shows(0, t, N)
    {
      BurstWindow(t);
    }
  }

  /** Sixteen steps in a poll window are too few: on this schedule, with every read getting through,
      a 1 is read as 0. */
  method SixteenStepsMissABit() returns (link: Link, halted: bool)
    ensures link.Shown(0, POLLS, N - 1) && forall i :: !link.blind(i)
    ensures link.core.Serving? && Decode(Token(1, 0, 0), link.core.scratch).one
    ensures !halted
  {
    var core := Serving(Stale(), map[RESULT := 1]);
    link := new Link(map[CMD := 65536], core, Burst, k => true, k => false, i => false, 0);
    FirstToken();
    OneIsAsked();
    BurstFallsShort(link);
    halted := link.AwaitHalt(65536, 0);
  }

  lemma OneIsAsked()
    ensures ResultWord(map[RESULT := 1], 0) == 1 && Decode(65536, map[RESULT := 1]).one
  {
  }

  /** Every delivered word is the core's result word, bit for bit. */
  predicate Delivered(words: seq<Word>, scratch: Memory) {
    forall w: nat :: w < |words| ==> words[w] == ResultWord(scratch, w)
  }

  lemma DeliveredNext(words: seq<Word>, out: Word, scratch: Memory)
    requires Delivered(words, scratch) && out == ResultWord(scratch, |words|)
    ensures Delivered(words + [out], scratch)
  {
  }

  lemma StoreNext(ws: seq<Word>, k: nat, w: Word)
    requires k < |ws|
    ensures ws[k := w][..k + 1] == ws[..k] + [w] && ws[k := w][k + 1..] == ws[k + 1..] == ws[k..][1..]
  {
  }

  /** `m` after storing `ws` from `base` on. */
  function WithWords(m: Memory, base: int, ws: seq<Word>): Memory {
    if ws == [] then m
    else WithWords(m, base, ws[..|ws| - 1])[base + 4 * (|ws| - 1) := ws[|ws| - 1]]
  }

  lemma {:induction false} WithWordsLoad(m: Memory, base: int, ws: seq<Word>)
    ensures forall a :: (a < base || a >= base + 4 * |ws|) ==> Load(WithWords(m, base, ws), a) == Load(m, a)
    ensures forall i :: 0 <= i < |ws| ==> Load(WithWords(m, base, ws), base + 4 * i) == ws[i]
  {
    if ws != [] {
      WithWordsLoad(m, base, ws[..|ws| - 1]);
    }
  }

  lemma {:induction false} SumIsTotal(scratch: Memory, lmu: Memory, a: Word, ws: seq<Word>)
    requires a >= INPUTS && a + 4 * |ws| <= WORDS
    requires forall i :: 0 <= i < |ws| ==> Load(lmu, a + 4 * i) == ws[i]
    ensures SumFrom(scratch, lmu, a, |ws|) == Total(ws) % WORDS
    decreases |ws|
  {
    if |ws| > 0 {
      assert Load(lmu, a + 4 * 0) == ws[0];
      if |ws| > 1 {
        forall i | 0 <= i < |ws[1..]|
          ensures Load(lmu, a + 4 + 4 * i) == ws[1..][i]
        {
          assert Load(lmu, a + 4 * (i + 1)) == ws[i + 1];
        }
        SumIsTotal(scratch, lmu, a + 4, ws[1..]);
        TotalIsNat(ws[1..]);
        AddWord(ws[0], Total(ws[1..]));
      }
    }
  }

  // ----- What the core finds ---------------------------------------------------

  /** The image leaves the command word 0. */
  predicate Quiet(image: seq<Word>) {
    |image| <= CMD_INDEX || image[CMD_INDEX] == 0
  }

  /** The words from the first operand on, as far as the inputs or the image reach: the image is loaded last. */
  function Operands(image: seq<Word>, inputs: seq<Word>): (ops: seq<Word>)
    ensures |ops| == if INPUT_INDEX + |inputs| < |image| then |image| - INPUT_INDEX else |inputs|
  {
    seq(if INPUT_INDEX + |inputs| < |image| then |image| - INPUT_INDEX else |inputs|,
        i requires 0 <= i && (INPUT_INDEX + i < |image| || i < |inputs|) =>
          if INPUT_INDEX + i < |image| then image[INPUT_INDEX + i] else inputs[i])
  }

  /** The core finds the inputs as they were handed over exactly if the image words on them are the same. */
  lemma OperandsAreInputsIff(image: seq<Word>, inputs: seq<Word>)
    ensures Operands(image, inputs) == inputs
       <==> |image| <= INPUT_INDEX + |inputs|
            && forall i :: INPUT_INDEX <= i < |image| ==> image[i] == inputs[i - INPUT_INDEX]
  {
    if Operands(image, inputs) == inputs {
      forall i | INPUT_INDEX <= i < |image|
        ensures image[i] == inputs[i - INPUT_INDEX]
      {
        assert Operands(image, inputs)[i - INPUT_INDEX] == image[i];
      }
    }
  }

  /** Memory after handing over the inputs, clearing the command word and loading the image. */
  function Loaded(m: Memory, image: seq<Word>, inputs: seq<Word>): Memory {
    WithWords(WithWords(m, INPUTS, inputs)[CMD := 0], CODE_BASE, image)
  }

  lemma LoadedOperands(m: Memory, image: seq<Word>, inputs: seq<Word>)
    ensures Load(Loaded(m, image, inputs), CMD) == if |image| <= CMD_INDEX then 0 else image[CMD_INDEX]
    ensures forall i :: 0 <= i < |Operands(image, inputs)| ==>
              Load(Loaded(m, image, inputs), INPUTS + 4 * i) == Operands(image, inputs)[i]
  {
    var handed := WithWords(m, INPUTS, inputs)[CMD := 0];
    WithWordsLoad(m, INPUTS, inputs);
    WithWordsLoad(handed, CODE_BASE, image);
    assert CMD == CODE_BASE + 4 * CMD_INDEX;
    forall i | 0 <= i < |Operands(image, inputs)|
      ensures Load(Loaded(m, image, inputs), INPUTS + 4 * i) == Operands(image, inputs)[i]
    {
      assert INPUTS + 4 * i == CODE_BASE + 4 * (INPUT_INDEX + i);
    }
  }

  /** The first operand. */
  function Count(m: Memory): Word {
    Load(m, INPUTS)
  }

  /** The counted words do not run past the end of the address space. */
  predicate Reachable(m: Memory) {
    INPUTS + 4 * (Count(m) + 1) <= WORDS
  }

  /** As many words behind the count as it says. */
  function Found(m: Memory): seq<Word> {
    seq(Count(m), (i: nat) => Load(m, INPUTS + 4 + 4 * i))
  }

  function SumFound(m: Memory): Word {
    Total(Found(m)) % WORDS
  }

  lemma SumIsFound(scratch: Memory, lmu: Memory)
    requires Reachable(lmu)
    ensures SumFrom(scratch, lmu, INPUTS + 4, Count(lmu)) == SumFound(lmu)
  {
    var ws := Found(lmu);
    if ws != [] {
      forall i | 0 <= i < |ws|
        ensures Load(lmu, INPUTS + 4 + 4 * i) == ws[i]
      {
      }
      SumIsTotal(scratch, lmu, INPUTS + 4, ws);
    }
  }

  /** A count and at least as many words. */
  predicate Counted(ops: seq<Word>) {
    |ops| > 0 && ops[0] < |ops|
  }

  function CountedSum(ops: seq<Word>): Word
    requires Counted(ops)
  {
    Total(ops[1..ops[0] + 1]) % WORDS
  }

  /** When as many words are handed over as are counted, they are what the core finds. */
  lemma FoundIsCounted(m: Memory, image: seq<Word>, inputs: seq<Word>)
    requires Counted(Operands(image, inputs))
    ensures SumFound(Loaded(m, image, inputs)) == CountedSum(Operands(image, inputs))
  {
    var lmu, ops := Loaded(m, image, inputs), Operands(image, inputs);
    LoadedOperands(m, image, inputs);
    assert Load(lmu, INPUTS + 4 * 0) == ops[0];
    forall i: nat | i < ops[0]
      ensures Found(lmu)[i] == ops[1..ops[0] + 1][i]
    {
      assert Load(lmu, INPUTS + 4 * (i + 1)) == ops[i + 1];
    }
    assert Found(lmu) == ops[1..ops[0] + 1];
  }

  /** A core that waits for its first token takes nothing before the host posts one, however long that is, exactly if
      the image loaded over the command word leaves it 0. */
  lemma SilentIff(m: Memory, image: seq<Word>, inputs: seq<Word>, core: Core)
    requires core.Serving? && Waiting(core.loop, 0)
    ensures Silent(core, Loaded(m, image, inputs)) <==> Quiet(image)
  {
    var lmu := Loaded(m, image, inputs);
    LoadedOperands(m, image, inputs);
    if Load(lmu, CMD) == 0 {
      forall n: nat
        ensures SilentFor(core, lmu, n)
      {
        RunWaits(core, lmu, 0, n);
      }
    } else {
      ForgedTokenIsTaken(core, lmu, Load(lmu, CMD));
      assert !SilentFor(core, lmu, N);
    }
  }

  ghost predicate Silent(core: Core, lmu: Memory)
    requires core.Serving?
  {
    forall n: nat :: SilentFor(core, lmu, n)
  }

  /** In `n` steps the core takes no token and halts for none. */
  predicate SilentFor(core: Core, lmu: Memory, n: nat)
    requires core.Serving?
  {
    Run(core, lmu, n).Serving? && Run(core, lmu, n).loop.log == core.loop.log
  }

  /** Any token the command word holds, the done token included, is taken within N steps. */
  lemma ForgedTokenIsTaken(core: Core, lmu: Memory, token: Word)
    requires core.Serving? && Waiting(core.loop, 0) && Load(lmu, CMD) == token != 0
    ensures Run(core, lmu, N).Serving? && Run(core, lmu, N).loop.log.taken == core.loop.log.taken + [token]
  {
    if Done(token) {
      RunTakesDone(core, lmu, token, 0, N);
    } else {
      RunTracks(core, lmu, token, 0, core.loop.log, N);
    }
  }

  lemma FirstToken()
    ensures Token(1, 0, 0) == 65536
  {
    assert Or(1, 0) == 1;
  }

  lemma {:induction false} RunHalted(core: Core, lmu: Memory, n: nat)
    requires core.Serving? && core.loop.halted
    ensures Run(core, lmu, n) == core
    decreases n
  {
    if n > 0 {
      RunHalted(core, lmu, n - 1);
    }
  }
}
