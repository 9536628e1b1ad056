/**
 * The two-core mailbox of smp_demo.c and smp_c_demo.c.  CPU0 posts a request and
 * bumps REQ_SEQ, CPU1 answers and copies the sequence number, CPU0 polls for it and
 * may give up.  Every access to one of the four shared words is one atomic step.
 */
module Mailbox {
  import opened Words

  /** What the two demos differ in: the answer function, the requests, and the bounds. */
  datatype Demo = Demo(f: Word -> Word, request: nat -> Word, rounds: nat, spins: nat)

  /** CPU1: read REQ_SEQ, and for a new number read REQ, write RESP, write RESP_SEQ. */
  datatype Worker = ReadSeq | ReadReq(s: nat) | WriteResp(s: nat, v: Word) | WriteSeq(s: nat)

  /** CPU0: write REQ, write REQ_SEQ, poll RESP_SEQ, read RESP. */
  datatype Master = PostReq | PostSeq | Polling(t: nat) | ReadResp | Finished

  /** `lost` counts abandoned rounds and `age` the worker's steps since REQ_SEQ was last bumped. */
  datatype State = State(
    req: Word, reqSeq: nat, resp: Word, respSeq: nat,
    worker: Worker, last: nat,
    master: Master, round: nat, ok: nat,
    lost: nat, age: nat)

  function Init(): State {
    State(0, 0, 0, 0, ReadSeq, 0, PostReq, 1, 0, 0, 0)
  }

  function WorkerStep(d: Demo, s: State): State {
    var s := s.(age := s.age + 1);
    match s.worker
    case ReadSeq => if s.reqSeq != s.last then s.(worker := ReadReq(s.reqSeq)) else s
    case ReadReq(n) => s.(worker := WriteResp(n, d.f(s.req)))
    case WriteResp(n, v) => s.(resp := v, worker := WriteSeq(n))
    case WriteSeq(n) => s.(respSeq := n, last := n, worker := ReadSeq)
  }

  /** Go on to the next round, or finish after the last. */
  function NextRound(d: Demo, s: State): State {
    s.(master := if s.round < d.rounds then PostReq else Finished, round := s.round + 1)
  }

  function MasterStep(d: Demo, s: State): State {
    match s.master
    case PostReq =>
      if d.rounds == 0 then s.(master := Finished) else s.(req := d.request(s.round), master := PostSeq)
    case PostSeq => s.(reqSeq := s.round, age := 0, master := Polling(0))
    case Polling(t) =>
      if t < d.spins && s.respSeq == s.round then s.(master := ReadResp)
      else if t + 1 < d.spins then s.(master := Polling(t + 1))
      else NextRound(d, s.(lost := s.lost + 1))
    case ReadResp =>
      NextRound(d, if s.resp == d.f(d.request(s.round)) then s.(ok := s.ok + 1) else s)
    case Finished => s
  }

  predicate Next(d: Demo, s: State, s': State) {
    s' == WorkerStep(d, s) || s' == MasterStep(d, s)
  }

  predicate StepsAt(d: Demo, run: seq<State>, i: nat) {
    i + 1 < |run| ==> Next(d, run[i], run[i + 1])
  }

  /** A run interleaves the two cores arbitrarily. */
  ghost predicate IsRun(d: Demo, run: seq<State>) {
    && |run| > 0 && run[0] == Init()
    && forall i: nat :: StepsAt(d, run, i)
  }

  // ----- The invariant --------------------------------------------------------

  predicate Waits(s: State) {
    s.master.Polling? || s.master.ReadResp?
  }

  /** The rounds behind CPU0. */
  function Completed(s: State): int {
    s.round - 1
  }

  predicate MasterInv(d: Demo, s: State) {
    && (if s.master.Finished? then s.round == d.rounds + 1
        else 1 <= s.round <= d.rounds || (d.rounds == 0 && s.round == 1 && s.master.PostReq?))
    && s.reqSeq == (if Waits(s) then s.round else s.round - 1)
    && (Waits(s) || s.master.PostSeq? ==> s.req == d.request(s.round))
    && s.ok + s.lost == Completed(s)
  }

  predicate WorkerInv(s: State) {
    && s.respSeq == s.last <= s.reqSeq
    && (s.worker.ReadSeq? || s.last < s.worker.s <= s.reqSeq)
  }

  /** What the worker holds or has published for the current round is the answer to it;
      answers to abandoned rounds carry an older number. */
  predicate AnswerInv(d: Demo, s: State) {
    && (Waits(s) ==>
          var answer := d.f(d.request(s.round));
          && (s.worker.WriteResp? && s.worker.s == s.round ==> s.worker.v == answer)
          && (s.worker.WriteSeq? && s.worker.s == s.round ==> s.resp == answer)
          && (s.respSeq == s.round ==> s.resp == answer))
    && (s.master.ReadResp? ==> s.respSeq == s.round)
    && ((s.master.PostReq? || s.master.Finished?) && s.lost == 0 && Completed(s) > 0 ==>
          s.respSeq == Completed(s) && s.resp == d.f(d.request(Completed(s))))
  }

  /** Worker steps left until the current round is answered. */
  function Lag(s: State): nat {
    match s.worker
    case ReadSeq => 4
    case ReadReq(n) => if n == s.round then 3 else 7
    case WriteResp(n, _) => if n == s.round then 2 else 6
    case WriteSeq(n) => if n == s.round then 1 else 5
  }

  predicate LagInv(s: State) {
    Waits(s) && s.respSeq != s.round ==> Lag(s) + s.age <= 7
  }

  predicate Inv(d: Demo, s: State) {
    MasterInv(d, s) && WorkerInv(s) && AnswerInv(d, s) && LagInv(s)
  }

  lemma WorkerKeeps(d: Demo, s: State)
    requires Inv(d, s)
    ensures Inv(d, WorkerStep(d, s))
  {
  }

  lemma MasterKeeps(d: Demo, s: State)
    requires Inv(d, s)
    ensures Inv(d, MasterStep(d, s))
  {
  }

  lemma {:induction false} RunKeeps(d: Demo, run: seq<State>, i: nat)
    requires IsRun(d, run) && i < |run|
    ensures Inv(d, run[i])
  {
    if i > 0 {
      RunKeeps(d, run, i - 1);
      WorkerKeeps(d, run[i - 1]);
      MasterKeeps(d, run[i - 1]);
      assert StepsAt(d, run, i - 1);
    }
  }

  // ----- Safety and progress ----------------------------------------------------

  /** Over every interleaving, any number of rounds and any pattern of timeouts: once CPU0 has read
      RESP_SEQ == round, RESP is the answer to this round's request, and `ok` counts exactly the
      rounds that did not time out. */
  lemma AnswersAreNeverStale(d: Demo, run: seq<State>, i: nat)
    requires IsRun(d, run) && i < |run|
    ensures run[i].master.ReadResp? ==> run[i].resp == d.f(d.request(run[i].round))
    ensures run[i].ok + run[i].lost == Completed(run[i])
    ensures run[i].master.Finished? ==> run[i].ok == d.rounds - run[i].lost
  {
    RunKeeps(d, run, i);
  }

  /** CPU0 gives up in this step. */
  predicate GivesUp(d: Demo, s: State) {
    s.master.Polling? && MasterStep(d, s).lost == s.lost + 1
  }

  /** In any run, whatever rounds were lost before, seven worker steps are enough to answer a round. */
  lemma SevenStepsAnswer(d: Demo, run: seq<State>, i: nat)
    requires IsRun(d, run) && i < |run| && Waits(run[i]) && run[i].age >= 7
    ensures run[i].respSeq == run[i].round && run[i].resp == d.f(d.request(run[i].round))
    ensures run[i].master.Polling? && run[i].master.t < d.spins ==> !GivesUp(d, run[i])
  {
    RunKeeps(d, run, i);
  }

  /** CPU0 never gives up a round before the worker has had `k` steps in it. */
  ghost predicate Prompt(run: seq<State>, k: nat) {
    forall i: nat :: WaitsAt(run, k, i)
  }

  predicate WaitsAt(run: seq<State>, k: nat, i: nat) {
    i + 1 < |run| ==> run[i + 1].lost > run[i].lost ==> run[i].age >= k
  }

  /** While no round has been lost the worker is never behind: four steps answer a round. */
  predicate Level(s: State) {
    if Waits(s) then s.respSeq != s.round ==> s.respSeq == s.round - 1 && Lag(s) + s.age <= 4
    else s.respSeq == Completed(s)
  }

  lemma StepStaysLevel(d: Demo, s: State)
    requires Inv(d, s) && s.lost == 0 && Level(s) && d.spins > 0 && (s.master.Polling? ==> s.master.t < d.spins)
    ensures Level(WorkerStep(d, s))
    ensures var s' := MasterStep(d, s);
            if GivesUp(d, s) && s.age < 4 then s'.lost == 1
            else s'.lost == 0 && Level(s') && (s'.master.Polling? ==> s'.master.t < d.spins)
  {
  }

  lemma NextStaysLevel(d: Demo, s: State, s': State)
    requires Inv(d, s) && s.lost == 0 && Level(s) && d.spins > 0 && (s.master.Polling? ==> s.master.t < d.spins)
    requires Next(d, s, s') && (s'.lost > s.lost ==> s.age >= 4)
    ensures s'.lost == 0 && Level(s') && (s'.master.Polling? ==> s'.master.t < d.spins)
  {
    StepStaysLevel(d, s);
    if s' == WorkerStep(d, s) {
      assert s'.lost == 0 && s'.master == s.master;
    } else {
      assert GivesUp(d, s) ==> s'.lost > s.lost;
    }
  }

  /** Four steps a round are enough if they are given in every round. */
  lemma {:induction false} PromptNeverLoses(d: Demo, run: seq<State>, i: nat)
    requires IsRun(d, run) && Prompt(run, 4) && d.spins > 0 && i < |run|
    ensures run[i].lost == 0 && Level(run[i])
    ensures run[i].master.Polling? ==> run[i].master.t < d.spins
  {
    if i > 0 {
      var s, s' := run[i - 1], run[i];
      PromptNeverLoses(d, run, i - 1);
      RunKeeps(d, run, i - 1);
      assert StepsAt(d, run, i - 1) && WaitsAt(run, 4, i - 1);
      NextStaysLevel(d, s, s');
    }
  }

  /** If every poll window gives the worker four steps, all rounds pass and the last answer stays in place. */
  lemma PromptRunsPass(d: Demo, run: seq<State>)
    requires IsRun(d, run) && Prompt(run, 4) && d.spins > 0 && d.rounds > 0
    requires run[|run| - 1].master.Finished?
    ensures run[|run| - 1].ok == d.rounds
    ensures run[|run| - 1].respSeq == d.rounds && run[|run| - 1].resp == d.f(d.request(d.rounds))
  {
    PromptNeverLoses(d, run, |run| - 1);
    RunKeeps(d, run, |run| - 1);
  }

  // ----- Both bounds are the least -----------------------------------------------------

  /** A run that ends in `s` and gives the worker `k` steps in every round. */
  ghost predicate Reaches(d: Demo, run: seq<State>, k: nat, s: State) {
    IsRun(d, run) && Prompt(run, k) && run[|run| - 1] == s
  }

  /** One more step of it. */
  lemma Grow(d: Demo, run: seq<State>, k: nat, s: State, worker: bool) returns (more: seq<State>, s': State)
    requires Reaches(d, run, k, s) && (!worker && GivesUp(d, s) ==> s.age >= k)
    ensures s' == if worker then WorkerStep(d, s) else MasterStep(d, s)
    ensures Reaches(d, more, k, s') && |more| == |run| + 1 && more[|run| - 1] == s
  {
    s' := if worker then WorkerStep(d, s) else MasterStep(d, s);
    more := run + [s'];
    forall i: nat
      ensures StepsAt(d, more, i) && WaitsAt(more, k, i)
    {
      assert StepsAt(d, run, i) && WaitsAt(run, k, i);
    }
  }

  /** All polls of a round but the last. */
  lemma PollOut(d: Demo, run: seq<State>, k: nat, s: State) returns (more: seq<State>, s': State)
    requires Reaches(d, run, k, s) && s.master.Polling? && s.master.t < d.spins && s.respSeq != s.round
    ensures s' == s.(master := Polling(d.spins - 1)) && Reaches(d, more, k, s')
    decreases d.spins - s.master.t
  {
    more, s' := run, s;
    if s.master.t + 1 < d.spins {
      more, s' := Grow(d, run, k, s, false);
      more, s' := PollOut(d, more, k, s');
    }
  }

  /** The first round posted, and nothing done about it. */
  lemma Posted(d: Demo, k: nat) returns (run: seq<State>, s: State)
    requires d.rounds > 0
    ensures Reaches(d, run, k, s)
    ensures s == State(d.request(1), 1, 0, 0, ReadSeq, 0, Polling(0), 1, 0, 0, 0)
  {
    run, s := [Init()], Init();
    run, s := Grow(d, run, k, s, false);
    run, s := Grow(d, run, k, s, false);
  }

  /** With three steps a round some run loses the first one. */
  lemma ThreeStepsMayLose(d: Demo) returns (run: seq<State>)
    requires d.rounds > 0 && d.spins > 0
    ensures IsRun(d, run) && Prompt(run, 3) && run[|run| - 1].lost == 1
  {
    var s;
    run, s := Posted(d, 3);
    run, s := PollOut(d, run, 3, s);
    run, s := Grow(d, run, 3, s, true);
    run, s := Grow(d, run, 3, s, true);
    run, s := Grow(d, run, 3, s, true);
    run, s := Grow(d, run, 3, s, false);
  }

  /** The second round posted while the worker is about to answer the first, which is lost. */
  lemma Behind(d: Demo) returns (run: seq<State>, s: State)
    requires d.rounds > 1 && d.spins > 0
    ensures Reaches(d, run, 0, s)
    ensures s == State(d.request(2), 2, 0, 0, ReadReq(1), 0, Polling(0), 2, 0, 1, 0)
  {
    run, s := Posted(d, 0);
    run, s := PollOut(d, run, 0, s);
    run, s := Grow(d, run, 0, s, true);
    run, s := Grow(d, run, 0, s, false);
    run, s := Grow(d, run, 0, s, false);
    run, s := Grow(d, run, 0, s, false);
  }

  /** After a lost round, six steps are too few for the next in some run. */
  lemma SixStepsMayLose(d: Demo) returns (run: seq<State>)
    requires d.rounds > 1 && d.spins > 0
    ensures IsRun(d, run) && |run| > 1 && run[|run| - 2].age == 6
    ensures run[|run| - 2].lost == 1 && run[|run| - 1].lost == 2
  {
    var s;
    run, s := Behind(d);
    run, s := PollOut(d, run, 0, s);
    run, s := Grow(d, run, 0, s, true);
    run, s := Grow(d, run, 0, s, true);
    run, s := Grow(d, run, 0, s, true);
    run, s := Grow(d, run, 0, s, true);
    run, s := Grow(d, run, 0, s, true);
    run, s := Grow(d, run, 0, s, true);
    run, s := Grow(d, run, 0, s, false);
  }

  // ----- The two demos --------------------------------------------------------

  /** smp_demo.c: the worker doubles. */
  function Doubling(): Demo {
    Demo(v => Add32(v, v), (i: nat) => (0x1000 * i + 7) % WORDS, 8, 2_000_000)
  }

  /** The recursive function both cores run, in 32-bit arithmetic. */
  function FibWord(n: nat): Word {
    if n < 2 then n else Add32(FibWord(n - 1), FibWord(n - 2))
  }

  function Fib(n: nat): nat {
    if n < 2 then n else Fib(n - 1) + Fib(n - 2)
  }

  /** smp_c_demo.c: the worker computes Fibonacci numbers. */
  function Fibonacci(): Demo {
    Demo((v: Word) => FibWord(v), (i: nat) => i % WORDS, 16, 8_000_000)
  }

  lemma {:induction false} FibWordIsFib(n: nat)
    ensures FibWord(n) == Fib(n) % WORDS
  {
    if n >= 2 {
      FibWordIsFib(n - 1);
      FibWordIsFib(n - 2);
      AddMod(Fib(n - 1), Fib(n - 2));
    }
  }

  lemma DoublingAnswers(v: Word)
    ensures Doubling().f(v) == 2 * v % WORDS
  {
    assert Doubling().f(v) == Add32(v, v);
    AddWord(v, v);
  }

  lemma FibonacciAnswers(v: Word)
    ensures Fibonacci().f(v) == Fib(v) % WORDS
  {
    assert Fibonacci().f(v) == FibWord(v);
    FibWordIsFib(v);
  }

  /** CPU1 computes the double, or the Fibonacci number, of whatever word it reads. */
  lemma WorkerComputes(s: State)
    requires s.worker.ReadReq?
    ensures WorkerStep(Doubling(), s).worker == WriteResp(s.worker.s, 2 * s.req % WORDS)
    ensures WorkerStep(Fibonacci(), s).worker == WriteResp(s.worker.s, Fib(s.req) % WORDS)
  {
    DoublingAnswers(s.req);
    FibonacciAnswers(s.req);
  }

  /** CPU0 posts 0x1000 i + 7, or i, in round i, and gives up after 2000000 polls, or 8000000. */
  lemma MasterPosts(s: State)
    requires 1 <= s.round
    ensures s.master.PostReq? && s.round <= 8 ==> MasterStep(Doubling(), s).req == 0x1000 * s.round + 7
    ensures s.master.PostReq? && s.round <= 16 ==> MasterStep(Fibonacci(), s).req == s.round
    ensures s.master.Polling? && s.respSeq != s.round ==>
              && (GivesUp(Doubling(), s) <==> s.master.t >= 1_999_999)
              && (GivesUp(Fibonacci(), s) <==> s.master.t >= 7_999_999)
  {
  }

  /** In every run of the doubling demo, whatever rounds were lost: an accepted answer is twice this round's request. */
  lemma DoublingIsAnswered(run: seq<State>, i: nat)
    requires IsRun(Doubling(), run) && i < |run| && run[i].master.ReadResp?
    ensures 1 <= run[i].round <= 8 && run[i].resp == 2 * (0x1000 * run[i].round + 7)
  {
    RunKeeps(Doubling(), run, i);
    AnswersAreNeverStale(Doubling(), run, i);
    DoublingAnswers(0x1000 * run[i].round + 7);
  }

  /** In every run of the other it is this round's Fibonacci number. */
  lemma FibonacciIsAnswered(run: seq<State>, i: nat)
    requires IsRun(Fibonacci(), run) && i < |run| && run[i].master.ReadResp?
    ensures 1 <= run[i].round <= 16 && run[i].resp == Fib(run[i].round)
  {
    hide Fib, FibWord;
    RunKeeps(Fibonacci(), run, i);
    AnswersAreNeverStale(Fibonacci(), run, i);
    FibonacciFits(run[i].round);
  }

  lemma FibonacciFits(v: Word)
    requires 1 <= v <= 16
    ensures Fibonacci().f(v) == Fib(v)
  {
    FibonacciAnswers(v);
    FibGrows(v, 16);
    FibSixteen();
  }

  lemma {:induction false} FibGrows(m: nat, n: nat)
    requires 1 <= m <= n
    ensures Fib(m) <= Fib(n)
    decreases n
  {
    if m < n {
      FibGrows(m, n - 1);
    }
  }

  lemma FibSixteen()
    ensures Fib(16) == 987
  {
    assert Fib(8) == 21 && Fib(9) == 34;
    assert Fib(10) == 55 && Fib(11) == 89;
    assert Fib(12) == 144 && Fib(13) == 233;
  }

  /** What the demos' headers promise: 8 handshakes; 16 rounds and fib(16) = 987. */
  lemma DemosPass(run: seq<State>, d: Demo)
    requires d == Doubling() || d == Fibonacci()
    requires IsRun(d, run) && Prompt(run, 4) && run[|run| - 1].master.Finished?
    ensures d == Doubling() ==> run[|run| - 1].ok == 8 && run[|run| - 1].resp == 2 * (0x1000 * 8 + 7)
    ensures d == Fibonacci() ==> run[|run| - 1].ok == 16 && run[|run| - 1].resp == 987
  {
    PromptRunsPass(d, run);
    if d == Fibonacci() {
      FibonacciAnswers(16);
      FibSixteen();
    }
  }
}
