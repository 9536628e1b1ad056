/**
 * The PPU scalar core running `rt.inc` with the checksum kernel: one step of the
 * machine is one instruction.  `taken` and `stops` are history: the tokens moved into r12, and the
 * tokens for which the core halted.
 */
module PpuCore {
  import opened Words

  type Memory = map<int, Word>

  const CMD: int := 0xB000_0300
  const INPUTS: int := 0xB000_0310
  const RESULT: int := 0x3000_0400

  /** The number of steps after which a fresh token is always settled. */
  const N: nat := 17

  /** One constructor for each instruction of `compute`, from the call to the return. */
  datatype KernelPc =
    | CallCompute | LoadBase | LoadCount | SkipCount | ClearSum
    | SumTest | SumExit | SumLoad | SumAdd | SumNext | SumDec | SumLoop
    | EndBase | EndStore | EndReturn

  /** One constructor for each instruction of rt.inc after the call. */
  datatype LoopPc =
    | SetCmd | SetResult | SetLast
    | Poll | PollCmp | PollBeq | Take | GetBit | DoneCmp | DoneBeq
    | GetWord | MaskWord | LoadWord | ShiftBit | MaskBit | BitCmp | BitBeq
    | Signal | Again
    | DoneHalt | DoneLoop

  datatype Kernel = Kernel(pc: KernelPc, z: bool, r3: Word, r4: Word, r5: Word, r6: Word, r8: Word)

  datatype Log = Log(taken: seq<Word>, stops: seq<Word>)

  /** r9 and r11 only ever hold RESULT and CMD once set, so they are not stored. */
  datatype Loop = Loop(
    pc: LoopPc, halted: bool, z: bool, r0: Word, r1: Word, r2: Word, r6: Word, r7: Word, r12: Word, log: Log)

  /** The registers of one phase are dead in the other; the private words are shared by both. */
  datatype Core = Computing(kernel: Kernel, scratch: Memory) | Serving(loop: Loop, scratch: Memory)

  function Load(m: Memory, a: int): Word {
    if a in m then m[a] else 0
  }

  /** The 256 result words are private to the core, everything else is shared. */
  predicate Private(a: int) {
    RESULT <= a < RESULT + 0x400
  }

  function Read(scratch: Memory, lmu: Memory, a: int): Word {
    if Private(a) then Load(scratch, a) else Load(lmu, a)
  }

  /** Stores outside the private words are dropped: the shared memory grants the core no writes. */
  function Store(scratch: Memory, a: int, v: Word): Memory {
    if Private(a) then scratch[a := v] else scratch
  }

  function KernelStep(k: Kernel, scratch: Memory, lmu: Memory): Kernel {
    match k.pc
    case CallCompute => k.(pc := LoadBase)
    case LoadBase => k.(r3 := INPUTS, pc := LoadCount)
    case LoadCount => k.(r4 := Read(scratch, lmu, k.r3), pc := SkipCount)
    case SkipCount => k.(r3 := Add32(k.r3, 4), pc := ClearSum)
    case ClearSum => k.(r5 := 0, pc := SumTest)
    case SumTest => k.(z := k.r4 == 0, pc := SumExit)
    case SumExit => k.(pc := if k.z then EndBase else SumLoad)
    case SumLoad => k.(r6 := Read(scratch, lmu, k.r3), pc := SumAdd)
    case SumAdd => k.(r5 := Add32(k.r5, k.r6), pc := SumNext)
    case SumNext => k.(r3 := Add32(k.r3, 4), pc := SumDec)
    case SumDec => k.(r4 := Add32(k.r4, WORDS - 1), pc := SumLoop)
    case SumLoop => k.(pc := SumTest)
    case EndBase => k.(r8 := RESULT, pc := EndStore)
    case EndStore => k.(pc := EndReturn)
    case EndReturn => k
  }

  function SetupStep(c: Loop): Loop {
    match c.pc
    case SetCmd => c.(pc := SetResult)
    case SetResult => c.(pc := SetLast)
    case _ => c.(r12 := 0, pc := Poll)
  }

  function PollStep(c: Loop, command: Word): Loop {
    match c.pc
    case Poll => c.(r0 := command, pc := PollCmp)
    case PollCmp => c.(z := c.r0 == c.r12, pc := PollBeq)
    case PollBeq => c.(pc := if c.z then Poll else Take)
    case _ => c.(r12 := c.r0, log := c.log.(taken := c.log.taken + [c.r0]), pc := GetBit)
  }

  function DoneTestStep(c: Loop): Loop {
    match c.pc
    case GetBit => c.(r1 := c.r0 % 256, pc := DoneCmp)
    case DoneCmp => c.(z := c.r1 == 0xFF, pc := DoneBeq)
    case _ => c.(pc := if c.z then DoneHalt else GetWord)
  }

  function WordStep(c: Loop, scratch: Memory, lmu: Memory): Loop {
    match c.pc
    case GetWord => c.(r6 := c.r0 / 256, pc := MaskWord)
    case MaskWord => c.(r6 := c.r6 % 256, pc := LoadWord)
    case _ => c.(r7 := Read(scratch, lmu, RESULT + 4 * c.r6), pc := ShiftBit)
  }

  function BitStep(c: Loop): Loop {
    match c.pc
    case ShiftBit => c.(r2 := Shr(c.r7, c.r1 % 32), pc := MaskBit)
    case MaskBit => c.(r2 := c.r2 % 2, pc := BitCmp)
    case _ => c.(z := c.r2 == 0, pc := BitBeq)
  }

  function AnswerStep(c: Loop): Loop {
    match c.pc
    case BitBeq => c.(pc := if c.z then Poll else Signal)
    case Signal => c.(halted := true, log := c.log.(stops := c.log.stops + [c.r12]), pc := Again)
    case _ => c.(pc := Poll)
  }

  function DoneStep(c: Loop): Loop {
    match c.pc
    case DoneHalt => c.(halted := true, pc := DoneLoop)
    case _ => c.(pc := DoneHalt)
  }

  function LoopStep(c: Loop, scratch: Memory, lmu: Memory): Loop {
    if c.halted then c
    else if c.pc in {Poll, PollCmp, PollBeq, Take} then PollStep(c, Read(scratch, lmu, CMD))
    else if c.pc in {GetBit, DoneCmp, DoneBeq} then DoneTestStep(c)
    else if c.pc in {GetWord, MaskWord, LoadWord} then WordStep(c, scratch, lmu)
    else if c.pc in {ShiftBit, MaskBit, BitCmp} then BitStep(c)
    else if c.pc in {BitBeq, Signal, Again} then AnswerStep(c)
    else if c.pc in {DoneHalt, DoneLoop} then DoneStep(c)
    else SetupStep(c)
  }

  /** rt.inc picks up where `compute` returns. */
  function EnterLoop(): Loop {
    Loop(SetCmd, false, false, 0, 0, 0, 0, 0, 0, Log([], []))
  }

  function Step(c: Core, lmu: Memory): Core {
    match c
    case Computing(k, scratch) =>
      if k.pc == EndReturn then Serving(EnterLoop(), scratch)
      else Computing(KernelStep(k, scratch, lmu), if k.pc == EndStore then Store(scratch, k.r8, k.r5) else scratch)
    case Serving(l, scratch) => Serving(LoopStep(l, scratch, lmu), scratch)
  }

  function Run(c: Core, lmu: Memory, n: nat): Core
    decreases n
  {
    if n == 0 then c else Run(Step(c, lmu), lmu, n - 1)
  }

  // ----- Tokens -----------------------------------------------------------

  /** `(nonce << 16) | (word << 8) | bit`; a word above 255 spills into the nonce field. */
  function Token(nonce: nat, word: nat, bit: nat): Word
    requires bit < 256
  {
    Or(nonce, word / 256) % 65536 * 65536 + word % 256 * 256 + bit
  }

  /** The nonce and the word index above a byte. */
  lemma NonceAndWord(nonce: nat, word: nat)
    ensures Or(Shl(nonce, 16), Shl(word, 8)) == 0x100 * (0x100 * Or(nonce, word / 0x100) + word % 0x100)
  {
    hide Or, Shl;
    ShlByte(1);
    ShlSum(nonce, 8, 8);
    OrSplit(Shl(nonce, 8), word, 0, 8);
    ShlByte(word / 0x100);
    OrSplit(nonce, word / 0x100, word % 0x100, 8);
    ShlByte(Or(nonce, word / 0x100));
    ShlByte(Or(Shl(nonce, 8), word));
  }

  lemma TokenCut(h: nat, w: Byte, bit: Byte)
    ensures (0x100 * (0x100 * h + w) + bit) % WORDS == h % 65536 * 65536 + w * 256 + bit
  {
    var k, r := h / 65536, h % 65536 * 65536 + w * 256 + bit;
    assert 0x100 * (0x100 * h + w) + bit == WORDS * k + r;
    assert 0 <= r < WORDS;
  }

  /** It is that number, cut to 32 bits. */
  lemma TokenIs(nonce: nat, word: nat, bit: nat)
    requires bit < 256
    ensures Token(nonce, word, bit) == Or(Or(Shl(nonce, 16), Shl(word, 8)), bit) % WORDS
  {
    hide Or, Shl;
    NonceAndWord(nonce, word);
    var u := 0x100 * Or(nonce, word / 0x100) + word % 0x100;
    ShlByte(1);
    ShlByte(u);
    OrDisjoint(u, bit, 8);
    TokenCut(Or(nonce, word / 0x100), word % 0x100, bit);
  }

  predicate Done(token: Word) {
    token % 256 == 0xFF
  }

  function ResultWord(scratch: Memory, word: nat): Word {
    Load(scratch, RESULT + 4 * (word % 256))
  }

  function BitOf(value: Word, bit: nat): int {
    Shr(value, bit) % 2
  }

  /** A token with the values the core derives from it, in the order it derives them. */
  datatype Request = Request(token: Word, low: Word, high: Word, index: Word, value: Word, shifted: Word, one: bool)

  function Decode(token: Word, scratch: Memory): Request {
    var low := token % 256;
    var high := token / 256;
    var value := ResultWord(scratch, high);
    Request(token, low, high, high % 256, value, Shr(value, low % 32), BitOf(value, low % 32) != 0)
  }

  // ----- Phases of the polling loop -----------------------------------------

  /** Polling, with `last` already consumed and nothing newer loaded. */
  predicate Waiting(c: Loop, last: Word) {
    && !c.halted && c.r12 == last
    && match c.pc
       case Poll => true
       case Again => true
       case PollCmp => c.r0 == last
       case PollBeq => c.z
       case _ => false
  }

  /** Between loading a token and either halting or returning to `.Lpoll`. */
  predicate Busy(c: Loop, q: Request, last: Word) {
    && !c.halted && c.r0 == q.token
    && match c.pc
       case PollCmp => c.r12 == last
       case PollBeq => c.r12 == last && !c.z
       case Take => c.r12 == last
       case GetBit => c.r12 == q.token
       case DoneCmp => c.r12 == q.token && c.r1 == q.low
       case DoneBeq => c.r12 == q.token && c.r1 == q.low && !c.z
       case GetWord => c.r12 == q.token && c.r1 == q.low
       case MaskWord => c.r12 == q.token && c.r1 == q.low && c.r6 == q.high
       case LoadWord => c.r12 == q.token && c.r1 == q.low && c.r6 == q.index
       case ShiftBit => c.r12 == q.token && c.r1 == q.low && c.r7 == q.value
       case MaskBit => c.r12 == q.token && c.r2 == q.shifted
       case BitCmp => c.r12 == q.token && (c.r2 != 0) == q.one
       case BitBeq => c.r12 == q.token && c.z == !q.one
       case Signal => c.r12 == q.token && q.one
       case _ => false
  }

  /** The token has been answered: halted for a 1, polling again for a 0. */
  predicate Settled(c: Loop, q: Request) {
    if q.one
    then c.halted && c.pc == Again && c.r12 == q.token
    else Waiting(c, q.token)
  }

  /** Upper bounds on the steps left until the posted token is settled. */
  function WaitRank(l: LoopPc): nat {
    match l case PollCmp => 17 case PollBeq => 16 case Again => 16 case _ => 15
  }

  function BusyRank(l: LoopPc): nat {
    match l
    case PollCmp => 14 case PollBeq => 13 case Take => 12 case GetBit => 11
    case DoneCmp => 10 case DoneBeq => 9 case GetWord => 8 case MaskWord => 7
    case LoadWord => 6 case ShiftBit => 5 case MaskBit => 4 case BitCmp => 3
    case BitBeq => 2 case _ => 1
  }

  predicate Tracks(c: Loop, q: Request, last: Word) {
    Waiting(c, last) || Busy(c, q, last) || Settled(c, q)
  }

  function Rank(c: Loop, q: Request, last: Word): (r: nat)
    ensures r <= N
  {
    if Waiting(c, last) then WaitRank(c.pc) else if Busy(c, q, last) then BusyRank(c.pc) else 0
  }

  /** What the core has logged while `token` is posted: it is taken at most once and stops at most once. */
  predicate Logged(c: Loop, token: Word, before: Log) {
    c.log == Log(if c.r12 == token then before.taken + [token] else before.taken,
                 if c.halted then before.stops + [token] else before.stops)
  }

  // ----- One step -------------------------------------------------------------

  /** One step of answering a token: one closer, or settled; `d` logs what it did. */
  predicate Advances(c: Loop, d: Loop, q: Request, last: Word) {
    && d.log.taken == (if c.pc == Take then c.log.taken + [q.token] else c.log.taken)
    && d.log.stops == (if d.halted then c.log.stops + [q.token] else c.log.stops)
    && ((Busy(d, q, last) && BusyRank(d.pc) == BusyRank(c.pc) - 1)
        || (c.pc == BitBeq && !q.one && Waiting(d, q.token))
        || (c.pc == Signal && q.one && Settled(d, q)))
  }

  lemma StepWaiting(c: Loop, scratch: Memory, lmu: Memory, q: Request, last: Word)
    requires Load(lmu, CMD) == q.token && Waiting(c, last)
    ensures var d := LoopStep(c, scratch, lmu);
            && d.log == c.log
            && (if c.pc == Poll && q.token != last
                then Busy(d, q, last) && BusyRank(d.pc) == WaitRank(c.pc) - 1
                else Waiting(d, last) && (q.token != last ==> WaitRank(d.pc) == WaitRank(c.pc) - 1))
  {
  }

  lemma StepFetch(c: Loop, scratch: Memory, lmu: Memory, q: Request, last: Word)
    requires q.token != last && q.low == q.token % 256 && q.low != 0xFF && Busy(c, q, last)
    requires c.pc in {PollCmp, PollBeq, Take, GetBit, DoneCmp, DoneBeq}
    ensures Advances(c, LoopStep(c, scratch, lmu), q, last)
  {
  }

  lemma StepAddress(c: Loop, scratch: Memory, lmu: Memory, q: Request, last: Word)
    requires q.high == q.token / 256 && q.index == q.high % 256 && q.value == Read(scratch, lmu, RESULT + 4 * q.index)
    requires Busy(c, q, last) && c.pc in {GetWord, MaskWord, LoadWord}
    ensures Advances(c, LoopStep(c, scratch, lmu), q, last)
  {
  }

  lemma StepBit(c: Loop, scratch: Memory, lmu: Memory, q: Request, last: Word)
    requires q.shifted == Shr(q.value, q.low % 32) && q.one == (q.shifted % 2 != 0)
    requires Busy(c, q, last) && c.pc in {ShiftBit, MaskBit, BitCmp}
    ensures Advances(c, LoopStep(c, scratch, lmu), q, last)
  {
  }

  lemma StepAnswer(c: Loop, scratch: Memory, lmu: Memory, q: Request, last: Word)
    requires Busy(c, q, last) && c.pc in {BitBeq, Signal}
    ensures Advances(c, LoopStep(c, scratch, lmu), q, last)
  {
  }

  lemma DecodeAgrees(scratch: Memory, lmu: Memory, token: Word)
    ensures var q := Decode(token, scratch);
            && q.value == Read(scratch, lmu, RESULT + 4 * q.index)
            && q.one == (q.shifted % 2 != 0)
  {
  }

  lemma StepBusy(c: Loop, scratch: Memory, lmu: Memory, q: Request, last: Word)
    requires q == Decode(q.token, scratch) && q.token != last && !Done(q.token) && Busy(c, q, last)
    ensures Advances(c, LoopStep(c, scratch, lmu), q, last)
  {
    DecodeAgrees(scratch, lmu, q.token);
    match c.pc
    case ShiftBit | MaskBit | BitCmp => StepBit(c, scratch, lmu, q, last);
    case GetWord | MaskWord | LoadWord => StepAddress(c, scratch, lmu, q, last);
    case BitBeq | Signal => StepAnswer(c, scratch, lmu, q, last);
    case _ => StepFetch(c, scratch, lmu, q, last);
  }

  /** What a step does to the phase, the log and the rank. */
  predicate StepKeeps(c: Loop, d: Loop, q: Request, last: Word, before: Log) {
    && Tracks(d, q, last) && Logged(d, q.token, before)
    && (if Settled(c, q) then Settled(d, q) else Settled(d, q) || Rank(d, q, last) == Rank(c, q, last) - 1)
    && (Settled(d, q) && q.one ==> Rank(c, q, last) <= 1)
  }

  lemma AdvanceKeeps(c: Loop, d: Loop, q: Request, last: Word, before: Log)
    requires q.token != last && Busy(c, q, last) && Advances(c, d, q, last) && Logged(c, q.token, before)
    ensures StepKeeps(c, d, q, last, before)
  {
  }

  lemma StepTracks(c: Loop, scratch: Memory, lmu: Memory, q: Request, last: Word, before: Log)
    requires q == Decode(q.token, scratch) && Load(lmu, CMD) == q.token != last && !Done(q.token)
    requires Tracks(c, q, last) && Logged(c, q.token, before)
    ensures StepKeeps(c, LoopStep(c, scratch, lmu), q, last, before)
  {
    if Waiting(c, last) {
      StepWaiting(c, scratch, lmu, q, last);
    } else if Busy(c, q, last) {
      StepBusy(c, scratch, lmu, q, last);
      AdvanceKeeps(c, LoopStep(c, scratch, lmu), q, last, before);
    } else if !c.halted {
      StepWaiting(c, scratch, lmu, q, q.token);
    }
  }

  // ----- Runs of the polling loop -----------------------------------------------

  /** However many steps the core is given, a posted token is taken at most once and answered correctly,
      within N steps; a 1 bit halts the core after exactly `Rank` steps. */
  lemma {:induction false} RunTracks(core: Core, lmu: Memory, token: Word, last: Word, before: Log, n: nat)
    requires core.Serving? && Load(lmu, CMD) == token != last && !Done(token)
    requires Tracks(core.loop, Decode(token, core.scratch), last) && Logged(core.loop, token, before)
    ensures var end, q := Run(core, lmu, n), Decode(token, core.scratch);
            && end.Serving? && end.scratch == core.scratch
            && Tracks(end.loop, q, last) && Logged(end.loop, token, before)
            && (Settled(end.loop, q) || Rank(end.loop, q, last) + n == Rank(core.loop, q, last))
            && (q.one && n < Rank(core.loop, q, last) ==> !end.loop.halted)
    decreases n
  {
    if n > 0 {
      StepTracks(core.loop, core.scratch, lmu, Decode(token, core.scratch), last, before);
      RunTracks(Step(core, lmu), lmu, token, last, before, n - 1);
    }
  }

  /** With no newer token posted, a polling core neither halts nor takes anything. */
  lemma {:induction false} RunWaits(core: Core, lmu: Memory, last: Word, n: nat)
    requires core.Serving? && Load(lmu, CMD) == last && Waiting(core.loop, last)
    ensures var end := Run(core, lmu, n);
            end.Serving? && end.scratch == core.scratch && Waiting(end.loop, last) && end.loop.log == core.loop.log
    decreases n
  {
    if n > 0 {
      StepWaiting(core.loop, core.scratch, lmu, Decode(last, core.scratch), last);
      RunWaits(Step(core, lmu), lmu, last, n - 1);
    }
  }

  /** N is the least such bound: a core caught just after a stale load signals a 1 exactly when all N steps are run. */
  lemma FewerStepsAreTooFew(core: Core, lmu: Memory, token: Word, last: Word, n: nat)
    requires core.Serving? && Load(lmu, CMD) == token != last && !Done(token)
    requires Waiting(core.loop, last) && core.loop.pc == PollCmp && Decode(token, core.scratch).one
    ensures Run(core, lmu, n).Serving? && (Run(core, lmu, n).loop.halted <==> n >= N)
  {
    assert Rank(core.loop, Decode(token, core.scratch), last) == N;
    RunTracks(core, lmu, token, last, core.loop.log, n);
  }

  // ----- The done token ---------------------------------------------------------

  predicate Retired(c: Loop) {
    c.pc == DoneHalt || c.pc == DoneLoop
  }

  /** On its way from polling to `.Ldone`. */
  predicate Retiring(c: Loop, token: Word, last: Word) {
    || Retired(c)
    || Waiting(c, last)
    || (&& !c.halted && c.r0 == token
        && match c.pc
           case PollCmp => c.r12 == last
           case PollBeq => !c.z
           case Take => true
           case GetBit => true
           case DoneCmp => c.r1 == 0xFF
           case DoneBeq => c.z
           case _ => false)
  }

  /** Not yet past the instruction that takes a token. */
  predicate Fetching(c: Loop) {
    c.pc in {Poll, PollCmp, PollBeq, Take, Again}
  }

  function RetireRank(c: Loop, last: Word): nat {
    if Retired(c) then 0
    else if Waiting(c, last) then WaitRank(c.pc) - 8
    else if BusyRank(c.pc) > 8 then BusyRank(c.pc) - 8
    else 0
  }

  lemma StepRetires(c: Loop, scratch: Memory, lmu: Memory, token: Word, last: Word)
    requires Load(lmu, CMD) == token != last && Done(token) && Retiring(c, token, last)
    ensures var d := LoopStep(c, scratch, lmu);
            && Retiring(d, token, last) && d.log.stops == c.log.stops
            && (Fetching(d) ==> Fetching(c))
            && d.log.taken == (if Fetching(c) && !Fetching(d) then c.log.taken + [token] else c.log.taken)
            && (Retired(d) || RetireRank(d, last) < RetireRank(c, last))
  {
    if Waiting(c, last) {
      StepWaiting(c, scratch, lmu, Decode(token, scratch), last);
    }
  }

  /** The done token sends the core to `.Ldone` within nine steps, where it stays. */
  lemma {:induction false} RunRetires(core: Core, lmu: Memory, token: Word, last: Word, n: nat)
    requires core.Serving? && Load(lmu, CMD) == token != last && Done(token) && Retiring(core.loop, token, last)
    ensures var end := Run(core, lmu, n);
            && end.Serving? && end.scratch == core.scratch && end.loop.log.stops == core.loop.log.stops
            && Retiring(end.loop, token, last) && (n >= 9 ==> Retired(end.loop))
    ensures n >= RetireRank(core.loop, last) ==> Retired(Run(core, lmu, n).loop)
    decreases n
  {
    if n > 0 {
      StepRetires(core.loop, core.scratch, lmu, token, last);
      RunRetires(Step(core, lmu), lmu, token, last, n - 1);
    }
  }

  /** On the way it is taken exactly once. */
  lemma {:induction false} RunTakesDone(core: Core, lmu: Memory, token: Word, last: Word, n: nat)
    requires core.Serving? && Load(lmu, CMD) == token != last && Done(token) && Retiring(core.loop, token, last)
    ensures var end := Run(core, lmu, n);
            && end.Serving? && (Fetching(end.loop) ==> Fetching(core.loop))
            && (n >= RetireRank(core.loop, last) ==> !Fetching(end.loop))
            && end.loop.log.taken == (if Fetching(core.loop) && !Fetching(end.loop)
                                      then core.loop.log.taken + [token] else core.loop.log.taken)
    decreases n
  {
    if n > 0 {
      StepRetires(core.loop, core.scratch, lmu, token, last);
      RunTakesDone(Step(core, lmu), lmu, token, last, n - 1);
    }
  }

  // ----- The checksum kernel ------------------------------------------------------

  /** The 32-bit sum of `n` words starting at address `a`. */
  function SumFrom(scratch: Memory, lmu: Memory, a: Word, n: nat): Word
    decreases n
  {
    if n == 0 then 0
    else Add32(Read(scratch, lmu, a), SumFrom(scratch, lmu, Add32(a, 4), n - 1))
  }

  /** Steps from reset to the polling loop when the count word is `n`. */
  function StartupSteps(n: nat): nat {
    7 * n + 13
  }

  /** The core out of reset. */
  predicate Booted(core: Core) {
    core.Computing? && core.kernel.pc == CallCompute
  }

  /** Steps left to the polling loop. */
  function KernelRank(k: Kernel, count: nat): nat {
    match k.pc
    case CallCompute => 7 * count + 13
    case LoadBase => 7 * count + 12
    case LoadCount => 7 * count + 11
    case SkipCount => 7 * k.r4 + 10
    case ClearSum => 7 * k.r4 + 9
    case SumTest => 7 * k.r4 + 8
    case SumExit => 7 * k.r4 + 7
    case SumLoad => 7 * k.r4 + 6
    case SumAdd => 7 * k.r4 + 5
    case SumNext => 7 * k.r4 + 4
    case SumDec => 7 * k.r4 + 3
    case SumLoop => 7 * k.r4 + 9
    case EndBase => 6
    case EndStore => 5
    case EndReturn => 4
  }

  function SetupRank(l: LoopPc): nat {
    match l case SetCmd => 3 case SetResult => 2 case SetLast => 1 case _ => 0
  }

  /** The running sum plus the sum of the words still to come is the total. */
  predicate SumKept(k: Kernel, scratch: Memory, lmu: Memory, total: Word) {
    match k.pc
    case CallCompute => true
    case LoadBase => true
    case LoadCount => k.r3 == INPUTS
    case SkipCount => k.r3 == INPUTS && k.r4 == Load(lmu, INPUTS)
    case ClearSum => k.r3 == INPUTS + 4 && k.r4 == Load(lmu, INPUTS)
    case SumTest => Add32(k.r5, SumFrom(scratch, lmu, k.r3, k.r4)) == total
    case SumExit => Add32(k.r5, SumFrom(scratch, lmu, k.r3, k.r4)) == total && k.z == (k.r4 == 0)
    case SumLoad => Add32(k.r5, SumFrom(scratch, lmu, k.r3, k.r4)) == total && k.r4 > 0
    case SumAdd =>
      Add32(k.r5, SumFrom(scratch, lmu, k.r3, k.r4)) == total && k.r4 > 0 && k.r6 == Read(scratch, lmu, k.r3)
    case SumNext => k.r4 > 0 && Add32(k.r5, SumFrom(scratch, lmu, Add32(k.r3, 4), k.r4 - 1)) == total
    case SumDec => k.r4 > 0 && Add32(k.r5, SumFrom(scratch, lmu, k.r3, k.r4 - 1)) == total
    case SumLoop => Add32(k.r5, SumFrom(scratch, lmu, k.r3, k.r4)) == total
    case EndBase => k.r5 == total
    case EndStore => k.r5 == total && k.r8 == RESULT
    case EndReturn => true
  }

  lemma SumTail(scratch: Memory, lmu: Memory, r5: Word, a: Word, n: nat)
    requires n > 0
    ensures Add32(Add32(r5, Read(scratch, lmu, a)), SumFrom(scratch, lmu, Add32(a, 4), n - 1))
         == Add32(r5, SumFrom(scratch, lmu, a, n))
  {
  }

  /** What one instruction of the kernel does to the sum and the rank. */
  predicate SumsOn(k: Kernel, d: Kernel, scratch: Memory, lmu: Memory, total: Word) {
    && SumKept(d, scratch, lmu, total)
    && KernelRank(d, Load(lmu, INPUTS)) == KernelRank(k, Load(lmu, INPUTS)) - 1
    && (d.pc == EndReturn <==> k.pc == EndStore)
  }

  lemma PrologueSums(k: Kernel, scratch: Memory, lmu: Memory, total: Word)
    requires SumKept(k, scratch, lmu, total) && k.pc in {CallCompute, LoadBase, LoadCount, SkipCount, ClearSum}
    requires total == SumFrom(scratch, lmu, INPUTS + 4, Load(lmu, INPUTS))
    ensures SumsOn(k, KernelStep(k, scratch, lmu), scratch, lmu, total)
  {
  }

  lemma TestSums(k: Kernel, scratch: Memory, lmu: Memory, total: Word)
    requires SumKept(k, scratch, lmu, total) && k.pc in {SumTest, SumExit, SumLoad, SumLoop}
    ensures SumsOn(k, KernelStep(k, scratch, lmu), scratch, lmu, total)
  {
  }

  lemma BodySums(k: Kernel, scratch: Memory, lmu: Memory, total: Word)
    requires SumKept(k, scratch, lmu, total) && k.pc in {SumAdd, SumNext, SumDec}
    ensures SumsOn(k, KernelStep(k, scratch, lmu), scratch, lmu, total)
  {
    if k.pc == SumAdd {
      SumTail(scratch, lmu, k.r5, k.r3, k.r4);
    }
  }

  lemma StepSums(k: Kernel, scratch: Memory, lmu: Memory, total: Word)
    requires SumKept(k, scratch, lmu, total) && k.pc != EndReturn
    requires total == SumFrom(scratch, lmu, INPUTS + 4, Load(lmu, INPUTS))
    ensures SumsOn(k, KernelStep(k, scratch, lmu), scratch, lmu, total)
  {
    match k.pc
    case EndBase | EndStore =>
    case SumTest | SumExit | SumLoad | SumLoop => TestSums(k, scratch, lmu, total);
    case SumAdd | SumNext | SumDec => BodySums(k, scratch, lmu, total);
    case _ => PrologueSums(k, scratch, lmu, total);
  }

  /** Where the core is between reset and the first token, with `rank` steps left to the polling loop. */
  predicate Starting(core: Core, scratch: Memory, lmu: Memory, total: Word, rank: nat) {
    match core
    case Computing(k, s) =>
      && SumKept(k, scratch, lmu, total) && rank == KernelRank(k, Load(lmu, INPUTS))
      && s == (if k.pc == EndReturn then scratch[RESULT := total] else scratch)
    case Serving(l, s) =>
      && s == scratch[RESULT := total] && l.log == Log([], [])
      && if l.pc in {SetCmd, SetResult, SetLast} then !l.halted && rank == SetupRank(l.pc)
         else Waiting(l, 0) && rank == 0
  }

  lemma StepStarts(core: Core, scratch: Memory, lmu: Memory, total: Word, rank: nat)
    requires total == SumFrom(scratch, lmu, INPUTS + 4, Load(lmu, INPUTS)) && Load(lmu, CMD) == 0
    requires Starting(core, scratch, lmu, total, rank)
    ensures Starting(Step(core, lmu), scratch, lmu, total, if rank == 0 then 0 else rank - 1)
  {
    match core
    case Computing(k, s) =>
      if k.pc != EndReturn {
        StepSums(k, scratch, lmu, total);
      }
    case Serving(l, s) =>
      if Waiting(l, 0) {
        StepWaiting(l, s, lmu, Decode(0, s), 0);
      }
  }

  lemma {:induction false} RunStarts(core: Core, scratch: Memory, lmu: Memory, total: Word, rank: nat, n: nat)
    requires total == SumFrom(scratch, lmu, INPUTS + 4, Load(lmu, INPUTS)) && Load(lmu, CMD) == 0
    requires Starting(core, scratch, lmu, total, rank)
    ensures Starting(Run(core, lmu, n), scratch, lmu, total, if rank <= n then 0 else rank - n)
    decreases n
  {
    if n > 0 {
      StepStarts(core, scratch, lmu, total, rank);
      RunStarts(Step(core, lmu), scratch, lmu, total, if rank == 0 then 0 else rank - 1, n - 1);
    }
  }

  /** From reset, the kernel stores the sum of the buffer and reaches the polling loop, for any count. */
  lemma KernelComputes(core: Core, lmu: Memory, n: nat)
    requires Booted(core) && Load(lmu, 0xB000_0300) == 0 && n >= StartupSteps(Load(lmu, 0xB000_0310))
    ensures var end, count := Run(core, lmu, n), Load(lmu, 0xB000_0310);
            && end.Serving? && Waiting(end.loop, 0) && end.loop.log == Log([], [])
            && end.scratch == core.scratch[0x3000_0400 := SumFrom(core.scratch, lmu, 0xB000_0314, count)]
  {
    RunStarts(core, core.scratch, lmu, SumFrom(core.scratch, lmu, INPUTS + 4, Load(lmu, INPUTS)),
              StartupSteps(Load(lmu, INPUTS)), n);
  }
}
