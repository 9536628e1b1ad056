# Verification of the TC4x tools and board support

This project models the parts of the TC4x toolkit in which several pieces of code have to agree: the host and
the PPU core over a one-bit channel, two cores over a mailbox, the debug server's packet, memory and flash
layers, the context-save-area list, and the drivers that live with a wrapping counter or a small hardware queue.
`dafny verify dfyconfig.toml` checks all of it.

| file | what it models |
|---|---|
| `Words.dfy` | 32-bit words, shifts, or, little-endian bytes |
| `PpuCore.dfy` | `ppu/rt.inc` and `ppu/checksum.s` as a machine that executes one instruction a step |
| `PpuHost.dfy` | `tools/common/ppu.c` against that machine, for every schedule |
| `Mailbox.dfy` | the two-core mailbox of `smp_demo.c` and `smp_c_demo.c`, every interleaving |
| `Rsp.dfy`, `RspChannel.dfy` | the packet layer of the debug server, alone and as two processes over a channel |
| `Packets.dfy` | the text conventions of the packet handlers |
| `TargetMemory.dfy`, `MemoryPackets.dfy` | byte access over word-wide memory, and the `m`, `M` and document packets over it |
| `DebugServer.dfy` | the server's loop over any stream of bytes: frames in, memory, triggers and flash changed, frames out |
| `Flash.dfy`, `VFlash.dfy`, `FlashTool.dfy` | erase and program, the `load` accumulator, and `tc-load flash` |
| `Triggers.dfy` | the breakpoint table against the triggers on the device |
| `CsaList.dfy` | the context-save-area list and the rest of `_cstart` |
| `Can.dfy` | CAN send and receive over a two-element FIFO |
| `TimerTick.dfy`, `Delays.dfy` | the periodic tick and the busy-wait delays over a 32-bit counter |

## How the environment enters

* Time between two host accesses is a schedule: `pace` says how many steps the core runs in each pause, and the
  contracts hold for every schedule in which, of any twenty polls, one that does not fault comes after 17 steps.
  17 is proved to suffice, and a schedule with 16 on which the host reads a 1 as 0 is given.
* Link faults, busy flash, failing trigger calls, the starts and ends of CAN transmissions and the ticks between
  two polls are arbitrary functions of a count of accesses or transactions, fixed when an object is made;
  contracts hold for all of them.
* An 8-, 32- or 64-bit wrap is written out wherever the C code has one. Words are bounded integers.

## What the proofs found

* The 16-bit nonce of a PPU token is not needed: consecutive tokens already differ in the low byte, so the
  channel is right for any number of words. Words above 255 read back as word modulo 256.
* The image is loaded after the command word has been cleared. The core takes nothing before the host posts its
  first token exactly if the image does not reach the command word or has a 0 there; any other value, the done
  token included, is taken as a token the host never posted.
* A status read that faults during a resume passes for "running": `ppu_resume` then returns 1 with the core still
  halted, exactly if no request has got through by then.
* A poll window may show a 1 bit as 0 exactly if no poll that gets through comes late enough for the steps the core
  still needs, which are 17 in the worst case.
* One mailbox round needs four steps of the worker while none has been lost, and seven after one has. Both numbers
  are the least.
* `flash_range_ok` accepts a range that wraps 2^64, and `flash_done` cuts the image length to 32 bits. A session
  that reports success stored its image exactly if the image lies inside PFLASH.
* Erasing an empty range that starts inside a sector erases that sector.
* `trig_set` on a full table creates a trigger that no later packet can remove. Setting a live key again with
  another range changes nothing.
* `can_send` returns 0 for a frame that a full FIFO drops. After a time-out it may also return 0 for a frame that
  is never transmitted: the request is ignored while the earlier transmission runs, and the end of that one is taken
  for its own. Called only when nothing is pending, it transmits every frame once and in order, a timed-out one late.
  A request that is pending but has not started while the next call rewrites the buffer goes out as a mixture of the
  two frames if it starts between two of the four writes.
* A memory write whose range wraps 2^64 is reported as done and writes nothing. A read whose range wraps succeeds too
  and is answered with what its buffer happened to hold.
* The size check of `flash_write` is computed modulo 2^64: for sizes above 2^63 and below 2^64 the doubling loop does
  not end, and from 2^64 on the check can pass for a payload that lies behind the buffer.
* The page loop of `tcmcd_flash_program` ends exactly for lengths up to 2^32 - 32.
* A timer match that is cleared a whole interval or more after it happened is lost, and the next one comes only
  after the counter has wrapped.
* A delay that returns never returns early, whatever the gaps between polls. It is sure to end exactly if polls are
  at most 2^32 - ticks apart. For zero ticks it still takes one gap, so "less than ticks plus one gap" is off by one
  there.
* The free list needs no segment number: any aligned region in the low 4 MiB of one segment works unless it
  starts at address 0.

Where a contract speaks through a function that the code uses too, a lemma says what that function gives without
naming it: digits, heads and answers in letters, sums over unbounded integers, escapes and joined fields bit by bit,
words as sums of their bytes, triggers by the accesses they stop at, demo answers by their round.

Where comments and code differ, the code is modelled: `tools/tc-load/main.c:11` speaks of one sector, the code
erases every sector the image meets; `bsp/tc4d7/timing.h:7` calls the tick delay exact, it is exact up to the
last poll; `tools/tc-gdbserver/main.c:210` promises -1 on failure, and a full table fails after creating the trigger.

## Model

| member | source | states |
|---|---|---|
| `PpuCore.StepTracks` | `ppu/rt.inc:34-50` | one step of a core with a fresh token posted keeps the phase invariant and the log and comes one step closer to the answer |
| `PpuCore.RunTracks` | `ppu/rt.inc:34-50` | for any number of steps a posted token is taken at most once, stops the core at most once, and is answered right within 17 steps |
| `PpuCore.RunWaits` | `ppu/rt.inc:34-37` | with nothing newer posted the core neither halts nor takes a token, however long it runs |
| `PpuCore.FewerStepsAreTooFew` | `ppu/rt.inc:35-49` | a core caught after a stale load is halted for a 1 after n steps if and only if n is at least 17, so the bound is tight |
| `PpuCore.RunRetires` | `ppu/rt.inc:51-53` | the done token sends the core to `.Ldone` within nine steps and it stays there |
| `PpuCore.RunTakesDone` | `ppu/rt.inc:35-53` | on the way there the done token is taken exactly once |
| `PpuCore.StepSums` | `ppu/checksum.s:25-41` | every instruction of the kernel keeps running sum plus remaining words equal to the total, and comes one step closer to the return |
| `PpuCore.KernelComputes` | `ppu/checksum.s:25-41` | from reset, after at least 7n+13 steps, RESULT holds the 32-bit sum of the n words and the core polls with an empty log |
| `PpuHost.LowNext` | `tools/common/ppu.c:65-76` | the low n+1 bits of a word are its low n bits and bit n |
| `PpuHost.TokenFields` | `tools/common/ppu.c:66` | a token carries its bit index, is never the done token, and is decoded by the core as that bit of word modulo 256, for any nonce and word |
| `PpuCore.TokenIs` | `tools/common/ppu.c:66` | a token is nonce, word and bit shifted and joined bit by bit, cut to 32 bits, for words of any size |
| `PpuHost.Link.TryResume` | `tools/common/ppu.c:50-56` | one resume round leaves the core polling and unable to halt exactly if the request got through, and is taken for a success if it did or the status read faulted |
| `PpuHost.Link.Resume` | `tools/common/ppu.c:48-58` | returns 1 exactly if some request gets through or some status read faults; the core is restarted exactly if a request gets through before a faulting read passes for a success, and otherwise is still halted |
| `PpuHost.Link.CandidResumes` | `tools/common/ppu.c:48-58` | if no faulting read hides a lost request, it returns 1 exactly if one of the forty gets through, and then the core is restarted |
| `PpuHost.Link.AwaitHalt` | `tools/common/ppu.c:67-71` | for every schedule the core is seen halted exactly if the bit is 1 and a poll that does not fault comes after the steps the core still needs; in a window in time, exactly if the bit is 1, with the token consumed once |
| `PpuHost.SixteenStepsMissABit` | `tools/common/ppu.c:67-71` | on a schedule that gives the core 16 steps in the window, with every read getting through, a 1 is read as 0 |
| `PpuHost.BurstFallsShort` | `tools/common/ppu.c:67-71` | that schedule has a poll after 16 steps and none after 17 |
| `PpuHost.Link.ReadBit` | `tools/common/ppu.c:65-76` | one bit is delivered and its token logged once; -1 exactly if it is a 1 and all forty resume requests are seen to be lost, and the core polls again exactly if it is a 0 or is restarted |
| `PpuHost.Link.ReadWord` | `tools/common/ppu.c:62-79` | returns the result word bit for bit, advances the nonce by 32, and logs exactly its 32 tokens and the stops of its 1 bits |
| `PpuHost.Link.StreamWords` | `tools/common/ppu.c:92-96` | the word loop delivers every word and logs exactly the tokens of the call in order; if it ends with -1, the words before are delivered, the rest of the outputs is as before, and the tokens posted so far, the last for a 1, have each been consumed once |
| `PpuHost.Link.PostDone` | `tools/common/ppu.c:97` | the done token, 0xFF for both word and bit, is posted, and it always differs from the last token posted |
| `PpuHost.Link.StreamResults` | `tools/common/ppu.c:92-98` | for any number of words the whole exchange returns 0 when resumes get through, with outputs[w] the core's result word, each token consumed exactly once and the done token with nonce 1 + 32 nout posted last; a call that breaks off leaves the core halted by the last token, with the same account of the words and tokens before |
| `PpuHost.Link.LoadRun` | `tools/common/ppu.c:32-46` | the part of the image before the first fault is in memory; if that is all of it the core starts at it, and otherwise the result is -1 |
| `PpuHost.Link.PpuCall` | `tools/common/ppu.c:81-99` | on the checksum image outputs[0] is the sum of the counted words modulo 2^32 as the core finds them after loading, for every count, buffer and schedule in time and every image that leaves the command word 0; the call logs exactly its tokens and the core ends at `.Ldone`, or it breaks off as StreamResults says |
| `PpuHost.SumIsTotal` | `ppu/checksum.s:30-37` | the 32-bit running sum is the true sum modulo 2^32 |
| `PpuHost.SilentIff` | `tools/common/ppu.c:85-88` | the waiting core takes no token before the host posts one if and only if the image ends below the command word or has a 0 there |
| `PpuHost.ForgedTokenIsTaken` | `ppu/rt.inc:35-53` | any other value there is taken within 17 steps, the done token included |
| `PpuHost.OperandsAreInputsIff` | `tools/common/ppu.c:85-88` | the core finds the inputs as handed over if and only if the image words that reach them are the same |
| `PpuHost.FoundIsCounted` | `tools/common/ppu.c:85-88` | when as many words are handed over as are counted, the sum is that of the words handed over, for any memory before |
| `PpuHost.LoadedOperands` | `tools/common/ppu.c:85-88` | what memory holds at the command word and the operands after loading |
| `Mailbox.WorkerKeeps` | `bsp/tc4d7/smp_demo.c:29-40` | every atomic step of CPU1 keeps the invariant, in any state of CPU0 |
| `Mailbox.MasterKeeps` | `bsp/tc4d7/smp_demo.c:66-74` | every atomic step of CPU0, giving up included, keeps it |
| `Mailbox.RunKeeps` | `bsp/tc4d7/smp_demo.c:29-74` | the invariant holds in every state of every interleaving |
| `Mailbox.AnswersAreNeverStale` | `bsp/tc4d7/smp_demo.c:72-73` | once CPU0 has read its round number, RESP is the answer to this round; ok counts exactly the rounds not given up, for any answer function and any timeouts |
| `Mailbox.SevenStepsAnswer` | `bsp/tc4d7/smp_demo.c:71-72` | whatever rounds were lost before, seven steps of CPU1 are enough to answer a round |
| `Mailbox.ThreeStepsMayLose` | `bsp/tc4d7/smp_demo.c:71-72` | with three steps a round some run loses one, for any bounds |
| `Mailbox.SixStepsMayLose` | `bsp/tc4d7/smp_demo.c:71-72` | after a lost round some run loses the next in spite of six steps |
| `Mailbox.PromptNeverLoses` | `bsp/tc4d7/smp_demo.c:71-72` | no round is lost if CPU0 gives up none before CPU1 has had four steps in it |
| `Mailbox.PromptRunsPass` | `bsp/tc4d7/smp_demo.c:66-79` | such runs pass every round, and the last answer and number stay in place |
| `Mailbox.FibWordIsFib` | `bsp/tc4d7/smp_c_demo.c:28-31` | the recursive function is Fibonacci modulo 2^32 |
| `Mailbox.DemosPass` | `bsp/tc4d7/smp_c_demo.c:70-82` | the two demos end with 8 handshakes and twice the last request, and with 16 rounds and 987 |
| `Mailbox.WorkerComputes` | `bsp/tc4d7/smp_demo.c:33-36` | the answer CPU1 computes to any word it reads is twice that word, or its Fibonacci number, modulo 2^32 |
| `Mailbox.MasterPosts` | `bsp/tc4d7/smp_demo.c:66-72` | in round i CPU0 posts 0x1000 i + 7, or i, and it gives up after exactly 2000000 polls, or 8000000 |
| `Mailbox.DoublingIsAnswered` | `bsp/tc4d7/smp_demo.c:66-74` | in every run of the doubling demo, whatever rounds were lost, an answer accepted in round i is 2 (0x1000 i + 7) |
| `Mailbox.FibonacciIsAnswered` | `bsp/tc4d7/smp_c_demo.c:70-76` | in every run of the other it is the i-th Fibonacci number |
| `Rsp.HexRoundTrip` | `tools/tc-gdbserver/rsp.c:32-38` | a digit is read back as its value |
| `Rsp.HexValIs` | `tools/tc-gdbserver/rsp.c:33-38` | a character is worth n if and only if it is the n-th hexadecimal digit, small or capital |
| `Rsp.HexDigitIs` | `tools/tc-gdbserver/rsp.c:32` | the digit written for n is the n-th small one |
| `Rsp.SumIsTotal` | `tools/tc-gdbserver/rsp.c:79` | the running checksum is the sum of all bytes modulo 256 |
| `Words.TotalSplits` | `tools/tc-gdbserver/rsp.c:79` | that sum, like the one of the kernel's operands, adds each number once |
| `Rsp.AcceptsIff` | `tools/tc-gdbserver/rsp.c:81-86` | a frame is accepted if and only if it leaves room for the terminator and its two digits, small or capital, name the sum of its bytes modulo 256 |
| `Rsp.FrameIs` | `tools/tc-gdbserver/rsp.c:105-109` | what is sent for a payload: `$`, the payload, `#` and the two small digits of that sum |
| `Rsp.OkayFrame` | `tools/tc-gdbserver/rsp.c:105-109` | for `OK` it is `$OK#9a` |
| `Rsp.FrameChecks` | `tools/tc-gdbserver/rsp.c:105-109` | the check characters of a frame match its payload |
| `Rsp.Connection.Collect` | `tools/tc-gdbserver/rsp.c:72-80` | the payload up to `#` is in the buffer with its sum, unless it does not fit |
| `Rsp.Connection.GetFrame` | `tools/tc-gdbserver/rsp.c:65-86` | one pass of the loop reads exactly the next frame or interrupt and judges it as the parser does |
| `Rsp.Connection.GetPacket` | `tools/tc-gdbserver/rsp.c:63-93` | result, buffer, bytes consumed and replies are those of the recursive parser, on every stream |
| `Rsp.Connection.BuildFrame` | `tools/tc-gdbserver/rsp.c:103-109` | builds that frame in one loop |
| `Rsp.Connection.PutPacket` | `tools/tc-gdbserver/rsp.c:95-119` | sends the frame once and once more for every leading `-`, and returns 0 at the first other byte |
| `Rsp.NaksAre` | `tools/tc-gdbserver/rsp.c:112-117` | how many those are is determined by the bytes `-` in the stream |
| `Rsp.RepeatAt` | `tools/tc-gdbserver/rsp.c:102-110` | each copy sent is the frame, one behind the other |
| `Rsp.NextStands` | `tools/tc-gdbserver/rsp.c:65-91` | a frame behind noise is the next item, accepted exactly if it checks and fits |
| `Rsp.OneFrame` | `tools/tc-gdbserver/rsp.c:86-91` | a frame behind noise is taken with `+` if it checks and fits, and otherwise answered with `-` and passed over |
| `Rsp.FirstGoodFrame` | `tools/tc-gdbserver/rsp.c:63-93` | behind any number of bad frames the first good one is returned, after one `-` for each bad one and one `+` |
| `Rsp.FirstInterrupt` | `tools/tc-gdbserver/rsp.c:67-70` | 0x03 between frames, before any good frame, gives -2 |
| `Rsp.OutcomeExplained` | `tools/tc-gdbserver/rsp.c:63-93` | conversely every outcome on every stream has such an explanation |
| `RspChannel.FeedIsParse` | `tools/tc-gdbserver/rsp.c:63-93` | a receiver fed byte by byte is the parser, on every stream |
| `RspChannel.PushKeeps` | `tools/tc-gdbserver/rsp.c:102-110` | sending a byte keeps the invariant and lowers the measure |
| `RspChannel.PullKeeps` | `tools/tc-gdbserver/rsp.c:64-92` | receiving a byte does too |
| `RspChannel.AcknowledgeKeeps` | `tools/tc-gdbserver/rsp.c:112-117` | and reading the acknowledgement |
| `RspChannel.NeverTwice` | `tools/tc-gdbserver/rsp.c:63-119` | in every state of every run the payload has been delivered at most once and unchanged, and the sender returns only after that |
| `RspChannel.NeverStuck` | `tools/tc-gdbserver/rsp.c:63-119` | until both have returned some step is possible |
| `RspChannel.Delivers` | `tools/tc-gdbserver/rsp.c:63-119` | every run is bounded by the payload and the spoiled frames, and a run that can go no further has delivered the payload exactly once |
| `Packets.FindSkips` | `tools/tc-gdbserver/main.c:305-307` | `strchr` passes over other characters |
| `Packets.FindIff` | `tools/tc-gdbserver/main.c:305-307` | it finds the first such character, if and only if no zero byte comes before it |
| `Packets.ReadsDigits` | `tools/tc-gdbserver/main.c:306` | reading the digits of a number appends it to what was read |
| `Packets.NumberRoundTrip` | `tools/tc-gdbserver/main.c:401-402` | `strtoull` reads back every 64-bit number in hexadecimal |
| `Packets.NumberIs` | `tools/tc-gdbserver/main.c:306` | `strtoull` behind any blanks, a sign and a prefix: a number of 2^64 and more gives 2^64-1, and a minus negates modulo 2^64 |
| `Packets.NoNumberIs` | `tools/tc-gdbserver/main.c:306` | without digits it gives 0 |
| `Packets.DigitsAre` | `tools/tc-gdbserver/main.c:401-402` | the digits of a number are the small hexadecimal ones, the highest first |
| `Packets.NumberField` | `tools/tc-gdbserver/main.c:305-308` | so is one between a head and a separator, and the separator is found |
| `Packets.EscapeRoundTrip` | `tools/tc-gdbserver/main.c:321-324` | unescaping inverts escaping for every byte string and every choice of what else to escape |
| `Packets.FlipIs` | `tools/tc-gdbserver/main.c:323` | the byte behind an escape is stored with exactly bit 5 changed, for every byte |
| `Packets.UnescapeIs` | `tools/tc-gdbserver/main.c:321-324` | decoding, byte by byte: that after `}`, every other byte as it is, and 0x20 for an escape at the very end |
| `Packets.EscapedIsHashFree` | `tools/tc-gdbserver/main.c:302-303` | an escaped payload holds no `#` and no `$`, so frames carry it |
| `TargetMemory.EndCovers` | `tools/common/tcmcd.c:91` | the word loop covers the range when its end does not wrap 2^64, and is empty when it does |
| `TargetMemory.Target.WordIsBytes` | `tools/common/tcmcd.c:95-98` | the byte map has the least significant byte of a word at the lowest address |
| `TargetMemory.Target.ReadStep` | `tools/common/tcmcd.c:91-94` | a read makes one transaction a word and stops at the first that faults |
| `TargetMemory.Target.WriteStep` | `tools/common/tcmcd.c:105-114` | a write makes one transaction for a word whose bytes all lie in the range, and for any other word a read before it; it stops at the first that faults |
| `TargetMemory.Target.Read` | `tools/common/tcmcd.c:90-101` | fills in exactly the bytes of the range below the first word whose read faults, for faults that depend on address and time, and counts the transactions |
| `TargetMemory.Target.MergeWord` | `tools/common/tcmcd.c:109-113` | the bytes of the range replace those of the word, the others stay |
| `TargetMemory.Target.UpdateWord` | `tools/common/tcmcd.c:105-115` | one word, read first when covered in part |
| `TargetMemory.Target.Write` | `tools/common/tcmcd.c:103-117` | changes exactly the bytes of the range below the first word whose update faults; a range that wraps is reported as written and nothing is |
| `TargetMemory.Target.Perform` | `tools/common/tcmcd.c:90-117` | one call is the corresponding step of a byte map with a transaction count, result and faults included, for every range |
| `TargetMemory.Target.PerformAll` | `tools/common/tcmcd.c:90-117` | any run of calls refines the byte map, whichever transactions fault and whichever ranges wrap |
| `TargetMemory.Target.WrappedRead` | `tools/common/tcmcd.c:90-101` | a read whose range wraps 2^64 makes no transaction, succeeds, and returns its buffer as it was |
| `TargetMemory.Target.ReadsBack` | `tools/common/tcmcd.c:90-117` | reading a range just written gives the bytes written, unless that read meets a fault |
| `MemoryPackets.DecodeHex` | `tools/tc-gdbserver/main.c:422-426` | succeeds exactly if every pair is hexadecimal, and then decodes all of them |
| `MemoryPackets.DecodedRoundTrip` | `tools/tc-gdbserver/main.c:422-426` | decoding inverts encoding |
| `MemoryPackets.EncodeHex` | `tools/tc-gdbserver/main.c:408-409` | the reply text of the bytes |
| `MemoryPackets.HandleM` | `tools/tc-gdbserver/main.c:414-430` | a malformed packet changes nothing, any other is a write of the byte map |
| `MemoryPackets.HandleRead` | `tools/tc-gdbserver/main.c:400-412` | a read of at most 8188 bytes, answered in hexadecimal, for every range |
| `MemoryPackets.ReadReplyIs` | `tools/tc-gdbserver/main.c:400-412` | the reply shows the bytes of memory if the range does not wrap 2^64 and no word faults, `E01` on a fault, and what the new buffer happened to hold if the range wraps |
| `MemoryPackets.WritePacketMeans` | `tools/tc-gdbserver/main.c:415-426` | the server reads a client's packet as the address and bytes the client meant |
| `MemoryPackets.ReadPacketMeans` | `tools/tc-gdbserver/main.c:400-405` | likewise for a read of less than 2^32 bytes, up to the cap |
| `MemoryPackets.ReadPacketReads` | `tools/tc-gdbserver/main.c:400-405` | for any length: it is cut to 32 bits, and then to 8188 |
| `MemoryPackets.SeparatorsAreNeeded` | `tools/tc-gdbserver/main.c:402-417` | without a comma a packet reads nothing, and without comma and colon it is no write |
| `MemoryPackets.AnswersAre` | `tools/tc-gdbserver/main.c:407-429` | the answers are `OK`, `E01` and the bytes in hexadecimal |
| `MemoryPackets.WriteThenRead` | `tools/tc-gdbserver/main.c:400-430` | within the cap `m` returns exactly the bytes `M` has just written, or `E01` exactly if its read meets a fault |
| `MemoryPackets.Serve` | `tools/tc-gdbserver/main.c:400-430` | any run of `M` and `m` packets acts as a byte array, whichever transactions fault and whichever ranges wrap |
| `DebugServer.Server.Receive` | `tools/tc-gdbserver/main.c:432-437` | one call of the packet layer gives the next turn of the stream: its packet, its interrupt, or the end, with the replies to spoiled frames |
| `DebugServer.Server.Dispatch` | `tools/tc-gdbserver/main.c:438-458` | the switch: a packet of each modelled kind acts on memory, triggers or flash as its handler's model says and on nothing else, and is answered accordingly; the rows from KindByLetter on say what that is for each packet of a client |
| `DebugServer.Server.ServeTurn` | `tools/tc-gdbserver/main.c:435-458` | one turn takes the chip and everything sent one step further, and ends the loop exactly at the end of the stream, a detach or a kill |
| `DebugServer.Server.Serve` | `tools/tc-gdbserver/main.c:432-460` | over any stream of bytes without run control, with memory, trigger, flash and other packets, interrupts, spoiled frames and rejected replies in any mixture, the chip and everything sent follow the turns of the stream one by one |
| `DebugServer.EndsAsModels` | `tools/tc-gdbserver/main.c:432-460` | in the end memory is the byte array after the memory packets, the live keys are the plain set after the trigger packets and the image is that of the flash packets, however they were mixed |
| `DebugServer.ParseEnds` | `tools/tc-gdbserver/rsp.c:63-93` | a call of the packet layer consumes something, stays in the stream, and replies regardless of what was sent before |
| `DebugServer.FrameIsTurn` | `tools/tc-gdbserver/main.c:432-436` | a good frame behind any number of spoiled ones is the next turn, with a `-` for each of those and a `+` |
| `DebugServer.InterruptIsTurn` | `tools/tc-gdbserver/main.c:437` | so is an interrupt |
| `DebugServer.ClientPacketIsHashFree` | `tools/tc-gdbserver/main.c:400-420` | a client's memory packet holds no `#` |
| `DebugServer.ClientIsAnswered` | `tools/tc-gdbserver/main.c:400-430` | and is answered as the operation it stands for |
| `DebugServer.KindByLetter` | `tools/tc-gdbserver/main.c:438-455` | the first letter selects the handler: `m`, `M`, `Z` and `z`, `T`, `D` and `k` |
| `DebugServer.KindByHead` | `tools/tc-gdbserver/main.c:349-367` | of the packets that start with `v`, those with the heads `vFlashErase:`, `vFlashWrite:` and `vCont;` and the one text `vFlashDone` reach their handlers, and no others |
| `DebugServer.KindOfOthers` | `tools/tc-gdbserver/main.c:438-456` | and the letters that are answered without a modelled handler, or not known at all |
| `DebugServer.HeadsAre` | `tools/tc-gdbserver/main.c:358-366` | the heads `vFlashErase:`, `vFlashWrite:` and `vFlashDone`, and the texts `OK` and `E01` |
| `DebugServer.ErasePacketMeans` | `tools/tc-gdbserver/main.c:358-361` | a client's erase packet reaches its handler with the address and the length the client named |
| `DebugServer.EraseWithoutLength` | `tools/tc-gdbserver/main.c:359-361` | without a comma the length is 0 |
| `DebugServer.ClientErases` | `tools/tc-gdbserver/main.c:358-363` | answered OK, it leaves exactly the sectors that meet `[addr, addr + len)` erased; a range that leaves PFLASH is refused and changes nothing, and on a device that answers any other is answered OK |
| `DebugServer.ClientLoads` | `tools/tc-gdbserver/main.c:364` | a client's load packet starts the image, is laid over it, or is refused below its base |
| `DebugServer.ClientFinishes` | `tools/tc-gdbserver/main.c:365` | `vFlashDone` answered OK has programmed the image, filled up with 0xFF to whole pages, where it belongs, and nothing else; an unaligned base is refused |
| `DebugServer.ClientTriggers` | `tools/tc-gdbserver/main.c:448-449` | a `Z` packet answered OK makes its key live, and no other does; on a reliable device it is refused exactly if sixteen other keys are live; a `z` packet is answered OK and its key is gone |
| `DebugServer.ClientIsTold` | `tools/tc-gdbserver/main.c:451-456` | `T` and `D` are answered OK and an unknown packet is answered with an empty text, and nothing changes |
| `DebugServer.ClientIsRefused` | `tools/tc-gdbserver/main.c:245-247` | an unsupported trigger kind is answered with an empty text, and trigger, write and load packets without their separators with `E01`; nothing changes |
| `DebugServer.LeavesIff` | `tools/tc-gdbserver/main.c:454-455` | the loop ends with a packet that detaches or kills, and with no other |
| `DebugServer.LastTurnSends` | `tools/tc-gdbserver/main.c:454-455` | detaching is answered OK before the loop ends, and killing is not answered |
| `DebugServer.CleanTurnAt` | `tools/tc-gdbserver/main.c:432-459` | a payload that fits, framed and followed by `+`, is the next turn wherever it stands in the stream |
| `DebugServer.CleanTurnSends` | `tools/tc-gdbserver/main.c:432-459` | in such a turn the server sends a `+` and one frame with the answer |
| `DebugServer.OneRequestPlays` | `tools/tc-gdbserver/main.c:432-459` | alone it is a whole stream |
| `MemoryPackets.ReplyIs` | `tools/tc-gdbserver/main.c:283-295` | the chunk at an offset, behind `l` exactly when it reaches the end and behind `m` otherwise |
| `MemoryPackets.ReplyWithoutLength` | `tools/tc-gdbserver/main.c:284-292` | a request without a length gets an empty chunk |
| `MemoryPackets.FetchDocument` | `tools/tc-gdbserver/main.c:283-295` | a client that advances by each chunk rebuilds the document for any positive sizes |
| `MemoryPackets.PutU32Le` | `tools/tc-gdbserver/main.c:43-45` | writes the eight digits of a word and nothing else |
| `MemoryPackets.RegisterTextIs` | `tools/tc-gdbserver/main.c:43-45` | these are the digits of its four bytes, the least significant byte first |
| `MemoryPackets.HexBytesAre` | `tools/tc-gdbserver/main.c:409` | of each byte the high digit first, in small letters |
| `MemoryPackets.GetU32Le` | `tools/tc-gdbserver/main.c:46-50` | joins the four pairs of any eight characters bit by bit, and so reads back the text of any word |
| `MemoryPackets.PairWordIs` | `tools/tc-gdbserver/main.c:48` | a pair of characters is the high digit shifted by 4 and joined with the low one in 32 bits, also when one of them is no digit and counts as -1 |
| `Flash.RangeOkIsInside` | `tools/common/tcmcd.c:138-140` | the range test is containment in the 20 MB from 0xA0000000 on, unless the end wraps 2^64 |
| `Flash.WrappedRangeIsAccepted` | `tools/common/tcmcd.c:138-140` | a range that wraps passes it |
| `Flash.Device.Wait` | `tools/common/tcmcd.c:129-137` | succeeds exactly if one of 200000 status reads finds the array idle and none before it faults |
| `Flash.Device.EraseOne` | `tools/common/tcmcd.c:145-150` | the five register writes of the sequence, and no others, carry out one sector erase, or nothing, and success means it has been seen to end |
| `Flash.Device.Erase` | `tools/common/tcmcd.c:142-152` | the sector erases of the range are carried out in order, all on success and a prefix on failure, and none is issued while another runs |
| `Flash.Device.ProgramOne` | `tools/common/tcmcd.c:163-168` | the fourteen register writes of the sequence, and no others, carry out one page of eight words, or nothing, and success means it has been seen to end |
| `Flash.Device.Program` | `tools/common/tcmcd.c:154-171` | the pages of the data are written in order, all on success and a prefix on failure, none is issued while another runs, and a device that answers is back in read mode, for every range on which the page loop ends |
| `Flash.PagesEndIff` | `tools/common/tcmcd.c:156` | the page loop, with its 32-bit offset, ends if and only if the length is at most 2^32 - 32 |
| `Flash.NoOffsetWrap` | `tools/common/tcmcd.c:156` | below that length the 32-bit offset does not wrap |
| `Flash.EraseIsExact` | `tools/common/tcmcd.c:144-150` | erase touches precisely the sectors that meet a non-empty range |
| `Flash.EraseExactIff` | `tools/common/tcmcd.c:144-150` | for any range it is exact if and only if the range is not empty or starts a sector |
| `Flash.ErasesStayInside` | `tools/common/tcmcd.c:138-150` | every commanded sector lies in PFLASH after rounding |
| `Flash.ProgramsStayInside` | `tools/common/tcmcd.c:154-166` | and every commanded page |
| `Flash.ProgramIsExact` | `tools/common/tcmcd.c:156-168` | program writes precisely the covering pages: the data, then 0xFF |
| `Flash.PageUpIs` | `tools/common/tcmcd.c:156` | the pages are those of 32 bytes that cover the data |
| `Flash.PageWordIs` | `tools/common/tcmcd.c:159-161` | the words of a page hold the data with the first byte the least significant |
| `Flash.ReadsBytes` | `tools/tc-load/main.c:123` | and that is how they read back |
| `VFlash.DoublingEndsIff` | `tools/tc-gdbserver/main.c:315` | for sizes below 2^64 the doubling loop ends exactly up to 2^63 |
| `VFlash.CheckCoversIff` | `tools/tc-gdbserver/main.c:314` | with the size computed modulo 2^64, a capacity that passes the check covers the payload if and only if the size does not wrap; otherwise the payload starts behind the buffer |
| `VFlash.FitsIff` | `tools/tc-gdbserver/main.c:314-315` | the loop ends without such a wrap if and only if the payload ends at 2^63 or below; with it the loop always ends |
| `VFlash.WrappedSizePasses` | `tools/tc-gdbserver/main.c:314` | one byte at offset 2^64-1 is such a payload |
| `VFlash.Decode` | `tools/tc-gdbserver/main.c:320-325` | the payload decoded as UnescapeIs says lies at the offset, the rest of the buffer is as before |
| `VFlash.Loader.Grow` | `tools/tc-gdbserver/main.c:314-319` | room for the escaped length, same image, 0xFF behind it |
| `VFlash.Loader.LayOver` | `tools/tc-gdbserver/main.c:320-326` | the image becomes the overlay of the decoded payload, and every byte behind it stays 0xFF |
| `VFlash.Loader.FlashWrite` | `tools/tc-gdbserver/main.c:311-327` | a packet below the base is refused and changes nothing, any other is laid over the image |
| `VFlash.Loader.FlashWritePacket` | `tools/tc-gdbserver/main.c:304-328` | the same for the packet text |
| `VFlash.Loader.FlashDone` | `tools/tc-gdbserver/main.c:330-334` | the image, cut to a 32-bit length, is programmed and forgotten |
| `VFlash.WritePacketFields` | `tools/tc-gdbserver/main.c:305-309` | the server reads back the address and bytes a client put into a packet |
| `VFlash.LaidLatest` | `tools/tc-gdbserver/main.c:320-326` | each byte of the image is the one of the latest chunk that covers it |
| `VFlash.LaidGap` | `tools/tc-gdbserver/main.c:311-319` | a byte no chunk covers is 0xFF |
| `VFlash.SessionResult` | `tools/tc-gdbserver/main.c:332` | programming the cut image stores the image exactly if it lies in PFLASH |
| `VFlash.Loader.Session` | `tools/tc-gdbserver/main.c:304-334` | a session over blank flash that returns 0 stores the overlay of its payloads exactly if that lies in PFLASH, and touches only its pages; on a device that answers it does return 0 for an aligned base in PFLASH |
| `FlashTool.PaddedFile` | `tools/tc-load/main.c:106-107` | the file, then zeros up to whole pages |
| `FlashTool.ByteErased` | `tools/tc-load/main.c:117` | for a sector-aligned target erase is exact even for an empty file |
| `FlashTool.EraseThenProgram` | `tools/tc-load/main.c:117-119` | erase and program leave the padded file, the rest of its sectors erased, and all else as before |
| `FlashTool.Verify` | `tools/tc-load/main.c:122-123` | passes exactly if every word reads back without a fault, and counts the faults |
| `FlashTool.AllMatchIff` | `tools/tc-load/main.c:123` | every word means each of them, in the transaction that reads it |
| `FlashTool.WantedWordIs` | `tools/tc-load/main.c:123` | and against the little-endian word of the file |
| `FlashTool.FlashFile` | `tools/tc-load/main.c:96-126` | 0 means the flash holds the padded file and every word of it has been read back; 2 exactly for a target outside PFLASH or not at the start of a sector; on a device that answers, an acceptable target succeeds exactly if the file fits |
| `Triggers.LiveFires` | `tools/tc-gdbserver/main.c:211-240` | whenever table and device are in step, every live key has a trigger of its own on the device that stops at what it asks for |
| `Triggers.Inserted` | `tools/tc-gdbserver/main.c:225-228` | recording a new trigger keeps table and device in step and adds the key |
| `Triggers.Deleted` | `tools/tc-gdbserver/main.c:233-239` | clearing a slot keeps them in step, with the trigger gone or left behind |
| `Triggers.CountKeys` | `tools/tc-gdbserver/main.c:227-229` | the table is full exactly if it holds sixteen keys |
| `Triggers.Stub.FindFree` | `tools/tc-gdbserver/main.c:227-228` | finds a free slot exactly if fewer than sixteen keys are live |
| `Triggers.Stub.TrigSet` | `tools/tc-gdbserver/main.c:196-230` | inserts the key, idempotently, with one trigger at its address, of its range, that stops the core at exactly the accesses its kind asks for; or fails and changes no key; a full table leaks the new trigger |
| `Triggers.Stub.TrigClear` | `tools/tc-gdbserver/main.c:232-240` | removes the key, idempotently |
| `Triggers.Stub.Handle` | `tools/tc-gdbserver/main.c:243-264` | the packets with their replies, refining a plain set |
| `Triggers.Stub.Serve` | `tools/tc-gdbserver/main.c:211-264` | over any run the live keys are those the replies tell a client, and table and device stay in bijection apart from leaks; on a reliable device nothing leaks exactly as long as the set fits, and then keys and replies are those of a plain set |
| `Triggers.ClientPacketFields` | `tools/tc-gdbserver/main.c:243-254` | the key a client sends is read back, and the range: the length cut to 32 bits less one for a watchpoint |
| `Triggers.WithoutLength` | `tools/tc-gdbserver/main.c:249-253` | a packet without a length is about one address |
| `Triggers.SupportedIff` | `tools/tc-gdbserver/main.c:197-205` | the supported kinds are those that ask for some access: fetch, load or store |
| `Triggers.InsertionWatches` | `tools/tc-gdbserver/main.c:248-254` | the new trigger for an insertion packet watches exactly the bytes the client named, or one address for a breakpoint |
| `Triggers.ClientChanges` | `tools/tc-gdbserver/main.c:243-264` | an insertion answered OK adds its key to the plain set, a removal takes it out |
| `Triggers.OthersAreRefused` | `tools/tc-gdbserver/main.c:244-247` | a kind other than 0 to 4 is answered with an empty packet, and one of these without a comma with an error |
| `CsaList.Link` | `bsp/tc4d7/crt0.c:59-60` | the link word is the segment above the area number |
| `CsaList.LinkableIff` | `bsp/tc4d7/crt0.c:59-60` | following a link word leads back to the area exactly for 64-byte-aligned addresses with bits 27:22 zero, other than 0 |
| `CsaList.Core.BuildList` | `bsp/tc4d7/crt0.c:55-65` | the whole memory, FCX and LCX after the loop, for any number of areas from none on; a walk from FCX visits all areas once, ascending, exactly on a region that qualifies, and there meets LCX after exactly num-3 links |
| `CsaList.WalkIff` | `bsp/tc4d7/crt0.c:58-65` | a walk from any area visits the rest in order and ends exactly if all of them survive the encoding |
| `CsaList.RegionIff` | `bsp/tc4d7/crt0.c:59-60` | they do exactly if the region is aligned, not at 0, and within the low 4 MiB of one segment |
| `CsaList.FreeListIff` | `bsp/tc4d7/crt0.c:55-65` | a chained list visits all areas once, ascending, and ends, exactly on such a region |
| `CsaList.LimitReached` | `bsp/tc4d7/crt0.c:62` | LCX is met after exactly num-3 links |
| `CsaList.SecondaryRegion` | `bsp/tc4d7/smp.c:49-50` | the fixed region of the secondary cores qualifies and holds 48 areas |
| `CsaList.Core.CopyData` | `bsp/tc4d7/crt0.c:69-70` | the data words are those of the load image, all else as before |
| `CsaList.Core.ClearBss` | `bsp/tc4d7/crt0.c:71-72` | the bss words are zero, all else as before |
| `CsaList.Core.Start` | `bsp/tc4d7/crt0.c:54-72` | list, data and bss are in place together, the free list is walkable from FCX exactly on a region that qualifies, and nothing else has changed |
| `Can.Pack` | `bsp/tc4d7/can.c:97-102` | the two words are the little-endian values of the bytes |
| `Can.PackRoundTrip` | `bsp/tc4d7/can.c:131-135` | unpacking gives the bytes back |
| `Can.ElementHolds` | `bsp/tc4d7/can.c:124-135` | a receive element is read as its frame, whatever flags, timestamp and spare bytes it carries |
| `Can.Node.Transmit` | `bsp/tc4d7/can.c:76-82` | loopback appends the transmitted frame to the FIFO, or loses it and sets the lost flag when that is full, and leaves the head of the FIFO alone |
| `Can.Node.CanSend` | `bsp/tc4d7/can.c:93-114` | for a controller that acts by itself before every access: 0 exactly if the transmission it waits for ends within its polls; what its request finds is determined for every state before, and that transmission is of its own frame, with its 11-bit id and at most 8 bytes, unless an earlier one has started and not ended; one that starts while the buffer is rewritten is of a mixture of both frames; a frame not pending at the call is queued if there is room |
| `Can.Node.CanRecv` | `bsp/tc4d7/can.c:116-139` | the oldest frame leaves the queue, or 1 if it is empty; a pending frame may arrive meanwhile and is then the one received if the queue was empty |
| `Can.Node.Run` | `bsp/tc4d7/can.c:93-139` | over any run of sends and receives the frames received are those that left the FIFO, in order; if no send is called while a transmission is outstanding, as when all but the last return 0 on an idle node, the frames transmitted, with the one still pending, are exactly those sent, each once and in order, so a timed-out frame is final only while it stays pending; a node that always answers in time is a queue of two |
| `Can.NothingLostOrMadeUp` | `bsp/tc4d7/can.c:93-139` | received frames and queue together are the frames that entered the FIFO, in order |
| `Can.AllArriveIff` | `bsp/tc4d7/can.c:110-112` | every frame whose transmission ended has entered the FIFO if and only if none ended while it was full |
| `Can.ReportsAnotherFrame` | `bsp/tc4d7/can.c:104-113` | a send that returns 0 although its frame is never transmitted: the one before it, which had timed out, ends while it polls |
| `TimerTick.StepKeeps` | `bsp/tc4d7/irq.c:49-54` | every tick and every access of the handler keeps the compare value at the next match |
| `TimerTick.TickNeverDrifts` | `bsp/tc4d7/irq.c:49-70` | if every match is served within one interval, between handler runs CMP0 is start plus (ticks+1) intervals and the ticks counted since arming are the whole intervals elapsed less a pending one, across any wraps and from any earlier count |
| `TimerTick.ServiceIff` | `bsp/tc4d7/irq.c:51-52` | serving a match leaves things in order if and only if it is cleared less than one interval after it happened |
| `TimerTick.MissedMatchWaitsAWrap` | `bsp/tc4d7/irq.c:51` | a compare value left behind is not met before the counter wraps |
| `TimerTick.Stm.TimerTickInit` | `bsp/tc4d7/irq.c:56-70` | from any tick count and for any interval, the tick is in order if and only if it is armed within the first interval |
| `TimerTick.Stm.StmIsr` | `bsp/tc4d7/irq.c:49-54` | one more tick, one interval ahead, in order if cleared in time and behind the counter otherwise |
| `Delays.Clock.TcDelayTicks` | `bsp/tc4d7/timing.c:15-21` | for any gaps between polls on which the loop ends: never early, and over at the first poll that shows the ticks; late by less than the last gap when polls are at most 2^32 - ticks apart |
| `Delays.Clock.TcDelayUs` | `bsp/tc4d7/timing.c:23-26` | for delays up to 85387023 microseconds early by less than one tick at most, and late by at most the last gap under the same bound |
| `Delays.Clock.TcDelayMs` | `bsp/tc4d7/timing.c:28-33` | never early, and late by at most two gaps for each millisecond under the same bound |
| `Delays.Difference` | `bsp/tc4d7/timing.c:18` | the 32-bit subtraction is the elapsed time modulo 2^32 |
| `Delays.UsTicksExactIff` | `bsp/tc4d7/timing.c:25` | the tick count is exact to one tick if and only if the delay is at most 85387023 microseconds |
| `Delays.EndsIff` | `bsp/tc4d7/timing.c:18` | the loop is sure to end if and only if polls come at most 2^32 - ticks apart |

## Left out

- PpuHost.Link.PpuCall: images are counted in whole words and must leave the command word 0 (see SilentIff for all others). The counted words end below 2^32. Faulting status reads are admitted as far as they hide no lost resume request (see Resume for those that do). Only the checksum kernel is modelled.
- PpuHost.Link.LoadRun: the reset handshake of the PPU is one step, and register writes other than resume requests, whose link errors `ppu.c` ignores, always get through.
- PpuHost.Link.AwaitHalt: pauses are step counts, not microseconds.
- Can.Node.Run: `can_init` and a bus with other nodes; a transmission takes the buffer as it is when it starts.
- Flash.Device.Program: lengths on which the page loop does not end (see PagesEndIff).
- Delays.Clock.TcDelayTicks: gaps on which the loop does not end (see EndsIff).
- VFlash.Loader.FlashWrite: payloads that end above 2^63, for which the doubling loop does not end or the stores miss the buffer (see FitsIff and CheckCoversIff), and failing allocations; so also FlashWritePacket, Grow and Session.
- DebugServer.Server.Serve: streams with run control (`c`, `s`, `vCont;`), which lets the cores change memory, and with `H`, after which memory is seen through another core. The texts of `?`, `g`, `G`, `p`, `P`, `q`, the other `v` packets and stop replies are arbitrary, and those packets change nothing that is modelled. Flash packets on which a loop of the loader does not end are left out as above.
- FlashTool.FlashFile: files of 4 GiB and more, and the built-in test pattern used without a file.
- CsaList.Core.Start: watchdogs, control-register barriers and the call of `main`.
- `core_start` and `core_start_c`: a range check and two register writes.
- Sockets that fail on a write, argument parsing, printing and exit codes of the tools.
- `tc_micros` and `tc_millis`: single expressions over one counter read.
- The other drivers (ADC, PWM, GPIO, SPI, I2C, UART, DMA, data flash, clocks): register writes whose effect is in the silicon.
- Caches and weak memory ordering: shared memory is sequentially consistent.
