/**
 * PFLASH behind its command interface, and `tcmcd_flash_erase` and
 * `tcmcd_flash_program` over it.  The device carries out a command when the last
 * write of its sequence arrives; `log` is the history of commands carried out.
 */
module Flash {
  import opened Words

  const FPAGE: int := 32
  const FLASH_MIN: int := 0xA000_0000
  const FLASH_MAX: int := 0xA140_0000
  const SECTOR: int := 0x4000
  const WAIT_POLLS: nat := 200000

  /** A cell programmed twice without an erase in between holds nothing dependable. */
  datatype Cell = Erased | Holds(b: Byte) | Worn

  type Cells = int -> Cell

  /** What a cell reads as; one that holds nothing dependable reads as noise. */
  function CellByte(c: Cell, noise: Byte): Byte {
    if c.Holds? then c.b else noise
  }

  function ReadsAs(cells: Cells, a: int, noise: int -> Byte): Word {
    WordOf(CellByte(cells(a), noise(a)), CellByte(cells(a + 1), noise(a + 1)),
           CellByte(cells(a + 2), noise(a + 2)), CellByte(cells(a + 3), noise(a + 3)))
  }

  /** Four cells that hold bytes read as a word, the first byte the least significant. */
  lemma ReadsBytes(cells: Cells, a: int, noise: int -> Byte, b0: Byte, b1: Byte, b2: Byte, b3: Byte)
    requires cells(a) == Holds(b0) && cells(a + 1) == Holds(b1)
    requires cells(a + 2) == Holds(b2) && cells(a + 3) == Holds(b3)
    ensures ReadsAs(cells, a, noise) == b0 + 0x100 * b1 + 0x1_0000 * b2 + 0x100_0000 * b3
  {
    WordSum(b0, b1, b2, b3);
  }

  datatype Command = EraseSectors(addr: Word, count: nat) | WritePage(addr: Word, words: seq<Word>)

  function Execute(cells: Cells, c: Command): Cells {
    match c
    case EraseSectors(a, n) => x => if a <= x < a + n * SECTOR then Erased else cells(x)
    case WritePage(a, ws) =>
      x => if a <= x < a + 4 * |ws|
           then (if cells(x).Erased? then Holds(ByteOf(ws[(x - a) / 4], (x - a) % 4)) else Worn)
           else cells(x)
  }

  function ExecuteAll(cells: Cells, cs: seq<Command>): Cells {
    if cs == [] then cells else Execute(ExecuteAll(cells, cs[..|cs| - 1]), cs[|cs| - 1])
  }

  /** The command interface between writes. */
  datatype Control = Control(paging: bool, page: seq<Word>, addr: Word, count: Word, opcode: Word)

  /** What a register write does to the interface; registers are named by their offset from its base. */
  function Latch(k: Control, offset: int, v: Word): Control {
    if offset == 0x5554 then
      (if v == 0x50 then k.(paging := true, page := []) else if v == 0xF0 then k.(paging := false) else k.(opcode := 0))
    else if offset == 0x55F4 then k.(page := k.page + [v])
    else if offset == 0xAA50 then k.(addr := v)
    else if offset == 0xAA58 then k.(count := v)
    else if offset == 0xAAA8 then k.(opcode := v)
    else k
  }

  /** The command a register write completes, if any. */
  function Completes(k: Control, offset: int, v: Word): Option<Command> {
    if offset == 0xAAA8 && v == 0x50 && k.opcode == 0x80 then Some(EraseSectors(k.addr, k.count))
    else if offset == 0xAAA8 && v == 0xAA && k.opcode == 0xA0 && k.paging && k.count == 0 && |k.page| == 8
    then Some(WritePage(k.addr, k.page))
    else None
  }

  /** A register write: the offset of the register, and the value. */
  datatype Write = Write(offset: int, v: Word)

  /** The writes that erase one sector. */
  function EraseWrites(s: Word): seq<Write> {
    [Write(0x5554, 0xFA), Write(0xAA50, s), Write(0xAA58, 1), Write(0xAAA8, 0x80), Write(0xAAA8, 0x50)]
  }

  function WordWrites(ws: seq<Word>): seq<Write> {
    seq(|ws|, (i: nat) requires i < |ws| => Write(0x55F4, ws[i]))
  }

  /** The writes that program one page. */
  function PageWrites(addr: Word, ws: seq<Word>): seq<Write> {
    [Write(0x5554, 0xFA), Write(0x5554, 0x50)] + WordWrites(ws)
    + [Write(0xAA50, addr), Write(0xAA58, 0), Write(0xAAA8, 0xA0), Write(0xAAA8, 0xAA)]
  }

  lemma Rejoin<T>(a: seq<T>, b: seq<T>, c: seq<T>)
    ensures a + b + c == a + (b + c)
  {
  }

  lemma FourWrites(b: seq<Write>, w0: Write, w1: Write, w2: Write, w3: Write)
    ensures b + [w0] + [w1] + [w2] + [w3] == b + [w0, w1, w2, w3]
  {
  }

  lemma WordWritesMore(b: seq<Write>, head: seq<Write>, ws: seq<Word>, w: Word)
    ensures b + (head + WordWrites(ws)) + [Write(0x55F4, w)] == b + (head + WordWrites(ws + [w]))
  {
    assert WordWrites(ws) + [Write(0x55F4, w)] == WordWrites(ws + [w]);
  }

  lemma PageWritesAre(b: seq<Write>, addr: Word, ws: seq<Word>)
    ensures b + ([Write(0x5554, 0xFA), Write(0x5554, 0x50)] + WordWrites(ws))
              + [Write(0xAA50, addr), Write(0xAA58, 0), Write(0xAAA8, 0xA0)] + [Write(0xAAA8, 0xAA)]
         == b + PageWrites(addr, ws)
  {
  }

  /** The range test, in 64-bit arithmetic. */
  predicate RangeOk(addr: nat, len: nat) {
    addr >= FLASH_MIN && (addr + len) % DOUBLES <= FLASH_MAX
  }

  predicate Inside(addr: nat, len: nat) {
    FLASH_MIN <= addr && addr + len <= FLASH_MAX
  }

  /** The range test is containment in the 20 MB from 0xA0000000 on exactly when the end does not wrap. */
  lemma RangeOkIsInside(addr: nat, len: nat)
    requires addr < DOUBLES && len < DOUBLES
    ensures Inside(addr, len) <==> 0xA000_0000 <= addr && addr + len <= 0xA000_0000 + 20 * 0x10_0000
    ensures addr + len < DOUBLES ==> (RangeOk(addr, len) <==> Inside(addr, len))
    ensures addr + len >= DOUBLES ==> !Inside(addr, len)
  {
  }

  lemma WrappedRangeIsAccepted()
    ensures RangeOk(0xFFFF_FFFF_FFFF_FFE0, 0x40) && !Inside(0xFFFF_FFFF_FFFF_FFE0, 0x40)
  {
  }

  /** Sectors are whole pages. */
  lemma SectorIsPageAligned(a: nat)
    requires a % SECTOR == 0
    ensures a % FPAGE == 0
  {
    var k := a / SECTOR;
    assert a == k * SECTOR == (512 * k) * FPAGE;
  }

  // ----- Erase ------------------------------------------------------------------

  function SectorOf(x: int): (s: int)
    ensures s <= x < s + 0x4000 && s % 0x4000 == 0
  {
    x - x % SECTOR
  }

  /** The erase commands from sector `s` on. */
  function Erases(s: nat, end: int): seq<Command>
    decreases end - s
  {
    if s >= end then [] else [EraseSectors(s % WORDS, 1)] + Erases(s + SECTOR, end)
  }

  /** Byte `x` lies in a sector that meets `[addr, addr + len)`. */
  predicate Meets(x: int, addr: nat, len: nat) {
    exists y :: addr <= y < addr + len && SectorOf(y) == SectorOf(x)
  }

  // ----- Program -----------------------------------------------------------------

  function Padded(data: seq<Byte>, i: nat): Byte {
    if i < |data| then data[i] else 0xFF
  }

  function PageWord(data: seq<Byte>, off: nat): Word {
    WordOf(Padded(data, off), Padded(data, off + 1), Padded(data, off + 2), Padded(data, off + 3))
  }

  /** A word of a page is four bytes of the data, the first one the least significant. */
  lemma PageWordIs(data: seq<Byte>, off: nat)
    requires off + 4 <= |data|
    ensures var b: seq<int> := data[off..off + 4];
            PageWord(data, off) == b[0] + 0x100 * b[1] + 0x1_0000 * b[2] + 0x100_0000 * b[3]
  {
    WordSum(data[off], data[off + 1], data[off + 2], data[off + 3]);
  }

  function PageWords(data: seq<Byte>, off: nat, n: nat): (ws: seq<Word>)
    ensures |ws| == n
  {
    seq(n, (i: nat) => PageWord(data, off + 4 * i))
  }

  /** The page commands from offset `off` on. */
  function Programs(addr: nat, data: seq<Byte>, off: nat): seq<Command>
    decreases |data| - off
  {
    if off >= |data| then []
    else [WritePage((addr + off) % WORDS, PageWords(data, off, 8))] + Programs(addr, data, off + FPAGE)
  }

  // ----- The device and the two operations -----------------------------------------

  class Device {
    var cells: Cells
    var control: Control
    var ticks: nat                  // transactions so far
    ghost var log: seq<Command>
    ghost var bus: seq<Write>       // the register writes that have arrived
    ghost var running: bool         // a command has not been seen to end
    ghost var clash: bool           // a command arrived while another was running
    const faults: nat -> bool       // whether a transaction fails
    const busy: nat -> bool         // whether a status read shows the array busy

    constructor (cells: Cells, faults: nat -> bool, busy: nat -> bool)
      ensures this.cells == cells && log == [] && this.faults == faults && this.busy == busy && Orderly()
    {
      this.cells, control, ticks, log, bus := cells, Control(false, [], 0, 0, 0), 0, [], [];
      running, clash := false, false;
      this.faults, this.busy := faults, busy;
    }

    /** Some of the next status reads finds the array idle. */
    ghost predicate IdleSoon(t: nat) {
      exists u: nat :: t <= u < t + 200_000 && !busy(u)
    }

    /** No transaction faults, and no operation outlasts the wait. */
    ghost predicate Ready() {
      (forall t: nat :: !faults(t)) && forall t: nat :: IdleSoon(t)
    }

    /** No command is running, and none was ever issued while another was. */
    ghost predicate Orderly()
      reads this
    {
      !running && !clash
    }

    /** Within the wait a status read finds the array idle, and none faults before. */
    ghost predicate SeesIdle(t: nat) {
      exists u: nat :: t <= u < t + 200_000 && !busy(u) && NoFaults(t, u)
    }

    ghost predicate NoFaults(t: nat, u: nat) {
      forall i: nat :: t <= i <= u ==> !faults(i)
    }

    /** A register write: it reaches the device unless the link faults. */
    method W32(offset: int, v: Word) returns (ok: bool)
      modifies this
      ensures ticks == old(ticks) + 1 && ok == !faults(old(ticks))
      ensures Ready() ==> ok
      ensures !ok ==> cells == old(cells) && control == old(control) && log == old(log)
      ensures bus == if ok then old(bus) + [Write(offset, v)] else old(bus)
      ensures ok ==> control == Latch(old(control), offset, v)
      ensures ok ==> match Completes(old(control), offset, v)
                     case None => cells == old(cells) && log == old(log)
                     case Some(c) => cells == Execute(old(cells), c) && log == old(log) + [c]
      ensures running == (old(running) || (ok && Completes(old(control), offset, v).Some?))
      ensures clash == (old(clash) || (old(running) && ok && Completes(old(control), offset, v).Some?))
    {
      ticks := ticks + 1;
      if faults(ticks - 1) {
        return false;
      }
      var done := Completes(control, offset, v);
      if done.Some? {
        cells := Execute(cells, done.value);
        log := log + [done.value];
        clash := clash || running;
        running := true;
      }
      control, bus := Latch(control, offset, v), bus + [Write(offset, v)];
      return true;
    }

    /** A word read back from the array, little-endian. */
    method R32(a: int, noise: int -> Byte) returns (ok: bool, v: Word)
      modifies this`ticks
      ensures ticks == old(ticks) + 1 && ok == !faults(old(ticks))
      ensures ok ==> v == ReadsAs(cells, a, noise)
    {
      ticks := ticks + 1;
      return !faults(ticks - 1), ReadsAs(cells, a, noise);
    }

    /** Poll the status until the array is idle. */
    method Wait() returns (ok: bool)
      modifies this`ticks, this`running
      ensures ok <==> SeesIdle(old(ticks))
      ensures Ready() ==> ok
      ensures running == (!ok && old(running))
    {
      ok := false;
      ghost var t := ticks;
      assert Ready() ==> IdleSoon(t);
      for i := 0 to WAIT_POLLS
        invariant ticks == t + i && running == old(running)
        invariant forall u: nat :: t <= u < t + i ==> busy(u) && !faults(u)
      {
        ticks := ticks + 1;
        if faults(ticks - 1) {
          return false;
        }
        if !busy(ticks - 1) {
          assert NoFaults(t, t + i);
          running := false;
          return true;
        }
      }
      return false;
    }

    /** The device has carried out exactly the commands `cs` since then. */
    ghost predicate Did(cells0: Cells, log0: seq<Command>, cs: seq<Command>)
      reads this
    {
      log == log0 + cs && cells == ExecuteAll(cells0, cs)
    }

    lemma DidNothing()
      ensures Did(cells, log, [])
    {
      assert log + [] == log;
    }

    lemma DidMore(cells0: Cells, log0: seq<Command>, cs: seq<Command>, c: Command)
      requires log == (log0 + cs) + [c] && cells == Execute(ExecuteAll(cells0, cs), c)
      ensures Did(cells0, log0, cs + [c])
    {
      assert (cs + [c])[..|cs|] == cs;
      assert (log0 + cs) + [c] == log0 + (cs + [c]);
    }

    /** The first four writes of an erase. */
    method SetUpErase(s: Word) returns (ok: bool)
      modifies this
      ensures cells == old(cells) && log == old(log) && running == old(running) && clash == old(clash)
      ensures ok ==> control.addr == s && control.count == 1 && control.opcode == 0x80
      ensures ok ==> bus == old(bus) + EraseWrites(s)[..4]
      ensures Ready() ==> ok
    {
      ghost var b := bus;
      ok := W32(0x5554, 0xFA);
      if ok { ok := W32(0xAA50, s); }
      if ok { ok := W32(0xAA58, 1); }
      if ok { ok := W32(0xAAA8, 0x80); }
      FourWrites(b, Write(0x5554, 0xFA), Write(0xAA50, s), Write(0xAA58, 1), Write(0xAAA8, 0x80));
    }

    /** One sector: the five writes and the wait. */
    method EraseOne(s: nat, ghost cells0: Cells, ghost log0: seq<Command>, ghost cs: seq<Command>) returns (ok: bool)
      requires Did(cells0, log0, cs)
      modifies this
      ensures Did(cells0, log0, cs + [EraseSectors(s % WORDS, 1)]) || (!ok && Did(cells0, log0, cs))
      ensures ok ==> bus == old(bus) + EraseWrites(s % WORDS)
      ensures old(Orderly()) ==> if ok then Orderly() else !clash
      ensures Ready() ==> ok
    {
      ghost var b := bus;
      ok := SetUpErase(s % WORDS);
      if !ok { return; }
      ok := W32(0xAAA8, 0x50);
      if ok {
        Rejoin(b, EraseWrites(s % WORDS)[..4], [Write(0xAAA8, 0x50)]);
        DidMore(cells0, log0, cs, EraseSectors(s % WORDS, 1));
        ok := Wait();
      }
    }

    /** Erases the covering sectors in order, or stops after a prefix of them. */
    method Erase(addr: nat, len: nat) returns (rc: int, ghost n: nat)
      requires addr < DOUBLES && len < DOUBLES
      modifies this
      ensures !RangeOk(addr, len) ==> rc == -1 && n == 0
      ensures Progress(old(cells), old(log), EraseList(addr, len), n, rc)
      ensures RangeOk(addr, len) && Ready() ==> rc == 0
      ensures old(Orderly()) ==> if rc == 0 then Orderly() else !clash
    {
      DidNothing();
      n := 0;
      ghost var all := EraseList(addr, len);
      assert all[..0] == [];
      if !RangeOk(addr, len) {
        return -1, 0;
      }
      var end := (addr + len) % DOUBLES;
      var s := SectorOf(addr);
      while s < end
        invariant s >= 0 && n <= |all| && all[n..] == Erases(s, end)
        invariant Did(old(cells), old(log), all[..n]) && (old(Orderly()) ==> Orderly())
        decreases end - s
      {
        NextOf(all, n);
        var ok := EraseOne(s, old(cells), old(log), all[..n]);
        if !ok {
          return -1, if Did(old(cells), old(log), all[..n]) then n else n + 1;
        }
        s := s + SECTOR;
        n := n + 1;
      }
      rc := 0;
    }

    /** The first `n` commands of `all` have been carried out: all of them on success. */
    ghost predicate Progress(cells0: Cells, log0: seq<Command>, all: seq<Command>, n: nat, rc: int)
      reads this
    {
      && n <= |all| && Did(cells0, log0, all[..n])
      && (rc == -1 || (rc == 0 && n == |all|))
    }

    /** Page mode, and the words of a page. */
    method LoadPage(ws: seq<Word>) returns (ok: bool)
      modifies this
      ensures cells == old(cells) && log == old(log) && running == old(running) && clash == old(clash)
      ensures ok ==> control.paging && control.page == ws
      ensures ok ==> bus == old(bus) + ([Write(0x5554, 0xFA), Write(0x5554, 0x50)] + WordWrites(ws))
      ensures Ready() ==> ok
    {
      ghost var head := [Write(0x5554, 0xFA), Write(0x5554, 0x50)];
      ok := W32(0x5554, 0xFA);
      if ok { ok := W32(0x5554, 0x50); }
      if !ok { return; }
      assert bus == old(bus) + (head + WordWrites(ws[..0]));
      for i := 0 to |ws|
        invariant cells == old(cells) && log == old(log) && running == old(running) && clash == old(clash)
        invariant control.paging && control.page == ws[..i] && bus == old(bus) + (head + WordWrites(ws[..i]))
      {
        ok := W32(0x55F4, ws[i]);
        if !ok { return; }
        SliceNext(ws, 0, i);
        WordWritesMore(old(bus), head, ws[..i], ws[i]);
      }
      assert ws[..|ws|] == ws;
    }

    /** The address of the page, and the first of the two command writes. */
    method AimPage(addr: Word) returns (ok: bool)
      modifies this
      ensures cells == old(cells) && log == old(log) && running == old(running) && clash == old(clash)
      ensures control.paging == old(control.paging) && control.page == old(control.page)
      ensures ok ==> control.addr == addr && control.count == 0 && control.opcode == 0xA0
      ensures ok ==> bus == old(bus) + [Write(0xAA50, addr), Write(0xAA58, 0), Write(0xAAA8, 0xA0)]
      ensures Ready() ==> ok
    {
      ok := W32(0xAA50, addr);
      if ok { ok := W32(0xAA58, 0); }
      if ok { ok := W32(0xAAA8, 0xA0); }
    }

    /** One page: page mode, eight words, the address and the write sequence, and the wait. */
    method ProgramOne(addr: Word, ws: seq<Word>, ghost cells0: Cells, ghost log0: seq<Command>, ghost cs: seq<Command>)
      returns (ok: bool)
      requires |ws| == 8 && Did(cells0, log0, cs)
      modifies this
      ensures Did(cells0, log0, cs + [WritePage(addr, ws)]) || (!ok && Did(cells0, log0, cs))
      ensures ok ==> bus == old(bus) + PageWrites(addr, ws)
      ensures old(Orderly()) ==> if ok then Orderly() else !clash
      ensures Ready() ==> ok
    {
      ghost var b := bus;
      ok := LoadPage(ws);
      if ok { ok := AimPage(addr); }
      if !ok { return; }
      ok := W32(0xAAA8, 0xAA);
      if ok {
        PageWritesAre(b, addr, ws);
        DidMore(cells0, log0, cs, WritePage(addr, ws));
        ok := Wait();
      }
    }

    /** Programs the covering pages in order, the last one filled up with 0xFF, or stops after a prefix of them. */
    method Program(addr: nat, data: seq<Byte>) returns (rc: int, ghost n: nat)
      requires addr < DOUBLES && |data| < WORDS && ProgramEnds(addr, |data|)
      modifies this
      ensures !RangeOk(addr, |data|) || addr % FPAGE != 0 ==> rc == -1 && n == 0
      ensures Progress(old(cells), old(log), Programs(addr, data, 0), n, rc)
      ensures RangeOk(addr, |data|) && addr % FPAGE == 0 && Ready() ==> rc == 0 && !control.paging
      ensures old(Orderly()) ==> if rc == 0 then Orderly() else !clash
    {
      DidNothing();
      n := 0;
      ghost var all := Programs(addr, data, 0);
      assert all[..0] == [];
      if !RangeOk(addr, |data|) || addr % FPAGE != 0 {
        return -1, 0;
      }
      PagesEndIff(|data|);
      var off := 0;
      while off < |data|
        invariant off % FPAGE == 0 && n <= |all| && all[n..] == Programs(addr, data, off)
        invariant Did(old(cells), old(log), all[..n]) && (old(Orderly()) ==> Orderly())
        decreases |data| - off
      {
        NextOf(all, n);
        var ok := ProgramOne((addr + off) % WORDS, PageWords(data, off, 8), old(cells), old(log), all[..n]);
        if !ok {
          return -1, if Did(old(cells), old(log), all[..n]) then n else n + 1;
        }
        NoOffsetWrap(|data|, off);
        off := (off + FPAGE) % WORDS;
        n := n + 1;
      }
      ghost var cells1, log1 := cells, log;
      var back := W32(0x5554, 0xF0);
      assert cells == cells1 && log == log1;
      rc := 0;
    }
  }

  /** The next of the commands. */
  lemma NextOf(all: seq<Command>, n: nat)
    requires n < |all|
    ensures all[n] == all[n..][0] && all[..n + 1] == all[..n] + [all[n]] && all[n + 1..] == all[n..][1..]
  {
  }

  /** The offset after `n` turns of the page loop, in 32-bit arithmetic. */
  function PageOffset(n: nat): nat {
    if n == 0 then 0 else (PageOffset(n - 1) + FPAGE) % WORDS
  }

  /** The page loop reaches the end of the data. */
  ghost predicate PagesEnd(len: nat) {
    exists n: nat :: PageOffset(n) >= len
  }

  lemma {:induction false} OffsetStaysLow(n: nat)
    ensures PageOffset(n) <= WORDS - FPAGE && PageOffset(n) % FPAGE == 0
  {
    if n > 0 {
      OffsetStaysLow(n - 1);
    }
  }

  lemma {:induction false} OffsetReaches(n: nat)
    requires n * FPAGE <= WORDS - FPAGE
    ensures PageOffset(n) == n * FPAGE
  {
    if n > 0 {
      OffsetReaches(n - 1);
    }
  }

  /** It does exactly for lengths up to 2^32 - 32. */
  lemma PagesEndIff(len: nat)
    ensures PagesEnd(len) <==> len <= WORDS - FPAGE
  {
    if len <= WORDS - FPAGE {
      var n := (len + FPAGE - 1) / FPAGE;
      OffsetReaches(n);
      assert PageOffset(n) >= len;
    } else {
      forall n: nat
        ensures PageOffset(n) < len
      {
        OffsetStaysLow(n);
      }
    }
  }

  /** The program call ends: it refuses the range, or its page loop ends. */
  ghost predicate ProgramEnds(addr: nat, len: nat) {
    RangeOk(addr, len) && addr % FPAGE == 0 ==> PagesEnd(len)
  }

  /** Only a range that wraps 2^64 can keep it from ending. */
  lemma InsideEnds(addr: nat, len: nat)
    requires addr + len < DOUBLES
    ensures ProgramEnds(addr, len)
  {
    PagesEndIff(len);
  }

  lemma NoOffsetWrap(len: nat, off: nat)
    requires len <= WORDS - FPAGE && off < len && off % FPAGE == 0
    ensures (off + FPAGE) % WORDS == off + FPAGE && (off + FPAGE) % FPAGE == 0
  {
  }

  /** The erase commands for a range. */
  function EraseList(addr: nat, len: nat): seq<Command> {
    Erases(SectorOf(addr), (addr + len) % DOUBLES)
  }

  // ----- What the commands amount to ------------------------------------------------

  /** Every sector that meets the range is erased, and nothing else is touched. */
  lemma {:induction false} ErasesCells(cells: Cells, s: nat, end: nat, n: nat, x: int)
    requires s % SECTOR == 0 && end <= WORDS && n <= |Erases(s, end)|
    ensures ExecuteAll(cells, Erases(s, end)[..n])(x)
         == if s <= x < s + n * SECTOR then Erased else cells(x)
  {
    if n > 0 {
      var all := Erases(s, end);
      assert all[..n][..n - 1] == all[..n - 1];
      ErasesAt(s, end, n - 1);
      ErasesCells(cells, s, end, n - 1, x);
    }
  }

  lemma {:induction false} ErasesAt(s: nat, end: int, i: nat)
    requires i < |Erases(s, end)|
    ensures Erases(s, end)[i] == EraseSectors((s + i * SECTOR) % WORDS, 1)
    ensures s + i * SECTOR < end
    decreases i
  {
    if i > 0 {
      ErasesAt(s + SECTOR, end, i - 1);
    }
  }

  lemma {:induction false} ErasesCount(s: nat, end: nat)
    requires s % SECTOR == 0
    ensures var n := |Erases(s, end)|;
            if s >= end then n == 0 else s + (n - 1) * SECTOR < end <= s + n * SECTOR
    decreases end - s
  {
    if s < end {
      ErasesCount(s + SECTOR, end);
    }
  }

  /** For a non-empty range in PFLASH, erase touches precisely the sectors meeting it. */
  lemma EraseIsExact(cells: Cells, addr: nat, len: nat, x: int)
    requires Inside(addr, len) && len > 0
    ensures ExecuteAll(cells, EraseList(addr, len))(x) == if Meets(x, addr, len) then Erased else cells(x)
  {
    hide ExecuteAll, Erases;
    var s, end := SectorOf(addr), addr + len;
    var all := EraseList(addr, len);
    var n := |all|;
    assert all[..n] == all;
    ErasesCells(cells, s, end, n, x);
    ErasesCount(s, end);
    if s <= x < s + n * SECTOR {
      var y := if SectorOf(x) < addr then addr else SectorOf(x);
      assert SectorOf(y) == SectorOf(x);
      assert Meets(x, addr, len);
    }
  }

  /** Erase does to every byte of every flash what its range says. */
  ghost predicate EraseExact(addr: nat, len: nat) {
    forall cells: Cells, x: int ::
      ExecuteAll(cells, EraseList(addr, len))(x) == if Meets(x, addr, len) then Erased else cells(x)
  }

  /** The one exception is an empty range that starts inside a sector: that sector is erased all the same. */
  lemma EraseExactIff(addr: nat, len: nat)
    requires Inside(addr, len)
    ensures EraseExact(addr, len) <==> len > 0 || addr % SECTOR == 0
  {
    if len > 0 {
      forall cells: Cells, x: int
        ensures ExecuteAll(cells, EraseList(addr, len))(x) == if Meets(x, addr, len) then Erased else cells(x)
      {
        EraseIsExact(cells, addr, len, x);
      }
    } else if addr % SECTOR == 0 {
      assert EraseList(addr, len) == [];
    } else {
      var cells := (x: int) => Worn;
      var c := EraseSectors(SectorOf(addr), 1);
      assert Erases(SectorOf(addr) + SECTOR, addr) == [];
      assert EraseList(addr, len) == [c] && [c][..0] == [];
      assert ExecuteAll(cells, [c])(addr) == Execute(ExecuteAll(cells, []), c)(addr) == Erased;
      assert !Meets(addr, addr, len);
    }
  }

  /** A command that stays within PFLASH. */
  predicate Contained(c: Command) {
    match c
    case EraseSectors(a, n) => Inside(a, n * SECTOR) && a % SECTOR == 0
    case WritePage(a, ws) => Inside(a, 4 * |ws|) && a % FPAGE == 0
  }

  /** After rounding, every commanded address stays inside PFLASH. */
  lemma ErasesStayInside(addr: nat, len: nat, i: nat)
    requires Inside(addr, len) && i < |EraseList(addr, len)|
    ensures Contained(EraseList(addr, len)[i])
  {
    ErasesAt(SectorOf(addr), addr + len, i);
    var a := SectorOf(addr) + i * SECTOR;
    assert a % SECTOR == 0 && FLASH_MIN <= a < FLASH_MAX;
  }

  lemma ProgramsStayInside(addr: nat, data: seq<Byte>, i: nat)
    requires Inside(addr, |data|) && addr % FPAGE == 0 && i < |Programs(addr, data, 0)|
    ensures Contained(Programs(addr, data, 0)[i])
  {
    ProgramsAt(addr, data, 0, i);
    var a := addr + i * FPAGE;
    assert a % FPAGE == 0 && FLASH_MIN <= a < FLASH_MAX;
  }

  lemma {:induction false} ProgramsAt(addr: nat, data: seq<Byte>, off: nat, i: nat)
    requires i < |Programs(addr, data, off)|
    ensures Programs(addr, data, off)[i]
         == WritePage((addr + off + i * FPAGE) % WORDS, PageWords(data, off + i * FPAGE, 8))
    ensures off + i * FPAGE < |data|
    decreases i
  {
    if i > 0 {
      ProgramsAt(addr, data, off + FPAGE, i - 1);
    }
  }

  lemma {:induction false} ProgramsCount(addr: nat, data: seq<Byte>, off: nat)
    ensures |Programs(addr, data, off)| == if off >= |data| then 0 else (|data| - off + FPAGE - 1) / FPAGE
    decreases |data| - off
  {
    if off < |data| {
      ProgramsCount(addr, data, off + FPAGE);
    }
  }

  /** A length rounded up to whole pages. */
  function PageUp(len: nat): nat {
    (len + FPAGE - 1) / FPAGE * FPAGE
  }

  lemma PageUpIs(len: nat)
    ensures len <= PageUp(len) < len + 32 && PageUp(len) % 32 == 0
  {
  }

  lemma PageByte(data: seq<Byte>, off: nat, d: nat)
    requires d < FPAGE
    ensures ByteOf(PageWords(data, off, 8)[d / 4], d % 4) == Padded(data, off + d)
  {
    var i := d / 4;
    assert PageWords(data, off, 8)[i] == PageWord(data, off + 4 * i);
    assert off + d == off + 4 * i + d % 4;
  }

  function Programmed(cell: Cell, b: Byte): Cell {
    if cell.Erased? then Holds(b) else Worn
  }

  lemma PageCells(cells: Cells, a: Word, data: seq<Byte>, off: nat, x: int)
    ensures Execute(cells, WritePage(a, PageWords(data, off, 8)))(x)
         == if a <= x < a + FPAGE then Programmed(cells(x), Padded(data, off + x - a)) else cells(x)
  {
    if a <= x < a + FPAGE {
      PageByte(data, off, x - a);
    }
  }

  /** The last of the first `n` page commands. */
  lemma ProgramsLast(cells: Cells, addr: nat, data: seq<Byte>, n: nat)
    requires Inside(addr, |data|) && 0 < n <= |Programs(addr, data, 0)|
    ensures var all, off := Programs(addr, data, 0), (n - 1) * FPAGE;
            && addr + off < WORDS
            && ExecuteAll(cells, all[..n])
               == Execute(ExecuteAll(cells, all[..n - 1]), WritePage(addr + off, PageWords(data, off, 8)))
  {
    var all := Programs(addr, data, 0);
    assert all[..n][..n - 1] == all[..n - 1];
    ProgramsAt(addr, data, 0, n - 1);
  }

  lemma {:induction false} ProgramsCells(cells: Cells, addr: nat, data: seq<Byte>, n: nat, x: int)
    requires Inside(addr, |data|) && addr % FPAGE == 0 && n <= |Programs(addr, data, 0)|
    ensures ExecuteAll(cells, Programs(addr, data, 0)[..n])(x)
         == if addr <= x < addr + n * FPAGE then Programmed(cells(x), Padded(data, x - addr)) else cells(x)
  {
    if n > 0 {
      var off := (n - 1) * FPAGE;
      ProgramsLast(cells, addr, data, n);
      ProgramsCells(cells, addr, data, n - 1, x);
      PageCells(ExecuteAll(cells, Programs(addr, data, 0)[..n - 1]), addr + off, data, off, x);
    }
  }

  /** Program writes precisely the covering pages: the data, then 0xFF. */
  lemma ProgramIsExact(cells: Cells, addr: nat, data: seq<Byte>, x: int)
    requires Inside(addr, |data|) && addr % FPAGE == 0
    ensures ExecuteAll(cells, Programs(addr, data, 0))(x)
         == if addr <= x < addr + PageUp(|data|)
            then Programmed(cells(x), if x - addr < |data| then data[x - addr] else 0xFF)
            else cells(x)
  {
    var all := Programs(addr, data, 0);
    assert all[..|all|] == all;
    ProgramsCount(addr, data, 0);
    ProgramsCells(cells, addr, data, |all|, x);
  }
}