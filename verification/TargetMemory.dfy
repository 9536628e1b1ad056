/**
 * `tcmcd_read` and `tcmcd_write`: byte access over a link that only moves aligned
 * 32-bit words.  Any transaction may fault, by its address and by when it comes: `ticks` counts
 * transactions.  Both refine a byte-addressed map.
 */
module TargetMemory {
  import opened Words

  type Bytes = imap<int, Byte>

  function Align(x: int): (a: int)
    ensures a <= x < a + 4 && a % 4 == 0
  {
    x - x % 4
  }

  lemma NextWord(a: int)
    requires a % 4 == 0
    ensures (a + 4) % 4 == 0
  {
  }

  /** The end of the word loop, in 64-bit arithmetic. */
  function LoopEnd(addr: nat, len: nat): int {
    Align((addr + len + 3) % DOUBLES)
  }

  /** The range and its rounding stay below 2^64. */
  predicate Fits(addr: nat, len: nat) {
    addr + len + 3 < DOUBLES
  }

  lemma EndCovers(addr: nat, len: nat)
    requires addr < DOUBLES && len < WORDS
    ensures Fits(addr, len) ==> Align(addr) <= LoopEnd(addr, len)
    ensures Fits(addr, len) ==> addr + len <= LoopEnd(addr, len) < addr + len + 4
    ensures !Fits(addr, len) ==> LoopEnd(addr, len) <= Align(addr)
  {
  }

  // ----- The byte-addressed reference ------------------------------------------

  datatype Op = WriteOp(addr: nat, data: seq<Byte>) | ReadOp(addr: nat, len: nat)

  datatype Reply = Ok | Fault | Data(bytes: seq<Byte>)

  /** The C argument types. */
  predicate InRange(op: Op) {
    match op
    case WriteOp(addr, data) => addr < DOUBLES && |data| < WORDS
    case ReadOp(addr, len) => addr < DOUBLES && len < WORDS
  }

  /** Memory as bytes, the transactions so far, and the buffers handed out for reads. */
  datatype World = World(view: Bytes, ticks: nat, buffers: nat)

  /** Where a word loop stops, and the transactions counted then. */
  datatype Stop = Stop(at: int, tick: nat)

  ghost function Overlay(v: Bytes, addr: nat, data: seq<Byte>, upto: int): Bytes {
    imap x | x in v :: if addr <= x < addr + |data| && x < upto then data[x - addr] else v[x]
  }

  ghost function Peek(v: Bytes, addr: nat, len: nat): seq<Byte> {
    seq(len, (i: nat) => if addr + i in v then v[addr + i] else 0)
  }

  class Target {
    var memory: map<int, Word>
    var ticks: nat
    var buffers: nat
    const canRead: (nat, int) -> bool
    const canWrite: (nat, int) -> bool
    const stale: (nat, int) -> Byte  // what a new buffer holds

    constructor (memory: map<int, Word>, canRead: (nat, int) -> bool, canWrite: (nat, int) -> bool,
                 stale: (nat, int) -> Byte)
      ensures this.memory == memory && this.ticks == 0 && this.buffers == 0
      ensures this.canRead == canRead && this.canWrite == canWrite && this.stale == stale
    {
      this.memory, this.ticks, this.buffers := memory, 0, 0;
      this.canRead, this.canWrite, this.stale := canRead, canWrite, stale;
    }

    function WordAt(a: int): Word
      reads this
    {
      if a in memory then memory[a] else 0
    }

    function ByteAt(x: int): Byte
      reads this
    {
      ByteOf(WordAt(Align(x)), x % 4)
    }

    /** A word is its four bytes, the least significant at the lowest address. */
    lemma WordIsBytes(a: int)
      requires a % 4 == 0
      ensures WordAt(a)
           == ByteAt(a) + 0x100 * ByteAt(a + 1) + 0x1_0000 * ByteAt(a + 2) + 0x100_0000 * ByteAt(a + 3)
    {
      BytesSum(WordAt(a));
    }

    /** The byte map the words stand for. */
    ghost function View(): Bytes
      reads this
    {
      imap x: int | true :: ByteAt(x)
    }

    ghost function Now(): World
      reads this
    {
      World(View(), ticks, buffers)
    }

    /** How far a write gets: a range that wraps is empty. */
    function WrittenUpTo(addr: nat, len: nat, stop: Stop): int {
      if stop.at != LoopEnd(addr, len) then stop.at else if Fits(addr, len) then addr + len else addr
    }

    function ReadRun(t: nat, addr: nat, len: nat): Stop {
      ReadStop(t, Align(addr), LoopEnd(addr, len))
    }

    function WriteRun(t: nat, addr: nat, len: nat): Stop {
      WriteStop(t, Align(addr), LoopEnd(addr, len), addr, len)
    }

    /** What one operation does to a byte map, and its reply. */
    ghost function Expect(w: World, op: Op): (World, Reply) {
      match op
      case WriteOp(addr, data) =>
        var stop := WriteRun(w.ticks, addr, |data|);
        (w.(view := Overlay(w.view, addr, data, WrittenUpTo(addr, |data|, stop)), ticks := stop.tick),
         if stop.at == LoopEnd(addr, |data|) then Ok else Fault)
      case ReadOp(addr, len) =>
        var stop := ReadRun(w.ticks, addr, len);
        (w.(ticks := stop.tick, buffers := w.buffers + 1),
         if stop.at != LoopEnd(addr, len) then Fault
         else Data(if Fits(addr, len) then Peek(w.view, addr, len) else Unfilled(w.buffers, len)))
    }

    /** A new buffer that nothing has been read into. */
    function Unfilled(n: nat, len: nat): (bytes: seq<Byte>)
      ensures |bytes| == len
    {
      seq(len, i => stale(n, i))
    }

    /** A read whose range wraps makes no transaction and returns its buffer as it was. */
    lemma WrappedRead(w: World, addr: nat, len: nat)
      requires InRange(ReadOp(addr, len)) && !Fits(addr, len)
      ensures Expect(w, ReadOp(addr, len)) == (w.(buffers := w.buffers + 1), Data(Unfilled(w.buffers, len)))
    {
      EndCovers(addr, len);
    }

    ghost function ExpectAll(w: World, ops: seq<Op>): (World, seq<Reply>) {
      if ops == [] then (w, [])
      else
        var before := ExpectAll(w, ops[..|ops| - 1]);
        var last := Expect(before.0, ops[|ops| - 1]);
        (last.0, before.1 + [last.1])
    }

    /** The first word from `a` on whose read faults, or the end. */
    function ReadStop(t: nat, a: int, end: int): (s: Stop)
      ensures s.at == end || a <= s.at < end
      decreases end - a
    {
      if a >= end then Stop(end, t) else if !canRead(t, a) then Stop(a, t + 1) else ReadStop(t + 1, a + 4, end)
    }

    predicate Full(a: int, addr: nat, len: nat) {
      addr <= a && a + 4 <= addr + len
    }

    /** A word covered in part is read before it is written. */
    predicate EdgeFaults(t: nat, a: int, addr: nat, len: nat) {
      !Full(a, addr, len) && !canRead(t, a)
    }

    /** The count when the word is written. */
    function WriteTick(t: nat, a: int, addr: nat, len: nat): nat {
      if Full(a, addr, len) then t else t + 1
    }

    /** The first word from `a` on whose update faults, or the end. */
    function WriteStop(t: nat, a: int, end: int, addr: nat, len: nat): (s: Stop)
      ensures s.at == end || a <= s.at < end
      decreases end - a
    {
      if a >= end then Stop(end, t)
      else if EdgeFaults(t, a, addr, len) then Stop(a, t + 1)
      else
        var u := WriteTick(t, a, addr, len);
        if !canWrite(u, a) then Stop(a, u + 1) else WriteStop(u + 1, a + 4, end, addr, len)
    }

    /** One word of a read: one transaction. */
    lemma ReadStep(t: nat, a: int, end: int)
      ensures a < end && canRead(t, a) ==> ReadStop(t, a, end) == ReadStop(t + 1, a + 4, end)
      ensures a < end && !canRead(t, a) ==> ReadStop(t, a, end) == Stop(a, t + 1)
      ensures a >= end ==> ReadStop(t, a, end) == Stop(end, t)
    {
    }

    /** All bytes of the word lie in the range. */
    predicate Whole(a: int, addr: nat, len: nat) {
      forall b :: a <= b < a + 4 ==> InBytes(b, addr, len)
    }

    predicate InBytes(b: int, addr: nat, len: nat) {
      addr <= b < addr + len
    }

    /** One word of a write: one transaction for a word that the range covers as a whole, and for any other a read
        before it. */
    lemma WriteStep(t: nat, a: int, end: int, addr: nat, len: nat)
      ensures Whole(a, addr, len) && a < end ==>
                WriteStop(t, a, end, addr, len)
                  == if canWrite(t, a) then WriteStop(t + 1, a + 4, end, addr, len) else Stop(a, t + 1)
      ensures !Whole(a, addr, len) && a < end ==>
                WriteStop(t, a, end, addr, len)
                  == if !canRead(t, a) then Stop(a, t + 1)
                     else if canWrite(t + 1, a) then WriteStop(t + 2, a + 4, end, addr, len) else Stop(a, t + 2)
      ensures a >= end ==> WriteStop(t, a, end, addr, len) == Stop(end, t)
    {
      assert Full(a, addr, len) <==> InBytes(a, addr, len) && InBytes(a + 3, addr, len);
      assert Full(a, addr, len) <==> Whole(a, addr, len);
    }

    /** `now` is `was` with the bytes of the range below `upto` filled in. */
    ghost predicate Filled(now: seq<Byte>, was: seq<Byte>, addr: nat, len: nat, upto: int)
      reads this
    {
      && |now| == |was|
      && forall k: nat :: k < |now| ==> now[k] == if k < len && addr + k < upto then ByteAt(addr + k) else was[k]
    }

    /** Scatter one word. */
    method ScatterWord(a: int, addr: nat, buf: array<Byte>, len: nat, ghost was: seq<Byte>)
      requires a % 4 == 0 && len <= buf.Length && Filled(buf[..], was, addr, len, a)
      modifies buf
      ensures Filled(buf[..], was, addr, len, a + 4)
    {
      var w := WordAt(a);
      for b := 0 to 4
        invariant Filled(buf[..], was, addr, len, a + b)
      {
        var cur := a + b;
        if addr <= cur < addr + len {
          assert Align(cur) == a && cur % 4 == b;
          buf[cur - addr] := ByteOf(w, b);
        }
      }
    }

    /** The word loop of a read. */
    method ReadWords(start: int, end: int, addr: nat, buf: array<Byte>, len: nat) returns (rc: int)
      requires start % 4 == 0 && len <= buf.Length && Filled(buf[..], buf[..], addr, len, start)
      requires end % 4 == 0 || end <= start
      modifies buf, this`ticks
      ensures var stop := ReadStop(old(ticks), start, end);
              && rc == (if stop.at == end then 0 else -1) && ticks == stop.tick
              && Filled(buf[..], old(buf[..]), addr, len, if start < end then stop.at else start)
    {
      var a := start;
      ghost var stop := ReadStop(ticks, a, end);
      while a < end
        invariant a % 4 == 0 && stop == ReadStop(ticks, a, end) && start <= a && (a <= end || a == start)
        invariant Filled(buf[..], old(buf[..]), addr, len, a)
        decreases end - a
      {
        var ok := canRead(ticks, a);
        ticks := ticks + 1;
        if !ok {
          return -1;
        }
        ScatterWord(a, addr, buf, len, old(buf[..]));
        NextWord(a);
        a := a + 4;
      }
      return 0;
    }

    /** Fills the buffer with exactly the bytes of the range, up to the first word that faults. */
    method Read(addr: nat, buf: array<Byte>, len: nat) returns (rc: int)
      requires addr < DOUBLES && len < WORDS && len <= buf.Length
      modifies buf, this`ticks
      ensures var stop := ReadRun(old(ticks), addr, len);
              && rc == (if stop.at == LoopEnd(addr, len) then 0 else -1) && ticks == stop.tick
              && Filled(buf[..], old(buf[..]), addr, len, stop.at)
      ensures rc == 0 && Fits(addr, len) ==> forall k: nat :: k < len ==> buf[k] == ByteAt(addr + k)
    {
      EndCovers(addr, len);
      rc := ReadWords(Align(addr), LoopEnd(addr, len), addr, buf, len);
    }

    /** The map after writing the bytes of `data` below `upto` at `addr`. */
    ghost predicate Written(was: Bytes, addr: nat, data: seq<Byte>, upto: int)
      reads this
    {
      forall x: int :: x in was ==>
        ByteAt(x) == if addr <= x < addr + |data| && x < upto then data[x - addr] else was[x]
    }

    /** The bytes of the range in word `a` replace those of `w`. */
    method MergeWord(a: int, w: Word, addr: nat, data: seq<Byte>) returns (r: Word)
      ensures forall b: nat :: b < 4 ==>
                ByteOf(r, b) == if addr <= a + b < addr + |data| then data[a + b - addr] else ByteOf(w, b)
    {
      r := w;
      for b := 0 to 4
        invariant forall c: nat :: c < 4 ==>
                    ByteOf(r, c) == if c < b && addr <= a + c < addr + |data| then data[a + c - addr] else ByteOf(w, c)
      {
        var cur := a + b;
        if addr <= cur < addr + |data| {
          r := SetByte(r, b, data[cur - addr]);
        }
      }
    }

    /** Store a merged word. */
    method PutWord(a: int, w: Word, addr: nat, data: seq<Byte>, ghost was: Bytes)
      requires a % 4 == 0 && Written(was, addr, data, a)
      requires Full(a, addr, |data|) || w == WordAt(a)
      modifies this`memory
      ensures Written(was, addr, data, a + 4)
    {
      var r := MergeWord(a, w, addr, data);
      memory := memory[a := r];
      forall x: int | x in was
        ensures ByteAt(x) == if addr <= x < addr + |data| && x < a + 4 then data[x - addr] else was[x]
      {
        assert Align(x) == a ==> x == a + x % 4;
      }
    }

    /** Update one word, reading it first when the range covers it in part. */
    method UpdateWord(a: int, addr: nat, data: seq<Byte>, ghost was: Bytes) returns (ok: bool)
      requires a % 4 == 0 && Written(was, addr, data, a)
      modifies this`memory, this`ticks
      ensures var u := WriteTick(old(ticks), a, addr, |data|);
              if EdgeFaults(old(ticks), a, addr, |data|) then !ok && ticks == old(ticks) + 1
              else ok == canWrite(u, a) && ticks == u + 1
      ensures Written(was, addr, data, if ok then a + 4 else a)
    {
      var w := 0;
      if !Full(a, addr, |data|) {
        var readable := canRead(ticks, a);
        ticks := ticks + 1;
        if !readable {
          return false;
        }
        w := WordAt(a);
      }
      ok := canWrite(ticks, a);
      ticks := ticks + 1;
      if ok {
        PutWord(a, w, addr, data, was);
      }
    }

    /** The word loop. */
    method UpdateWords(start: int, end: int, addr: nat, data: seq<Byte>, ghost was: Bytes) returns (rc: int)
      requires start % 4 == 0 && end % 4 == 0 && start <= end && Written(was, addr, data, start)
      modifies this`memory, this`ticks
      ensures var stop := WriteStop(old(ticks), start, end, addr, |data|);
              rc == (if stop.at == end then 0 else -1) && ticks == stop.tick && Written(was, addr, data, stop.at)
    {
      var a := start;
      ghost var stop := WriteStop(ticks, start, end, addr, |data|);
      while a < end
        invariant a % 4 == 0 && a <= end
        invariant stop == WriteStop(ticks, a, end, addr, |data|)
        invariant Written(was, addr, data, a)
      {
        var ok := UpdateWord(a, addr, data, was);
        if !ok {
          return -1;
        }
        NextWord(a);
        a := a + 4;
      }
      return 0;
    }

    /** Writes exactly the bytes of the range, up to the first word whose update faults, and nothing else.
        A range that wraps is reported as written though nothing is. */
    method Write(addr: nat, data: seq<Byte>) returns (rc: int)
      requires addr < DOUBLES && |data| < WORDS
      modifies this`memory, this`ticks
      ensures var stop := WriteRun(old(ticks), addr, |data|);
              && rc == (if stop.at == LoopEnd(addr, |data|) then 0 else -1) && ticks == stop.tick
              && Written(old(View()), addr, data, WrittenUpTo(addr, |data|, stop))
      ensures !Fits(addr, |data|) ==> rc == 0 && ticks == old(ticks)
    {
      EndCovers(addr, |data|);
      rc := 0;
      if Align(addr) < LoopEnd(addr, |data|) {
        rc := UpdateWords(Align(addr), LoopEnd(addr, |data|), addr, data, View());
      }
    }

    method WriteCall(addr: nat, data: seq<Byte>) returns (reply: Reply)
      requires InRange(WriteOp(addr, data))
      modifies this`memory, this`ticks
      ensures (Now(), reply) == Expect(old(Now()), WriteOp(addr, data))
    {
      ghost var was := Now();
      var rc := Write(addr, data);
      reply := if rc == 0 then Ok else Fault;
      assert View() == Expect(was, WriteOp(addr, data)).0.view;
    }

    method ReadCall(addr: nat, len: nat) returns (reply: Reply)
      requires InRange(ReadOp(addr, len))
      modifies this`ticks, this`buffers
      ensures (Now(), reply) == Expect(old(Now()), ReadOp(addr, len))
    {
      hide ReadStop;
      ghost var was := Now();
      var n := buffers;
      var buf := new Byte[len](i => stale(n, i));
      assert buf[..] == Unfilled(n, len);
      buffers := buffers + 1;
      EndCovers(addr, len);
      var rc := Read(addr, buf, len);
      assert View() == was.view;
      assert Fits(addr, len) && rc == 0 ==> buf[..] == Peek(View(), addr, len);
      assert !Fits(addr, len) ==> buf[..] == Unfilled(was.buffers, len);
      reply := if rc == 0 then Data(buf[..]) else Fault;
    }

    /** One call from above, as a caller sees it. */
    method Perform(op: Op) returns (reply: Reply)
      requires InRange(op)
      modifies this`memory, this`ticks, this`buffers
      ensures (Now(), reply) == Expect(old(Now()), op)
    {
      match op
      case WriteOp(addr, data) => reply := WriteCall(addr, data);
      case ReadOp(addr, len) => reply := ReadCall(addr, len);
    }

    /** Any run of reads and writes behaves as the byte map does, whichever transactions fault. */
    method PerformAll(ops: seq<Op>) returns (replies: seq<Reply>)
      requires forall i :: 0 <= i < |ops| ==> InRange(ops[i])
      modifies this`memory, this`ticks, this`buffers
      ensures (Now(), replies) == ExpectAll(old(Now()), ops)
    {
      replies := [];
      for i := 0 to |ops|
        invariant (Now(), replies) == ExpectAll(old(Now()), ops[..i])
      {
        var reply := Perform(ops[i]);
        replies := replies + [reply];
        assert ops[..i + 1][..i] == ops[..i];
      }
      assert ops[..|ops|] == ops;
    }

    /** A read of a range just written gives back the bytes written, unless it faults. */
    lemma ReadsBack(w: World, addr: nat, data: seq<Byte>)
      requires Expect(w, WriteOp(addr, data)).1 == Ok && Fits(addr, |data|)
      requires forall x: int :: x in w.view
      ensures var after := Expect(w, WriteOp(addr, data)).0;
              Expect(after, ReadOp(addr, |data|))
                == (after.(ticks := ReadRun(after.ticks, addr, |data|).tick, buffers := w.buffers + 1),
                    if ReadRun(after.ticks, addr, |data|).at == LoopEnd(addr, |data|) then Data(data) else Fault)
    {
      var after := Expect(w, WriteOp(addr, data)).0;
      assert Peek(after.view, addr, |data|) == data;
    }
  }
}
