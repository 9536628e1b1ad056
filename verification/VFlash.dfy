/**
 * `load` over vFlash, `tools/tc-gdbserver/main.c`: packets accumulate in a growing
 * buffer filled up with 0xFF, and vFlashDone programs it.
 */
module VFlash {
  import opened Words
  import opened Rsp
  import opened Packets
  import opened Flash

  const FIRST_CAP: nat := 0x1000
  const MAX_CAP: nat := 0x8000_0000_0000_0000

  /** An image with `data` laid over it at `off`; a gap in between reads 0xFF. */
  function Overlay(image: seq<Byte>, off: nat, data: seq<Byte>): (r: seq<Byte>)
    ensures |r| == if off + |data| > |image| then off + |data| else |image|
  {
    seq(if off + |data| > |image| then off + |data| else |image|,
        (i: nat) => if off <= i < off + |data| then data[i - off] else if i < |image| then image[i] else 0xFF)
  }

  lemma OverlayOnNothing(data: seq<Byte>)
    ensures Overlay([], 0, data) == data
  {
  }

  // ----- Growing ---------------------------------------------------------------

  function Doubled(cap: nat, n: nat): nat {
    if n == 0 then cap else 2 * Doubled(cap, n - 1)
  }

  lemma {:induction false} DoubledAdd(cap: nat, m: nat, n: nat)
    ensures Doubled(cap, m + n) == Doubled(Doubled(cap, m), n)
  {
    if n > 0 {
      DoubledAdd(cap, m, n - 1);
    }
  }

  lemma {:induction false} DoubledMonotone(cap: nat, m: nat, n: nat)
    requires m <= n
    ensures Doubled(cap, m) <= Doubled(cap, n)
    decreases n - m
  {
    if m < n {
      DoubledMonotone(cap, m, n - 1);
    }
  }

  lemma {:induction false} DoubledMultiple(n: nat) returns (k: nat)
    ensures Doubled(DOUBLES, n) == k * DOUBLES
  {
    if n == 0 {
      k := 1;
    } else {
      k := DoubledMultiple(n - 1);
      k := 2 * k;
    }
  }

  lemma LargestCap()
    ensures Doubled(FIRST_CAP, 51) == MAX_CAP && Doubled(FIRST_CAP, 52) == DOUBLES
  {
    DoubledAdd(FIRST_CAP, 20, 20);
    DoubledAdd(FIRST_CAP, 40, 11);
    assert Doubled(FIRST_CAP, 10) == 0x40_0000;
    DoubledAdd(FIRST_CAP, 10, 10);
    assert Doubled(0x40_0000, 10) == 0x1_0000_0000;
    DoubledAdd(0x1_0000_0000, 10, 10);
    assert Doubled(0x1_0000_0000, 10) == 0x400_0000_0000;
    assert Doubled(0x400_0000_0000, 10) == 0x10_0000_0000_0000;
    assert Doubled(0x10_0000_0000_0000, 11) == MAX_CAP;
  }

  /** Some doubling of the capacity, in 64-bit arithmetic, reaches `need`. */
  ghost predicate DoublingEnds(need: nat) {
    exists n: nat :: Doubled(FIRST_CAP, n) % DOUBLES >= need
  }

  /** The doubling loop ends exactly for sizes up to 2^63. */
  lemma DoublingEndsIff(need: nat)
    requires need > 0
    ensures DoublingEnds(need) <==> need <= MAX_CAP
  {
    LargestCap();
    if need <= MAX_CAP {
      assert Doubled(FIRST_CAP, 51) % DOUBLES >= need;
    } else {
      forall n: nat
        ensures Doubled(FIRST_CAP, n) % DOUBLES < need
      {
        if n <= 51 {
          DoubledMonotone(FIRST_CAP, n, 51);
        } else {
          DoubledAdd(FIRST_CAP, 52, n - 52);
          var k := DoubledMultiple(n - 52);
        }
      }
    }
  }

  /** The size of a payload of `len` bytes at `off`, in 64-bit arithmetic. */
  function Size(off: nat, len: nat): nat {
    (off + len) % DOUBLES
  }

  /** A capacity that passes the check covers the payload exactly if the size does not wrap 2^64; if it wraps, the
      payload starts behind the buffer. */
  lemma CheckCoversIff(off: nat, len: nat, cap: nat)
    requires off < DOUBLES && len <= MAX_CAP && Size(off, len) <= cap <= MAX_CAP
    ensures off + len <= cap <==> off + len < DOUBLES
    ensures off + len >= DOUBLES ==> cap <= off
  {
  }

  /** The doubling loop ends and what it reaches covers the payload exactly for payloads that end at 2^63 or below;
      it does not end for those that end above that and below 2^64. */
  lemma FitsIff(off: nat, len: nat)
    requires off < DOUBLES && 0 < len <= MAX_CAP
    ensures DoublingEnds(Size(off, len)) && off + len < DOUBLES <==> off + len <= MAX_CAP
    ensures off + len >= DOUBLES ==> DoublingEnds(Size(off, len))
  {
    var size := Size(off, len);
    if size == 0 {
      assert Doubled(FIRST_CAP, 0) % DOUBLES >= size;
    } else {
      DoublingEndsIff(size);
    }
  }

  /** The last address and one byte: the size is 0 and the first capacity passes. */
  lemma WrappedSizePasses()
    ensures Size(DOUBLES - 1, 1) == 0 <= FIRST_CAP && DOUBLES - 1 >= FIRST_CAP
  {
  }

  // ----- Decoding -------------------------------------------------------------------

  /** What decoding does at position `i`. */
  lemma UnescapeStep(d: seq<Byte>, i: nat)
    requires i < |d|
    ensures Unescape(d[i..])
         == if d[i] != ESCAPE then [d[i]] + Unescape(d[i + 1..])
            else if i + 1 < |d| then [Flip(d[i + 1])] + Unescape(d[i + 2..])
            else [Flip(0)]
  {
    var t := d[i..];
    assert t[1..] == d[i + 1..];
    if i + 1 < |d| {
      assert t[2..] == d[i + 2..];
    }
  }

  /** The payload left to decode at position `i`. */
  function Rest(d: seq<Byte>, i: nat): seq<Byte> {
    if i <= |d| then Unescape(d[i..]) else []
  }

  /** `now` is `was` with `data` put at `off`. */
  ghost predicate Put(now: seq<Byte>, was: seq<Byte>, off: nat, data: seq<Byte>) {
    && |now| == |was| && off + |data| <= |now|
    && forall k :: 0 <= k < |now| ==> now[k] == if off <= k < off + |data| then data[k - off] else was[k]
  }

  /** One byte, unescaped. */
  method DecodeOne(d: seq<Byte>, i: nat) returns (b: Byte, next: nat)
    requires i < |d|
    ensures i < next <= i + 2 && (next <= |d| || next == |d| + 1)
    ensures Rest(d, i) == [b] + Rest(d, next)
  {
    UnescapeStep(d, i);
    b, next := d[i], i + 1;
    if b == ESCAPE {
      b, next := Flip(CharAt(d, next)), next + 1;
    }
    assert i + 1 == |d| ==> d[i + 1..] == [];
  }

  method PutByte(buf: array<Byte>, w: nat, b: Byte, ghost was: seq<Byte>, ghost off: nat, ghost done: seq<Byte>)
    requires w == off + |done| < buf.Length && Put(buf[..], was, off, done)
    modifies buf
    ensures Put(buf[..], was, off, done + [b])
  {
    buf[w] := b;
  }

  /** Decode the payload into the buffer. */
  method Decode(buf: array<Byte>, off: nat, d: seq<Byte>) returns (w: nat)
    requires off + |d| <= buf.Length
    modifies buf
    ensures w == off + |Unescape(d)| && Put(buf[..], old(buf[..]), off, Unescape(d))
  {
    w := off;
    var i := 0;
    assert d[0..] == d;
    ghost var done: seq<Byte> := [];
    while i < |d|
      invariant i <= |d| + 1 && Unescape(d) == done + Rest(d, i)
      invariant w == off + |done| && |done| <= |Unescape(d)| && Put(buf[..], old(buf[..]), off, done)
      decreases |d| + 1 - i
    {
      var b, next := DecodeOne(d, i);
      PutByte(buf, w, b, old(buf[..]), off, done);
      Regroup(done, [b], Rest(d, next));
      done := done + [b];
      w, i := w + 1, next;
    }
    assert Rest(d, i) == [];
  }

  // ----- The accumulator ---------------------------------------------------------

  class Loader {
    var fbuf: array?<Byte>
    var fbase: nat
    var fcap: nat
    var flen: nat
    ghost var order: nat  // how often the capacity has doubled

    constructor ()
      ensures Valid() && fbuf == null
    {
      fbuf, fbase, fcap, flen, order := null, 0, 0, 0, 0;
    }

    ghost predicate Valid()
      reads this, fbuf
    {
      fbuf != null ==>
        && fbuf.Length == fcap && fcap == Doubled(FIRST_CAP, order) && flen <= fcap
        && forall i :: flen <= i < fcap ==> fbuf[i] == 0xFF
    }

    /** The bytes accumulated so far. */
    ghost function Image(): seq<Byte>
      requires Valid()
      reads this, fbuf
    {
      if fbuf == null then [] else fbuf[..flen]
    }

    /** Make room for `need` bytes: double, copy, and fill up with 0xFF. */
    method Grow(need: nat)
      requires Valid() && fbuf != null && need <= MAX_CAP
      modifies this`fbuf, this`fcap, this`order
      ensures Valid() && fbuf != null && need <= fcap
      ensures Image() == old(Image())
      ensures fresh(fbuf) || fbuf == old(fbuf)
    {
      if need > fcap {
        var nc := fcap;
        ghost var n := order;
        CapPositive(order);
        while nc < need
          invariant nc >= fcap > 0 && nc == Doubled(FIRST_CAP, n)
          decreases need - nc
        {
          nc := nc * 2 % DOUBLES;
          n := n + 1;
        }
        var ob, nb := fbuf, new Byte[nc](_ => 0xFF);
        for i := 0 to fcap
          invariant forall k :: 0 <= k < i ==> nb[k] == ob[k]
          invariant forall k :: i <= k < nc ==> nb[k] == 0xFF
        {
          nb[i] := ob[i];
        }
        assert nb[..flen] == ob[..flen];
        fbuf, fcap, order := nb, nc, n;
      }
    }

    lemma CapPositive(n: nat)
      ensures Doubled(FIRST_CAP, n) > 0
    {
    }

    /** The size the packet asks for is one the doubling loop reaches. */
    predicate Roomy(addr: nat, len: nat)
      reads this
    {
      if fbuf == null then len <= MAX_CAP else addr < fbase || addr - fbase + len <= MAX_CAP
    }

    /** The first packet sets the base and starts an empty image. */
    method Start(addr: nat)
      requires fbuf == null
      modifies this
      ensures Valid() && fbuf != null && fresh(fbuf) && fbase == addr && Image() == []
    {
      fbase, fcap, flen, order := addr, FIRST_CAP, 0, 0;
      fbuf := new Byte[FIRST_CAP](_ => 0xFF);
    }

    /** Decode the payload into the buffer and keep the greatest length. */
    method LayOver(off: nat, d: seq<Byte>)
      requires Valid() && fbuf != null && off + |d| <= fcap
      modifies this`flen, fbuf
      ensures Valid() && Image() == Overlay(old(Image()), off, Unescape(d))
    {
      ghost var before := Image();
      ghost var cells := fbuf[..];
      var w := Decode(fbuf, off, d);
      if w > flen {
        flen := w;
      }
      LaidOver(cells, fbuf[..], before, off, Unescape(d));
    }

    /** `flash_write` after parsing: a packet below the first address is refused and changes nothing,
        any other is laid over the image. */
    method FlashWrite(addr: nat, d: seq<Byte>) returns (rc: int)
      requires Valid() && Roomy(addr, |d|)
      modifies this, fbuf
      ensures Valid() && fbuf != null && (fbuf == old(fbuf) || fresh(fbuf))
      ensures fbase == (if old(fbuf == null) then addr else old(fbase))
      ensures rc == (if addr < fbase then -1 else 0)
      ensures Image() == if addr < fbase then old(Image()) else Overlay(old(Image()), addr - fbase, Unescape(d))
    {
      hide Doubled, Unescape, Overlay;
      if fbuf == null {
        Start(addr);
      }
      if addr < fbase {
        return -1;
      }
      Grow(Size(addr - fbase, |d|));
      LayOver(addr - fbase, d);
      return 0;
    }

    /** `flash_write`: `vFlashWrite:addr:payload`. */
    method FlashWritePacket(p: seq<Byte>) returns (rc: int)
      requires Valid() && Roomy(Fields(p).0, |Fields(p).1|)
      modifies this, fbuf
      ensures Valid() && (fbuf == old(fbuf) || (fbuf != null && fresh(fbuf)))
      ensures !HasFields(p) ==> rc == -1 && fbuf == old(fbuf) && fbase == old(fbase)
      ensures HasFields(p) ==> fbuf != null && fbase == (if old(fbuf == null) then Fields(p).0 else old(fbase))
      ensures HasFields(p) ==> rc == (if Fields(p).0 < fbase then -1 else 0)
      ensures HasFields(p) && rc == 0 ==>
                Image() == Overlay(old(Image()), Fields(p).0 - fbase, Unescape(Fields(p).1))
      ensures rc == -1 ==> Image() == old(Image())
    {
      var c1 := Find(p, COLON, 0);
      if c1 == |p| {
        return -1;
      }
      var addr := Strtoull(p, c1 + 1);
      var c2 := Find(p, COLON, c1 + 1);
      if c2 == |p| {
        return -1;
      }
      FieldsAt(p, c1, c2);
      rc := FlashWrite(addr, p[c2 + 1..]);
    }

    /** `flash_done`: program the image, whose length is cut to 32 bits, and forget it.  The first `n` page
        commands have been carried out, all of them on success. */
    method FlashDone(dev: Device) returns (rc: int, ghost n: nat)
      requires Valid() && (fbuf != null ==> fbase < DOUBLES && ProgramEnds(fbase, flen % WORDS))
      modifies this, dev
      ensures Valid() && fbuf == null
      ensures old(fbuf) == null ==> rc == 0 && dev.cells == old(dev.cells) && dev.log == old(dev.log)
      ensures old(fbuf) != null ==> Concluded(dev, old(dev.cells), old(dev.log), old(fbase), old(Image()), n, rc)
      ensures dev.Ready() && Programmable(old(fbase), old(flen) % WORDS) ==> rc == 0
    {
      rc, n := 0, 0;
      if fbuf != null {
        var data := fbuf[..flen % WORDS];
        ghost var image := Image();
        assert data == Cut(image);
        rc, n := dev.Program(fbase, data);
        assert Concluded(dev, old(dev.cells), old(dev.log), fbase, image, n, rc);
        fbuf, fcap, flen := null, 0, 0;
      }
    }

    /** One packet of a load. */
    method WriteChunk(cs: seq<Chunk>, i: nat, more: Byte -> bool)
      requires Valid() && i < |cs| && SessionFits(cs, more) && (fbuf == null) == (i == 0)
      requires i > 0 ==> fbase == cs[0].addr && Image() == Laid(cs[..i])
      modifies this, fbuf
      ensures Valid() && fbuf != null && (fbuf == old(fbuf) || fresh(fbuf))
      ensures fbase == cs[0].addr && Image() == Laid(cs[..i + 1])
    {
      WritePacketFields(cs[i], more);
      LaidNext(cs, i);
      var refused := FlashWritePacket(WritePacket(cs[i], more));
    }

    /** All packets of a load. */
    method WriteChunks(cs: seq<Chunk>, more: Byte -> bool)
      requires Valid() && fbuf == null && cs != [] && SessionFits(cs, more)
      modifies this
      ensures Valid() && fbuf != null && fresh(fbuf) && fbase == cs[0].addr && Image() == Laid(cs)
    {
      for i := 0 to |cs|
        invariant Valid() && (fbuf == null || fresh(fbuf))
        invariant (fbuf == null) == (i == 0)
        invariant i > 0 ==> fbase == cs[0].addr && Image() == Laid(cs[..i])
      {
        WriteChunk(cs, i, more);
      }
      assert cs[..|cs|] == cs;
    }

    /** A whole load: one packet per chunk, then vFlashDone.  When it reports success over blank
        flash, the flash holds the image exactly if the image lies inside PFLASH. */
    method Session(dev: Device, cs: seq<Chunk>, more: Byte -> bool) returns (rc: int)
      requires Valid() && fbuf == null && cs != [] && SessionFits(cs, more)
      requires ProgramEnds(cs[0].addr, |Laid(cs)| % WORDS)
      requires Blank(dev.cells, cs[0].addr, |Laid(cs)|)
      modifies this, dev
      ensures Valid() && fbuf == null
      ensures rc == 0 ==> cs[0].addr % FPAGE == 0
      ensures rc == 0 ==> (Stored(dev.cells, cs[0].addr, Laid(cs)) <==> Inside(cs[0].addr, |Laid(cs)|))
      ensures dev.Ready() && Inside(cs[0].addr, |Laid(cs)|) && cs[0].addr % FPAGE == 0 ==> rc == 0
      ensures rc == 0 && Inside(cs[0].addr, |Laid(cs)|) ==>
                Outside(dev.cells, old(dev.cells), cs[0].addr, PageUp(|Laid(cs)|))
    {
      ghost var cells := dev.cells;
      WriteChunks(cs, more);
      ghost var n;
      rc, n := FlashDone(dev);
      if rc == 0 {
        AllCarried(cells, dev.cells, cs[0].addr, Laid(cs), n);
        SessionResult(cells, cs[0].addr, Laid(cs));
      }
    }
  }

  /** All page commands of an image have been carried out. */
  lemma AllCarried(was: Cells, now: Cells, base: nat, image: seq<Byte>, n: nat)
    requires n == |Programs(base, Cut(image), 0)| && now == ExecuteAll(was, Programs(base, Cut(image), 0)[..n])
    ensures now == ExecuteAll(was, Programs(base, Cut(image), 0))
  {
    var all := Programs(base, Cut(image), 0);
    assert all[..n] == all;
  }

  predicate Programmable(base: nat, len: nat) {
    RangeOk(base, len) && base % FPAGE == 0
  }

  /** What is left of an image when its length is cut to 32 bits. */
  function Cut(image: seq<Byte>): seq<Byte> {
    image[..|image| % WORDS]
  }

  /** The state `tcmcd_flash_program` leaves: nothing done for a refused range, a prefix of the pages otherwise. */
  ghost predicate Concluded(dev: Device, cells: Cells, log: seq<Command>, base: nat, image: seq<Byte>, n: nat, rc: int)
    reads dev
  {
    && dev.Progress(cells, log, Programs(base, Cut(image), 0), n, rc)
    && (!Programmable(base, |image| % WORDS) ==> rc == -1 && n == 0)
  }

  /** The buffer after decoding `data` at `off` holds the overlay, up to the new length, and 0xFF after it. */
  lemma LaidOver(was: seq<Byte>, now: seq<Byte>, image: seq<Byte>, off: nat, data: seq<Byte>)
    requires |image| <= |was| && was[..|image|] == image && forall i :: |image| <= i < |was| ==> was[i] == 0xFF
    requires Put(now, was, off, data)
    ensures var r := Overlay(image, off, data);
            |r| <= |now| && now[..|r|] == r && forall i :: |r| <= i < |now| ==> now[i] == 0xFF
  {
    var r := Overlay(image, off, data);
    forall i | 0 <= i < |now|
      ensures now[i] == if i < |r| then r[i] else 0xFF
    {
      if i < |image| {
        assert was[i] == was[..|image|][i];
      }
    }
  }

  // ----- The packet -----------------------------------------------------------------

  predicate HasFields(p: seq<Byte>) {
    var c1 := Find(p, COLON, 0);
    c1 < |p| && Find(p, COLON, c1 + 1) < |p|
  }

  /** The address and the escaped payload of `vFlashWrite:addr:payload`. */
  function Fields(p: seq<Byte>): (nat, seq<Byte>) {
    if HasFields(p) then
      var c1 := Find(p, COLON, 0);
      (Strtoull(p, c1 + 1), p[Find(p, COLON, c1 + 1) + 1..])
    else (0, [])
  }

  lemma FieldsAt(p: seq<Byte>, c1: nat, c2: nat)
    requires c1 == Find(p, COLON, 0) < |p| && c2 == Find(p, COLON, c1 + 1) < |p|
    ensures HasFields(p) && Fields(p) == (Strtoull(p, c1 + 1), p[c2 + 1..])
  {
  }

  // ----- What a session amounts to ---------------------------------------------------

  datatype Chunk = Chunk(addr: nat, data: seq<Byte>)

  /** "vFlashWrite" */
  const WRITE_HEAD: seq<Byte> := [0x76, 0x46, 0x6C, 0x61, 0x73, 0x68, 0x57, 0x72, 0x69, 0x74, 0x65]

  function WritePacket(c: Chunk, more: Byte -> bool): seq<Byte> {
    WRITE_HEAD + [COLON] + Digits(c.addr) + [COLON] + Escape(c.data, more)
  }

  /** The server reads back the address and the bytes the client put into a packet. */
  lemma WritePacketFields(c: Chunk, more: Byte -> bool)
    requires c.addr < DOUBLES
    ensures var p := WritePacket(c, more);
            && HasFields(p) && Fields(p).0 == c.addr
            && Fields(p).1 == Escape(c.data, more) && Unescape(Fields(p).1) == c.data
  {
    var p, ds, e := WritePacket(c, more), Digits(c.addr), Escape(c.data, more);
    var head := WRITE_HEAD + [COLON];
    assert |head| == 12 && p == head + ds + [COLON] + e;
    FindSkips(p, COLON, 0, 11);
    NumberField(p, head, c.addr, COLON, e);
    assert p[12 + |ds| + 1..] == e;
    FieldsAt(p, 11, 12 + |ds|);
    EscapeRoundTrip(c.data, more);
  }

  /** The payloads laid over each other in order; a chunk below the first address is refused. */
  function Laid(cs: seq<Chunk>): seq<Byte> {
    if cs == [] then []
    else
      var before, c := Laid(cs[..|cs| - 1]), cs[|cs| - 1];
      if c.addr < cs[0].addr then before else Overlay(before, c.addr - cs[0].addr, c.data)
  }

  /** One more chunk. */
  lemma LaidNext(cs: seq<Chunk>, i: nat)
    requires i < |cs|
    ensures Laid(cs[..0]) == []
    ensures Laid(cs[..i + 1])
         == if cs[i].addr < cs[0].addr then Laid(cs[..i])
            else Overlay(Laid(cs[..i]), cs[i].addr - cs[0].addr, cs[i].data)
  {
    assert cs[..i + 1][..i] == cs[..i];
  }

  /** The chunk is accepted and covers address `x`. */
  predicate Covers(c: Chunk, base: nat, x: nat) {
    base <= c.addr <= x < c.addr + |c.data|
  }

  /** Every byte of the image is the one the latest chunk covering it carries. */
  lemma {:induction false} LaidLatest(cs: seq<Chunk>, k: nat, x: nat)
    requires k < |cs| && Covers(cs[k], cs[0].addr, x)
    requires forall j :: k < j < |cs| ==> !Covers(cs[j], cs[0].addr, x)
    ensures x - cs[0].addr < |Laid(cs)| && Laid(cs)[x - cs[0].addr] == cs[k].data[x - cs[k].addr]
  {
    if k < |cs| - 1 {
      LaidLatest(cs[..|cs| - 1], k, x);
    }
  }

  /** A byte no chunk covers reads 0xFF. */
  lemma LaidGap(cs: seq<Chunk>, x: nat)
    requires cs != [] && cs[0].addr <= x < cs[0].addr + |Laid(cs)|
    requires forall j :: 0 <= j < |cs| ==> !Covers(cs[j], cs[0].addr, x)
    ensures Laid(cs)[x - cs[0].addr] == 0xFF
  {
    assert cs[..|cs|] == cs;
    GapIn(cs, |cs|, cs[0].addr, x);
  }

  /** The same for the first `n` chunks. */
  lemma {:induction false} GapIn(cs: seq<Chunk>, n: nat, base: nat, x: nat)
    requires 0 < n <= |cs| && base == cs[0].addr <= x < base + |Laid(cs[..n])|
    requires forall j :: 0 <= j < n ==> !Covers(cs[j], base, x)
    ensures Laid(cs[..n])[x - base] == 0xFF
  {
    var c, before := cs[n - 1], Laid(cs[..n - 1]);
    assert !Covers(c, base, x);
    LaidNext(cs, n - 1);
    if n > 1 && x < base + |before| {
      GapIn(cs, n - 1, base, x);
    }
    if c.addr >= base {
      OverlayGap(before, c.addr - base, c.data, x - base);
    }
  }

  /** Outside the data an overlay is the image, or 0xFF behind it. */
  lemma OverlayGap(image: seq<Byte>, off: nat, data: seq<Byte>, k: nat)
    requires k < |Overlay(image, off, data)| && !(off <= k < off + |data|)
    requires k < |image| ==> image[k] == 0xFF
    ensures Overlay(image, off, data)[k] == 0xFF
  {
  }

  /** Every packet leaves a size the doubling loop reaches. */
  ghost predicate SessionFits(cs: seq<Chunk>, more: Byte -> bool) {
    forall c :: c in cs ==>
      c.addr < DOUBLES && (c.addr < cs[0].addr || c.addr - cs[0].addr + |Escape(c.data, more)| <= MAX_CAP)
  }

  ghost predicate Blank(cells: Cells, base: nat, n: nat) {
    forall x :: base <= x < base + n ==> cells(x) == Erased
  }

  ghost predicate Stored(cells: Cells, base: nat, image: seq<Byte>) {
    forall i: nat :: i < |image| ==> cells(base + i) == Holds(image[i])
  }

  ghost predicate Outside(now: Cells, was: Cells, base: nat, n: nat) {
    forall x :: !(base <= x < base + n) ==> now(x) == was(x)
  }

  /** No page command reaches past 2^32. */
  lemma {:induction false} ProgramsStayLow(cells: Cells, addr: nat, data: seq<Byte>, n: nat, x: int)
    requires n <= |Programs(addr, data, 0)| && x >= WORDS + FPAGE
    ensures ExecuteAll(cells, Programs(addr, data, 0)[..n])(x) == cells(x)
  {
    if n > 0 {
      var all := Programs(addr, data, 0);
      assert all[..n][..n - 1] == all[..n - 1];
      ProgramsAt(addr, data, 0, n - 1);
      ProgramsStayLow(cells, addr, data, n - 1, x);
    }
  }

  /** Programming the image with its length cut to 32 bits. */
  lemma SessionResult(cells: Cells, base: nat, image: seq<Byte>)
    requires Blank(cells, base, |image|) && base < DOUBLES && base % FPAGE == 0
    requires RangeOk(base, |image| % WORDS)
    ensures var now := ExecuteAll(cells, Programs(base, Cut(image), 0));
            && (Stored(now, base, image) <==> Inside(base, |image|))
            && (Inside(base, |image|) ==> Outside(now, cells, base, PageUp(|image|)))
  {
    hide ExecuteAll, Programs;
    var data := Cut(image);
    var cs := Programs(base, data, 0);
    var now := ExecuteAll(cells, cs);
    if Inside(base, |data|) {
      forall x: int
        ensures now(x) == if base <= x < base + PageUp(|data|) then Programmed(cells(x), Padded(data, x - base))
                          else cells(x)
      {
        ProgramIsExact(cells, base, data, x);
      }
      if Inside(base, |image|) {
        assert data == image;
      } else {
        var i := |image| - 1;
        assert base + PageUp(|data|) <= FLASH_MAX <= base + i;
        assert now(base + i) == Erased != Holds(image[i]);
      }
    } else {
      assert cs[..|cs|] == cs;
      ProgramsStayLow(cells, base, data, |cs|, base);
      assert now(base + 0) == Erased != Holds(image[0]);
    }
  }
}
