/**
 * `tc-load flash`, `tools/tc-load/main.c`: pad the file to whole pages, erase,
 * program, and verify word by word.
 */
module FlashTool {
  import opened Words
  import opened Flash

  /** The file padded with zeros to whole pages. */
  function PaddedFile(file: seq<Byte>): (img: seq<Byte>)
    ensures |img| == PageUp(|file|) == PageUp(|img|) && |img| % 4 == 0 && file <= img
    ensures forall i :: |file| <= i < |img| ==> img[i] == 0
  {
    file + seq(PageUp(|file|) - |file|, (i: nat) => 0)
  }

  predicate TargetOk(target: nat) {
    FLASH_MIN <= target < FLASH_MAX && target % SECTOR == 0
  }

  /** The flash afterwards: the image at the target, the rest of its sectors erased, all else as before. */
  ghost predicate Flashed(now: Cells, was: Cells, target: nat, img: seq<Byte>) {
    forall x: int :: now(x) == FlashedCell(was, target, img, x)
  }

  ghost function FlashedCell(was: Cells, target: nat, img: seq<Byte>, x: int): Cell {
    if target <= x < target + |img| then Holds(img[x - target])
    else if Meets(x, target, |img|) then Erased
    else was(x)
  }

  /** Erase touches precisely the sectors of the image, also when it is empty. */
  lemma ByteErased(cells: Cells, target: nat, len: nat, x: int)
    requires TargetOk(target) && Inside(target, len)
    ensures ExecuteAll(cells, EraseList(target, len))(x) == if Meets(x, target, len) then Erased else cells(x)
  {
    if len > 0 {
      EraseIsExact(cells, target, len, x);
    } else {
      assert EraseList(target, 0) == [];
    }
  }

  lemma InRangeMeets(x: int, target: nat, len: nat)
    requires target <= x < target + len
    ensures Meets(x, target, len)
  {
    var s := SectorOf(x);
    assert s <= x;
  }

  /** Programming a padded image over the erased sectors, byte by byte. */
  lemma ByteProgrammed(blank: Cells, was: Cells, target: nat, img: seq<Byte>, x: int)
    requires TargetOk(target) && Inside(target, |img|) && PageUp(|img|) == |img|
    requires blank(x) == if Meets(x, target, |img|) then Erased else was(x)
    ensures ExecuteAll(blank, Programs(target, img, 0))(x) == FlashedCell(was, target, img, x)
  {
    SectorIsPageAligned(target);
    ProgramIsExact(blank, target, img, x);
    if target <= x < target + |img| {
      InRangeMeets(x, target, |img|);
    }
  }

  /** Erasing and then programming a padded image. */
  lemma EraseThenProgram(cells: Cells, target: nat, img: seq<Byte>)
    requires TargetOk(target) && Inside(target, |img|) && PageUp(|img|) == |img|
    ensures Flashed(ExecuteAll(ExecuteAll(cells, EraseList(target, |img|)), Programs(target, img, 0)),
                    cells, target, img)
  {
    forall x: int
      ensures ExecuteAll(ExecuteAll(cells, EraseList(target, |img|)), Programs(target, img, 0))(x)
           == FlashedCell(cells, target, img, x)
    {
      ByteErased(cells, target, |img|, x);
      ByteProgrammed(ExecuteAll(cells, EraseList(target, |img|)), cells, target, img, x);
    }
  }

  function WantedWord(img: seq<Byte>, off: nat): Word
    requires off + 4 <= |img|
  {
    WordOf(img[off], img[off + 1], img[off + 2], img[off + 3])
  }

  lemma WantedWordIs(img: seq<Byte>, off: nat)
    requires off + 4 <= |img|
    ensures var b: seq<int> := img[off..off + 4];
            WantedWord(img, off) == b[0] + 0x100 * b[1] + 0x1_0000 * b[2] + 0x100_0000 * b[3]
  {
    WordSum(img[off], img[off + 1], img[off + 2], img[off + 3]);
  }

  /** Word `i` of the image reads back, in transaction `t + i`. */
  ghost predicate Matches(dev: Device, t: nat, target: nat, img: seq<Byte>, noise: int -> Byte, i: nat)
    requires 4 * i + 4 <= |img|
    reads dev`cells
  {
    !dev.faults(t + i) && ReadsAs(dev.cells, target + 4 * i, noise) == WantedWord(img, 4 * i)
  }

  ghost predicate AllMatch(dev: Device, t: nat, target: nat, img: seq<Byte>, noise: int -> Byte, n: nat)
    requires 4 * n <= |img|
    reads dev`cells
  {
    n == 0 || (AllMatch(dev, t, target, img, noise, n - 1) && Matches(dev, t, target, img, noise, n - 1))
  }

  lemma {:induction false} AllMatchIff(dev: Device, t: nat, target: nat, img: seq<Byte>, noise: int -> Byte, n: nat)
    requires 4 * n <= |img|
    ensures AllMatch(dev, t, target, img, noise, n)
       <==> forall i: nat :: i < n ==> Matches(dev, t, target, img, noise, i)
  {
    hide Matches;
    if n > 0 {
      AllMatchIff(dev, t, target, img, noise, n - 1);
    }
  }

  /** How many of `n` reads from transaction `t` on fault. */
  function FaultCount(dev: Device, t: nat, n: nat): nat {
    if n == 0 then 0 else FaultCount(dev, t, n - 1) + (if dev.faults(t + n - 1) then 1 else 0)
  }

  /** One word of the verify loop. */
  method VerifyWord(dev: Device, target: nat, img: seq<Byte>, noise: int -> Byte, off: nat, ghost t: nat, ghost i: nat)
    returns (read: bool, same: bool)
    requires off + 4 <= |img| && off == 4 * i && dev.ticks == t + i
    modifies dev`ticks
    ensures dev.ticks == t + i + 1 && read == !dev.faults(t + i)
    ensures read && same <==> Matches(dev, t, target, img, noise, i)
  {
    var got;
    read, got := dev.R32(target + off, noise);
    same := got == WantedWord(img, off);
  }

  /** One turn of it. */
  method VerifyTurn(dev: Device, target: nat, img: seq<Byte>, noise: int -> Byte, off: nat, ghost t: nat, ghost i: nat,
                    ok0: bool, faults0: nat)
    returns (ok: bool, faults: nat)
    requires off + 4 <= |img| && off == 4 * i && dev.ticks == t + i
    requires ok0 <==> AllMatch(dev, t, target, img, noise, i)
    requires faults0 == FaultCount(dev, t, i)
    modifies dev`ticks
    ensures dev.ticks == t + i + 1
    ensures ok <==> AllMatch(dev, t, target, img, noise, i + 1)
    ensures faults == FaultCount(dev, t, i + 1)
  {
    ok, faults := ok0, faults0;
    var read, same := VerifyWord(dev, target, img, noise, off, t, i);
    if !read {
      faults := faults + 1;
      ok := false;
    } else if !same {
      ok := false;
    }
  }

  /** The verify loop passes exactly when every word of the image reads back. */
  method Verify(dev: Device, target: nat, img: seq<Byte>, noise: int -> Byte, ghost n: nat)
    returns (ok: bool, faults: nat)
    requires |img| == 4 * n < WORDS
    modifies dev`ticks
    ensures ok <==> AllMatch(dev, old(dev.ticks), target, img, noise, n)
    ensures faults == FaultCount(dev, old(dev.ticks), n) && dev.ticks == old(dev.ticks) + n
  {
    ok, faults := true, 0;
    var off := 0;
    ghost var t, i := dev.ticks, 0;
    assert AllMatch(dev, t, target, img, noise, 0) && FaultCount(dev, t, 0) == 0;
    hide AllMatch, FaultCount;
    while off < |img|
      invariant off == 4 * i <= |img| && dev.ticks == t + i
      invariant ok <==> AllMatch(dev, t, target, img, noise, i)
      invariant faults == FaultCount(dev, t, i)
    {
      ok, faults := VerifyTurn(dev, target, img, noise, off, t, i, ok, faults);
      off := off + 4;
      i := i + 1;
    }
  }

  /** Over the flashed image, a word fails to verify only when its read faults. */
  lemma FlashedMatches(dev: Device, was: Cells, target: nat, img: seq<Byte>, noise: int -> Byte, i: nat)
    requires Flashed(dev.cells, was, target, img) && 4 * i + 4 <= |img|
    ensures Matches(dev, dev.ticks, target, img, noise, i) <==> !dev.faults(dev.ticks + i)
  {
    var x := target + 4 * i;
    assert dev.cells(x) == FlashedCell(was, target, img, x) == Holds(img[4 * i]);
    assert dev.cells(x + 1) == FlashedCell(was, target, img, x + 1) == Holds(img[4 * i + 1]);
    assert dev.cells(x + 2) == FlashedCell(was, target, img, x + 2) == Holds(img[4 * i + 2]);
    assert dev.cells(x + 3) == FlashedCell(was, target, img, x + 3) == Holds(img[4 * i + 3]);
  }

  /** On a device that answers, every word matches. */
  lemma {:induction false} FlashedAllMatch(dev: Device, was: Cells, target: nat, img: seq<Byte>, noise: int -> Byte,
                                           n: nat)
    requires Flashed(dev.cells, was, target, img) && 4 * n <= |img| && dev.Ready()
    ensures AllMatch(dev, dev.ticks, target, img, noise, n)
  {
    if n > 0 {
      FlashedAllMatch(dev, was, target, img, noise, n - 1);
      FlashedMatches(dev, was, target, img, noise, n - 1);
    }
  }

  method EraseFor(dev: Device, target: nat, len: nat) returns (ok: bool)
    requires TargetOk(target) && len < WORDS
    modifies dev
    ensures ok ==> Inside(target, len) && dev.cells == ExecuteAll(old(dev.cells), EraseList(target, len))
    ensures !Inside(target, len) ==> dev.cells == old(dev.cells)
    ensures Inside(target, len) && dev.Ready() ==> ok
    ensures old(dev.Orderly()) ==> if ok then dev.Orderly() else !dev.clash
  {
    ghost var all := EraseList(target, len);
    assert all[..|all|] == all && all[..0] == [];
    var rc, n := dev.Erase(target, len);
    return rc == 0;
  }

  method ProgramAt(dev: Device, target: nat, img: seq<Byte>) returns (ok: bool)
    requires TargetOk(target) && Inside(target, |img|)
    modifies dev
    ensures ok ==> dev.cells == ExecuteAll(old(dev.cells), Programs(target, img, 0))
    ensures dev.Ready() ==> ok
    ensures old(dev.Orderly()) ==> !dev.clash
  {
    ghost var all := Programs(target, img, 0);
    assert all[..|all|] == all;
    SectorIsPageAligned(target);
    InsideEnds(target, |img|);
    var rc, n := dev.Program(target, img);
    return rc == 0;
  }

  /** Erase, then program. */
  method EraseAndProgram(dev: Device, target: nat, img: seq<Byte>) returns (ok: bool)
    requires TargetOk(target) && PageUp(|img|) == |img| < WORDS
    modifies dev
    ensures ok ==> Flashed(dev.cells, old(dev.cells), target, img)
    ensures !Inside(target, |img|) ==> !ok && dev.cells == old(dev.cells)
    ensures Inside(target, |img|) && dev.Ready() ==> ok
    ensures old(dev.Orderly()) ==> !dev.clash
  {
    ghost var was := dev.cells;
    ok := EraseFor(dev, target, |img|);
    if ok {
      ok := ProgramAt(dev, target, img);
      if ok {
        EraseThenProgram(was, target, img);
      }
    }
  }

  /** The last transactions read every word of the image back. */
  ghost predicate ReadBack(dev: Device, target: nat, img: seq<Byte>, noise: int -> Byte)
    reads dev
  {
    exists t: nat :: t + |img| / 4 == dev.ticks && AllMatch(dev, t, target, img, noise, |img| / 4)
  }

  /** `cmd_flash`.  Success means the flash holds the padded file and nothing else was touched but its
      sectors; over a device that answers, an acceptable target succeeds exactly when the image fits. */
  method FlashFile(dev: Device, target: nat, file: seq<Byte>, noise: int -> Byte) returns (rc: nat)
    requires target < DOUBLES && PageUp(|file|) < WORDS
    modifies dev
    ensures rc == 2 <==> !(0xA000_0000 <= target < 0xA140_0000 && target % 0x4000 == 0)
    ensures !TargetOk(target) || !Inside(target, |PaddedFile(file)|) ==> rc != 0 && dev.cells == old(dev.cells)
    ensures rc == 0 ==> Flashed(dev.cells, old(dev.cells), target, PaddedFile(file))
    ensures rc == 0 ==> ReadBack(dev, target, PaddedFile(file), noise)
    ensures TargetOk(target) && Inside(target, |PaddedFile(file)|) && dev.Ready() ==> rc == 0
    ensures old(dev.Orderly()) ==> !dev.clash
  {
    if !TargetOk(target) {
      return 2;
    }
    var img := PaddedFile(file);
    ghost var was := dev.cells;
    var done := EraseAndProgram(dev, target, img);
    if !done {
      return 1;
    }
    ghost var n := |img| / 4;
    if dev.Ready() {
      FlashedAllMatch(dev, was, target, img, noise, n);
    }
    ghost var t := dev.ticks;
    var ok, faults := Verify(dev, target, img, noise, n);
    assert ok ==> AllMatch(dev, t, target, img, noise, n);
    return if ok then 0 else 1;
  }
}
