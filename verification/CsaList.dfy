/**
 * The context-save-area free list that `_cstart` (`bsp/tc4d7/crt0.c`) and
 * `core_cstart` (`bsp/tc4d7/smp.c`) build in place before the first call, and the
 * rest of the start-up of a core.
 */
module CsaList {
  import opened Words

  const AREA: int := 64
  const SEGMENT: int := 0x1000_0000
  const SPAN: int := 0x40_0000  // the part of a segment a link word can reach

  /** The link word of an area: address bits 31:28 above bits 21:6. */
  function Link(a: Word): (l: Word)
    ensures l == a / 0x1000_0000 * 0x1_0000 + a % 0x40_0000 / 64
  {
    LinkFields(a);
    Or(Shl(a / SEGMENT, 16), a % SPAN / AREA)
  }

  lemma LinkFields(a: Word)
    ensures Or(Shl(a / SEGMENT, 16), a % SPAN / AREA) == a / SEGMENT * 0x1_0000 + a % SPAN / AREA
  {
    Shl16(a / SEGMENT);
    Shl16(1);
    OrDisjoint(a / SEGMENT, a % SPAN / AREA, 16);
  }

  /** The address a core computes from a link word. */
  function Follow(l: Word): Word {
    l / 0x1_0000 % 16 * SEGMENT + l % 0x1_0000 * AREA
  }

  /** An area whose link word leads back to it and is not the end marker. */
  predicate Linkable(a: Word) {
    Follow(Link(a)) == a && Link(a) != 0
  }

  predicate Plain(a: Word) {
    a % AREA == 0 && a / SPAN % 64 == 0 && a != 0
  }

  /** Following a link word keeps the segment and the aligned offset within the reach, and drops the rest. */
  lemma Followed(a: Word)
    ensures Follow(Link(a)) == a / SEGMENT * SEGMENT + a % SPAN / AREA * AREA
    ensures Link(a) == 0 <==> a / SEGMENT == 0 && a % SPAN / AREA == 0
  {
    var hi, low := a / SEGMENT, a % SPAN / AREA;
    assert hi < 16 && low < 0x1_0000;
    assert Link(a) / 0x1_0000 == hi && Link(a) % 0x1_0000 == low;
  }

  lemma AddressParts(a: Word)
    ensures a == a / SEGMENT * SEGMENT + a / SPAN % 64 * SPAN + a % SPAN
    ensures a % SPAN == a % SPAN / AREA * AREA + a % AREA
  {
    assert a / SPAN / 64 == a / SEGMENT;
    assert a % SPAN % AREA == a % AREA;
  }

  /** The encoding loses nothing exactly on aligned addresses in the low 4 MiB of a segment, except 0. */
  lemma LinkableIff(a: Word)
    ensures Linkable(a) <==> Plain(a)
  {
    Followed(a);
    AddressParts(a);
    LostBits(a / SEGMENT, a / SPAN % 64, a % SPAN / AREA, a % AREA, a, Follow(Link(a)), Link(a));
  }

  lemma LostBits(hi: nat, mid: nat, low: nat, rest: nat, a: nat, back: nat, l: nat)
    requires a == hi * SEGMENT + mid * SPAN + low * AREA + rest && back == hi * SEGMENT + low * AREA
    requires l == 0 <==> hi == 0 && low == 0
    ensures back == a && l != 0 <==> rest == 0 && mid == 0 && a != 0
  {
  }

  // ----- Building the list ------------------------------------------------------

  type Memory = int -> Word

  /** How many whole areas fit between the two symbols. */
  function Areas(b: Word, e: Word): (n: nat)
    requires b <= e
    ensures b + AREA * n <= e < b + AREA * n + AREA
  {
    (e - b) / AREA
  }

  /** `a` is one of the first `n` areas at `b`. */
  predicate Among(a: int, b: Word, n: nat) {
    b <= a < b + AREA * n && (a - b) % AREA == 0
  }

  /** What address `a` holds once the first `n` areas at `b` point to their successors. */
  function LinkedAt(m: Memory, b: Word, n: nat, a: int): Word
    requires b + AREA * n < WORDS
  {
    if Among(a, b, n) then Link(a + AREA) else m(a)
  }

  /** What address `a` holds once the list of `num` areas at `b` is complete. */
  function BuiltAt(m: Memory, b: Word, num: nat, a: int): Word
    requires b + AREA * num < WORDS
  {
    if num == 0 then (if a == 0 then 0 else m(a))
    else if a == b + AREA * (num - 1) then 0
    else LinkedAt(m, b, num - 1, a)
  }

  class Core {
    var memory: Memory
    var fcx: Word
    var lcx: Word

    constructor (memory: Memory, fcx: Word, lcx: Word)
      ensures this.memory == memory && this.fcx == fcx && this.lcx == lcx
    {
      this.memory, this.fcx, this.lcx := memory, fcx, lcx;
    }

    method Store(a: int, v: Word)
      modifies this`memory
      ensures memory(a) == v && forall x :: x != a ==> memory(x) == old(memory(x))
    {
      var m := memory;
      memory := x => if x == a then v else m(x);
    }

    /** The first `n` areas at `b` point to their successors. */
    ghost predicate Linked(m: Memory, b: Word, n: nat)
      requires b + AREA * n < WORDS
      reads this`memory
    {
      forall a :: memory(a) == LinkedAt(m, b, n, a)
    }

    /** Point area `n` to its successor. */
    method LinkNext(prv: Word, lv: Word, ghost m: Memory, ghost b: Word, ghost n: nat)
      requires prv == b + AREA * n
      requires b + AREA * (n + 1) < WORDS && Linked(m, b, n) && lv == Link(b + AREA * (n + 1))
      modifies this`memory
      ensures Linked(m, b, n + 1)
    {
      Store(prv, lv);
      forall a
        ensures Among(a, b, n + 1) <==> Among(a, b, n) || a == b + AREA * n
      {
      }
    }

    /** The list build: every area points to the next, the last one ends the list, FCX points to the
        first, LCX to the third from the end, and nothing else changes. */
    method BuildList(b: Word, e: Word)
      requires b <= e
      modifies this
      ensures forall a :: memory(a) == BuiltAt(old(memory), b, Areas(b, e), a)
      ensures fcx == if Areas(b, e) == 0 then old(fcx) else Link(b)
      ensures lcx == if Areas(b, e) < 3 then old(lcx) else Link(b + AREA * (Areas(b, e) - 3))
      ensures Areas(b, e) > 0 ==> Chained(memory, b, Areas(b, e)) && FreeList(b, Areas(b, e))
    {
      var num := Areas(b, e);
      ghost var m := memory;
      var prv, nxt: Word := 0, b;
      for k := 0 to num
        invariant nxt == b + AREA * k && prv == if k == 0 then 0 else b + AREA * (k - 1)
        invariant Linked(m, b, if k == 0 then 0 else k - 1)
        invariant fcx == if k == 0 then old(fcx) else Link(b)
        invariant lcx == if num < 3 || k <= num - 3 then old(lcx) else Link(b + AREA * (num - 3))
      {
        var lv := Link(nxt);
        if k == 0 {
          fcx := lv;
        } else {
          LinkNext(prv, lv, m, b, k - 1);
        }
        if k == Sub32(num, 3) {
          lcx := lv;
        }
        prv := nxt;
        nxt := nxt + AREA;
      }
      Store(prv, 0);
      if num > 0 {
        BuiltIsChained(m, memory, b, num);
        ListFollows(b, num);
      }
    }

    /** The list that starts at FCX visits all areas once, ascending, and ends, exactly on a region that the
        links can reach; there LCX is met after exactly `num - 3` links. */
    ghost predicate FreeList(b: Word, num: nat)
      requires num > 0
      reads this
    {
      && (forall fuel: nat :: fuel >= num ==> (Walk(memory, fcx, fuel) == AllFrom(b, 0, num) <==> Region(b, num)))
      && (num >= 3 && Region(b, num) ==>
            forall n: nat :: n < num ==> (LinkAfter(memory, fcx, n) == lcx <==> n == num - 3))
    }

    lemma ListFollows(b: Word, num: nat)
      requires num > 0 && b + AREA * num < WORDS && Chained(memory, b, num) && fcx == Link(b)
      requires num >= 3 ==> lcx == Link(b + AREA * (num - 3))
      ensures FreeList(b, num)
    {
      forall fuel: nat | fuel >= num
        ensures Walk(memory, fcx, fuel) == AllFrom(b, 0, num) <==> Region(b, num)
      {
        FreeListIff(memory, b, num, fuel);
      }
      if num >= 3 && Region(b, num) {
        forall n: nat | n < num
          ensures LinkAfter(memory, fcx, n) == lcx <==> n == num - 3
        {
          LimitReached(memory, b, num, n);
        }
      }
    }

    /** The words of the load image, one after the other. */
    method CopyData(load: Word, start: Word, end: Word)
      requires load + 4 * Count(start, end) < WORDS && start + 4 * Count(start, end) < WORDS
      requires Apart(load, load + 4 * Count(start, end), start, start + 4 * Count(start, end))
      modifies this`memory
      ensures Copied(old(memory), load, start, Count(start, end))
    {
      var s, d := load, start;
      ghost var n, m := 0, memory;
      while d < end
        invariant s == load + 4 * n && d == start + 4 * n && n <= Count(start, end)
        invariant Copied(m, load, start, n)
      {
        assert memory(s) == CopiedAt(m, load, start, n, s) == m(s);
        Store(d, memory(s));
        d, s := d + 4, s + 4;
        n := n + 1;
      }
    }

    ghost predicate Copied(m: Memory, load: Word, start: Word, n: nat)
      reads this`memory
    {
      forall a :: memory(a) == CopiedAt(m, load, start, n, a)
    }

    method ClearBss(start: Word, end: Word)
      requires start + 4 * Count(start, end) < WORDS
      modifies this`memory
      ensures Cleared(old(memory), start, Count(start, end))
    {
      var z := start;
      ghost var n, m := 0, memory;
      while z < end
        invariant z == start + 4 * n && n <= Count(start, end)
        invariant Cleared(m, start, n)
      {
        Store(z, 0);
        z := z + 4;
        n := n + 1;
      }
    }

    ghost predicate Cleared(m: Memory, start: Word, n: nat)
      reads this`memory
    {
      forall a :: memory(a) == if InWords(a, start, n) then 0 else m(a)
    }

    /** `_cstart` up to the call of `main`: the list, the initialized data and the cleared bss are all in
        place, and nothing else has changed. */
    method Start(l: Layout)
      requires Separate(l)
      modifies this
      ensures Started(old(memory), memory, l) && fcx == Link(l.csaBegin)
      ensures lcx == if Areas(l.csaBegin, l.csaEnd) < 3 then old(lcx)
                     else Link(l.csaBegin + AREA * (Areas(l.csaBegin, l.csaEnd) - 3))
      ensures FreeList(l.csaBegin, Areas(l.csaBegin, l.csaEnd))
    {
      ghost var m := memory;
      BuildList(l.csaBegin, l.csaEnd);
      ghost var built := memory;
      CopyData(l.dataLoad, l.dataStart, l.dataEnd);
      ghost var copied := memory;
      ClearBss(l.bssStart, l.bssEnd);
      StartedBySteps(m, built, copied, memory, l);
      ListFollows(l.csaBegin, Areas(l.csaBegin, l.csaEnd));
    }
  }

  /** What start-up leaves in memory. */
  ghost predicate Started(m: Memory, now: Memory, l: Layout)
    requires Separate(l)
  {
    && Chained(now, l.csaBegin, Areas(l.csaBegin, l.csaEnd))
    && (forall a :: InWords(a, l.dataStart, l.Data()) ==> now(a) == CopiedAt(m, l.dataLoad, l.dataStart, l.Data(), a))
    && (forall a :: InWords(a, l.bssStart, l.Bss()) ==> now(a) == 0)
    && (forall a :: Untouched(a, l) ==> now(a) == m(a))
  }

  predicate Untouched(a: int, l: Layout) {
    && !(l.csaBegin <= a < l.csaEnd)
    && !InWords(a, l.dataStart, l.Data()) && !InWords(a, l.bssStart, l.Bss())
  }

  lemma StartedBySteps(m: Memory, built: Memory, copied: Memory, now: Memory, l: Layout)
    requires Separate(l)
    requires forall a :: built(a) == BuiltAt(m, l.csaBegin, Areas(l.csaBegin, l.csaEnd), a)
    requires forall a :: copied(a) == CopiedAt(built, l.dataLoad, l.dataStart, l.Data(), a)
    requires forall a :: now(a) == if InWords(a, l.bssStart, l.Bss()) then 0 else copied(a)
    ensures Started(m, now, l)
  {
    var num := Areas(l.csaBegin, l.csaEnd);
    BuiltIsChained(m, built, l.csaBegin, num);
    forall a | l.csaBegin <= a < l.csaBegin + AREA * num
      ensures now(a) == built(a)
    {
      assert !InWords(a, l.dataStart, l.Data()) && !InWords(a, l.bssStart, l.Bss());
    }
    ChainedStays(built, now, l.csaBegin, num);
    OutsideBuilt(m, built, l.csaBegin, num);
    forall a | InWords(a, l.dataStart, l.Data())
      ensures now(a) == CopiedAt(m, l.dataLoad, l.dataStart, l.Data(), a)
    {
      assert !InWords(a, l.bssStart, l.Bss());
      var x := l.dataLoad + (a - l.dataStart);
      assert !(l.csaBegin <= x < l.csaBegin + AREA * num);
    }
  }

  lemma OutsideBuilt(m: Memory, built: Memory, b: Word, num: nat)
    requires b + AREA * num < WORDS && num > 0 && forall a :: built(a) == BuiltAt(m, b, num, a)
    ensures forall a :: !(b <= a < b + AREA * num) ==> built(a) == m(a)
  {
  }

  /** What address `a` holds once `n` words are copied. */
  function CopiedAt(m: Memory, load: Word, start: Word, n: nat, a: int): Word {
    if InWords(a, start, n) then m(load + (a - start)) else m(a)
  }

  /** How many words a loop up to `end` moves. */
  function Count(start: Word, end: Word): nat {
    if start < end then (end - start + 3) / 4 else 0
  }

  /** One of the first `n` words at `start`. */
  predicate InWords(a: int, start: Word, n: nat) {
    start <= a < start + 4 * n && (a - start) % 4 == 0
  }

  lemma BuiltIsChained(m: Memory, now: Memory, b: Word, num: nat)
    requires b + AREA * num < WORDS && num > 0 && forall a :: now(a) == BuiltAt(m, b, num, a)
    ensures Chained(now, b, num)
  {
    forall k: nat | k < num
      ensures now(Area(b, k)) == if k == num - 1 then 0 else Link(Area(b, k + 1))
    {
      assert now(Area(b, k)) == BuiltAt(m, b, num, Area(b, k));
    }
  }

  lemma ChainedStays(was: Memory, now: Memory, b: Word, num: nat)
    requires b + AREA * num < WORDS && Chained(was, b, num)
    requires forall a :: b <= a < b + AREA * num ==> now(a) == was(a)
    ensures Chained(now, b, num)
  {
    forall k: nat | k < num
      ensures now(Area(b, k)) == was(Area(b, k))
    {
    }
  }

  /** The linker's symbols. */
  datatype Layout = Layout(csaBegin: Word, csaEnd: Word, dataLoad: Word, dataStart: Word, dataEnd: Word,
                           bssStart: Word, bssEnd: Word)
  {
    function Data(): nat {
      Count(dataStart, dataEnd)
    }

    function Bss(): nat {
      Count(bssStart, bssEnd)
    }
  }

  /** The regions are laid out without overlap. */
  predicate Separate(l: Layout) {
    && l.csaBegin + AREA <= l.csaEnd
    && l.dataLoad + 4 * l.Data() < WORDS && l.dataStart + 4 * l.Data() < WORDS && l.bssStart + 4 * l.Bss() < WORDS
    && Apart(l.dataLoad, l.dataLoad + 4 * l.Data(), l.dataStart, l.dataStart + 4 * l.Data())
    && Apart(l.csaBegin, l.csaEnd, l.dataLoad, l.dataLoad + 4 * l.Data())
    && Apart(l.csaBegin, l.csaEnd, l.dataStart, l.dataStart + 4 * l.Data())
    && Apart(l.csaBegin, l.csaEnd, l.bssStart, l.bssStart + 4 * l.Bss())
    && Apart(l.dataStart, l.dataStart + 4 * l.Data(), l.bssStart, l.bssStart + 4 * l.Bss())
  }

  predicate Apart(a: int, b: int, c: int, d: int) {
    b <= c || d <= a
  }

  // ----- What the list is ------------------------------------------------------------

  /** The areas at `b` are chained in order and the chain ends. */
  ghost predicate Chained(m: Memory, b: Word, num: nat)
    requires b + AREA * num < WORDS
  {
    forall k: nat :: k < num ==> m(Area(b, k)) == if k == num - 1 then 0 else Link(Area(b, k + 1))
  }

  function Area(b: Word, k: nat): int {
    b + AREA * k
  }

  /** The areas a core takes when it follows links from `l`, at most `fuel` of them. */
  function Walk(m: Memory, l: Word, fuel: nat): seq<int>
    decreases fuel
  {
    if l == 0 || fuel == 0 then [] else [Follow(l)] + Walk(m, m(Follow(l)), fuel - 1)
  }

  /** All areas from number `k` on, in ascending order. */
  function AllFrom(b: Word, k: nat, num: nat): (s: seq<int>)
    requires k <= num
    ensures |s| == num - k
    decreases num - k
  {
    if k == num then [] else [Area(b, k)] + AllFrom(b, k + 1, num)
  }

  /** Every area from number `k` on survives the encoding. */
  ghost predicate AllLinkable(b: Word, k: nat, num: nat)
    requires b + AREA * num < WORDS
  {
    forall j: nat :: k <= j < num ==> Linkable(Area(b, j))
  }

  /** The walk visits all areas once, in order, and ends, exactly when every area survives the encoding. */
  lemma {:induction false} WalkIff(m: Memory, b: Word, k: nat, num: nat, fuel: nat)
    requires b + AREA * num < WORDS && Chained(m, b, num) && k < num && fuel >= num - k
    ensures Walk(m, Link(Area(b, k)), fuel) == AllFrom(b, k, num) <==> AllLinkable(b, k, num)
    decreases num - k
  {
    var a := Area(b, k);
    var w := Walk(m, Link(a), fuel);
    if Linkable(a) {
      assert m(Follow(Link(a))) == m(a);
      var rest := Walk(m, m(a), fuel - 1);
      assert w == [a] + rest && AllFrom(b, k, num) == [a] + AllFrom(b, k + 1, num);
      assert w[1..] == rest && AllFrom(b, k, num)[1..] == AllFrom(b, k + 1, num);
      if k + 1 < num {
        WalkIff(m, b, k + 1, num, fuel - 1);
      } else {
        assert rest == AllFrom(b, k + 1, num) == [];
      }
    } else {
      assert w == [] || w[0] != AllFrom(b, k, num)[0];
    }
  }

  /** Aligned, not at address 0, and within the low 4 MiB of one segment. */
  predicate Region(b: Word, num: nat)
    requires num > 0
  {
    b % AREA == 0 && b != 0 && b / SPAN % 64 == 0 && (b + AREA * (num - 1)) / SPAN == b / SPAN
  }

  lemma SameSpan(b: nat, a: nat, last: nat)
    requires b <= a <= last && last / SPAN == b / SPAN
    ensures a / SPAN == b / SPAN
  {
    var q := b / SPAN;
    assert q * SPAN <= b && last < q * SPAN + SPAN;
  }

  lemma RegionKeeps(b: Word, num: nat, k: nat)
    requires k < num && b + AREA * num < WORDS && Region(b, num)
    ensures Plain(Area(b, k))
  {
    SameSpan(b, Area(b, k), b + AREA * (num - 1));
  }

  /** A region that crosses into the next 4 MiB holds an area there that the encoding loses. */
  lemma CrossingLoses(b: Word, num: nat)
    requires num > 0 && b + AREA * num < WORDS && b % AREA == 0 && b / SPAN % 64 == 0
    requires (b + AREA * (num - 1)) / SPAN != b / SPAN
    ensures !AllLinkable(b, 0, num)
  {
    var a := b / SPAN * SPAN + SPAN;
    var k := (a - b) / AREA;
    assert a % AREA == 0 && Area(b, k) == a;
    assert a / SPAN == b / SPAN + 1;
    LinkableIff(a);
    assert !Linkable(Area(b, k));
  }

  lemma RegionIff(b: Word, num: nat)
    requires num > 0 && b + AREA * num < WORDS
    ensures AllLinkable(b, 0, num) <==> Region(b, num)
  {
    if Region(b, num) {
      forall j: nat | j < num
        ensures Linkable(Area(b, j))
      {
        RegionKeeps(b, num, j);
        LinkableIff(Area(b, j));
      }
    } else if AllLinkable(b, 0, num) {
      assert Linkable(Area(b, 0));
      LinkableIff(b);
      CrossingLoses(b, num);
    }
  }

  /** The free list is complete, ascending and terminated exactly on such a region. */
  lemma FreeListIff(m: Memory, b: Word, num: nat, fuel: nat)
    requires num > 0 && b + AREA * num < WORDS && Chained(m, b, num) && fuel >= num
    ensures Walk(m, Link(b), fuel) == AllFrom(b, 0, num) <==> Region(b, num)
  {
    WalkIff(m, b, 0, num, fuel);
    RegionIff(b, num);
  }

  /** The link held after following `n` links. */
  function LinkAfter(m: Memory, l: Word, n: nat): Word {
    if n == 0 then l else m(Follow(LinkAfter(m, l, n - 1)))
  }

  lemma {:induction false} LinkAfterIs(m: Memory, b: Word, num: nat, n: nat)
    requires b + AREA * num < WORDS && Chained(m, b, num) && AllLinkable(b, 0, num) && n < num
    ensures LinkAfter(m, Link(Area(b, 0)), n) == Link(Area(b, n))
  {
    if n > 0 {
      LinkAfterIs(m, b, num, n - 1);
      assert Linkable(Area(b, n - 1));
    }
  }

  /** The limit link is met after exactly `num - 3` links. */
  lemma LimitReached(m: Memory, b: Word, num: nat, n: nat)
    requires num >= 3 && b + AREA * num < WORDS && Chained(m, b, num) && Region(b, num) && n < num
    ensures LinkAfter(m, Link(b), n) == Link(Area(b, num - 3)) <==> n == num - 3
  {
    RegionIff(b, num);
    LinkAfterIs(m, b, num, n);
    assert Linkable(Area(b, n)) && Linkable(Area(b, num - 3));
    assert Area(b, 0) == b;
  }

  const SEC_CSA_BEGIN: Word := 0xD000_0100
  const SEC_CSA_END: Word := 0xD000_0D00

  /** The fixed region of the secondary cores qualifies: 48 areas. */
  lemma SecondaryRegion()
    ensures Areas(SEC_CSA_BEGIN, SEC_CSA_END) == 48 && Region(SEC_CSA_BEGIN, 48)
  {
  }
}
