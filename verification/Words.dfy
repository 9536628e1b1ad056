/**
 * 32-bit words and bytes as bounded integers: shifts and masks are written as
 * division and remainder, and a word is its four bytes in little-endian order.
 */
module Words {
  const WORDS: int := 0x1_0000_0000
  const DOUBLES: int := 0x1_0000_0000_0000_0000

  type Word = w: int | 0 <= w < WORDS
  type Byte = b: int | 0 <= b < 256

  lemma SliceNext<T>(s: seq<T>, i: nat, j: nat)
    requires i <= j < |s|
    ensures s[i..j + 1] == s[i..j] + [s[j]] && s[..j + 1] == s[..j] + [s[j]]
  {
  }

  /** The bytes of an ASCII text. */
  function Text(s: string): (bs: seq<Byte>)
    ensures |bs| == |s|
  {
    seq(|s|, (i: nat) requires i < |s| => s[i] as int % 256)
  }

  datatype Option<T> = None | Some(value: T)

  /** 32-bit addition. */
  function Add32(a: Word, b: Word): Word {
    if a + b < WORDS then a + b else a + b - WORDS
  }

  /** 32-bit subtraction. */
  function Sub32(a: Word, b: Word): Word {
    if a >= b then a - b else a - b + WORDS
  }

  lemma AddMod(x: nat, y: nat)
    ensures Add32(x % WORDS, y % WORDS) == (x + y) % WORDS
  {
  }

  lemma AddWord(x: Word, y: nat)
    ensures Add32(x, y % WORDS) == (x + y) % WORDS
  {
  }

  /** The sum of numbers of any size. */
  function Total(ns: seq<int>): int {
    if ns == [] then 0 else ns[0] + Total(ns[1..])
  }

  /** Each of them is added once. */
  lemma {:induction false} TotalSplits(a: seq<int>, b: seq<int>)
    ensures Total(a + b) == Total(a) + Total(b)
    ensures |a| == 1 ==> Total(a) == a[0]
  {
    if a == [] {
      assert a + b == b;
    } else {
      assert (a + b)[1..] == a[1..] + b;
      TotalSplits(a[1..], b);
    }
  }

  lemma {:induction false} TotalIsNat(ns: seq<int>)
    requires forall i :: 0 <= i < |ns| ==> ns[i] >= 0
    ensures Total(ns) >= 0
  {
    if ns != [] {
      TotalIsNat(ns[1..]);
    }
  }

  /** A logical shift right by `n`. */
  function Shr(v: Word, n: nat): Word
    decreases n
  {
    if n == 0 then v else Shr(v / 2, n - 1)
  }

  /** Bitwise or. */
  function Or(a: nat, b: nat): nat {
    if a == 0 then b else if b == 0 then a
    else 2 * Or(a / 2, b / 2) + (if a % 2 == 1 || b % 2 == 1 then 1 else 0)
  }

  /** Bit `k` of a number. */
  function Bit(a: nat, k: nat): nat {
    if k == 0 then a % 2 else Bit(a / 2, k - 1)
  }

  /** A bit of the or is set exactly if it is set on either side. */
  lemma {:induction false} OrBit(a: nat, b: nat, k: nat)
    ensures Bit(Or(a, b), k) == 1 <==> Bit(a, k) == 1 || Bit(b, k) == 1
    decreases k
  {
    BitOfZero(k);
    if a > 0 && b > 0 && k > 0 {
      OrBit(a / 2, b / 2, k - 1);
    }
  }

  lemma {:induction false} BitOfZero(k: nat)
    ensures Bit(0, k) == 0
  {
    if k > 0 {
      BitOfZero(k - 1);
    }
  }

  lemma {:induction false} OrCommutes(a: nat, b: nat)
    ensures Or(a, b) == Or(b, a)
    decreases a
  {
    if a > 0 && b > 0 {
      OrCommutes(a / 2, b / 2);
    }
  }

  /** A shift left by `n`, with no bits lost. */
  function Shl(v: nat, n: nat): nat {
    if n == 0 then v else 2 * Shl(v, n - 1)
  }

  lemma {:induction false} ShlSum(v: nat, m: nat, n: nat)
    ensures Shl(Shl(v, m), n) == Shl(v, m + n)
  {
    if n > 0 {
      ShlSum(v, m, n - 1);
    }
  }

  lemma Shl4(v: nat)
    ensures Shl(v, 4) == 16 * v
  {
    assert Shl(v, 1) == 2 * Shl(v, 0);
    assert Shl(v, 2) == 2 * Shl(v, 1);
    assert Shl(v, 3) == 2 * Shl(v, 2);
  }

  lemma Shl16(v: nat)
    ensures Shl(v, 16) == 0x1_0000 * v
  {
    ShlSum(v, 4, 12);
    ShlSum(Shl(v, 4), 4, 8);
    ShlSum(Shl(Shl(v, 4), 4), 4, 4);
    Shl4(v);
    Shl4(16 * v);
    Shl4(0x100 * v);
    Shl4(0x1000 * v);
  }

  lemma ShlByte(v: nat)
    ensures Shl(v, 8) == 0x100 * v
  {
    ShlSum(v, 4, 4);
    Shl4(v);
    Shl4(16 * v);
  }

  /** Or is addition when one side lies below the other's lowest bit. */
  lemma {:induction false} OrDisjoint(h: nat, low: nat, n: nat)
    requires low < Shl(1, n)
    ensures Or(Shl(h, n), low) == Shl(h, n) + low
    decreases n
  {
    if n > 0 && low > 0 {
      OrDisjoint(h, low / 2, n - 1);
      assert Shl(h, n) / 2 == Shl(h, n - 1);
      if Shl(h, n) == 0 {
        assert Or(0, low) == low;
      }
    }
  }

  /** An or with a shifted number leaves the bits below as they are. */
  lemma {:induction false} OrSplit(a: nat, h: nat, low: nat, n: nat)
    requires low < Shl(1, n)
    ensures Or(Shl(a, n), Shl(h, n) + low) == Shl(Or(a, h), n) + low
    decreases n
  {
    if n > 0 {
      OrSplit(a, h, low / 2, n - 1);
      var x, y := Shl(a, n - 1), Shl(h, n - 1) + low / 2;
      assert Shl(a, n) == 2 * x && Shl(h, n) + low == 2 * y + low % 2;
      OrDouble(x, y, low % 2);
    }
  }

  lemma OrDouble(x: nat, y: nat, bit: nat)
    requires bit < 2
    ensures Or(2 * x, 2 * y + bit) == 2 * Or(x, y) + bit
  {
  }

  /** A number of `n` ones. */
  function Ones(n: nat): nat {
    if n == 0 then 0 else 2 * Ones(n - 1) + 1
  }

  lemma {:induction false} OnesAre(n: nat)
    ensures Ones(n) + 1 == Shl(1, n)
  {
    if n > 0 {
      OnesAre(n - 1);
    }
  }

  lemma OrOdd(y: nat, o: nat)
    ensures Or(y, 2 * o + 1) == 2 * Or(y / 2, o) + 1
  {
  }

  /** An or with ones has these as its low bits. */
  lemma {:induction false} OrOnes(y: nat, n: nat) returns (k: nat)
    ensures Or(y, Ones(n)) == k * (Ones(n) + 1) + Ones(n)
  {
    if n == 0 {
      k := y;
    } else {
      hide Or;
      k := OrOnes(y / 2, n - 1);
      var o := Ones(n - 1);
      OrOdd(y, o);
      assert k * (2 * o + 2) == 2 * (k * (o + 1));
    }
  }

  /** Byte `i` of a word, the least significant first. */
  function ByteOf(w: nat, i: nat): Byte {
    if i == 0 then w % 256 else ByteOf(w / 256, i - 1)
  }

  function WordOf(b0: Byte, b1: Byte, b2: Byte, b3: Byte): (w: Word)
    ensures ByteOf(w, 0) == b0 && ByteOf(w, 1) == b1 && ByteOf(w, 2) == b2 && ByteOf(w, 3) == b3
  {
    var w2 := Cons(b2, b3);
    var w1 := Cons(b1, w2);
    var w := Cons(b0, w1);
    assert ByteOf(w, 2) == ByteOf(w1, 1) == ByteOf(w2, 0);
    assert ByteOf(w, 3) == ByteOf(w1, 2) == ByteOf(w2, 1) == ByteOf(b3, 0);
    w
  }

  function Cons(b: Byte, rest: nat): (w: nat)
    ensures w % 256 == b && w / 256 == rest
  {
    b + 256 * rest
  }

  /** A word is determined by its bytes. */
  lemma WordFromBytes(w: Word)
    ensures WordOf(ByteOf(w, 0), ByteOf(w, 1), ByteOf(w, 2), ByteOf(w, 3)) == w
  {
    assert ByteOf(w, 1) == ByteOf(w / 256, 0);
    assert ByteOf(w, 2) == ByteOf(w / 256, 1) == ByteOf(w / 256 / 256, 0);
    assert ByteOf(w, 3) == ByteOf(w / 256, 2) == ByteOf(w / 256 / 256, 1) == ByteOf(w / 256 / 256 / 256, 0);
  }

  /** The value of four bytes. */
  lemma WordSum(b0: Byte, b1: Byte, b2: Byte, b3: Byte)
    ensures WordOf(b0, b1, b2, b3) == b0 + 0x100 * b1 + 0x1_0000 * b2 + 0x100_0000 * b3
  {
  }

  /** The bytes of a word. */
  lemma BytesSum(w: Word)
    ensures w == ByteOf(w, 0) + 0x100 * ByteOf(w, 1) + 0x1_0000 * ByteOf(w, 2) + 0x100_0000 * ByteOf(w, 3)
  {
    WordFromBytes(w);
    WordSum(ByteOf(w, 0), ByteOf(w, 1), ByteOf(w, 2), ByteOf(w, 3));
  }

  /** `w` with byte `i` replaced. */
  function SetByte(w: Word, i: nat, b: Byte): (r: Word)
    requires i < 4
    ensures forall j: nat :: j < 4 ==> ByteOf(r, j) == if j == i then b else ByteOf(w, j)
  {
    match i
    case 0 => WordOf(b, ByteOf(w, 1), ByteOf(w, 2), ByteOf(w, 3))
    case 1 => WordOf(ByteOf(w, 0), b, ByteOf(w, 2), ByteOf(w, 3))
    case 2 => WordOf(ByteOf(w, 0), ByteOf(w, 1), b, ByteOf(w, 3))
    case _ => WordOf(ByteOf(w, 0), ByteOf(w, 1), ByteOf(w, 2), b)
  }

  /** Bytes as a number, the least significant first. */
  function Little(bs: seq<Byte>): nat {
    if bs == [] then 0 else bs[0] + 256 * Little(bs[1..])
  }

  lemma {:induction false} LittleByte(bs: seq<Byte>, i: nat)
    requires i < |bs|
    ensures ByteOf(Little(bs), i) == bs[i]
  {
    if i > 0 {
      LittleByte(bs[1..], i - 1);
    }
  }

  lemma Shl8(v: nat, n: nat)
    ensures Shl(v, n + 8) == 256 * Shl(v, n)
  {
    ShlSum(v, n, 8);
    ShlSum(Shl(v, n), 4, 4);
    Shl4(Shl(v, n));
    Shl4(16 * Shl(v, n));
  }

  /** One more byte ors in above the others. */
  lemma {:induction false} LittleAppend(bs: seq<Byte>, b: Byte)
    ensures Little(bs + [b]) == Little(bs) + Shl(b, 8 * |bs|)
    ensures Little(bs) < Shl(1, 8 * |bs|)
  {
    if bs == [] {
      assert (bs + [b])[1..] == [];
    } else {
      assert (bs + [b])[1..] == bs[1..] + [b];
      LittleAppend(bs[1..], b);
      Shl8(b, 8 * |bs[1..]|);
      Shl8(1, 8 * |bs[1..]|);
    }
  }

  lemma LittleOr(bs: seq<Byte>, b: Byte)
    ensures Or(Little(bs), Shl(b, 8 * |bs|)) == Little(bs + [b])
  {
    LittleAppend(bs, b);
    OrCommutes(Little(bs), Shl(b, 8 * |bs|));
    OrDisjoint(b, Little(bs), 8 * |bs|);
  }

  lemma LittleFits(bs: seq<Byte>)
    requires |bs| <= 4
    ensures Little(bs) < WORDS
  {
    if |bs| > 0 {
      var a := bs[1..];
      if |a| > 0 {
        var c := a[1..];
        if |c| > 0 {
          assert Little(c[1..]) <= 255;
          assert Little(c) <= 0xFFFF;
        }
        assert Little(a) <= 0xFF_FFFF;
      }
    }
  }
}
