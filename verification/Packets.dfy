/**
 * The text conventions the packet handlers share: `strchr`, hexadecimal numbers,
 * hex-encoded bytes, and the binary escape.  A packet is followed by a zero byte.
 */
module Packets {
  import opened Words
  import opened Rsp

  const COLON: Byte := 0x3A
  const COMMA: Byte := 0x2C
  const ESCAPE: Byte := 0x7D

  lemma MarksAre()
    ensures COLON == ':' as int && COMMA == ',' as int && ESCAPE == '}' as int && ZERO == '0' as int
  {
  }

  /** The byte at `i`, or the terminator past the end. */
  function CharAt(p: seq<Byte>, i: nat): Byte {
    if i < |p| then p[i] else 0
  }

  /** `strchr` from position `i`: the first `c` before any zero byte, or the length. */
  function Find(p: seq<Byte>, c: Byte, i: nat): (j: nat)
    requires i <= |p|
    ensures i <= j <= |p|
    ensures j < |p| ==> p[j] == c && forall k :: i <= k < j ==> p[k] != c
    decreases |p| - i
  {
    if i == |p| then i else if p[i] == c then i else if p[i] == 0 then |p| else Find(p, c, i + 1)
  }

  /** `strchr` passes over other characters. */
  lemma {:induction false} FindSkips(p: seq<Byte>, c: Byte, i: nat, j: nat)
    requires i <= j <= |p|
    requires forall k :: i <= k < j ==> p[k] != c && p[k] != 0
    ensures Find(p, c, i) == Find(p, c, j)
    decreases j - i
  {
    if i < j {
      FindSkips(p, c, i + 1, j);
    }
  }

  /** It finds the first `c`, unless a zero byte comes before it. */
  lemma {:induction false} FindIff(p: seq<Byte>, c: Byte, i: nat, j: nat)
    requires i <= j < |p| && c != 0
    ensures Find(p, c, i) == j <==> p[j] == c && forall k :: i <= k < j ==> p[k] != c && p[k] != 0
    decreases j - i
  {
    if i < j {
      FindIff(p, c, i + 1, j);
    }
  }

  lemma FindNothing(p: seq<Byte>, c: Byte, i: nat)
    requires i <= |p| && c !in p[i..]
    ensures Find(p, c, i) == |p|
  {
    assert forall k :: i <= k < |p| ==> p[k] == p[i..][k - i];
  }

  // ----- Numbers -----------------------------------------------------------------

  const ZERO: Byte := 0x30

  predicate IsSpace(c: Byte) {
    c == 0x20 || 0x09 <= c <= 0x0D
  }

  function SkipSpace(p: seq<Byte>, i: nat): (j: nat)
    requires i <= |p|
    ensures i <= j <= |p|
    decreases |p| - i
  {
    if i < |p| && IsSpace(p[i]) then SkipSpace(p, i + 1) else i
  }

  /** `0x` or `0X` at `i`. */
  predicate IsPrefix(p: seq<Byte>, i: nat) {
    i + 1 < |p| && p[i] == ZERO && IsX(p[i + 1])
  }

  predicate IsX(c: Byte) {
    c == 0x78 || c == 0x58
  }

  /** The hexadecimal digits from position `i` on, appended to `v`. */
  function HexNumber(p: seq<Byte>, i: nat, v: nat): nat
    requires i <= |p|
    decreases |p| - i
  {
    if i < |p| && HexVal(p[i]) >= 0 then HexNumber(p, i + 1, 16 * v + HexVal(p[i])) else v
  }

  /** `strtoull(.., 16)` from position `i`: spaces, a sign, a prefix, digits; a magnitude of 2^64 and more gives
      2^64 - 1, and a minus sign negates modulo 2^64. */
  function Strtoull(p: seq<Byte>, i: nat): (n: nat)
    requires i <= |p|
    ensures n < DOUBLES
  {
    var s := SkipSpace(p, i);
    var signed := s < |p| && (p[s] == PLUS || p[s] == MINUS);
    var d := if signed then s + 1 else s;
    var m := HexNumber(p, if IsPrefix(p, d) then d + 2 else d, 0);
    if m >= DOUBLES then DOUBLES - 1 else if signed && p[s] == MINUS && m > 0 then DOUBLES - m else m
  }

  function Digits(v: nat): (ds: seq<Byte>)
    ensures |ds| > 0
  {
    if v < 16 then [HexDigit(v)] else Digits(v / 16) + [HexDigit(v % 16)]
  }

  /** The digits are the small hexadecimal ones, the highest first. */
  lemma DigitsAre(u: nat, n: nat)
    requires n < 16
    ensures Digits(n) == [LOWER[n] as int]
    ensures u > 0 ==> Digits(16 * u + n) == Digits(u) + [LOWER[n] as int]
  {
    HexDigitIs(n);
    assert (16 * u + n) / 16 == u && (16 * u + n) % 16 == n;
  }

  /** A number in hexadecimal holds no separator, no frame character and no zero byte. */
  lemma {:induction false} DigitsArePlain(v: nat)
    ensures forall d :: d in Digits(v) ==> d != COLON && d != COMMA && d != 0 && HexVal(d) >= 0
    ensures HashFree(Digits(v))
  {
    if v >= 16 {
      DigitsArePlain(v / 16);
    }
  }

  function Shifted(u: nat, n: nat): nat {
    if n == 0 then u else 16 * Shifted(u, n - 1)
  }

  /** Reading the digits of `v` appends them to what was read before. */
  lemma {:induction false} ReadsDigits(p: seq<Byte>, i: nat, v: nat, u: nat)
    requires i + |Digits(v)| <= |p| && p[i..i + |Digits(v)|] == Digits(v)
    ensures HexNumber(p, i, u) == HexNumber(p, i + |Digits(v)|, Shifted(u, |Digits(v)|) + v)
  {
    var n := |Digits(v)|;
    assert p[i + n - 1] == Digits(v)[n - 1] == HexDigit(v % 16);
    HexRoundTrip(v % 16);
    if v < 16 {
      assert Shifted(u, 1) == 16 * Shifted(u, 0);
    } else {
      assert p[i..i + n - 1] == Digits(v)[..n - 1] == Digits(v / 16);
      ReadsDigits(p, i, v / 16, u);
    }
  }

  /** Digits hold no space, sign or `x`. */
  lemma DigitIsPlain(c: Byte)
    requires HexVal(c) >= 0
    ensures !IsSpace(c) && c != PLUS && c != MINUS && !IsX(c)
  {
  }

  /** The blanks from `i` up to `j`. */
  predicate Blanks(p: seq<Byte>, i: nat, j: nat)
    requires j <= |p|
  {
    forall k :: i <= k < j ==> p[k] == ' ' as int || 9 <= p[k] <= 13
  }

  lemma {:induction false} SkipsBlank(p: seq<Byte>, i: nat, j: nat)
    requires i <= j <= |p| && Blanks(p, i, j) && (j < |p| ==> !IsSpace(p[j]))
    ensures SkipSpace(p, i) == j
    decreases j - i
  {
    if i < j {
      SkipsBlank(p, i + 1, j);
    }
  }

  /** No sign, or one, from `s` up to `d`. */
  predicate SignAt(p: seq<Byte>, s: nat, d: nat)
    requires s <= d <= |p|
  {
    d == s || (d == s + 1 && (p[s] == '+' as int || p[s] == '-' as int))
  }

  /** No prefix, or one, from `d` up to `n`. */
  predicate PrefixAt(p: seq<Byte>, d: nat, n: nat)
    requires d <= n <= |p|
  {
    n == d || (n == d + 2 && p[d] == '0' as int && (p[d + 1] == 'x' as int || p[d + 1] == 'X' as int))
  }

  /** Such a character behind a number would be taken for a part of it. */
  predicate Continues(c: Byte) {
    HexVal(c) >= 0 || c == 'x' as int || c == 'X' as int
  }

  /** The digits of `v` start at `n`, and end before a character that would continue them. */
  predicate DigitsAt(p: seq<Byte>, n: nat, v: nat) {
    var e := n + |Digits(v)|;
    && e <= |p| && p[n..e] == Digits(v) && (e < |p| ==> !Continues(p[e]))
  }

  /** The number read behind blanks, a sign and a prefix: cut at 2^64 - 1, and negated modulo 2^64 by a minus. */
  lemma NumberIs(p: seq<Byte>, i: nat, s: nat, d: nat, n: nat, v: nat)
    requires i <= s <= d <= n <= |p| && Blanks(p, i, s) && SignAt(p, s, d) && PrefixAt(p, d, n) && DigitsAt(p, n, v)
    ensures Strtoull(p, i)
         == if v >= DOUBLES then DOUBLES - 1 else if d > s && p[s] == '-' as int then (DOUBLES - v) % DOUBLES else v
  {
    hide HexNumber, SkipSpace, Digits;
    DigitStarts(p, n, v);
    SkipsBlank(p, i, s);
    ReadsDigits(p, n, v, 0);
    ShiftedZero(|Digits(v)|);
    NoDigits(p, n + |Digits(v)|, v);
  }

  /** Where digits start there is no blank, sign or prefix. */
  lemma DigitStarts(p: seq<Byte>, n: nat, v: nat)
    requires DigitsAt(p, n, v)
    ensures n < |p| && !IsSpace(p[n]) && p[n] != PLUS && p[n] != MINUS && !IsPrefix(p, n)
  {
    var ds := p[n..n + |Digits(v)|];
    DigitsArePlain(v);
    assert p[n] == ds[0] && ds[0] in ds;
    DigitIsPlain(p[n]);
    if |ds| > 1 {
      assert p[n + 1] == ds[1] && ds[1] in ds;
      DigitIsPlain(p[n + 1]);
    }
  }

  lemma NoDigits(p: seq<Byte>, e: nat, v: nat)
    requires e <= |p| && (e < |p| ==> HexVal(p[e]) < 0)
    ensures HexNumber(p, e, v) == v
  {
  }

  /** Without digits the number is 0. */
  lemma NoNumberIs(p: seq<Byte>, i: nat, s: nat, d: nat)
    requires i <= s <= d <= |p| && Blanks(p, i, s) && SignAt(p, s, d)
    requires d < |p| ==> HexVal(p[d]) < 0 && (d == s ==> !Blanks(p, d, d + 1) && !SignAt(p, d, d + 1))
    ensures Strtoull(p, i) == 0
  {
    hide HexNumber, SkipSpace;
    SkipsBlank(p, i, s);
    NoDigits(p, d, 0);
  }

  /** A number in hexadecimal is read back, up to any character that would continue it. */
  lemma NumberRoundTrip(p: seq<Byte>, i: nat, v: nat)
    requires v < DOUBLES && i + |Digits(v)| <= |p| && p[i..i + |Digits(v)|] == Digits(v)
    requires i + |Digits(v)| < |p| ==> !Continues(p[i + |Digits(v)|])
    ensures Strtoull(p, i) == v
  {
    NumberIs(p, i, i, i, i, v);
  }

  lemma {:induction false} ShiftedZero(n: nat)
    ensures Shifted(0, n) == 0
  {
    if n > 0 {
      ShiftedZero(n - 1);
    }
  }

  /** A number between a head and a separator: the separator is found behind it, and the number is read back. */
  lemma NumberField(p: seq<Byte>, head: seq<Byte>, v: nat, sep: Byte, tail: seq<Byte>)
    requires p == head + Digits(v) + [sep] + tail && v < DOUBLES && (sep == COLON || sep == COMMA)
    ensures Find(p, sep, |head|) == |head| + |Digits(v)| && Strtoull(p, |head|) == v
    ensures forall k :: |head| <= k < |head| + |Digits(v)| ==> p[k] != COLON && p[k] != COMMA && p[k] != 0
  {
    var ds, c := Digits(v), |head| + |Digits(v)|;
    DigitsArePlain(v);
    forall k | |head| <= k < c
      ensures p[k] != COLON && p[k] != COMMA && p[k] != 0
    {
      assert p[k] == ds[k - |head|] && ds[k - |head|] in ds;
    }
    FindSkips(p, sep, |head|, c);
    assert p[|head|..c] == ds && p[c] == sep;
    NumberRoundTrip(p, |head|, v);
  }

  lemma NumberAtEnd(p: seq<Byte>, head: seq<Byte>, v: nat)
    requires p == head + Digits(v) && v < DOUBLES
    ensures Strtoull(p, |head|) == v
  {
    assert p[|head|..|head| + |Digits(v)|] == Digits(v);
    NumberRoundTrip(p, |head|, v);
  }

  lemma Regroup(a: seq<Byte>, b: seq<Byte>, c: seq<Byte>)
    ensures (a + b) + c == a + (b + c)
  {
  }

  // ----- The binary escape ----------------------------------------------------------

  function Flip(b: Byte): Byte {
    if b / 32 % 2 == 1 then b - 32 else b + 32
  }

  /** Exactly bit 5 is changed. */
  lemma FlipIs(b: Byte)
    ensures Flip(b) / 64 == b / 64 && Flip(b) % 32 == b % 32 && Flip(b) / 32 % 2 != b / 32 % 2
  {
  }

  /** Decoding: an escape at the very end takes the terminator with it. */
  function Unescape(d: seq<Byte>): (r: seq<Byte>)
    ensures |r| <= |d|
  {
    if d == [] then []
    else if d[0] == ESCAPE then
      if |d| == 1 then [Flip(0)] else [Flip(d[1])] + Unescape(d[2..])
    else [d[0]] + Unescape(d[1..])
  }

  /** The byte behind a `}` is stored with bit 5 changed, and any other byte as it is. */
  lemma UnescapeIs(b: Byte, rest: seq<Byte>) returns (v: Byte)
    ensures v / 64 == b / 64 && v % 32 == b % 32 && v / 32 % 2 != b / 32 % 2
    ensures Unescape(['}' as int, b] + rest) == [v] + Unescape(rest)
    ensures b != '}' as int ==> Unescape([b] + rest) == [b] + Unescape(rest)
    ensures Unescape(['}' as int]) == [0x20] && Unescape([]) == []
  {
    v := Flip(b);
    FlipIs(b);
    assert (['}' as int, b] + rest)[2..] == rest && ([b] + rest)[1..] == rest;
  }

  /** Encoding: `#`, `$` and the escape itself must be escaped, and a client may escape more. */
  function Escaped(b: Byte, more: Byte -> bool): seq<Byte> {
    if b == HASH || b == DOLLAR || b == ESCAPE || more(b) then [ESCAPE, Flip(b)] else [b]
  }

  function Escape(data: seq<Byte>, more: Byte -> bool): seq<Byte> {
    if data == [] then [] else Escaped(data[0], more) + Escape(data[1..], more)
  }

  /** Unescaping inverts escaping for every byte string. */
  lemma {:induction false} EscapeRoundTrip(data: seq<Byte>, more: Byte -> bool)
    ensures Unescape(Escape(data, more)) == data
  {
    if data != [] {
      var e := Escape(data, more);
      var rest := Escape(data[1..], more);
      EscapeRoundTrip(data[1..], more);
      if |Escaped(data[0], more)| == 2 {
        assert e[2..] == rest && e[0] == ESCAPE && e[1] == Flip(data[0]);
      } else {
        assert e[1..] == rest && e[0] == data[0];
      }
    }
  }

  /** An escaped payload contains neither `#` nor `$`, so it passes through a frame unchanged. */
  lemma {:induction false} EscapedIsHashFree(data: seq<Byte>, more: Byte -> bool)
    requires !more(Flip(HASH)) && !more(Flip(DOLLAR))
    ensures HashFree(Escape(data, more))
    ensures DOLLAR !in Escape(data, more)
  {
    if data != [] {
      EscapedIsHashFree(data[1..], more);
    }
  }

  // ----- Hex-encoded bytes -----------------------------------------------------------

  function HexBytes(bytes: seq<Byte>): (h: seq<Byte>)
    ensures |h| == 2 * |bytes|
  {
    if bytes == [] then []
    else HexBytes(bytes[..|bytes| - 1]) + [HexDigit(bytes[|bytes| - 1] / 16), HexDigit(bytes[|bytes| - 1] % 16)]
  }

  lemma {:induction false} HexBytesAreHashFree(bytes: seq<Byte>)
    ensures HashFree(HexBytes(bytes))
  {
    if bytes != [] {
      HexBytesAreHashFree(bytes[..|bytes| - 1]);
    }
  }

  lemma {:induction false} HexBytesAt(bytes: seq<Byte>, i: nat)
    requires i < |bytes|
    ensures HexBytes(bytes)[2 * i] == HexDigit(bytes[i] / 16) && HexBytes(bytes)[2 * i + 1] == HexDigit(bytes[i] % 16)
  {
    if i < |bytes| - 1 {
      HexBytesAt(bytes[..|bytes| - 1], i);
    }
  }
}
