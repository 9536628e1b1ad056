/**
 * GDB Remote Serial Protocol framing, `tools/tc-gdbserver/rsp.c`: `$payload#cc` with
 * `+` and `-` acknowledgements, and 0x03 as the interrupt.
 */
module Rsp {
  import opened Words

  const DOLLAR: Byte := 0x24
  const HASH: Byte := 0x23
  const PLUS: Byte := 0x2B
  const MINUS: Byte := 0x2D
  const INTERRUPT: Byte := 0x03

  // ----- Hex and checksums --------------------------------------------------------

  function HexDigit(n: nat): (c: Byte)
    requires n < 16
    ensures c != HASH && c != DOLLAR
  {
    if n < 10 then 0x30 + n else 0x61 + n - 10
  }

  function HexVal(c: Byte): (v: int)
    ensures -1 <= v < 16
  {
    if 0x30 <= c <= 0x39 then c - 0x30
    else if 0x61 <= c <= 0x66 then c - 0x61 + 10
    else if 0x41 <= c <= 0x46 then c - 0x41 + 10
    else -1
  }

  lemma HexRoundTrip(n: nat)
    requires n < 16
    ensures HexVal(HexDigit(n)) == n
  {
  }

  const LOWER := "0123456789abcdef"
  const UPPER := "0123456789ABCDEF"

  /** The digits that are written. */
  lemma HexDigitIs(n: nat)
    requires n < 16
    ensures HexDigit(n) == LOWER[n] as int
  {
  }

  /** The digits that are read, small and capital, and nothing else. */
  lemma HexValIs(c: Byte, n: nat)
    requires n < 16
    ensures HexVal(c) == n <==> c == LOWER[n] as int || c == UPPER[n] as int
  {
  }

  function Sum(p: seq<Byte>): Byte {
    if p == [] then 0 else (Sum(p[..|p| - 1]) + p[|p| - 1]) % 256
  }

  function Frame(p: seq<Byte>): seq<Byte> {
    [DOLLAR] + p + [HASH, HexDigit(Sum(p) / 16), HexDigit(Sum(p) % 16)]
  }

  /** The two check characters are hex digits and name the payload's sum. */
  predicate Checks(p: seq<Byte>, c1: Byte, c2: Byte) {
    HexVal(c1) >= 0 && HexVal(c2) >= 0 && 16 * HexVal(c1) + HexVal(c2) == Sum(p)
  }

  /** A frame is accepted when it checks and leaves room for the terminator. */
  predicate Accepts(p: seq<Byte>, c1: Byte, c2: Byte, bufsz: nat) {
    |p| < bufsz && Checks(p, c1, c2)
  }

  lemma FrameChecks(p: seq<Byte>)
    ensures Checks(p, HexDigit(Sum(p) / 16), HexDigit(Sum(p) % 16))
  {
    HexRoundTrip(Sum(p) / 16);
    HexRoundTrip(Sum(p) % 16);
  }

  /** The running checksum is the sum of the bytes modulo 256. */
  lemma {:induction false} SumIsTotal(p: seq<Byte>)
    ensures Sum(p) == Total(p) % 256
  {
    if p != [] {
      var n := |p| - 1;
      SumIsTotal(p[..n]);
      TotalSplits([p[n]], []);
      TotalSplits(p[..n], [p[n]]);
      assert p[..n] + [p[n]] == p;
      AddLow(Total(p[..n]), p[n]);
    }
  }

  lemma AddLow(a: int, b: int)
    ensures (a % 256 + b) % 256 == (a + b) % 256
  {
  }

  lemma LowDigit(t: int)
    ensures t % 256 % 16 == t % 16 && t % 256 / 16 < 16 && t % 256 == 16 * (t % 256 / 16) + t % 16
  {
  }

  /** A frame is accepted exactly if it leaves room for the terminator and its two digits, small or capital, name
      that sum. */
  lemma AcceptsIff(p: seq<Byte>, c1: Byte, c2: Byte, bufsz: nat)
    ensures Accepts(p, c1, c2, bufsz) <==>
              && |p| < bufsz
              && (c1 == LOWER[Total(p) % 256 / 16] as int || c1 == UPPER[Total(p) % 256 / 16] as int)
              && (c2 == LOWER[Total(p) % 16] as int || c2 == UPPER[Total(p) % 16] as int)
  {
    SumIsTotal(p);
    var hi, lo := Total(p) % 256 / 16, Total(p) % 16;
    LowDigit(Total(p));
    HexValIs(c1, hi);
    HexValIs(c2, lo);
  }

  /** What is sent for a payload. */
  lemma FrameIs(p: seq<Byte>)
    ensures Frame(p)
         == ['$' as int] + p + ['#' as int, LOWER[Total(p) % 256 / 16] as int, LOWER[Total(p) % 16] as int]
  {
    SumIsTotal(p);
    LowDigit(Total(p));
    HexDigitIs(Total(p) % 256 / 16);
    HexDigitIs(Total(p) % 16);
  }

  /** For instance, the frame of `OK` is `$OK#9a`. */
  lemma OkayFrame()
    ensures Frame(['O' as int, 'K' as int]) == ['$' as int, 'O' as int, 'K' as int, '#' as int, '9' as int, 'a' as int]
  {
    var ok: seq<Byte> := [0x4F, 0x4B];
    assert ok[1..] == [0x4B] && ok[1..][1..] == [];
    assert Total(ok) == 0x9A;
    FrameIs(ok);
  }

  // ----- The recursive parser --------------------------------------------------------

  /** How a call ends: a payload, the interrupt, or the end of the stream; with the bytes read and the replies sent. */
  datatype Outcome =
    | Packet(payload: seq<Byte>, used: nat, replies: seq<Byte>)
    | Interrupt(used: nat, replies: seq<Byte>)
    | Closed(used: nat, replies: seq<Byte>)

  /** The first position from `i` on that satisfies the test, or the length. */
  function FindStart(s: seq<Byte>, i: nat): (j: nat)
    requires i <= |s|
    ensures i <= j <= |s|
    ensures forall k :: i <= k < j ==> s[k] != DOLLAR && s[k] != INTERRUPT
    ensures j < |s| ==> s[j] == DOLLAR || s[j] == INTERRUPT
    decreases |s| - i
  {
    if i == |s| || s[i] == DOLLAR || s[i] == INTERRUPT then i else FindStart(s, i + 1)
  }

  function FindHash(s: seq<Byte>, i: nat): (j: nat)
    requires i <= |s|
    ensures i <= j <= |s|
    ensures forall k :: i <= k < j ==> s[k] != HASH
    ensures j < |s| ==> s[j] == HASH
    decreases |s| - i
  {
    if i == |s| || s[i] == HASH then i else FindHash(s, i + 1)
  }

  datatype Item = Accepted(payload: seq<Byte>, next: nat) | Rejected(next: nat) | Broken(next: nat) | Ended

  /** The next frame or interrupt from position `i` on, and where reading resumes after it. */
  function NextItem(s: seq<Byte>, i: nat, bufsz: nat): (item: Item)
    requires i <= |s|
    ensures !item.Ended? ==> i < item.next <= |s|
  {
    var start := FindStart(s, i);
    if start == |s| then Ended
    else if s[start] == INTERRUPT then Broken(start + 1)
    else
      var hash := FindHash(s, start + 1);
      if hash + 2 >= |s| then Ended
      else if Accepts(s[start + 1..hash], s[hash + 1], s[hash + 2], bufsz) then Accepted(s[start + 1..hash], hash + 3)
      else Rejected(hash + 3)
  }

  /** Parsing `s` from position `i`, with the replies already sent. */
  function Parse(s: seq<Byte>, i: nat, bufsz: nat, replies: seq<Byte>): Outcome
    requires i <= |s|
    decreases |s| - i
  {
    match NextItem(s, i, bufsz)
    case Ended => Closed(|s|, replies)
    case Broken(next) => Interrupt(next, replies)
    case Accepted(payload, next) => Packet(payload, next, replies + [PLUS])
    case Rejected(next) => Parse(s, next, bufsz, replies + [MINUS])
  }

  // ----- The connection ------------------------------------------------------------------

  class Connection {
    const input: seq<Byte>  // everything the peer will send before it closes
    var pos: nat
    var sent: seq<Byte>

    constructor (input: seq<Byte>)
      ensures this.input == input && pos == 0 && sent == []
    {
      this.input, pos, sent := input, 0, [];
    }

    ghost predicate Valid()
      reads this
    {
      pos <= |input|
    }

    method ReadByte() returns (ok: bool, c: Byte)
      requires Valid()
      modifies this`pos
      ensures Valid() && ok == (old(pos) < |input|)
      ensures if ok then pos == old(pos) + 1 && c == input[old(pos)] else pos == old(pos)
    {
      if pos < |input| {
        ok, c := true, input[pos];
        pos := pos + 1;
      } else {
        ok, c := false, 0;
      }
    }

    method Write(bytes: seq<Byte>)
      modifies this`sent
      ensures sent == old(sent) + bytes
    {
      sent := sent + bytes;
    }

    /** Skip to the start of a frame: 1 at a `$`, -2 at the interrupt, -1 at the end. */
    method Hunt() returns (code: int)
      requires Valid()
      modifies this`pos
      ensures Valid()
      ensures var start := FindStart(input, old(pos));
              if start == |input| then code == -1 && pos == |input|
              else pos == start + 1 && code == (if input[start] == INTERRUPT then -2 else 1)
    {
      var ok, c := ReadByte();
      if !ok {
        return -1;
      }
      while c != DOLLAR
        invariant Valid() && pos > old(pos) && c == input[pos - 1]
        invariant FindStart(input, old(pos)) == FindStart(input, pos - 1)
        decreases |input| - pos
      {
        if c == INTERRUPT {
          return -2;
        }
        ok, c := ReadByte();
        if !ok {
          return -1;
        }
      }
      return 1;
    }

    /** Collect a payload up to `#`, as much of it as fits, and its running sum. */
    method Collect(buf: array<Byte>, bufsz: nat) returns (ok: bool, len: nat, sum: Byte, fits: bool)
      requires Valid() && 0 < bufsz <= buf.Length
      modifies this`pos, buf
      ensures Valid()
      ensures var hash := FindHash(input, old(pos));
              && ok == (hash < |input|)
              && (if ok
                  then pos == hash + 1 && fits == (hash - old(pos) < bufsz)
                       && (fits ==> len == hash - old(pos) && buf[..len] == input[old(pos)..hash]
                                    && sum == Sum(input[old(pos)..hash]))
                  else pos == |input|)
    {
      len, sum, fits := 0, 0, true;
      while true
        invariant Valid() && pos >= old(pos) && FindHash(input, old(pos)) == FindHash(input, pos)
        invariant fits == (pos - old(pos) < bufsz) && len < bufsz
        invariant fits ==> len == pos - old(pos) && buf[..len] == input[old(pos)..pos]
                           && sum == Sum(input[old(pos)..pos])
        decreases |input| - pos
      {
        var c;
        ok, c := ReadByte();
        if !ok {
          return;
        }
        if c == HASH {
          return;
        }
        if len + 1 >= bufsz {
          fits := false;
        } else {
          buf[len] := c;
          len, sum := len + 1, (sum + c) % 256;
          assert input[old(pos)..pos] == input[old(pos)..pos - 1] + [c];
        }
      }
    }

    /** The two check characters against the running sum. */
    method Check(sum: Byte) returns (ok: bool, good: bool)
      requires Valid()
      modifies this`pos
      ensures Valid() && ok == (old(pos) + 2 <= |input|)
      ensures if ok
              then pos == old(pos) + 2
                   && good == (&& HexVal(input[old(pos)]) >= 0 && HexVal(input[old(pos) + 1]) >= 0
                               && 16 * HexVal(input[old(pos)]) + HexVal(input[old(pos) + 1]) == sum)
              else pos == |input|
    {
      var c1, c2;
      good := false;
      ok, c1 := ReadByte();
      if ok {
        ok, c2 := ReadByte();
        if ok {
          var hi, lo := HexVal(c1), HexVal(c2);
          good := hi >= 0 && lo >= 0 && 16 * hi + lo == sum;
        }
      }
    }

    /** One frame: 1 accepted, 0 rejected, -1 at the end, -2 at the interrupt. */
    method GetFrame(buf: array<Byte>, bufsz: nat) returns (code: int, len: nat)
      requires Valid() && 0 < bufsz <= buf.Length
      modifies this`pos, buf
      ensures Valid()
      ensures match NextItem(input, old(pos), bufsz)
              case Accepted(payload, next) =>
                code == 1 && pos == next && len == |payload| < bufsz && buf[..len] == payload
              case Rejected(next) => code == 0 && pos == next
              case Broken(next) => code == -2 && pos == next
              case Ended => code == -1 && pos == |input|
    {
      len := 0;
      code := Hunt();
      if code != 1 {
        return;
      }
      var ok, sum, fits;
      ok, len, sum, fits := Collect(buf, bufsz);
      if !ok {
        return -1, len;
      }
      var good;
      ok, good := Check(sum);
      if !ok {
        return -1, len;
      }
      code := if fits && good then 1 else 0;
    }

    /** `rsp_get_packet` does what the parser does: same result, same bytes read, same replies. */
    method GetPacket(buf: array<Byte>, bufsz: nat) returns (n: int)
      requires Valid() && 0 < bufsz <= buf.Length
      modifies this`pos, this`sent, buf
      ensures Valid()
      ensures match Parse(input, old(pos), bufsz, old(sent))
              case Packet(payload, used, replies) =>
                n == |payload| && n < buf.Length && buf[..n] == payload && buf[n] == 0 && pos == used && sent == replies
              case Interrupt(used, replies) => n == -2 && pos == used && sent == replies
              case Closed(used, replies) => n == -1 && pos == used && sent == replies
    {
      while true
        invariant Valid()
        invariant Parse(input, old(pos), bufsz, old(sent)) == Parse(input, pos, bufsz, sent)
        decreases |input| - pos
      {
        var code, len := GetFrame(buf, bufsz);
        if code < 0 {
          return code;
        }
        if code == 1 {
          Write([PLUS]);
          buf[len] := 0;
          return len;
        }
        Write([MINUS]);
      }
    }

    /** Build `$data#cc`, where `cc` is the sum of the bytes modulo 256. */
    method BuildFrame(data: seq<Byte>) returns (p: seq<Byte>)
      ensures p == Frame(data)
      ensures var (hi, lo) := (Total(data) % 256 / 16, Total(data) % 16);
              p == ['$' as int] + data + ['#' as int, LOWER[hi] as int, LOWER[lo] as int]
    {
      var sum: Byte := 0;
      p := [DOLLAR];
      for i := 0 to |data|
        invariant p == [DOLLAR] + data[..i] && sum == Sum(data[..i])
      {
        p, sum := p + [data[i]], (sum + data[i]) % 256;
        assert data[..i + 1][..i] == data[..i];
      }
      assert data[..|data|] == data;
      p := p + [HASH] + [HexDigit(sum / 16)] + [HexDigit(sum % 16)];
      FrameIs(data);
    }

    /** `rsp_put_packet` sends the frame once more for every leading `-`, and ends at the first other byte. */
    method PutPacket(data: seq<Byte>) returns (rc: int)
      requires Valid()
      modifies this`pos, this`sent
      ensures Valid()
      ensures var naks := Naks(input, old(pos));
              && sent == old(sent) + Repeat(Frame(data), naks + 1)
              && if old(pos) + naks < |input| then rc == 0 && pos == old(pos) + naks + 1
                 else rc == -1 && pos == |input|
    {
      hide Frame;
      while true
        invariant Valid() && pos >= old(pos)
        invariant Naks(input, old(pos)) == pos - old(pos) + Naks(input, pos)
        invariant sent == old(sent) + Repeat(Frame(data), pos - old(pos))
        decreases |input| - pos
      {
        var p := BuildFrame(data);
        Write(p);
        var ok, ack := ReadByte();
        if !ok {
          return -1;
        }
        if ack != MINUS {
          return 0;
        }
      }
    }
  }

  /** How many `-` lead the stream from position `i` on. */
  function Naks(s: seq<Byte>, i: nat): (n: nat)
    requires i <= |s|
    ensures i + n <= |s|
    decreases |s| - i
  {
    if i < |s| && s[i] == MINUS then 1 + Naks(s, i + 1) else 0
  }

  /** A rejection for each leading `-`, and no more. */
  lemma {:induction false} NaksAre(s: seq<Byte>, i: nat, n: nat)
    requires i + n <= |s| && forall k :: i <= k < i + n ==> s[k] == '-' as int
    requires i + n < |s| ==> s[i + n] != '-' as int
    ensures Naks(s, i) == n
    decreases n
  {
    if n > 0 {
      NaksAre(s, i + 1, n - 1);
    }
  }

  function Repeat(frame: seq<Byte>, n: nat): seq<Byte> {
    if n == 0 then [] else Repeat(frame, n - 1) + frame
  }

  /** Copy `k` of the frame. */
  lemma {:induction false} RepeatAt(frame: seq<Byte>, n: nat, k: nat)
    requires k < n
    ensures |Repeat(frame, n)| == n * |frame| && k * |frame| + |frame| <= |Repeat(frame, n)|
    ensures Repeat(frame, n)[k * |frame|..k * |frame| + |frame|] == frame
  {
    RepeatLength(frame, n - 1);
    assert n * |frame| == (n - 1) * |frame| + |frame|;
    if k < n - 1 {
      RepeatAt(frame, n - 1, k);
      assert Repeat(frame, n)[k * |frame|..k * |frame| + |frame|]
          == Repeat(frame, n - 1)[k * |frame|..k * |frame| + |frame|];
    }
  }

  lemma {:induction false} RepeatLength(frame: seq<Byte>, n: nat)
    ensures |Repeat(frame, n)| == n * |frame|
  {
    if n > 0 {
      RepeatLength(frame, n - 1);
      assert n * |frame| == (n - 1) * |frame| + |frame|;
    }
  }

  // ----- What the parser finds ------------------------------------------------------

  predicate Quiet(noise: seq<Byte>) {
    forall k :: 0 <= k < |noise| ==> noise[k] != DOLLAR && noise[k] != INTERRUPT
  }

  predicate HashFree(p: seq<Byte>) {
    forall k :: 0 <= k < |p| ==> p[k] != HASH
  }

  /** A frame with the noise before it. */
  datatype Piece = Piece(noise: seq<Byte>, payload: seq<Byte>, c1: Byte, c2: Byte)

  function Length(x: Piece): nat {
    |x.noise| + |x.payload| + 4
  }

  /** The bytes of `x` stand in `s` from position `i` on: noise, `$`, payload, `#`, two check characters. */
  predicate Stands(s: seq<Byte>, i: nat, x: Piece) {
    var start := i + |x.noise|;
    var hash := start + 1 + |x.payload|;
    && i + Length(x) <= |s|
    && s[i..start] == x.noise && s[start] == DOLLAR && s[start + 1..hash] == x.payload
    && s[hash] == HASH && s[hash + 1] == x.c1 && s[hash + 2] == x.c2
  }

  predicate Good(x: Piece, bufsz: nat) {
    Quiet(x.noise) && HashFree(x.payload) && Accepts(x.payload, x.c1, x.c2, bufsz)
  }

  predicate Bad(x: Piece, bufsz: nat) {
    Quiet(x.noise) && HashFree(x.payload) && !Accepts(x.payload, x.c1, x.c2, bufsz)
  }

  /** Bad frames `xs` stand one after the other from `i` up to `j`. */
  predicate BadFrames(s: seq<Byte>, i: nat, xs: seq<Piece>, j: nat, bufsz: nat)
    decreases |xs|
  {
    if xs == [] then i == j
    else Bad(xs[0], bufsz) && Stands(s, i, xs[0]) && BadFrames(s, i + Length(xs[0]), xs[1..], j, bufsz)
  }

  lemma QuietSlice(s: seq<Byte>, i: nat, j: nat)
    requires i <= j <= |s|
    ensures Quiet(s[i..j]) <==> forall k :: i <= k < j ==> s[k] != DOLLAR && s[k] != INTERRUPT
  {
    forall k | i <= k < j
      ensures s[k] == s[i..j][k - i]
    {
    }
  }

  lemma HashFreeSlice(s: seq<Byte>, i: nat, j: nat)
    requires i <= j <= |s|
    ensures HashFree(s[i..j]) <==> forall k :: i <= k < j ==> s[k] != HASH
  {
    forall k | i <= k < j
      ensures s[k] == s[i..j][k - i]
    {
    }
  }

  lemma FindStartIs(s: seq<Byte>, i: nat, j: nat)
    requires i <= j < |s| && (s[j] == DOLLAR || s[j] == INTERRUPT) && Quiet(s[i..j])
    ensures FindStart(s, i) == j
  {
    QuietSlice(s, i, j);
    var found := FindStart(s, i);
    assert i <= found <= j;
  }

  lemma FindHashIs(s: seq<Byte>, i: nat, j: nat)
    requires i <= j < |s| && s[j] == HASH && HashFree(s[i..j])
    ensures FindHash(s, i) == j
  {
    HashFreeSlice(s, i, j);
    var found := FindHash(s, i);
    assert i <= found <= j;
  }

  /** A frame that stands at `i` is the one the hunt finds. */
  lemma StandsFound(s: seq<Byte>, i: nat, x: Piece)
    requires Stands(s, i, x) && Quiet(x.noise) && HashFree(x.payload)
    ensures FindStart(s, i) == i + |x.noise|
    ensures FindHash(s, i + |x.noise| + 1) == i + |x.noise| + 1 + |x.payload|
  {
    var start := i + |x.noise|;
    FindStartIs(s, i, start);
    FindHashIs(s, start + 1, start + 1 + |x.payload|);
  }

  lemma NextStands(s: seq<Byte>, i: nat, x: Piece, bufsz: nat)
    requires Stands(s, i, x) && Quiet(x.noise) && HashFree(x.payload)
    ensures NextItem(s, i, bufsz) == if Accepts(x.payload, x.c1, x.c2, bufsz) then Accepted(x.payload, i + Length(x))
                                     else Rejected(i + Length(x))
  {
    hide Accepts;
    StandsFound(s, i, x);
  }

  /** A frame that checks is taken with a `+`; any other is answered with a `-`, and reading goes on behind it. */
  lemma OneFrame(s: seq<Byte>, i: nat, x: Piece, bufsz: nat, replies: seq<Byte>)
    requires i <= |s| && Stands(s, i, x) && Quiet(x.noise) && HashFree(x.payload)
    ensures Parse(s, i, bufsz, replies)
         == if Accepts(x.payload, x.c1, x.c2, bufsz)
            then Packet(x.payload, i + Length(x), replies + ['+' as int])
            else Parse(s, i + Length(x), bufsz, replies + ['-' as int])
  {
    hide NextItem, Accepts, Stands;
    NextStands(s, i, x, bufsz);
  }

  /** `n` times `-`. */
  function Minuses(n: nat): seq<Byte> {
    seq(n, _ => MINUS)
  }

  lemma MinusFirst(replies: seq<Byte>, n: nat)
    ensures replies + [MINUS] + Minuses(n) == replies + Minuses(n + 1)
    ensures replies + Minuses(0) == replies
  {
  }

  /** `n` items in a row are rejected, from `i` up to `j`. */
  predicate Rejects(s: seq<Byte>, i: nat, n: nat, j: nat, bufsz: nat)
    requires i <= |s|
    decreases n
  {
    if n == 0 then i == j
    else NextItem(s, i, bufsz).Rejected? && Rejects(s, NextItem(s, i, bufsz).next, n - 1, j, bufsz)
  }

  lemma {:induction false} BadFramesReject(s: seq<Byte>, i: nat, xs: seq<Piece>, j: nat, bufsz: nat)
    requires i <= |s| && BadFrames(s, i, xs, j, bufsz)
    ensures Rejects(s, i, |xs|, j, bufsz)
    decreases |xs|
  {
    hide NextItem;
    if xs != [] {
      NextStands(s, i, xs[0], bufsz);
      BadFramesReject(s, i + Length(xs[0]), xs[1..], j, bufsz);
    }
  }

  lemma {:induction false} RejectsEnd(s: seq<Byte>, i: nat, n: nat, j: nat, bufsz: nat)
    requires i <= |s| && Rejects(s, i, n, j, bufsz)
    ensures i <= j <= |s|
    decreases n
  {
    if n > 0 {
      RejectsEnd(s, NextItem(s, i, bufsz).next, n - 1, j, bufsz);
    }
  }

  lemma RejectedFirst(s: seq<Byte>, i: nat, n: nat, j: nat, bufsz: nat, replies: seq<Byte>) returns (next: nat)
    requires i <= |s| && Rejects(s, i, n, j, bufsz) && n > 0
    ensures i < next <= |s| && Rejects(s, next, n - 1, j, bufsz)
    ensures Parse(s, i, bufsz, replies) == Parse(s, next, bufsz, replies + [MINUS])
  {
    next := NextItem(s, i, bufsz).next;
  }

  lemma {:induction false} RejectsParse(s: seq<Byte>, i: nat, n: nat, j: nat, bufsz: nat, replies: seq<Byte>)
    requires i <= |s| && Rejects(s, i, n, j, bufsz)
    ensures j <= |s| && Parse(s, i, bufsz, replies) == Parse(s, j, bufsz, replies + Minuses(n))
    decreases n
  {
    hide NextItem;
    RejectsEnd(s, i, n, j, bufsz);
    if n == 0 {
      MinusFirst(replies, 0);
    } else {
      var next := RejectedFirst(s, i, n, j, bufsz, replies);
      MinusFirst(replies, n - 1);
      RejectsParse(s, next, n - 1, j, bufsz, replies + [MINUS]);
    }
  }

  /** Frames that fail their check or do not fit are skipped, one `-` for each. */
  lemma ParseSkips(s: seq<Byte>, i: nat, xs: seq<Piece>, j: nat, bufsz: nat, replies: seq<Byte>)
    requires i <= |s| && BadFrames(s, i, xs, j, bufsz)
    ensures j <= |s| && Parse(s, i, bufsz, replies) == Parse(s, j, bufsz, replies + Minuses(|xs|))
  {
    BadFramesReject(s, i, xs, j, bufsz);
    RejectsParse(s, i, |xs|, j, bufsz, replies);
  }

  /** The call returns the first good frame, with one `-` for each bad frame before it and then one `+`. */
  lemma FirstGoodFrame(s: seq<Byte>, i: nat, xs: seq<Piece>, j: nat, x: Piece, bufsz: nat, replies: seq<Byte>)
    requires i <= |s| && BadFrames(s, i, xs, j, bufsz) && Good(x, bufsz) && Stands(s, j, x)
    ensures Parse(s, i, bufsz, replies) == Packet(x.payload, j + Length(x), replies + Minuses(|xs|) + [PLUS])
  {
    ParseSkips(s, i, xs, j, bufsz, replies);
    NextStands(s, j, x, bufsz);
  }

  /** An interrupt between frames ends the call, if no good frame comes before it. */
  lemma FirstInterrupt(s: seq<Byte>, i: nat, xs: seq<Piece>, j: nat, k: nat, bufsz: nat, replies: seq<Byte>)
    requires i <= |s| && BadFrames(s, i, xs, j, bufsz) && j <= k < |s| && Quiet(s[j..k]) && s[k] == INTERRUPT
    ensures Parse(s, i, bufsz, replies) == Interrupt(k + 1, replies + Minuses(|xs|))
  {
    ParseSkips(s, i, xs, j, bufsz, replies);
    FindStartIs(s, j, k);
  }

  /** What stands before an outcome: bad frames up to `j`, then a good frame, or the interrupt,
      or an unfinished tail. */
  predicate Explains(s: seq<Byte>, i: nat, bufsz: nat, before: seq<Byte>, out: Outcome, xs: seq<Piece>, j: nat,
                     last: Piece)
  {
    && BadFrames(s, i, xs, j, bufsz) && j <= |s|
    && match out
       case Packet(payload, used, replies) =>
         && Good(last, bufsz) && last.payload == payload && Stands(s, j, last)
         && used == j + Length(last) && replies == before + Minuses(|xs|) + [PLUS]
       case Interrupt(used, replies) =>
         && j < used <= |s| && Quiet(s[j..used - 1]) && s[used - 1] == INTERRUPT && replies == before + Minuses(|xs|)
       case Closed(used, replies) =>
         used == |s| && replies == before + Minuses(|xs|) && NextItem(s, j, bufsz).Ended?
  }

  lemma SliceStands(s: seq<Byte>, i: nat, start: nat, hash: nat)
    requires i <= start < hash && hash + 2 < |s| && s[start] == DOLLAR && s[hash] == HASH
    ensures Stands(s, i, Piece(s[i..start], s[start + 1..hash], s[hash + 1], s[hash + 2]))
    ensures Length(Piece(s[i..start], s[start + 1..hash], s[hash + 1], s[hash + 2])) == hash + 3 - i
  {
  }

  /** The frame that the next item was read from. */
  lemma PieceAt(s: seq<Byte>, i: nat, bufsz: nat) returns (x: Piece)
    requires i <= |s| && (NextItem(s, i, bufsz).Accepted? || NextItem(s, i, bufsz).Rejected?)
    ensures Stands(s, i, x) && Quiet(x.noise) && HashFree(x.payload)
    ensures NextItem(s, i, bufsz) == if Accepts(x.payload, x.c1, x.c2, bufsz) then Accepted(x.payload, i + Length(x))
                                     else Rejected(i + Length(x))
  {
    hide Accepts;
    var start := FindStart(s, i);
    var hash := FindHash(s, start + 1);
    SliceStands(s, i, start, hash);
    x := Piece(s[i..start], s[start + 1..hash], s[hash + 1], s[hash + 2]);
    QuietSlice(s, i, start);
    HashFreeSlice(s, start + 1, hash);
  }

  lemma ExplainsLast(s: seq<Byte>, i: nat, bufsz: nat, before: seq<Byte>) returns (last: Piece)
    requires i <= |s| && !NextItem(s, i, bufsz).Rejected?
    ensures Explains(s, i, bufsz, before, Parse(s, i, bufsz, before), [], i, last)
  {
    last := Piece([], [], 0, 0);
    assert before + Minuses(0) == before;
    match NextItem(s, i, bufsz)
    case Ended =>
    case Broken(next) => QuietSlice(s, i, next - 1);
    case Accepted(_, _) => last := PieceAt(s, i, bufsz);
  }

  lemma ExplainsMore(s: seq<Byte>, i: nat, bufsz: nat, before: seq<Byte>, out: Outcome, x: Piece, ys: seq<Piece>,
                     j: nat, last: Piece)
    requires Stands(s, i, x) && Bad(x, bufsz) && Explains(s, i + Length(x), bufsz, before + [MINUS], out, ys, j, last)
    ensures Explains(s, i, bufsz, before, out, [x] + ys, j, last)
  {
    assert ([x] + ys)[1..] == ys;
    MinusFirst(before, |ys|);
  }

  /** One rejected frame more in front of an explained rest. */
  lemma {:induction false} RestExplained(s: seq<Byte>, i: nat, bufsz: nat, before: seq<Byte>, out: Outcome)
    returns (xs: seq<Piece>, j: nat, last: Piece)
    requires i <= |s| && out == Parse(s, i, bufsz, before)
    ensures Explains(s, i, bufsz, before, out, xs, j, last)
    decreases |s| - i
  {
    hide NextItem, Accepts, Stands, Explains;
    if NextItem(s, i, bufsz).Rejected? {
      var x := PieceAt(s, i, bufsz);
      assert Bad(x, bufsz) && i + Length(x) == NextItem(s, i, bufsz).next;
      var ys;
      ys, j, last := RestExplained(s, i + Length(x), bufsz, before + [MINUS], out);
      ExplainsMore(s, i, bufsz, before, out, x, ys, j, last);
      xs := [x] + ys;
    } else {
      last := ExplainsLast(s, i, bufsz, before);
      xs, j := [], i;
    }
  }

  /** Conversely, every outcome on every stream has such an explanation. */
  lemma OutcomeExplained(s: seq<Byte>, bufsz: nat) returns (xs: seq<Piece>, j: nat, last: Piece)
    ensures Explains(s, 0, bufsz, [], Parse(s, 0, bufsz, []), xs, j, last)
  {
    xs, j, last := RestExplained(s, 0, bufsz, [], Parse(s, 0, bufsz, []));
  }
}
