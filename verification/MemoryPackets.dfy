/**
 * The memory packets `m` and `M`, chunked document transfer, and register text,
 * `tools/tc-gdbserver/main.c`.
 */
module MemoryPackets {
  import opened Words
  import opened Rsp
  import opened Packets
  import TM = TargetMemory

  const BUFSZ: nat := 0x4000
  const READ_CAP: nat := (BUFSZ - 8) / 2

  const OKAY: seq<Byte> := [0x4F, 0x4B]           // "OK"
  const E01: seq<Byte> := [0x45, 0x30, 0x31]      // "E01"

  // ----- Hex payloads ------------------------------------------------------------

  predicate IsHexPair(p: seq<Byte>, at: nat) {
    HexVal(CharAt(p, at)) >= 0 && HexVal(CharAt(p, at + 1)) >= 0
  }

  predicate AllHex(p: seq<Byte>, at: nat, len: nat) {
    forall i: nat :: i < len ==> IsHexPair(p, at + 2 * i)
  }

  function PairValue(p: seq<Byte>, at: nat): Byte
    requires IsHexPair(p, at)
  {
    16 * HexVal(CharAt(p, at)) + HexVal(CharAt(p, at + 1))
  }

  function Decoded(p: seq<Byte>, at: nat, len: nat): (bs: seq<Byte>)
    requires AllHex(p, at, len)
    ensures |bs| == len
  {
    seq(len, (i: nat) requires i < len => PairValue(p, at + 2 * i))
  }

  predicate Encodes(p: seq<Byte>, at: nat, b: Byte) {
    CharAt(p, at) == HexDigit(b / 16) && CharAt(p, at + 1) == HexDigit(b % 16)
  }

  lemma EncodedAt(p: seq<Byte>, at: nat, bytes: seq<Byte>, i: nat)
    requires at + 2 * |bytes| <= |p| && p[at..at + 2 * |bytes|] == HexBytes(bytes) && i < |bytes|
    ensures Encodes(p, at + 2 * i, bytes[i])
  {
    HexBytesAt(bytes, i);
    var h := p[at..at + 2 * |bytes|];
    assert p[at + 2 * i] == h[2 * i] && p[at + 2 * i + 1] == h[2 * i + 1];
  }

  lemma PairDecodes(p: seq<Byte>, at: nat, b: Byte)
    requires Encodes(p, at, b)
    ensures IsHexPair(p, at) && PairValue(p, at) == b
  {
    HexRoundTrip(b / 16);
    HexRoundTrip(b % 16);
  }

  predicate Shows(p: seq<Byte>, at: nat, b: Byte) {
    IsHexPair(p, at) && PairValue(p, at) == b
  }

  lemma ShownDecodes(p: seq<Byte>, at: nat, bytes: seq<Byte>)
    requires forall i: nat :: i < |bytes| ==> Shows(p, at + 2 * i, bytes[i])
    ensures AllHex(p, at, |bytes|) && Decoded(p, at, |bytes|) == bytes
  {
    forall i: nat | i < |bytes|
      ensures IsHexPair(p, at + 2 * i) && PairValue(p, at + 2 * i) == bytes[i]
    {
      assert Shows(p, at + 2 * i, bytes[i]);
    }
  }

  /** Decoding inverts encoding. */
  lemma DecodedRoundTrip(p: seq<Byte>, at: nat, bytes: seq<Byte>)
    requires at + 2 * |bytes| <= |p| && p[at..at + 2 * |bytes|] == HexBytes(bytes)
    ensures AllHex(p, at, |bytes|) && Decoded(p, at, |bytes|) == bytes
  {
    forall i: nat | i < |bytes|
      ensures Shows(p, at + 2 * i, bytes[i])
    {
      EncodedAt(p, at, bytes, i);
      PairDecodes(p, at + 2 * i, bytes[i]);
    }
    ShownDecodes(p, at, bytes);
  }

  /** The decode loop stops at the first pair that is not hexadecimal. */
  method DecodeHex(p: seq<Byte>, at: nat, len: nat) returns (ok: bool, mb: array<Byte>)
    ensures ok <==> AllHex(p, at, len)
    ensures ok ==> mb[..] == Decoded(p, at, len)
    ensures fresh(mb)
  {
    mb := new Byte[len](_ => 0);
    for i := 0 to len
      invariant AllHex(p, at, i) && mb[..i] == Decoded(p, at, i)
    {
      var hi, lo := HexVal(CharAt(p, at + 2 * i)), HexVal(CharAt(p, at + 2 * i + 1));
      if hi < 0 || lo < 0 {
        assert !IsHexPair(p, at + 2 * i);
        return false, mb;
      }
      mb[i] := 16 * hi + lo;
      assert IsHexPair(p, at + 2 * i) && mb[i] == PairValue(p, at + 2 * i);
    }
    ok := true;
    assert mb[..len] == mb[..];
  }

  /** The encode loop. */
  method EncodeHex(mb: seq<Byte>) returns (out: array<Byte>)
    ensures out[..] == HexBytes(mb)
  {
    out := new Byte[2 * |mb|](_ => 0);
    for i := 0 to |mb|
      invariant out[..2 * i] == HexBytes(mb[..i])
    {
      ghost var done := out[..2 * i];
      out[2 * i] := HexDigit(mb[i] / 16);
      out[2 * i + 1] := HexDigit(mb[i] % 16);
      assert mb[..i + 1][..i] == mb[..i];
      assert out[..2 * (i + 1)] == done + [out[2 * i], out[2 * i + 1]];
    }
    assert out[..2 * |mb|] == out[..] && mb[..|mb|] == mb;
  }

  // ----- The two handlers ----------------------------------------------------------

  function LengthAt(p: seq<Byte>, comma: nat): nat
    requires comma < |p|
  {
    Strtoull(p, comma + 1) % WORDS
  }

  /** The write a well-formed `M` packet asks for. */
  predicate IsWrite(p: seq<Byte>) {
    var comma, colon := Find(p, COMMA, 0), Find(p, COLON, 0);
    comma < |p| && colon < |p| && AllHex(p, colon + 1, LengthAt(p, comma))
  }

  function WriteOf(p: seq<Byte>): TM.Op
    requires p != [] && IsWrite(p)
  {
    TM.WriteOp(Strtoull(p, 1), Decoded(p, Find(p, COLON, 0) + 1, LengthAt(p, Find(p, COMMA, 0))))
  }

  /** The read an `m` packet asks for: nothing without a length, and at most what a reply can carry. */
  function ReadOf(p: seq<Byte>): TM.Op
    requires p != []
  {
    var comma := Find(p, COMMA, 0);
    var len := if comma < |p| then LengthAt(p, comma) else 0;
    TM.ReadOp(Strtoull(p, 1), if len > READ_CAP then READ_CAP else len)
  }

  function Answer(r: TM.Reply): seq<Byte> {
    match r
    case Ok => OKAY
    case Fault => E01
    case Data(bytes) => HexBytes(bytes)
  }

  /** `handle_M`: a malformed packet changes nothing; any other writes exactly its bytes. */
  method HandleM(t: TM.Target, p: seq<Byte>) returns (r: seq<Byte>)
    requires p != []
    modifies t`memory, t`ticks, t`buffers
    ensures !IsWrite(p) ==> r == E01 && t.Now() == old(t.Now())
    ensures IsWrite(p) ==> Serves(t, old(t.Now()), WriteOf(p), t.Now(), r)
  {
    var comma, colon := Find(p, COMMA, 0), Find(p, COLON, 0);
    if comma == |p| || colon == |p| {
      return E01;
    }
    var addr, len := Strtoull(p, 1), LengthAt(p, comma);
    var ok, mb := DecodeHex(p, colon + 1, len);
    if !ok {
      return E01;
    }
    var reply := t.Perform(TM.WriteOp(addr, mb[..]));
    r := Answer(reply);
  }

  /** `handle_m`: the bytes of the range in hexadecimal. */
  method HandleRead(t: TM.Target, p: seq<Byte>) returns (r: seq<Byte>)
    requires p != []
    modifies t`memory, t`ticks, t`buffers
    ensures ReadOf(p).len == 0 ==> r == [] && t.Now() == old(t.Now())
    ensures ReadOf(p).len > 0 ==> Serves(t, old(t.Now()), ReadOf(p), t.Now(), r)
  {
    var comma := Find(p, COMMA, 0);
    var addr := Strtoull(p, 1);
    var len := if comma < |p| then LengthAt(p, comma) else 0;
    if len == 0 {
      return [];
    }
    if len > READ_CAP {
      len := READ_CAP;
    }
    var reply := t.Perform(TM.ReadOp(addr, len));
    if reply.Data? {
      var out := EncodeHex(reply.bytes);
      return out[..];
    }
    r := Answer(reply);
  }

  /** Memory and the answer are what the byte map says. */
  ghost predicate Serves(t: TM.Target, was: TM.World, op: TM.Op, now: TM.World, r: seq<Byte>) {
    now == t.Expect(was, op).0 && r == Answer(t.Expect(was, op).1)
  }

  /** What a read packet is answered with: the bytes of memory, or, when the range wraps 2^64, whatever the buffer
      held before. */
  lemma ReadReplyIs(t: TM.Target, w: TM.World, addr: nat, len: nat)
    requires TM.InRange(TM.ReadOp(addr, len))
    ensures var reply := Answer(t.Expect(w, TM.ReadOp(addr, len)).1);
            if !TM.Fits(addr, len) then reply == HexBytes(t.Unfilled(w.buffers, len))
            else if t.ReadRun(w.ticks, addr, len).at == TM.LoopEnd(addr, len)
            then reply == HexBytes(TM.Peek(w.view, addr, len))
            else reply == E01
  {
    if !TM.Fits(addr, len) {
      t.WrappedRead(w, addr, len);
    }
  }

  // ----- The client ----------------------------------------------------------------

  const LETTER_READ: Byte := 0x6D   // 'm'
  const LETTER_WRITE: Byte := 0x4D  // 'M'

  /** The packet a client sends for an operation. */
  function ClientPacket(op: TM.Op): (p: seq<Byte>)
    ensures p != []
  {
    match op
    case WriteOp(addr, data) =>
      [LETTER_WRITE] + Digits(addr) + [COMMA] + Digits(|data|) + [COLON] + HexBytes(data)
    case ReadOp(addr, len) => [LETTER_READ] + Digits(addr) + [COMMA] + Digits(len)
  }

  /** The address at the head of a packet is read back. */
  lemma AddressField(p: seq<Byte>, letter: Byte, addr: nat, tail: seq<Byte>)
    requires p == [letter] + Digits(addr) + [COMMA] + tail && letter != COMMA && letter != 0 && addr < DOUBLES
    ensures Find(p, COMMA, 0) == 1 + |Digits(addr)| && Strtoull(p, 1) == addr
  {
    NumberField(p, [letter], addr, COMMA, tail);
    FindSkips(p, COMMA, 0, 1);
  }

  /** So is the length behind it, and the colon behind that. */
  lemma LengthField(p: seq<Byte>, head: seq<Byte>, len: nat, tail: seq<Byte>)
    requires p == head + Digits(len) + [COLON] + tail && head != [] && len < WORDS
    requires forall k :: 0 <= k < |head| ==> p[k] != COLON && p[k] != 0
    ensures LengthAt(p, |head| - 1) == len && Find(p, COLON, 0) == |head| + |Digits(len)|
  {
    NumberField(p, head, len, COLON, tail);
    FindSkips(p, COLON, 0, |head|);
  }

  lemma HeadIsPlain(p: seq<Byte>, letter: Byte, addr: nat, tail: seq<Byte>)
    requires p == [letter] + Digits(addr) + [COMMA] + tail && letter != COLON && letter != 0
    ensures forall k :: 0 <= k < 2 + |Digits(addr)| ==> p[k] != COLON && p[k] != 0
  {
    var ds := Digits(addr);
    DigitsArePlain(addr);
    forall k | 0 < k < 1 + |ds|
      ensures p[k] != COLON && p[k] != 0
    {
      assert p[k] == ds[k - 1] && ds[k - 1] in ds;
    }
  }

  /** A packet with these fields is this write. */
  lemma WriteFields(p: seq<Byte>, comma: nat, colon: nat, addr: nat, data: seq<Byte>)
    requires comma < |p| && Find(p, COMMA, 0) == comma && Find(p, COLON, 0) == colon
    requires Strtoull(p, 1) == addr && LengthAt(p, comma) == |data|
    requires colon + 1 + 2 * |data| <= |p| && p[colon + 1..colon + 1 + 2 * |data|] == HexBytes(data)
    ensures IsWrite(p) && WriteOf(p) == TM.WriteOp(addr, data)
  {
    DecodedRoundTrip(p, colon + 1, data);
  }

  /** The numbers and separators of a write packet. */
  lemma WriteHead(p: seq<Byte>, addr: nat, len: nat, h: seq<Byte>)
    requires p == [LETTER_WRITE] + Digits(addr) + [COMMA] + (Digits(len) + [COLON] + h)
    requires addr < DOUBLES && len < WORDS
    ensures var comma := 1 + |Digits(addr)|;
            && Find(p, COMMA, 0) == comma && Strtoull(p, 1) == addr && LengthAt(p, comma) == len
            && Find(p, COLON, 0) == comma + 1 + |Digits(len)|
  {
    var head, rest := [LETTER_WRITE] + Digits(addr) + [COMMA], Digits(len) + [COLON] + h;
    AddressField(p, LETTER_WRITE, addr, rest);
    HeadIsPlain(p, LETTER_WRITE, addr, rest);
    assert p == head + Digits(len) + [COLON] + h;
    LengthField(p, head, len, h);
  }

  /** The server reads a write packet as the operation the client meant. */
  lemma WritePacketMeans(addr: nat, data: seq<Byte>)
    requires addr < DOUBLES && |data| < WORDS
    ensures var p := ClientPacket(TM.WriteOp(addr, data)); IsWrite(p) && WriteOf(p) == TM.WriteOp(addr, data)
  {
    var p, h := ClientPacket(TM.WriteOp(addr, data)), HexBytes(data);
    var comma := 1 + |Digits(addr)|;
    var colon := comma + 1 + |Digits(|data|)|;
    assert p == [LETTER_WRITE] + Digits(addr) + [COMMA] + (Digits(|data|) + [COLON] + h);
    WriteHead(p, addr, |data|, h);
    assert p[colon + 1..colon + 1 + 2 * |data|] == h;
    WriteFields(p, comma, colon, addr, data);
  }

  /** And a read packet too: the length is cut to 32 bits, and then to what a reply can carry. */
  lemma ReadPacketReads(addr: nat, len: nat)
    requires addr < DOUBLES && len < DOUBLES
    ensures ReadOf(ClientPacket(TM.ReadOp(addr, len)))
         == TM.ReadOp(addr, if len % WORDS > 8188 then 8188 else len % WORDS)
  {
    var p := ClientPacket(TM.ReadOp(addr, len));
    assert p == [LETTER_READ] + Digits(addr) + [COMMA] + Digits(len);
    AddressField(p, LETTER_READ, addr, Digits(len));
    NumberAtEnd(p, [LETTER_READ] + Digits(addr) + [COMMA], len);
  }

  lemma ReadPacketMeans(addr: nat, len: nat)
    requires addr < DOUBLES && len < WORDS
    ensures ReadOf(ClientPacket(TM.ReadOp(addr, len))) == TM.ReadOp(addr, if len > READ_CAP then READ_CAP else len)
  {
    hide ReadOf, ClientPacket;
    ReadPacketReads(addr, len);
  }

  /** Without its separators a packet reads nothing, and is no write. */
  lemma SeparatorsAreNeeded(p: seq<Byte>)
    requires p != []
    ensures ',' as int !in p ==> ReadOf(p).len == 0 && !IsWrite(p)
    ensures ':' as int !in p ==> !IsWrite(p)
  {
  }

  /** The answers in letters. */
  lemma AnswersAre(bytes: seq<Byte>)
    ensures Answer(TM.Ok) == ['O' as int, 'K' as int]
    ensures Answer(TM.Fault) == ['E' as int, '0' as int, '1' as int]
    ensures Answer(TM.Data(bytes)) == HexBytes(bytes)
  {
  }

  /** What a client is told, and what becomes of memory. */
  ghost function Told(t: TM.Target, w: TM.World, op: TM.Op): (TM.World, seq<Byte>) {
    match op
    case WriteOp(_, _) => (t.Expect(w, op).0, Answer(t.Expect(w, op).1))
    case ReadOp(addr, len) =>
      if len == 0 then (w, [])
      else
        var capped := TM.ReadOp(addr, if len > READ_CAP then READ_CAP else len);
        (t.Expect(w, capped).0, Answer(t.Expect(w, capped).1))
  }

  ghost function ToldAll(t: TM.Target, w: TM.World, ops: seq<TM.Op>): (TM.World, seq<seq<Byte>>) {
    if ops == [] then (w, [])
    else
      var before := ToldAll(t, w, ops[..|ops| - 1]);
      var last := Told(t, before.0, ops[|ops| - 1]);
      (last.0, before.1 + [last.1])
  }

  lemma ToldRead(t: TM.Target, w: TM.World, addr: nat, len: nat)
    requires 0 < len <= READ_CAP
    ensures Told(t, w, TM.ReadOp(addr, len)).1 == Answer(t.Expect(w, TM.ReadOp(addr, len)).1)
  {
  }

  lemma ToldWrite(t: TM.Target, w: TM.World, addr: nat, data: seq<Byte>)
    ensures Told(t, w, TM.WriteOp(addr, data))
         == (t.Expect(w, TM.WriteOp(addr, data)).0, Answer(t.Expect(w, TM.WriteOp(addr, data)).1))
  {
  }

  /** The answer to a read that starts from `after` and gives back `data` unless it meets a fault. */
  ghost predicate GivesBack(t: TM.Target, after: TM.World, addr: nat, data: seq<Byte>, reply: seq<Byte>) {
    reply == if t.ReadRun(after.ticks, addr, |data|).at == TM.LoopEnd(addr, |data|) then HexBytes(data) else E01
  }

  /** An `m` packet within the cap returns in hexadecimal exactly the bytes an `M` packet has just written,
      unless the read meets a fault. */
  lemma WriteThenRead(t: TM.Target, w: TM.World, addr: nat, data: seq<Byte>)
    requires 0 < |data| <= READ_CAP && TM.Fits(addr, |data|) && forall x: int :: x in w.view
    requires t.Expect(w, TM.WriteOp(addr, data)).1 == TM.Ok
    ensures var (after, told) := Told(t, w, TM.WriteOp(addr, data));
            told == OKAY && GivesBack(t, after, addr, data, Told(t, after, TM.ReadOp(addr, |data|)).1)
  {
    ToldWrite(t, w, addr, data);
    t.ReadsBack(w, addr, data);
    ToldRead(t, t.Expect(w, TM.WriteOp(addr, data)).0, addr, |data|);
  }

  /** One packet from the client, which meant `op`. */
  method Handle(t: TM.Target, p: seq<Byte>, ghost op: TM.Op) returns (r: seq<Byte>)
    requires TM.InRange(op) && p == ClientPacket(op)
    modifies t`memory, t`ticks, t`buffers
    ensures (t.Now(), r) == Told(t, old(t.Now()), op)
  {
    if p[0] == LETTER_WRITE {
      WritePacketMeans(op.addr, op.data);
      r := HandleM(t, p);
    } else {
      ReadPacketMeans(op.addr, op.len);
      r := HandleRead(t, p);
    }
  }

  /** Any run of `M` and `m` packets acts as a byte array, whichever transactions fault. */
  method Serve(t: TM.Target, ops: seq<TM.Op>) returns (rs: seq<seq<Byte>>)
    requires forall i :: 0 <= i < |ops| ==> TM.InRange(ops[i])
    modifies t`memory, t`ticks, t`buffers
    ensures (t.Now(), rs) == ToldAll(t, old(t.Now()), ops)
  {
    rs := [];
    for i := 0 to |ops|
      invariant (t.Now(), rs) == ToldAll(t, old(t.Now()), ops[..i])
    {
      var r := Handle(t, ClientPacket(ops[i]), ops[i]);
      rs := rs + [r];
      assert ops[..i + 1][..i] == ops[..i];
    }
    assert ops[..|ops|] == ops;
  }

  // ----- Documents in chunks -----------------------------------------------------------

  const LAST: Byte := 0x6C  // 'l'
  const MORE: Byte := 0x6D  // 'm'

  /** `qxfer_reply`: one chunk, and whether it is the last. */
  function QxferReply(doc: seq<Byte>, args: seq<Byte>): seq<Byte> {
    var off := Strtoull(args, 0);
    var comma := Find(args, COMMA, 0);
    var length := if comma < |args| then Strtoull(args, comma + 1) else 0;
    if off >= |doc| then [LAST]
    else
      var avail := |doc| - off;
      var chunk := if length < avail then length else avail;
      [if off + chunk >= |doc| then LAST else MORE] + doc[off..off + chunk]
  }

  function ClientArgs(off: nat, length: nat): seq<Byte> {
    Digits(off) + [COMMA] + Digits(length)
  }

  /** The reply to a client's request. */
  lemma ReplyIs(doc: seq<Byte>, off: nat, length: nat)
    requires off < DOUBLES && length < DOUBLES
    ensures QxferReply(doc, ClientArgs(off, length))
         == if off + length < |doc| then ['m' as int] + doc[off..off + length]
            else ['l' as int] + (if off < |doc| then doc[off..] else [])
  {
    var args := ClientArgs(off, length);
    assert args == [] + Digits(off) + [COMMA] + Digits(length);
    NumberField(args, [], off, COMMA, Digits(length));
    NumberAtEnd(args, Digits(off) + [COMMA], length);
  }

  /** Without a length the chunk is empty. */
  lemma ReplyWithoutLength(doc: seq<Byte>, args: seq<Byte>)
    requires ',' as int !in args && Strtoull(args, 0) < |doc|
    ensures QxferReply(doc, args) == ['m' as int]
  {
    var off := Strtoull(args, 0);
    assert doc[off..off] == [];
  }

  /** What a chunk adds to a copy of the first `off` bytes. */
  lemma ChunkExtends(doc: seq<Byte>, off: nat, length: nat)
    requires off <= |doc| < DOUBLES && length < DOUBLES
    ensures var reply := QxferReply(doc, ClientArgs(off, length));
            && |reply| > 0
            && if reply[0] == LAST then doc[..off] + reply[1..] == doc
               else off + length < |doc| && doc[..off] + reply[1..] == doc[..off + length]
  {
    ReplyIs(doc, off, length);
    var reply := QxferReply(doc, ClientArgs(off, length));
    if off + length < |doc| {
      assert reply[1..] == doc[off..off + length];
    } else {
      assert reply[1..] == doc[off..];
    }
  }

  /** A client that advances by each chunk until the last one rebuilds the document, whatever the sizes it
      asks for. */
  method FetchDocument(doc: seq<Byte>, sizes: nat -> nat) returns (copy: seq<Byte>)
    requires |doc| < DOUBLES && forall k :: 0 < sizes(k) < DOUBLES
    ensures copy == doc
  {
    copy := [];
    var k := 0;
    while true
      invariant |copy| <= |doc| && copy == doc[..|copy|]
      decreases |doc| - |copy|
    {
      ChunkExtends(doc, |copy|, sizes(k));
      var reply := QxferReply(doc, ClientArgs(|copy|, sizes(k)));
      copy := copy + reply[1..];
      if reply[0] == LAST {
        return;
      }
      k := k + 1;
    }
  }

  // ----- Register text ----------------------------------------------------------------

  /** A register as eight digits, byte by byte from the least significant. */
  function RegisterText(v: Word): (s: seq<Byte>)
    ensures |s| == 8
  {
    HexBytes([ByteOf(v, 0), ByteOf(v, 1), ByteOf(v, 2), ByteOf(v, 3)])
  }

  /** The text of a register given by its bytes, the least significant first. */
  lemma RegisterTextIs(b0: Byte, b1: Byte, b2: Byte, b3: Byte, v: Word)
    requires v == b0 + 0x100 * b1 + 0x1_0000 * b2 + 0x100_0000 * b3
    ensures RegisterText(v) == HexBytes([b0, b1, b2, b3])
  {
    WordSum(b0, b1, b2, b3);
  }

  /** The two characters of each byte, the high one first. */
  lemma HexBytesAre(bytes: seq<Byte>, i: nat)
    requires i < |bytes|
    ensures HexBytes(bytes)[2 * i] == LOWER[bytes[i] / 16] as int
    ensures HexBytes(bytes)[2 * i + 1] == LOWER[bytes[i] % 16] as int
  {
    HexBytesAt(bytes, i);
    HexDigitIs(bytes[i] / 16);
    HexDigitIs(bytes[i] % 16);
  }

  /** `put_u32_le` */
  method PutU32Le(out: array<Byte>, at: nat, v: Word)
    requires at + 8 <= out.Length
    modifies out
    ensures out[at..at + 8] == RegisterText(v)
    ensures out[..at] == old(out[..at]) && out[at + 8..] == old(out[at + 8..])
  {
    var bytes := [ByteOf(v, 0), ByteOf(v, 1), ByteOf(v, 2), ByteOf(v, 3)];
    for b := 0 to 4
      invariant out[at..at + 2 * b] == HexBytes(bytes[..b])
      invariant out[..at] == old(out[..at]) && out[at + 8..] == old(out[at + 8..])
    {
      ghost var done := out[at..at + 2 * b];
      out[at + 2 * b] := HexDigit(ByteOf(v, b) / 16);
      out[at + 2 * b + 1] := HexDigit(ByteOf(v, b) % 16);
      assert bytes[b] == ByteOf(v, b);
      assert bytes[..b + 1][..b] == bytes[..b];
      assert out[at..at + 2 * (b + 1)] == done + [out[at + 2 * b], out[at + 2 * b + 1]];
    }
    assert bytes[..4] == bytes;
  }

  /** What one pair of characters contributes; a character that is no digit spoils the bits above it too. */
  function PairWord(hi: int, lo: int): Word
    requires -1 <= hi < 16 && -1 <= lo < 16
  {
    if lo < 0 then WORDS - 1 else if hi < 0 then WORDS - 16 + lo else 16 * hi + lo
  }

  /** It is `(hi << 4) | lo` on 32-bit words. */
  lemma PairWordIs(hi: int, lo: int)
    requires -1 <= hi < 16 && -1 <= lo < 16
    ensures PairWord(hi, lo) == Or(Shl(hi % WORDS, 4), lo % WORDS) % WORDS
  {
    hide Or, Shl;
    var h := hi % WORDS;
    if lo < 0 {
      WordOfOnes(Shl(h, 4));
    } else {
      Shl4(1);
      OrDisjoint(h, lo, 4);
      Shl4(h);
    }
  }

  lemma WordOfOnes(y: nat)
    ensures Or(y, WORDS - 1) % WORDS == WORDS - 1
  {
    hide Or, Shl;
    OnesAre(32);
    ShlSum(1, 16, 16);
    Shl16(1);
    Shl16(0x1_0000);
    var k := OrOnes(y, 32);
  }

  /** The first `n` pairs joined bit by bit, the first one the least significant. */
  function PairsWord(s: seq<Byte>, at: nat, n: nat): Word
    requires at + 2 * n <= |s|
  {
    if n == 0 then 0
    else
      var hi, lo := HexVal(s[at + 2 * n - 2]), HexVal(s[at + 2 * n - 1]);
      Or(PairsWord(s, at, n - 1), Shl(PairWord(hi, lo), 8 * (n - 1))) % WORDS
  }

  /** `get_u32_le`, on any eight characters; it reads back any register text. */
  method GetU32Le(s: seq<Byte>, at: nat) returns (v: Word)
    requires at + 8 <= |s|
    ensures v == PairsWord(s, at, 4)
    ensures forall w: Word :: s[at..at + 8] == RegisterText(w) ==> v == w
  {
    hide Or, Shl, PairWord, HexVal, RegisterText;
    var acc: nat := 0;
    for b := 0 to 4
      invariant acc == PairsWord(s, at, b)
      invariant forall w: Word :: s[at..at + 8] == RegisterText(w) ==> acc == Little(FirstBytes(w, b))
    {
      var hi, lo := HexVal(s[at + 2 * b]), HexVal(s[at + 2 * b + 1]);
      acc := Or(acc, Shl(PairWord(hi, lo), 8 * b)) % WORDS;
      forall w: Word | s[at..at + 8] == RegisterText(w)
        ensures acc == Little(FirstBytes(w, b + 1))
      {
        TextPair(s, at, w, b);
        LittleOr(FirstBytes(w, b), ByteOf(w, b));
        LittleFits(FirstBytes(w, b + 1));
      }
    }
    forall w: Word | s[at..at + 8] == RegisterText(w)
      ensures acc == w
    {
      LittleWord(w);
    }
    v := acc;
  }

  function FirstBytes(w: Word, n: nat): (bs: seq<Byte>)
    ensures |bs| == n
  {
    if n == 0 then [] else FirstBytes(w, n - 1) + [ByteOf(w, n - 1)]
  }

  lemma TextPair(s: seq<Byte>, at: nat, w: Word, b: nat)
    requires at + 8 <= |s| && s[at..at + 8] == RegisterText(w) && b < 4
    ensures PairWord(HexVal(s[at + 2 * b]), HexVal(s[at + 2 * b + 1])) == ByteOf(w, b)
  {
    var bytes := [ByteOf(w, 0), ByteOf(w, 1), ByteOf(w, 2), ByteOf(w, 3)];
    EncodedAt(s, at, bytes, b);
    assert bytes[b] == ByteOf(w, b);
    HexRoundTrip(ByteOf(w, b) / 16);
    HexRoundTrip(ByteOf(w, b) % 16);
  }

  lemma LittleCons(b: Byte, bs: seq<Byte>)
    ensures Little([b] + bs) == b + 256 * Little(bs)
  {
    assert ([b] + bs)[1..] == bs;
  }

  lemma LittleWord(w: Word)
    ensures Little(FirstBytes(w, 4)) == w
  {
    var b0, b1, b2, b3 := ByteOf(w, 0), ByteOf(w, 1), ByteOf(w, 2), ByteOf(w, 3);
    assert FirstBytes(w, 2) == [b0, b1];
    assert FirstBytes(w, 4) == [b0] + ([b1] + ([b2] + ([b3] + [])));
    LittleCons(b3, []);
    LittleCons(b2, [b3] + []);
    LittleCons(b1, [b2] + ([b3] + []));
    LittleCons(b0, [b1] + ([b2] + ([b3] + [])));
    BytesSum(w);
  }
}
