/**
 * The CAN driver in internal loopback, `bsp/tc4d7/can.c`: packing into the transmit
 * buffer, the controller's two-element receive FIFO in message RAM, and unpacking.
 * The controller works on its own: before every access of the driver it may start or end
 * a transmission.  `trace` is history.
 */
module Can {
  import opened Words

  const SPIN: nat := 2000000
  const FIFO: nat := 2      // F0S
  const TX: nat := 8        // the transmit buffer, in words of message RAM
  const REQUEST: nat := 5   // accesses of can_send up to its request

  datatype Frame = Frame(id: nat, data: seq<Byte>)

  // ----- Packing -----------------------------------------------------------------

  /** The pack loop. */
  method Pack(data: seq<Byte>, len: nat) returns (w0: nat, w1: nat)
    requires len <= 8 && len <= |data|
    ensures w0 == Little(data[..if len < 4 then len else 4])
    ensures w1 == Little(if len < 4 then [] else data[4..len])
    ensures w0 < WORDS && w1 < WORDS
  {
    w0, w1 := 0, 0;
    assert data[..0] == [];
    for i := 0 to len
      invariant w0 == Little(data[..if i < 4 then i else 4])
      invariant w1 == Little(if i < 4 then [] else data[4..i])
    {
      var b := data[i];
      if i < 4 {
        LittleOr(data[..i], b);
        SliceNext(data, 0, i);
        w0 := Or(w0, Shl(b, 8 * i));
        assert i == 3 ==> data[4..4] == [];
      } else {
        LittleOr(data[4..i], b);
        SliceNext(data, 4, i);
        w1 := Or(w1, Shl(b, 8 * (i - 4)));
      }
    }
    LittleFits(data[..if len < 4 then len else 4]);
    LittleFits(if len < 4 then [] else data[4..len]);
  }

  /** The bytes two data words hold. */
  function Payload(w0: Word, w1: Word, n: nat): (bs: seq<Byte>)
    ensures |bs| == n
  {
    seq(n, (i: nat) => if i < 4 then ByteOf(w0, i) else ByteOf(w1, i - 4))
  }

  lemma PackRoundTrip(data: seq<Byte>, len: nat, w0: Word, w1: Word)
    requires len <= 8 && len <= |data|
    requires w0 == Little(data[..if len < 4 then len else 4]) && w1 == Little(if len < 4 then [] else data[4..len])
    ensures Payload(w0, w1, len) == data[..len]
  {
    forall i: nat | i < len
      ensures Payload(w0, w1, len)[i] == data[i]
    {
      if i < 4 {
        LittleByte(data[..if len < 4 then len else 4], i);
      } else {
        LittleByte(data[4..len], i - 4);
      }
    }
  }

  // ----- The node ------------------------------------------------------------------

  /** At most eight. */
  function Cap8(n: nat): (c: nat)
    ensures c <= 8 && c <= n && (c == 8 || c == n)
  {
    if n > 8 then 8 else n
  }

  /** The frame an element or buffer of message RAM holds. */
  function FrameAt(ram: seq<Word>, at: nat): (f: Frame)
    requires at + 4 <= |ram|
    ensures f.id < 0x800 && |f.data| <= 8
  {
    Frame(ram[at] / 0x4_0000 % 0x800, Payload(ram[at + 2], ram[at + 3], Cap8(ram[at + 1] / 0x1_0000 % 16)))
  }

  /** What the controller adds to a received frame: flag and filter bits, a timestamp, and unused data bytes. */
  datatype Noise = Noise(flags: nat, low: nat, filter: nat, stamp: nat, spare: nat -> Byte)

  predicate Fitting(n: Noise) {
    n.flags < 8 && n.low < 0x4_0000 && n.filter < 0x1000 && n.stamp < 0x1_0000
  }

  function DataByte(f: Frame, n: Noise, i: nat): Byte {
    if i < |f.data| then f.data[i] else n.spare(i)
  }

  /** The receive element for a frame. */
  function Element(f: Frame, n: Noise): (e: seq<Word>)
    requires f.id < 0x800 && |f.data| <= 8 && Fitting(n)
    ensures |e| == 4
  {
    [n.flags * 0x2000_0000 + f.id * 0x4_0000 + n.low,
     n.filter * 0x10_0000 + |f.data| * 0x1_0000 + n.stamp,
     WordOf(DataByte(f, n, 0), DataByte(f, n, 1), DataByte(f, n, 2), DataByte(f, n, 3)),
     WordOf(DataByte(f, n, 4), DataByte(f, n, 5), DataByte(f, n, 6), DataByte(f, n, 7))]
  }

  lemma HeaderBits(flags: nat, id: nat, low: nat, filter: nat, dlc: nat, stamp: nat)
    requires id < 0x800 && low < 0x4_0000 && dlc < 16 && stamp < 0x1_0000
    ensures (flags * 0x2000_0000 + id * 0x4_0000 + low) / 0x4_0000 % 0x800 == id
    ensures (filter * 0x10_0000 + dlc * 0x1_0000 + stamp) / 0x1_0000 % 16 == dlc
  {
    assert (flags * 0x2000_0000 + id * 0x4_0000 + low) / 0x4_0000 == flags * 0x800 + id;
    assert (filter * 0x10_0000 + dlc * 0x1_0000 + stamp) / 0x1_0000 == filter * 16 + dlc;
  }

  lemma ElementHolds(f: Frame, n: Noise)
    requires f.id < 0x800 && |f.data| <= 8 && Fitting(n)
    ensures FrameAt(Element(f, n), 0) == f
  {
    var e := Element(f, n);
    HeaderBits(n.flags, f.id, n.low, n.filter, |f.data|, n.stamp);
    forall i: nat | i < |f.data|
      ensures Payload(e[2], e[3], |f.data|)[i] == f.data[i]
    {
    }
    assert Payload(e[2], e[3], |f.data|) == f.data;
  }

  /** The frames in the receive FIFO, oldest first. */
  function Fifo(ram: seq<Word>, get: nat, fill: nat): (q: seq<Frame>)
    requires |ram| == 12 && get < FIFO && fill <= FIFO
    ensures |q| == fill
  {
    seq(fill, (i: nat) requires i < fill => FrameAt(ram, 4 * ((get + i) % FIFO)))
  }

  /** Message RAM after an element has been stored in the FIFO. */
  function WithElement(ram: seq<Word>, put: nat, e: seq<Word>): (now: seq<Word>)
    requires |ram| == 12 && put < FIFO && |e| == 4
    ensures |now| == 12
  {
    ram[4 * put := e[0]][4 * put + 1 := e[1]][4 * put + 2 := e[2]][4 * put + 3 := e[3]]
  }

  lemma FifoGrows(ram: seq<Word>, get: nat, fill: nat, e: seq<Word>)
    requires |ram| == 12 && get < FIFO && fill < FIFO && |e| == 4
    ensures var now := WithElement(ram, (get + fill) % FIFO, e);
            && Fifo(now, get, fill + 1) == Fifo(ram, get, fill) + [FrameAt(e, 0)] && now[TX..] == ram[TX..]
            && (fill > 0 ==> now[4 * get..4 * get + 4] == ram[4 * get..4 * get + 4])
  {
    var put := (get + fill) % FIFO;
    var now := WithElement(ram, put, e);
    assert FrameAt(now, 4 * put) == FrameAt(e, 0);
  }

  lemma FifoHead(ram: seq<Word>, get: nat, fill: nat)
    requires |ram| == 12 && get < FIFO && 0 < fill <= FIFO
    ensures Fifo(ram, get, fill)[0] == FrameAt(ram, 4 * get)
  {
  }

  lemma BufferWrite(ram: seq<Word>, k: nat, w: Word)
    requires |ram| == 12 && k < 4
    ensures var now := ram[TX + k := w];
            now[TX..] == ram[TX..][k := w]
            && forall get: nat, fill: nat :: get < FIFO && fill <= FIFO ==> Fifo(now, get, fill) == Fifo(ram, get, fill)
  {
    var now := ram[TX + k := w];
    assert FrameAt(now, 0) == FrameAt(ram, 0) && FrameAt(now, 4) == FrameAt(ram, 4);
  }

  lemma BufferFrame(ram: seq<Word>)
    requires |ram| == 12
    ensures FrameAt(ram, TX) == FrameAt(ram[TX..], 0)
  {
    var b := ram[TX..];
    assert b[0] == ram[TX] && b[1] == ram[TX + 1] && b[2] == ram[TX + 2] && b[3] == ram[TX + 3];
  }

  lemma FillField(fill: nat, k: nat)
    requires fill < 0x80
    ensures (fill + 0x80 * k) % 0x80 == fill
  {
  }

  lemma GetField(fill: nat, get: nat, k: nat)
    requires fill < 0x100 && get < 0x40
    ensures (fill + 0x100 * (get + 0x40 * k)) / 0x100 % 0x40 == get
  {
  }

  /** The four words `can_send` writes for a frame. */
  function Encoded(id: Word, data: seq<Byte>, len: nat): (ws: seq<Word>)
    requires len <= 8 && len <= |data|
    ensures |ws| == 4
  {
    var low, high := data[..if len < 4 then len else 4], if len < 4 then [] else data[4..len];
    LittleFits(low);
    LittleFits(high);
    [id % 0x800 * 0x4_0000, len % 16 * 0x1_0000, Little(low), Little(high)]
  }

  lemma EncodedIs(id: Word, data: seq<Byte>, len: nat, w0: nat, w1: nat)
    requires len <= 8 && len <= |data|
    requires w0 == Little(data[..if len < 4 then len else 4]) && w1 == Little(if len < 4 then [] else data[4..len])
    ensures Encoded(id, data, len) == [id % 0x800 * 0x4_0000, len % 16 * 0x1_0000, w0, w1]
  {
  }

  lemma EncodedHolds(id: Word, data: seq<Byte>, len: nat)
    requires len <= 8 && len <= |data|
    ensures FrameAt(Encoded(id, data, len), 0) == Frame(id % 0x800, data[..len])
  {
    var ws := Encoded(id, data, len);
    PackRoundTrip(data, len, ws[2], ws[3]);
  }

  /** The transmit buffer when `k` of the words `ws` have replaced those of `was`. */
  function Mixed(was: seq<Word>, ws: seq<Word>, k: nat): (b: seq<Word>)
    requires |was| == |ws| == 4
    ensures |b| == 4
  {
    if k <= 4 then ws[..k] + was[k..] else ws
  }

  lemma MixedNext(was: seq<Word>, ws: seq<Word>, k: nat)
    requires |was| == |ws| == 4 && k < 4
    ensures Mixed(was, ws, k)[k := ws[k]] == Mixed(was, ws, k + 1)
    ensures Mixed(was, ws, 0) == was && Mixed(was, ws, 4) == ws
  {
  }

  /** The transmitter: TXBRP is set unless it is idle; once a transmission has started the buffer no longer matters. */
  datatype Tx = Idle | Requested | Sending(f: Frame)

  /** The transmitter, its buffer, the history and the count at some time. */
  datatype Moment = Moment(tx: Tx, buffer: seq<Word>, trace: History, clock: nat)

  // ----- What has happened -----------------------------------------------------------

  /** `can_send` has been called for a frame, a transmission has been asked for or has ended, or a frame has left
      the FIFO. */
  datatype Event = Call(f: Frame) | Ask | End(f: Frame) | Take(f: Frame)

  datatype History = Start | Then(past: History, event: Event)

  function Count(h: History): nat {
    if h.Start? then 0 else Count(h.past) + 1
  }

  predicate Extends(h: History, was: History) {
    h == was || (h.Then? && Extends(h.past, was))
  }

  lemma {:induction false} StillExtends(h: History, mid: History, was: History)
    requires Extends(h, mid) && Extends(mid, was)
    ensures Extends(h, was) && Count(was) <= Count(h)
  {
    if h != mid {
      StillExtends(h.past, mid, was);
    } else if h != was {
      StillExtends(h.past, h.past, was);
    }
  }

  function Pushed(q: seq<Frame>, f: Frame): seq<Frame> {
    if |q| < 2 then q + [f] else q
  }

  /** The FIFO after these events: a frame that ends when it is full is lost. */
  function Replay(h: History): seq<Frame> {
    if h.Start? then []
    else
      var q := Replay(h.past);
      match h.event
      case End(f) => Pushed(q, f)
      case Take(_) => if q == [] then [] else q[1..]
      case _ => q
  }

  /** Only the oldest frame is ever taken. */
  predicate Lawful(h: History) {
    h.Then? ==>
      Lawful(h.past) && (h.event.Take? ==> Replay(h.past) != [] && Replay(h.past)[0] == h.event.f)
  }

  /** A transmission has been asked for and has not ended. */
  predicate Outstanding(h: History) {
    h.Then? && (h.event.Ask? || (!h.event.End? && Outstanding(h.past)))
  }

  /** After the first `k` events, no send is called while a transmission is outstanding. */
  predicate Patient(h: History, k: nat) {
    Count(h) > k ==> Patient(h.past, k) && (h.event.Call? ==> !Outstanding(h.past))
  }

  /** The frames sends were called for, in order. */
  function Calls(h: History): seq<Frame> {
    match h
    case Start => []
    case Then(past, Call(f)) => Calls(past) + [f]
    case Then(past, _) => Calls(past)
  }

  /** The frames whose transmission has ended, in order. */
  function Ends(h: History): seq<Frame> {
    match h
    case Start => []
    case Then(past, End(f)) => Ends(past) + [f]
    case Then(past, _) => Ends(past)
  }

  /** The frames taken from the FIFO, in order. */
  function Takes(h: History): seq<Frame> {
    match h
    case Start => []
    case Then(past, Take(f)) => Takes(past) + [f]
    case Then(past, _) => Takes(past)
  }

  /** The frames that ended while the FIFO had room. */
  function Entered(h: History): seq<Frame> {
    if h.Start? then []
    else Entered(h.past) + (if h.event.End? && |Replay(h.past)| < FIFO then [h.event.f] else [])
  }

  /** No transmission ends while the FIFO is full. */
  predicate NeverFull(h: History) {
    h.Then? ==> NeverFull(h.past) && (h.event.End? ==> |Replay(h.past)| < FIFO)
  }

  /** Every frame that enters the FIFO comes out once and in order, or is still there; no other frame comes out. */
  lemma {:induction false} NothingLostOrMadeUp(h: History)
    requires Lawful(h)
    ensures Takes(h) + Replay(h) == Entered(h)
  {
    if h.Then? {
      NothingLostOrMadeUp(h.past);
      var q := Replay(h.past);
      assert h.event.Take? ==> q == [q[0]] + q[1..];
    }
  }

  /** All transmissions arrive exactly if none ends while the FIFO is full. */
  lemma {:induction false} AllArriveIff(h: History)
    ensures |Entered(h)| <= |Ends(h)|
    ensures Entered(h) == Ends(h) <==> NeverFull(h)
  {
    if h.Then? {
      AllArriveIff(h.past);
      if !h.event.End? {
        assert Entered(h) == Entered(h.past) && Ends(h) == Ends(h.past);
      } else if |Replay(h.past)| < FIFO {
        SameTail(Entered(h.past), Ends(h.past), [h.event.f]);
      } else {
        assert |Entered(h)| < |Ends(h)|;
      }
    }
  }

  /** Whether an earlier transmission has ended meanwhile. */
  datatype Early = Nothing | Ended(f: Frame)

  function With(h: History, early: Early): History {
    if early.Ended? then Then(h, End(early.f)) else h
  }

  lemma SameTail(a: seq<Frame>, b: seq<Frame>, c: seq<Frame>)
    ensures a + c == b + c <==> a == b
  {
    if a + c == b + c {
      assert |a| == |b| && a == (a + c)[..|a|] == (b + c)[..|b|] == b;
    }
  }

  lemma WithIs(was: History, early: Early, k: nat)
    requires k <= Count(was)
    ensures var h := With(was, early);
            && Count(was) <= Count(h) && Extends(h, was) && Calls(h) == Calls(was) && Takes(h) == Takes(was)
            && Ends(h) == Ends(was) + (if early.Ended? then [early.f] else []) && Patient(h, k) == Patient(was, k)
  {
  }

  /** The history of a call whose request has been made. */
  function Asked(was: History, f: Frame, early: Early): History {
    Then(With(Then(was, Call(f)), early), Ask)
  }

  lemma {:induction false} CallIs(was: History, f: Frame, k: nat)
    requires k <= Count(was)
    ensures var h := Then(was, Call(f));
            && Count(was) <= Count(h) && Extends(h, was) && Takes(h) == Takes(was) && Ends(h) == Ends(was)
            && (Patient(h, k) <==> Patient(was, k) && !Outstanding(was)) && Replay(h) == Replay(was)
    ensures Calls(Then(was, Call(f))) == Calls(was) + [f]
  {
  }

  lemma {:induction false} AskIs(was: History, k: nat)
    requires k <= Count(was)
    ensures var h := Then(was, Ask);
            && Count(was) <= Count(h) && Calls(h) == Calls(was) && Takes(h) == Takes(was) && Ends(h) == Ends(was)
            && Patient(h, k) == Patient(was, k) && Replay(h) == Replay(was)
  {
  }

  lemma AskedIs(was: History, f: Frame, early: Early, k: nat)
    requires k <= Count(was)
    ensures var h := Asked(was, f, early);
            && k <= Count(was) <= Count(h) && Extends(h, was) && Calls(h) == Calls(was) + [f] && Takes(h) == Takes(was)
            && Ends(h) == Ends(was) + (if early.Ended? then [early.f] else [])
            && (Patient(h, k) <==> Patient(was, k) && !Outstanding(was))
            && (early.Nothing? ==> Replay(h) == Replay(was))
  {
    CallIs(was, f, k);
    WithIs(Then(was, Call(f)), early, k);
    AskIs(With(Then(was, Call(f)), early), k);
    StillExtends(With(Then(was, Call(f)), early), Then(was, Call(f)), was);
  }

  class Node {
    var ram: seq<Word>                 // two receive elements, then the transmit buffer
    var get: nat                       // RXF0S.F0GI
    var fill: nat                      // RXF0S.F0FL
    var lost: bool                     // RXF0S.RF0L
    var tx: Tx
    var clock: nat                     // accesses so far
    ghost var trace: History
    const starts: nat -> bool          // whether the controller starts on a request by an access
    const completes: nat -> bool       // whether a transmission is over by an access
    const noise: nat -> Noise

    constructor (ram: seq<Word>, starts: nat -> bool, completes: nat -> bool, noise: nat -> Noise)
      requires |ram| == 12 && forall t :: Fitting(noise(t))
      ensures Valid() && tx == Idle && clock == 0 && trace == Start
      ensures this.starts == starts && this.completes == completes && this.noise == noise
    {
      this.ram, get, fill, lost, tx, clock, trace := ram, 0, 0, false, Idle, 0, Start;
      this.starts, this.completes, this.noise := starts, completes, noise;
    }

    ghost predicate Shaped()
      reads this
    {
      && |ram| == 12 && get < FIFO && fill <= FIFO && (forall t :: Fitting(noise(t)))
      && (tx.Sending? ==> tx.f.id < 0x800 && |tx.f.data| <= 8)
    }

    ghost predicate Valid()
      reads this
    {
      Shaped() && Lawful(trace) && Queue() == Replay(trace) && (tx != Idle <==> Outstanding(trace))
    }

    ghost function Queue(): seq<Frame>
      requires Shaped()
      reads this
    {
      Fifo(ram, get, fill)
    }

    /** The frame of a transmission that has been requested and has not ended. */
    ghost function Owed(): seq<Frame>
      requires Shaped()
      reads this
    {
      match tx
      case Idle => []
      case Requested => [FrameAt(ram, TX)]
      case Sending(f) => [f]
    }

    /** Every frame that has been or is being transmitted, in order. */
    ghost function Account(): seq<Frame>
      requires Shaped()
      reads this
    {
      Ends(trace) + Owed()
    }

    ghost function Here(): Moment
      requires Shaped()
      reads this
    {
      Moment(tx, ram[TX..], trace, clock)
    }

    ghost predicate StartedBy(from: nat, v: nat) {
      exists u: nat :: from <= u <= v && starts(u)
    }

    /** The first access from `from` on by which the controller starts. */
    ghost predicate FirstStart(from: nat, u: nat) {
      from <= u && starts(u) && forall v: nat :: from <= v < u ==> !starts(v)
    }

    /** A transmission that is `sending`, or else only requested, ends at an access from `from` on and before `to`. */
    ghost predicate EndsWithin(sending: bool, from: nat, to: nat) {
      exists v: nat :: from <= v < to && completes(v) && (sending || StartedBy(from, v))
    }

    lemma EndsByNext(sending: bool, from: nat, to: nat)
      requires from <= to
      ensures EndsWithin(sending, from, to + 1)
         <==> EndsWithin(sending, from, to) || (completes(to) && (sending || StartedBy(from, to)))
    {
    }

    /** Every requested transmission is over within the driver's spin. */
    ghost predicate Prompt() {
      forall t: nat :: SentSoon(t)
    }

    ghost predicate SentSoon(t: nat) {
      EndsWithin(false, t, t + SPIN)
    }

    /** The end of a transmission: the frame loops back into the FIFO, or is lost when that is full. */
    method Transmit()
      requires Valid() && tx.Sending?
      modifies this`ram, this`fill, this`lost, this`tx, this`trace
      ensures Valid() && tx == Idle && trace == Then(old(trace), End(old(tx).f)) && ram[TX..] == old(ram[TX..])
      ensures Queue() == Pushed(old(Queue()), old(tx).f) && (lost <==> old(lost) || old(fill) == FIFO)
      ensures old(fill) > 0 ==> fill > 0 && ram[4 * get..4 * get + 4] == old(ram[4 * get..4 * get + 4])
    {
      var f := tx.f;
      if fill < FIFO {
        Store(f);
      } else {
        lost := true;
      }
      tx, trace := Idle, Then(trace, End(f));
    }

    method Store(f: Frame)
      requires Shaped() && f.id < 0x800 && |f.data| <= 8 && fill < FIFO
      modifies this`ram, this`fill
      ensures Shaped() && Queue() == old(Queue()) + [f] && ram[TX..] == old(ram[TX..]) && fill > 0
      ensures old(fill) > 0 ==> ram[4 * get..4 * get + 4] == old(ram[4 * get..4 * get + 4])
    {
      var e := Element(f, noise(clock));
      ElementHolds(f, noise(clock));
      FifoGrows(ram, get, fill, e);
      ram := WithElement(ram, (get + fill) % FIFO, e);
      fill := fill + 1;
    }

    /** What the controller may do by itself before an access. */
    method Pass()
      requires Valid()
      modifies this`ram, this`fill, this`lost, this`tx, this`clock, this`trace
      ensures Valid() && clock == old(clock) + 1 && ram[TX..] == old(ram[TX..])
      ensures old(fill) > 0 ==> fill > 0 && ram[4 * get..4 * get + 4] == old(ram[4 * get..4 * get + 4])
      ensures (tx, trace) == (Passed(old(tx), FrameAt(old(ram), TX), old(clock)).0,
                              With(old(trace), Passed(old(tx), FrameAt(old(ram), TX), old(clock)).1))
    {
      if tx.Requested? && starts(clock) {
        tx := Sending(FrameAt(ram, TX));
      }
      if tx.Sending? && completes(clock) {
        Transmit();
      }
      clock := clock + 1;
    }

    /** What the controller makes of the transmitter at count `c`, with frame `b` in the buffer. */
    function Passed(x: Tx, b: Frame, c: nat): (Tx, Early) {
      var begun := if x.Requested? && starts(c) then Sending(b) else x;
      if begun.Sending? && completes(c) then (Idle, Ended(begun.f)) else (begun, Nothing)
    }

    /** The transmitter is `x` at count `c` and `early` has happened since `m`, while the words `ws` replace the buffer
        one by one; `u` is when a transmission that was only requested has started. */
    ghost predicate Drifts(m: Moment, ws: seq<Word>, early: Early, u: nat, x: Tx, c: nat) {
      && |m.buffer| == |ws| == 4 && m.clock <= c
      && match m.tx
         case Idle => x == Idle && early == Nothing
         case Sending(f) =>
           if EndsWithin(true, m.clock, c) then x == Idle && early == Ended(f) else x == m.tx && early == Nothing
         case Requested =>
           if m.clock == c || !StartedBy(m.clock, c - 1) then x == Requested && early == Nothing
           else
             && FirstStart(m.clock, u) && u < c
             && if EndsWithin(false, m.clock, c) then x == Idle && early == Ended(StartedAt(m, ws, u))
                else x == Sending(StartedAt(m, ws, u)) && early == Nothing
    }

    lemma DriftStart(ws: seq<Word>)
      requires Shaped() && |ws| == 4
      ensures Drifted(Here(), ws, Nothing, 0)
    {
    }

    lemma DriftNext(m: Moment, ws: seq<Word>, early: Early, u: nat, x: Tx, c: nat) returns (now: Early, v: nat)
      requires Drifts(m, ws, early, u, x, c)
      ensures var (y, e) := Passed(x, StartedAt(m, ws, c), c);
              Drifts(m, ws, now, v, y, c + 1) && With(With(m.trace, early), e) == With(m.trace, now)
    {
      EndsByNext(m.tx.Sending?, m.clock, c);
      StartedByNext(m.clock, c);
      v := if x.Requested? then c else u;
      var e := Passed(x, StartedAt(m, ws, c), c).1;
      now := if e.Ended? then e else early;
    }

    ghost predicate Drifted(m: Moment, ws: seq<Word>, early: Early, u: nat)
      reads this
    {
      Drifts(m, ws, early, u, tx, clock) && trace == With(m.trace, early)
    }

    /** The frame that is sent if the transmission starts at count `u`. */
    ghost function StartedAt(m: Moment, ws: seq<Word>, u: nat): Frame
      requires |m.buffer| == |ws| == 4 && m.clock <= u
    {
      FrameAt(Mixed(m.buffer, ws, u - m.clock), 0)
    }

    /** The controller's part of an access while the buffer is filled. */
    method Drift(ghost m: Moment, ghost ws: seq<Word>, ghost early: Early, ghost u: nat)
      returns (ghost now: Early, ghost v: nat)
      requires Valid() && Drifted(m, ws, early, u) && ram[TX..] == Mixed(m.buffer, ws, clock - m.clock)
      modifies this`ram, this`fill, this`lost, this`tx, this`clock, this`trace
      ensures Valid() && clock == old(clock) + 1 && ram[TX..] == old(ram[TX..]) && Drifted(m, ws, now, v)
    {
      now, v := DriftNext(m, ws, early, u, tx, clock);
      BufferFrame(ram);
      Pass();
    }

    /** Write one word of the transmit buffer. */
    method Put(k: nat, w: Word, ghost m: Moment, ghost ws: seq<Word>, ghost early: Early, ghost u: nat)
      returns (ghost now: Early, ghost v: nat)
      requires Valid() && k < 4 && Drifted(m, ws, early, u) && w == ws[k]
      requires clock == m.clock + k && ram[TX..] == Mixed(m.buffer, ws, k)
      modifies this`ram, this`fill, this`lost, this`tx, this`clock, this`trace
      ensures Valid() && clock == old(clock) + 1 && ram[TX..] == Mixed(m.buffer, ws, k + 1) && Drifted(m, ws, now, v)
    {
      now, v := Drift(m, ws, early, u);
      MixedNext(m.buffer, ws, k);
      BufferWrite(ram, k, w);
      ram := ram[TX + k := w];
    }

    /** Fill the transmit buffer, pending or not. */
    method Buffer(id: Word, data: seq<Byte>, len: nat) returns (ghost early: Early, ghost u: nat)
      requires Valid() && len <= 8 && len <= |data|
      modifies this`ram, this`fill, this`lost, this`tx, this`clock, this`trace
      ensures Valid() && clock == old(clock) + 4 && ram[TX..] == Encoded(id, data, len)
      ensures Drifted(old(Here()), Encoded(id, data, len), early, u)
    {
      hide Drifted, Mixed, Encoded, Little;
      ghost var m, ws := Here(), Encoded(id, data, len);
      var w0, w1 := Pack(data, len);
      MixedNext(m.buffer, ws, 0);
      DriftStart(ws);
      EncodedIs(id, data, len, w0, w1);
      early, u := Put(0, id % 0x800 * 0x4_0000, m, ws, Nothing, 0);
      early, u := Put(1, len % 16 * 0x1_0000, m, ws, early, u);
      early, u := Put(2, w0, m, ws, early, u);
      early, u := Put(3, w1, m, ws, early, u);
    }

    /** Still owing `f` since count `from`, when it was `sending` or only requested. */
    ghost predicate Awaits(sending: bool, from: nat, f: Frame)
      requires Shaped()
      reads this
    {
      && clock >= from && Owed() == [f] && !EndsWithin(sending, from, clock)
      && (tx.Sending? <==> sending || (clock > from && StartedBy(from, clock - 1)))
    }

    /** Reading TXBRP. */
    method Poll(ghost sending: bool, ghost from: nat, ghost f: Frame) returns (busy: bool)
      requires Valid() && Awaits(sending, from, f)
      modifies this`ram, this`fill, this`lost, this`tx, this`clock, this`trace
      ensures Valid() && clock == old(clock) + 1
      ensures if busy then Awaits(sending, from, f) && trace == old(trace)
              else tx == Idle && trace == Then(old(trace), End(f)) && EndsWithin(sending, from, clock)
    {
      EndsByNext(sending, from, clock);
      StartedByNext(from, clock);
      BufferFrame(ram);
      Pass();
      BufferFrame(ram);
      busy := tx != Idle;
    }

    lemma StartedByNext(from: nat, v: nat)
      requires from <= v
      ensures StartedBy(from, v) <==> (v > from && StartedBy(from, v - 1)) || starts(v)
    {
    }

    /** What a request finds that comes after the words `ws` have been written from `m` on. */
    ghost predicate Finds(m: Moment, ws: seq<Word>, request: Tx, early: Early) {
      && |m.buffer| == |ws| == 4 && (early == Nothing <==> m.tx.Idle? || !request.Idle?)
      && match m.tx
         case Idle => request == Idle
         case Sending(f) =>
           if EndsWithin(true, m.clock, m.clock + REQUEST) then request == Idle && early == Ended(f)
           else request == m.tx
         case Requested =>
           if !StartedBy(m.clock, m.clock + REQUEST - 1) then request == Requested
           else forall u: nat :: u < m.clock + REQUEST && FirstStart(m.clock, u) ==>
                  if EndsWithin(false, m.clock, m.clock + REQUEST)
                  then request == Idle && early == Ended(StartedAt(m, ws, u))
                  else request == Sending(StartedAt(m, ws, u))
    }

    lemma Settles(m: Moment, ws: seq<Word>, early: Early, u: nat)
      requires Drifted(m, ws, early, u) && clock == m.clock + REQUEST
      ensures Finds(m, ws, tx, early)
    {
    }

    /** Ask for the buffer to be sent; while TXBRP is set this is ignored. */
    method Request(ghost m: Moment, ghost ws: seq<Word>, ghost early: Early, ghost u: nat)
      returns (ghost request: Tx, ghost now: Early)
      requires Valid() && Drifted(m, ws, early, u) && ram[TX..] == ws && clock == m.clock + REQUEST - 1
      modifies this`ram, this`fill, this`lost, this`tx, this`clock, this`trace
      ensures Valid() && clock == m.clock + REQUEST && trace == Then(With(m.trace, now), Ask)
      ensures Finds(m, ws, request, now)
      ensures tx == if request.Sending? then request else Requested
      ensures Owed() == [if request.Sending? then request.f else FrameAt(ws, 0)]
    {
      ghost var v;
      now, v := Drift(m, ws, early, u);
      Settles(m, ws, now, v);
      BufferFrame(ram);
      request := tx;
      if tx == Idle {
        tx := Requested;
      }
      trace := Then(trace, Ask);
    }

    /** `can_send` up to its request. */
    method Submit(id: Word, data: seq<Byte>, len: nat) returns (ghost request: Tx, ghost early: Early)
      requires Valid() && len <= 8 && len <= |data|
      modifies this`ram, this`fill, this`lost, this`tx, this`clock, this`trace
      ensures Valid() && clock == old(clock) + REQUEST
      ensures trace == Asked(old(trace), Frame(id % 0x800, data[..len]), early)
      ensures Finds(old(Here()), Encoded(id, data, len), request, early)
      ensures tx == if request.Sending? then request else Requested
      ensures Owed() == [if request.Sending? then request.f else Frame(id % 0x800, data[..len])]
    {
      ghost var here, u := Here(), 0;
      trace := Then(trace, Call(Frame(id % 0x800, data[..len])));
      ghost var m := Here();
      early, u := Buffer(id, data, len);
      request, early := Request(m, Encoded(id, data, len), early, u);
      SameFind(here, m, Encoded(id, data, len), request, early);
      EncodedHolds(id, data, len);
    }

    /** What has been called does not matter. */
    lemma SameFind(a: Moment, b: Moment, ws: seq<Word>, request: Tx, early: Early)
      requires a == b.(trace := a.trace) && Finds(b, ws, request, early)
      ensures Finds(a, ws, request, early)
    {
    }

    /** `can_send`.  The transmission it waits for is of its own frame, with the low 11 bits of the id and at most
        8 bytes, unless its `request` finds one that has started and not ended: then it is that one, and the request
        is ignored.  One that was pending and starts while the buffer is filled is of a mixture of two frames. */
    method CanSend(id: Word, data: seq<Byte>, length: nat) returns (rc: int, ghost request: Tx, ghost early: Early)
      requires Valid() && Cap8(length) <= |data|
      modifies this
      ensures Valid() && (rc == 0 || rc == -1)
      ensures Finds(old(Here()), Encoded(id, data, Cap8(length)), request, early)
      ensures rc == 0 <==> EndsWithin(request.Sending?, old(clock) + 5, old(clock) + 5 + 2_000_000)
      ensures var sent := if request.Sending? then request.f else Carried(id, data, length);
              var asked := Asked(old(trace), Carried(id, data, length), early);
              if rc == 0 then tx == Idle && trace == Then(asked, End(sent)) else Owed() == [sent] && trace == asked
      ensures rc == -1 ==>
                && clock == old(clock) + REQUEST + SPIN
                && (tx.Sending? <==> request.Sending? || StartedBy(old(clock) + REQUEST, clock - 1))
      ensures old(tx).Idle? ==>
                Queue() == if rc == 0 then Pushed(old(Queue()), Carried(id, data, length)) else old(Queue())
      ensures Prompt() ==> rc == 0
    {
      ghost var from := clock + REQUEST;
      request, early := Submit(id, data, Cap8(length));
      AskedIs(old(trace), Carried(id, data, length), early, 0);
      rc := Spin(request.Sending?, if request.Sending? then request.f else Carried(id, data, length), from);
    }

    /** The wait for a requested transmission. */
    method Spin(ghost sending: bool, ghost f: Frame, ghost from: nat) returns (rc: int)
      requires Valid() && tx != Idle && Owed() == [f] && sending == tx.Sending? && clock == from
      modifies this`ram, this`fill, this`lost, this`tx, this`clock, this`trace
      ensures Valid() && (rc == 0 || rc == -1)
      ensures rc == 0 <==> EndsWithin(sending, from, from + SPIN)
      ensures if rc == 0 then tx == Idle && trace == Then(old(trace), End(f))
              else Owed() == [f] && trace == old(trace) && clock == from + SPIN
                   && (tx.Sending? <==> sending || StartedBy(from, clock - 1))
      ensures Prompt() ==> rc == 0
    {
      assert Prompt() ==> SentSoon(from);
      for t := 0 to SPIN
        invariant Valid() && clock == from + t && Awaits(sending, from, f) && trace == old(trace)
      {
        var busy := Poll(sending, from, f);
        if !busy {
          return 0;
        }
      }
      return -1;
    }

    /** The status register: fill level, get and put index, full and lost flags. */
    function Status(): (s: nat)
      requires get < FIFO && fill <= FIFO
      reads this
      ensures s % 0x80 == fill && s / 0x100 % 0x40 == get
    {
      var above := (get + fill) % FIFO + (if fill == FIFO then 0x100 else 0) + (if lost then 0x200 else 0);
      FillField(fill, 2 * get + 0x200 * above);
      GetField(fill, get, 4 * above);
      fill + 0x100 * get + 0x1_0000 * above
    }

    /** Since the history was `was` and `owed` was owed, nothing has happened but `early`, the end of that. */
    ghost predicate Kept(owed: seq<Frame>, was: History, early: Early)
      requires Shaped()
      reads this
    {
      && trace == With(was, early)
      && if early == Nothing then Owed() == owed else Owed() == [] && owed == [early.f]
    }

    /** The controller's part of an access while a frame is read. */
    method Stay(ghost owed: seq<Frame>, ghost was: History, ghost early: Early)
      returns (ghost now: Early)
      requires Valid() && Kept(owed, was, early)
      modifies this`ram, this`fill, this`lost, this`tx, this`clock, this`trace
      ensures Valid() && Kept(owed, was, now) && (early != Nothing ==> now == early)
      ensures old(fill) > 0 ==> fill > 0 && ram[4 * get..4 * get + 4] == old(ram[4 * get..4 * get + 4])
      ensures old(fill) > 0 ==> FrameAt(ram, 4 * get) == FrameAt(old(ram), 4 * get)
    {
      ghost var before := ram;
      BufferFrame(ram);
      Pass();
      BufferFrame(ram);
      HeadHolds(before, before[4 * get..4 * get + 4], get);
      HeadHolds(ram, ram[4 * get..4 * get + 4], get);
      now := if early.Ended? || trace == old(trace) then early else Ended(trace.event.f);
    }

    /** Read one word of the element at the head of the FIFO. */
    method Fetch(k: nat, ghost e: seq<Word>, ghost owed: seq<Frame>, ghost was: History, ghost early: Early)
      returns (v: Word, ghost now: Early)
      requires Valid() && k < 4 && fill > 0 && ram[4 * get..4 * get + 4] == e && Kept(owed, was, early)
      modifies this`ram, this`fill, this`lost, this`tx, this`clock, this`trace
      ensures Valid() && Kept(owed, was, now) && (early != Nothing ==> now == early)
      ensures fill > 0 && ram[4 * get..4 * get + 4] == e && v == e[k]
    {
      now := Stay(owed, was, early);
      v := ram[4 * get + k];
      assert ram[4 * get..4 * get + 4][k] == v;
    }

    /** Writing RXF0A releases the elements up to the index. */
    method Acknowledge(index: nat, ghost f: Frame)
      requires Valid() && fill > 0 && index == get && f == Queue()[0]
      modifies this`get, this`fill, this`trace
      ensures Valid() && trace == Then(old(trace), Take(f))
    {
      ghost var q := Queue();
      trace := Then(trace, Take(f));
      get, fill := (index + 1) % FIFO, fill - 1;
      forall i: nat | i < fill
        ensures Queue()[i] == q[i + 1]
      {
        assert (get + i) % FIFO == (old(get) + (i + 1)) % FIFO;
      }
      assert Queue() == q[1..];
    }

    /** The unpack loop. */
    method Unpack(w0: Word, w1: Word, n: nat) returns (data: seq<Byte>)
      requires n <= 8
      ensures data == Payload(w0, w1, n)
    {
      data := [];
      for i := 0 to n
        invariant data == Payload(w0, w1, n)[..i]
      {
        data := data + [if i < 4 then ByteOf(w0, i) else ByteOf(w1, i - 4)];
      }
    }

    /** Read the element at the head of the FIFO. */
    method FetchHead(ghost owed: seq<Frame>, ghost was: History, ghost early: Early)
      returns (f: Frame, ghost now: Early)
      requires Valid() && fill > 0 && Kept(owed, was, early)
      modifies this`ram, this`fill, this`lost, this`tx, this`clock, this`trace
      ensures Valid() && fill > 0 && Kept(owed, was, now) && (early != Nothing ==> now == early)
      ensures f == FrameAt(old(ram), 4 * get) == FrameAt(ram, 4 * get)
    {
      ghost var e := ram[4 * get..4 * get + 4];
      HeadHolds(ram, e, get);
      var r0, r1, w0, w1;
      r0, now := Fetch(0, e, owed, was, early);
      r1, now := Fetch(1, e, owed, was, now);
      w0, now := Fetch(2, e, owed, was, now);
      w1, now := Fetch(3, e, owed, was, now);
      HeadHolds(ram, e, get);
      var data := Unpack(w0, w1, Cap8(r1 / 0x1_0000 % 16));
      f := Frame(r0 / 0x4_0000 % 0x800, data);
    }

    /** Read it and release it. */
    method TakeHead(ghost owed: seq<Frame>, ghost was: History, ghost early: Early)
      returns (f: Frame, ghost now: Early)
      requires Valid() && fill > 0 && Kept(owed, was, early)
      modifies this
      ensures Valid() && f == old(Queue())[0] && trace == Then(With(was, now), Take(f))
      ensures early != Nothing ==> now == early
      ensures if now == Nothing then Owed() == owed else Owed() == [] && owed == [now.f]
    {
      FifoHead(ram, get, fill);
      f, now := FetchHead(owed, was, early);
      now := Stay(owed, was, now);
      FifoHead(ram, get, fill);
      Acknowledge(get, f);
    }

    /** `can_recv`: 1 for an empty FIFO, otherwise the oldest frame, which leaves the FIFO.  A pending transmission may
        end meanwhile: `early`. */
    method CanRecv() returns (rc: int, f: Frame, ghost early: Early)
      requires Valid()
      modifies this
      ensures Valid() && (rc == 0 || rc == 1)
      ensures if early == Nothing then Owed() == old(Owed()) else Owed() == [] && old(Owed()) == [early.f]
      ensures rc == 1 ==> old(Queue()) == [] && early == Nothing && trace == old(trace)
      ensures rc == 0 ==> trace == Then(With(old(trace), early), Take(f))
      ensures rc == 0 ==> if old(Queue()) == [] then early == Ended(f) else f == old(Queue())[0]
    {
      ghost var owed, was, q := Owed(), trace, Queue();
      early := Stay(owed, was, Nothing);
      var s := Status();
      if s % 0x80 == 0 {
        return 1, Frame(0, []), early;
      }
      assert s / 0x100 % 0x40 == get;
      assert q != [] ==> Queue()[0] == q[0];
      f, early := TakeHead(owed, was, early);
      rc := 0;
    }

    /** One send: `k` marks an earlier point of the history. */
    method PerformSend(id: Word, data: seq<Byte>, length: nat, ghost k: nat) returns (rc: int)
      requires Valid() && Cap8(length) <= |data| && k <= Count(trace)
      modifies this
      ensures Valid() && Takes(trace) == old(Takes(trace)) && Extends(trace, old(trace))
      ensures Calls(trace) == old(Calls(trace)) + [Carried(id, data, length)]
      ensures Patient(trace, k) <==> old(Patient(trace, k)) && old(tx).Idle?
      ensures old(tx).Idle? ==> Account() == old(Account()) + [Carried(id, data, length)]
      ensures rc == 0 ==> tx == Idle
      ensures Prompt() && old(tx).Idle? ==> rc == 0 && Queue() == Pushed(old(Queue()), Carried(id, data, length))
    {
      ghost var request, early;
      rc, request, early := CanSend(id, data, length);
      AskedIs(old(trace), Carried(id, data, length), early, k);
    }

    method PerformRecv(ghost k: nat) returns (r: Reply)
      requires Valid() && k <= Count(trace)
      modifies this
      ensures Valid() && Takes(trace) == old(Takes(trace)) + Out(r) && Account() == old(Account())
      ensures Calls(trace) == old(Calls(trace)) && Patient(trace, k) == old(Patient(trace, k))
      ensures Extends(trace, old(trace))
      ensures old(tx).Idle? ==> tx == Idle && (Queue(), r) == QueueStep(old(Queue()), Recv)
    {
      var rc, f;
      ghost var early;
      rc, f, early := CanRecv();
      WithIs(old(trace), early, k);
      r := if rc == 0 then Got(f) else Empty;
    }

    /** One operation. */
    method Perform(op: Op, ghost k: nat) returns (r: Reply)
      requires Valid() && Legal(op) && k <= Count(trace)
      modifies this
      ensures Valid() && Takes(trace) == old(Takes(trace)) + Out(r) && Extends(trace, old(trace))
      ensures Calls(trace) == old(Calls(trace)) + In(op)
      ensures Patient(trace, k) <==> old(Patient(trace, k)) && (op.Send? ==> old(tx).Idle?)
      ensures op.Recv? || old(tx).Idle? ==> Account() == old(Account()) + In(op)
      ensures (if op.Send? then r == Sent(0) else old(tx).Idle?) ==> tx == Idle
      ensures Prompt() && old(tx).Idle? ==> tx == Idle && (Queue(), r) == QueueStep(old(Queue()), op)
    {
      match op
      case Send(id, data, length) =>
        var rc := PerformSend(id, data, length, k);
        r := Sent(rc);
      case Recv =>
        r := PerformRecv(k);
    }

    /** What a run of `ops` with these replies has done to a node that started with history `was`, queue `q` and
        account `account`, idle or not. */
    ghost predicate Ran(ops: seq<Op>, rs: seq<Reply>, was: History, q: seq<Frame>, account: seq<Frame>, idle: bool)
      requires LegalAll(ops) && |rs| == |ops|
      reads this
    {
      && Valid() && Extends(trace, was) && Count(was) <= Count(trace)
      && Takes(trace) == Takes(was) + Received(rs) && Calls(trace) == Calls(was) + Frames(ops)
      && (Patient(trace, Count(was)) ==> Account() == account + Frames(ops))
      && (Calm(ops, rs, idle) ==> Patient(trace, Count(was)) && (Ready(ops, rs, idle) ==> tx == Idle))
      && (Prompt() && idle ==> tx == Idle && Patient(trace, Count(was)) && (Queue(), rs) == QueueRun(q, ops))
    }

    method RunOne(op: Op, ghost ops: seq<Op>, ghost rs: seq<Reply>, ghost was: History, ghost q: seq<Frame>,
                  ghost account: seq<Frame>, ghost idle: bool)
      returns (r: Reply)
      requires LegalAll(ops) && |rs| == |ops| && Legal(op) && Ran(ops, rs, was, q, account, idle)
      modifies this
      ensures Ran(ops + [op], rs + [r], was, q, account, idle)
    {
      ghost var mid := trace;
      r := Perform(op, Count(was));
      StillExtends(trace, mid, was);
      QueueNext(q, ops, op);
      RepliesNext(rs, r);
      CalmNext(ops, op, rs, r, idle);
      Regroup(Takes(was), Received(rs), Out(r));
      Regroup(Calls(was), Frames(ops), In(op));
      Regroup(account, Frames(ops), In(op));
    }

    method RunAll(ops: seq<Op>, ghost was: History, ghost q: seq<Frame>, ghost account: seq<Frame>, ghost idle: bool)
      returns (rs: seq<Reply>)
      requires LegalAll(ops) && Ran([], [], was, q, account, idle)
      modifies this
      ensures |rs| == |ops| && Ran(ops, rs, was, q, account, idle)
    {
      hide Ran, Legal;
      rs := [];
      ghost var done: seq<Op> := [];
      for i := 0 to |ops|
        invariant |rs| == |done| == i && done == ops[..i]
        invariant LegalAll(done) && Ran(done, rs, was, q, account, idle)
      {
        SliceNext(ops, 0, i);
        var r := RunOne(ops[i], done, rs, was, q, account, idle);
        rs, done := rs + [r], done + [ops[i]];
      }
      assert done == ops;
    }

    /** Any run of sends and receives, time-outs included.  What is received is what has left the FIFO, in order.
        If no send is called before the last transmission has ended, every frame sent is transmitted once and in
        order, if late, save that the last may still be pending.  A run of sends that all return 0, but perhaps the
        last, on an idle node is of this kind.  A prompt node is a queue of two frames. */
    method Run(ops: seq<Op>) returns (rs: seq<Reply>)
      requires Valid() && LegalAll(ops)
      modifies this
      ensures Valid() && |rs| == |ops| && Extends(trace, old(trace))
      ensures Takes(trace) == old(Takes(trace)) + Received(rs) && Takes(trace) + Queue() == Entered(trace)
      ensures Calls(trace) == old(Calls(trace)) + Frames(ops)
      ensures Patient(trace, Count(old(trace))) ==> Account() == old(Account()) + Frames(ops)
      ensures Calm(ops, rs, old(tx).Idle?) ==> Patient(trace, Count(old(trace)))
      ensures Prompt() && old(tx).Idle? ==>
                Patient(trace, Count(old(trace))) && tx == Idle && (Queue(), rs) == QueueRun(old(Queue()), ops)
    {
      rs := RunAll(ops, trace, Queue(), Account(), tx.Idle?);
      NothingLostOrMadeUp(trace);
    }
  }

  lemma Regroup(a: seq<Frame>, b: seq<Frame>, c: seq<Frame>)
    ensures (a + b) + c == a + (b + c)
  {
  }

  lemma HeadHolds(ram: seq<Word>, e: seq<Word>, gi: nat)
    requires |ram| == 12 && gi < FIFO && e == ram[4 * gi..4 * gi + 4]
    ensures FrameAt(ram, 4 * gi) == FrameAt(e, 0)
  {
  }

  /** The access by which a transmission is over in ReportsAnotherFrame: the first poll of the second send. */
  predicate SecondPoll(t: nat) {
    t == SPIN + 2 * REQUEST
  }

  method TimedOut(ram: seq<Word>, noise: nat -> Noise, a: Word) returns (node: Node)
    requires |ram| == 12 && forall t :: Fitting(noise(t))
    ensures node.Valid() && fresh(node) && node.completes == SecondPoll
    ensures node.tx == Sending(Carried(a, [], 0)) && node.clock == SPIN + REQUEST
    ensures node.trace == Then(Then(Start, Call(Carried(a, [], 0))), Ask)
  {
    node := new Node(ram, t => true, SecondPoll, noise);
    assert node.starts(REQUEST);
    assert node.StartedBy(REQUEST, SPIN + REQUEST - 1);
    var rc;
    ghost var request, early;
    rc, request, early := node.CanSend(a, [], 0);
  }

  /** A send may return 0 for a frame that is never transmitted: the transmission before it, which had timed out,
      ends while it polls. */
  method ReportsAnotherFrame(ram: seq<Word>, noise: nat -> Noise, a: Word, b: Word) returns (node: Node, rc: int)
    requires |ram| == 12 && forall t :: Fitting(noise(t))
    ensures node.Valid() && rc == 0 && node.tx == Idle
    ensures Calls(node.trace) == [Carried(a, [], 0), Carried(b, [], 0)] && Ends(node.trace) == [Carried(a, [], 0)]
  {
    node := TimedOut(ram, noise, a);
    assert node.completes(SPIN + 2 * REQUEST);
    assert node.EndsWithin(true, SPIN + 2 * REQUEST, SPIN + 2 * REQUEST + SPIN);
    ghost var was := node.trace;
    ghost var request, early;
    rc, request, early := node.CanSend(b, [], 0);
    AskedIs(Start, Carried(a, [], 0), Nothing, 0);
    AskedIs(was, Carried(b, [], 0), Nothing, 0);
  }

  // ----- The queue of a prompt node ------------------------------------------------------

  /** What arrives of a frame. */
  function Carried(id: Word, data: seq<Byte>, length: nat): Frame
    requires Cap8(length) <= |data|
  {
    Frame(id % 0x800, data[..Cap8(length)])
  }

  datatype Op = Send(id: Word, data: seq<Byte>, length: nat) | Recv

  datatype Reply = Sent(rc: int) | Got(f: Frame) | Empty

  predicate Legal(op: Op) {
    op.Send? ==> Cap8(op.length) <= |op.data|
  }

  predicate LegalAll(ops: seq<Op>) {
    forall i :: 0 <= i < |ops| ==> Legal(ops[i])
  }

  /** Every send but perhaps the last has returned 0, and the first is on an idle node. */
  predicate Calm(ops: seq<Op>, rs: seq<Reply>, idle: bool)
    requires |rs| == |ops|
  {
    forall j :: 0 <= j < |ops| && ops[j].Send? ==> Ready(ops[..j], rs[..j], idle)
  }

  /** Every send has returned 0, on a node that was idle. */
  predicate Ready(ops: seq<Op>, rs: seq<Reply>, idle: bool)
    requires |rs| == |ops|
  {
    idle && forall i :: 0 <= i < |ops| && ops[i].Send? ==> rs[i] == Sent(0)
  }

  lemma CalmNext(ops: seq<Op>, op: Op, rs: seq<Reply>, r: Reply, idle: bool)
    requires |rs| == |ops|
    ensures Calm(ops + [op], rs + [r], idle) ==> Calm(ops, rs, idle) && (op.Send? ==> Ready(ops, rs, idle))
    ensures Ready(ops + [op], rs + [r], idle) ==> Ready(ops, rs, idle) && (op.Send? ==> r == Sent(0))
  {
    var more, replies := ops + [op], rs + [r];
    assert more[..|ops|] == ops && replies[..|rs|] == rs;
    if Calm(more, replies, idle) {
      forall j | 0 <= j < |ops| && ops[j].Send?
        ensures Ready(ops[..j], rs[..j], idle)
      {
        assert more[..j] == ops[..j] && replies[..j] == rs[..j] && more[j] == ops[j];
      }
    }
    if Ready(more, replies, idle) {
      assert more[|ops|] == op && replies[|ops|] == r;
      forall i | 0 <= i < |ops| && ops[i].Send?
        ensures rs[i] == Sent(0)
      {
        assert more[i] == ops[i] && replies[i] == rs[i];
      }
    }
  }

  function QueueStep(q: seq<Frame>, op: Op): (seq<Frame>, Reply)
    requires Legal(op)
  {
    match op
    case Send(id, data, length) => (Pushed(q, Carried(id, data, length)), Sent(0))
    case Recv => if q == [] then (q, Empty) else (q[1..], Got(q[0]))
  }

  function QueueRun(q: seq<Frame>, ops: seq<Op>): (seq<Frame>, seq<Reply>)
    requires LegalAll(ops)
  {
    if ops == [] then (q, [])
    else
      var n := |ops| - 1;
      var before := QueueRun(q, ops[..n]);
      var last := QueueStep(before.0, ops[n]);
      (last.0, before.1 + [last.1])
  }

  lemma QueueNext(q: seq<Frame>, ops: seq<Op>, op: Op)
    requires LegalAll(ops) && Legal(op)
    ensures var (mid, rs) := QueueRun(q, ops);
            var (now, r) := QueueStep(mid, op);
            QueueRun(q, ops + [op]) == (now, rs + [r]) && Frames(ops + [op]) == Frames(ops) + In(op)
  {
    assert (ops + [op])[..|ops|] == ops;
  }

  /** The frame a reply delivers. */
  function Out(r: Reply): seq<Frame> {
    if r.Got? then [r.f] else []
  }

  /** The frame an operation sends. */
  function In(op: Op): seq<Frame>
    requires Legal(op)
  {
    if op.Send? then [Carried(op.id, op.data, op.length)] else []
  }

  /** The frames received, in order. */
  function Received(rs: seq<Reply>): seq<Frame> {
    if rs == [] then [] else Received(rs[..|rs| - 1]) + Out(rs[|rs| - 1])
  }

  lemma RepliesNext(rs: seq<Reply>, r: Reply)
    ensures Received(rs + [r]) == Received(rs) + Out(r)
  {
    assert (rs + [r])[..|rs|] == rs;
  }

  /** The frames sent, in order. */
  function Frames(ops: seq<Op>): seq<Frame>
    requires LegalAll(ops)
  {
    if ops == [] then [] else Frames(ops[..|ops| - 1]) + In(ops[|ops| - 1])
  }
}
