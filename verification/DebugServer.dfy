/**
 * The loop of the debug server, `tools/tc-gdbserver/main.c`, over any stream of bytes: the
 * memory, trigger and flash packets act on their models, run control is left out, and every
 * other packet is answered with some text and changes nothing that is modelled.
 */
module DebugServer {
  import opened Words
  import opened Rsp
  import opened Packets
  import opened MemoryPackets
  import TM = TargetMemory
  import TR = Triggers
  import FL = Flash
  import VF = VFlash

  // ----- Kinds of packets ----------------------------------------------------------------

  datatype Kind =
    | Reading | Writing | Trigger | Erasing | Loading | Finishing  // the modelled handlers
    | Alive | Unknown | Spoken                                     // answered, and nothing changes
    | Outside                                                      // run control and thread selection
    | Detach | Kill

  const ERASE_HEAD: seq<Byte> := [0x76, 0x46, 0x6C, 0x61, 0x73, 0x68, 0x45, 0x72, 0x61, 0x73, 0x65, COLON]
  const DONE_TEXT: seq<Byte> := [0x76, 0x46, 0x6C, 0x61, 0x73, 0x68, 0x44, 0x6F, 0x6E, 0x65]
  const CONT_HEAD: seq<Byte> := [0x76, 0x43, 0x6F, 0x6E, 0x74, 0x3B]

  predicate StartsWith(p: seq<Byte>, head: seq<Byte>) {
    |head| <= |p| && p[..|head|] == head
  }

  /** The packets that start with `v`. */
  function VKind(p: seq<Byte>): (k: Kind)
    ensures k.Outside? || k.Erasing? || k.Loading? || k.Finishing? || k.Spoken?
  {
    if StartsWith(p, CONT_HEAD) then Outside
    else if StartsWith(p, ERASE_HEAD) then Erasing
    else if StartsWith(p, VF.WRITE_HEAD + [COLON]) then Loading
    else if StartsWith(p, DONE_TEXT) && CharAt(p, |DONE_TEXT|) == 0 then Finishing
    else Spoken
  }

  /** The switch of `serve`, on the first character. */
  function KindOf(p: seq<Byte>): Kind {
    var c := CharAt(p, 0);
    if c == LETTER_READ then Reading
    else if c == LETTER_WRITE then Writing
    else if c == TR.INSERT || c == TR.REMOVE then Trigger
    else if c == 0x76 then VKind(p)
    else if c in {0x3F, 0x67, 0x47, 0x70, 0x50, 0x71} then Spoken  // ? g G p P q
    else if c in {0x48, 0x63, 0x73} then Outside                   // H c s
    else if c == 0x54 then Alive                                   // T
    else if c == 0x44 then Detach                                  // D
    else if c == 0x6B then Kill                                    // k
    else Unknown
  }

  // ----- What a packet does --------------------------------------------------------------

  /** The flash image being accumulated. */
  datatype Load = NoLoad | Load(base: nat, image: seq<Byte>)

  /** Everything the modelled handlers act on. */
  datatype Chip = Chip(
    world: TM.World, live: set<TR.Key>, load: Load, cells: FL.Cells, log: seq<FL.Command>)

  /** What the handlers act through. */
  datatype Board = Board(target: TM.Target, stub: TR.Stub, device: FL.Device)

  /** The text of an answer, and how many flash commands were carried out before it. */
  datatype Said = Said(text: seq<Byte>, done: nat)

  function Verdict(rc: int): seq<Byte> {
    if rc == 0 then OKAY else E01
  }

  function TriggerText(r: TR.Reply): seq<Byte> {
    match r case Empty => [] case Okay => OKAY case Failed => E01
  }

  /** `vFlashErase:addr,length`. */
  function EraseOf(p: seq<Byte>): (nat, nat)
    requires |p| >= 12
  {
    var comma := Find(p, COMMA, 12);
    (Strtoull(p, 12), if comma < |p| then Strtoull(p, comma + 1) else 0)
  }

  /** The image after a `vFlashWrite`: the first one sets the base, one below it is refused. */
  function LoadNext(l: Load, p: seq<Byte>): Load {
    if !VF.HasFields(p) then l
    else
      var (addr, data) := VF.Fields(p);
      var was := if l.NoLoad? then Load(addr, []) else l;
      if addr < was.base then was else Load(was.base, VF.Overlay(was.image, addr - was.base, Unescape(data)))
  }

  predicate Refused(l: Load, p: seq<Byte>) {
    !VF.HasFields(p) || (l.Load? && VF.Fields(p).0 < l.base)
  }

  /** The doubling loop ends for a load and the payload does not wrap, and the page loop ends at its end. */
  ghost predicate Bearable(l: Load, p: seq<Byte>) {
    && (KindOf(p).Loading? && !Refused(l, p) ==>
          (if l.NoLoad? then 0 else VF.Fields(p).0 - l.base) + |VF.Fields(p).1| <= VF.MAX_CAP)
    && (KindOf(p).Finishing? && l.Load? ==> FL.ProgramEnds(l.base, |l.image| % WORDS))
  }

  /** The first `done` of the flash commands `all` have been carried out, all of them if the answer is OK: none if
      they are not allowed, and all if they are and the device answers. */
  ghost predicate Carried(a: Chip, b: Chip, all: seq<FL.Command>, allowed: bool, ready: bool, said: Said) {
    && said.done <= |all|
    && b == a.(cells := FL.ExecuteAll(a.cells, all[..said.done]), log := a.log + all[..said.done])
    && (said.text == E01 || (said.text == OKAY && said.done == |all|))
    && (!allowed ==> said.text == E01 && said.done == 0)
    && (allowed && ready ==> said.text == OKAY)
  }

  ghost function ReadTold(t: TM.Target, w: TM.World, p: seq<Byte>): (TM.World, seq<Byte>)
    requires p != []
  {
    if ReadOf(p).len == 0 then (w, []) else (t.Expect(w, ReadOf(p)).0, Answer(t.Expect(w, ReadOf(p)).1))
  }

  ghost function WriteTold(t: TM.Target, w: TM.World, p: seq<Byte>): (TM.World, seq<Byte>)
    requires p != []
  {
    if IsWrite(p) then (t.Expect(w, WriteOf(p)).0, Answer(t.Expect(w, WriteOf(p)).1)) else (w, E01)
  }

  /** Memory after a packet. */
  ghost function WorldNext(t: TM.Target, w: TM.World, p: seq<Byte>): TM.World {
    match KindOf(p)
    case Reading => ReadTold(t, w, p).0
    case Writing => WriteTold(t, w, p).0
    case _ => w
  }

  /** The live keys after a packet that was answered with `text`. */
  function LiveNext(live: set<TR.Key>, p: seq<Byte>, text: seq<Byte>): set<TR.Key> {
    if KindOf(p).Trigger? then TR.Next(live, p, if text == OKAY then TR.Okay else TR.Failed) else live
  }

  /** What may be answered to a trigger packet. */
  ghost predicate TriggerAnswers(stub: TR.Stub, p: seq<Byte>, live: set<TR.Key>, text: seq<Byte>) {
    && (if TR.KeyOf(p).None? then text == TriggerText(TR.ReplyTo(p))
        else text == OKAY || (text == E01 && CharAt(p, 0) == TR.INSERT))
    && (stub.Reliable() ==> text == if TR.Overflows(live, p) then E01 else TriggerText(TR.ReplyTo(p)))
  }

  /** What a packet makes of the chip, and what is answered. */
  ghost predicate Answers(board: Board, p: seq<Byte>, a: Chip, b: Chip, said: Said) {
    var t := board.target;
    match KindOf(p)
    case Reading => (b, said.text) == (a.(world := ReadTold(t, a.world, p).0), ReadTold(t, a.world, p).1)
    case Writing => (b, said.text) == (a.(world := WriteTold(t, a.world, p).0), WriteTold(t, a.world, p).1)
    case Trigger => b == a.(live := LiveNext(a.live, p, said.text)) && TriggerAnswers(board.stub, p, a.live, said.text)
    case Erasing =>
      var (addr, len) := EraseOf(p);
      Carried(a, b, FL.EraseList(addr, len), FL.RangeOk(addr, len), board.device.Ready(), said)
    case Loading => b == a.(load := LoadNext(a.load, p)) && said.text == (if Refused(a.load, p) then E01 else OKAY)
    case Finishing =>
      if a.load.NoLoad? then b == a && said.text == OKAY
      else
        var (base, image) := (a.load.base, VF.Cut(a.load.image));
        Carried(a.(load := NoLoad), b, FL.Programs(base, image, 0), VF.Programmable(base, |image|),
                board.device.Ready(), said)
    case Alive => b == a && said.text == OKAY
    case Detach => b == a && said.text == OKAY
    case Unknown => b == a && said.text == []
    case _ => b == a
  }

  // ----- The turns of the loop ------------------------------------------------------------

  /** One turn: the packet, or nothing for an interrupt; the replies of the packet layer; where the acknowledgements
      of the answer start, and where the next turn does. */
  datatype Turn = Turn(packet: Option<seq<Byte>>, received: seq<Byte>, ack: nat, next: nat)

  function After(s: seq<Byte>, i: nat): (j: nat)
    requires i <= |s|
    ensures i <= j <= |s|
  {
    if i + Naks(s, i) < |s| then i + Naks(s, i) + 1 else |s|
  }

  /** Where a parse leaves the stream. */
  lemma {:induction false} ParseEnds(s: seq<Byte>, i: nat, bufsz: nat, replies: seq<Byte>)
    requires i <= |s|
    ensures var o := Parse(s, i, bufsz, replies);
            o.used <= |s| && (!o.Closed? ==> i < o.used)
            && Parse(s, i, bufsz, []) == o.(replies := Parse(s, i, bufsz, []).replies)
            && o.replies == replies + Parse(s, i, bufsz, []).replies
    decreases |s| - i
  {
    var item := NextItem(s, i, bufsz);
    if item.Rejected? {
      ParseEnds(s, item.next, bufsz, replies + [MINUS]);
      ParseEnds(s, item.next, bufsz, [MINUS]);
      assert [] + [MINUS] == [MINUS];
      Regroup(replies, [MINUS], Parse(s, item.next, bufsz, []).replies);
    } else {
      assert replies + [] == replies && [] + [PLUS] == [PLUS];
    }
  }

  /** What a call of `rsp_get_packet` makes of a turn. */
  function TurnOf(s: seq<Byte>, o: Outcome): Option<Turn>
    requires o.used <= |s|
  {
    match o
    case Closed(_, _) => None
    case Interrupt(used, replies) => Some(Turn(None, replies, used, After(s, used)))
    case Packet(p, used, replies) => Some(Turn(Some(p), replies, used, After(s, used)))
  }

  /** The turn at `i`, unless the stream ends before. */
  function NextTurn(s: seq<Byte>, i: nat): (t: Option<Turn>)
    requires i <= |s|
    ensures t.Some? ==> i < t.value.ack <= t.value.next <= |s|
  {
    ParseEnds(s, i, BUFSZ, []);
    TurnOf(s, Parse(s, i, BUFSZ, []))
  }

  /** What the packet layer replies to spoiled frames that nothing follows. */
  function LastReplies(s: seq<Byte>, i: nat): seq<Byte>
    requires i <= |s|
  {
    Parse(s, i, BUFSZ, []).replies
  }

  /** The loop ends after this turn. */
  predicate Leaves(t: Turn) {
    t.packet.Some? && (KindOf(t.packet.value).Detach? || KindOf(t.packet.value).Kill?)
  }

  /** All turns of the stream from `i` on. */
  function Turns(s: seq<Byte>, i: nat): seq<Turn>
    requires i <= |s|
    decreases |s| - i
  {
    match NextTurn(s, i)
    case None => []
    case Some(t) => [t] + (if Leaves(t) then [] else Turns(s, t.next))
  }

  /** What the server sends in one turn: the replies of the packet layer, and the answer until it is taken. */
  function TurnSent(s: seq<Byte>, t: Turn, text: seq<Byte>): seq<Byte>
    requires t.ack <= |s|
  {
    if t.packet.Some? && KindOf(t.packet.value).Kill? then t.received
    else t.received + Repeat(Frame(text), Naks(s, t.ack) + 1)
  }

  function LoadAfter(l: Load, t: Turn): Load {
    if t.packet.None? then l
    else if KindOf(t.packet.value).Loading? then LoadNext(l, t.packet.value)
    else if KindOf(t.packet.value).Finishing? then NoLoad
    else l
  }

  /** No run control, and the loops of the loader end. */
  ghost predicate Permitted(t: Turn, l: Load) {
    t.packet.Some? ==> !KindOf(t.packet.value).Outside? && Bearable(l, t.packet.value)
  }

  ghost predicate Permits(ts: seq<Turn>, l: Load) {
    ts == [] || (Permitted(ts[0], l) && Permits(ts[1..], LoadAfter(l, ts[0])))
  }

  /** The chip and everything sent so far, before a turn. */
  datatype Stand = Stand(chip: Chip, sent: seq<Byte>)

  ghost predicate Takes(board: Board, s: seq<Byte>, t: Turn, a: Stand, b: Stand, said: Said) {
    && t.ack <= |s| && b.sent == a.sent + TurnSent(s, t, said.text)
    && if t.packet.Some? then Answers(board, t.packet.value, a.chip, b.chip, said) else b.chip == a.chip
  }

  /** `stands` are the stands before, between and after the turns, and `says` the answers. */
  ghost predicate Follows(board: Board, s: seq<Byte>, ts: seq<Turn>, stands: seq<Stand>, says: seq<Said>) {
    && |stands| == |ts| + 1 && |says| == |ts|
    && forall k: nat :: k < |ts| ==> Takes(board, s, ts[k], stands[k], stands[k + 1], says[k])
  }

  lemma FollowsMore(board: Board, s: seq<Byte>, ts: seq<Turn>, stands: seq<Stand>, says: seq<Said>, t: Turn,
                    b: Stand, said: Said)
    requires Follows(board, s, ts, stands, says) && Takes(board, s, t, stands[|ts|], b, said)
    ensures Follows(board, s, ts + [t], stands + [b], says + [said])
  {
    forall k: nat | k < |ts| + 1
      ensures Takes(board, s, (ts + [t])[k], (stands + [b])[k], (stands + [b])[k + 1], (says + [said])[k])
    {
      assert k < |ts| ==> Takes(board, s, ts[k], stands[k], stands[k + 1], says[k]);
    }
  }

  /** What is permitted of the turns from `i` on. */
  lemma TurnsFrom(s: seq<Byte>, i: nat, l: Load)
    requires i <= |s| && Permits(Turns(s, i), l)
    ensures match NextTurn(s, i)
            case None => Turns(s, i) == []
            case Some(t) =>
              && Permitted(t, l)
              && (Leaves(t) ==> Turns(s, i) == [t])
              && (!Leaves(t) ==> Turns(s, i) == [t] + Turns(s, t.next) && Permits(Turns(s, t.next), LoadAfter(l, t)))
  {
    if NextTurn(s, i).Some? {
      var t := NextTurn(s, i).value;
      var rest := if Leaves(t) then [] else Turns(s, t.next);
      assert ([t] + rest)[1..] == rest && ([t] + rest)[0] == t;
    }
  }

  lemma DoneMore(all: seq<Turn>, done: seq<Turn>, t: Turn, rest: seq<Turn>)
    requires all == done + ([t] + rest)
    ensures all == (done + [t]) + rest
  {
  }

  /** The image after a turn. */
  lemma TakenLoad(board: Board, s: seq<Byte>, t: Turn, a: Stand, b: Stand, said: Said)
    requires Takes(board, s, t, a, b, said)
    ensures b.chip.load == LoadAfter(a.chip.load, t)
  {
  }

  /** The turns lead from `i` to `j`, and none of them ends the loop. */
  predicate Stretch(ts: seq<Turn>, i: nat, j: nat) {
    if ts == [] then i == j else !Leaves(ts[|ts| - 1]) && ts[|ts| - 1].next == j
  }

  /** What the packet layer replies after the last turn. */
  function LastWords(s: seq<Byte>, i: nat, ts: seq<Turn>): seq<Byte> {
    var end := if ts == [] then i else ts[|ts| - 1].next;
    if (ts != [] && Leaves(ts[|ts| - 1])) || end > |s| then [] else LastReplies(s, end)
  }

  // ----- The loop ------------------------------------------------------------------------

  class Server {
    const conn: Connection
    const target: TM.Target
    const stub: TR.Stub
    const loader: VF.Loader
    const device: FL.Device
    const voice: (nat, seq<Byte>) -> seq<Byte>  // what the handlers that are not modelled answer
    var spoken: nat

    constructor (conn: Connection, target: TM.Target, stub: TR.Stub, loader: VF.Loader, device: FL.Device,
                 voice: (nat, seq<Byte>) -> seq<Byte>)
      ensures this.conn == conn && this.target == target && this.stub == stub && this.loader == loader
      ensures this.device == device && this.voice == voice
    {
      this.conn, this.target, this.stub, this.loader, this.device := conn, target, stub, loader, device;
      this.voice, this.spoken := voice, 0;
    }

    ghost predicate Valid()
      reads this, conn, stub, stub.bp, loader, loader.fbuf
    {
      && conn.Valid() && stub.Valid() && loader.Valid()
      && (loader.fbuf != null ==> loader.fbase < DOUBLES)
    }

    ghost function Image(): Load
      requires loader.Valid()
      reads loader, loader.fbuf
    {
      if loader.fbuf == null then NoLoad else Load(loader.fbase, loader.Image())
    }

    ghost function Here(): Chip
      requires Valid()
      reads this, conn, target, stub, stub.bp, loader, loader.fbuf, device
    {
      Chip(target.Now(), stub.Live(), Image(), device.cells, device.log)
    }

    ghost function Parts(): Board {
      Board(target, stub, device)
    }

    ghost function At(): Stand
      requires Valid()
      reads this, conn, target, stub, stub.bp, loader, loader.fbuf, device
    {
      Stand(Here(), conn.sent)
    }

    method HandleMemory(p: seq<Byte>) returns (text: seq<Byte>)
      requires Valid() && (KindOf(p).Reading? || KindOf(p).Writing?)
      modifies target`memory, target`ticks, target`buffers
      ensures Valid() && Answers(Parts(), p, old(Here()), Here(), Said(text, 0))
    {
      if p[0] == LETTER_WRITE {
        text := HandleM(target, p);
      } else {
        text := HandleRead(target, p);
      }
    }

    method HandleTrigger(p: seq<Byte>) returns (text: seq<Byte>)
      requires Valid() && KindOf(p).Trigger?
      modifies stub, stub.bp
      ensures Valid() && Answers(Parts(), p, old(Here()), Here(), Said(text, 0))
    {
      var r := stub.Handle(p);
      text := TriggerText(r);
    }

    method HandleErase(p: seq<Byte>) returns (text: seq<Byte>, ghost done: nat)
      requires Valid() && KindOf(p).Erasing?
      modifies device
      ensures Valid() && Answers(Parts(), p, old(Here()), Here(), Said(text, done))
    {
      var rc;
      rc, done := device.Erase(EraseOf(p).0, EraseOf(p).1);
      text := Verdict(rc);
    }

    method HandleLoad(p: seq<Byte>) returns (text: seq<Byte>)
      requires Valid() && KindOf(p).Loading? && Bearable(Image(), p)
      modifies loader, loader.fbuf
      ensures Valid() && Answers(Parts(), p, old(Here()), Here(), Said(text, 0))
      ensures loader.fbuf == old(loader.fbuf) || (loader.fbuf != null && fresh(loader.fbuf))
    {
      var rc := loader.FlashWritePacket(p);
      text := Verdict(rc);
    }

    method HandleDone(p: seq<Byte>) returns (text: seq<Byte>, ghost done: nat)
      requires Valid() && KindOf(p).Finishing? && Bearable(Image(), p)
      modifies loader, device
      ensures Valid() && Answers(Parts(), p, old(Here()), Here(), Said(text, done))
      ensures loader.fbuf == null
    {
      var rc;
      rc, done := loader.FlashDone(device);
      text := Verdict(rc);
    }

    /** The switch: the answer to a packet, unless it is the one that kills. */
    method Dispatch(p: seq<Byte>) returns (text: seq<Byte>, ghost done: nat)
      requires Valid() && !KindOf(p).Outside? && Bearable(Image(), p)
      modifies this`spoken, target`memory, target`ticks, target`buffers, stub, stub.bp, loader, loader.fbuf, device
      ensures Valid() && Answers(Parts(), p, old(Here()), Here(), Said(text, done))
      ensures loader.fbuf == old(loader.fbuf) || loader.fbuf == null || fresh(loader.fbuf)
    {
      done := 0;
      var kind := KindOf(p);
      if kind.Reading? || kind.Writing? {
        text := HandleMemory(p);
      } else if kind.Trigger? {
        text := HandleTrigger(p);
      } else if kind.Erasing? {
        text, done := HandleErase(p);
      } else if kind.Loading? {
        text := HandleLoad(p);
      } else if kind.Finishing? {
        text, done := HandleDone(p);
      } else if kind.Alive? || kind.Detach? {
        text := OKAY;
      } else if kind.Unknown? {
        text := [];
      } else {
        text := voice(spoken, p);
        spoken := spoken + 1;
      }
    }

    /** Send an answer until it is taken. */
    method Say(text: seq<Byte>, ghost before: seq<Byte>, ghost received: seq<Byte>)
      requires Valid() && conn.sent == before + received
      modifies conn`pos, conn`sent
      ensures Valid() && Here() == old(Here()) && conn.pos == After(conn.input, old(conn.pos))
      ensures conn.sent == before + (received + Repeat(Frame(text), Naks(conn.input, old(conn.pos)) + 1))
    {
      Regroup(before, received, Repeat(Frame(text), Naks(conn.input, conn.pos) + 1));
      var rc := conn.PutPacket(text);
    }

    /** Receive: the packet of the next turn, or its interrupt, or the end. */
    method Receive(buf: array<Byte>) returns (n: int)
      requires Valid() && buf.Length == BUFSZ
      modifies conn`pos, conn`sent, buf
      ensures conn.Valid()
      ensures match NextTurn(conn.input, old(conn.pos))
              case None => n == -1 && conn.sent == old(conn.sent) + LastReplies(conn.input, old(conn.pos))
              case Some(t) =>
                && conn.pos == t.ack && conn.sent == old(conn.sent) + t.received
                && if t.packet.None? then n == -2 else 0 <= n < BUFSZ && buf[..n] == t.packet.value
    {
      ParseEnds(conn.input, conn.pos, BUFSZ, conn.sent);
      n := conn.GetPacket(buf, BUFSZ);
    }

    /** Handle a packet and send the answer until it is taken, but not to the one that kills. */
    method ServePacket(p: seq<Byte>, ghost t: Turn, ghost a: Stand) returns (stop: bool, ghost said: Said)
      requires Valid() && t.packet == Some(p) && Permitted(t, Image())
      requires conn.pos == t.ack && t.next == After(conn.input, t.ack)
      requires a.chip == Here() && conn.sent == a.sent + t.received
      modifies this`spoken, conn`pos, conn`sent, target`memory, target`ticks, target`buffers
      modifies stub, stub.bp, loader, loader.fbuf, device
      ensures Valid() && (loader.fbuf == old(loader.fbuf) || loader.fbuf == null || fresh(loader.fbuf))
      ensures stop == Leaves(t) && Takes(Parts(), conn.input, t, a, At(), said) && (!stop ==> conn.pos == t.next)
    {
      if KindOf(p).Kill? {
        return true, Said([], 0);
      }
      var text;
      ghost var done;
      text, done := Dispatch(p);
      Say(text, a.sent, t.received);
      return KindOf(p).Detach?, Said(text, done);
    }

    /** Answer an interrupt with a stop reply. */
    method ServeInterrupt(ghost t: Turn, ghost a: Stand) returns (ghost said: Said)
      requires Valid() && t.packet == None && conn.pos == t.ack && t.next == After(conn.input, t.ack)
      requires a.chip == Here() && conn.sent == a.sent + t.received
      modifies this`spoken, conn`pos, conn`sent
      ensures Valid() && Takes(Parts(), conn.input, t, a, At(), said) && conn.pos == t.next
    {
      hide Answers;
      var text := voice(spoken, []);
      spoken := spoken + 1;
      Say(text, a.sent, t.received);
      said := Said(text, 0);
    }

    /** One turn of the loop. */
    method ServeTurn(buf: array<Byte>) returns (stop: bool, ghost said: Said)
      requires Valid() && buf.Length == BUFSZ && loader.fbuf != buf
      requires var t := NextTurn(conn.input, conn.pos); t.Some? ==> Permitted(t.value, Image())
      modifies this`spoken, conn`pos, conn`sent, target`memory, target`ticks, target`buffers
      modifies stub, stub.bp, loader, loader.fbuf, device, buf
      ensures Valid() && (loader.fbuf == old(loader.fbuf) || loader.fbuf == null || fresh(loader.fbuf))
      ensures match old(NextTurn(conn.input, conn.pos))
              case None =>
                stop && Here() == old(Here()) && conn.sent == old(conn.sent) + LastReplies(conn.input, old(conn.pos))
              case Some(t) =>
                && stop == Leaves(t) && Takes(Parts(), conn.input, t, old(At()), At(), said)
                && (!stop ==> conn.pos == t.next)
    {
      hide Takes, Answers, KindOf;
      ghost var a, t := At(), NextTurn(conn.input, conn.pos);
      var n := Receive(buf);
      if n == -1 {
        return true, Said([], 0);
      }
      if n == -2 {
        stop := false;
        said := ServeInterrupt(t.value, a);
        return;
      }
      stop, said := ServePacket(buf[..n], t.value, a);
    }

    /** The loop stands behind the turns `done`, and the rest of the stream is `rest`. */
    ghost predicate Reached(done: seq<Turn>, rest: seq<Turn>, stands: seq<Stand>, says: seq<Said>)
      reads this, conn, target, stub, stub.bp, loader, loader.fbuf, device
    {
      && Valid() && rest == Turns(conn.input, conn.pos) && Permits(rest, Image())
      && Follows(Parts(), conn.input, done, stands, says) && stands[|done|] == At()
    }

    /** All turns are taken, and what was left of the stream has been replied to. */
    ghost predicate Served(all: seq<Turn>, stands: seq<Stand>, says: seq<Said>, last: seq<Byte>)
      reads this, conn, target, stub, stub.bp, loader, loader.fbuf, device
    {
      && Valid() && Follows(Parts(), conn.input, all, stands, says)
      && At() == stands[|all|].(sent := stands[|all|].sent + last)
    }

    /** One round of the loop: it takes the next turn, or finds the end of the stream. */
    method Advance(buf: array<Byte>, ghost done: seq<Turn>, ghost rest: seq<Turn>, ghost stands: seq<Stand>,
                   ghost says: seq<Said>)
      returns (stop: bool, ghost b: Stand, ghost said: Said)
      requires buf.Length == BUFSZ && loader.fbuf != buf && Reached(done, rest, stands, says)
      modifies this`spoken, conn`pos, conn`sent, target`memory, target`ticks, target`buffers
      modifies stub, stub.bp, loader, loader.fbuf, device, buf
      ensures Valid() && (loader.fbuf == old(loader.fbuf) || loader.fbuf == null || fresh(loader.fbuf))
      ensures match old(NextTurn(conn.input, conn.pos))
              case None =>
                stop && rest == [] && Served(done, stands, says, LastReplies(conn.input, old(conn.pos)))
              case Some(t) =>
                && b == At() && Follows(Parts(), conn.input, done + [t], stands + [b], says + [said])
                && stop == Leaves(t)
                && if stop then rest == [t]
                   else conn.pos == t.next && rest == [t] + Turns(conn.input, t.next)
                        && Permits(Turns(conn.input, t.next), Image())
    {
      ghost var t := NextTurn(conn.input, conn.pos);
      TurnsFrom(conn.input, conn.pos, Image());
      stop, said := ServeTurn(buf);
      b := At();
      if t.Some? {
        FollowsMore(Parts(), conn.input, done, stands, says, t.value, b, said);
        TakenLoad(Parts(), conn.input, t.value, stands[|done|], b, said);
      }
    }

    /** The loop has come from `start` to here through the turns `done` of `all`. */
    ghost predicate Going(start: nat, all: seq<Turn>, done: seq<Turn>, stands: seq<Stand>, says: seq<Said>)
      reads this, conn, target, stub, stub.bp, loader, loader.fbuf, device
    {
      && conn.Valid() && all == done + Turns(conn.input, conn.pos) && Stretch(done, start, conn.pos)
      && Reached(done, Turns(conn.input, conn.pos), stands, says)
    }

    method Round(buf: array<Byte>, ghost start: nat, ghost all: seq<Turn>, ghost done: seq<Turn>,
                 ghost stands: seq<Stand>, ghost says: seq<Said>)
      returns (stop: bool, ghost more: seq<Turn>, ghost next: seq<Stand>, ghost told: seq<Said>, ghost last: seq<Byte>)
      requires buf.Length == BUFSZ && loader.fbuf != buf && Going(start, all, done, stands, says)
      modifies this`spoken, conn`pos, conn`sent, target`memory, target`ticks, target`buffers
      modifies stub, stub.bp, loader, loader.fbuf, device, buf
      ensures Valid() && (loader.fbuf == old(loader.fbuf) || loader.fbuf == null || fresh(loader.fbuf))
      ensures |next| > 0 && |stands| > 0 && next[0] == stands[0]
      ensures if stop then Served(all, next, told, last) && last == LastWords(conn.input, start, all)
              else Going(start, all, more, next, told) && conn.pos > old(conn.pos)
    {
      ghost var t, from, rest := NextTurn(conn.input, conn.pos), conn.pos, Turns(conn.input, conn.pos);
      ghost var b, said;
      more, next, told, last := done, stands, says, [];
      stop, b, said := Advance(buf, done, rest, stands, says);
      if t.None? {
        last := LastReplies(conn.input, from);
        assert all == done;
      } else {
        more, next, told := done + [t.value], stands + [b], says + [said];
        DoneMore(all, done, t.value, if stop then [] else Turns(conn.input, t.value.next));
        assert stop ==> all == more;
      }
    }

    /** `serve`, over any stream without run control: turn by turn every handler acts as its model says, everything
        sent is accounted for, and the loop ends when the client closes, detaches or kills. */
    method Serve() returns (ghost stands: seq<Stand>, ghost says: seq<Said>, ghost last: seq<Byte>)
      requires Valid() && Permits(Turns(conn.input, conn.pos), Image())
      modifies this`spoken, conn`pos, conn`sent, target`memory, target`ticks, target`buffers
      modifies stub, stub.bp, loader, loader.fbuf, device
      ensures Served(old(Turns(conn.input, conn.pos)), stands, says, last)
      ensures |stands| > 0 && stands[0] == old(At())
      ensures last == LastWords(conn.input, old(conn.pos), old(Turns(conn.input, conn.pos)))
    {
      var buf := new Byte[BUFSZ](_ => 0);
      ghost var start, all, done := conn.pos, Turns(conn.input, conn.pos), [];
      stands, says, last := [At()], [], [];
      var stop := false;
      while !stop
        invariant loader.fbuf != buf && (loader.fbuf == old(loader.fbuf) || loader.fbuf == null || fresh(loader.fbuf))
        invariant |stands| > 0 && stands[0] == old(At()) && conn.Valid()
        invariant if stop then Served(all, stands, says, last) && last == LastWords(conn.input, start, all)
                  else Going(start, all, done, stands, says)
        decreases !stop, |conn.input| - conn.pos
      {
        stop, done, stands, says, last := Round(buf, start, all, done, stands, says);
      }
    }
  }

  // ----- What a run amounts to -------------------------------------------------------------

  /** The packets of the turns act on memory as on a byte array, one after the other. */
  ghost function WorldAfter(board: Board, w: TM.World, ts: seq<Turn>): TM.World {
    if ts == [] then w
    else
      var before, t := WorldAfter(board, w, ts[..|ts| - 1]), ts[|ts| - 1];
      if t.packet.Some? then WorldNext(board.target, before, t.packet.value) else before
  }

  /** The plain set in which an insertion counts exactly if it was answered OK. */
  function LiveAfter(live: set<TR.Key>, ts: seq<Turn>, says: seq<Said>): set<TR.Key>
    requires |says| == |ts|
  {
    if ts == [] then live
    else
      var n := |ts| - 1;
      var before := LiveAfter(live, ts[..n], says[..n]);
      if ts[n].packet.Some? then LiveNext(before, ts[n].packet.value, says[n].text) else before
  }

  function ImageAfter(l: Load, ts: seq<Turn>): Load {
    if ts == [] then l else LoadAfter(ImageAfter(l, ts[..|ts| - 1]), ts[|ts| - 1])
  }

  /** One turn: memory, keys and image depend on nothing but their own packets. */
  lemma TakenParts(board: Board, s: seq<Byte>, t: Turn, a: Stand, b: Stand, said: Said)
    requires Takes(board, s, t, a, b, said)
    ensures b.chip.world
         == if t.packet.Some? then WorldNext(board.target, a.chip.world, t.packet.value) else a.chip.world
    ensures b.chip.live
         == if t.packet.Some? then LiveNext(a.chip.live, t.packet.value, said.text) else a.chip.live
  {
  }

  /** In the end memory is the byte array after the memory packets, the live keys are the plain set after the trigger
      packets, and the image is that of the flash packets, however they were mixed. */
  lemma {:induction false} EndsAsModels(board: Board, s: seq<Byte>, ts: seq<Turn>, stands: seq<Stand>,
                                        says: seq<Said>)
    requires Follows(board, s, ts, stands, says)
    ensures stands[|ts|].chip.world == WorldAfter(board, stands[0].chip.world, ts)
    ensures stands[|ts|].chip.live == LiveAfter(stands[0].chip.live, ts, says)
    ensures stands[|ts|].chip.load == ImageAfter(stands[0].chip.load, ts)
  {
    if ts != [] {
      var n := |ts| - 1;
      forall k: nat | k < n
        ensures Takes(board, s, ts[..n][k], stands[..n + 1][k], stands[..n + 1][k + 1], says[..n][k])
      {
        assert Takes(board, s, ts[k], stands[k], stands[k + 1], says[k]);
      }
      EndsAsModels(board, s, ts[..n], stands[..n + 1], says[..n]);
      TakenParts(board, s, ts[n], stands[n], stands[n + 1], says[n]);
      TakenLoad(board, s, ts[n], stands[n], stands[n + 1], says[n]);
    }
  }

  // ----- A client ------------------------------------------------------------------------

  lemma TurnIs(s: seq<Byte>, i: nat, o: Outcome)
    requires i <= |s| && Parse(s, i, BUFSZ, []) == o && o.used <= |s|
    ensures NextTurn(s, i) == TurnOf(s, o)
  {
  }

  lemma FrameIsParsed(s: seq<Byte>, i: nat, xs: seq<Piece>, j: nat, x: Piece)
    requires i <= |s| && BadFrames(s, i, xs, j, BUFSZ) && Good(x, BUFSZ) && Stands(s, j, x)
    ensures j + Length(x) <= |s|
    ensures Parse(s, i, BUFSZ, []) == Packet(x.payload, j + Length(x), Minuses(|xs|) + [PLUS])
  {
    FirstGoodFrame(s, i, xs, j, x, BUFSZ, []);
    assert [] + Minuses(|xs|) == Minuses(|xs|);
  }

  /** A good frame behind spoiled ones is the next turn: a `-` for each of those, and a `+`. */
  lemma FrameIsTurn(s: seq<Byte>, i: nat, xs: seq<Piece>, j: nat, x: Piece)
    requires i <= |s| && BadFrames(s, i, xs, j, BUFSZ) && Good(x, BUFSZ) && Stands(s, j, x)
    ensures var o := Packet(x.payload, j + Length(x), Minuses(|xs|) + [PLUS]);
            o.used <= |s| && NextTurn(s, i) == TurnOf(s, o)
  {
    FrameIsParsed(s, i, xs, j, x);
    TurnIs(s, i, Packet(x.payload, j + Length(x), Minuses(|xs|) + [PLUS]));
  }

  lemma InterruptIsParsed(s: seq<Byte>, i: nat, xs: seq<Piece>, j: nat, k: nat)
    requires i <= |s| && BadFrames(s, i, xs, j, BUFSZ) && j <= k < |s| && Quiet(s[j..k]) && s[k] == INTERRUPT
    ensures Parse(s, i, BUFSZ, []) == Interrupt(k + 1, Minuses(|xs|))
  {
    FirstInterrupt(s, i, xs, j, k, BUFSZ, []);
    assert [] + Minuses(|xs|) == Minuses(|xs|);
  }

  /** So is an interrupt behind them. */
  lemma InterruptIsTurn(s: seq<Byte>, i: nat, xs: seq<Piece>, j: nat, k: nat)
    requires i <= |s| && BadFrames(s, i, xs, j, BUFSZ) && j <= k < |s| && Quiet(s[j..k]) && s[k] == INTERRUPT
    ensures NextTurn(s, i) == TurnOf(s, Interrupt(k + 1, Minuses(|xs|)))
  {
    InterruptIsParsed(s, i, xs, j, k);
    TurnIs(s, i, Interrupt(k + 1, Minuses(|xs|)));
  }

  /** A client's packet holds no `#`, so a frame can carry it. */
  lemma ClientPacketIsHashFree(op: TM.Op)
    ensures HashFree(ClientPacket(op))
  {
    var ds := Digits(op.addr);
    DigitsArePlain(op.addr);
    match op
    case WriteOp(_, data) =>
      DigitsArePlain(|data|);
      HexBytesAreHashFree(data);
      Joins([LETTER_WRITE], ds);
      Joins([LETTER_WRITE] + ds, [COMMA]);
      Joins([LETTER_WRITE] + ds + [COMMA], Digits(|data|));
      Joins([LETTER_WRITE] + ds + [COMMA] + Digits(|data|), [COLON]);
      Joins([LETTER_WRITE] + ds + [COMMA] + Digits(|data|) + [COLON], HexBytes(data));
    case ReadOp(_, len) =>
      DigitsArePlain(len);
      Joins([LETTER_READ], ds);
      Joins([LETTER_READ] + ds, [COMMA]);
      Joins([LETTER_READ] + ds + [COMMA], Digits(len));
  }

  lemma Joins(a: seq<Byte>, b: seq<Byte>)
    requires HashFree(a) && HashFree(b)
    ensures HashFree(a + b)
  {
  }

  // What each packet is for, in the letters of the protocol, and what it then does.

  lemma HeadsAre()
    ensures ERASE_HEAD == Text("vFlashErase:") && VF.WRITE_HEAD + [COLON] == Text("vFlashWrite:")
    ensures DONE_TEXT == Text("vFlashDone") && CONT_HEAD == Text("vCont;")
    ensures OKAY == Text("OK") && E01 == Text("E01")
  {
  }

  lemma LettersAre()
    ensures Text("?gGpPq") == [0x3F, 0x67, 0x47, 0x70, 0x50, 0x71] && Text("Hcs") == [0x48, 0x63, 0x73]
    ensures Text("mMZzTDkv") == [0x6D, 0x4D, 0x5A, 0x7A, 0x54, 0x44, 0x6B, 0x76]
  {
  }

  /** The first letter of a packet selects its handler. */
  lemma KindByLetter(p: seq<Byte>)
    requires p != []
    ensures KindOf(p).Reading? <==> p[0] == 'm' as int
    ensures KindOf(p).Writing? <==> p[0] == 'M' as int
    ensures KindOf(p).Trigger? <==> p[0] == 'Z' as int || p[0] == 'z' as int
    ensures KindOf(p).Alive? <==> p[0] == 'T' as int
    ensures KindOf(p).Detach? <==> p[0] == 'D' as int
    ensures KindOf(p).Kill? <==> p[0] == 'k' as int
    ensures p[0] == 'v' as int ==> KindOf(p) == VKind(p)
  {
    hide VKind;
    assert p[0] == 'v' as int ==> p[0] == 0x76;
  }

  /** Letters without a modelled handler. */
  lemma KindOfOthers(p: seq<Byte>)
    requires p != []
    ensures p[0] in Text("?gGpPq") ==> KindOf(p).Spoken?
    ensures p[0] in Text("Hcs") ==> KindOf(p).Outside?
    ensures KindOf(p).Unknown? <==> p[0] !in Text("?gGpPq") + Text("Hcs") + Text("mMZzTDkv")
  {
    hide VKind;
    LettersAre();
  }

  /** Memory and keys are as before. */
  ghost predicate FlashOnly(a: Chip, b: Chip) {
    b.world == a.world && b.live == a.live
  }

  function ErasePacket(addr: nat, len: nat): seq<Byte> {
    Text("vFlashErase:") + Digits(addr) + [',' as int] + Digits(len)
  }

  /** Its two numbers are read back. */
  lemma ErasePacketMeans(addr: nat, len: nat)
    requires addr < DOUBLES && len < DOUBLES
    ensures KindOf(ErasePacket(addr, len)).Erasing? && EraseOf(ErasePacket(addr, len)) == (addr, len)
  {
    var p, ds := ErasePacket(addr, len), Digits(addr);
    HeadsAre();
    assert p == ERASE_HEAD + ds + [COMMA] + Digits(len);
    assert p[..12] == ERASE_HEAD && p[0] == 0x76 && p[1] == 0x46;
    assert p[..6] != CONT_HEAD;
    hide Digits, Find, Strtoull;
    NumberField(p, ERASE_HEAD, addr, COMMA, Digits(len));
    NumberAtEnd(p, ERASE_HEAD + ds + [COMMA], len);
  }

  /** Without a comma the length is 0. */
  lemma EraseWithoutLength(p: seq<Byte>)
    requires |p| >= 12 && ',' as int !in p[12..]
    ensures EraseOf(p).1 == 0
  {
    FindNothing(p, COMMA, 12);
  }

  lemma NoneCarried(a: Chip, b: Chip, all: seq<FL.Command>, allowed: bool, ready: bool, said: Said)
    requires Carried(a, b, all, allowed, ready, said)
    ensures said.done == 0 ==> b == a
    ensures said.text == OKAY ==> b.cells == FL.ExecuteAll(a.cells, all)
  {
    assert all[..0] == [] && all[..|all|] == all && a.log + [] == a.log;
  }

  /** An erase packet: an answer OK to a range in PFLASH means that exactly the sectors that meet it are erased; it is
      given on a device that answers, and a range that leaves PFLASH without wrapping 2^64 is refused. */
  lemma ClientErases(board: Board, addr: nat, len: nat, a: Chip, b: Chip, said: Said)
    requires addr < DOUBLES && len < DOUBLES
    requires Answers(board, ErasePacket(addr, len), a, b, said)
    ensures (said.text == OKAY || said.text == E01) && FlashOnly(a, b) && b.load == a.load
    ensures !FL.Inside(addr, len) && addr + len < DOUBLES ==> said.text == E01 && b == a
    ensures FL.Inside(addr, len) && board.device.Ready() ==> said.text == OKAY
    ensures said.text == OKAY && FL.Inside(addr, len) && len > 0 ==>
              forall x: int :: b.cells(x) == if FL.Meets(x, addr, len) then FL.Erased else a.cells(x)
  {
    ErasePacketMeans(addr, len);
    FL.RangeOkIsInside(addr, len);
    NoneCarried(a, b, FL.EraseList(addr, len), FL.RangeOk(addr, len), board.device.Ready(), said);
    if said.text == OKAY && FL.Inside(addr, len) && len > 0 {
      forall x: int
        ensures b.cells(x) == if FL.Meets(x, addr, len) then FL.Erased else a.cells(x)
      {
        FL.EraseIsExact(a.cells, addr, len, x);
      }
    }
  }

  lemma LoadPacketKind(c: VF.Chunk, more: Byte -> bool)
    ensures KindOf(VF.WritePacket(c, more)).Loading?
  {
    var p, head := VF.WritePacket(c, more), VF.WRITE_HEAD + [COLON];
    assert p == head + (Digits(c.addr) + [COLON] + Escape(c.data, more));
    assert p[..12] == head && p[0] == 0x76 && p[1] == 0x46 && p[6] == 0x57;
    assert p[..6] != CONT_HEAD && p[..12] != ERASE_HEAD;
  }

  /** A load packet: the first one starts an image, a later one is laid over it, or refused below its base. */
  lemma ClientLoads(board: Board, c: VF.Chunk, more: Byte -> bool, a: Chip, b: Chip, said: Said)
    requires c.addr < DOUBLES && Answers(board, VF.WritePacket(c, more), a, b, said)
    ensures FlashOnly(a, b) && b.cells == a.cells && b.log == a.log
    ensures a.load.NoLoad? ==> said.text == OKAY && b.load == Load(c.addr, c.data)
    ensures a.load.Load? && c.addr >= a.load.base ==>
              said.text == OKAY
              && b.load == Load(a.load.base, VF.Overlay(a.load.image, c.addr - a.load.base, c.data))
    ensures a.load.Load? && c.addr < a.load.base ==> said.text == E01 && b.load == a.load
  {
    hide KindOf, VF.WritePacket, VF.HasFields, VF.Fields, VF.Overlay, Unescape;
    LoadPacketKind(c, more);
    VF.WritePacketFields(c, more);
    VF.OverlayOnNothing(c.data);
  }

  lemma DonePacketKind()
    ensures KindOf(Text("vFlashDone")).Finishing?
  {
    var p := DONE_TEXT;
    HeadsAre();
    assert p[0] == 0x76 && p[1] == 0x46 && p[..10] == p;
    assert p[..6] != CONT_HEAD;
  }

  /** The packet that ends a load: an answer OK means that the image, filled up with 0xFF to whole pages, has been
      programmed where it belongs, and nothing else. */
  lemma ClientFinishes(board: Board, a: Chip, b: Chip, said: Said)
    requires Answers(board, Text("vFlashDone"), a, b, said)
    ensures FlashOnly(a, b) && b.load == NoLoad
    ensures a.load.NoLoad? ==> said.text == OKAY && b == a
    ensures a.load.Load? && FL.Inside(a.load.base, |a.load.image|) && a.load.base < DOUBLES ==>
              var (base, image) := (a.load.base, a.load.image);
              && (base % 32 != 0 ==> said.text == E01 && b.cells == a.cells)
              && (base % 32 == 0 && board.device.Ready() ==> said.text == OKAY)
              && (said.text == OKAY ==> forall x: int :: b.cells(x) == FinishedCell(a.cells, base, image, x))
  {
    DonePacketKind();
    if a.load.Load? && FL.Inside(a.load.base, |a.load.image|) && a.load.base < DOUBLES {
      var (base, image) := (a.load.base, a.load.image);
      assert VF.Cut(image) == image;
      FL.RangeOkIsInside(base, |image|);
      NoneCarried(a.(load := NoLoad), b, FL.Programs(base, image, 0), VF.Programmable(base, |image|),
                  board.device.Ready(), said);
      if said.text == OKAY {
        forall x: int
          ensures b.cells(x) == FinishedCell(a.cells, base, image, x)
        {
          FL.ProgramIsExact(a.cells, base, image, x);
        }
      }
    }
  }

  function FinishedCell(cells: FL.Cells, base: nat, image: seq<Byte>, x: int): FL.Cell {
    if base <= x < base + FL.PageUp(|image|)
    then FL.Programmed(cells(x), if x - base < |image| then image[x - base] else 0xFF)
    else cells(x)
  }

  /** A trigger packet: an insertion makes its key live if it is answered OK, and only then; a removal ends it. */
  lemma ClientTriggers(board: Board, key: TR.Key, len: nat, a: Chip, b: Chip, said: Said)
    requires TR.Supported(key.gtype) && key.addr < DOUBLES && len < DOUBLES
    ensures Answers(board, TR.ClientPacket('Z' as int, key, len), a, b, said) ==>
              && (said.text == OKAY || said.text == E01)
              && b == a.(live := if said.text == OKAY then a.live + {key} else a.live)
              && (board.stub.Reliable() ==> (said.text == OKAY <==> key in a.live || |a.live| < 16))
    ensures Answers(board, TR.ClientPacket('z' as int, key, len), a, b, said) ==>
              said.text == OKAY && b == a.(live := a.live - {key})
  {
    var (p, q) := (TR.ClientPacket('Z' as int, key, len), TR.ClientPacket('z' as int, key, len));
    assert p[0] == 'Z' as int && q[0] == 'z' as int;
    KindByLetter(p);
    KindByLetter(q);
    TR.ClientPacketFields('Z' as int, key, len);
    TR.ClientPacketFields('z' as int, key, len);
    hide KindOf, TR.KeyOf, TR.ClientPacket;
  }

  /** A trigger packet of an unsupported kind gets an empty answer, one of a supported kind without an address an
      error; a load packet with one colon only and a memory write without its separators get an error too. */
  lemma ClientIsRefused(board: Board, p: seq<Byte>, a: Chip, b: Chip, said: Said)
    requires |p| >= 2 && Answers(board, p, a, b, said)
    ensures p[0] in {'Z' as int, 'z' as int} && !('0' as int <= p[1] <= '4' as int) ==> b == a && said.text == []
    ensures p[0] in {'Z' as int, 'z' as int} && '0' as int <= p[1] <= '4' as int && ',' as int !in p ==>
              b == a && said.text == Text("E01")
    ensures p[0] == 'M' as int && (',' as int !in p || ':' as int !in p) ==> b == a && said.text == Text("E01")
    ensures |p| >= 12 && p[..12] == Text("vFlashWrite:") && ':' as int !in p[12..] ==>
              b == a && said.text == Text("E01")
  {
    hide VKind, TR.KeyOf, TR.ReplyTo, VF.HasFields;
    HeadsAre();
    KindByLetter(p);
    TR.OthersAreRefused(p);
    SeparatorsAreNeeded(p);
    if |p| >= 12 && p[..12] == Text("vFlashWrite:") && ':' as int !in p[12..] {
      LoadWithoutPayload(p);
    }
  }

  lemma LoadWithoutPayload(p: seq<Byte>)
    requires |p| >= 12 && p[..12] == VF.WRITE_HEAD + [COLON] && COLON !in p[12..]
    ensures p[0] == 'v' as int && KindOf(p).Loading? && !VF.HasFields(p)
  {
    var h := p[..12];
    assert h[0] == 0x76 && h[1] == 0x46 && h[6] == 0x57 && h[11] == COLON;
    assert forall k :: 0 <= k < 12 ==> p[k] == h[k];
    assert p[..6] != CONT_HEAD && p[..12] != ERASE_HEAD;
    FindIff(p, COLON, 0, 11);
    FindNothing(p, COLON, 12);
  }

  /** The packets that ask for nothing, or for something unknown. */
  lemma ClientIsTold(board: Board, p: seq<Byte>, a: Chip, b: Chip, said: Said)
    requires Answers(board, p, a, b, said)
    ensures p != [] && (p[0] == 'T' as int || p[0] == 'D' as int) ==> b == a && said.text == Text("OK")
    ensures p == [] || KindOf(p).Unknown? ==> b == a && said.text == []
  {
    HeadsAre();
  }

  /** The packets that start with `v`: each head, and the one that is a whole text. */
  lemma KindByHead(p: seq<Byte>)
    requires p != [] && p[0] == 'v' as int
    ensures KindOf(p).Erasing? <==> |p| >= 12 && p[..12] == Text("vFlashErase:")
    ensures KindOf(p).Loading? <==> |p| >= 12 && p[..12] == Text("vFlashWrite:")
    ensures KindOf(p).Finishing? <==> |p| >= 10 && p[..10] == Text("vFlashDone") && (|p| > 10 ==> p[10] == 0)
    ensures KindOf(p).Outside? <==> |p| >= 6 && p[..6] == Text("vCont;")
  {
    HeadsAre();
    KindByLetter(p);
    HeadsDiffer(p);
  }

  lemma HeadsDiffer(p: seq<Byte>)
    ensures StartsWith(p, CONT_HEAD) ==> |p| >= 6 && p[1] == 0x43
    ensures StartsWith(p, ERASE_HEAD) ==> |p| >= 12 && p[1] == 0x46 && p[6] == 0x45
    ensures StartsWith(p, VF.WRITE_HEAD + [COLON]) ==> |p| >= 12 && p[1] == 0x46 && p[6] == 0x57
    ensures StartsWith(p, DONE_TEXT) ==> |p| >= 10 && p[1] == 0x46 && p[6] == 0x44
  {
    if StartsWith(p, CONT_HEAD) {
      assert p[1] == p[..6][1];
    }
    if StartsWith(p, ERASE_HEAD) {
      assert p[1] == p[..12][1] && p[6] == p[..12][6];
    }
    if StartsWith(p, VF.WRITE_HEAD + [COLON]) {
      assert p[1] == p[..12][1] && p[6] == p[..12][6];
    }
    if StartsWith(p, DONE_TEXT) {
      assert p[1] == p[..10][1] && p[6] == p[..10][6];
    }
  }

  /** A client's memory packet is answered as the operation it stands for. */
  lemma ClientIsAnswered(board: Board, op: TM.Op, a: Chip, b: Chip, said: Said)
    requires TM.InRange(op) && Answers(board, ClientPacket(op), a, b, said)
    ensures (b.world, said.text) == Told(board.target, a.world, op) && b == a.(world := b.world)
  {
    match op
    case WriteOp(addr, data) => WritePacketMeans(addr, data);
    case ReadOp(addr, len) => ReadPacketMeans(addr, len);
  }

  /** A payload that a frame can carry. */
  predicate Sendable(p: seq<Byte>) {
    HashFree(p) && |p| < BUFSZ
  }

  /** A payload with its check characters as a frame, and the reply taken at once. */
  function Taken(p: seq<Byte>, c1: Byte, c2: Byte): (w: seq<Byte>)
    ensures |w| == |p| + 5 && w[0] == DOLLAR && w[1..|p| + 1] == p && w[|p| + 1] == HASH
    ensures w[|p| + 2] == c1 && w[|p| + 3] == c2 && w[|p| + 4] == PLUS
  {
    [DOLLAR] + p + [HASH, c1, c2, PLUS]
  }

  lemma SliceOf(s: seq<Byte>, i: nat, f: seq<Byte>, a: nat, b: nat)
    requires i + |f| <= |s| && s[i..i + |f|] == f && a <= b <= |f|
    ensures s[i + a..i + b] == f[a..b] && (a < |f| ==> s[i + a] == f[a])
  {
    var g := s[i..i + |f|];
    forall k | 0 <= k < |f|
      ensures s[i + k] == f[k]
    {
      assert g[k] == s[i + k];
    }
    assert |s[i + a..i + b]| == |f[a..b]|;
  }

  /** A frame that is taken at once stands where it was sent. */
  lemma TakenStands(s: seq<Byte>, i: nat, x: Piece, w: seq<Byte>)
    requires x.noise == [] && w == Taken(x.payload, x.c1, x.c2) && i + |w| <= |s| && s[i..i + |w|] == w
    ensures Stands(s, i, x) && Naks(s, i + Length(x)) == 0
  {
    hide Taken;
    var n := |x.payload|;
    SliceOf(s, i, w, 0, 0);
    SliceOf(s, i, w, 1, n + 1);
    SliceOf(s, i, w, n + 1, n + 1);
    SliceOf(s, i, w, n + 2, n + 2);
    SliceOf(s, i, w, n + 3, n + 3);
    SliceOf(s, i, w, n + 4, n + 4);
  }

  /** The frame of a payload. */
  function FrameOf(p: seq<Byte>): (x: Piece)
    ensures x.noise == [] && x.payload == p
  {
    Piece([], p, HexDigit(Sum(p) / 16), HexDigit(Sum(p) % 16))
  }

  function Wire(p: seq<Byte>): (w: seq<Byte>)
    ensures w == Frame(p) + [PLUS]
  {
    var x := FrameOf(p);
    assert Taken(x.payload, x.c1, x.c2) == Frame(x.payload) + [PLUS];
    Taken(x.payload, x.c1, x.c2)
  }

  function CleanTurn(start: nat, p: seq<Byte>): Turn {
    Turn(Some(p), [PLUS], start + |p| + 4, start + |p| + 5)
  }

  /** Such a payload stands there with nothing before it and no rejection behind it. */
  lemma CleanStands(s: seq<Byte>, start: nat, p: seq<Byte>)
    requires Sendable(p) && start + |Wire(p)| <= |s| && s[start..start + |Wire(p)|] == Wire(p)
    ensures Good(FrameOf(p), BUFSZ) && Stands(s, start, FrameOf(p)) && Length(FrameOf(p)) == |p| + 4
    ensures start + |p| + 5 <= |s| && After(s, start + |p| + 4) == start + |p| + 5 && Naks(s, start + |p| + 4) == 0
  {
    FrameChecks(p);
    TakenStands(s, start, FrameOf(p), Wire(p));
  }

  /** Without spoiled frames before it the packet layer replies with a `+`. */
  lemma FirstIsTurn(s: seq<Byte>, start: nat, x: Piece)
    requires start <= |s| && Good(x, BUFSZ) && Stands(s, start, x)
    ensures start + Length(x) <= |s|
    ensures NextTurn(s, start) == TurnOf(s, Packet(x.payload, start + Length(x), [PLUS]))
  {
    FrameIsTurn(s, start, [], start, x);
    assert Minuses(0) + [PLUS] == [PLUS];
  }

  /** A payload sent over a clean line and taken at once is the next turn, wherever it stands. */
  lemma CleanTurnAt(s: seq<Byte>, start: nat, p: seq<Byte>)
    requires Sendable(p) && start + |Wire(p)| <= |s| && s[start..start + |Wire(p)|] == Wire(p)
    ensures NextTurn(s, start) == Some(CleanTurn(start, p))
  {
    hide Wire, NextTurn, Stands, Good;
    CleanStands(s, start, p);
    FirstIsTurn(s, start, FrameOf(p));
  }

  /** In it the server sends a `+` and one frame with the answer, unless the client kills. */
  lemma CleanTurnSends(s: seq<Byte>, start: nat, p: seq<Byte>, text: seq<Byte>)
    requires Sendable(p) && start + |Wire(p)| <= |s| && s[start..start + |Wire(p)|] == Wire(p)
    ensures CleanTurn(start, p).ack <= |s|
    ensures TurnSent(s, CleanTurn(start, p), text)
         == if p != [] && p[0] == 'k' as int then ['+' as int] else ['+' as int] + Frame(text)
  {
    hide Wire, Frame, VKind;
    CleanStands(s, start, p);
    assert Repeat(Frame(text), 1) == Repeat(Frame(text), 0) + Frame(text) == Frame(text);
  }

  /** The loop ends with a packet that detaches or kills, and with no other. */
  lemma LeavesIff(t: Turn)
    ensures Leaves(t) <==> t.packet.Some? && CharAt(t.packet.value, 0) in {'D' as int, 'k' as int}
  {
    hide VKind;
  }

  /** Detaching is answered OK before the loop ends, and killing is not answered at all. */
  lemma LastTurnSends(board: Board, s: seq<Byte>, t: Turn, a: Stand, b: Stand, said: Said)
    requires Leaves(t) && Takes(board, s, t, a, b, said)
    ensures b.chip == a.chip
    ensures CharAt(t.packet.value, 0) == 'D' as int ==>
              b.sent == a.sent + (t.received + Repeat(Frame(Text("OK")), Naks(s, t.ack) + 1))
    ensures CharAt(t.packet.value, 0) == 'k' as int ==> b.sent == a.sent + t.received
  {
    hide VKind, Frame;
    HeadsAre();
  }

  /** Alone it is all of a stream. */
  lemma OneRequestPlays(p: seq<Byte>)
    requires Sendable(p)
    ensures Turns(Wire(p), 0) == [CleanTurn(0, p)]
  {
    var w := Wire(p);
    assert w[0..|w|] == w;
    CleanTurnAt(w, 0, p);
    assert NextItem(w, |w|, BUFSZ).Ended?;
    assert Turns(w, |w|) == [];
  }
}
