/**
 * `rsp_put_packet` on one side and `rsp_get_packet` on the other, as two processes
 * that exchange bytes over two queues.  The channel spoils the check characters of
 * finitely many frames; acknowledgements arrive intact.
 */
module RspChannel {
  import opened Words
  import opened Rsp

  // ----- The receiver, one byte at a time -------------------------------------------

  datatype Rx =
    | Hunting
    | InPayload(p: seq<Byte>)
    | InCheck(p: seq<Byte>)
    | InCheck2(p: seq<Byte>, c1: Byte)
    | Got(p: seq<Byte>)
    | Stopped

  predicate Reading(rx: Rx) {
    !rx.Got? && !rx.Stopped?
  }

  function RxStep(rx: Rx, c: Byte, bufsz: nat): Rx
    requires Reading(rx)
  {
    match rx
    case Hunting => if c == INTERRUPT then Stopped else if c == DOLLAR then InPayload([]) else Hunting
    case InPayload(p) => if c == HASH then InCheck(p) else InPayload(p + [c])
    case InCheck(p) => InCheck2(p, c)
    case InCheck2(p, c1) => if Accepts(p, c1, c, bufsz) then Got(p) else Hunting
  }

  function RxReply(rx: Rx, c: Byte, bufsz: nat): seq<Byte>
    requires Reading(rx)
  {
    match rx
    case InCheck2(p, c1) => if Accepts(p, c1, c, bufsz) then [PLUS] else [MINUS]
    case _ => []
  }

  /** Feeding the receiver byte by byte from position `i` on. */
  function Feed(rx: Rx, s: seq<Byte>, i: nat, bufsz: nat, replies: seq<Byte>): Outcome
    requires i <= |s|
    decreases |s| - i
  {
    match rx
    case Got(p) => Packet(p, i, replies)
    case Stopped => Interrupt(i, replies)
    case _ =>
      if i == |s| then Closed(i, replies)
      else Feed(RxStep(rx, s[i], bufsz), s, i + 1, bufsz, replies + RxReply(rx, s[i], bufsz))
  }

  lemma {:induction false} FeedHunts(s: seq<Byte>, i: nat, bufsz: nat, replies: seq<Byte>)
    requires i <= |s|
    ensures var start := FindStart(s, i);
            Feed(Hunting, s, i, bufsz, replies)
            == (if start == |s| then Closed(|s|, replies)
                else Feed(if s[start] == INTERRUPT then Stopped else InPayload([]), s, start + 1, bufsz, replies))
    decreases |s| - i
  {
    assert replies + [] == replies;
    if i < |s| && s[i] != DOLLAR && s[i] != INTERRUPT {
      FeedHunts(s, i + 1, bufsz, replies);
    }
  }

  lemma {:induction false} FeedCollects(s: seq<Byte>, a: nat, i: nat, bufsz: nat, replies: seq<Byte>)
    requires a <= i <= |s|
    ensures var hash := FindHash(s, i);
            Feed(InPayload(s[a..i]), s, i, bufsz, replies)
            == (if hash == |s| then Closed(|s|, replies) else Feed(InCheck(s[a..hash]), s, hash + 1, bufsz, replies))
    decreases |s| - i
  {
    assert replies + [] == replies;
    if i < |s| && s[i] != HASH {
      assert s[a..i] + [s[i]] == s[a..i + 1];
      FeedCollects(s, a, i + 1, bufsz, replies);
    }
  }

  lemma FeedChecks(p: seq<Byte>, s: seq<Byte>, i: nat, bufsz: nat, replies: seq<Byte>)
    requires i <= |s|
    ensures Feed(InCheck(p), s, i, bufsz, replies)
            == (if i + 2 > |s| then Closed(|s|, replies)
                else if Accepts(p, s[i], s[i + 1], bufsz) then Packet(p, i + 2, replies + [PLUS])
                else Feed(Hunting, s, i + 2, bufsz, replies + [MINUS]))
  {
    assert replies + [] == replies;
    if i < |s| {
      assert Feed(InCheck(p), s, i, bufsz, replies) == Feed(InCheck2(p, s[i]), s, i + 1, bufsz, replies);
      if i + 1 < |s| {
        var rx := InCheck2(p, s[i]);
        assert Feed(rx, s, i + 1, bufsz, replies)
            == Feed(RxStep(rx, s[i + 1], bufsz), s, i + 2, bufsz, replies + RxReply(rx, s[i + 1], bufsz));
      }
    }
  }

  /** From the `$` at `start` on, up to the end of the frame. */
  lemma FeedFrame(s: seq<Byte>, start: nat, bufsz: nat, replies: seq<Byte>)
    requires start < |s|
    ensures var hash := FindHash(s, start + 1);
            Feed(InPayload([]), s, start + 1, bufsz, replies)
            == (if hash + 3 > |s| then Closed(|s|, replies)
                else if Accepts(s[start + 1..hash], s[hash + 1], s[hash + 2], bufsz)
                then Packet(s[start + 1..hash], hash + 3, replies + [PLUS])
                else Feed(Hunting, s, hash + 3, bufsz, replies + [MINUS]))
  {
    var hash := FindHash(s, start + 1);
    assert s[start + 1..start + 1] == [];
    FeedCollects(s, start + 1, start + 1, bufsz, replies);
    if hash < |s| {
      FeedChecks(s[start + 1..hash], s, hash + 1, bufsz, replies);
    }
  }

  /** The byte-at-a-time receiver takes one item as the parser does. */
  lemma FeedItem(s: seq<Byte>, i: nat, bufsz: nat, replies: seq<Byte>)
    requires i <= |s|
    ensures var item := NextItem(s, i, bufsz);
            Feed(Hunting, s, i, bufsz, replies)
            == (if item.Ended? then Closed(|s|, replies)
                else if item.Broken? then Interrupt(item.next, replies)
                else if item.Accepted? then Packet(item.payload, item.next, replies + [PLUS])
                else Feed(Hunting, s, item.next, bufsz, replies + [MINUS]))
  {
    FeedHunts(s, i, bufsz, replies);
    var start := FindStart(s, i);
    if start < |s| && s[start] != INTERRUPT {
      FeedFrame(s, start, bufsz, replies);
    }
  }

  /** It is `rsp_get_packet`, on every stream. */
  lemma {:induction false} FeedIsParse(s: seq<Byte>, i: nat, bufsz: nat, replies: seq<Byte>)
    requires i <= |s|
    ensures Feed(Hunting, s, i, bufsz, replies) == Parse(s, i, bufsz, replies)
    decreases |s| - i
  {
    FeedItem(s, i, bufsz, replies);
    var item := NextItem(s, i, bufsz);
    if item.Rejected? {
      FeedIsParse(s, item.next, bufsz, replies + [MINUS]);
    }
  }

  // ----- The two processes -------------------------------------------------------------

  /** The sender has pushed `k` bytes of its frame, or waits for the acknowledgement, or has returned 0. */
  datatype Tx = Pushing(k: nat) | Awaiting | Sent

  /** `spoils` are the check characters the channel puts into the next frames; after them frames pass intact. */
  datatype System = System(
    tx: Tx, rx: Rx, forth: seq<Byte>, back: seq<Byte>,
    spoils: seq<(Byte, Byte)>, delivered: seq<seq<Byte>>)

  function Init(spoils: seq<(Byte, Byte)>): System {
    System(Pushing(0), Hunting, [], [], spoils, [])
  }

  /** What the current frame looks like on the wire. */
  function Wire(p: seq<Byte>, spoils: seq<(Byte, Byte)>): (w: seq<Byte>)
    ensures |w| == |p| + 4
  {
    if spoils == [] then Frame(p) else [DOLLAR] + p + [HASH, spoils[0].0, spoils[0].1]
  }

  predicate Push(p: seq<Byte>, s: System, s': System) {
    && s.tx.Pushing? && s.tx.k < |p| + 4
    && s' == s.(forth := s.forth + [Wire(p, s.spoils)[s.tx.k]],
                tx := if s.tx.k + 1 == |p| + 4 then Awaiting else Pushing(s.tx.k + 1))
  }

  predicate Pull(bufsz: nat, s: System, s': System) {
    && Reading(s.rx) && s.forth != []
    && var c := s.forth[0];
       var rx := RxStep(s.rx, c, bufsz);
       s' == s.(forth := s.forth[1..], rx := rx, back := s.back + RxReply(s.rx, c, bufsz),
                delivered := if rx.Got? then s.delivered + [rx.p] else s.delivered)
  }

  predicate Acknowledge(s: System, s': System) {
    && s.tx.Awaiting? && s.back != []
    && s' == (if s.back[0] == MINUS
              then s.(back := s.back[1..], tx := Pushing(0), spoils := if s.spoils == [] then [] else s.spoils[1..])
              else s.(back := s.back[1..], tx := Sent))
  }

  predicate Next(p: seq<Byte>, bufsz: nat, s: System, s': System) {
    Push(p, s, s') || Pull(bufsz, s, s') || Acknowledge(s, s')
  }

  predicate IsRun(p: seq<Byte>, bufsz: nat, spoils: seq<(Byte, Byte)>, run: seq<System>) {
    && |run| > 0 && run[0] == Init(spoils)
    && forall i :: 0 <= i < |run| - 1 ==> Next(p, bufsz, run[i], run[i + 1])
  }

  /** The payload is free of `#` and fits, and every spoiled frame fails its check. */
  predicate Sound(p: seq<Byte>, bufsz: nat, spoils: seq<(Byte, Byte)>) {
    && HashFree(p) && |p| < bufsz
    && forall i :: 0 <= i < |spoils| ==> !Checks(p, spoils[i].0, spoils[i].1)
  }

  // ----- The invariant ------------------------------------------------------------------

  /** The receiver after the first `m` bytes of the frame. */
  function After(p: seq<Byte>, w: seq<Byte>, m: nat): Rx
    requires |w| == |p| + 4 && m < |w|
  {
    if m == 0 then Hunting
    else if m <= |p| + 1 then InPayload(p[..m - 1])
    else if m == |p| + 2 then InCheck(p)
    else InCheck2(p, w[|p| + 2])
  }

  function Pushed(p: seq<Byte>, tx: Tx): nat {
    match tx case Pushing(k) => k case _ => |p| + 4
  }

  /** In the middle of a frame: what is pushed and not yet pulled is in the queue. */
  predicate MidFrame(p: seq<Byte>, s: System) {
    var w, k := Wire(p, s.spoils), Pushed(p, s.tx);
    && !s.tx.Sent? && (s.tx.Pushing? ==> k < |w|) && |s.forth| <= k
    && k - |s.forth| < |w| && s.rx == After(p, w, k - |s.forth|) && s.forth == w[k - |s.forth|..k]
    && s.back == [] && s.delivered == []
  }

  predicate Refused(s: System) {
    s.tx.Awaiting? && s.forth == [] && s.back == [MINUS] && s.rx.Hunting? && s.spoils != [] && s.delivered == []
  }

  predicate Returned(p: seq<Byte>, s: System) {
    && s.forth == [] && s.rx == Got(p) && s.spoils == [] && s.delivered == [p]
    && ((s.tx.Awaiting? && s.back == [PLUS]) || (s.tx.Sent? && s.back == []))
  }

  predicate Inv(p: seq<Byte>, bufsz: nat, s: System) {
    Sound(p, bufsz, s.spoils) && (MidFrame(p, s) || Refused(s) || Returned(p, s))
  }

  /** Steps left, at most. */
  function Work(p: seq<Byte>, s: System): nat {
    var l := |p| + 4;
    (2 * l + 3) * |s.spoils|
    + (match s.tx
       case Sent => 0
       case Awaiting => if s.back != [] then 1 else if |s.forth| <= l then 2 + |s.forth| else 0
       case Pushing(k) => if k <= l && |s.forth| <= k then 2 + 2 * (l - k) + |s.forth| else 0)
  }

  lemma PushKeeps(p: seq<Byte>, bufsz: nat, s: System, s': System)
    requires Inv(p, bufsz, s) && Push(p, s, s')
    ensures Inv(p, bufsz, s') && Work(p, s') < Work(p, s)
  {
    var w, k := Wire(p, s.spoils), s.tx.k;
    assert s'.forth == w[k - |s.forth|..k + 1];
  }

  lemma FramedAt(p: seq<Byte>, c1: Byte, c2: Byte, m: nat)
    requires m < |p| + 4
    ensures ([DOLLAR] + p + [HASH, c1, c2])[m]
         == if m == 0 then DOLLAR else if m <= |p| then p[m - 1]
            else if m == |p| + 1 then HASH else if m == |p| + 2 then c1 else c2
  {
  }

  lemma WireAt(p: seq<Byte>, spoils: seq<(Byte, Byte)>, m: nat)
    requires m < |p| + 4
    ensures var w := Wire(p, spoils);
            && (m == 0 ==> w[m] == DOLLAR)
            && (0 < m <= |p| ==> w[m] == p[m - 1])
            && (m == |p| + 1 ==> w[m] == HASH)
            && (spoils != [] && m == |p| + 2 ==> w[m] == spoils[0].0)
            && (spoils != [] && m == |p| + 3 ==> w[m] == spoils[0].1)
            && (spoils == [] && m == |p| + 2 ==> w[m] == HexDigit(Sum(p) / 16))
            && (spoils == [] && m == |p| + 3 ==> w[m] == HexDigit(Sum(p) % 16))
  {
    if spoils == [] {
      FramedAt(p, HexDigit(Sum(p) / 16), HexDigit(Sum(p) % 16), m);
    } else {
      FramedAt(p, spoils[0].0, spoils[0].1, m);
    }
  }

  /** What the receiver makes of byte `m` of the frame, before the last. */
  lemma ReceivesInner(p: seq<Byte>, bufsz: nat, spoils: seq<(Byte, Byte)>, m: nat)
    requires HashFree(p) && m < |p| + 3
    ensures var w := Wire(p, spoils);
            var rx := After(p, w, m);
            Reading(rx) && RxStep(rx, w[m], bufsz) == After(p, w, m + 1) && RxReply(rx, w[m], bufsz) == []
  {
    WireAt(p, spoils, m);
    if 0 < m <= |p| {
      assert p[..m - 1] + [p[m - 1]] == p[..m];
    } else if m == |p| + 1 {
      assert p[..m - 1] == p;
    }
  }

  /** The last byte completes the check. */
  lemma ReceivesLast(p: seq<Byte>, bufsz: nat, spoils: seq<(Byte, Byte)>)
    requires Sound(p, bufsz, spoils)
    ensures var w := Wire(p, spoils);
            var rx := After(p, w, |p| + 3);
            && Reading(rx)
            && RxStep(rx, w[|p| + 3], bufsz) == (if spoils == [] then Got(p) else Hunting)
            && RxReply(rx, w[|p| + 3], bufsz) == (if spoils == [] then [PLUS] else [MINUS])
  {
    WireAt(p, spoils, |p| + 2);
    WireAt(p, spoils, |p| + 3);
    FrameChecks(p);
    assert spoils != [] ==> !Checks(p, spoils[0].0, spoils[0].1);
  }

  /** The byte at the head of the queue is the next of the frame. */
  lemma HeadOf(w: seq<Byte>, m: nat, k: nat)
    requires m < k <= |w|
    ensures w[m..k][0] == w[m] && w[m..k][1..] == w[m + 1..k]
  {
  }

  lemma PullsInner(p: seq<Byte>, bufsz: nat, s: System, s': System)
    requires Sound(p, bufsz, s.spoils) && MidFrame(p, s) && Pull(bufsz, s, s')
    requires Pushed(p, s.tx) - |s.forth| < |p| + 3
    ensures MidFrame(p, s')
  {
    var w, k := Wire(p, s.spoils), Pushed(p, s.tx);
    HeadOf(w, k - |s.forth|, k);
    ReceivesInner(p, bufsz, s.spoils, k - |s.forth|);
  }

  lemma PullsLast(p: seq<Byte>, bufsz: nat, s: System, s': System)
    requires Sound(p, bufsz, s.spoils) && MidFrame(p, s) && Pull(bufsz, s, s')
    requires Pushed(p, s.tx) - |s.forth| == |p| + 3
    ensures if s.spoils == [] then Returned(p, s') else Refused(s')
  {
    var w, k := Wire(p, s.spoils), Pushed(p, s.tx);
    HeadOf(w, k - |s.forth|, k);
    ReceivesLast(p, bufsz, s.spoils);
  }

  lemma PullKeeps(p: seq<Byte>, bufsz: nat, s: System, s': System)
    requires Inv(p, bufsz, s) && Pull(bufsz, s, s')
    ensures Inv(p, bufsz, s') && Work(p, s') < Work(p, s)
  {
    assert MidFrame(p, s);
    if Pushed(p, s.tx) - |s.forth| < |p| + 3 {
      PullsInner(p, bufsz, s, s');
    } else {
      PullsLast(p, bufsz, s, s');
    }
  }

  /** Nothing of the next frame has been pushed. */
  lemma FreshFrame(p: seq<Byte>, s: System)
    requires s.tx == Pushing(0) && s.rx == Hunting && s.forth == s.back == [] && s.delivered == []
    ensures MidFrame(p, s)
  {
  }

  lemma OneLess(l: nat, n: nat)
    requires n > 0
    ensures l * n == l * (n - 1) + l
  {
  }

  /** A refused frame is sent again, with one spoiled frame less to come. */
  lemma RefusedKeeps(p: seq<Byte>, bufsz: nat, s: System, s': System)
    requires Sound(p, bufsz, s.spoils) && Refused(s) && Acknowledge(s, s')
    ensures Inv(p, bufsz, s') && Work(p, s') < Work(p, s)
  {
    forall i | 0 <= i < |s'.spoils|
      ensures !Checks(p, s'.spoils[i].0, s'.spoils[i].1)
    {
      assert s'.spoils[i] == s.spoils[i + 1];
    }
    FreshFrame(p, s');
    OneLess(2 * (|p| + 4) + 3, |s.spoils|);
  }

  lemma AcknowledgeKeeps(p: seq<Byte>, bufsz: nat, s: System, s': System)
    requires Inv(p, bufsz, s) && Acknowledge(s, s')
    ensures Inv(p, bufsz, s') && Work(p, s') < Work(p, s)
  {
    if Refused(s) {
      RefusedKeeps(p, bufsz, s, s');
    } else {
      assert !MidFrame(p, s);
      assert Returned(p, s');
    }
  }

  lemma {:induction false} RunKeeps(p: seq<Byte>, bufsz: nat, spoils: seq<(Byte, Byte)>, run: seq<System>, i: nat)
    requires Sound(p, bufsz, spoils) && IsRun(p, bufsz, spoils, run) && i < |run|
    ensures Inv(p, bufsz, run[i]) && Work(p, run[i]) + i <= Work(p, Init(spoils))
  {
    if i > 0 {
      RunKeeps(p, bufsz, spoils, run, i - 1);
      var s, s' := run[i - 1], run[i - 1 + 1];
      assert Next(p, bufsz, s, s');
      if Push(p, s, s') {
        PushKeeps(p, bufsz, s, s');
      } else if Pull(bufsz, s, s') {
        PullKeeps(p, bufsz, s, s');
      } else {
        AcknowledgeKeeps(p, bufsz, s, s');
      }
    }
  }

  // ----- Delivery ------------------------------------------------------------------------

  /** Both calls have returned: 0 from the sender, the payload from the receiver. */
  predicate Finished(p: seq<Byte>, s: System) {
    s.tx.Sent? && s.rx == Got(p)
  }

  ghost predicate Stuck(p: seq<Byte>, bufsz: nat, s: System) {
    forall s' :: !Next(p, bufsz, s, s')
  }

  /** The payload is never delivered twice or changed, in any state of any run. */
  lemma NeverTwice(p: seq<Byte>, bufsz: nat, spoils: seq<(Byte, Byte)>, run: seq<System>, i: nat)
    requires Sound(p, bufsz, spoils) && IsRun(p, bufsz, spoils, run) && i < |run|
    ensures run[i].delivered == [] || run[i].delivered == [p]
    ensures run[i].tx.Sent? ==> Finished(p, run[i]) && run[i].delivered == [p]
  {
    RunKeeps(p, bufsz, spoils, run, i);
  }

  /** A run that has not finished can go on, so every run can be extended to a finished one. */
  lemma NeverStuck(p: seq<Byte>, bufsz: nat, s: System) returns (s': System)
    requires Inv(p, bufsz, s) && !Finished(p, s)
    ensures Next(p, bufsz, s, s')
  {
    if s.back != [] {
      s' := if s.back[0] == MINUS
            then s.(back := s.back[1..], tx := Pushing(0), spoils := if s.spoils == [] then [] else s.spoils[1..])
            else s.(back := s.back[1..], tx := Sent);
      assert Acknowledge(s, s');
    } else if s.forth != [] {
      var rx := RxStep(s.rx, s.forth[0], bufsz);
      s' := s.(forth := s.forth[1..], rx := rx, back := s.back + RxReply(s.rx, s.forth[0], bufsz),
               delivered := if rx.Got? then s.delivered + [rx.p] else s.delivered);
      assert Pull(bufsz, s, s');
    } else {
      s' := s.(forth := s.forth + [Wire(p, s.spoils)[s.tx.k]],
               tx := if s.tx.k + 1 == |p| + 4 then Awaiting else Pushing(s.tx.k + 1));
      assert Push(p, s, s');
    }
  }

  /** Every run ends within a bound fixed by the payload and the number of spoiled frames; a run that
      cannot go on has delivered the payload exactly once, unchanged. */
  lemma Delivers(p: seq<Byte>, bufsz: nat, spoils: seq<(Byte, Byte)>, run: seq<System>)
    requires Sound(p, bufsz, spoils) && IsRun(p, bufsz, spoils, run)
    ensures |run| <= (2 * |p| + 11) * |spoils| + 2 * |p| + 11
    ensures Stuck(p, bufsz, run[|run| - 1]) ==>
              Finished(p, run[|run| - 1]) && run[|run| - 1].delivered == [p]
  {
    RunKeeps(p, bufsz, spoils, run, |run| - 1);
    if !Finished(p, run[|run| - 1]) {
      var s' := NeverStuck(p, bufsz, run[|run| - 1]);
      assert Next(p, bufsz, run[|run| - 1], s');
    }
  }
}
