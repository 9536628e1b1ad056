/**
 * Breakpoints and watchpoints, `tools/tc-gdbserver/main.c`: a table of 16 slots
 * beside the triggers the debug device holds.  Creating and removing a trigger may
 * fail; the table is then left as it is.
 */
module Triggers {
  import opened Words
  import opened Rsp
  import opened Packets

  const MAX_BP: nat := 16

  datatype TrigType = IP | WRITE | READ | RW

  datatype Trigger = Trigger(addr: nat, kind: TrigType, range: nat)

  datatype Key = Key(addr: nat, gtype: int)

  datatype Slot = Free | Used(key: Key, id: nat)

  /** What a core does with memory. */
  datatype Access = Fetch | Load | Store

  /** The accesses a trigger type stops the core at. */
  predicate Hits(kind: TrigType, a: Access) {
    match kind
    case IP => a.Fetch?
    case WRITE => a.Store?
    case READ => a.Load?
    case RW => a.Load? || a.Store?
  }

  /** The accesses a debugger wants the core to stop at: breakpoints of either sort, write, read and access
      watchpoints. */
  predicate Asks(gtype: int, a: Access) {
    match a
    case Fetch => gtype in {0, 1}
    case Load => gtype in {3, 4}
    case Store => gtype in {2, 4}
  }

  predicate Supported(gtype: int) {
    0 <= gtype <= 4
  }

  /** The supported kinds are those that ask for something. */
  lemma SupportedIff(gtype: int)
    ensures Supported(gtype) <==> exists a :: Asks(gtype, a)
  {
    assert Asks(gtype, Fetch) || Asks(gtype, Load) || Asks(gtype, Store) <==> 0 <= gtype <= 4;
  }

  /** The trigger type of a supported kind. */
  function TypeOf(gtype: int): TrigType {
    if gtype == 2 then WRITE else if gtype == 3 then READ else if gtype == 4 then RW else IP
  }

  /** The trigger stops at the key's address, at exactly the accesses its kind asks for. */
  ghost predicate Fires(t: Trigger, key: Key) {
    t.addr == key.addr && forall a: Access :: Hits(t.kind, a) <==> Asks(key.gtype, a)
  }

  /** The addresses it watches. */
  predicate Watches(t: Trigger, x: int) {
    t.addr <= x <= t.addr + t.range
  }

  lemma TypeFires(key: Key, range: nat)
    requires Supported(key.gtype)
    ensures Fires(Trigger(key.addr, TypeOf(key.gtype), range), key)
  {
  }

  // ----- The table against the device ------------------------------------------

  function LiveKeys(t: seq<Slot>): set<Key> {
    set i | 0 <= i < |t| && t[i].Used? :: t[i].key
  }

  /** Used slots hold distinct keys and distinct triggers of the device, each of the right kind at the right
      address; the device holds no other trigger but the leaked ones. */
  ghost predicate Consistent(t: seq<Slot>, device: map<nat, Trigger>, leaked: set<nat>) {
    && |t| == MAX_BP
    && (forall i :: 0 <= i < |t| && t[i].Used? ==> Backed(t[i], device) && t[i].id !in leaked)
    && (forall i, j :: 0 <= i < j < |t| && t[i].Used? && t[j].Used? ==> t[i].key != t[j].key && t[i].id != t[j].id)
    && leaked <= device.Keys
    && (forall id :: id in device ==> id in leaked || Owned(t, id))
  }

  ghost predicate Backed(s: Slot, device: map<nat, Trigger>)
    requires s.Used?
  {
    s.id in device && Fires(device[s.id], s.key)
  }

  predicate Owned(t: seq<Slot>, id: nat) {
    exists i :: 0 <= i < |t| && t[i].Used? && t[i].id == id
  }

  /** Every live key has a trigger on the device that stops at what it asks for. */
  lemma LiveFires(t: seq<Slot>, device: map<nat, Trigger>, leaked: set<nat>, key: Key) returns (id: nat)
    requires Consistent(t, device, leaked) && key in LiveKeys(t)
    ensures id in device && id !in leaked && Fires(device[id], key)
  {
    var i :| 0 <= i < |t| && t[i].Used? && t[i].key == key;
    id := t[i].id;
    assert Backed(t[i], device);
  }

  /** A trigger that finds no slot is one more leak. */
  lemma Leaks(t: seq<Slot>, device: map<nat, Trigger>, leaked: set<nat>, id: nat, trigger: Trigger)
    requires Consistent(t, device, leaked) && id !in device
    ensures Consistent(t, device[id := trigger], leaked + {id}) && id !in leaked
  {
    forall i | 0 <= i < |t| && t[i].Used?
      ensures Backed(t[i], device[id := trigger]) && t[i].id !in leaked + {id}
    {
    }
  }

  lemma Inserted(t: seq<Slot>, device: map<nat, Trigger>, leaked: set<nat>, i: nat, key: Key, id: nat, trigger: Trigger)
    requires Consistent(t, device, leaked) && i < |t| && t[i].Free?
    requires key !in LiveKeys(t) && id !in device && Fires(trigger, key)
    ensures Consistent(t[i := Used(key, id)], device[id := trigger], leaked)
    ensures LiveKeys(t[i := Used(key, id)]) == LiveKeys(t) + {key}
  {
    var u := t[i := Used(key, id)];
    forall k | k in LiveKeys(t) + {key}
      ensures k in LiveKeys(u)
    {
      if k == key {
        assert u[i].Used? && u[i].key == key;
      } else {
        var j :| 0 <= j < |t| && t[j].Used? && t[j].key == k;
        assert u[j] == t[j];
      }
    }
    forall x | x in device
      ensures x in leaked || Owned(u, x)
    {
      if x !in leaked {
        var j :| 0 <= j < |t| && t[j].Used? && t[j].id == x;
        assert u[j] == t[j];
      }
    }
    assert u[i].Used? && u[i].id == id;
  }

  /** A slot is cleared; its trigger goes with it, or stays behind as a leak. */
  lemma Deleted(t: seq<Slot>, device: map<nat, Trigger>, leaked: set<nat>, i: nat)
    requires Consistent(t, device, leaked) && i < |t| && t[i].Used?
    ensures Consistent(t[i := Free], device - {t[i].id}, leaked)
    ensures Consistent(t[i := Free], device, leaked + {t[i].id})
    ensures LiveKeys(t[i := Free]) == LiveKeys(t) - {t[i].key}
  {
    var u := t[i := Free];
    forall k | k in LiveKeys(t) - {t[i].key}
      ensures k in LiveKeys(u)
    {
      var j :| 0 <= j < |t| && t[j].Used? && t[j].key == k;
      assert u[j] == t[j];
    }
    forall x | x in device && x != t[i].id
      ensures x in leaked || Owned(u, x)
    {
      if x !in leaked {
        var j :| 0 <= j < |t| && t[j].Used? && t[j].id == x;
        assert u[j] == t[j];
      }
    }
  }

  predicate DistinctKeys(t: seq<Slot>) {
    forall i, j :: 0 <= i < j < |t| && t[i].Used? && t[j].Used? ==> t[i].key != t[j].key
  }

  /** As many keys as used slots. */
  lemma {:induction false} CountKeys(t: seq<Slot>)
    requires DistinctKeys(t)
    ensures |LiveKeys(t)| <= |t|
    ensures |LiveKeys(t)| == |t| <==> forall i :: 0 <= i < |t| ==> t[i].Used?
  {
    if t == [] {
      assert LiveKeys(t) == {};
    } else {
      var front, last := t[..|t| - 1], t[|t| - 1];
      CountKeys(front);
      assert forall i :: 0 <= i < |front| ==> front[i] == t[i];
      if last.Used? {
        assert LiveKeys(t) == LiveKeys(front) + {last.key};
        assert last.key !in LiveKeys(front);
      } else {
        assert LiveKeys(t) == LiveKeys(front);
      }
    }
  }

  /** The device holds one trigger more, for this key and range. */
  ghost predicate Created(was: map<nat, Trigger>, now: map<nat, Trigger>, key: Key, range: nat) {
    exists id: nat, t: Trigger :: id !in was && now == was[id := t] && Fires(t, key) && t.range == range
  }

  // ----- The two operations ---------------------------------------------------------

  class Stub {
    const bp: array<Slot>
    var device: map<nat, Trigger>
    var calls: nat
    const creates: nat -> bool        // whether a call to create a trigger succeeds
    const removes: nat -> bool        // whether a call to remove one succeeds
    const pick: set<nat> -> nat       // the id for a new trigger, given those in use
    ghost var leaked: set<nat>        // triggers on the device that no slot names

    constructor (creates: nat -> bool, removes: nat -> bool, pick: set<nat> -> nat)
      ensures Valid() && Live() == {} && leaked == {} && device == map[] && fresh(bp)
      ensures this.creates == creates && this.removes == removes && this.pick == pick
    {
      bp := new Slot[MAX_BP](_ => Free);
      device, calls, leaked := map[], 0, {};
      this.creates, this.removes, this.pick := creates, removes, pick;
    }

    ghost predicate Valid()
      reads this, bp
    {
      Consistent(bp[..], device, leaked)
    }

    ghost function Live(): set<Key>
      reads this, bp
    {
      LiveKeys(bp[..])
    }

    /** The device never refuses and never hands out an id in use. */
    ghost predicate Reliable() {
      (forall t: nat :: creates(t) && removes(t)) && forall s: set<nat> :: pick(s) !in s
    }

    /** `mcd_create_trig_f` */
    method Create(t: Trigger) returns (ok: bool, id: nat)
      modifies this`device, this`calls
      ensures ok ==> id !in old(device) && device == old(device)[id := t]
      ensures !ok ==> device == old(device)
      ensures Reliable() ==> ok
    {
      id, calls := pick(device.Keys), calls + 1;
      ok := creates(calls - 1) && id !in device;
      if ok {
        device := device[id := t];
      }
    }

    /** `mcd_remove_trig_f` */
    method Remove(id: nat)
      modifies this`device, this`calls
      ensures device == old(device) || device == old(device) - {id}
      ensures Reliable() ==> device == old(device) - {id}
    {
      calls := calls + 1;
      if removes(calls - 1) {
        device := device - {id};
      }
    }

    /** The slot that holds a key, or the table's length. */
    method FindKey(key: Key) returns (i: nat)
      requires Valid()
      ensures i <= bp.Length && (i < bp.Length <==> key in Live())
      ensures i < bp.Length ==> bp[i].Used? && bp[i].key == key
    {
      i := 0;
      while i < bp.Length
        invariant i <= bp.Length && forall j :: 0 <= j < i ==> !(bp[j].Used? && bp[j].key == key)
      {
        if bp[i].Used? && bp[i].key == key {
          assert bp[..][i].key == key;
          return;
        }
        i := i + 1;
      }
    }

    /** The first free slot, or the table's length. */
    method FindFree() returns (i: nat)
      requires bp.Length == MAX_BP && DistinctKeys(bp[..])
      ensures i <= bp.Length && (i < bp.Length ==> bp[i].Free?)
      ensures i < bp.Length <==> |Live()| < MAX_BP
    {
      CountKeys(bp[..]);
      i := 0;
      while i < bp.Length
        invariant i <= bp.Length && forall j :: 0 <= j < i ==> bp[..][j].Used?
      {
        if bp[i].Free? {
          assert bp[..][i].Free?;
          return;
        }
        i := i + 1;
      }
    }

    /** `trig_set`: the key is live afterwards, or -1; a trigger created over a full table leaks. */
    method TrigSet(key: Key, range: nat) returns (rc: int)
      requires Valid()
      modifies this, bp
      ensures Valid() && (rc == 0 || rc == -1)
      ensures rc == 0 ==> Live() == old(Live()) + {key}
      ensures rc == -1 ==> Live() == old(Live())
      ensures !Supported(key.gtype) ==> rc == -1
      ensures !Supported(key.gtype) || key in old(Live()) ==> device == old(device) && leaked == old(leaked)
      ensures Supported(key.gtype) && key in old(Live()) ==> rc == 0
      ensures rc == 0 && key !in old(Live()) ==> Created(old(device), device, key, range)
      ensures old(leaked) <= leaked
      ensures |old(Live())| < 16 ==> leaked == old(leaked)
      ensures Reliable() && Supported(key.gtype) && key !in old(Live()) ==>
                if |old(Live())| < 16 then rc == 0 else rc == -1 && leaked > old(leaked)
    {
      if !Supported(key.gtype) {
        return -1;
      }
      var i := FindKey(key);
      if i < bp.Length {
        assert Live() == Live() + {key};
        return 0;
      }
      ghost var device0 := device;
      var trigger := Trigger(key.addr, TypeOf(key.gtype), range);
      var ok, id := Create(trigger);
      if !ok {
        return -1;
      }
      TypeFires(key, range);
      rc := Record(key, id, trigger, device0);
    }

    /** Enter a new trigger into a free slot; without one it is left behind. */
    method Record(key: Key, id: nat, ghost trigger: Trigger, ghost device0: map<nat, Trigger>) returns (rc: int)
      requires Consistent(bp[..], device0, leaked) && key !in Live() && id !in device0
      requires device == device0[id := trigger] && Fires(trigger, key)
      modifies this`leaked, bp
      ensures Valid()
      ensures |old(Live())| < MAX_BP ==> rc == 0 && leaked == old(leaked) && Live() == old(Live()) + {key}
      ensures |old(Live())| >= MAX_BP ==>
                rc == -1 && leaked == old(leaked) + {id} && id !in old(leaked) && Live() == old(Live())
    {
      var i := FindFree();
      if i < bp.Length {
        Inserted(bp[..], device0, leaked, i, key, id, trigger);
        ghost var t := bp[..][i := Used(key, id)];
        bp[i] := Used(key, id);
        assert bp[..] == t;
        return 0;
      }
      Leaks(bp[..], device0, leaked, id, trigger);
      leaked := leaked + {id};
      return -1;
    }

    /** `trig_clear`: the key is no longer live; a trigger the device keeps leaks. */
    method TrigClear(key: Key)
      requires Valid()
      modifies this, bp
      ensures Valid() && Live() == old(Live()) - {key}
      ensures old(leaked) <= leaked && (Reliable() ==> leaked == old(leaked))
      ensures key !in old(Live()) ==> device == old(device) && leaked == old(leaked)
    {
      var i := FindKey(key);
      if i == bp.Length {
        assert Live() == Live() - {key};
        return;
      }
      assert bp[..][i] == bp[i];
      Deleted(bp[..], device, leaked, i);
      ghost var id, t, device0 := bp[i].id, bp[..][i := Free], device;
      Remove(bp[i].id);
      bp[i] := Free;
      assert bp[..] == t;
      if device == device0 && id in device {
        leaked := leaked + {id};
      }
    }

    /** `handle_Z` and `handle_z`. */
    method Handle(p: seq<Byte>) returns (r: Reply)
      requires Valid() && IsTriggerPacket(p)
      modifies this, bp
      ensures Valid() && old(leaked) <= leaked
      ensures Live() == Next(old(Live()), p, r)
      ensures KeyOf(p).None? ==> r == ReplyTo(p) && device == old(device) && leaked == old(leaked)
      ensures KeyOf(p).Some? ==> r != Empty && (p[0] == REMOVE ==> r == Okay)
      ensures KeyOf(p).Some? && p[0] == INSERT && r == Okay && KeyOf(p).value !in old(Live()) ==>
                Created(old(device), device, KeyOf(p).value, RangeOf(p))
      ensures Reliable() ==>
                if Overflows(old(Live()), p) then r == Failed && leaked > old(leaked)
                else r == ReplyTo(p) && leaked == old(leaked)
    {
      var gtype := CharAt(p, 1) - ZERO;
      if !Supported(gtype) {
        return Empty;
      }
      var comma := Find(p, COMMA, 0);
      if comma == |p| {
        return Failed;
      }
      var key := Key(Strtoull(p, comma + 1), gtype);
      if p[0] == INSERT {
        var rc := TrigSet(key, RangeOf(p));
        return if rc == 0 then Okay else Failed;
      }
      TrigClear(key);
      return Okay;
    }

    /** After the packets `ps` from the keys `s`, answered `rs`: the live keys are the plain set in which an
        insertion counts exactly if it was answered OK.  On a reliable device nothing has leaked exactly if
        the plain set always fitted, and then the live keys and the replies are those of insertions that
        always succeed. */
    ghost predicate Refines(s: set<Key>, ps: seq<seq<Byte>>, rs: seq<Reply>)
      reads this, bp
    {
      && |rs| == |ps| && Live() == Answered(s, ps, rs)
      && (Reliable() ==> (leaked == {} <==> Fit(s, ps)))
      && (Reliable() && Fit(s, ps) ==> Live() == Wanted(s, ps) && forall i :: 0 <= i < |ps| ==> rs[i] == ReplyTo(ps[i]))
    }

    method ServeOne(p: seq<Byte>, ghost s: set<Key>, ghost ps: seq<seq<Byte>>, ghost rs: seq<Reply>) returns (r: Reply)
      requires Valid() && IsTriggerPacket(p) && Refines(s, ps, rs)
      modifies this, bp
      ensures Valid() && Refines(s, ps + [p], rs + [r])
    {
      assert (ps + [p])[..|ps|] == ps;
      r := Handle(p);
      assert (rs + [r])[..|ps|] == rs;
    }

    /** Any run of packets keeps the table and the device in step and refines a plain set. */
    method Serve(ps: seq<seq<Byte>>) returns (rs: seq<Reply>)
      requires Valid() && leaked == {} && forall p :: p in ps ==> IsTriggerPacket(p)
      modifies this, bp
      ensures Valid() && Refines(old(Live()), ps, rs)
    {
      rs := [];
      for i := 0 to |ps|
        invariant Valid() && Refines(old(Live()), ps[..i], rs)
      {
        var r := ServeOne(ps[i], old(Live()), ps[..i], rs);
        rs := rs + [r];
        assert ps[..i + 1] == ps[..i] + [ps[i]];
      }
      assert ps[..|ps|] == ps;
    }
  }

  // ----- The packets ----------------------------------------------------------------

  datatype Reply = Empty | Okay | Failed

  const INSERT: Byte := 0x5A  // 'Z'
  const REMOVE: Byte := 0x7A  // 'z'

  predicate IsTriggerPacket(p: seq<Byte>) {
    p != [] && (p[0] == INSERT || p[0] == REMOVE)
  }

  /** The key a packet names. */
  function KeyOf(p: seq<Byte>): Option<Key> {
    var gtype, comma := CharAt(p, 1) - ZERO, Find(p, COMMA, 0);
    if Supported(gtype) && comma < |p| then Some(Key(Strtoull(p, comma + 1), gtype)) else None
  }

  /** The length field less one for a watchpoint; the length is cut to 32 bits and defaults to 1. */
  function RangeOf(p: seq<Byte>): nat {
    var comma := Find(p, COMMA, 0);
    var comma2 := if comma < |p| then Find(p, COMMA, comma + 1) else |p|;
    var v := if comma2 < |p| then Strtoull(p, comma2 + 1) else 0;
    var len := if v == 0 then 1 else v % WORDS;
    if CharAt(p, 1) - ZERO >= 2 && len > 0 then len - 1 else 0
  }

  /** The answer a client expects. */
  function ReplyTo(p: seq<Byte>): Reply {
    if !Supported(CharAt(p, 1) - ZERO) then Empty else if KeyOf(p).None? then Failed else Okay
  }

  /** The plain set after a packet that was answered `r`. */
  function Next(s: set<Key>, p: seq<Byte>, r: Reply): set<Key> {
    match KeyOf(p)
    case None => s
    case Some(key) => if CharAt(p, 0) != INSERT then s - {key} else if r == Okay then s + {key} else s
  }

  predicate Overflows(s: set<Key>, p: seq<Byte>) {
    match KeyOf(p)
    case None => false
    case Some(key) => CharAt(p, 0) == INSERT && key !in s && |s| >= 16
  }

  /** The plain set after a run with the given answers, whatever the device did. */
  function Answered(s: set<Key>, ps: seq<seq<Byte>>, rs: seq<Reply>): set<Key>
    requires |rs| == |ps|
  {
    if ps == [] then s
    else
      var n := |ps| - 1;
      Next(Answered(s, ps[..n], rs[..n]), ps[n], rs[n])
  }

  /** The plain set after a run in which every insertion succeeds. */
  function Wanted(s: set<Key>, ps: seq<seq<Byte>>): set<Key> {
    if ps == [] then s else Next(Wanted(s, ps[..|ps| - 1]), ps[|ps| - 1], Okay)
  }

  /** The plain set never exceeds the table. */
  predicate Fit(s: set<Key>, ps: seq<seq<Byte>>) {
    ps == [] || (Fit(s, ps[..|ps| - 1]) && !Overflows(Wanted(s, ps[..|ps| - 1]), ps[|ps| - 1]))
  }

  /** The packet a client sends: `Ztype,addr,len` or `ztype,addr,len`. */
  function ClientPacket(head: Byte, key: Key, len: nat): seq<Byte>
    requires Supported(key.gtype)
  {
    [head, ZERO + key.gtype, COMMA] + Digits(key.addr) + [COMMA] + Digits(len)
  }

  /** The range the server makes of a length field: cut to 32 bits, and one less for a watchpoint. */
  function Cut(gtype: int, len: nat): nat {
    if gtype >= 2 && len % WORDS > 0 then len % WORDS - 1 else 0
  }

  lemma FieldsAre(p: seq<Byte>, key: Key, len: nat, c: nat)
    requires Supported(key.gtype) && len < DOUBLES && 3 <= c < |p| && p[1] == ZERO + key.gtype
    requires Find(p, COMMA, 0) == 2 && Strtoull(p, 3) == key.addr && Find(p, COMMA, 3) == c && Strtoull(p, c + 1) == len
    ensures KeyOf(p) == Some(key) && RangeOf(p) == Cut(key.gtype, len)
  {
  }

  /** Its key and length are read back. */
  lemma ClientPacketFields(head: Byte, key: Key, len: nat)
    requires head == INSERT || head == REMOVE
    requires Supported(key.gtype) && key.addr < DOUBLES && len < DOUBLES
    ensures var p := ClientPacket(head, key, len);
            IsTriggerPacket(p) && KeyOf(p) == Some(key) && RangeOf(p) == Cut(key.gtype, len)
  {
    var p, ds, ls := ClientPacket(head, key, len), Digits(key.addr), Digits(len);
    var start := [head, ZERO + key.gtype, COMMA];
    assert p[0] == head && p[1] == ZERO + key.gtype && p[2] == COMMA;
    FindSkips(p, COMMA, 0, 2);
    NumberField(p, start, key.addr, COMMA, ls);
    NumberAtEnd(p, start + ds + [COMMA], len);
    FieldsAre(p, key, len, 3 + |ds|);
  }

  /** Without a length a packet is about one address. */
  lemma WithoutLength(head: Byte, key: Key)
    requires (head == INSERT || head == REMOVE) && Supported(key.gtype) && key.addr < DOUBLES
    ensures var p := [head, ZERO + key.gtype, COMMA] + Digits(key.addr); KeyOf(p) == Some(key) && RangeOf(p) == 0
  {
    var start, ds := [head, ZERO + key.gtype, COMMA], Digits(key.addr);
    var p := start + ds;
    assert p[0] == head && p[1] == ZERO + key.gtype && p[2] == COMMA && p[3..] == ds;
    FindSkips(p, COMMA, 0, 2);
    NumberAtEnd(p, start, key.addr);
    DigitsArePlain(key.addr);
    FindNothing(p, COMMA, 3);
    hide Digits, Strtoull, Find;
  }

  /** A new trigger for an insertion packet watches exactly the bytes the client named, and a breakpoint one address. */
  lemma InsertionWatches(key: Key, len: nat, was: map<nat, Trigger>, now: map<nat, Trigger>) returns (id: nat)
    requires Supported(key.gtype) && key.addr < DOUBLES && 0 < len < WORDS
    requires Created(was, now, key, RangeOf(ClientPacket('Z' as int, key, len)))
    ensures id !in was && id in now && now - {id} == was && Fires(now[id], key)
    ensures forall x: int :: Watches(now[id], x) <==> key.addr <= x < key.addr + (if key.gtype >= 2 then len else 1)
  {
    hide RangeOf, ClientPacket;
    ClientPacketFields('Z' as int, key, len);
    var i: nat, t: Trigger :| i !in was && now == was[i := t] && Fires(t, key) && t.range == Cut(key.gtype, len);
    id := i;
  }

  /** A `Z` packet that is answered OK adds its key to the plain set, and a `z` packet removes it. */
  lemma ClientChanges(s: set<Key>, key: Key, len: nat, r: Reply)
    requires Supported(key.gtype) && key.addr < DOUBLES && len < DOUBLES
    ensures Next(s, ClientPacket('Z' as int, key, len), r) == if r == Okay then s + {key} else s
    ensures Next(s, ClientPacket('z' as int, key, len), r) == s - {key}
    ensures ReplyTo(ClientPacket('Z' as int, key, len)) == ReplyTo(ClientPacket('z' as int, key, len)) == Okay
  {
    ClientPacketFields('Z' as int, key, len);
    ClientPacketFields('z' as int, key, len);
  }

  /** A kind other than 0 to 4 is answered with an empty packet, and one of these without a comma with an error. */
  lemma OthersAreRefused(p: seq<Byte>)
    requires |p| >= 2
    ensures ReplyTo(p) == Empty <==> !('0' as int <= p[1] <= '4' as int)
    ensures '0' as int <= p[1] <= '4' as int && ',' as int !in p ==> ReplyTo(p) == Failed
    ensures ReplyTo(p) != Okay ==> KeyOf(p).None?
  {
  }
}
