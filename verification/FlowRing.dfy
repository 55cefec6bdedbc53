/** The flow-ring table of wifi-bcm4350/src/flowring.c as values: an open-addressed hash index
    without tombstones that points into an array of rings, and the two-watermark flow control
    that shares one stop bit per interface. `FlowTable.dfy` holds the in-place operations, each
    proved against the function of the same name here. */
module FlowRing {
  import opened Basics

  const HASH_SIZE: nat := 512
  const HIGH: nat := 1024
  const LOW: nat := HIGH - 256
  const INVALID_IFIDX: nat := 0xff
  const MAX_IFS: nat := 16

  type Mac = m: seq<Byte> | |m| == 6 witness [0, 0, 0, 0, 0, 0]
  /** A packet; only its identity matters here. */
  type Skb = nat

  const ZERO_MAC: Mac := [0, 0, 0, 0, 0, 0]
  const ALL_FF_MAC: Mac := [0xff, 0xff, 0xff, 0xff, 0xff, 0xff]
  const PRIO_TO_FIFO: seq<nat> := [0, 1, 1, 0, 2, 2, 3, 3]

  datatype Slot = Slot(mac: Mac, fifo: nat, ifidx: nat, flowid: nat)
  datatype Status = Closed | Closing | Open
  datatype Ring = Ring(hashId: nat, blocked: bool, status: Status, queue: seq<Skb>)
  datatype AddrMode = Indirect | Direct

  /** `stop[i]` is the FLOW stop reason of interface `i`; `dropped` logs the packets finalized
      unsent by a deletion. */
  datatype Table = Table(hash: seq<Slot>, rings: seq<Option<Ring>>, addrMode: seq<AddrMode>,
                         tdlsActive: bool, tdls: seq<Mac>, stop: seq<bool>, dropped: seq<Skb>)

  predicate Shape(t: Table) {
    |t.hash| == HASH_SIZE && |t.rings| < 0x1_0000 && |t.addrMode| == MAX_IFS && |t.stop| == MAX_IFS
  }

  // ----- addressing a flow

  /** What a lookup or a creation looks for: station mode ignores the address. */
  datatype Query = Query(sta: bool, mac: Mac, fifo: nat, ifidx: nat)

  predicate Multicast(mac: Mac) { mac[0] % 2 == 1 }

  function Resolve(t: Table, da: Mac, prio: nat, ifidx: nat): (q: Query)
    requires Shape(t) && prio < 8 && ifidx < MAX_IFS
    ensures q.ifidx == ifidx && q.fifo < 4
  {
    var indirect := t.addrMode[ifidx] == Indirect;
    var group := !indirect && Multicast(da);
    Query(indirect && !(t.tdlsActive && da in t.tdls),
          if group then ALL_FF_MAC else da,
          if group then 0 else PRIO_TO_FIFO[prio],
          ifidx)
  }

  function Home(q: Query): (h: nat)
    ensures h < HASH_SIZE
  {
    ((if q.sta then 0 else q.mac[5] * 2) + q.fifo + q.ifidx * 16) % HASH_SIZE
  }

  predicate Free(s: Slot) { s.ifidx == INVALID_IFIDX && s.mac == ZERO_MAC }

  predicate Matches(s: Slot, q: Query) {
    (q.sta || s.mac == q.mac) && s.fifo == q.fifo && s.ifidx == q.ifidx
  }

  /** The two tests the probe loops make. */
  datatype Test = IsFree | IsMatch(q: Query)

  predicate Passes(test: Test, s: Slot) {
    match test
    case IsFree => Free(s)
    case IsMatch(q) => Matches(s, q)
  }

  /** The slot at probe distance `k`. */
  function Cyclic(home: nat, k: nat): (h: nat)
    ensures h < HASH_SIZE
  {
    (home + k) % HASH_SIZE
  }

  /** The first slot from `home`, cyclically, at probe distance `k` or more that passes `test`. */
  function Probe(hash: seq<Slot>, home: nat, k: nat, test: Test): (r: Option<nat>)
    requires |hash| == HASH_SIZE && home < HASH_SIZE && k <= HASH_SIZE
    ensures r.Some? ==> r.value < HASH_SIZE && Passes(test, hash[r.value])
    decreases HASH_SIZE - k
  {
    if k == HASH_SIZE then None
    else if Passes(test, hash[Cyclic(home, k)]) then Some(Cyclic(home, k))
    else Probe(hash, home, k + 1, test)
  }

  /** One turn of the probe loop. */
  lemma ProbeNext(hash: seq<Slot>, home: nat, k: nat, test: Test)
    requires |hash| == HASH_SIZE && home < HASH_SIZE && k <= HASH_SIZE
    ensures Cyclic(home, 0) == home && (Cyclic(home, k) + 1) % HASH_SIZE == Cyclic(home, k + 1)
    ensures Probe(hash, home, k, test) ==
            if k == HASH_SIZE then None
            else if Passes(test, hash[Cyclic(home, k)]) then Some(Cyclic(home, k))
            else Probe(hash, home, k + 1, test)
  {}

  /** Probing covers the whole table, so holes left by deletions hide nothing. */
  lemma {:induction false} ProbeComplete(hash: seq<Slot>, home: nat, k: nat, test: Test, h: nat)
    requires |hash| == HASH_SIZE && home < HASH_SIZE && k <= HASH_SIZE && h < HASH_SIZE
    requires (h + HASH_SIZE - home) % HASH_SIZE >= k
    requires Passes(test, hash[h])
    ensures Probe(hash, home, k, test).Some?
    decreases HASH_SIZE - k
  {
    if !Passes(test, hash[Cyclic(home, k)]) {
      ProbeComplete(hash, home, k + 1, test, h);
    }
  }

  function FirstNull(rings: seq<Option<Ring>>, i: nat): (r: nat)
    requires i <= |rings|
    ensures i <= r <= |rings|
    ensures r < |rings| ==> rings[r].None?
    ensures forall j :: i <= j < r ==> rings[j].Some?
    decreases |rings| - i
  {
    if i == |rings| || rings[i].None? then i else FirstNull(rings, i + 1)
  }

  // ----- the operations

  function Lookup(t: Table, da: Mac, prio: nat, ifidx: nat): (r: Option<nat>)
    requires Shape(t) && prio < 8 && ifidx < MAX_IFS
  {
    var q := Resolve(t, da, prio, ifidx);
    match Probe(t.hash, Home(q), 0, IsMatch(q))
    case None => None
    case Some(h) => Some(t.hash[h].flowid)
  }

  datatype Created = NewFlow(flowid: nat) | NoMemory | TableFull

  function Create(t: Table, da: Mac, prio: nat, ifidx: nat, allocOk: bool): (r: (Table, Created))
    requires Shape(t) && prio < 8 && ifidx < MAX_IFS
    ensures Shape(r.0)
  {
    var q := Resolve(t, da, prio, ifidx);
    match Probe(t.hash, Home(q), 0, IsFree)
    case None => (t, TableFull)
    case Some(h) =>
      var i := FirstNull(t.rings, 0);
      if i == |t.rings| || !allocOk then (t, NoMemory)
      else (t.(hash := t.hash[h := Slot(q.mac, q.fifo, ifidx, i)],
               rings := t.rings[i := Some(Ring(h, false, Closed, []))]), NewFlow(i))
  }

  /** Each live ring's slot names it back, and each occupied slot names a live ring back. */
  ghost predicate Linked(t: Table) {
    && Shape(t)
    && (forall i :: 0 <= i < |t.rings| && t.rings[i].Some? ==> RingOk(t, i))
    && (forall h :: 0 <= h < HASH_SIZE && !Free(t.hash[h]) ==> SlotOk(t, h))
  }

  predicate RingOk(t: Table, i: nat)
    requires Shape(t) && i < |t.rings| && t.rings[i].Some?
  {
    var h := t.rings[i].value.hashId;
    h < HASH_SIZE && !Free(t.hash[h]) && t.hash[h].flowid == i
  }

  predicate SlotOk(t: Table, h: nat)
    requires Shape(t) && h < HASH_SIZE
  {
    var s := t.hash[h];
    s.ifidx < MAX_IFS && s.flowid < |t.rings| && t.rings[s.flowid].Some? && t.rings[s.flowid].value.hashId == h
  }

  predicate Live(t: Table, f: nat) { f < |t.rings| && t.rings[f].Some? }

  function Iface(t: Table, f: nat): (ifidx: nat)
    requires Linked(t) && Live(t, f)
    ensures ifidx < MAX_IFS
  {
    assert RingOk(t, f) && SlotOk(t, t.rings[f].value.hashId);
    t.hash[t.rings[f].value.hashId].ifidx
  }

  function Put(t: Table, f: nat, r: Ring): (t': Table)
    requires Shape(t) && Live(t, f)
    ensures Shape(t') && Live(t', f)
    ensures r.hashId == t.rings[f].value.hashId ==> SameIndex(t, t')
  {
    t.(rings := t.rings[f := Some(r)])
  }

  /** Ring `i` holds the stop bit of interface `ifidx`. */
  predicate Holds(t: Table, ifidx: nat, i: nat)
    requires Linked(t)
  {
    Live(t, i) && t.rings[i].value.blocked && Iface(t, i) == ifidx
  }

  /** Another ring of the same interface, open and blocked: what brcmf_flowring_block looks for. */
  predicate OtherOpenHolder(t: Table, f: nat, i: nat)
    requires Linked(t) && Live(t, f)
  {
    i != f && Holds(t, Iface(t, f), i) && t.rings[i].value.status == Open
  }

  function Block(t: Table, f: nat, b: bool): (t': Table)
    requires Linked(t) && Live(t, f)
    ensures SameIndex(t, t')
  {
    var r := t.rings[f].value;
    if r.blocked == b then t
    else
      var t1 := Put(t, f, r.(blocked := b));
      if exists i | 0 <= i < |t.rings| :: OtherOpenHolder(t, f, i) then t1
      else t1.(stop := t.stop[Iface(t, f) := b])
  }

  function Delete(t: Table, f: nat): (t': Table)
    requires Linked(t)
    ensures Shape(t')
  {
    if !Live(t, f) then t
    else
      var r := t.rings[f].value;
      assert RingOk(t, f);
      var t1 := Block(t, f, false);
      t1.(hash := t1.hash[r.hashId := t1.hash[r.hashId].(ifidx := INVALID_IFIDX, mac := ZERO_MAC)],
          rings := t1.rings[f := None],
          dropped := t1.dropped + r.queue)
  }

  function Enqueue(t: Table, f: nat, skb: Skb): (t': Table)
    requires Linked(t) && Live(t, f)
    ensures SameIndex(t, t')
  {
    var r := t.rings[f].value;
    var t1 := Put(t, f, r.(queue := r.queue + [skb]));
    RefillKeepsLinked(t, t1);
    if !r.blocked && |r.queue| + 1 > HIGH then Block(t1, f, true) else t1
  }

  function Dequeue(t: Table, f: nat): (r: (Table, Option<Skb>))
    requires Linked(t) && Live(t, f)
    ensures SameIndex(t, r.0)
  {
    var r := t.rings[f].value;
    if r.status != Open then (t, None)
    else
      var q := if r.queue == [] then [] else r.queue[1..];
      var t1 := Put(t, f, r.(queue := q));
      RefillKeepsLinked(t, t1);
      (if r.blocked && |q| < LOW then Block(t1, f, false) else t1,
       if r.queue == [] then None else Some(r.queue[0]))
  }

  function Reinsert(t: Table, f: nat, skb: Skb): (t': Table)
    requires Shape(t) && Live(t, f)
    ensures SameIndex(t, t')
  {
    var r := t.rings[f].value;
    Put(t, f, r.(queue := [skb] + r.queue))
  }

  function SetStatus(t: Table, f: nat, s: Status): (t': Table)
    requires Shape(t)
    ensures SameIndex(t, t')
  {
    if Live(t, f) then Put(t, f, t.rings[f].value.(status := s)) else t
  }

  /** The table brcmf_flowring_attach builds. */
  function Attach(nrofrings: nat): (t: Table)
    requires nrofrings < 0x1_0000
    ensures Linked(t) && Exact(t) && AllWithinMarks(t) && DistinctKeys(t)
    ensures |t.rings| == nrofrings && forall i :: 0 <= i < |t.rings| ==> t.rings[i].None?
    ensures forall h :: 0 <= h < HASH_SIZE ==> Free(t.hash[h])
  {
    Table(seq(HASH_SIZE, _ => Slot(ZERO_MAC, 0, INVALID_IFIDX, 0)), seq(nrofrings, _ => None),
          seq(MAX_IFS, _ => Indirect), false, [], seq(MAX_IFS, _ => false), [])
  }

  // ----- the index agrees with the rings

  /** Same index, same live rings; only what a ring holds may differ. */
  ghost predicate SameIndex(t: Table, t': Table) {
    && t'.hash == t.hash && |t'.rings| == |t.rings|
    && |t'.addrMode| == |t.addrMode| && |t'.stop| == |t.stop|
    && forall i :: 0 <= i < |t.rings| ==>
         t'.rings[i].Some? == t.rings[i].Some? &&
         (t.rings[i].Some? ==> t'.rings[i].value.hashId == t.rings[i].value.hashId)
  }

  lemma RefillKeepsLinked(t: Table, t': Table)
    requires Linked(t) && SameIndex(t, t')
    ensures Linked(t')
    ensures forall i :: 0 <= i < |t.rings| && Live(t, i) ==> Iface(t', i) == Iface(t, i)
  {
    forall i | 0 <= i < |t'.rings| && t'.rings[i].Some? ensures RingOk(t', i) { assert RingOk(t, i); }
    forall h | 0 <= h < HASH_SIZE && !Free(t'.hash[h]) ensures SlotOk(t', h) { assert SlotOk(t, h); }
  }

  lemma CreateKeepsLinked(t: Table, da: Mac, prio: nat, ifidx: nat, allocOk: bool)
    requires Linked(t) && prio < 8 && ifidx < MAX_IFS
    ensures Linked(Create(t, da, prio, ifidx, allocOk).0)
  {
    var (t', r) := Create(t, da, prio, ifidx, allocOk);
    if r.NewFlow? {
      forall i | 0 <= i < |t'.rings| && t'.rings[i].Some? ensures RingOk(t', i) {
        if i != r.flowid { assert RingOk(t, i); }
      }
      forall h | 0 <= h < HASH_SIZE && !Free(t'.hash[h]) ensures SlotOk(t', h) {
        if h != t'.rings[r.flowid].value.hashId { assert SlotOk(t, h); }
      }
    }
  }

  lemma DeleteKeepsLinked(t: Table, f: nat)
    requires Linked(t)
    ensures Linked(Delete(t, f))
  {
    if Live(t, f) {
      var t' := Delete(t, f);
      assert RingOk(t, f);
      forall i | 0 <= i < |t'.rings| && t'.rings[i].Some? ensures RingOk(t', i) { assert RingOk(t, i); }
      forall h | 0 <= h < HASH_SIZE && !Free(t'.hash[h]) ensures SlotOk(t', h) { assert SlotOk(t, h); }
    }
  }

  // ----- runs

  /** `Transmit` is the driver's lookup with creation on a miss (msgbuf.c:665-694, 810-816), where
      `itemOk` and `allocOk` say whether the work item and the ring can be allocated; `Requeue` is a
      dequeue whose packet is put straight back (msgbuf.c:719-737), `Close` the CLOSING status set
      before a ring is torn down, `Readdress` any change of address modes or TDLS peers. */
  datatype Event =
    | Transmit(da: Mac, prio: nat, ifidx: nat, itemOk: bool, allocOk: bool)
    | OpenRing(f: nat)
    | CloseRing(f: nat)
    | Push(f: nat, skb: Skb)
    | Pop(f: nat)
    | Requeue(f: nat)
    | Remove(f: nat)
    | Readdress(addrMode: seq<AddrMode>, tdlsActive: bool, tdls: seq<Mac>)

  predicate ValidEvent(e: Event) {
    match e
    case Transmit(_, prio, ifidx, _, _) => prio < 8 && ifidx < MAX_IFS
    case Readdress(m, _, _) => |m| == MAX_IFS
    case _ => true
  }

  /** One atomic step; an operation on a ring that is not live changes nothing. */
  function Step(t: Table, e: Event): (t': Table)
    requires Linked(t) && ValidEvent(e)
    ensures !e.Transmit? && !e.Remove? ==> SameIndex(t, t')
  {
    match e
    case Transmit(da, prio, ifidx, itemOk, allocOk) =>
      if Lookup(t, da, prio, ifidx).Some? || !itemOk then t else Create(t, da, prio, ifidx, allocOk).0
    case OpenRing(f) => SetStatus(t, f, Open)
    case CloseRing(f) => SetStatus(t, f, Closing)
    case Push(f, skb) => if Live(t, f) then Enqueue(t, f, skb) else t
    case Pop(f) => if Live(t, f) then Dequeue(t, f).0 else t
    case Requeue(f) =>
      if !Live(t, f) then t
      else
        var (t1, skb) := Dequeue(t, f);
        if skb.None? then t1 else Reinsert(t1, f, skb.value)
    case Remove(f) => Delete(t, f)
    case Readdress(m, a, peers) => t.(addrMode := m, tdlsActive := a, tdls := peers)
  }

  lemma StepKeepsLinked(t: Table, e: Event)
    requires Linked(t) && ValidEvent(e)
    ensures Linked(Step(t, e))
  {
    match e
    case Transmit(da, prio, ifidx, _, allocOk) => CreateKeepsLinked(t, da, prio, ifidx, allocOk);
    case Remove(f) => DeleteKeepsLinked(t, f);
    case _ => RefillKeepsLinked(t, Step(t, e));
  }

  ghost predicate ValidRun(es: seq<Event>) { forall e :: e in es ==> ValidEvent(e) }

  ghost function Run(t: Table, es: seq<Event>): (t': Table)
    requires Linked(t) && ValidRun(es)
    ensures Linked(t')
    decreases |es|
  {
    if es == [] then t
    else
      StepKeepsLinked(t, es[0]);
      Run(Step(t, es[0]), es[1..])
  }

  /** In every run from attach, live rings and occupied slots are in one-to-one correspondence. */
  lemma FlowIndexBijection(nrofrings: nat, es: seq<Event>)
    requires nrofrings < 0x1_0000 && ValidRun(es)
    ensures var t := Run(Attach(nrofrings), es);
      && (forall i :: 0 <= i < |t.rings| && t.rings[i].Some? ==>
            var h := t.rings[i].value.hashId;
            h < HASH_SIZE && !Free(t.hash[h]) && t.hash[h].flowid == i)
      && (forall h :: 0 <= h < |t.hash| && !Free(t.hash[h]) ==>
            var i := t.hash[h].flowid;
            i < |t.rings| && t.rings[i].Some? && t.rings[i].value.hashId == h)
  {
    var t := Run(Attach(nrofrings), es);
    forall i | 0 <= i < |t.rings| && t.rings[i].Some? ensures RingOk(t, i) {}
    forall h | 0 <= h < HASH_SIZE && !Free(t.hash[h]) ensures SlotOk(t, h) {}
  }

  // ----- lookup refines a plain map

  datatype Key = Key(mac: Mac, fifo: nat, ifidx: nat)

  function SlotKey(s: Slot): Key { Key(s.mac, s.fifo, s.ifidx) }

  ghost predicate DistinctKeys(t: Table) {
    forall h, g | 0 <= h < g < |t.hash| && !Free(t.hash[h]) && !Free(t.hash[g]) ::
      SlotKey(t.hash[h]) != SlotKey(t.hash[g])
  }

  /** The map that the hash table speeds up. */
  ghost function Index(t: Table): map<Key, nat>
    requires DistinctKeys(t)
  {
    map h | 0 <= h < |t.hash| && !Free(t.hash[h]) :: SlotKey(t.hash[h]) := t.hash[h].flowid
  }

  /** Lookup answers exactly when some live slot matches, and with such a slot's live ring. */
  lemma LookupFindsLiveMatch(t: Table, da: Mac, prio: nat, ifidx: nat)
    requires Linked(t) && prio < 8 && ifidx < MAX_IFS
    ensures var q := Resolve(t, da, prio, ifidx); var r := Lookup(t, da, prio, ifidx);
      && (r.Some? <==> exists h :: 0 <= h < HASH_SIZE && !Free(t.hash[h]) && Matches(t.hash[h], q))
      && (r.Some? ==> Live(t, r.value) && Matches(t.hash[t.rings[r.value].value.hashId], q))
  {
    var q := Resolve(t, da, prio, ifidx);
    var p := Probe(t.hash, Home(q), 0, IsMatch(q));
    if h :| 0 <= h < HASH_SIZE && !Free(t.hash[h]) && Matches(t.hash[h], q) {
      ProbeComplete(t.hash, Home(q), 0, IsMatch(q), h);
    }
    if p.Some? {
      assert !Free(t.hash[p.value]);
      assert SlotOk(t, p.value);
    }
  }

  /** With the address significant, lookup is the map's lookup. */
  lemma LookupIsMapLookup(t: Table, da: Mac, prio: nat, ifidx: nat)
    requires Linked(t) && DistinctKeys(t) && prio < 8 && ifidx < MAX_IFS
    requires !Resolve(t, da, prio, ifidx).sta
    ensures var q := Resolve(t, da, prio, ifidx); var k := Key(q.mac, q.fifo, q.ifidx);
      Lookup(t, da, prio, ifidx) == if k in Index(t) then Some(Index(t)[k]) else None
  {
    var q := Resolve(t, da, prio, ifidx);
    var k := Key(q.mac, q.fifo, q.ifidx);
    var p := Probe(t.hash, Home(q), 0, IsMatch(q));
    if p.Some? {
      assert !Free(t.hash[p.value]) && SlotKey(t.hash[p.value]) == k;
    }
    if k in Index(t) {
      var h :| 0 <= h < |t.hash| && !Free(t.hash[h]) && SlotKey(t.hash[h]) == k;
      ProbeComplete(t.hash, Home(q), 0, IsMatch(q), h);
    }
  }

  /** A created flow takes an unused ring and is what the same lookup returns from then on, whatever
      the addressing mode. */
  lemma CreateIsFound(t: Table, da: Mac, prio: nat, ifidx: nat, allocOk: bool)
    requires Linked(t) && prio < 8 && ifidx < MAX_IFS && Lookup(t, da, prio, ifidx).None?
    ensures var q := Resolve(t, da, prio, ifidx); var (t', r) := Create(t, da, prio, ifidx, allocOk);
      && (forall h :: 0 <= h < HASH_SIZE && !Free(t.hash[h]) ==> !Matches(t.hash[h], q))
      && (r.NewFlow? ==> !Live(t, r.flowid) && Live(t', r.flowid) && Lookup(t', da, prio, ifidx) == Some(r.flowid))
      && (!r.NewFlow? ==> t' == t)
  {
    var q := Resolve(t, da, prio, ifidx);
    var (t', r) := Create(t, da, prio, ifidx, allocOk);
    forall h | 0 <= h < HASH_SIZE && !Free(t.hash[h]) ensures !Matches(t.hash[h], q) {
      if Matches(t.hash[h], q) { ProbeComplete(t.hash, Home(q), 0, IsMatch(q), h); }
    }
    if r.NewFlow? {
      var hid := t'.rings[r.flowid].value.hashId;
      assert forall h :: 0 <= h < HASH_SIZE && h != hid ==> t'.hash[h] == t.hash[h];
      assert Resolve(t', da, prio, ifidx) == q && Matches(t'.hash[hid], q);
      ProbeComplete(t'.hash, Home(q), 0, IsMatch(q), hid);
      var p := Probe(t'.hash, Home(q), 0, IsMatch(q));
      assert p == Some(hid) by {
        if p.value != hid { assert false; }
      }
    }
  }

  /** Creating after a failed lookup inserts into the map, and the same lookup then finds it. */
  lemma CreateIsMapInsert(t: Table, da: Mac, prio: nat, ifidx: nat, allocOk: bool)
    requires Linked(t) && DistinctKeys(t) && prio < 8 && ifidx < MAX_IFS
    requires Lookup(t, da, prio, ifidx).None?
    ensures var q := Resolve(t, da, prio, ifidx); var (t', r) := Create(t, da, prio, ifidx, allocOk);
      && DistinctKeys(t')
      && (r.NewFlow? ==>
            && Index(t') == Index(t)[Key(q.mac, q.fifo, ifidx) := r.flowid]
            && Key(q.mac, q.fifo, ifidx) !in Index(t)
            && !Live(t, r.flowid)
            && Lookup(t', da, prio, ifidx) == Some(r.flowid))
      && (!r.NewFlow? ==> t' == t)
  {
    CreateIsFound(t, da, prio, ifidx, allocOk);
    hide Lookup, Probe;
    var q := Resolve(t, da, prio, ifidx);
    var (t', r) := Create(t, da, prio, ifidx, allocOk);
    if r.NewFlow? {
      var hid := t'.rings[r.flowid].value.hashId;
      var k := Key(q.mac, q.fifo, ifidx);
      assert SlotKey(t'.hash[hid]) == k;
      assert forall h :: 0 <= h < HASH_SIZE && h != hid ==> t'.hash[h] == t.hash[h];
      MapsAgree(t, t', k, r.flowid, hid);
    }
  }

  /** The slots of the two tables differ only in `hid`, free in one and holding `k` in the other. */
  ghost predicate OneMore(t: Table, t': Table, k: Key, f: nat, hid: nat) {
    && Shape(t) && Shape(t') && DistinctKeys(t) && DistinctKeys(t') && hid < HASH_SIZE
    && (forall h :: 0 <= h < HASH_SIZE && h != hid ==> t'.hash[h] == t.hash[h])
    && Free(t.hash[hid]) && !Free(t'.hash[hid]) && SlotKey(t'.hash[hid]) == k && t'.hash[hid].flowid == f
  }

  lemma OneMoreKey(t: Table, t': Table, k: Key, f: nat, hid: nat, x: Key)
    requires OneMore(t, t', k, f, hid)
    ensures k in Index(t') && Index(t')[k] == f
    ensures x in Index(t) ==> x != k && x in Index(t') && Index(t')[x] == Index(t)[x]
    ensures x in Index(t') && x != k ==> x in Index(t)
  {
    IndexAt(t', hid);
    if x in Index(t) { IndexAt(t', SlotOf(t, x)); }
    if x in Index(t') && x != k { IndexAt(t, SlotOf(t', x)); }
  }

  lemma MapsAgree(t: Table, t': Table, k: Key, f: nat, hid: nat)
    requires OneMore(t, t', k, f, hid)
    ensures k !in Index(t) && Index(t') == Index(t)[k := f] && Index(t) == Index(t') - {k}
  {
    var m, m' := Index(t), Index(t');
    forall x
      ensures (x in m ==> x != k && x in m' && m'[x] == m[x]) && (x in m' && x != k ==> x in m)
    {
      OneMoreKey(t, t', k, f, hid, x);
    }
    OneMoreKey(t, t', k, f, hid, k);
    MapInsert(m, m', k, f);
  }

  lemma MapInsert(m: map<Key, nat>, m': map<Key, nat>, k: Key, f: nat)
    requires k in m' && m'[k] == f
    requires forall x :: x in m ==> x != k && x in m' && m'[x] == m[x]
    requires forall x :: x in m' && x != k ==> x in m
    ensures k !in m && m' == m[k := f] && m == m' - {k}
  {}

  lemma IndexAt(t: Table, h: nat)
    requires DistinctKeys(t) && h < |t.hash| && !Free(t.hash[h])
    ensures SlotKey(t.hash[h]) in Index(t) && Index(t)[SlotKey(t.hash[h])] == t.hash[h].flowid
  {}

  ghost function SlotOf(t: Table, k: Key): (h: nat)
    requires DistinctKeys(t) && k in Index(t)
    ensures h < |t.hash| && !Free(t.hash[h]) && SlotKey(t.hash[h]) == k && Index(t)[k] == t.hash[h].flowid
  {
    var h :| 0 <= h < |t.hash| && !Free(t.hash[h]) && SlotKey(t.hash[h]) == k;
    h
  }

  /** Deleting a flow removes its key and no other, so every survivor stays reachable. */
  lemma DeleteIsMapRemove(t: Table, f: nat)
    requires Linked(t) && DistinctKeys(t)
    ensures var t' := Delete(t, f);
      && DistinctKeys(t')
      && (Live(t, f) ==> Index(t') == Index(t) - {SlotKey(t.hash[t.rings[f].value.hashId])})
      && (!Live(t, f) ==> t' == t)
  {
    if Live(t, f) {
      var t' := Delete(t, f);
      assert RingOk(t, f);
      var hid := t.rings[f].value.hashId;
      assert SlotOk(t, hid);
      assert forall h :: 0 <= h < HASH_SIZE && h != hid ==> t'.hash[h] == t.hash[h];
      MapsAgree(t', t, SlotKey(t.hash[hid]), f, hid);
    }
  }

  /** Keys stay distinct in every run, so the three lemmas above apply at every point of it. */
  lemma {:induction false} DistinctKeysInEveryRun(t: Table, es: seq<Event>)
    requires Linked(t) && DistinctKeys(t) && ValidRun(es)
    ensures DistinctKeys(Run(t, es))
    decreases |es|
  {
    if es != [] {
      var e := es[0];
      StepKeepsLinked(t, e);
      if e.Transmit? {
        if Lookup(t, e.da, e.prio, e.ifidx).None? { CreateIsMapInsert(t, e.da, e.prio, e.ifidx, e.allocOk); }
      } else if e.Remove? {
        DeleteIsMapRemove(t, e.f);
      }
      DistinctKeysInEveryRun(Step(t, e), es[1..]);
    }
  }

  // ----- the word the transmit path takes for a flow

  const INVALID_ID: nat := 0xffff_ffff
  const MINUS_ENOMEM: nat := 0xffff_fff4  // -ENOMEM returned as a 32-bit word

  function Word(c: Created): nat {
    match c
    case NewFlow(f) => f
    case NoMemory => MINUS_ENOMEM
    case TableFull => INVALID_ID
  }

  /** What lookup and creation hand to the caller, which compares it with INVALID_ID only. */
  function FlowWord(t: Table, da: Mac, prio: nat, ifidx: nat, itemOk: bool, allocOk: bool): (w: nat)
    requires Shape(t) && prio < 8 && ifidx < MAX_IFS
  {
    match Lookup(t, da, prio, ifidx)
    case Some(f) => f
    case None => if itemOk then Word(Create(t, da, prio, ifidx, allocOk).1) else INVALID_ID
  }

  predicate HasFreeSlot(t: Table) { exists h | 0 <= h < |t.hash| :: Free(t.hash[h]) }
  predicate AllRingsUsed(t: Table) { forall i | 0 <= i < |t.rings| :: t.rings[i].Some? }

  /** A new flow has a slot in the index and gets no ring. */
  predicate OutOfRings(t: Table, da: Mac, prio: nat, ifidx: nat, itemOk: bool, allocOk: bool)
    requires Shape(t) && prio < 8 && ifidx < MAX_IFS
  {
    Lookup(t, da, prio, ifidx).None? && itemOk && HasFreeSlot(t) && (AllRingsUsed(t) || !allocOk)
  }

  /** The word is refused or names the flow that lookup returns from then on, if and only if the path
      does not run out of rings; if it does, the word is an error code that passes for a flow. */
  lemma FlowWordIff(t: Table, da: Mac, prio: nat, ifidx: nat, itemOk: bool, allocOk: bool)
    requires Linked(t) && prio < 8 && ifidx < MAX_IFS
    ensures var w := FlowWord(t, da, prio, ifidx, itemOk, allocOk);
      var t' := Step(t, Transmit(da, prio, ifidx, itemOk, allocOk));
      && (w == INVALID_ID || Live(t', w) <==> !OutOfRings(t, da, prio, ifidx, itemOk, allocOk))
      && (Live(t', w) ==> Lookup(t', da, prio, ifidx) == Some(w))
      && (w == INVALID_ID ==> Lookup(t, da, prio, ifidx).None? && (!itemOk || !HasFreeSlot(t)))
      && (!Live(t', w) ==> t' == t && (w == INVALID_ID || w == MINUS_ENOMEM))
  {
    LookupFindsLiveMatch(t, da, prio, ifidx);
    if Lookup(t, da, prio, ifidx).None? {
      CreateIsFound(t, da, prio, ifidx, allocOk);
      CreateOutcome(t, da, prio, ifidx, allocOk);
      hide Lookup, Create, Linked;
    }
  }

  lemma CreateOutcome(t: Table, da: Mac, prio: nat, ifidx: nat, allocOk: bool)
    requires Shape(t) && prio < 8 && ifidx < MAX_IFS
    ensures var r := Create(t, da, prio, ifidx, allocOk).1;
      && (r.TableFull? <==> !HasFreeSlot(t))
      && (r.NoMemory? <==> HasFreeSlot(t) && (AllRingsUsed(t) || !allocOk))
  {
    var home := Home(Resolve(t, da, prio, ifidx));
    if h :| 0 <= h < |t.hash| && Free(t.hash[h]) { ProbeComplete(t.hash, home, 0, IsFree, h); }
    var i := FirstNull(t.rings, 0);
    if i < |t.rings| { assert t.rings[i].None?; }
  }

  /** It happens: with its only ring in use, the next flow gets 0xfffffff4, whose low half, the index
      the packet is queued at, names no ring. */
  lemma ErrorPassesForFlow(da: Mac, prio: nat)
    requires prio < 8
    ensures var t := Step(Attach(1), Transmit(da, prio, 0, true, true));
      && Linked(t)
      && FlowWord(t, da, prio, 1, true, true) == MINUS_ENOMEM != INVALID_ID
      && MINUS_ENOMEM % 0x1_0000 == 0xfff4 && !Live(t, 0xfff4)
  {
    hide Create, Lookup, Probe, Linked, FlowWord, Step, Attach;
    FirstFlow(da, prio);
    OneRingUsed(Attach(1), da, prio);
    var t := Create(Attach(1), da, prio, 0, true).0;
    NoMoreFlows(t, da, prio);
  }

  lemma FirstFlow(da: Mac, prio: nat)
    requires prio < 8
    ensures Shape(Attach(1)) && |Attach(1).rings| == 1 && forall h :: 0 <= h < HASH_SIZE ==> Free(Attach(1).hash[h])
    ensures Create(Attach(1), da, prio, 0, true).1.NewFlow? && Linked(Create(Attach(1), da, prio, 0, true).0)
    ensures Step(Attach(1), Transmit(da, prio, 0, true, true)) == Create(Attach(1), da, prio, 0, true).0
  {
    var t0 := Attach(1);
    LookupFindsLiveMatch(t0, da, prio, 0);
    CreateOutcome(t0, da, prio, 0, true);
    CreateKeepsLinked(t0, da, prio, 0, true);
    hide Create, Lookup, Probe;
    assert Free(t0.hash[0]) && t0.rings[0].None?;
  }

  lemma NoMoreFlows(t: Table, da: Mac, prio: nat)
    requires Linked(t) && prio < 8 && |t.rings| == 1 && AllRingsUsed(t) && HasFreeSlot(t)
    requires forall h :: 0 <= h < HASH_SIZE && !Free(t.hash[h]) ==> t.hash[h].ifidx == 0
    ensures FlowWord(t, da, prio, 1, true, true) == MINUS_ENOMEM && !Live(t, 0xfff4)
  {
    LookupFindsLiveMatch(t, da, prio, 1);
    CreateOutcome(t, da, prio, 1, true);
    hide Create, Lookup, Probe, Linked;
  }

  lemma OneRingUsed(t: Table, da: Mac, prio: nat)
    requires Shape(t) && |t.rings| == 1 && prio < 8 && (forall h :: 0 <= h < HASH_SIZE ==> Free(t.hash[h]))
    requires Create(t, da, prio, 0, true).1.NewFlow?
    ensures var t' := Create(t, da, prio, 0, true).0;
      && |t'.rings| == 1 && AllRingsUsed(t') && HasFreeSlot(t')
      && forall h :: 0 <= h < HASH_SIZE && !Free(t'.hash[h]) ==> t'.hash[h].ifidx == 0
  {
    var t' := Create(t, da, prio, 0, true).0;
    var hid := t'.rings[0].value.hashId;
    var other := if hid == 0 then 1 else 0;
    assert Free(t'.hash[other]);
  }

  // ----- flow control

  /** No interface is stopped without cause. */
  ghost predicate Justified(t: Table)
    requires Linked(t)
  {
    forall i :: 0 <= i < MAX_IFS && t.stop[i] ==> exists f :: Holds(t, i, f)
  }

  /** Each stop bit is set exactly when some ring of the interface is blocked. */
  ghost predicate Exact(t: Table)
    requires Linked(t)
  {
    forall i :: 0 <= i < MAX_IFS ==> (t.stop[i] <==> exists f :: Holds(t, i, f))
  }

  /** The one situation in which releasing ring `f` drops a stop bit that is still needed: only
      rings that are blocked but not open remain on its interface. */
  ghost predicate ReleasesTooMuch(t: Table, f: nat)
    requires Linked(t) && Live(t, f)
  {
    && t.rings[f].value.blocked
    && (exists i :: i != f && Holds(t, Iface(t, f), i))
    && !(exists i :: OtherOpenHolder(t, f, i))
  }

  lemma BlockFrame(t: Table, f: nat, b: bool)
    requires Linked(t) && Live(t, f)
    ensures var t' := Block(t, f, b);
      && Linked(t')
      && (forall i, j :: 0 <= i < MAX_IFS && j != f ==> (Holds(t', i, j) <==> Holds(t, i, j)))
      && (forall i :: 0 <= i < MAX_IFS ==> (Holds(t', i, f) <==> b && i == Iface(t, f)))
      && (forall i :: 0 <= i < MAX_IFS && i != Iface(t, f) ==> t'.stop[i] == t.stop[i])
  {
    RefillKeepsLinked(t, Block(t, f, b));
  }

  /** Setting or releasing a block keeps stop bits justified, always. */
  lemma BlockKeepsJustified(t: Table, f: nat, b: bool)
    requires Linked(t) && Live(t, f) && Justified(t)
    ensures Linked(Block(t, f, b)) && Justified(Block(t, f, b))
  {
    BlockFrame(t, f, b);
    var t' := Block(t, f, b);
    var own := Iface(t, f);
    forall i | 0 <= i < MAX_IFS && t'.stop[i] ensures exists g :: Holds(t', i, g) {
      if i != own {
        var g :| Holds(t, i, g);
        assert g != f && Holds(t', i, g);
      } else if b {
        assert Holds(t', i, f);
      } else if t.rings[f].value.blocked {
        var g :| 0 <= g < |t.rings| && OtherOpenHolder(t, f, g);
        assert Holds(t', i, g);
      } else {
        assert t' == t;
      }
    }
  }

  /** It keeps them exact precisely when it is not a release that drops too much. */
  lemma BlockKeepsExactIff(t: Table, f: nat, b: bool)
    requires Linked(t) && Live(t, f) && Exact(t)
    ensures Linked(Block(t, f, b))
    ensures Exact(Block(t, f, b)) <==> b || !ReleasesTooMuch(t, f)
  {
    BlockFrame(t, f, b);
    BlockKeepsJustified(t, f, b);
    var t' := Block(t, f, b);
    var own := Iface(t, f);
    if !b && ReleasesTooMuch(t, f) {
      var g :| g != f && Holds(t, own, g);
      assert Holds(t', own, g) && !t'.stop[own];
    } else {
      forall i, g | 0 <= i < MAX_IFS && Holds(t', i, g) ensures t'.stop[i] {
        if g != f {
          assert Holds(t, i, g) && t.stop[i];
          assert i == own && !b && t.rings[f].value.blocked ==> exists j :: OtherOpenHolder(t, f, j);
        } else if t.rings[f].value.blocked {
          assert t' == t;
        } else if i0 :| 0 <= i0 < |t.rings| && OtherOpenHolder(t, f, i0) {
          assert Holds(t, own, i0);
        }
      }
    }
  }

  /** A step that leaves the index, the stop bits and the blocked flags alone. */
  lemma QuietStep(t: Table, t': Table)
    requires Linked(t) && SameIndex(t, t') && t'.stop == t.stop
    requires forall i :: 0 <= i < |t.rings| && t.rings[i].Some? ==>
               t'.rings[i].value.blocked == t.rings[i].value.blocked
    ensures Linked(t')
    ensures forall i, g :: 0 <= i < MAX_IFS ==> (Holds(t', i, g) <==> Holds(t, i, g))
    ensures Justified(t) ==> Justified(t')
    ensures Exact(t) ==> Exact(t')
  {
    RefillKeepsLinked(t, t');
    assert forall i, g :: 0 <= i < MAX_IFS ==> (Holds(t', i, g) <==> Holds(t, i, g));
  }

  /** The table of an enqueue or a dequeue before the block decision. */
  function Refilled(t: Table, f: nat, q: seq<Skb>): (t': Table)
    requires Shape(t) && Live(t, f)
    ensures Shape(t') && Live(t', f)
  {
    Put(t, f, t.rings[f].value.(queue := q))
  }

  lemma CreateKeepsStops(t: Table, da: Mac, prio: nat, ifidx: nat, allocOk: bool)
    requires Linked(t) && prio < 8 && ifidx < MAX_IFS
    ensures var t' := Create(t, da, prio, ifidx, allocOk).0;
      && Linked(t') && t'.stop == t.stop
      && forall i, g :: 0 <= i < MAX_IFS ==> (Holds(t', i, g) <==> Holds(t, i, g))
  {
    CreateKeepsLinked(t, da, prio, ifidx, allocOk);
    var (t', r) := Create(t, da, prio, ifidx, allocOk);
    forall i, g | 0 <= i < MAX_IFS ensures Holds(t', i, g) <==> Holds(t, i, g) {
      if Live(t, g) { assert RingOk(t, g); }
    }
  }

  lemma DeleteStops(t: Table, f: nat)
    requires Linked(t) && Live(t, f)
    ensures Linked(Delete(t, f)) && Linked(Block(t, f, false))
    ensures var t1 := Block(t, f, false); var t' := Delete(t, f);
      t'.stop == t1.stop && forall i, g :: 0 <= i < MAX_IFS ==> (Holds(t', i, g) <==> Holds(t1, i, g))
  {
    DeleteKeepsLinked(t, f);
    BlockFrame(t, f, false);
    var t1, t' := Block(t, f, false), Delete(t, f);
    assert RingOk(t, f);
    forall i, g | 0 <= i < MAX_IFS ensures Holds(t', i, g) <==> Holds(t1, i, g) {
      if Live(t1, g) && g != f { assert RingOk(t1, g) && RingOk(t1, f); }
    }
  }

  lemma StepKeepsJustified(t: Table, e: Event)
    requires Linked(t) && ValidEvent(e) && Justified(t)
    ensures Linked(Step(t, e)) && Justified(Step(t, e))
  {
    StepKeepsLinked(t, e);
    match e
    case Transmit(da, prio, ifidx, _, allocOk) => CreateKeepsStops(t, da, prio, ifidx, allocOk);
    case Remove(f) => if Live(t, f) { DeleteStops(t, f); BlockKeepsJustified(t, f, false); }
    case Push(f, skb) => if Live(t, f) {
      var t1 := Refilled(t, f, t.rings[f].value.queue + [skb]);
      QuietStep(t, t1);
      BlockKeepsJustified(t1, f, true);
    }
    case Pop(f) => DequeueKeepsJustified(t, f);
    case Requeue(f) =>
      DequeueKeepsJustified(t, f);
      if Live(t, f) { QuietStep(Dequeue(t, f).0, Step(t, e)); }
    case _ => QuietStep(t, Step(t, e));
  }

  lemma DequeueKeepsJustified(t: Table, f: nat)
    requires Linked(t) && Justified(t)
    ensures Live(t, f) ==> Linked(Dequeue(t, f).0) && Justified(Dequeue(t, f).0)
  {
    if Live(t, f) {
      var q := t.rings[f].value.queue;
      var t1 := Refilled(t, f, if q == [] then [] else q[1..]);
      QuietStep(t, t1);
      BlockKeepsJustified(t1, f, false);
    }
  }

  /** In every run whatsoever, a stopped interface has a blocked ring. */
  lemma {:induction false} StopsAreJustified(t: Table, es: seq<Event>)
    requires Linked(t) && Justified(t) && ValidRun(es)
    ensures Justified(Run(t, es))
    decreases |es|
  {
    if es != [] {
      StepKeepsJustified(t, es[0]);
      StopsAreJustified(Step(t, es[0]), es[1..]);
    }
  }

  // ----- exactly when the stop bits stay exact

  /** The step releases a ring and drops a stop bit that is still needed. */
  ghost predicate Drops(t: Table, e: Event)
    requires Linked(t)
  {
    match e
    case Remove(f) => Live(t, f) && ReleasesTooMuch(t, f)
    case Pop(f) => DequeueDrops(t, f)
    case Requeue(f) => DequeueDrops(t, f)
    case _ => false
  }

  /** The dequeue takes an open ring below the low mark. */
  ghost predicate DequeueDrops(t: Table, f: nat)
    requires Linked(t)
  {
    Live(t, f) && t.rings[f].value.status == Open && |t.rings[f].value.queue| <= LOW && ReleasesTooMuch(t, f)
  }

  lemma RefillReleases(t: Table, f: nat, q: seq<Skb>)
    requires Linked(t) && Live(t, f)
    ensures Linked(Refilled(t, f, q))
    ensures ReleasesTooMuch(Refilled(t, f, q), f) <==> ReleasesTooMuch(t, f)
    ensures Exact(t) ==> Exact(Refilled(t, f, q))
  {
    var t1 := Refilled(t, f, q);
    QuietStep(t, t1);
    hide Linked;
    RefillKeepsLinked(t, t1);
    assert forall i :: OtherOpenHolder(t1, f, i) <==> OtherOpenHolder(t, f, i);
  }

  lemma DequeueKeepsExactIff(t: Table, f: nat)
    requires Linked(t) && Exact(t) && Live(t, f)
    ensures Linked(Dequeue(t, f).0) && (Exact(Dequeue(t, f).0) <==> !DequeueDrops(t, f))
  {
    var q := t.rings[f].value.queue;
    var q' := if q == [] then [] else q[1..];
    RefillReleases(t, f, q');
    BlockKeepsExactIff(Refilled(t, f, q'), f, false);
    hide Linked, Exact, ReleasesTooMuch, Block;
  }

  lemma EnqueueKeepsExact(t: Table, f: nat, skb: Skb)
    requires Linked(t) && Exact(t) && Live(t, f)
    ensures Linked(Enqueue(t, f, skb)) && Exact(Enqueue(t, f, skb))
  {
    var q := t.rings[f].value.queue + [skb];
    RefillReleases(t, f, q);
    BlockKeepsExactIff(Refilled(t, f, q), f, true);
    hide Linked, Exact, ReleasesTooMuch, Block;
  }

  lemma DeleteKeepsExactIff(t: Table, f: nat)
    requires Linked(t) && Exact(t) && Live(t, f)
    ensures Linked(Delete(t, f)) && (Exact(Delete(t, f)) <==> !ReleasesTooMuch(t, f))
  {
    DeleteStops(t, f);
    BlockKeepsExactIff(t, f, false);
    hide Linked, ReleasesTooMuch, Block, Delete;
  }

  /** A step keeps the stop bits exact if and only if it does not drop one that is still needed. */
  lemma StepKeepsExactIff(t: Table, e: Event)
    requires Linked(t) && ValidEvent(e) && Exact(t)
    ensures Linked(Step(t, e)) && (Exact(Step(t, e)) <==> !Drops(t, e))
  {
    StepKeepsLinked(t, e);
    match e
    case Transmit(da, prio, ifidx, _, allocOk) => CreateKeepsStops(t, da, prio, ifidx, allocOk);
    case Remove(f) => if Live(t, f) { DeleteKeepsExactIff(t, f); }
    case Push(f, skb) => if Live(t, f) { EnqueueKeepsExact(t, f, skb); }
    case Pop(f) => if Live(t, f) { DequeueKeepsExactIff(t, f); }
    case Requeue(f) => if Live(t, f) { RequeueKeepsExactIff(t, f); }
    case _ => QuietStep(t, Step(t, e));
  }

  lemma RequeueKeepsExactIff(t: Table, f: nat)
    requires Linked(t) && Exact(t) && Live(t, f)
    ensures Linked(Step(t, Requeue(f))) && (Exact(Step(t, Requeue(f))) <==> !DequeueDrops(t, f))
  {
    DequeueKeepsExactIff(t, f);
    var t1, t' := Dequeue(t, f).0, Step(t, Requeue(f));
    hide Dequeue, DequeueDrops, Linked;
    QuietStep(t1, t');
    QuietStep(t', t1);
  }

  ghost predicate NeverDrops(t: Table, es: seq<Event>)
    requires Linked(t) && ValidRun(es)
    decreases |es|
  {
    es == [] ||
    (StepKeepsLinked(t, es[0]);
     !Drops(t, es[0]) && NeverDrops(Step(t, es[0]), es[1..]))
  }

  ghost predicate ExactThroughout(t: Table, es: seq<Event>)
    requires Linked(t) && ValidRun(es)
    decreases |es|
  {
    Exact(t) &&
    (es == [] ||
     (StepKeepsLinked(t, es[0]);
      ExactThroughout(Step(t, es[0]), es[1..])))
  }

  /** An interface is stopped exactly while one of its rings is blocked, all along a run, if and only
      if no step of the run drops a stop bit that is still needed. */
  lemma {:induction false} ExactThroughoutIff(t: Table, es: seq<Event>)
    requires Linked(t) && Exact(t) && ValidRun(es)
    ensures ExactThroughout(t, es) <==> NeverDrops(t, es)
    decreases |es|
  {
    if es != [] {
      StepKeepsExactIff(t, es[0]);
      hide Step, Linked, Drops;
      if Exact(Step(t, es[0])) { ExactThroughoutIff(Step(t, es[0]), es[1..]); }
    }
  }

  /** A ring that is not open may be filled up to the high mark, as the transmit path does with a ring
      it has just created, and a ring may be closed while it is not blocked. */
  predicate Careful(t: Table, e: Event) {
    match e
    case Push(f, _) => Live(t, f) ==> t.rings[f].value.status == Open || |t.rings[f].value.queue| < HIGH
    case CloseRing(f) => Live(t, f) ==> !t.rings[f].value.blocked
    case _ => true
  }

  ghost predicate Disciplined(t: Table, es: seq<Event>)
    requires Linked(t) && ValidRun(es)
    decreases |es|
  {
    es == [] ||
    (StepKeepsLinked(t, es[0]);
     Careful(t, es[0]) && Disciplined(Step(t, es[0]), es[1..]))
  }

  ghost predicate BlockedAreOpen(t: Table) {
    forall i :: 0 <= i < |t.rings| && t.rings[i].Some? && t.rings[i].value.blocked ==> t.rings[i].value.status == Open
  }

  lemma OpenReleasesEnough(t: Table, f: nat)
    requires Linked(t) && Live(t, f) && BlockedAreOpen(t)
    ensures !ReleasesTooMuch(t, f)
  {
    if ReleasesTooMuch(t, f) {
      var i :| i != f && Holds(t, Iface(t, f), i);
      assert OtherOpenHolder(t, f, i);
    }
  }

  lemma OpenNeverDrops(t: Table, e: Event)
    requires Linked(t) && BlockedAreOpen(t)
    ensures !Drops(t, e)
  {
    hide Linked, BlockedAreOpen, ReleasesTooMuch;
    if (e.Remove? || e.Pop? || e.Requeue?) && Live(t, e.f) { OpenReleasesEnough(t, e.f); }
  }

  lemma StepKeepsBlockedOpen(t: Table, e: Event)
    requires Linked(t) && ValidEvent(e) && BlockedAreOpen(t) && Careful(t, e)
    ensures BlockedAreOpen(Step(t, e))
  {
    match e
    case Push(f, skb) => if Live(t, f) { EnqueueKeepsBlockedOpen(t, f, skb); }
    case Pop(f) => if Live(t, f) { DequeueKeepsBlockedOpen(t, f); }
    case Requeue(f) => if Live(t, f) { DequeueKeepsBlockedOpen(t, f); }
    case Remove(f) => if Live(t, f) { BlockKeepsBlockedOpen(t, f, false); }
    case _ =>
  }

  lemma BlockKeepsBlockedOpen(t: Table, f: nat, b: bool)
    requires Linked(t) && Live(t, f) && BlockedAreOpen(t) && (b ==> t.rings[f].value.status == Open)
    ensures BlockedAreOpen(Block(t, f, b))
  {
    hide Linked;
  }

  lemma EnqueueKeepsBlockedOpen(t: Table, f: nat, skb: Skb)
    requires Linked(t) && Live(t, f) && BlockedAreOpen(t) && Careful(t, Push(f, skb))
    ensures BlockedAreOpen(Enqueue(t, f, skb))
  {
    var t1 := Refilled(t, f, t.rings[f].value.queue + [skb]);
    RefillKeepsLinked(t, t1);
    hide Linked, Block;
    if t.rings[f].value.status == Open { BlockKeepsBlockedOpen(t1, f, true); }
  }

  lemma DequeueKeepsBlockedOpen(t: Table, f: nat)
    requires Linked(t) && Live(t, f) && BlockedAreOpen(t)
    ensures BlockedAreOpen(Dequeue(t, f).0)
  {
    var q := t.rings[f].value.queue;
    var t1 := Refilled(t, f, if q == [] then [] else q[1..]);
    RefillKeepsLinked(t, t1);
    BlockKeepsBlockedOpen(t1, f, false);
    hide Linked, Block;
  }

  /** In every disciplined run an interface is stopped, at every moment, if and only if one of its
      rings is blocked. */
  lemma {:induction false} FlowControlConservation(t: Table, es: seq<Event>)
    requires Linked(t) && Exact(t) && BlockedAreOpen(t) && ValidRun(es) && Disciplined(t, es)
    ensures ExactThroughout(t, es) && Exact(Run(t, es)) && BlockedAreOpen(Run(t, es))
    decreases |es|
  {
    if es != [] {
      StepKeepsExactIff(t, es[0]);
      OpenNeverDrops(t, es[0]);
      StepKeepsBlockedOpen(t, es[0]);
      hide Step, Linked, Drops, Exact, BlockedAreOpen, Careful;
      FlowControlConservation(Step(t, es[0]), es[1..]);
    }
  }

  // ----- nothing is queued for a stopped interface

  /** The network stack hands over no packet while the interface is stopped. */
  ghost predicate Gated(t: Table, e: Event)
    requires Linked(t)
  {
    e.Push? && Live(t, e.f) ==> !t.stop[Iface(t, e.f)]
  }

  ghost predicate GatedRun(t: Table, es: seq<Event>)
    requires Linked(t) && ValidRun(es)
    decreases |es|
  {
    es == [] ||
    (StepKeepsLinked(t, es[0]);
     Gated(t, es[0]) && GatedRun(Step(t, es[0]), es[1..]))
  }

  /** At most one ring of each interface is blocked. */
  ghost predicate OneHolder(t: Table)
    requires Linked(t)
  {
    forall i, f, g :: Holds(t, i, f) && Holds(t, i, g) ==> f == g
  }

  lemma OneHolderNeverDrops(t: Table, e: Event)
    requires Linked(t) && OneHolder(t)
    ensures !Drops(t, e)
  {
    hide Linked;
    if (e.Remove? || e.Pop? || e.Requeue?) && Live(t, e.f) && t.rings[e.f].value.blocked {
      assert Holds(t, Iface(t, e.f), e.f);
    }
  }

  /** No ring comes to hold a stop bit. */
  lemma FewerHolders(t: Table, t': Table)
    requires Linked(t) && Linked(t') && OneHolder(t)
    requires forall i, g :: Holds(t', i, g) ==> Holds(t, i, g)
    ensures OneHolder(t')
  {
    hide Linked, Holds;
  }

  lemma HoldsRange(t: Table, i: nat, g: nat)
    requires Linked(t) && Holds(t, i, g)
    ensures i < MAX_IFS
  {
    hide Linked;
  }

  lemma BlockHolders(t: Table, f: nat, b: bool)
    requires Linked(t) && Live(t, f) && OneHolder(t)
    requires b ==> Exact(t) && !t.stop[Iface(t, f)]
    ensures Linked(Block(t, f, b)) && OneHolder(Block(t, f, b))
  {
    BlockFrame(t, f, b);
    var t', own := Block(t, f, b), Iface(t, f);
    hide Linked, Block;
    forall i, g, h | Holds(t', i, g) && Holds(t', i, h) ensures g == h {
      HoldsRange(t', i, g);
      if g != f { assert Holds(t, i, g); }
      if h != f { assert Holds(t, i, h); }
    }
  }

  lemma QuietHolders(t: Table, t': Table)
    requires Linked(t) && OneHolder(t) && SameIndex(t, t') && t'.stop == t.stop
    requires forall i :: 0 <= i < |t.rings| && t.rings[i].Some? ==>
               t'.rings[i].value.blocked == t.rings[i].value.blocked
    ensures Linked(t') && OneHolder(t')
  {
    QuietStep(t, t');
    hide Linked, SameIndex;
    forall i, g | Holds(t', i, g) ensures Holds(t, i, g) { HoldsRange(t', i, g); }
    FewerHolders(t, t');
  }

  lemma EnqueueHolders(t: Table, f: nat, skb: Skb)
    requires Linked(t) && Live(t, f) && OneHolder(t) && Exact(t) && !t.stop[Iface(t, f)]
    ensures Linked(Enqueue(t, f, skb)) && OneHolder(Enqueue(t, f, skb))
  {
    var t1 := Refilled(t, f, t.rings[f].value.queue + [skb]);
    QuietHolders(t, t1);
    QuietStep(t, t1);
    RefillKeepsLinked(t, t1);
    hide Linked, Exact, OneHolder, Block, OtherOpenHolder;
    BlockHolders(t1, f, true);
  }

  lemma DequeueHolders(t: Table, f: nat)
    requires Linked(t) && Live(t, f) && OneHolder(t)
    ensures Linked(Dequeue(t, f).0) && OneHolder(Dequeue(t, f).0)
  {
    var q := t.rings[f].value.queue;
    var t1 := Refilled(t, f, if q == [] then [] else q[1..]);
    QuietHolders(t, t1);
    hide Linked, OneHolder, Block, OtherOpenHolder;
    BlockHolders(t1, f, false);
  }

  lemma DeleteHolders(t: Table, f: nat)
    requires Linked(t) && Live(t, f) && OneHolder(t)
    ensures Linked(Delete(t, f)) && OneHolder(Delete(t, f))
  {
    DeleteStops(t, f);
    BlockHolders(t, f, false);
    var t1, t' := Block(t, f, false), Delete(t, f);
    hide Linked, Block, Delete, OneHolder;
    forall i, g | Holds(t', i, g) ensures Holds(t1, i, g) { HoldsRange(t', i, g); }
    FewerHolders(t1, t');
  }

  lemma StepKeepsOneHolder(t: Table, e: Event)
    requires Linked(t) && ValidEvent(e) && Exact(t) && OneHolder(t) && Gated(t, e)
    ensures Linked(Step(t, e)) && OneHolder(Step(t, e))
  {
    StepKeepsLinked(t, e);
    match e
    case Transmit(da, prio, ifidx, _, allocOk) =>
      CreateKeepsStops(t, da, prio, ifidx, allocOk);
      var t' := Create(t, da, prio, ifidx, allocOk).0;
      hide Linked, Create, Lookup;
      forall i, g | Holds(t', i, g) ensures Holds(t, i, g) { HoldsRange(t', i, g); }
      FewerHolders(t, t');
    case Remove(f) => if Live(t, f) { DeleteHolders(t, f); }
    case Push(f, skb) => if Live(t, f) { EnqueueHolders(t, f, skb); }
    case Pop(f) => if Live(t, f) { DequeueHolders(t, f); }
    case Requeue(f) => if Live(t, f) { RequeueHolders(t, f); }
    case _ => QuietHolders(t, Step(t, e));
  }

  lemma RequeueHolders(t: Table, f: nat)
    requires Linked(t) && Live(t, f) && OneHolder(t)
    ensures Linked(Step(t, Requeue(f))) && OneHolder(Step(t, Requeue(f)))
  {
    DequeueHolders(t, f);
    hide Dequeue, Linked, OneHolder;
    QuietHolders(Dequeue(t, f).0, Step(t, Requeue(f)));
  }

  /** In every run in which no packet is queued for a stopped interface, at most one ring of each is
      blocked, and an interface is stopped, at every moment, if and only if one of its rings is: with
      no condition on when rings are opened, closed or deleted. */
  lemma {:induction false} GatedConservation(t: Table, es: seq<Event>)
    requires Linked(t) && Exact(t) && OneHolder(t) && ValidRun(es) && GatedRun(t, es)
    ensures ExactThroughout(t, es) && Exact(Run(t, es)) && OneHolder(Run(t, es))
    decreases |es|
  {
    if es != [] {
      StepKeepsExactIff(t, es[0]);
      OneHolderNeverDrops(t, es[0]);
      StepKeepsOneHolder(t, es[0]);
      hide Step, Linked, Drops, Exact, OneHolder, Gated;
      GatedConservation(Step(t, es[0]), es[1..]);
    }
  }

  /** Attach starts such a run. */
  lemma AttachHasNoHolder(nrofrings: nat)
    requires nrofrings < 0x1_0000
    ensures Linked(Attach(nrofrings)) && Exact(Attach(nrofrings)) && OneHolder(Attach(nrofrings))
    ensures BlockedAreOpen(Attach(nrofrings))
  {}

  /** Without either discipline it fails: a ring blocked before it was opened is overlooked when its
      neighbour on the same interface is released. */
  lemma UndisciplinedStopIsLost(t: Table, f: nat, g: nat)
    requires Linked(t) && Exact(t) && f != g && Live(t, f) && Live(t, g) && Iface(t, f) == Iface(t, g)
    requires t.rings[f].value.blocked && t.rings[g].value.blocked && t.rings[g].value.status != Open
    requires forall i: nat :: Live(t, i) && i != f && i != g ==> !t.rings[i].value.blocked
    ensures Linked(Block(t, f, false)) && !Exact(Block(t, f, false))
    ensures !Block(t, f, false).stop[Iface(t, f)]
  {
    assert Holds(t, Iface(t, f), g);
    BlockKeepsExactIff(t, f, false);
  }

  // ----- a run that loses a stop bit

  const PEER: Mac := [2, 0, 0, 0, 0, 1]

  /** Two flows of interface 0, in fifos 0 and 1. */
  function Two(r0: Ring, r1: Ring, stop: bool): (t: Table)
    ensures Shape(t)
  {
    var t := Attach(2);
    t.(hash := t.hash[0 := Slot(PEER, 0, 0, 0)][1 := Slot(PEER, 1, 0, 1)],
       rings := [Some(r0), Some(r1)],
       stop := t.stop[0 := stop])
  }

  function Ring0(blocked: bool, n: nat): Ring { Ring(0, blocked, Open, seq(n, _ => 0)) }
  function Ring1(blocked: bool, n: nat): Ring { Ring(1, blocked, Closed, seq(n, _ => 0)) }

  lemma TwoIsLinked(r0: Ring, r1: Ring, stop: bool)
    requires r0.hashId == 0 && r1.hashId == 1
    ensures var t := Two(r0, r1, stop);
      && Linked(t) && Live(t, 0) && Live(t, 1) && (forall i: nat :: Live(t, i) ==> i < 2 && Iface(t, i) == 0)
  {
    var t := Two(r0, r1, stop);
    assert RingOk(t, 0) && RingOk(t, 1) && SlotOk(t, 0) && SlotOk(t, 1);
  }

  /** A ring that is blocked already, or stays within the high mark, just grows. */
  lemma TwoPush(r0: Ring, r1: Ring, stop: bool)
    requires r0.hashId == 0 && r1.hashId == 1
    ensures Linked(Two(r0, r1, stop))
    ensures r0.blocked || |r0.queue| < HIGH ==>
              Step(Two(r0, r1, stop), Push(0, 0)) == Two(r0.(queue := r0.queue + [0]), r1, stop)
    ensures r1.blocked || |r1.queue| < HIGH ==>
              Step(Two(r0, r1, stop), Push(1, 0)) == Two(r0, r1.(queue := r1.queue + [0]), stop)
  {
    TwoIsLinked(r0, r1, stop);
    hide Linked, Block;
  }

  /** Passing the high mark blocks the ring and stops the interface, if no open ring did before. */
  lemma TwoBlocks(r0: Ring, r1: Ring, stop: bool)
    requires r0.hashId == 0 && r1.hashId == 1
    ensures Linked(Two(r0, r1, stop))
    ensures !r0.blocked && |r0.queue| == HIGH && r1.status == Closed ==>
              Step(Two(r0, r1, stop), Push(0, 0)) == Two(r0.(queue := r0.queue + [0], blocked := true), r1, true)
    ensures !r1.blocked && |r1.queue| == HIGH && !r0.blocked ==>
              Step(Two(r0, r1, stop), Push(1, 0)) == Two(r0, r1.(queue := r1.queue + [0], blocked := true), true)
  {
    TwoIsLinked(r0, r1, stop);
    TwoIsLinked(r0.(queue := r0.queue + [0]), r1, stop);
    TwoIsLinked(r0, r1.(queue := r1.queue + [0]), stop);
    hide Linked, Iface;
  }

  lemma TwoPop(r0: Ring, r1: Ring, stop: bool)
    requires r0.hashId == 0 && r1.hashId == 1 && r0.status == Open && r0.queue != []
    ensures Linked(Two(r0, r1, stop))
    ensures |r0.queue| > LOW ==> Step(Two(r0, r1, stop), Pop(0)) == Two(r0.(queue := r0.queue[1..]), r1, stop)
    ensures |r0.queue| == LOW && r0.blocked && r1.status == Closed ==>
              Step(Two(r0, r1, stop), Pop(0)) == Two(r0.(queue := r0.queue[1..], blocked := false), r1, false)
  {
    TwoIsLinked(r0, r1, stop);
    TwoIsLinked(r0.(queue := r0.queue[1..]), r1, stop);
    hide Linked, Iface;
  }

  ghost predicate Reachable(nrofrings: nat, t: Table) {
    nrofrings < 0x1_0000 && Linked(t) && exists es :: ValidRun(es) && Run(Attach(nrofrings), es) == t
  }

  lemma {:induction false} RunAppend(t: Table, es: seq<Event>, e: Event)
    requires Linked(t) && ValidRun(es) && ValidEvent(e)
    ensures ValidRun(es + [e]) && Run(t, es + [e]) == Step(Run(t, es), e)
    decreases |es|
  {
    hide Step, Linked;
    if es == [] {
      assert es + [e] == [e];
      StepKeepsLinked(t, e);
      assert Run(Step(t, e), [e][1..]) == Step(t, e);
    } else {
      StepKeepsLinked(t, es[0]);
      RunAppend(Step(t, es[0]), es[1..], e);
      assert (es + [e])[1..] == es[1..] + [e];
    }
  }

  lemma ReachStep(n: nat, t: Table, e: Event)
    requires Reachable(n, t) && ValidEvent(e)
    ensures Reachable(n, Step(t, e))
  {
    var es :| ValidRun(es) && Run(Attach(n), es) == t;
    StepKeepsLinked(t, e);
    hide Step, Linked;
    RunAppend(Attach(n), es, e);
  }

  /** The first flow of interface 0 in its fifo takes its home slot, if that is free. */
  lemma CreatesAtHome(t: Table, prio: nat)
    requires Linked(t) && prio < 8 && t.addrMode[0] == Indirect && !t.tdlsActive
    requires FirstNull(t.rings, 0) < |t.rings| && Free(t.hash[PRIO_TO_FIFO[prio]])
    requires forall h :: 0 <= h < HASH_SIZE && !Free(t.hash[h]) ==> t.hash[h].fifo != PRIO_TO_FIFO[prio]
    ensures var fifo := PRIO_TO_FIFO[prio]; var i := FirstNull(t.rings, 0);
      Step(t, Transmit(PEER, prio, 0, true, true)) ==
      t.(hash := t.hash[fifo := Slot(PEER, fifo, 0, i)], rings := t.rings[i := Some(Ring(fifo, false, Closed, []))])
  {
    var q := Query(true, PEER, PRIO_TO_FIFO[prio], 0);
    LookupFindsLiveMatch(t, PEER, prio, 0);
    HomeOfFirst(t, prio);
    hide Linked, Lookup, Probe, Resolve, FirstNull;
  }

  lemma HomeOfFirst(t: Table, prio: nat)
    requires Shape(t) && prio < 8 && t.addrMode[0] == Indirect && !t.tdlsActive && Free(t.hash[PRIO_TO_FIFO[prio]])
    ensures var q := Query(true, PEER, PRIO_TO_FIFO[prio], 0);
      Resolve(t, PEER, prio, 0) == q && Probe(t.hash, Home(q), 0, IsFree) == Some(PRIO_TO_FIFO[prio])
  {
    hide Probe;
    ProbeNext(t.hash, PRIO_TO_FIFO[prio], 0, IsFree);
  }

  /** The table after the first flow. */
  function One(): (t: Table)
    ensures Shape(t) && FirstNull(t.rings, 0) == 1
  {
    var t := Attach(2).(hash := Attach(2).hash[0 := Slot(PEER, 0, 0, 0)],
                        rings := [Some(Ring(0, false, Closed, [])), None]);
    assert FirstNull(t.rings, 0) == FirstNull(t.rings, 1) == 1;
    t
  }

  lemma FirstCreated()
    ensures Reachable(2, One())
  {
    var t0, e := Attach(2), Transmit(PEER, 0, 0, true, true);
    assert ValidRun([]) && Run(t0, []) == t0;
    CreatesAtHome(t0, 0);
    ReachStep(2, t0, e);
    hide Step, Linked, Reachable;
    assert t0.rings[0 := Some(Ring(0, false, Closed, []))] == One().rings;
  }

  lemma SecondCreated()
    requires Reachable(2, One())
    ensures Reachable(2, Two(Ring(0, false, Closed, []), Ring1(false, 0), false))
  {
    var t1 := One();
    CreatesSecond();
    ReachStep(2, t1, Transmit(PEER, 1, 0, true, true));
    SecondIsTwo(Attach(2), Slot(PEER, 0, 0, 0), Slot(PEER, 1, 0, 1), Ring(0, false, Closed, []), Ring1(false, 0));
    hide Step, Reachable;
  }

  lemma CreatesSecond()
    requires Linked(One())
    ensures var t1 := One();
      Step(t1, Transmit(PEER, 1, 0, true, true)) ==
      t1.(hash := t1.hash[1 := Slot(PEER, 1, 0, 1)], rings := t1.rings[1 := Some(Ring(1, false, Closed, []))])
  {
    CreatesAtHome(One(), 1);
    hide Step, Linked;
  }

  lemma SecondIsTwo(t: Table, a: Slot, b: Slot, r0: Ring, r1: Ring)
    requires Shape(t) && !t.stop[0]
    ensures var t1 := t.(hash := t.hash[0 := a], rings := [Some(r0), None]);
      t1.(hash := t1.hash[1 := b], rings := t1.rings[1 := Some(r1)]) ==
      t.(hash := t.hash[0 := a][1 := b], rings := [Some(r0), Some(r1)], stop := t.stop[0 := false])
  {
    assert t.stop[0 := false] == t.stop;
  }

  lemma TwoOpen(r0: Ring, r1: Ring, stop: bool)
    requires r0.hashId == 0 && r1.hashId == 1
    ensures Linked(Two(r0, r1, stop))
    ensures Step(Two(r0, r1, stop), OpenRing(0)) == Two(r0.(status := Open), r1, stop)
  {
    TwoIsLinked(r0, r1, stop);
    hide Linked;
  }

  lemma Opened()
    ensures Reachable(2, Two(Ring0(false, 0), Ring1(false, 0), false))
  {
    hide Step, Two, Reachable;
    FirstCreated();
    SecondCreated();
    var r0 := Ring(0, false, Closed, []);
    assert Ring0(false, 0) == r0.(status := Open);
    TwoOpen(r0, Ring1(false, 0), false);
    ReachStep(2, Two(r0, Ring1(false, 0), false), OpenRing(0));
  }

  lemma QueueSizes(n: nat)
    ensures Ring0(false, n).queue + [0] == Ring0(false, n + 1).queue
    ensures Ring1(false, n).queue + [0] == Ring1(false, n + 1).queue
    ensures Ring0(true, n + 1).queue[1..] == Ring0(true, n).queue
  {}

  lemma {:induction false} FillRing1(n: nat)
    requires n <= HIGH
    ensures Reachable(2, Two(Ring0(false, 0), Ring1(false, n), false))
  {
    hide Two, Reachable, Step;
    if n == 0 {
      Opened();
    } else {
      FillRing1(n - 1);
      QueueSizes(n - 1);
      TwoPush(Ring0(false, 0), Ring1(false, n - 1), false);
      ReachStep(2, Two(Ring0(false, 0), Ring1(false, n - 1), false), Push(1, 0));
    }
  }

  lemma {:induction false} FillRing0(n: nat)
    requires n <= HIGH
    ensures Reachable(2, Two(Ring0(false, n), Ring1(true, HIGH + 1), true))
  {
    hide Two, Reachable, Step;
    if n == 0 {
      FillRing1(HIGH);
      QueueSizes(HIGH);
      TwoBlocks(Ring0(false, 0), Ring1(false, HIGH), false);
      ReachStep(2, Two(Ring0(false, 0), Ring1(false, HIGH), false), Push(1, 0));
    } else {
      FillRing0(n - 1);
      QueueSizes(n - 1);
      TwoPush(Ring0(false, n - 1), Ring1(true, HIGH + 1), true);
      ReachStep(2, Two(Ring0(false, n - 1), Ring1(true, HIGH + 1), true), Push(0, 0));
    }
  }

  lemma {:induction false} DrainRing0(n: nat)
    requires LOW <= n <= HIGH + 1
    ensures Reachable(2, Two(Ring0(true, n), Ring1(true, HIGH + 1), true))
    decreases HIGH + 1 - n
  {
    hide Two, Reachable, Step;
    if n == HIGH + 1 {
      FillRing0(HIGH);
      QueueSizes(HIGH);
      TwoBlocks(Ring0(false, HIGH), Ring1(true, HIGH + 1), true);
      ReachStep(2, Two(Ring0(false, HIGH), Ring1(true, HIGH + 1), true), Push(0, 0));
    } else {
      DrainRing0(n + 1);
      QueueSizes(n);
      TwoPop(Ring0(true, n + 1), Ring1(true, HIGH + 1), true);
      ReachStep(2, Two(Ring0(true, n + 1), Ring1(true, HIGH + 1), true), Pop(0));
    }
  }

  /** Both flows of the interface have filled up, one of them before its ring was opened, and the other
      although the interface was stopped by then: its queue has been woken, as the driver does whenever
      the bus comes up (core.c:1572-1580). */
  function Overlooked(): Table { Two(Ring0(true, LOW), Ring1(true, HIGH + 1), true) }

  /** Some run from attach gets there, and one packet taken from the open ring then releases the
      interface although the other ring is still blocked. */
  lemma OverlookedRingLosesStop()
    ensures Reachable(2, Overlooked()) && Linked(Overlooked()) && Exact(Overlooked())
    ensures var t' := Step(Overlooked(), Pop(0)); Reachable(2, t') && Linked(t') && !t'.stop[0] && Holds(t', 0, 1)
  {
    DrainRing0(LOW);
    TwoIsLinked(Ring0(true, LOW), Ring1(true, HIGH + 1), true);
    ReachStep(2, Overlooked(), Pop(0));
    TwoPop(Ring0(true, LOW), Ring1(true, HIGH + 1), true);
    var r0 := Ring0(true, LOW);
    TwoIsLinked(r0.(queue := r0.queue[1..], blocked := false), Ring1(true, HIGH + 1), false);
    hide Linked, Iface, Step, Reachable;
    assert Holds(Overlooked(), 0, 0);
  }

  // ----- watermarks

  predicate WithinMarks(r: Ring) {
    if r.blocked then |r.queue| >= LOW else |r.queue| <= HIGH
  }

  ghost predicate AllWithinMarks(t: Table) {
    forall i :: 0 <= i < |t.rings| && t.rings[i].Some? ==> WithinMarks(t.rings[i].value)
  }

  /** In every run, also an undisciplined one, a blocked ring holds at least 768 packets and an
      unblocked one at most 1024. */
  lemma {:induction false} QueuesStayWithinMarks(t: Table, es: seq<Event>)
    requires Linked(t) && AllWithinMarks(t) && ValidRun(es)
    ensures AllWithinMarks(Run(t, es))
    decreases |es|
  {
    if es != [] {
      StepKeepsLinked(t, es[0]);
      StepKeepsMarks(t, es[0]);
      QueuesStayWithinMarks(Step(t, es[0]), es[1..]);
    }
  }

  lemma StepKeepsMarks(t: Table, e: Event)
    requires Linked(t) && AllWithinMarks(t) && ValidEvent(e)
    ensures AllWithinMarks(Step(t, e))
  {
    hide Linked;
    match e
    case Push(f, skb) => if Live(t, f) { EnqueueMarks(t, f, skb); }
    case Pop(f) => if Live(t, f) { DequeueMarks(t, f); }
    case Requeue(f) => if Live(t, f) { RequeueMarks(t, f); }
    case Remove(f) => if Live(t, f) { DeleteMarks(t, f); }
    case _ =>
  }

  lemma DeleteMarks(t: Table, f: nat)
    requires Linked(t) && AllWithinMarks(t) && Live(t, f)
    ensures AllWithinMarks(Delete(t, f))
  {
    var t' := Delete(t, f);
    assert forall i :: 0 <= i < |t.rings| && i != f ==> t'.rings[i] == t.rings[i];
  }

  lemma EnqueueMarks(t: Table, f: nat, skb: Skb)
    requires Linked(t) && AllWithinMarks(t) && Live(t, f)
    ensures AllWithinMarks(Enqueue(t, f, skb))
  {
    RefillKeepsLinked(t, Refilled(t, f, t.rings[f].value.queue + [skb]));
    hide Linked, OtherOpenHolder;
  }

  lemma RequeueMarks(t: Table, f: nat)
    requires Linked(t) && AllWithinMarks(t) && Live(t, f)
    ensures AllWithinMarks(Step(t, Requeue(f)))
  {
    DequeueMarks(t, f);
    hide Linked, Dequeue;
  }

  lemma DequeueMarks(t: Table, f: nat)
    requires Linked(t) && AllWithinMarks(t) && Live(t, f)
    ensures var (t', skb) := Dequeue(t, f);
      && AllWithinMarks(t') && |t'.rings| == |t.rings|
      && (skb.Some? ==> [skb.value] + t'.rings[f].value.queue == t.rings[f].value.queue)
      && (skb.Some? && !t'.rings[f].value.blocked ==> |t'.rings[f].value.queue| < HIGH)
  {
    var q := t.rings[f].value.queue;
    RefillKeepsLinked(t, Refilled(t, f, if q == [] then [] else q[1..]));
  }

  // ----- packets

  function QueueOf(t: Table, f: nat): seq<Skb>
    requires Live(t, f)
  {
    t.rings[f].value.queue
  }

  function PushedBy(e: Event, f: nat): seq<Skb> { if e.Push? && e.f == f then [e.skb] else [] }

  /** What a step hands to the transmitter from ring `f`; a packet put straight back is not handed on. */
  function PoppedBy(t: Table, e: Event, f: nat): seq<Skb>
    requires Linked(t)
  {
    if e == Pop(f) && Live(t, f) && Dequeue(t, f).1.Some? then [Dequeue(t, f).1.value] else []
  }

  lemma BlockKeepsQueues(t: Table, f: nat, b: bool, g: nat)
    requires Linked(t) && Live(t, f) && Live(t, g)
    ensures var t' := Block(t, f, b); Live(t', g) && QueueOf(t', g) == QueueOf(t, g) && t'.dropped == t.dropped
  {
    hide Linked;
  }

  lemma EnqueueQueues(t: Table, f: nat, skb: Skb, g: nat)
    requires Linked(t) && Live(t, f) && Live(t, g)
    ensures var t' := Enqueue(t, f, skb);
      Live(t', g) && QueueOf(t', g) == QueueOf(t, g) + (if g == f then [skb] else []) && t'.dropped == t.dropped
  {
    var t1 := Refilled(t, f, QueueOf(t, f) + [skb]);
    RefillKeepsLinked(t, t1);
    BlockKeepsQueues(t1, f, true, g);
    hide Linked, Block, OtherOpenHolder;
  }

  lemma DequeueQueues(t: Table, f: nat, g: nat)
    requires Linked(t) && Live(t, f) && Live(t, g)
    ensures var (t', skb) := Dequeue(t, f);
      && Live(t', g) && t'.dropped == t.dropped
      && QueueOf(t, g) == (if g == f && skb.Some? then [skb.value] else []) + QueueOf(t', g)
  {
    var q := QueueOf(t, f);
    var t1 := Refilled(t, f, if q == [] then [] else q[1..]);
    RefillKeepsLinked(t, t1);
    BlockKeepsQueues(t1, f, false, g);
    hide Linked, Block, OtherOpenHolder;
  }

  lemma DeleteQueues(t: Table, f: nat, g: nat)
    requires Linked(t) && Live(t, g)
    ensures var t' := Delete(t, f);
      && t'.dropped == t.dropped + (if Live(t, f) then QueueOf(t, f) else [])
      && (if g == f then !Live(t', g) else Live(t', g) && QueueOf(t', g) == QueueOf(t, g))
  {
    if Live(t, f) {
      BlockKeepsQueues(t, f, false, g);
      BlockKeepsQueues(t, f, false, f);
      assert RingOk(t, f);
      hide Block, OtherOpenHolder;
    }
  }

  lemma CreateQueues(t: Table, da: Mac, prio: nat, ifidx: nat, allocOk: bool, f: nat)
    requires Shape(t) && prio < 8 && ifidx < MAX_IFS && Live(t, f)
    ensures var t' := Create(t, da, prio, ifidx, allocOk).0; Live(t', f) && QueueOf(t', f) == QueueOf(t, f)
  {}

  lemma RequeueQueues(t: Table, f: nat, g: nat)
    requires Linked(t) && Live(t, f) && Live(t, g)
    ensures var t' := Step(t, Requeue(f)); Live(t', g) && QueueOf(t', g) == QueueOf(t, g)
  {
    DequeueQueues(t, f, g);
    DequeueQueues(t, f, f);
    hide Dequeue, Linked;
  }

  /** One step: whatever it does elsewhere, ring `f` loses at its head what is handed on and gains at
      its tail what is pushed; only its deletion drops packets, and then all of them in order. */
  lemma StepQueue(t: Table, e: Event, f: nat)
    requires Linked(t) && ValidEvent(e) && Live(t, f)
    ensures var t' := Step(t, e);
      if e == Remove(f) then !Live(t', f) && t'.dropped == t.dropped + QueueOf(t, f)
      else Live(t', f) && QueueOf(t, f) + PushedBy(e, f) == PoppedBy(t, e, f) + QueueOf(t', f)
  {
    hide Create, Lookup, Enqueue, Dequeue, Delete;
    match e
    case Transmit(da, prio, ifidx, _, allocOk) => CreateQueues(t, da, prio, ifidx, allocOk, f);
    case Push(g, skb) => if Live(t, g) { EnqueueQueues(t, g, skb, f); }
    case Pop(g) => if Live(t, g) { DequeueQueues(t, g, f); }
    case Requeue(g) => if Live(t, g) { RequeueQueues(t, g, f); }
    case Remove(g) => DeleteQueues(t, g, f);
    case _ =>
  }

  function Pushed(es: seq<Event>, f: nat): seq<Skb>
    decreases |es|
  {
    if es == [] then [] else PushedBy(es[0], f) + Pushed(es[1..], f)
  }

  ghost function Popped(t: Table, es: seq<Event>, f: nat): seq<Skb>
    requires Linked(t) && ValidRun(es)
    decreases |es|
  {
    if es == [] then []
    else
      StepKeepsLinked(t, es[0]);
      PoppedBy(t, es[0], f) + Popped(Step(t, es[0]), es[1..], f)
  }

  /** In every run that keeps the flow, its packets leave in the order they came, and none is lost,
      duplicated or taken from another flow. */
  lemma {:induction false} PacketsInOrder(t: Table, es: seq<Event>, f: nat)
    requires Linked(t) && ValidRun(es) && Live(t, f) && Remove(f) !in es
    ensures var t' := Run(t, es);
      Live(t', f) && QueueOf(t, f) + Pushed(es, f) == Popped(t, es, f) + QueueOf(t', f)
    decreases |es|
  {
    if es != [] {
      var e, rest := es[0], es[1..];
      StepKeepsLinked(t, e);
      StepQueue(t, e, f);
      var t1 := Step(t, e);
      PacketsInOrder(t1, rest, f);
      hide Step, Linked, PoppedBy, PushedBy;
      var q, q1, q' := QueueOf(t, f), QueueOf(t1, f), QueueOf(Run(t1, rest), f);
      Chain(q, PushedBy(e, f), Pushed(rest, f), PoppedBy(t, e, f), Popped(t1, rest, f), q1, q');
    }
  }

  lemma Chain(q: seq<Skb>, a: seq<Skb>, b: seq<Skb>, x: seq<Skb>, y: seq<Skb>, q1: seq<Skb>, q': seq<Skb>)
    requires q + a == x + q1 && q1 + b == y + q'
    ensures q + (a + b) == x + y + q'
  {
    assert q + (a + b) == q + a + b;
    assert x + q1 + b == x + (q1 + b);
    assert x + (y + q') == x + y + q';
  }
}
