/** The in-place operations of wifi-bcm4350/src/flowring.c, each proved to act on the table's view
    as the function of the same name in module FlowRing does. */
module FlowTables {
  import opened Basics
  import opened FlowRing

  /** What becomes of a packet: turned down, queued, or sent to a ring that does not exist. */
  datatype Queued = Rejected | QueuedAt(f: nat) | NoSuchRing(index: nat)

  class FlowTable {
    const hash: array<Slot>
    const rings: array<Option<Ring>>
    var addrMode: seq<AddrMode>
    var tdlsActive: bool
    var tdls: seq<Mac>
    var stop: seq<bool>
    var dropped: seq<Skb>

    ghost function View(): (t: Table)
      reads this, hash, rings
    {
      Table(hash[..], rings[..], addrMode, tdlsActive, tdls, stop, dropped)
    }

    ghost predicate Valid()
      reads this, hash, rings
    {
      Linked(View())
    }

    constructor (nrofrings: nat)
      requires nrofrings < 0x1_0000
      ensures Valid() && fresh(hash) && fresh(rings)
      ensures View() == Attach(nrofrings)
    {
      hash := new Slot[HASH_SIZE](_ => Slot(ZERO_MAC, 0, INVALID_IFIDX, 0));
      rings := new Option<Ring>[nrofrings](_ => None);
      addrMode := seq(MAX_IFS, _ => Indirect);
      tdlsActive, tdls := false, [];
      stop := seq(MAX_IFS, _ => false);
      dropped := [];
      new;
      assert hash[..] == Attach(nrofrings).hash;
      assert rings[..] == Attach(nrofrings).rings;
    }

    method IsTdlsMac(mac: Mac) returns (found: bool)
      ensures found == (mac in tdls)
    {
      var i := 0;
      while i < |tdls|
        invariant 0 <= i <= |tdls| && mac !in tdls[..i]
      {
        if tdls[i] == mac { return true; }
        i := i + 1;
      }
      return false;
    }

    /** The addressing prologue that lookup and create share. */
    method Address(da: Mac, prio: nat, ifidx: nat) returns (q: Query)
      requires Valid() && prio < 8 && ifidx < MAX_IFS
      ensures q == Resolve(View(), da, prio, ifidx)
    {
      var fifo := PRIO_TO_FIFO[prio];
      var sta := addrMode[ifidx] == Indirect;
      var mac := da;
      if !sta && Multicast(da) {
        mac := ALL_FF_MAC;
        fifo := 0;
      }
      if sta && tdlsActive {
        var peer := IsTdlsMac(da);
        if peer { sta := false; }
      }
      q := Query(sta, mac, fifo, ifidx);
    }

    method FindSlot(home: nat, test: Test) returns (r: Option<nat>)
      requires Shape(View()) && home < HASH_SIZE
      ensures r == Probe(hash[..], home, 0, test)
    {
      ghost var slots := hash[..];
      assert |slots| == HASH_SIZE;
      hide *;
      ProbeNext(slots, home, 0, test);
      var hashIdx := home;
      for i := 0 to HASH_SIZE
        invariant hashIdx == Cyclic(home, i) && |slots| == HASH_SIZE && slots == hash[..]
        invariant Probe(slots, home, 0, test) == Probe(slots, home, i, test)
      {
        assert hash[hashIdx] == slots[hashIdx];
        ProbeNext(slots, home, i, test);
        if Passes(test, hash[hashIdx]) { return Some(hashIdx); }
        hashIdx := (hashIdx + 1) % HASH_SIZE;
      }
      ProbeNext(slots, home, HASH_SIZE, test);
      return None;
    }

    /** Returns a flow exactly when a live slot matches the query. */
    method LookupFlow(da: Mac, prio: nat, ifidx: nat) returns (r: Option<nat>)
      requires Valid() && prio < 8 && ifidx < MAX_IFS
      ensures r == Lookup(View(), da, prio, ifidx)
      ensures r.Some? ==> Live(View(), r.value)
    {
      var q := Address(da, prio, ifidx);
      var h := FindSlot(Home(q), IsMatch(q));
      LookupFindsLiveMatch(View(), da, prio, ifidx);
      r := if h.Some? then Some(hash[h.value].flowid) else None;
    }

    method CreateFlow(da: Mac, prio: nat, ifidx: nat, allocOk: bool) returns (r: Created)
      requires Valid() && prio < 8 && ifidx < MAX_IFS
      modifies hash, rings
      ensures Valid()
      ensures (View(), r) == Create(old(View()), da, prio, ifidx, allocOk)
    {
      CreateKeepsLinked(View(), da, prio, ifidx, allocOk);
      ghost var t := View();
      var q := Address(da, prio, ifidx);
      var h := FindSlot(Home(q), IsFree);
      if h.None? { return TableFull; }
      var i := 0;
      while i < rings.Length && rings[i].Some?
        invariant 0 <= i <= rings.Length
        invariant FirstNull(t.rings, 0) == FirstNull(t.rings, i)
      {
        i := i + 1;
      }
      if i == rings.Length || !allocOk { return NoMemory; }
      hash[h.value] := Slot(q.mac, q.fifo, ifidx, i);
      rings[i] := Some(Ring(h.value, false, Closed, []));
      assert hash[..] == t.hash[h.value := hash[h.value]];
      assert rings[..] == t.rings[i := rings[i]];
      r := NewFlow(i);
    }

    /** Scans the other rings before touching the interface's stop bit. */
    method BlockRing(f: nat, b: bool)
      requires Valid() && Live(View(), f)
      modifies this`stop, rings
      ensures Valid()
      ensures View() == Block(old(View()), f, b)
    {
      ghost var t := View();
      RefillKeepsLinked(t, Block(t, f, b));
      assert RingOk(t, f) && SlotOk(t, t.rings[f].value.hashId);
      var r := rings[f].value;
      if r.blocked == b { return; }
      var ifidx := hash[r.hashId].ifidx;
      var currentlyBlocked := false;
      var i := 0;
      while i < rings.Length && !currentlyBlocked
        invariant 0 <= i <= rings.Length
        invariant currentlyBlocked <==> exists j | 0 <= j < i :: OtherOpenHolder(t, f, j)
      {
        if rings[i].Some? && i != f {
          assert RingOk(t, i);
          var other := rings[i].value;
          currentlyBlocked := other.status == Open && hash[other.hashId].ifidx == ifidx && other.blocked;
        }
        assert currentlyBlocked <==> OtherOpenHolder(t, f, i);
        i := i + 1;
      }
      rings[f] := Some(r.(blocked := b));
      assert rings[..] == t.rings[f := rings[f]];
      if !currentlyBlocked {
        stop := stop[ifidx := b];
      }
    }

    method DeleteFlow(f: nat)
      requires Valid()
      modifies this`stop, this`dropped, hash, rings
      ensures Valid()
      ensures View() == Delete(old(View()), f)
    {
      ghost var t := View();
      DeleteKeepsLinked(t, f);
      if f >= rings.Length || rings[f].None? { return; }
      assert RingOk(t, f);
      var r := rings[f].value;
      BlockRing(f, false);
      ghost var t1 := View();
      var h := r.hashId;
      hash[h] := hash[h].(ifidx := INVALID_IFIDX, mac := ZERO_MAC);
      rings[f] := None;
      assert hash[..] == t1.hash[h := hash[h]];
      assert rings[..] == t1.rings[f := None];
      var queue := r.queue;
      while queue != []
        invariant dropped + queue == t.dropped + r.queue
        invariant View() == t1.(hash := hash[..], rings := rings[..], dropped := dropped)
        invariant hash[..] == t1.hash[h := t1.hash[h].(ifidx := INVALID_IFIDX, mac := ZERO_MAC)]
        invariant rings[..] == t1.rings[f := None]
      {
        dropped := dropped + [queue[0]];
        queue := queue[1..];
      }
    }

    /** Returns the queue length the caller uses to decide when to kick the worker. */
    method EnqueueSkb(f: nat, skb: Skb) returns (len: nat)
      requires Valid() && Live(View(), f)
      modifies this`stop, rings
      ensures Valid()
      ensures View() == Enqueue(old(View()), f, skb)
      ensures len == |View().rings[f].value.queue|
    {
      ghost var t := View();
      RefillKeepsLinked(t, Enqueue(t, f, skb));
      var r := rings[f].value;
      rings[f] := Some(r.(queue := r.queue + [skb]));
      assert rings[..] == t.rings[f := rings[f]];
      RefillKeepsLinked(t, View());
      if !r.blocked && |rings[f].value.queue| > HIGH {
        BlockRing(f, true);
        // The queue was not drained meanwhile, so the second length check changes nothing here;
        // module FlowRace has the interleaved enqueue, where it does.
        assert |rings[f].value.queue| >= LOW;
      }
      len := |rings[f].value.queue|;
    }

    method DequeueSkb(f: nat) returns (skb: Option<Skb>)
      requires Valid() && Live(View(), f)
      modifies this`stop, rings
      ensures Valid()
      ensures (View(), skb) == Dequeue(old(View()), f)
    {
      ghost var t := View();
      RefillKeepsLinked(t, Dequeue(t, f).0);
      var r := rings[f].value;
      if r.status != Open { return None; }
      skb := if r.queue == [] then None else Some(r.queue[0]);
      rings[f] := Some(r.(queue := if r.queue == [] then [] else r.queue[1..]));
      assert rings[..] == t.rings[f := rings[f]];
      RefillKeepsLinked(t, View());
      if r.blocked && |rings[f].value.queue| < LOW {
        BlockRing(f, false);
      }
    }

    method ReinsertSkb(f: nat, skb: Skb)
      requires Valid() && Live(View(), f)
      modifies rings
      ensures Valid()
      ensures View() == Reinsert(old(View()), f, skb)
    {
      ghost var t := View();
      RefillKeepsLinked(t, Reinsert(t, f, skb));
      var r := rings[f].value;
      rings[f] := Some(r.(queue := [skb] + r.queue));
      assert rings[..] == t.rings[f := rings[f]];
    }

    method OpenFlow(f: nat)
      requires Valid()
      modifies rings
      ensures Valid()
      ensures View() == SetStatus(old(View()), f, Open)
    {
      ghost var t := View();
      RefillKeepsLinked(t, SetStatus(t, f, Open));
      if f >= rings.Length || rings[f].None? { return; }
      rings[f] := Some(rings[f].value.(status := Open));
      assert rings[..] == t.rings[f := rings[f]];
    }

    /** Lookup, and creation on a miss: the word the transmit path goes on with. */
    method FlowFor(da: Mac, prio: nat, ifidx: nat, itemOk: bool, allocOk: bool) returns (word: nat)
      requires Valid() && prio < 8 && ifidx < MAX_IFS
      modifies hash, rings
      ensures Valid() && (DistinctKeys(old(View())) ==> DistinctKeys(View()))
      ensures View() == Step(old(View()), Transmit(da, prio, ifidx, itemOk, allocOk))
      ensures word == FlowWord(old(View()), da, prio, ifidx, itemOk, allocOk)
    {
      var found := LookupFlow(da, prio, ifidx);
      if found.Some? { return found.value; }
      if !itemOk { return INVALID_ID; }
      ghost var t := View();
      if DistinctKeys(t) { CreateIsMapInsert(t, da, prio, ifidx, allocOk); }
      hide Create, Lookup, Linked, DistinctKeys;
      var c := CreateFlow(da, prio, ifidx, allocOk);
      match c
      case NewFlow(f) => word := f;
      case NoMemory => word := MINUS_ENOMEM;
      case TableFull => word := INVALID_ID;
    }

    /** Queues a packet for transmission at the low half of that word. */
    method TxQueueData(da: Mac, prio: nat, ifidx: nat, skb: Skb, itemOk: bool, allocOk: bool) returns (r: Queued)
      requires Valid() && prio < 8 && ifidx < MAX_IFS
      modifies this`stop, hash, rings
      ensures Valid()
      ensures var t := old(View()); var t1 := Step(t, Transmit(da, prio, ifidx, itemOk, allocOk));
        var w := FlowWord(t, da, prio, ifidx, itemOk, allocOk);
        && Linked(t) && Linked(t1)
        && (w == INVALID_ID ==> r == Rejected && View() == t1)
        && (w != INVALID_ID && !Live(t1, w % 0x1_0000) ==> r == NoSuchRing(w % 0x1_0000) && View() == t1)
        && (w != INVALID_ID && Live(t1, w % 0x1_0000) ==>
              r == QueuedAt(w % 0x1_0000) && View() == Enqueue(t1, w % 0x1_0000, skb))
      ensures r.NoSuchRing? ==> OutOfRings(old(View()), da, prio, ifidx, itemOk, allocOk)
    {
      hide Step, FlowWord, OutOfRings, Enqueue, DistinctKeys, Lookup;
      ghost var t := View();
      FlowWordIff(t, da, prio, ifidx, itemOk, allocOk);
      StepKeepsLinked(t, Transmit(da, prio, ifidx, itemOk, allocOk));
      var word := FlowFor(da, prio, ifidx, itemOk, allocOk);
      hide Linked, FlowTable.Valid;
      if word == INVALID_ID { return Rejected; }
      var index := word % 0x1_0000;
      if index >= rings.Length || rings[index].None? { return NoSuchRing(index); }
      var _ := EnqueueSkb(index, skb);
      r := QueuedAt(index);
    }
  }
}
