/** Which destinations share a flow (wifi-bcm4350/src/flowring.c:59-165), said of addresses, priorities
    and interfaces alone. */
module FlowSharing {
  import opened Basics
  import opened FlowRing

  /** The access class of a priority, as IEEE Std 802.1D has it: best effort, background, video, voice. */
  function AccessClass(prio: nat): (c: nat)
    requires prio < 8
  {
    match prio
    case 0 => 0
    case 3 => 0
    case 1 => 1
    case 2 => 1
    case 4 => 2
    case 5 => 2
    case _ => 3
  }

  /** An address of a group of stations: the first bit on the air is set. */
  predicate IsGroup(da: Mac) { da[0] as bv8 & 1 == 1 }

  /** An access point has one flow for all group frames of an interface and one for each station and
      class. A station has one for each class, towards its access point, but for active TDLS peers, which
      have their own. */
  predicate Shares(t: Table, da1: Mac, p1: nat, i1: nat, da2: Mac, p2: nat, i2: nat)
    requires Shape(t) && p1 < 8 && p2 < 8 && i1 < MAX_IFS && i2 < MAX_IFS
  {
    && i1 == i2
    && if t.addrMode[i1] == Direct then
         (IsGroup(da1) && IsGroup(da2)) ||
         (!IsGroup(da1) && !IsGroup(da2) && da1 == da2 && AccessClass(p1) == AccessClass(p2))
       else AccessClass(p1) == AccessClass(p2) && (!(t.tdlsActive && da2 in t.tdls) || da2 == da1)
  }

  /** No flow yet, whatever the modes and the peers. */
  ghost predicate Fresh(t: Table) {
    && Shape(t) && |t.rings| > 0
    && (forall h :: 0 <= h < HASH_SIZE ==> Free(t.hash[h])) && (forall i :: 0 <= i < |t.rings| ==> t.rings[i].None?)
  }

  lemma ClassIsFifo(p: nat)
    requires p < 8
    ensures AccessClass(p) == PRIO_TO_FIFO[p]
  {}

  lemma GroupIsMulticast(da: Mac)
    ensures IsGroup(da) <==> Multicast(da)
  {
    LowBit(da[0]);
  }

  lemma LowBit(b: Byte)
    ensures (b as bv8 & 1 == 1) <==> b % 2 == 1
  {
    var x := b as bv8;
    assert x & 1 == x % 2;
    assert x % 2 == (x as int % 2) as bv8;
  }

  /** The only occupied slot is the one made for the first destination. */
  lemma OnlySlot(t: Table, da: Mac, p: nat, i: nat)
    requires Fresh(t) && p < 8 && i < MAX_IFS
    ensures Linked(t)
    ensures var t' := Step(t, Transmit(da, p, i, true, true)); var q := Resolve(t, da, p, i);
      && Linked(t') && t'.addrMode == t.addrMode && t'.tdlsActive == t.tdlsActive && t'.tdls == t.tdls
      && exists h :: 0 <= h < HASH_SIZE && !Free(t'.hash[h]) && t'.hash == t.hash[h := Slot(q.mac, q.fifo, i, 0)]
  {
    var t', c := Create(t, da, p, i, true).0, Create(t, da, p, i, true).1;
    LookupFindsLiveMatch(t, da, p, i);
    CreateOutcome(t, da, p, i, true);
    assert Free(t.hash[0]) && t.rings[0].None?;
    StepKeepsLinked(t, Transmit(da, p, i, true, true));
    assert FirstNull(t.rings, 0) == 0;
    hide Linked, Lookup, Probe, Resolve;
    var h := t'.rings[0].value.hashId;
    assert t'.hash == t.hash[h := t'.hash[h]];
  }

  /** After a packet to the first destination, the second is found on its flow if and only if the two
      share one, and on no flow otherwise. */
  lemma SharesFlowIff(t: Table, da1: Mac, p1: nat, i1: nat, da2: Mac, p2: nat, i2: nat)
    requires Fresh(t) && p1 < 8 && p2 < 8 && i1 < MAX_IFS && i2 < MAX_IFS
    ensures var t' := Step(t, Transmit(da1, p1, i1, true, true));
      Shape(t') && Lookup(t', da2, p2, i2) == if Shares(t, da1, p1, i1, da2, p2, i2) then Some(0) else None
  {
    OnlySlot(t, da1, p1, i1);
    var t' := Step(t, Transmit(da1, p1, i1, true, true));
    var q1, q2 := Resolve(t, da1, p1, i1), Resolve(t', da2, p2, i2);
    var h :| 0 <= h < HASH_SIZE && !Free(t'.hash[h]) && t'.hash == t.hash[h := Slot(q1.mac, q1.fifo, i1, 0)];
    LookupFindsLiveMatch(t', da2, p2, i2);
    MatchIsSharing(t, da1, p1, i1, da2, p2, i2);
    assert q2 == Resolve(t, da2, p2, i2);
    var f := Lookup(t', da2, p2, i2);
    if f.Some? { assert RingOk(t', f.value); }
    hide Linked, Resolve, Lookup, Shares, Matches;
  }

  /** The modes and peers that count are those last set. */
  lemma ModesApply(t: Table, m: seq<AddrMode>, active: bool, peers: seq<Mac>,
                   da1: Mac, p1: nat, da2: Mac, p2: nat, i: nat)
    requires Fresh(t) && Linked(t) && |m| == MAX_IFS && p1 < 8 && p2 < 8 && i < MAX_IFS
    ensures var t1 := Step(t, Readdress(m, active, peers));
      && Fresh(t1)
      && (Shares(t1, da1, p1, i, da2, p2, i) <==>
            if m[i] == Direct then
              IsGroup(da1) == IsGroup(da2) && (IsGroup(da1) || (da1 == da2 && AccessClass(p1) == AccessClass(p2)))
            else AccessClass(p1) == AccessClass(p2) && (active && da2 in peers ==> da2 == da1))
  {
    hide Linked, IsGroup, AccessClass;
  }

  lemma MatchIsSharing(t: Table, da1: Mac, p1: nat, i1: nat, da2: Mac, p2: nat, i2: nat)
    requires Shape(t) && p1 < 8 && p2 < 8 && i1 < MAX_IFS && i2 < MAX_IFS
    ensures var q1 := Resolve(t, da1, p1, i1);
      Matches(Slot(q1.mac, q1.fifo, i1, 0), Resolve(t, da2, p2, i2)) <==> Shares(t, da1, p1, i1, da2, p2, i2)
  {
    ClassIsFifo(p1);
    ClassIsFifo(p2);
    GroupIsMulticast(da1);
    GroupIsMulticast(da2);
    hide IsGroup, AccessClass;
  }

  /** Where the flow of the first packet is entered, and for whom: a group flow for everybody and best
      effort, at a place by class, interface and, unless it leads to an access point, address. */
  lemma FlowIsMadeFor(t: Table, da: Mac, p: nat, i: nat)
    requires Fresh(t) && p < 8 && i < MAX_IFS
    ensures var t' := Step(t, Transmit(da, p, i, true, true)); var direct := t.addrMode[i] == Direct;
      var mac: Mac := if direct && IsGroup(da) then [0xff, 0xff, 0xff, 0xff, 0xff, 0xff] else da;
      var c := if direct && IsGroup(da) then 0 else AccessClass(p);
      var last: int := mac[5];
      var h := (c + 16 * i + if direct || (t.tdlsActive && da in t.tdls) then 2 * last else 0) % 512;
      t'.hash == t.hash[h := Slot(mac, c, i, 0)]
  {
    FirstIsCreated(t, da, p, i);
    CreatedAtHome(t, da, p, i);
    QueryIs(t, da, p, i);
    hide *;
  }

  lemma QueryIs(t: Table, da: Mac, p: nat, i: nat)
    requires Shape(t) && p < 8 && i < MAX_IFS
    ensures var q := Resolve(t, da, p, i); var direct := t.addrMode[i] == Direct;
      && q.mac == (if direct && IsGroup(da) then [0xff, 0xff, 0xff, 0xff, 0xff, 0xff] else da)
      && q.fifo == (if direct && IsGroup(da) then 0 else AccessClass(p))
      && var last: int := q.mac[5];
         Home(q) == (q.fifo + 16 * i + if direct || (t.tdlsActive && da in t.tdls) then 2 * last else 0) % 512
  {
    ClassIsFifo(p);
    GroupIsMulticast(da);
    hide IsGroup, AccessClass, Multicast;
  }

  lemma FirstIsCreated(t: Table, da: Mac, p: nat, i: nat)
    requires Fresh(t) && p < 8 && i < MAX_IFS
    ensures Linked(t) && Step(t, Transmit(da, p, i, true, true)) == Create(t, da, p, i, true).0
  {
    LookupFindsLiveMatch(t, da, p, i);
    hide Probe, Lookup, Create, Resolve;
  }

  lemma CreatedAtHome(t: Table, da: Mac, p: nat, i: nat)
    requires Fresh(t) && p < 8 && i < MAX_IFS
    ensures var q := Resolve(t, da, p, i);
      Create(t, da, p, i, true).0.hash == t.hash[Home(q) := Slot(q.mac, q.fifo, i, 0)]
  {
    HomeIsFree(t, Resolve(t, da, p, i));
    assert FirstNull(t.rings, 0) == 0;
    hide Probe, Home, Resolve, FirstNull;
  }

  lemma HomeIsFree(t: Table, q: Query)
    requires Fresh(t)
    ensures Linked(t) && Probe(t.hash, Home(q), 0, IsFree) == Some(Home(q))
    ensures forall h :: 0 <= h < HASH_SIZE ==> Free(t.hash[h])
  {
    ProbeNext(t.hash, Home(q), 0, IsFree);
    hide Probe, Home;
  }

  /** The sizes and marks, and the slot that counts as free. */
  lemma Constants()
    ensures HASH_SIZE == 512 && HIGH == 1024 && LOW == 768 && MAX_IFS == 16
    ensures INVALID_ID == 0x1_0000_0000 - 1 && MINUS_ENOMEM == 0x1_0000_0000 - 12
    ensures forall s: Slot :: Free(s) <==> s.ifidx == 255 && forall k :: 0 <= k < 6 ==> s.mac[k] == 0
  {
    forall s: Slot ensures (forall k :: 0 <= k < 6 ==> s.mac[k] == 0) ==> s.mac == ZERO_MAC {}
  }

  /** The flows of a station have different home slots, and so do those of any one station served by an
      access point: short probes. */
  lemma HomesApart(q1: Query, q2: Query)
    requires q1.fifo < 4 && q2.fifo < 4 && q1.ifidx < MAX_IFS && q2.ifidx < MAX_IFS && q1.sta == q2.sta
    requires q1.mac == q2.mac && (q1.fifo, q1.ifidx) != (q2.fifo, q2.ifidx)
    ensures Home(q1) != Home(q2)
  {
    var last: int := q1.mac[5];
    var a := if q1.sta then 0 else last * 2;
    var x, y := q1.fifo + q1.ifidx * 16, q2.fifo + q2.ifidx * 16;
    assert x != y && x < 256 && y < 256;
    assert Home(q1) == (a + x) % HASH_SIZE && Home(q2) == (a + y) % HASH_SIZE;
    hide Home;
    ModApart(a, x, y);
  }

  lemma ModApart(a: nat, x: nat, y: nat)
    requires x < 256 && y < 256 && x != y && a < 512
    ensures (a + x) % 512 != (a + y) % 512
  {}
}
