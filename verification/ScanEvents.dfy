/** Scan events and their records, field by field: which events are taken, and what the handler reads in
    a record (wifi-bcm4350/src/cfg80211.c:3653-3701; wifi-bcm4350/src/fwil_types.h:314-348, 470-476). */
module ScanEvents {
  import opened Basics
  import opened ScanList
  import opened ScanBuffers

  // ----- a record, built from its fields

  /** struct brcmf_bss_info_le in order; fields the handler does not look at are taken together with the
      padding around them. */
  datatype Info = Info(version: seq<Byte>, length: seq<Byte>, bssid: seq<Byte>, beacon: seq<Byte>,
                       capability: seq<Byte>, ssidLen: Byte, ssid: seq<Byte>, rateset: seq<Byte>,
                       chanspec: seq<Byte>, timing: seq<Byte>, rssi: seq<Byte>, caps: seq<Byte>,
                       ctlCh: Byte, reserved: seq<Byte>, flags: Byte, rest: seq<Byte>, ies: seq<Byte>)

  predicate Sized(i: Info) {
    && |i.version| == 4 && |i.length| == 4 && |i.bssid| == 6 && |i.beacon| == 2 && |i.capability| == 2
    && |i.ssid| == 32 && |i.rateset| == 21 && |i.chanspec| == 2 && |i.timing| == 4 && |i.rssi| == 2
    && |i.caps| == 8 && |i.reserved| == 7 && |i.rest| == 31
  }

  function Identity(i: Info): (s: seq<Byte>) {
    i.version + i.length + i.bssid + i.beacon + i.capability + [i.ssidLen] + i.ssid
  }

  function Radio(i: Info): (s: seq<Byte>) { i.rateset + i.chanspec + i.timing + i.rssi }

  function Remainder(i: Info): (s: seq<Byte>) { i.caps + [i.ctlCh] + i.reserved + [i.flags] + i.rest }

  function Bytes(i: Info): (r: Record) { Identity(i) + Radio(i) + Remainder(i) + i.ies }

  function Value(s: seq<Byte>): (n: nat)
    requires |s| == 2
  {
    var low: int, high: int := s[0], s[1];
    high * 256 + low
  }

  lemma IdentityParts(i: Info)
    requires Sized(i)
    ensures var s := Identity(i);
      |s| == 51 && s[4..8] == i.length && s[8..14] == i.bssid && s[16..18] == i.capability
      && s[18] == i.ssidLen && s[19..51] == i.ssid
  {}

  lemma RadioParts(i: Info)
    requires Sized(i)
    ensures var s := Radio(i); |s| == 29 && s[21..23] == i.chanspec && s[27..29] == i.rssi
  {}

  lemma RemainderParts(i: Info)
    requires Sized(i)
    ensures var s := Remainder(i); |s| == 48 && s[8] == i.ctlCh && s[16] == i.flags
  {}

  /** Where each field lies in the record. */
  lemma FieldsInPlace(i: Info)
    requires Sized(i)
    ensures var r := Bytes(i);
      && |r| == 128 + |i.ies| && r[4..8] == i.length && r[8..14] == i.bssid && r[16..18] == i.capability
      && r[18] == i.ssidLen && r[19..51] == i.ssid && r[72..74] == i.chanspec && r[78..80] == i.rssi
      && r[88] == i.ctlCh && r[96] == i.flags
  {
    IdentityParts(i);
    RadioParts(i);
    RemainderParts(i);
    var a, b, c := Identity(i), Radio(i), Remainder(i);
    hide Identity, Radio, Remainder;
    var r := Bytes(i);
    assert r[..51] == a && r[51..80] == b && r[80..128] == c;
    assert r[4..8] == a[4..8] && r[8..14] == a[8..14] && r[16..18] == a[16..18];
    assert r[18] == a[18] && r[19..51] == a[19..51];
    assert r[72..74] == b[21..23] && r[78..80] == b[27..29];
    assert r[88] == c[8] && r[96] == c[16];
  }

  /** A built record with its own length is one the handler can use, and these are what it reads in it:
      the network, by BSSID, band and SSID; the signal, as a signed number; and whether it was measured
      on the network's own channel. */
  lemma RecordIsRead(i: Info, band: nat -> nat)
    requires Sized(i) && i.ssidLen <= 32 && Le32(i.length, 0) == 128 + |i.ies|
    ensures var r := Bytes(i);
      && Wellformed(r) && KeyOf(r, band) == Key(i.bssid, band(Value(i.chanspec)), i.ssidLen, i.ssid[..i.ssidLen as int])
      && Rssi(r) == (if i.rssi[1] < 128 then Value(i.rssi) else Value(i.rssi) - 65536)
      && (OnChannel(r) <==> i.flags % 8 >= 4)
      && (r[O_CTL_CH] == 0 <==> i.ctlCh == 0)
  {
    hide *;
    FieldsInPlace(i);
    var r := Bytes(i);
    ReadParts(i, r, band);
  }

  lemma ReadParts(i: Info, r: Record, band: nat -> nat)
    requires Sized(i) && i.ssidLen <= 32 && Le32(i.length, 0) == |r| >= 128
    requires r[4..8] == i.length && r[8..14] == i.bssid && r[18] == i.ssidLen && r[19..51] == i.ssid
    requires r[72..74] == i.chanspec && r[78..80] == i.rssi && r[88] == i.ctlCh && r[96] == i.flags
    ensures Wellformed(r)
    ensures KeyOf(r, band) == Key(i.bssid, band(Value(i.chanspec)), i.ssidLen, i.ssid[..i.ssidLen as int])
    ensures Rssi(r) == (if i.rssi[1] < 128 then Value(i.rssi) else Value(i.rssi) - 65536)
    ensures (OnChannel(r) <==> i.flags % 8 >= 4) && (r[O_CTL_CH] == 0 <==> i.ctlCh == 0)
  {
    assert r[4] == r[4..8][0] && r[5] == r[4..8][1] && r[6] == r[4..8][2] && r[7] == r[4..8][3];
    assert r[72] == r[72..74][0] && r[73] == r[72..74][1] && r[78] == r[78..80][0] && r[79] == r[78..80][1];
    SsidSlice(r, i.ssidLen as int);
  }

  lemma SsidSlice(r: Record, n: nat)
    requires n <= 32 && |r| >= 128
    ensures r[19..19 + n] == r[19..51][..n]
  {
    var a, b := r[19..19 + n], r[19..51][..n];
    assert |a| == |b| && forall k :: 0 <= k < n ==> a[k] == b[k];
  }

  /** Comparing two records reads past one exactly when BSSID, band and length of the SSID agree, and this
      length goes beyond the end of the shorter. */
  lemma ClashIff(i: Info, k: Info, band: nat -> nat)
    requires Sized(i) && Le32(i.length, 0) == 128 + |i.ies| && Sized(k) && Le32(k.length, 0) == 128 + |k.ies|
    ensures Wellformed(Bytes(i)) && Wellformed(Bytes(k))
    ensures Clash(Bytes(i), Bytes(k), band) <==>
      && i.bssid == k.bssid && band(Value(i.chanspec)) == band(Value(k.chanspec)) && i.ssidLen == k.ssidLen
      && i.ssidLen > 109 + if |i.ies| < |k.ies| then |i.ies| else |k.ies|
  {
    ClaimIsRead(i);
    ClaimIsRead(k);
    FieldsInPlace(i);
    FieldsInPlace(k);
    hide Bytes, Value, Overlong, Wellformed;
  }

  lemma ClaimIsRead(i: Info)
    requires Sized(i) && Le32(i.length, 0) == 128 + |i.ies|
    ensures var r := Bytes(i);
      Wellformed(r) && Le16(r, O_CHANSPEC) == Value(i.chanspec) && (Overlong(r) <==> i.ssidLen > 109 + |i.ies|)
  {
    FieldsInPlace(i);
    var r := Bytes(i);
    hide Bytes;
    assert r[4] == r[4..8][0] && r[5] == r[4..8][1] && r[6] == r[4..8][2] && r[7] == r[4..8][3];
    assert r[72] == r[72..74][0] && r[73] == r[72..74][1];
  }

  // ----- events

  function Enc32(n: nat): (s: seq<Byte>)
    requires n < 0x1_0000_0000
    ensures |s| == 4
  {
    [n % 256, n / 256 % 256, n / 256 / 256 % 256, n / 256 / 256 / 256]
  }

  /** Four bytes and the number they make. */
  lemma Digits(a: nat, b: nat, c: nat, d: nat)
    requires a < 256 && b < 256 && c < 256 && d < 256
    ensures var n := a + 256 * b + 65536 * c + 16777216 * d;
      && n < 0x1_0000_0000
      && n % 256 == a && n / 256 % 256 == b && n / 256 / 256 % 256 == c && n / 256 / 256 / 256 == d
  {
    var n := a + 256 * b + 65536 * c + 16777216 * d;
    assert n / 256 == b + 256 * c + 65536 * d;
    assert n / 256 / 256 == c + 256 * d;
  }

  lemma Le32Parts(s: seq<Byte>)
    requires |s| == 4
    ensures var a: int, b: int, c: int, d: int := s[0], s[1], s[2], s[3];
      Le32(s, 0) == a + 256 * b + 65536 * c + 16777216 * d
  {}

  lemma Le32Enc32(n: nat)
    requires n < 0x1_0000_0000
    ensures Le32(Enc32(n), 0) == n
  {
    Le32Parts(Enc32(n));
    hide Le32;
    var x := n / 256;
    var y := x / 256;
    assert n == n % 256 + 256 * x && x == x % 256 + 256 * y && y == y % 256 + 256 * (y / 256);
  }

  lemma Enc32Le32(s: seq<Byte>)
    requires |s| == 4
    ensures Le32(s, 0) < 0x1_0000_0000 && Enc32(Le32(s, 0)) == s
  {
    Le32Parts(s);
    Digits(s[0], s[1], s[2], s[3]);
    hide Le32;
  }

  /** The event of a single result: total length, version, scan id, a count of one, and the record;
      whatever comes behind is ignored. */
  function EventFor(r: Record, version: seq<Byte>, syncId: seq<Byte>, tail: seq<Byte>): (data: seq<Byte>)
    requires |r| + 12 < 0x1_0000_0000
  {
    Enc32(|r| + 12) + version + syncId + [1, 0] + r + tail
  }

  /** An independent network, without an access point. */
  predicate IsIbss(r: Record)
    requires |r| >= 128
  {
    r[16] % 4 >= 2
  }

  lemma EventParts(r: Record, version: seq<Byte>, syncId: seq<Byte>, tail: seq<Byte>)
    requires |r| + 12 < 0x1_0000_0000 && |version| == 4 && |syncId| == 2
    ensures var data := EventFor(r, version, syncId, tail);
      && |data| == 12 + |r| + |tail| && Le32(data, 0) == |r| + 12 && Le16(data, 10) == 1 && data[12..12 + |r|] == r
  {
    Le32Enc32(|r| + 12);
    var data, n := EventFor(r, version, syncId, tail), Enc32(|r| + 12);
    hide Enc32;
    assert data[0] == n[0] && data[1] == n[1] && data[2] == n[2] && data[3] == n[3];
    assert data[10] == 1 && data[11] == 0;
  }

  lemma CapabilityBit(r: Record)
    requires Wellformed(r)
    ensures IsIbss(r) <==> Le16(r, O_CAPABILITY) / 2 % 2 == 1
  {
    SecondBit(r[16], r[17]);
  }

  lemma SecondBit(low: int, high: int)
    requires 0 <= low < 256 && 0 <= high < 256
    ensures (low + 256 * high) / 2 % 2 == 1 <==> low % 4 >= 2
  {
    assert (low + 256 * high) / 2 == low / 2 + 128 * high;
    assert low == low / 2 * 2 + low % 2 && low / 2 == low / 2 / 2 * 2 + low / 2 % 2;
  }

  /** Its record is taken if and only if a scan is under way, no P2P search claims it, and it is no
      independent network where those are not supported. */
  lemma EventTakenIff(r: Record, version: seq<Byte>, syncId: seq<Byte>, tail: seq<Byte>,
                      outstanding: bool, p2pHit: bool, adhoc: bool)
    requires Wellformed(r) && |r| + 12 <= 65000 && |version| == 4 && |syncId| == 2
    ensures Usable(EventFor(r, version, syncId, tail), outstanding, p2pHit, adhoc) ==
      if outstanding && !p2pHit && (adhoc || !IsIbss(r)) then Some(r) else None
  {
    EventParts(r, version, syncId, tail);
    CapabilityBit(r);
    hide EventFor, IsIbss;
  }

  /** And only such events are taken. */
  lemma OnlySuchEvents(data: seq<Byte>, outstanding: bool, p2pHit: bool, adhoc: bool)
    requires Usable(data, outstanding, p2pHit, adhoc).Some?
    ensures var r := Usable(data, outstanding, p2pHit, adhoc).value;
      && Wellformed(r) && |r| + 12 <= 65000 && outstanding && !p2pHit && (adhoc || !IsIbss(r))
      && |data| >= 12 + |r| && data == EventFor(r, data[4..8], data[8..10], data[12 + |r|..])
  {
    var r := Usable(data, outstanding, p2pHit, adhoc).value;
    CapabilityBit(r);
    Enc32Le32(data[..4]);
    assert Le32(data[..4], 0) == Le32(data, 0);
    assert data[10] == 1 && data[11] == 0;
    hide Enc32, IsIbss;
    var n := |r| + 12;
    assert data == data[..4] + data[4..8] + data[8..10] + data[10..12] + data[12..n] + data[n..];
    assert data[10..12] == [1, 0];
  }

  /** The first record taken is stored as it is. */
  lemma FirstRecordIsStored(data: seq<Byte>, outstanding: bool, p2pHit: bool, adhoc: bool, band: nat -> nat)
    requires Usable(data, outstanding, p2pHit, adhoc).Some?
    ensures var r := Usable(data, outstanding, p2pHit, adhoc).value;
      Wellformed(r) && Insert([], r, band) == [r] && !Clashes([], r, band)
  {
    OnlySuchEvents(data, outstanding, p2pHit, adhoc);
    assert Flat<Byte>([]) == [];
  }

  /** All records are reported if and only if none is longer than 2048 bytes or refused. */
  lemma AllReportedIff(list: seq<Record>, accept: Record -> bool, control: nat -> Byte)
    requires forall r :: r in list ==> |r| >= 128
    ensures Reported(list, accept, control, 0) == |list| <==>
      forall r :: r in list ==> |r| <= 2048 && accept(WithControl(r, control))
  {
    var n := Reported(list, accept, control, 0);
    if n == |list| {
      forall r | r in list ensures |r| <= 2048 && accept(WithControl(r, control)) {
        var j :| 0 <= j < |list| && list[j] == r;
      }
    } else {
      assert list[n] in list;
    }
  }

  /** The records that have a control channel filled in are those reported and the one refused after them,
      but not one that is too long. */
  lemma FilledIn(list: seq<Record>, n: nat, control: nat -> Byte, j: nat)
    requires n <= |list| && j < |list| && forall r :: r in list ==> |r| >= 128
    ensures Touched(list, n) <= |list|
    ensures Filled(list, Touched(list, n), control)[j] ==
      if j < n || (j == n && |list[j]| <= 2048) then WithControl(list[j], control) else list[j]
  {
    hide WithControl;
  }

  /** The constants of the interface: version 109 of the record, 12 bytes before it and 128 of it. */
  lemma Sizes()
    ensures INFO_VERSION == 109 && HEADER == 12 && INFO_SIZE == 128 && BUF_SIZE == 65000 && INFO_MAX == 2048
  {}

  /** A missing control channel is the one the channel specification decodes to; any other stays. */
  lemma ControlIsFilledIn(i: Info, control: nat -> Byte)
    requires Sized(i)
    ensures WithControl(Bytes(i), control) ==
      Bytes(i.(ctlCh := if i.ctlCh == 0 then control(Value(i.chanspec)) else i.ctlCh))
  {
    FieldsInPlace(i);
    var c := if i.ctlCh == 0 then control(Value(i.chanspec)) else i.ctlCh;
    var r, r' := Bytes(i), Bytes(i.(ctlCh := c));
    assert r[72] == r[72..74][0] && r[73] == r[72..74][1];
    ControlByte(i, c);
  }

  lemma ControlByte(i: Info, c: Byte)
    requires Sized(i)
    ensures |Bytes(i)| >= 128 && Bytes(i)[88 := c] == Bytes(i.(ctlCh := c))
  {
    FieldsInPlace(i);
    FieldsInPlace(i.(ctlCh := c));
    var a, b := Identity(i) + Radio(i) + i.caps, i.reserved + [i.flags] + i.rest + i.ies;
    assert Bytes(i) == a + [i.ctlCh] + b;
    assert Bytes(i.(ctlCh := c)) == a + [c] + b;
    assert |a| == 88;
  }
}
