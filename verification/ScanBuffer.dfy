/** The escan buffer itself: the event handler's partial-result branch, the in-place merge and the
    pointer walk that reports the results (wifi-bcm4350/src/cfg80211.c:3409-3441, 3587-3723). */
module ScanBuffers {
  import opened Basics
  import opened ScanList

  const RESULT_SIZE: nat := HEADER + INFO_SIZE
  const INFO_VERSION: nat := 109

  /** The record of a partial-result event, if the handler takes it. `outstanding` says whether a
      request or an internal scan is under way, `p2pHit` that the event ended a P2P channel search,
      `adhoc` that the wiphy supports ad-hoc mode. */
  function Usable(data: seq<Byte>, outstanding: bool, p2pHit: bool, adhoc: bool): (r: Option<Record>)
    ensures r.Some? ==> |r.value| >= INFO_SIZE && Le32(r.value, O_LENGTH) == |r.value| && |r.value| <= BUF_SIZE - HEADER
  {
    if |data| < RESULT_SIZE then None
    else
      var buflen := Le32(data, 0);
      if buflen > BUF_SIZE || buflen > |data| || buflen < RESULT_SIZE then None
      else if Le16(data, 10) != 1 || p2pHit || !outstanding then None
      else
        var info := data[HEADER..buflen];
        if Le32(info, O_LENGTH) != buflen - HEADER then None
        else if !adhoc && Le16(info, O_CAPABILITY) / 2 % 2 == 1 then None
        else Some(info)
  }

  /** How many records are reported before one is too long or, with its control channel, refused. */
  function Reported(list: seq<Record>, accept: Record -> bool, control: nat -> Byte, i: nat): (n: nat)
    requires i <= |list| && forall r :: r in list ==> |r| >= INFO_SIZE
    ensures i <= n <= |list|
    ensures forall j :: i <= j < n ==> |list[j]| <= INFO_MAX && accept(WithControl(list[j], control))
    ensures n < |list| ==> |list[n]| > INFO_MAX || !accept(WithControl(list[n], control))
    decreases |list| - i
  {
    if i == |list| || |list[i]| > INFO_MAX || !accept(WithControl(list[i], control)) then i
    else Reported(list, accept, control, i + 1)
  }

  /** The list with the control channels of its first `n` records filled in. */
  function Filled(list: seq<Record>, n: nat, control: nat -> Byte): (list': seq<Record>)
    requires n <= |list| && forall r :: r in list ==> |r| >= INFO_SIZE
    ensures |list'| == |list|
    ensures forall j :: 0 <= j < |list| ==> list'[j] == if j < n then WithControl(list[j], control) else list[j]
  {
    seq(|list|, j requires 0 <= j < |list| => if j < n then WithControl(list[j], control) else list[j])
  }

  /** A record that is refused has been filled in, one that is too long has not. */
  function Touched(list: seq<Record>, n: nat): nat {
    if n < |list| && |list[n]| <= INFO_MAX then n + 1 else n
  }

  lemma FilledNone(list: seq<Record>, control: nat -> Byte)
    requires forall r :: r in list ==> |r| >= INFO_SIZE
    ensures Filled(list, 0, control) == list
  {}

  /** One more turn of the reporting loop. */
  lemma InformNext(list: seq<Record>, i: nat, accept: Record -> bool, control: nat -> Byte)
    requires i < |list| && forall r :: r in list ==> |r| >= INFO_SIZE
    ensures Filled(list, i, control)[i] == list[i] && |list[i]| >= INFO_SIZE
    ensures Filled(list, i, control)[i := WithControl(list[i], control)] == Filled(list, i + 1, control)
    ensures Filled(list, i + 1, control)[..i + 1] == Filled(list, i, control)[..i] + [WithControl(list[i], control)]
    ensures Filled(list, i + 1, control)[..i] == Filled(list, i, control)[..i]
    ensures Reported(list, accept, control, i) ==
            if |list[i]| > INFO_MAX || !accept(WithControl(list[i], control)) then i
            else Reported(list, accept, control, i + 1)
  {
    assert list[i] in list;
    hide WithControl;
  }

  lemma FilledKeepsNetworks(list: seq<Record>, n: nat, control: nat -> Byte, band: nat -> nat)
    requires ListOk(list, band) && n <= |list| && forall r :: r in list ==> |r| >= INFO_SIZE
    requires forall r :: r in list ==> r[O_SSID_LEN] as int <= O_CTL_CH - O_SSID
    ensures AllWellformed(Filled(list, n, control)) && Distinct(Filled(list, n, control), band)
  {
    hide Flat, KeyOf, Wellformed;
    ListRecords(list, band);
    var list' := Filled(list, n, control);
    forall j | 0 <= j < |list| ensures Wellformed(list'[j]) && KeyOf(list'[j], band) == KeyOf(list[j], band) {
      ControlKeepsRecord(list[j], control, band);
    }
  }

  /** The bytes `s` stand at `off`. */
  ghost predicate At(buf: array<Byte>, off: nat, s: seq<Byte>)
    reads buf
  {
    off + |s| <= buf.Length && buf[off..off + |s|] == s
  }

  lemma ByteAt(buf: array<Byte>, off: nat, s: seq<Byte>, i: nat)
    requires At(buf, off, s) && i < |s|
    ensures buf[off + i] == s[i]
  {
    assert buf[off..off + |s|][i] == buf[off + i];
  }

  lemma SliceAt(buf: array<Byte>, off: nat, s: seq<Byte>, i: nat, n: nat)
    requires At(buf, off, s) && i + n <= |s|
    ensures buf[off + i..off + i + n] == s[i..i + n]
  {
    var u, v := s[i..i + n], buf[off + i..off + i + n];
    forall j | 0 <= j < n ensures u[j] == v[j] { ByteAt(buf, off, s, i + j); }
  }

  method Load16(buf: array<Byte>, off: nat, i: nat, ghost s: seq<Byte>) returns (v: nat)
    requires At(buf, off, s) && i + 2 <= |s|
    ensures v == Le16(s, i)
  {
    ByteAt(buf, off, s, i);
    ByteAt(buf, off, s, i + 1);
    var a: int, b: int := buf[off + i], buf[off + i + 1];
    v := a + 0x100 * b;
  }

  method Load32(buf: array<Byte>, off: nat, i: nat, ghost s: seq<Byte>) returns (v: nat)
    requires At(buf, off, s) && i + 4 <= |s|
    ensures v == Le32(s, i)
  {
    var low := Load16(buf, off, i, s);
    var high := Load16(buf, off, i + 2, s);
    v := low + 0x1_0000 * high;
  }

  /** What the comparison of a stored record with a new one comes to. */
  datatype Compared = Same | Different | PastRecord

  function Verdict(o: Record, m: Record, band: nat -> nat): (c: Compared)
    requires Wellformed(o) && Wellformed(m)
  {
    if Clash(o, m, band) then PastRecord else if KeyOf(o, band) == KeyOf(m, band) then Same else Different
  }

  /** A record whose SSID claims to reach past it does so on its second arrival. */
  lemma OverlongClashesWithItself(m: Record, band: nat -> nat)
    requires Wellformed(m) && Overlong(m)
    ensures Clashes([m], m, band)
  {
    assert Clash([m][0], m, band);
  }

  lemma NoClashYet(list: seq<Record>, m: Record, i: nat, band: nat -> nat)
    requires Wellformed(m) && AllWellformed(list) && i < |list|
    requires forall j :: 0 <= j < i ==> Verdict(list[j], m, band) == Different
    ensures Verdict(list[i], m, band) == PastRecord ==> Clashes(list, m, band)
    ensures Verdict(list[i], m, band) == Same ==> !Clashes(list, m, band)
  {
    hide Wellformed, KeyOf, Clash;
  }

  lemma NoClashAtAll(list: seq<Record>, m: Record, band: nat -> nat)
    requires Wellformed(m) && AllWellformed(list)
    requires forall j :: 0 <= j < |list| ==> Verdict(list[j], m, band) == Different
    ensures !Clashes(list, m, band)
  {
    hide Wellformed, KeyOf, Clash;
  }

  /** Copies `r` to `to` and leaves what stands before it. */
  method CopyIn(buf: array<Byte>, ghost from: nat, to: nat, r: seq<Byte>)
    requires from <= to && to + |r| <= buf.Length
    modifies buf
    ensures buf[from..to + |r|] == old(buf[from..to]) + r
  {
    ghost var before: seq<Byte> := buf[from..to];
    for i := 0 to |r|
      invariant buf[from..to + i] == before + r[..i]
    {
      buf[to + i] := r[i];
      assert buf[from..to + i + 1] == buf[from..to + i] + [r[i]];
    }
  }

  class ScanBuffer {
    const buf: array<Byte>
    const band: nat -> nat      // what a channel specification decodes to
    const control: nat -> Byte
    var buflen: nat
    var version: nat
    var count: nat
    ghost var list: seq<Record>

    /** The buffer decodes to exactly `count` records of the stated total length. */
    ghost predicate Laid()
      reads this, buf
    {
      && buf.Length == BUF_SIZE && LaidOut(list)
      && count == |list| && buflen == HEADER + |Flat(list)|
      && buf[HEADER..buflen] == Flat(list)
    }

    /** And no two of them are the same network. */
    ghost predicate Valid()
      reads this, buf
    {
      Laid() && ListOk(list, band)
    }

    constructor (band: nat -> nat, control: nat -> Byte)
      ensures Valid() && list == [] && this.band == band && this.control == control && fresh(buf)
    {
      buf := new Byte[BUF_SIZE](_ => 0);
      this.band, this.control := band, control;
      buflen, version, count, list := HEADER, 0, 0, [];
    }

    /** A new scan starts with an empty list. */
    method Reset()
      requires Laid()
      modifies this
      ensures Valid() && list == []
    {
      buflen, version, count, list := HEADER, 0, 0, [];
    }

    ghost function OffsetOf(k: nat): nat
      requires k <= |list|
      reads this
    {
      HEADER + |Flat(list[..k])|
    }

    /** Walking by the lengths finds every record where it is. */
    lemma Located(k: nat)
      requires Laid() && k < |list|
      ensures Wellformed(list[k]) && At(buf, OffsetOf(k), list[k])
      ensures OffsetOf(k + 1) == OffsetOf(k) + |list[k]| <= buflen
    {
      hide Wellformed, Flat;
      assert list[k] in list;
      FlatAround(list, k);
      var a := Flat(list[..k]);
      Middle(Flat(list), a, list[k], Flat(list[k + 1..]));
      Whole();
      hide LaidOut;
      SliceAt(buf, HEADER, Flat(list), |a|, |list[k]|);
    }

    lemma Whole()
      requires Laid()
      ensures At(buf, HEADER, Flat(list))
    {
      hide Flat;
    }

    static lemma Middle(s: seq<Byte>, a: seq<Byte>, e: seq<Byte>, b: seq<Byte>)
      requires s == a + (e + b)
      ensures |a| + |e| <= |s| && s[|a|..|a| + |e|] == e
    {}

    /** Changes one byte of a record in place; every other byte of the list stays. */
    method PatchByte(off: nat, i: nat, b: Byte, ghost k: nat)
      requires Laid() && k < |list| && off == OffsetOf(k) && Patchable(i) && Wellformed(list[k])
      modifies this`list, buf
      ensures Laid() && list == old(list)[k := Patch(old(list)[k], i, b)]
      ensures k <= |list| && off == OffsetOf(k)
    {
      Located(k);
      PatchKeepsRecord(list[k], i, b);
      hide Flat, Wellformed, LaidOut;
      ghost var o, before := list[k], Flat(list);
      FlatAround(list, k);
      PatchKeepsLayout(list, k, Patch(o, i, b));
      FlatUpdate(list, k, Patch(o, i, b));
      Patched(before, Flat(list[..k]), o, Flat(list[k + 1..]), i, b);
      ghost var at := off - HEADER + i;
      buf[off + i] := b;
      assert buf[HEADER..buflen] == before[at := b];
      assert list[k := Patch(o, i, b)][..k] == list[..k];
      list := list[k := Patch(o, i, b)];
    }

    static lemma Patched(s: seq<Byte>, a: seq<Byte>, o: Record, b: seq<Byte>, i: nat, c: Byte)
      requires i < |o| && s == a + (o + b)
      ensures |a| + i < |s| && s[|a| + i := c] == a + (Patch(o, i, c) + b)
    {}

    /** brcmf_compare_update_same_bss on the record at `off`: a result of the same network is merged
        in place. */
    method CompareUpdate(off: nat, r: Record, ghost k: nat) returns (c: Compared)
      requires Valid() && Wellformed(r) && k < |list| && off == OffsetOf(k)
      requires Wellformed(list[k])
      modifies this`list, buf
      ensures Valid() && Wellformed(old(list)[k])
      ensures c == Verdict(old(list)[k], r, band)
      ensures list == if c == Same then old(list)[k := Merge(old(list)[k], r)] else old(list)
    {
      Located(k);
      ghost var o := list[k];
      c := SameNetwork(off, r, k);
      if c != Same { return; }
      hide Flat, ListOk;
      var oldRssi := LoadRssi(off, o);
      var oldFlags := buf[off + O_FLAGS];
      ByteAt(buf, off, o, O_FLAGS);
      if oldFlags / 4 % 2 == r[O_FLAGS] / 4 % 2 {
        if Rssi(r) > oldRssi {
          StoreRssi(off, r, k);
        } else {
          assert list[k := o] == list;
        }
      } else if oldFlags / 4 % 2 == 1 {
        StoreRssi(off, r, k);
      } else {
        assert list[k := o] == list;
      }
    }

    method SameNetwork(off: nat, r: Record, ghost k: nat) returns (c: Compared)
      requires buf.Length == BUF_SIZE && k < |list| && Wellformed(list[k]) && Wellformed(r) && At(buf, off, list[k])
      ensures c == Verdict(list[k], r, band)
    {
      ghost var o := list[k];
      var chanspec := Load16(buf, off, O_CHANSPEC, o);
      ByteAt(buf, off, o, O_SSID_LEN);
      var n := buf[off + O_SSID_LEN] as int;
      var len := Load32(buf, off, O_LENGTH, o);
      SliceAt(buf, off, o, O_BSSID, 6);
      if buf[off + O_BSSID..off + O_BSSID + 6] != r[O_BSSID..O_BSSID + 6] { return Different; }
      if band(chanspec) != band(Le16(r, O_CHANSPEC)) { return Different; }
      if n != r[O_SSID_LEN] { return Different; }
      if O_SSID + n > len || O_SSID + n > |r| { return PastRecord; }
      SliceAt(buf, off, o, O_SSID, n);
      c := if buf[off + O_SSID..off + O_SSID + n] == r[O_SSID..O_SSID + n] then Same else Different;
    }

    method LoadRssi(off: nat, ghost o: Record) returns (v: int)
      requires At(buf, off, o) && Wellformed(o)
      ensures v == Rssi(o)
    {
      v := Load16(buf, off, O_RSSI, o);
      if v >= 0x8000 { v := v - 0x1_0000; }
    }

    method StoreRssi(off: nat, r: Record, ghost k: nat)
      requires Valid() && Wellformed(r) && k < |list| && off == OffsetOf(k) && Wellformed(list[k])
      requires KeyOf(list[k], band) == KeyOf(r, band)
      requires Merge(list[k], r) == WithRssi(list[k], r)
      modifies this`list, buf
      ensures Valid() && list == old(list)[k := Merge(old(list)[k], r)]
    {
      ghost var before, o := list, list[k];
      MergeListOk(list, k, r, band);
      PatchKeepsRecord(o, O_RSSI, r[O_RSSI]);
      hide ListOk, LaidOut, KeyOf, Wellformed, Flat;
      PatchByte(off, O_RSSI, r[O_RSSI], k);
      PatchByte(off, O_RSSI + 1, r[O_RSSI + 1], k);
      assert list == before[k := WithRssi(o, r)];
    }

    static lemma MergeListOk(list: seq<Record>, k: nat, r: Record, band: nat -> nat)
      requires ListOk(list, band) && k < |list| && Wellformed(r) && Wellformed(list[k])
      requires KeyOf(list[k], band) == KeyOf(r, band)
      ensures ListOk(list[k := Merge(list[k], r)], band)
    {
      hide Wellformed, KeyOf, Flat, Merge;
      MergeKeepsKey(list[k], r, band);
      FlatUpdate(list, k, Merge(list[k], r));
      var list' := list[k := Merge(list[k], r)];
      assert forall i :: 0 <= i < |list| ==> KeyOf(list'[i], band) == KeyOf(list[i], band);
    }

    /** Appends a record behind the last one. */
    method Store(r: Record)
      requires Valid() && Wellformed(r) && HasRoom(list, r) && Find(list, r, 0, band) == |list|
      modifies this, buf
      ensures Valid() && list == old(list) + [r]
    {
      hide Wellformed, Flat, ListOk, LaidOut;
      InsertKeepsList(list, r, band);
      ghost var list' := list + [r];
      Appended(list, r, band);
      CopyIn(buf, HEADER, buflen, r);
      version := Version(r);
      buflen := buflen + |r|;
      count := count + 1;
      list := list';
    }

    static lemma Appended(list: seq<Record>, r: Record, band: nat -> nat)
      requires LaidOut(list) && ListOk(list + [r], band)
      ensures LaidOut(list + [r]) && Flat(list + [r]) == Flat(list) + r && HEADER + |Flat(list)| + |r| <= BUF_SIZE
    {
      hide Wellformed, Flat;
      FlatNext(list, r);
    }

    static function Version(r: Record): nat
      requires Wellformed(r)
    {
      Le32(r, 0)
    }

    /** A partial result either leaves the list alone or inserts its record, unless its comparison reads
        past a record; then it stops there. */
    method PartialResult(data: seq<Byte>, busy: bool, outstanding: bool, p2pHit: bool, adhoc: bool)
      returns (past: bool)
      requires Valid()
      modifies this, buf
      ensures Valid()
      ensures ListOk(old(list), band) && AllWellformed(old(list))
      ensures var r := Usable(data, outstanding, p2pHit, adhoc);
        && (r.Some? ==> Wellformed(r.value))
        && (past <==> busy && r.Some? && HasRoom(old(list), r.value) && Clashes(old(list), r.value, band))
        && list == if busy && r.Some? && !past then Insert(old(list), r.value, band) else old(list)
    {
      ListRecords(list, band);
      var usable := Usable(data, outstanding, p2pHit, adhoc);
      hide Usable, Flat, ListOk, KeyOf, Merge, Clashes;
      past := false;
      if !busy || usable.None? { return; }
      assert Wellformed(usable.value);
      hide Wellformed;
      if |usable.value| > BUF_SIZE - buflen { return; }
      past := Place(usable.value);
    }

    /** The search for the record's network, and what follows from it. */
    method Place(r: Record) returns (past: bool)
      requires Valid() && Wellformed(r) && HasRoom(list, r) && AllWellformed(list)
      modifies this, buf
      ensures Valid() && (past <==> Clashes(old(list), r, band))
      ensures list == if past then old(list) else Insert(old(list), r, band)
    {
      hide Wellformed, Flat, ListOk, LaidOut, KeyOf, Merge, Clashes, Verdict;
      past := false;
      var off := HEADER;
      EmptyFlat();
      var i := 0;
      while i < count
        invariant 0 <= i <= count && Valid() && list == old(list) && count == old(count) && buflen == old(buflen)
        invariant off == OffsetOf(i)
        invariant Find(list, r, 0, band) == Find(list, r, i, band)
        invariant forall j :: 0 <= j < i ==> Verdict(list[j], r, band) == Different
      {
        Located(i);
        NoClashYet(list, r, i, band);
        VerdictKey(list[i], r, band);
        var len := RecordLength(off, i);
        var c := CompareUpdate(off, r, i);
        if c == PastRecord { return true; }
        if c == Same { return; }
        off := off + len;
        i := i + 1;
      }
      NoClashAtAll(list, r, band);
      Store(r);
    }

    static lemma VerdictKey(o: Record, m: Record, band: nat -> nat)
      requires Wellformed(o) && Wellformed(m)
      ensures Verdict(o, m, band) == Same ==> KeyOf(o, band) == KeyOf(m, band)
      ensures Verdict(o, m, band) == Different ==> KeyOf(o, band) != KeyOf(m, band)
    {}

    static lemma EmptyFlat()
      ensures Flat<Byte>([]) == []
    {}

    method RecordLength(off: nat, ghost k: nat) returns (len: nat)
      requires buf.Length == BUF_SIZE && k < |list| && Wellformed(list[k]) && At(buf, off, list[k])
      ensures len == |list[k]|
    {
      len := Load32(buf, off, O_LENGTH, list[k]);
    }

    /** brcmf_inform_bss: exactly the stored records are reported, in order and with their control
        channels, up to the first that is too long or refused; with an unknown version none are. The
        channels are filled in where the records stand, which keeps the networks apart unless an SSID
        of more than 69 bytes covers them. */
    method InformBss(accept: Record -> bool) returns (reported: seq<Record>)
      requires Valid()
      modifies this`list, buf
      ensures Laid() && (forall r :: r in old(list) ==> |r| >= INFO_SIZE)
      ensures if old(count) != 0 && version != INFO_VERSION then reported == [] && list == old(list)
              else var n := Reported(old(list), accept, control, 0);
                list == Filled(old(list), Touched(old(list), n), control) && reported == list[..n]
      ensures (forall r :: r in old(list) ==> r[O_SSID_LEN] as int <= O_CTL_CH - O_SSID) ==> Valid()
    {
      ghost var before := list;
      ListSizes(list);
      ghost var short := forall r :: r in list ==> r[O_SSID_LEN] as int <= O_CTL_CH - O_SSID;
      hide Wellformed, Flat, ListOk, LaidOut;
      reported := [];
      if count != 0 && version != INFO_VERSION { return; }
      reported := InformAll(accept);
      ghost var n := Reported(before, accept, control, 0);
      if short { FilledKeepsNetworks(before, Touched(before, n), control, band); FilledListOk(list, band); }
    }

    static lemma FilledListOk(list: seq<Record>, band: nat -> nat)
      requires LaidOut(list) && Distinct(list, band)
      ensures ListOk(list, band)
    {}

    static lemma ListSizes(list: seq<Record>)
      requires LaidOut(list)
      ensures forall r :: r in list ==> |r| >= INFO_SIZE
    {}

    /** The loop over the records. */
    method InformAll(accept: Record -> bool) returns (reported: seq<Record>)
      requires Laid() && forall r :: r in list ==> |r| >= INFO_SIZE
      modifies this`list, buf
      ensures Laid()
      ensures var n := Reported(old(list), accept, control, 0);
        list == Filled(old(list), Touched(old(list), n), control) && reported == list[..n]
    {
      hide Wellformed, Flat, LaidOut, WithControl, Filled, Reported;
      ghost var before := list;
      reported := [];
      var off := HEADER;
      EmptyFlat();
      FilledNone(list, control);
      assert list[..0] == [];
      var i := 0;
      while i < count
        invariant 0 <= i <= count == |before| && Laid() && off == OffsetOf(i) && |list| == |before|
        invariant list == Filled(before, i, control) && reported == list[..i]
        invariant Reported(before, accept, control, 0) == Reported(before, accept, control, i)
      {
        InformNext(before, i, accept, control);
        var r;
        r, off := InformOne(off, i);
        if r.None? || !accept(r.value) { return; }
        reported := reported + [r.value];
        i := i + 1;
      }
    }

    /** The record at `off` with its control channel, unless it is too long, and where the next one is. */
    method InformOne(off: nat, ghost k: nat) returns (r: Option<Record>, next: nat)
      requires Laid() && k < |list| && off == OffsetOf(k) && |list[k]| >= INFO_SIZE
      modifies this`list, buf
      ensures Laid() && (r.None? <==> |old(list)[k]| > INFO_MAX)
      ensures r.None? ==> list == old(list)
      ensures r.Some? ==> r.value == WithControl(old(list)[k], control) && list == old(list)[k := r.value]
      ensures k + 1 <= |list| && next == OffsetOf(k + 1)
    {
      hide Wellformed, Flat, LaidOut, WithControl;
      Located(k);
      var len := RecordLength(off, k);
      next := off + len;
      if len > INFO_MAX { return None, next; }
      FillControl(off, k);
      Located(k);
      r := Some(buf[off..off + len]);
    }

    /** Fills in the control channel of one record where it stands. */
    method FillControl(off: nat, ghost k: nat)
      requires Laid() && k < |list| && off == OffsetOf(k) && |list[k]| >= INFO_SIZE
      modifies this`list, buf
      ensures Laid() && list == old(list)[k := WithControl(old(list)[k], control)]
      ensures k <= |list| && off == OffsetOf(k)
    {
      hide Flat, LaidOut;
      Located(k);
      ghost var o := list[k];
      ByteAt(buf, off, o, O_CTL_CH);
      if buf[off + O_CTL_CH] == 0 {
        var chanspec := Load16(buf, off, O_CHANSPEC, o);
        PatchByte(off, O_CTL_CH, control(chanspec), k);
      } else {
        assert list[k := o] == list;
      }
    }
  }
}
