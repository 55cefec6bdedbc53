/** The packed list of scan results (wifi-bcm4350/src/cfg80211.c:3409-3441, 3587-3723): records of
    varying length one behind the other, without duplicates, keeping the best signal. */
module ScanList {
  import opened Basics

  // ----- one record, laid out as struct brcmf_bss_info_le (fwil_types.h:314-348)

  type Record = seq<Byte>

  const HEADER: nat := 12          // struct brcmf_scan_results and struct brcmf_escan_result_le alike
  const INFO_SIZE: nat := 128
  const BUF_SIZE: nat := 65000
  const INFO_MAX: nat := 2048

  const O_LENGTH: nat := 4
  const O_BSSID: nat := 8
  const O_CAPABILITY: nat := 16
  const O_SSID_LEN: nat := 18
  const O_SSID: nat := 19
  const O_CHANSPEC: nat := 72
  const O_RSSI: nat := 78
  const O_CTL_CH: nat := 88
  const O_FLAGS: nat := 96

  function Le16(s: seq<Byte>, i: nat): (n: nat)
    requires i + 2 <= |s|
    ensures n < 0x1_0000
  {
    var a: int, b: int := s[i], s[i + 1];
    a + 0x100 * b
  }

  function Le32(s: seq<Byte>, i: nat): (n: nat)
    requires i + 4 <= |s|
  {
    Le16(s, i) + 0x1_0000 * Le16(s, i + 2)
  }

  /** A record says its own length and holds the fixed part. Its SSID may claim to be longer than the
      32 bytes of its field, and even to reach past the record. */
  predicate Wellformed(r: Record) { |r| >= INFO_SIZE && Le32(r, O_LENGTH) == |r| }

  predicate Overlong(r: Record)
    requires Wellformed(r)
  {
    O_SSID + r[O_SSID_LEN] as int > |r|
  }

  function Rssi(r: Record): int
    requires Wellformed(r)
  {
    var v := Le16(r, O_RSSI);
    if v < 0x8000 then v else v - 0x1_0000
  }

  predicate OnChannel(r: Record)
    requires Wellformed(r)
  {
    r[O_FLAGS] / 4 % 2 == 1
  }

  /** What makes two results the same network. `band` decodes a channel specification. */
  datatype Key = Key(bssid: seq<Byte>, band: nat, len: Byte, ssid: seq<Byte>)

  /** What the SSID claims, as far as the record goes. */
  function Ssid(r: Record): (s: seq<Byte>)
    requires Wellformed(r)
  {
    r[O_SSID..if Overlong(r) then |r| else O_SSID + r[O_SSID_LEN] as int]
  }

  function KeyOf(r: Record, band: nat -> nat): (k: Key)
    requires Wellformed(r)
  {
    Key(r[O_BSSID..O_BSSID + 6], band(Le16(r, O_CHANSPEC)), r[O_SSID_LEN], Ssid(r))
  }

  /** Comparing the two records comes to the SSIDs and reads past one of the records. */
  predicate Clash(o: Record, m: Record, band: nat -> nat)
    requires Wellformed(o) && Wellformed(m)
  {
    && o[O_BSSID..O_BSSID + 6] == m[O_BSSID..O_BSSID + 6]
    && band(Le16(o, O_CHANSPEC)) == band(Le16(m, O_CHANSPEC)) && o[O_SSID_LEN] == m[O_SSID_LEN]
    && (Overlong(o) || Overlong(m))
  }

  /** The search for `m` gets to such a record before it finds one of the same network. */
  ghost predicate Clashes(list: seq<Record>, m: Record, band: nat -> nat)
    requires Wellformed(m) && AllWellformed(list)
  {
    exists k :: 0 <= k < |list| && Clash(list[k], m, band) &&
      forall j :: 0 <= j < k ==> KeyOf(list[j], band) != KeyOf(m, band)
  }

  function WithRssi(r: Record, from: Record): (r': Record)
    requires |r| >= INFO_SIZE && |from| >= INFO_SIZE
    ensures |r'| == |r|
  {
    r[O_RSSI := from[O_RSSI]][O_RSSI + 1 := from[O_RSSI + 1]]
  }

  /** The stored record after another measurement of the same network. */
  function Merge(r: Record, m: Record): (r': Record)
    requires Wellformed(r) && Wellformed(m)
    ensures |r'| == |r|
  {
    if OnChannel(r) == OnChannel(m) then (if Rssi(m) > Rssi(r) then WithRssi(r, m) else r)
    else if OnChannel(r) then WithRssi(r, m)
    else r
  }

  /** A byte that may be changed in place: not part of what lays the record out. */
  predicate Patchable(i: nat) { O_LENGTH + 4 <= i < INFO_SIZE && i != O_SSID_LEN }

  function Patch(r: Record, i: nat, b: Byte): (r': Record)
    requires i < |r|
    ensures |r'| == |r|
  {
    r[i := b]
  }

  lemma PatchKeepsRecord(r: Record, i: nat, b: Byte)
    requires Wellformed(r) && Patchable(i)
    ensures Wellformed(Patch(r, i, b))
  {
    assert Le32(Patch(r, i, b), O_LENGTH) == Le32(r, O_LENGTH);
  }

  /** A merge keeps the record and its flag. Measurements of one kind give the stronger signal; of two
      kinds the on-channel one loses, whichever it is, against what the source's comment says. */
  lemma MergeKeepsRecord(r: Record, m: Record)
    requires Wellformed(r) && Wellformed(m)
    ensures var r' := Merge(r, m);
      && Wellformed(r') && OnChannel(r') == OnChannel(r)
      && (OnChannel(r) == OnChannel(m) ==> Rssi(r') == if Rssi(m) > Rssi(r) then Rssi(m) else Rssi(r))
      && (OnChannel(r) && !OnChannel(m) ==> Rssi(r') == Rssi(m))
      && (!OnChannel(r) && OnChannel(m) ==> r' == r)
  {
    var w := WithRssi(r, m);
    PatchKeepsRecord(r, O_RSSI, m[O_RSSI]);
    PatchKeepsRecord(Patch(r, O_RSSI, m[O_RSSI]), O_RSSI + 1, m[O_RSSI + 1]);
    assert w[O_RSSI] == m[O_RSSI] && w[O_RSSI + 1] == m[O_RSSI + 1];
  }

  /** A merge with the same network keeps the network, also when an overlong SSID covers the signal. */
  lemma MergeKeepsKey(r: Record, m: Record, band: nat -> nat)
    requires Wellformed(r) && Wellformed(m) && KeyOf(m, band) == KeyOf(r, band)
    ensures Wellformed(Merge(r, m)) && KeyOf(Merge(r, m), band) == KeyOf(r, band)
  {
    MergeKeepsRecord(r, m);
    var w, ssid := WithRssi(r, m), Ssid(r);
    var n := |ssid|;
    assert Overlong(w) == Overlong(r) && |Ssid(w)| == n && Ssid(m) == ssid;
    assert w[O_BSSID..O_BSSID + 6] == r[O_BSSID..O_BSSID + 6];
    forall i | 0 <= i < n ensures Ssid(w)[i] == ssid[i] {
      assert ssid[i] == r[O_SSID + i] && Ssid(m)[i] == m[O_SSID + i] && Ssid(w)[i] == w[O_SSID + i];
    }
    assert Ssid(w) == ssid;
    assert Le16(w, O_CHANSPEC) == Le16(r, O_CHANSPEC);
  }

  /** The control channel is filled in when the record does not say it. */
  function WithControl(r: Record, control: nat -> Byte): (r': Record)
    requires |r| >= INFO_SIZE
    ensures |r'| == |r|
  {
    if r[O_CTL_CH] == 0 then r[O_CTL_CH := control(Le16(r, O_CHANSPEC))] else r
  }

  /** That changes neither signal nor flag and, unless an overlong SSID covers the byte, not the
      network. */
  lemma ControlKeepsRecord(r: Record, control: nat -> Byte, band: nat -> nat)
    requires Wellformed(r)
    ensures var r' := WithControl(r, control);
      && Wellformed(r') && Rssi(r') == Rssi(r) && OnChannel(r') == OnChannel(r)
      && (r[O_SSID_LEN] as int <= O_CTL_CH - O_SSID ==> KeyOf(r', band) == KeyOf(r, band))
  {
    var r', n := WithControl(r, control), r[O_SSID_LEN] as int;
    PatchKeepsRecord(r, O_CTL_CH, control(Le16(r, O_CHANSPEC)));
    assert r'[O_BSSID..O_BSSID + 6] == r[O_BSSID..O_BSSID + 6];
    if n <= O_CTL_CH - O_SSID { assert Ssid(r') == Ssid(r); }
  }

  // ----- the list

  ghost predicate AllWellformed(rs: seq<Record>) { forall r :: r in rs ==> Wellformed(r) }

  ghost predicate Distinct(list: seq<Record>, band: nat -> nat)
    requires AllWellformed(list)
  {
    forall i, j :: 0 <= i < j < |list| ==> KeyOf(list[i], band) != KeyOf(list[j], band)
  }

  ghost predicate LaidOut(list: seq<Record>) { AllWellformed(list) && HEADER + |Flat(list)| <= BUF_SIZE }

  ghost predicate ListOk(list: seq<Record>, band: nat -> nat) { LaidOut(list) && Distinct(list, band) }

  predicate HasRoom(list: seq<Record>, r: Record) { |r| <= BUF_SIZE - HEADER - |Flat(list)| }

  /** Index of the first stored record with the key of `r`, from `i` on. */
  function Find(list: seq<Record>, r: Record, i: nat, band: nat -> nat): (k: nat)
    requires Wellformed(r) && i <= |list| && AllWellformed(list)
    ensures i <= k <= |list|
    ensures k < |list| ==> KeyOf(list[k], band) == KeyOf(r, band)
    ensures forall j :: i <= j < k ==> KeyOf(list[j], band) != KeyOf(r, band)
    decreases |list| - i
  {
    if i == |list| || KeyOf(list[i], band) == KeyOf(r, band) then i else Find(list, r, i + 1, band)
  }

  function Insert(list: seq<Record>, r: Record, band: nat -> nat): (list': seq<Record>)
    requires Wellformed(r) && AllWellformed(list)
  {
    if !HasRoom(list, r) then list
    else
      var k := Find(list, r, 0, band);
      if k < |list| then list[k := Merge(list[k], r)] else list + [r]
  }

  lemma FlatAround(list: seq<Record>, k: nat)
    requires k < |list|
    ensures Flat(list) == Flat(list[..k]) + (list[k] + Flat(list[k + 1..]))
    ensures Flat(list[..k + 1]) == Flat(list[..k]) + list[k]
  {
    var one, rest := [list[k]], list[k + 1..];
    assert Flat(one) == list[k];
    hide *;
    FlatConcat(one, rest);
    FlatConcat(list[..k], one + rest);
    FlatConcat(list[..k], one);
    Split(list, k);
  }

  lemma Split(list: seq<Record>, k: nat)
    requires k < |list|
    ensures list[..k] + ([list[k]] + list[k + 1..]) == list && list[..k] + [list[k]] == list[..k + 1]
  {}

  lemma FlatUpdate(list: seq<Record>, k: nat, r: Record)
    requires k < |list| && |r| == |list[k]|
    ensures Flat(list[k := r]) == Flat(list[..k]) + (r + Flat(list[k + 1..]))
    ensures |Flat(list[k := r])| == |Flat(list)|
  {
    hide *;
    FlatAround(list, k);
    FlatAround(list[k := r], k);
    assert list[k := r][..k] == list[..k] && list[k := r][k + 1..] == list[k + 1..];
  }

  lemma PatchKeepsLayout(list: seq<Record>, k: nat, r: Record)
    requires LaidOut(list) && k < |list| && Wellformed(r) && |r| == |list[k]|
    ensures LaidOut(list[k := r]) && |Flat(list[k := r])| == |Flat(list)|
  {
    hide Wellformed;
    FlatUpdate(list, k, r);
  }

  lemma InsertKeepsList(list: seq<Record>, r: Record, band: nat -> nat)
    requires ListOk(list, band) && Wellformed(r)
    ensures ListOk(Insert(list, r, band), band)
  {
    hide Wellformed, KeyOf, Flat, Merge;
    var list' := Insert(list, r, band);
    if HasRoom(list, r) {
      var k := Find(list, r, 0, band);
      if k < |list| {
        MergeKeepsKey(list[k], r, band);
        FlatUpdate(list, k, Merge(list[k], r));
        assert forall i :: 0 <= i < |list| ==> KeyOf(list'[i], band) == KeyOf(list[i], band);
      } else {
        FlatAround(list', |list|);
        assert list'[..|list|] == list && list'[|list| + 1..] == [] && Flat<Byte>([]) == [] by { FlatNothing(); }
      }
    }
  }

  lemma FlatNothing()
    ensures Flat<Byte>([]) == []
  {}

  // ----- what the stored signal means

  /** Everything heard of one network carried the flag `c`. */
  ghost predicate Uniform(heard: seq<Record>, k: Key, c: bool, band: nat -> nat)
    requires AllWellformed(heard)
  {
    forall h :: h in heard && KeyOf(h, band) == k ==> OnChannel(h) == c
  }

  ghost predicate HeardFrom(heard: seq<Record>, k: Key, v: int, band: nat -> nat)
    requires AllWellformed(heard)
  {
    exists h :: h in heard && KeyOf(h, band) == k && Rssi(h) == v
  }

  /** If every measurement of the network carried the same flag, `r` holds the strongest of them. */
  ghost predicate Best(r: Record, heard: seq<Record>, band: nat -> nat)
    requires Wellformed(r) && AllWellformed(heard)
  {
    forall c :: Uniform(heard, KeyOf(r, band), c, band) ==>
      && OnChannel(r) == c
      && (forall h :: h in heard && KeyOf(h, band) == KeyOf(r, band) ==> Rssi(h) <= Rssi(r))
      && HeardFrom(heard, KeyOf(r, band), Rssi(r), band)
  }

  ghost predicate Summarizes(list: seq<Record>, heard: seq<Record>, band: nat -> nat) {
    && ListOk(list, band)
    && AllWellformed(heard)
    && (forall i :: 0 <= i < |list| ==> Best(list[i], heard, band))
    && Covered(list, heard, band) && Covered(heard, list, band)
  }

  ghost predicate Known(rs: seq<Record>, k: Key, band: nat -> nat)
    requires AllWellformed(rs)
  {
    exists i :: 0 <= i < |rs| && KeyOf(rs[i], band) == k
  }

  /** Every record of `a` is a network that `b` knows. */
  ghost predicate Covered(a: seq<Record>, b: seq<Record>, band: nat -> nat)
    requires AllWellformed(a) && AllWellformed(b)
  {
    forall i :: 0 <= i < |a| ==> Known(b, KeyOf(a[i], band), band)
  }

  lemma BestOfOthers(r: Record, heard: seq<Record>, m: Record, band: nat -> nat)
    requires Wellformed(r) && Wellformed(m) && AllWellformed(heard)
    requires Best(r, heard, band) && KeyOf(m, band) != KeyOf(r, band)
    ensures Best(r, heard + [m], band)
  {
    hide Wellformed, KeyOf, OnChannel, Rssi;
    var k := KeyOf(r, band);
    forall c | Uniform(heard + [m], k, c, band)
      ensures OnChannel(r) == c
      ensures forall h :: h in heard + [m] && KeyOf(h, band) == k ==> Rssi(h) <= Rssi(r)
      ensures HeardFrom(heard + [m], k, Rssi(r), band)
    {
      assert forall h :: h in heard ==> h in heard + [m];
      assert Uniform(heard, k, c, band);
      var h :| h in heard && KeyOf(h, band) == k && Rssi(h) == Rssi(r);
      assert h in heard + [m];
    }
  }

  lemma BestMerged(r: Record, heard: seq<Record>, m: Record, band: nat -> nat)
    requires Wellformed(r) && Wellformed(m) && AllWellformed(heard)
    requires Best(r, heard, band) && KeyOf(m, band) == KeyOf(r, band)
    ensures Wellformed(Merge(r, m)) && Best(Merge(r, m), heard + [m], band)
  {
    MergeKeepsRecord(r, m);
    MergeKeepsKey(r, m, band);
    hide Wellformed, KeyOf, OnChannel, Rssi, Merge;
    var r', k := Merge(r, m), KeyOf(r, band);
    forall c | Uniform(heard + [m], k, c, band)
      ensures OnChannel(r') == c
      ensures forall h :: h in heard + [m] && KeyOf(h, band) == k ==> Rssi(h) <= Rssi(r')
      ensures HeardFrom(heard + [m], k, Rssi(r'), band)
    {
      assert m in heard + [m] && forall h :: h in heard ==> h in heard + [m];
      assert Uniform(heard, k, c, band);
      var h :| h in heard && KeyOf(h, band) == k && Rssi(h) == Rssi(r);
      assert h in heard + [m];
    }
  }

  lemma BestNew(heard: seq<Record>, m: Record, band: nat -> nat)
    requires Wellformed(m) && forall h :: h in heard ==> Wellformed(h) && KeyOf(h, band) != KeyOf(m, band)
    ensures Best(m, heard + [m], band)
  {
    hide Wellformed, KeyOf, OnChannel, Rssi;
    assert m in heard + [m];
  }

  /** One more result with room for it keeps the summary. */
  lemma InsertKeepsSummary(list: seq<Record>, heard: seq<Record>, m: Record, band: nat -> nat)
    requires Summarizes(list, heard, band) && Wellformed(m) && HasRoom(list, m)
    ensures Summarizes(Insert(list, m, band), heard + [m], band)
  {
    InsertKeepsList(list, m, band);
    hide Wellformed, KeyOf, Best, ListOk, Insert, HasRoom, Covered;
    var list', heard' := Insert(list, m, band), heard + [m];
    ListRecords(list, band);
    ListRecords(list', band);
    assert AllWellformed(heard');
    forall i | 0 <= i < |list'| ensures Best(list'[i], heard', band) { InsertBest(list, heard, m, i, band); }
    InsertKeys(list, m, band);
    assert KeyOf(heard'[|heard|], band) == KeyOf(m, band);
    StillCovered(list, heard, list', heard', m, band);
    StillCovered(heard, list, heard', list', m, band);
  }

  /** `b` has the keys of `a` in place, and perhaps `m` behind them. */
  ghost predicate Extends(a: seq<Record>, b: seq<Record>, m: Record, band: nat -> nat)
    requires AllWellformed(a) && AllWellformed(b)
  {
    && |a| <= |b| <= |a| + 1
    && (forall i :: 0 <= i < |a| ==> KeyOf(b[i], band) == KeyOf(a[i], band))
    && (|b| > |a| ==> b[|a|] == m)
  }

  lemma StillCovered(a: seq<Record>, b: seq<Record>, a': seq<Record>, b': seq<Record>, m: Record, band: nat -> nat)
    requires AllWellformed(a) && AllWellformed(b) && AllWellformed(a') && AllWellformed(b') && Wellformed(m)
    requires Covered(a, b, band) && Extends(a, a', m, band) && Extends(b, b', m, band)
    requires Known(b', KeyOf(m, band), band)
    ensures Covered(a', b', band)
  {
    hide Wellformed, KeyOf;
    forall i | 0 <= i < |a'| ensures Known(b', KeyOf(a'[i], band), band) {
      if i < |a| {
        assert Known(b, KeyOf(a[i], band), band);
        var j :| 0 <= j < |b| && KeyOf(b[j], band) == KeyOf(a[i], band);
        assert KeyOf(b'[j], band) == KeyOf(a'[i], band);
      }
    }
  }

  /** Insertion keeps the stored keys in place and adds at most the new one. */
  lemma InsertKeys(list: seq<Record>, m: Record, band: nat -> nat)
    requires ListOk(list, band) && Wellformed(m) && HasRoom(list, m)
    requires AllWellformed(list)
    ensures var list' := Insert(list, m, band);
      && AllWellformed(list')
      && Extends(list, list', m, band)
      && Known(list', KeyOf(m, band), band)
  {
    hide Wellformed, KeyOf, Merge, Flat, ListOk;
    var k := Find(list, m, 0, band);
    if k < |list| { MergeKeepsKey(list[k], m, band); }
    assert KeyOf(Insert(list, m, band)[k], band) == KeyOf(m, band);
  }

  lemma InsertBest(list: seq<Record>, heard: seq<Record>, m: Record, i: nat, band: nat -> nat)
    requires Summarizes(list, heard, band) && Wellformed(m) && HasRoom(list, m) && i < |Insert(list, m, band)|
    ensures var r := Insert(list, m, band)[i]; Wellformed(r) && Best(r, heard + [m], band)
  {
    hide Wellformed, KeyOf, Merge, Best, Flat, ListOk;
    ListRecords(list, band);
    var k := Find(list, m, 0, band);
    if i != k {
      KeysApart(list, m, i, k, band);
      BestOfOthers(list[i], heard, m, band);
    } else if k < |list| {
      BestMerged(list[k], heard, m, band);
    } else {
      NotHeard(list, heard, m, band);
      BestNew(heard, m, band);
    }
  }

  lemma ListRecords(list: seq<Record>, band: nat -> nat)
    requires ListOk(list, band)
    ensures LaidOut(list) && AllWellformed(list)
  {
    hide Wellformed;
  }

  lemma NotHeard(list: seq<Record>, heard: seq<Record>, m: Record, band: nat -> nat)
    requires Summarizes(list, heard, band) && Wellformed(m) && Find(list, m, 0, band) == |list|
    ensures forall h :: h in heard ==> Wellformed(h) && KeyOf(h, band) != KeyOf(m, band)
  {
    hide Wellformed, KeyOf, Best;
  }

  lemma KeysApart(list: seq<Record>, m: Record, i: nat, k: nat, band: nat -> nat)
    requires ListOk(list, band) && Wellformed(m) && k == Find(list, m, 0, band) && i != k && i < |list|
    ensures KeyOf(m, band) != KeyOf(list[i], band)
  {
    hide Wellformed, KeyOf;
  }

  /** A run of results: the list, and the results that were not dropped for lack of room. */
  ghost function Run(list: seq<Record>, heard: seq<Record>, rs: seq<Record>, band: nat -> nat)
    : (seq<Record>, seq<Record>)
    requires AllWellformed(list) && AllWellformed(rs)
    requires ListOk(list, band)
    decreases |rs|
  {
    if rs == [] then (list, heard)
    else
      InsertKeepsList(list, rs[0], band);
      ListRecords(Insert(list, rs[0], band), band);
      Run(Insert(list, rs[0], band), if HasRoom(list, rs[0]) then heard + [rs[0]] else heard, rs[1..], band)
  }

  /** After any run of results no two stored records are the same network, the list stays within the
      buffer, exactly the networks heard are stored, and each record has the strongest signal. */
  lemma {:induction false} ScanListSummarizes(list: seq<Record>, heard: seq<Record>, rs: seq<Record>, band: nat -> nat)
    requires Summarizes(list, heard, band) && AllWellformed(rs)
    ensures AllWellformed(list) && ListOk(list, band)
    ensures var (l, h) := Run(list, heard, rs, band); Summarizes(l, h, band)
    decreases |rs|
  {
    hide Wellformed, ListOk, Flat, Best, Distinct, HasRoom;
    ListRecords(list, band);
    if rs != [] {
      var m := rs[0];
      if HasRoom(list, m) {
        InsertKeepsSummary(list, heard, m, band);
        ScanListSummarizes(Insert(list, m, band), heard + [m], rs[1..], band);
      } else {
        ScanListSummarizes(list, heard, rs[1..], band);
      }
    }
  }
}
