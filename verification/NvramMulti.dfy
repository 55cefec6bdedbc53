/** The multi-device strips of wifi-bcm4350/src/firmware.c:232-366 over a buffer of NUL-terminated
    entries: which entries they keep, and that neither scan nor copy leaves the old data. */
module NvramMulti {
  import opened Basics
  import opened NvramSpec

  // ----- entries inside a flat buffer

  ghost predicate Wellformed(entries: seq<seq<Byte>>) {
    forall e :: e in entries ==> EQUALS in e && forall c :: c in e ==> IsNvramChar(c)
  }

  function Offset(entries: seq<seq<Byte>>, k: nat): (o: nat)
    requires k <= |entries|
  {
    |Packed(entries[..k])|
  }

  lemma EntryAt(entries: seq<seq<Byte>>, k: nat)
    requires k < |entries|
    ensures Offset(entries, k + 1) == Offset(entries, k) + |entries[k]| + 1 <= |Packed(entries)|
    ensures Packed(entries)[Offset(entries, k)..Offset(entries, k) + |entries[k]|] == entries[k]
    ensures Packed(entries)[Offset(entries, k) + |entries[k]|] == NUL
  {
    PackedAround(entries, k);
    OffsetNext(entries, k);
    hide *;
    Middle(Packed(entries), Packed(entries[..k]), entries[k], Packed(entries[k + 1..]));
  }

  lemma Middle(s: seq<Byte>, a: seq<Byte>, e: seq<Byte>, b: seq<Byte>)
    requires s == a + (e + [NUL] + b)
    ensures |s| >= |a| + |e| + 1 && s[|a|..|a| + |e|] == e && s[|a| + |e|] == NUL
  {}

  lemma OffsetNext(entries: seq<seq<Byte>>, k: nat)
    requires k < |entries|
    ensures Offset(entries, k + 1) == Offset(entries, k) + |entries[k]| + 1
  {
    assert entries[..k + 1][..k] == entries[..k];
  }

  lemma PackedAround(entries: seq<seq<Byte>>, k: nat)
    requires k < |entries|
    ensures Packed(entries) == Packed(entries[..k]) + (entries[k] + [NUL] + Packed(entries[k + 1..]))
  {
    var one, rest := [entries[k]], entries[k + 1..];
    assert Packed(one) == entries[k] + [NUL];
    hide *;
    PackedConcat(one, rest);
    PackedConcat(entries[..k], one + rest);
    SplitAround(entries, k);
  }

  lemma SplitAround(entries: seq<seq<Byte>>, k: nat)
    requires k < |entries|
    ensures entries[..k] + ([entries[k]] + entries[k + 1..]) == entries
  {}

  lemma NoOffset(entries: seq<seq<Byte>>)
    ensures Offset(entries, 0) == 0
  {
    assert entries[..0] == [];
  }

  // ----- multi-device v1

  function Decimal(n: nat): (s: seq<Byte>)
    ensures |s| >= 1 && forall c :: c in s ==> 48 <= c < 58
  {
    if n < 10 then [48 + n] else Decimal(n / 10) + [48 + n % 10]
  }

  /** "=pci/<domain>/<bus>" or "=pcie/<domain>/<bus>". */
  function PathOf(express: bool, domain: nat, bus: nat): (s: seq<Byte>)
    ensures |s| >= 8 && NUL !in s
  {
    [EQUALS, 112, 99, 105] + (if express then [101] else []) + [47] + Decimal(domain) + [47] + Decimal(bus)
  }

  const DEVPATH_LEN: nat := 19
  const COLON: Byte := 58

  predicate DevpathFor(e: seq<Byte>, domain: nat, bus: nat) {
    && HasPrefix(e, DEVPATH) && |e| >= 8
    && (HasPrefix(e[8..], PathOf(false, domain, bus)) || HasPrefix(e[8..], PathOf(true, domain, bus)))
  }

  /** The virtual id of the first devpath entry for the device, among the entries that start more
      than 19 bytes before the end. */
  function VirtualId(entries: seq<seq<Byte>>, domain: nat, bus: nat, k: nat): (x: Option<Byte>)
    requires k <= |entries|
    decreases |entries| - k
  {
    if k == |entries| || Offset(entries, k) + DEVPATH_LEN >= |Packed(entries)| then None
    else if DevpathFor(entries[k], domain, bus) then Some(entries[k][7])
    else VirtualId(entries, domain, bus, k + 1)
  }

  /** How a device's entries are marked: by its virtual id, or by its path. */
  datatype Mark = ById(x: Byte) | ByPath(prefix: seq<Byte>)

  /** "x:" in front of the entry, where ids below '0' select nothing, or the path in front of it. */
  predicate Selects(m: Mark, e: seq<Byte>) {
    match m
    case ById(x) => |e| >= 2 && 48 <= x == e[0] && e[1] == COLON
    case ByPath(p) => HasPrefix(e, p)
  }

  /** How much of a selected entry is the mark. */
  function Cut(m: Mark): nat {
    match m
    case ById(_) => 2
    case ByPath(p) => |p|
  }

  function Selected(m: Mark, entries: seq<seq<Byte>>): (es: seq<seq<Byte>>)
    decreases |entries|
  {
    if entries == [] then []
    else
      var last := entries[|entries| - 1];
      Selected(m, entries[..|entries| - 1]) + if Selects(m, last) then [last[Cut(m)..]] else []
  }

  /** What the strip leaves, or None when it fails. */
  function StripV1(entries: seq<seq<Byte>>, domain: nat, bus: nat): (r: Option<seq<seq<Byte>>>) {
    if |Packed(entries)| < DEVPATH_LEN + 6 then None
    else
      match VirtualId(entries, domain, bus, 0)
      case None => None
      case Some(x) => Some(Selected(ById(x), entries))
  }

  // ----- multi-device v2

  /** "pcie/<domain>/<bus>/". */
  function DevicePath(domain: nat, bus: nat): (s: seq<Byte>)
    ensures |s| >= 9 && NUL !in s
  {
    PCIE + Decimal(domain) + [47] + Decimal(bus) + [47]
  }

  /** What the v2 strip leaves; the scan's bound, an unsigned difference, is wrong for data shorter
      than the path. */
  function StripV2(entries: seq<seq<Byte>>, domain: nat, bus: nat): (r: Option<seq<seq<Byte>>>) {
    var path := DevicePath(domain, bus);
    if |Packed(entries)| < |path| then None else Some(Selected(ByPath(path), entries))
  }

  predicate AnyBoardrev(es: seq<seq<Byte>>) { exists e | e in es :: HasPrefix(e, BOARDREV) }

  lemma SelectedNext(m: Mark, entries: seq<seq<Byte>>, k: nat)
    requires k < |entries|
    ensures Selected(m, entries[..k + 1]) ==
            Selected(m, entries[..k]) + if Selects(m, entries[k]) then [entries[k][Cut(m)..]] else []
    ensures Packed(Selected(m, entries[..k + 1])) ==
            Packed(Selected(m, entries[..k])) + if Selects(m, entries[k]) then entries[k][Cut(m)..] + [NUL] else []
  {
    assert entries[..k + 1][..k] == entries[..k];
    hide Packed;
    if Selects(m, entries[k]) {
      PackedNext(Selected(m, entries[..k]), entries[k][Cut(m)..]);
    } else {
      assert Selected(m, entries[..k + 1]) == Selected(m, entries[..k]);
      assert Packed(Selected(m, entries[..k])) + [] == Packed(Selected(m, entries[..k]));
    }
  }

  /** What is written never gets ahead of what was read, and an entry that is not selected leaves
      its whole length free. */
  lemma {:induction false} SelectedFits(m: Mark, entries: seq<seq<Byte>>, k: nat, skipped: nat)
    requires k <= |entries| && (skipped < k ==> !Selects(m, entries[skipped]))
    ensures |Packed(Selected(m, entries[..k]))| + (if skipped < k then |entries[skipped]| + 1 else 0)
            <= Offset(entries, k)
    decreases k
  {
    hide Packed, Selects;
    if k > 0 {
      SelectedFits(m, entries, k - 1, skipped);
      SelectedNext(m, entries, k - 1);
      EntryAt(entries, k - 1);
      if Selects(m, entries[k - 1]) { CutFits(m, entries[k - 1]); }
    } else {
      Start(m, entries);
    }
  }

  /** What the strip takes away: the mark of each entry it keeps, and every other entry with its NUL. */
  function Dropped(m: Mark, entries: seq<seq<Byte>>): (n: nat)
    decreases |entries|
  {
    if entries == [] then 0
    else
      var last := entries[|entries| - 1];
      Dropped(m, entries[..|entries| - 1]) + if Selects(m, last) then Cut(m) else |last| + 1
  }

  /** Kept and dropped bytes are all there are. */
  lemma {:induction false} KeptAndDropped(m: Mark, entries: seq<seq<Byte>>)
    ensures |Packed(entries)| == |Packed(Selected(m, entries))| + Dropped(m, entries)
    decreases |entries|
  {
    if entries != [] {
      var front, last := entries[..|entries| - 1], entries[|entries| - 1];
      KeptAndDropped(m, front);
      assert entries == front + [last];
      hide Packed, Selects;
      PackedNext(front, last);
      if Selects(m, last) {
        CutFits(m, last);
        PackedNext(Selected(m, front), last[Cut(m)..]);
      } else {
        assert Selected(m, front) + [] == Selected(m, front);
      }
    } else {
      assert Selected(m, entries) == [];
    }
  }

  /** No entry that starts in the last |path| bytes can begin with the path. */
  lemma {:induction false} NoneBehind(path: seq<Byte>, entries: seq<seq<Byte>>, k: nat)
    requires k <= |entries| && Offset(entries, k) + |path| >= |Packed(entries)|
    ensures Selected(ByPath(path), entries[..k]) == Selected(ByPath(path), entries)
    decreases |entries| - k
  {
    if k == |entries| {
      assert entries[..k] == entries;
    } else {
      hide Packed, Selected;
      EntryAt(entries, k);
      assert |entries[k]| < |path|;
      SelectedNext(ByPath(path), entries, k);
      NoneBehind(path, entries, k + 1);
      assert Selected(ByPath(path), entries[..k]) + [] == Selected(ByPath(path), entries[..k]);
    }
  }

  /** A found devpath entry is at least 17 bytes that the result does not contain. */
  lemma {:induction false} DevpathFreesRoom(entries: seq<seq<Byte>>, domain: nat, bus: nat, k: nat)
    requires k <= |entries| && VirtualId(entries, domain, bus, k).Some?
    ensures var x := VirtualId(entries, domain, bus, k).value;
      |Packed(Selected(ById(x), entries))| + 17 <= |Packed(entries)|
    decreases |entries| - k
  {
    if DevpathFor(entries[k], domain, bus) {
      var x := entries[k][7];
      assert entries[k][1] == DEVPATH[1];
      assert entries[..|entries|] == entries;
      SelectedFits(ById(x), entries, |entries|, k);
    } else {
      DevpathFreesRoom(entries, domain, bus, k + 1);
    }
  }

  /** Compares at most |pat| bytes at `off`, as strncmp does; the entry's NUL stops it in time. */
  method MatchAt(buf: array<Byte>, len: nat, off: nat, pat: seq<Byte>, ghost e: seq<Byte>) returns (r: bool)
    requires off + |e| < len <= buf.Length && buf[off..off + |e|] == e && buf[off + |e|] == NUL
    requires NUL !in pat && NUL !in e
    ensures r == HasPrefix(e, pat)
  {
    var m := 0;
    while m < |pat|
      invariant 0 <= m <= |pat| && m <= |e| && e[..m] == pat[..m]
    {
      assert m < |e| ==> e[m] == buf[off..off + |e|][m] == buf[off + m];
      if buf[off + m] != pat[m] {
        if m < |e| && |pat| <= |e| { assert e[..|pat|][m] != pat[m]; }
        return false;
      }
      m := m + 1;
    }
    r := true;
  }

  method SkipToNul(buf: array<Byte>, len: nat, from: nat, ghost stop: nat) returns (i: nat)
    requires from <= stop < len <= buf.Length && buf[stop] == NUL
    requires forall j :: from <= j < stop ==> buf[j] != NUL
    ensures i == stop
  {
    i := from;
    while buf[i] != NUL
      invariant from <= i <= stop
      decreases stop - i
    {
      i := i + 1;
    }
  }

  /** The search loop for the device's devpath entry. */
  method FindDevpath(buf: array<Byte>, len: nat, domain: nat, bus: nat, ghost entries: seq<seq<Byte>>)
    returns (id: Option<Byte>)
    requires DEVPATH_LEN <= len <= buf.Length && buf[..len] == Packed(entries) && Wellformed(entries)
    ensures id == VirtualId(entries, domain, bus, 0)
  {
    hide Packed, PathOf;
    var i := 0;
    ghost var k := 0;
    NoOffset(entries);
    assert entries[..|entries|] == entries;
    while i < len - DEVPATH_LEN
      invariant k <= |entries| && i == Offset(entries, k)
      invariant VirtualId(entries, domain, bus, 0) == VirtualId(entries, domain, bus, k)
      decreases len - i
    {
      var hit := EntryMatches(buf, len, i, domain, bus, entries, k);
      if hit {
        EntryAt(entries, k);
        assert entries[k][7] == Packed(entries)[i..i + |entries[k]|][7] == buf[i + 7];
        return Some(buf[i + 7]);
      }
      ghost var e := entries[k];
      Located(buf, len, entries, k);
      i := SkipToNul(buf, len, i, i + |e|);
      i := i + 1;
      k := k + 1;
    }
    id := None;
  }

  lemma Located(buf: array<Byte>, len: nat, entries: seq<seq<Byte>>, k: nat)
    requires len <= buf.Length && buf[..len] == Packed(entries) && Wellformed(entries) && k < |entries|
    ensures var o := Offset(entries, k); var e := entries[k];
      && o + |e| < len && buf[o..o + |e|] == e && buf[o + |e|] == NUL && NUL !in e && |e| >= 1
      && Offset(entries, k + 1) == o + |e| + 1
      && forall j :: o <= j < o + |e| ==> buf[j] != NUL
  {
    EntryAt(entries, k);
    var o, e := Offset(entries, k), entries[k];
    assert EQUALS in e;
    assert buf[..len][o..o + |e|] == buf[o..o + |e|];
    forall j | o <= j < o + |e| ensures buf[j] != NUL {
      assert e[j - o] == buf[o..o + |e|][j - o] == buf[j];
      assert IsNvramChar(e[j - o]);
    }
  }

  method EntryMatches(buf: array<Byte>, len: nat, i: nat, domain: nat, bus: nat,
                      ghost entries: seq<seq<Byte>>, ghost k: nat) returns (r: bool)
    requires len <= buf.Length && buf[..len] == Packed(entries) && Wellformed(entries)
    requires k < |entries| && i == Offset(entries, k)
    ensures r == DevpathFor(entries[k], domain, bus)
  {
    hide Packed, PathOf;
    Located(buf, len, entries, k);
    ghost var e := entries[k];
    r := MatchAt(buf, len, i, DEVPATH, e);
    if r {
      // "devpath" holds no '=', so the entry goes on behind it.
      assert |e| >= 8 by {
        assert e in entries && EQUALS in e;
        assert forall t :: 0 <= t < 7 ==> e[t] == e[..7][t] != EQUALS;
        var t :| 0 <= t < |e| && e[t] == EQUALS;
      }
      assert buf[i + 8..i + |e|] == e[8..] by { assert buf[i + 8..i + |e|] == buf[i..i + |e|][8..]; }
      assert NUL !in e[8..];
      r := MatchAt(buf, len, i + 8, PathOf(false, domain, bus), e[8..]);
      if !r {
        r := MatchAt(buf, len, i + 8, PathOf(true, domain, bus), e[8..]);
      }
    }
  }

  /** Copies one entry without its two-byte prefix, NUL included. */
  method CopyFrom(src: array<Byte>, i: nat, dst: array<Byte>, j: nat, ghost e: seq<Byte>) returns (m: nat)
    requires src != dst && i + |e| < src.Length && src[i..i + |e|] == e && src[i + |e|] == NUL && NUL !in e
    requires j + |e| < dst.Length
    modifies dst
    ensures m == |e| && dst[..j + |e| + 1] == old(dst[..j]) + e + [NUL]
  {
    ghost var before := dst[..j];
    m := 0;
    forall n | i <= n < i + |e| ensures src[n] == e[n - i] != NUL { assert src[n] == src[i..i + |e|][n - i]; }
    while src[i + m] != NUL
      invariant m <= |e| && dst[..j + m] == before + e[..m]
      decreases |e| - m
    {
      assert m < |e| && src[i + m] == e[m];
      dst[j + m] := src[i + m];
      assert dst[..j + m + 1] == dst[..j + m] + [e[m]];
      m := m + 1;
    }
    dst[j + m] := NUL;
    assert dst[..j + m + 1] == dst[..j + m] + [NUL];
  }

  /** The strip of brcmf_fw_strip_multi_v1: a new buffer with the device's entries. On failure the
      length is zero. */
  method StripMultiV1(buf: array<Byte>, len: nat, domain: nat, bus: nat, ghost entries: seq<seq<Byte>>)
    returns (out: array<Byte>, outLen: nat, boardrev: bool)
    requires len <= buf.Length && buf[..len] == Packed(entries) && Wellformed(entries)
    ensures fresh(out) && out.Length == len + 8 && outLen <= len
    ensures match StripV1(entries, domain, bus)
            case None => outLen == 0 && !boardrev
            case Some(es) => out[..outLen] == Packed(es) && boardrev == AnyBoardrev(es) && outLen + 17 <= len
  {
    out := new Byte[len + 8](_ => 0);
    outLen, boardrev := 0, false;
    if len < DEVPATH_LEN + 6 { return; }
    var id := FindDevpath(buf, len, domain, bus, entries);
    if id.None? { return; }
    DevpathFreesRoom(entries, domain, bus, 0);
    outLen, boardrev := CopySelected(buf, len, out, ById(id.value), len, entries);
  }

  /** The strip of brcmf_fw_strip_multi_v2. With data shorter than the device's path the bound of its
      scan wraps around and the scan leaves the data; `ok` is false then. */
  method StripMultiV2(buf: array<Byte>, len: nat, domain: nat, bus: nat, ghost entries: seq<seq<Byte>>)
    returns (ok: bool, out: array<Byte>, outLen: nat, boardrev: bool)
    requires len <= buf.Length && buf[..len] == Packed(entries) && Wellformed(entries)
    ensures fresh(out) && out.Length == len + 8 && outLen <= len
    ensures match StripV2(entries, domain, bus)
            case None => !ok
            case Some(es) => ok && out[..outLen] == Packed(es) && boardrev == AnyBoardrev(es)
  {
    hide Packed, AnyBoardrev, DevicePath, Selected;
    ok, outLen, boardrev := false, 0, false;
    out := new Byte[len + 8](_ => 0);
    var path := DevicePath(domain, bus);
    if len < |path| { return; }
    ok := true;
    outLen, boardrev := CopySelected(buf, len, out, ByPath(path), len - |path|, entries);
  }

  /** The copy loop of both strips: v1 reads to the end, v2 up to the path's length before it. */
  method CopySelected(buf: array<Byte>, len: nat, out: array<Byte>, m: Mark, end: nat, ghost entries: seq<seq<Byte>>)
    returns (outLen: nat, boardrev: bool)
    requires len <= buf.Length && buf != out && buf[..len] == Packed(entries) && Wellformed(entries)
    requires out.Length == len + 8 && (m.ByPath? ==> NUL !in m.prefix)
    requires if m.ById? then end == len else end + |m.prefix| == len
    modifies out
    ensures outLen <= len && out[..outLen] == Packed(Selected(m, entries))
    ensures boardrev == AnyBoardrev(Selected(m, entries))
  {
    hide Packed, Selected, AnyBoardrev, Wellformed;
    var i := 0;
    outLen, boardrev := 0, false;
    ghost var k := 0;
    Start(m, entries);
    NoOffset(entries);
    while i < end
      invariant k <= |entries| && i == Offset(entries, k) <= len && outLen <= i
      invariant out[..outLen] == Packed(Selected(m, entries[..k]))
      invariant boardrev == AnyBoardrev(Selected(m, entries[..k]))
      decreases len - i
    {
      NotAtEnd(entries, k);
      var rev;
      i, outLen, rev := CopyOne(buf, len, i, out, outLen, m, entries, k);
      boardrev := boardrev || rev;
      k := k + 1;
    }
    AllCopied(m, entries, k, end);
  }

  lemma NotAtEnd(entries: seq<seq<Byte>>, k: nat)
    requires k <= |entries| && Offset(entries, k) < |Packed(entries)|
    ensures k < |entries|
  {
    hide Packed;
    assert entries[..|entries|] == entries;
  }

  lemma AllCopied(m: Mark, entries: seq<seq<Byte>>, k: nat, end: nat)
    requires k <= |entries| && Offset(entries, k) >= end
    requires end == if m.ById? then |Packed(entries)| else |Packed(entries)| - |m.prefix|
    ensures Selected(m, entries[..k]) == Selected(m, entries)
  {
    hide Packed, Selected;
    if m.ByPath? {
      NoneBehind(m.prefix, entries, k);
    } else {
      if k < |entries| { EntryAt(entries, k); }
      assert entries[..k] == entries;
    }
  }

  /** One turn of the copy loop: take the entry at `i` if it is the device's, and step past it. */
  method CopyOne(buf: array<Byte>, len: nat, i: nat, out: array<Byte>, j: nat, m: Mark,
                 ghost entries: seq<seq<Byte>>, ghost k: nat)
    returns (i': nat, j': nat, rev: bool)
    requires len <= buf.Length && buf != out && buf[..len] == Packed(entries) && Wellformed(entries)
    requires out.Length == len + 8 && (m.ByPath? ==> NUL !in m.prefix)
    requires k < |entries| && i == Offset(entries, k) && j <= i <= len && out[..j] == Packed(Selected(m, entries[..k]))
    modifies out
    ensures i < i' == Offset(entries, k + 1) <= len && j' <= i'
    ensures out[..j'] == Packed(Selected(m, entries[..k + 1]))
    ensures AnyBoardrev(Selected(m, entries[..k + 1])) <==> AnyBoardrev(Selected(m, entries[..k])) || rev
  {
    hide Packed, Selected, AnyBoardrev, Selects, Wellformed;
    ghost var e := entries[k];
    Located(buf, len, entries, k);
    SelectedNext(m, entries, k);
    SelectedFits(m, entries, k + 1, k + 1);
    var hit := IsSelected(buf, len, i, m, entries, k);
    if hit { CutFits(m, e); }
    i', j', rev := i, j, false;
    assert !hit ==> Selected(m, entries[..k + 1]) == Selected(m, entries[..k]);
    if hit {
      i', j', rev := CopyRest(buf, len, i, out, j, Cut(m), e);
      BoardrevNext(Selected(m, entries[..k]), e[Cut(m)..]);
    }
    i' := SkipToNul(buf, len, i', i + |e|);
    i' := i' + 1;
  }

  /** Copies the entry behind its mark and notes whether it is a board revision. */
  method CopyRest(buf: array<Byte>, len: nat, i: nat, out: array<Byte>, j: nat, c: nat, ghost e: seq<Byte>)
    returns (i': nat, j': nat, rev: bool)
    requires buf != out && i + |e| < len <= buf.Length && buf[i..i + |e|] == e && buf[i + |e|] == NUL && NUL !in e
    requires c <= |e| && j + |e| - c < out.Length
    modifies out
    ensures i' == i + |e| && j' == j + |e| - c + 1 && rev == HasPrefix(e[c..], BOARDREV)
    ensures out[..j'] == old(out[..j]) + e[c..] + [NUL]
  {
    assert buf[i + c..i + |e|] == e[c..] by { assert buf[i + c..i + |e|] == buf[i..i + |e|][c..]; }
    rev := MatchAt(buf, len, i + c, BOARDREV, e[c..]);
    var n := CopyFrom(buf, i + c, out, j, e[c..]);
    i' := i + c + n;
    j' := j + n + 1;
  }

  lemma CutFits(m: Mark, e: seq<Byte>)
    requires Selects(m, e)
    ensures Cut(m) <= |e|
  {}

  /** The test of either strip on the entry at `i`. */
  method IsSelected(buf: array<Byte>, len: nat, i: nat, m: Mark, ghost entries: seq<seq<Byte>>, ghost k: nat)
    returns (hit: bool)
    requires len <= buf.Length && buf[..len] == Packed(entries) && Wellformed(entries)
    requires k < |entries| && i == Offset(entries, k) && (m.ByPath? ==> NUL !in m.prefix)
    ensures hit == Selects(m, entries[k])
  {
    hide Packed;
    ghost var e := entries[k];
    assert e in entries;
    Located(buf, len, entries, k);
    match m
    case ById(x) =>
      var id: int := (x - 48 + 256) % 256;
      var c: int := buf[i];
      hit := c - 48 == id && buf[i + 1] == COLON;
      HitIsSelect(x, e, buf[i], buf[i + 1], buf[i..i + |e|]);
    case ByPath(p) =>
      hit := MatchAt(buf, len, i, p, e);
  }

  lemma BoardrevNext(es: seq<seq<Byte>>, e: seq<Byte>)
    ensures AnyBoardrev(es + [e]) <==> AnyBoardrev(es) || HasPrefix(e, BOARDREV)
  {
    if AnyBoardrev(es) {
      var e0 :| e0 in es && HasPrefix(e0, BOARDREV);
      assert e0 in es + [e];
    }
    assert e in es + [e];
  }

  /** The byte arithmetic of the source (an unsigned 8-bit id against a promoted difference) picks
      exactly the selected entries. */
  lemma HitIsSelect(x: Byte, e: seq<Byte>, c0: Byte, c1: Byte, view: seq<Byte>)
    requires |e| >= 1 && view == e && c0 == view[0] && c1 == (if |e| == 1 then NUL else view[1])
    requires forall c :: c in e ==> IsNvramChar(c)
    ensures c0 - 48 == (x - 48 + 256) % 256 && c1 == COLON <==> Selects(ById(x), e)
  {
    assert e[0] in e;
  }

  lemma Start(m: Mark, entries: seq<seq<Byte>>)
    ensures !AnyBoardrev(Selected(m, entries[..0]))
    ensures Selected(m, entries[..0]) == [] && Packed(Selected(m, entries[..0])) == [] && Offset(entries, 0) == 0
  {
    assert entries[..0] == [];
  }
}
