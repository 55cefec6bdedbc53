/** The scatter-gather splitter of wifi-bcm4350/src/bcmsdh.c:377-522: packets are cut into segments
    and segments grouped into requests under three limits; a host that cannot scatter reads into
    whole pages that are copied back. */
module SgList {
  import opened Basics

  const PAGE_SIZE: nat := 4096

  datatype Ret = Ok | Invalid | NoMem | Io

  // ----- sequences of pieces

  /** The contents of all requests, in order. */
  function Sent<T>(rs: seq<seq<seq<T>>>): (s: seq<T>)
    decreases |rs|
  {
    if rs == [] then [] else Sent(rs[..|rs| - 1]) + Flat(rs[|rs| - 1])
  }

  function Sum(ns: seq<nat>): (n: nat)
    decreases |ns|
  {
    if ns == [] then 0 else Sum(ns[..|ns| - 1]) + ns[|ns| - 1]
  }

  lemma SentNext<T>(rs: seq<seq<seq<T>>>, r: seq<seq<T>>)
    ensures Sent(rs + [r]) == Sent(rs) + Flat(r)
  {
    assert (rs + [r])[..|rs|] == rs;
  }

  // ----- splitting

  /** The host's limits, all positive, and the entries of the scatter table. */
  datatype Limits = Limits(maxSegSize: nat, maxReqSize: nat, maxSegCount: nat, tableSize: nat)

  predicate Positive(l: Limits) { l.maxSegSize > 0 && l.maxReqSize > 0 && 0 < l.maxSegCount < 0x1_0000 }

  /** Segments per request: the host's count or the 16-bit number of packets, whichever is less. */
  function SegLimit(l: Limits, packets: nat): nat {
    var n := packets % 0x1_0000;
    if l.maxSegCount < n then l.maxSegCount else n
  }

  ghost predicate SegmentsOk<T>(r: seq<seq<T>>, l: Limits) {
    && |Flat(r)| <= l.maxReqSize && |r| <= l.maxSegCount && |r| <= l.tableSize
    && forall s :: s in r ==> 0 < |s| <= l.maxSegSize
  }

  ghost predicate RequestOk<T>(r: seq<seq<T>>, l: Limits) { r != [] && SegmentsOk(r, l) }

  /** A request is closed only when it is full. */
  ghost predicate Full<T>(r: seq<seq<T>>, l: Limits, segLimit: nat) { |Flat(r)| >= l.maxReqSize || |r| >= segLimit }

  ghost predicate Open<T>(cur: seq<seq<T>>, l: Limits, segLimit: nat) {
    SegmentsOk(cur, l) && (cur == [] || !Full(cur, l, segLimit))
  }

  /** And it is closed as soon as it is: without its last segment it was not full, unless that is all. */
  ghost predicate Prompt<T>(r: seq<seq<T>>, l: Limits, segLimit: nat) {
    |r| > 1 ==> !Full(r[..|r| - 1], l, segLimit)
  }

  /** The requests so far are all within the limits, all full, and closed as soon as they were. */
  ghost predicate Tiled<T>(rs: seq<seq<seq<T>>>, l: Limits, segLimit: nat) {
    forall r :: r in rs ==> RequestOk(r, l) && Full(r, l, segLimit) && Prompt(r, l, segLimit)
  }

  lemma OpenPrompt<T>(cur: seq<seq<T>>, l: Limits, segLimit: nat)
    requires Open(cur, l, segLimit)
    ensures Prompt(cur, l, segLimit)
  {}

  lemma ExtendPrompt<T>(cur: seq<seq<T>>, s: seq<T>, l: Limits, segLimit: nat)
    requires Open(cur, l, segLimit)
    ensures Prompt(cur + [s], l, segLimit)
  {
    assert (cur + [s])[..|cur|] == cur;
  }

  /** What the packet that holds byte `n` still has from there on. */
  ghost function PacketLeft<T>(pkts: seq<seq<T>>, n: nat): (k: nat)
    requires n < |Flat(pkts)|
    ensures k > 0
    decreases |pkts|
  {
    if |pkts| <= 1 || n >= |Flat(pkts[..|pkts| - 1])| then |Flat(pkts)| - n
    else PacketLeft(pkts[..|pkts| - 1], n)
  }

  function Least(a: int, b: int, c: int): (m: int)
    ensures m <= a && m <= b && m <= c && (m == a || m == b || m == c)
  {
    if a <= b && a <= c then a else if b <= c then b else c
  }

  /** Each segment of the request that starts at byte `start` goes as far as its packet, the segment size
      and what is left of the request allow. */
  ghost predicate Exact<T>(r: seq<seq<T>>, start: nat, pkts: seq<seq<T>>, l: Limits) {
    && start + |Flat(r)| <= |Flat(pkts)|
    && forall j :: 0 <= j < |r| ==> SegmentExact(r, j, start, pkts, l)
  }

  ghost predicate SegmentExact<T>(r: seq<seq<T>>, j: nat, start: nat, pkts: seq<seq<T>>, l: Limits)
    requires j < |r|
  {
    var n := |Flat(r[..j])|;
    start + n < |Flat(pkts)| && |r[j]| == Least(PacketLeft(pkts, start + n), l.maxSegSize, l.maxReqSize - n)
  }

  ghost predicate AllExact<T>(rs: seq<seq<seq<T>>>, pkts: seq<seq<T>>, l: Limits) {
    forall i :: 0 <= i < |rs| ==> Exact(rs[i], |Sent(rs[..i])|, pkts, l)
  }

  /** At most that many segments: the host's limit or the number of packets, but for the 16 bits of the
      comparison, in which 65536 packets are none and every segment is a request. */
  lemma SegLimitIs(l: Limits, packets: nat)
    ensures packets < 65536 ==> SegLimit(l, packets) == Least(l.maxSegCount, packets, packets)
    ensures SegLimit(l, 65536) == 0 && SegLimit(l, packets + 65536) == SegLimit(l, packets)
  {
    assert (packets + 65536) % 65536 == packets % 65536;
  }

  lemma {:induction false} PacketLeftAt<T>(pkts: seq<seq<T>>, p: nat, o: nat)
    requires p < |pkts| && o < |pkts[p]|
    ensures |Flat(pkts[..p])| + o < |Flat(pkts)| && PacketLeft(pkts, |Flat(pkts[..p])| + o) == |pkts[p]| - o
    decreases |pkts|
  {
    PrefixOfAll(pkts, p + 1);
    FlatTake(pkts, p);
    var front := pkts[..|pkts| - 1];
    if p < |front| {
      PacketLeftAt(front, p, o);
      assert front[..p] == pkts[..p];
    } else {
      assert pkts[..p + 1] == pkts && front == pkts[..p];
      if |pkts| == 1 { FlatNone(pkts[..0]); }
    }
  }

  lemma ExtendExact<T>(cur: seq<seq<T>>, s: seq<T>, start: nat, pkts: seq<seq<T>>, p: nat, o: nat, l: Limits)
    requires Exact(cur, start, pkts, l) && p < |pkts| && o + |s| <= |pkts[p]| && s != []
    requires start + |Flat(cur)| == |Flat(pkts[..p])| + o
    requires |s| == Least(|pkts[p]| - o, l.maxSegSize, l.maxReqSize - |Flat(cur)|)
    ensures Exact(cur + [s], start, pkts, l)
  {
    PacketLeftAt(pkts, p, o);
    FlatNext(cur, s);
    PrefixOfAll(pkts, p + 1);
    FlatTake(pkts, p);
    hide Flat, PacketLeft;
    var r := cur + [s];
    forall j | 0 <= j < |r| ensures SegmentExact(r, j, start, pkts, l) {
      if j < |cur| {
        assert r[..j] == cur[..j] && SegmentExact(cur, j, start, pkts, l);
      } else {
        assert r[..j] == cur;
      }
    }
  }

  lemma CloseExact<T>(rs: seq<seq<seq<T>>>, cur: seq<seq<T>>, pkts: seq<seq<T>>, l: Limits)
    requires AllExact(rs, pkts, l) && Exact(cur, |Sent(rs)|, pkts, l)
    ensures AllExact(rs + [cur], pkts, l) && Exact([], |Sent(rs + [cur])|, pkts, l)
  {
    SentNext(rs, cur);
    FlatNone<T>([]);
    hide Flat, Sent, SegmentExact;
    var rs' := rs + [cur];
    forall i | 0 <= i < |rs'| ensures Exact(rs'[i], |Sent(rs'[..i])|, pkts, l) {
      assert rs'[..i] == rs[..i];
      assert rs[..|rs|] == rs;
    }
  }

  lemma BeginExact<T>(pkts: seq<seq<T>>, l: Limits)
    ensures AllExact([], pkts, l) && Exact([], |Sent<T>([])|, pkts, l)
  {}

  /** The next request has used up the scatter table, is not full, and there is more to come. */
  ghost predicate TableTooSmall<T>(cur: seq<seq<T>>, rs: seq<seq<seq<T>>>, bytes: seq<T>, l: Limits, segLimit: nat) {
    && Open(cur, l, segLimit) && |cur| == l.tableSize
    && |Sent(rs)| + |Flat(cur)| < |bytes| && Sent(rs) + Flat(cur) <= bytes
  }

  /** Extends the open request by a segment. */
  lemma ExtendOk<T>(cur: seq<seq<T>>, s: seq<T>, l: Limits, segLimit: nat)
    requires Open(cur, l, segLimit) && Positive(l) && segLimit <= l.maxSegCount && |cur| < l.tableSize
    requires 0 < |s| <= l.maxSegSize && |s| <= l.maxReqSize - |Flat(cur)|
    ensures RequestOk(cur + [s], l) && Flat(cur + [s]) == Flat(cur) + s
  {
    FlatNext(cur, s);
  }

  /** Whatever the packets, the requests submitted cut exactly their bytes, in order and within all
      limits, unless an error is returned; then they cut a prefix. `accepts(i)` says whether the
      host takes request number i. The table runs out exactly when the next request would need more
      entries than it has. */
  method SplitPackets<T>(pkts: seq<seq<T>>, l: Limits, accepts: nat -> bool) returns (ret: Ret, rs: seq<seq<seq<T>>>)
    requires Positive(l)
    ensures ret == Invalid <==> pkts == []
    ensures Sent(rs) <= Flat(pkts)
    ensures ret == Ok ==> Sent(rs) == Flat(pkts)
    ensures forall r :: r in rs ==> RequestOk(r, l)
    ensures forall i :: 0 <= i < |rs| - 1 ==> Full(rs[i], l, SegLimit(l, |pkts|)) && accepts(i)
    ensures ret == Ok && rs != [] ==> accepts(|rs| - 1)
    ensures ret == Io <==> rs != [] && !accepts(|rs| - 1)
    ensures ret == NoMem <==>
      && (rs == [] || accepts(|rs| - 1))
      && exists cur :: TableTooSmall(cur, rs, Flat(pkts), l, SegLimit(l, |pkts|))
    ensures l.tableSize >= 1 && l.tableSize >= SegLimit(l, |pkts|) ==> ret != NoMem
    ensures AllExact(rs, pkts, l) && forall r :: r in rs ==> Prompt(r, l, SegLimit(l, |pkts|))
  {
    hide Flat, Sent, RequestOk, SegmentsOk, Full, TableTooSmall, Exact, AllExact, Prompt;
    BeginExact(pkts, l);
    ret, rs := Ok, [];
    Nothing<T>(l, SegLimit(l, |pkts|));
    if pkts == [] {
      AllSent(rs, pkts, l, SegLimit(l, |pkts|));
      return Invalid, [];
    }
    var segLimit := SegLimit(l, |pkts|);
    var cur: seq<seq<T>>, reqSz: nat := [], 0;
    var p := 0;
    assert pkts[..0] == [];
    while p < |pkts|
      invariant 0 <= p <= |pkts| && ret == Ok
      invariant Tiled(rs, l, segLimit) && Open(cur, l, segLimit)
      invariant AllExact(rs, pkts, l) && Exact(cur, |Sent(rs)|, pkts, l)
      invariant Sent(rs) + Flat(cur) == Flat(pkts[..p]) && reqSz == |Flat(cur)|
      invariant forall i :: 0 <= i < |rs| ==> accepts(i)
    {
      ret, rs, cur, reqSz := SplitPacket(pkts[p], pkts, p, rs, cur, reqSz, l, segLimit, accepts);
      FlatTake(pkts, p);
      PrefixOfAll(pkts, p + 1);
      if ret != Ok {
        if ret == NoMem {
          StillTooSmall(cur, rs, Flat(pkts[..p + 1]), Flat(pkts), l, segLimit);
          TooSmallFor(cur, rs, Flat(pkts), l, segLimit);
        }
        return;
      }
      p := p + 1;
    }
    assert pkts[..p] == pkts;
    if cur != [] {
      SentNext(rs, cur);
      OpenIsOk(cur, l);
      OpenPrompt(cur, l, segLimit);
      CloseExact(rs, cur, pkts, l);
      rs := rs + [cur];
      if !accepts(|rs| - 1) { ret := Io; }
    } else {
      Nothing<T>(l, segLimit);
      assert Sent(rs) + [] == Sent(rs);
    }
    AllSent(rs, pkts, l, segLimit);
  }

  lemma Nothing<T>(l: Limits, segLimit: nat)
    ensures Flat<T>([]) == [] && Sent<T>([]) == [] && Open<T>([], l, segLimit)
  {}

  lemma OpenIsOk<T>(cur: seq<seq<T>>, l: Limits)
    requires SegmentsOk(cur, l) && cur != []
    ensures RequestOk(cur, l)
  {}

  lemma TooSmallFor<T>(cur: seq<seq<T>>, rs: seq<seq<seq<T>>>, bytes: seq<T>, l: Limits, segLimit: nat)
    requires TableTooSmall(cur, rs, bytes, l, segLimit)
    ensures l.tableSize == 0 || l.tableSize < segLimit
  {}

  lemma AllSent<T>(rs: seq<seq<seq<T>>>, pkts: seq<seq<T>>, l: Limits, segLimit: nat)
    requires Sent(rs) == Flat(pkts)
    ensures forall cur :: !TableTooSmall(cur, rs, Flat(pkts), l, segLimit)
  {
    hide Sent, Flat;
  }

  lemma StillTooSmall<T>(cur: seq<seq<T>>, rs: seq<seq<seq<T>>>, part: seq<T>, bytes: seq<T>, l: Limits, segLimit: nat)
    requires TableTooSmall(cur, rs, part, l, segLimit) && part <= bytes
    ensures TableTooSmall(cur, rs, bytes, l, segLimit)
  {
    hide Sent, Flat, Open;
  }

  lemma PrefixOfAll<T>(pkts: seq<seq<T>>, i: nat)
    requires i <= |pkts|
    ensures Flat(pkts[..i]) <= Flat(pkts)
  {
    hide Flat;
    assert pkts == pkts[..i] + pkts[i..];
    FlatConcat(pkts[..i], pkts[i..]);
  }

  /** The inner loop: one packet, cut segment by segment. */
  method SplitPacket<T>(pkt: seq<T>, ghost pkts: seq<seq<T>>, ghost p: nat, rs0: seq<seq<seq<T>>>, cur0: seq<seq<T>>,
                        reqSz0: nat, l: Limits, segLimit: nat, accepts: nat -> bool)
    returns (ret: Ret, rs: seq<seq<seq<T>>>, cur: seq<seq<T>>, reqSz: nat)
    requires Positive(l) && segLimit <= l.maxSegCount
    requires Tiled(rs0, l, segLimit) && Open(cur0, l, segLimit)
    requires p < |pkts| && pkt == pkts[p] && AllExact(rs0, pkts, l) && Exact(cur0, |Sent(rs0)|, pkts, l)
    requires Sent(rs0) + Flat(cur0) == Flat(pkts[..p]) && reqSz0 == |Flat(cur0)|
    requires forall i :: 0 <= i < |rs0| ==> accepts(i)
    ensures ret == Ok || ret == NoMem || ret == Io
    ensures Tiled(rs, l, segLimit) && Open(cur, l, segLimit)
    ensures AllExact(rs, pkts, l) && Exact(cur, |Sent(rs)|, pkts, l)
    ensures ret == Ok ==> Sent(rs) + Flat(cur) == Flat(pkts[..p]) + pkt && reqSz == |Flat(cur)|
    ensures Sent(rs) <= Flat(pkts[..p]) + pkt
    ensures forall i :: 0 <= i < |rs| - 1 ==> accepts(i)
    ensures ret == Io <==> rs != [] && !accepts(|rs| - 1)
    ensures ret == NoMem ==> TableTooSmall(cur, rs, Flat(pkts[..p]) + pkt, l, segLimit)
  {
    hide Flat, Sent, RequestOk, SegmentsOk, Full, Open, Tiled, TableTooSmall, Exact, AllExact, Prompt;
    ghost var before := Flat(pkts[..p]);
    ret, rs, cur, reqSz := Ok, rs0, cur0, reqSz0;
    var offset := 0;
    assert before + pkt[..0] == before;
    while offset < |pkt|
      invariant 0 <= offset <= |pkt| && ret == Ok
      invariant Tiled(rs, l, segLimit) && Open(cur, l, segLimit)
      invariant AllExact(rs, pkts, l) && Exact(cur, |Sent(rs)|, pkts, l)
      invariant Sent(rs) + Flat(cur) == before + pkt[..offset] && reqSz == |Flat(cur)|
      invariant forall i :: 0 <= i < |rs| ==> accepts(i)
      decreases |pkt| - offset
    {
      OpenHasRoom(cur, l, segLimit);
      Shorter(rs, cur, before, pkt, offset);
      var size := |pkt| - offset;
      if size > l.maxSegSize { size := l.maxSegSize; }
      if size > l.maxReqSize - reqSz { size := l.maxReqSize - reqSz; }
      if |cur| >= l.tableSize {
        OutOfTable(rs, cur, before, pkt, offset, l, segLimit);
        return NoMem, rs, cur, reqSz;
      }
      ExtendOk(cur, pkt[offset..offset + size], l, segLimit);
      ExtendPrompt(cur, pkt[offset..offset + size], l, segLimit);
      Extended(rs, cur, before, pkt, offset, size);
      assert |Sent(rs) + Flat(cur)| == |before + pkt[..offset]|;
      ExtendExact(cur, pkt[offset..offset + size], |Sent(rs)|, pkts, p, offset, l);
      cur := cur + [pkt[offset..offset + size]];
      reqSz := reqSz + size;
      offset := offset + size;
      IsFull(cur, l, segLimit);
      if reqSz >= l.maxReqSize || |cur| >= segLimit {
        ClosedNext(rs, cur, l, segLimit);
        CloseExact(rs, cur, pkts, l);
        rs := rs + [cur];
        cur, reqSz := [], 0;
        if !accepts(|rs| - 1) {
          Shorter(rs, cur, before, pkt, offset);
          return Io, rs, cur, reqSz;
        }
      } else {
        ClosedOk(cur, l, segLimit);
      }
    }
    assert pkt[..offset] == pkt;
    Shorter(rs, cur, before, pkt, offset);
  }

  lemma OpenHasRoom<T>(cur: seq<seq<T>>, l: Limits, segLimit: nat)
    requires Positive(l) && Open(cur, l, segLimit) && segLimit <= l.maxSegCount
    ensures |Flat(cur)| < l.maxReqSize && |cur| < l.maxSegCount && |cur| <= l.tableSize
  {
    if cur == [] { Nothing<T>(l, segLimit); }
  }

  lemma OutOfTable<T>(rs: seq<seq<seq<T>>>, cur: seq<seq<T>>, before: seq<T>, pkt: seq<T>, offset: nat,
                      l: Limits, segLimit: nat)
    requires offset < |pkt| && Sent(rs) + Flat(cur) == before + pkt[..offset]
    requires Open(cur, l, segLimit) && |cur| == l.tableSize
    ensures TableTooSmall(cur, rs, before + pkt, l, segLimit)
  {
    hide Sent, Flat, Open;
    assert before + pkt == before + pkt[..offset] + pkt[offset..];
    assert |Sent(rs) + Flat(cur)| == |before| + offset;
  }

  lemma Extended<T>(rs: seq<seq<seq<T>>>, cur: seq<seq<T>>, before: seq<T>, pkt: seq<T>, offset: nat, size: nat)
    requires offset + size <= |pkt| && Sent(rs) + Flat(cur) == before + pkt[..offset]
    ensures Sent(rs) + (Flat(cur) + pkt[offset..offset + size]) == before + pkt[..offset + size]
  {
    hide Sent, Flat;
    var piece := pkt[offset..offset + size];
    assert Sent(rs) + (Flat(cur) + piece) == Sent(rs) + Flat(cur) + piece;
    assert pkt[..offset + size] == pkt[..offset] + piece;
  }

  lemma ClosedNext<T>(rs: seq<seq<seq<T>>>, cur: seq<seq<T>>, l: Limits, segLimit: nat)
    requires Tiled(rs, l, segLimit) && RequestOk(cur, l) && Full(cur, l, segLimit) && Prompt(cur, l, segLimit)
    ensures Tiled(rs + [cur], l, segLimit) && Open<T>([], l, segLimit) && |Flat<T>([])| == 0
    ensures Sent(rs + [cur]) + Flat<T>([]) == Sent(rs) + Flat(cur)
  {
    SentNext(rs, cur);
    Nothing<T>(l, segLimit);
    hide Sent, RequestOk, Full, Prompt;
  }

  lemma IsFull<T>(cur: seq<seq<T>>, l: Limits, segLimit: nat)
    ensures Full(cur, l, segLimit) <==> |Flat(cur)| >= l.maxReqSize || |cur| >= segLimit
  {}

  lemma ClosedOk<T>(cur: seq<seq<T>>, l: Limits, segLimit: nat)
    requires RequestOk(cur, l) && !Full(cur, l, segLimit)
    ensures Open(cur, l, segLimit)
  {}

  lemma Shorter<T>(rs: seq<seq<seq<T>>>, cur: seq<seq<T>>, before: seq<T>, pkt: seq<T>, offset: nat)
    requires offset <= |pkt| && Sent(rs) + Flat(cur) == before + pkt[..offset]
    ensures Sent(rs) <= before + pkt
  {
    hide Sent, Flat;
    assert before + pkt == before + pkt[..offset] + pkt[offset..];
    assert before + pkt == Sent(rs) + (Flat(cur) + pkt[offset..]);
  }

  // ----- a host that cannot scatter

  function AlignUp(n: nat, a: nat): (r: nat)
    requires a > 0
    ensures n <= r < n + a && r % a == 0
  {
    var q := (n + a - 1) / a;
    assert q * a + (n + a - 1) % a == n + a - 1;
    MultipleOf(q, a);
    q * a
  }

  lemma MultipleOf(q: nat, a: nat)
    requires a > 0
    ensures q * a % a == 0
  {
    var d, r := q * a / a, q * a % a;
    assert a * (q - d) == r;
    Apart(a, q - d);
  }

  lemma Apart(a: nat, x: int)
    ensures (x >= 1 ==> a * x >= a) && (x <= -1 ==> a * x + a <= 0)
  {
    if x >= 1 { assert a * x == a * (x - 1) + a; }
    if x <= -1 { assert a * x == a * (x + 1) - a; }
  }

  lemma SumNext(ns: seq<nat>, n: nat)
    ensures Sum(ns + [n]) == Sum(ns) + n
  {
    assert (ns + [n])[..|ns|] == ns;
  }

  lemma SumTake(ns: seq<nat>, i: nat)
    requires i < |ns|
    ensures Sum(ns[..i + 1]) == Sum(ns[..i]) + ns[i]
  {
    assert ns[..i + 1][..i] == ns[..i];
  }

  /** Full pages, and a last one, for the block-aligned total of the packets; none is empty, but for the
      one page of a read of nothing. */
  method PageList(lens: seq<nat>, blockSize: nat) returns (pages: seq<nat>)
    requires blockSize > 0
    ensures Sum(pages) == AlignUp(Sum(lens), blockSize)
    ensures pages != [] && Sum(pages) % blockSize == 0 && Sum(lens) <= Sum(pages) < Sum(lens) + blockSize
    ensures forall i :: 0 <= i < |pages| - 1 ==> pages[i] == 4096
    ensures forall n :: n in pages ==> n <= 4096 && (Sum(lens) > 0 ==> n > 0)
    ensures Sum(lens) == 0 ==> pages == [0]
  {
    var reqSz: nat := 0;
    for i := 0 to |lens|
      invariant reqSz == Sum(lens[..i])
    {
      SumTake(lens, i);
      reqSz := reqSz + lens[i];
    }
    assert lens[..|lens|] == lens;
    hide Sum;
    AlignZero(blockSize);
    pages := CutPages(AlignUp(reqSz, blockSize));
  }

  lemma AlignZero(a: nat)
    requires a > 0
    ensures AlignUp(0, a) == 0
  {
    assert (a - 1) / a == 0;
  }

  method CutPages(total: nat) returns (pages: seq<nat>)
    ensures Sum(pages) == total
    ensures pages != [] && forall i :: 0 <= i < |pages| - 1 ==> pages[i] == PAGE_SIZE
    ensures forall n :: n in pages ==> n <= PAGE_SIZE && (total > 0 ==> n > 0)
    ensures total == 0 ==> pages == [0]
  {
    var reqSz: nat := total;
    pages := [];
    assert Sum(pages) == 0;
    hide Sum;
    while reqSz > PAGE_SIZE
      invariant Sum(pages) + reqSz == total && (total > 0 ==> reqSz > 0) && (total == 0 ==> pages == [])
      invariant forall i :: 0 <= i < |pages| ==> pages[i] == PAGE_SIZE
    {
      SumNext(pages, PAGE_SIZE);
      pages := pages + [PAGE_SIZE];
      reqSz := reqSz - PAGE_SIZE;
    }
    SumNext(pages, reqSz);
    pages := pages + [reqSz];
  }

  /** The page lists a read can have: no empty page, or a single one. */
  ghost predicate PagesOk(pages: seq<seq<Byte>>) { pages == [[]] || forall p :: p in pages ==> p != [] }

  /** Where the source has been read up to: page `i`, offset `o`; past the last page when all is read. */
  ghost predicate At(pages: seq<seq<Byte>>, i: nat, o: nat, n: nat) {
    && i <= |pages| && (if i == |pages| then o == 0 else o < |pages[i]| || (o == 0 && pages[i] == []))
    && n == |Flat(pages[..i])| + o
  }

  /** What lies behind the read position. */
  lemma NextBytes(pages: seq<seq<Byte>>, i: nat, o: nat, n: nat, len: nat)
    requires At(pages, i, o, n) && i < |pages| && o + len <= |pages[i]|
    ensures n + len <= |Flat(pages)| && Flat(pages)[n..n + len] == pages[i][o..o + len]
  {
    FlatTake(pages, i);
    PrefixOfAll(pages, i + 1);
    hide Flat;
    var a, b := Flat(pages[..i]), Flat(pages[..i + 1]);
    assert b[n..n + len] == pages[i][o..o + len];
    assert Flat(pages)[n..n + len] == b[n..n + len];
  }

  /** All received bytes are delivered before packet `d`, so that the source list has run out. */
  ghost predicate RunOut(pages: seq<seq<Byte>>, lens: seq<nat>, d: nat)
    requires d < |lens|
  {
    Sum(lens[..d]) == |Flat(pages)| && (d > 0 || pages == [])
  }

  /** Copies the received pages back: each packet gets the next bytes of the stream, as many as it is
      long. The source list must not have run out when a packet's turn comes, not even an empty one's:
      the loop looks at the list first. */
  method CopyBack(pages: seq<seq<Byte>>, lens: seq<nat>) returns (out: Option<seq<seq<Byte>>>)
    requires PagesOk(pages) && Sum(lens) <= |Flat(pages)|
    ensures out.None? <==> exists d :: 0 <= d < |lens| && lens[d] == 0 && RunOut(pages, lens, d)
    ensures out.Some? ==>
      && |out.value| == |lens| && (forall i :: 0 <= i < |lens| ==> |out.value[i]| == lens[i])
      && Flat(out.value) == Flat(pages)[..Sum(lens)]
  {
    hide Flat, Sum, PagesOk, At;
    var done: seq<seq<Byte>> := [];
    var src, srcOffset := 0, 0;
    ghost var n := 0;
    Begin(pages, lens);
    for d := 0 to |lens|
      invariant |done| == d && forall i :: 0 <= i < d ==> |done[i]| == lens[i]
      invariant n == Sum(lens[..d]) <= |Flat(pages)| && At(pages, src, srcOffset, n) && Flat(done) == Flat(pages)[..n]
      invariant src == 0 && pages == [[]] ==> d == 0
      invariant d == 0 ==> src == 0
      invariant forall i :: 0 <= i < d && lens[i] == 0 ==> !RunOut(pages, lens, i)
    {
      SumTake(lens, d);
      SumPrefix(lens, d + 1);
      Position(pages, src, srcOffset, n, lens, d);
      if src == |pages| { return None; }
      var dst;
      dst, src, srcOffset := FillPacket(pages, src, srcOffset, lens[d], n);
      FlatNext(done, dst);
      assert Flat(pages)[..n + lens[d]] == Flat(pages)[..n] + dst;
      done := done + [dst];
      n := n + lens[d];
    }
    assert lens[..|lens|] == lens;
    out := Some(done);
  }

  lemma Begin(pages: seq<seq<Byte>>, lens: seq<nat>)
    requires PagesOk(pages)
    ensures At(pages, 0, 0, 0) && Sum(lens[..0]) == 0 && Flat<Byte>([]) == []
  {
    assert pages[..0] == [] && lens[..0] == [];
    assert pages != [] ==> pages[0] in pages;
  }

  /** The list has run out exactly at its end. */
  lemma Position(pages: seq<seq<Byte>>, i: nat, o: nat, n: nat, lens: seq<nat>, d: nat)
    requires PagesOk(pages) && At(pages, i, o, n) && d < |lens| && n == Sum(lens[..d])
    requires (i == 0 && pages == [[]] ==> d == 0) && (d == 0 ==> i == 0)
    ensures i <= |pages| && (i == |pages| <==> RunOut(pages, lens, d))
    ensures n + lens[d] <= |Flat(pages)| && i == |pages| ==> lens[d] == 0
  {
    if i == |pages| {
      assert pages[..i] == pages;
    } else {
      FlatTake(pages, i);
      PrefixOfAll(pages, i + 1);
      hide Flat, Sum;
      assert pages[i] in pages;
    }
  }

  lemma {:induction false} SumPrefix(lens: seq<nat>, i: nat)
    requires i <= |lens|
    ensures Sum(lens[..i]) <= Sum(lens)
    decreases |lens| - i
  {
    if i == |lens| {
      assert lens[..i] == lens;
    } else {
      SumTake(lens, i);
      SumPrefix(lens, i + 1);
    }
  }

  /** The inner loop for one packet: it takes what the current page still has and moves on. */
  method FillPacket(pages: seq<seq<Byte>>, src0: nat, off0: nat, len: nat, ghost n: nat)
    returns (dst: seq<Byte>, src: nat, srcOffset: nat)
    requires PagesOk(pages) && src0 < |pages|
    requires At(pages, src0, off0, n) && n + len <= |Flat(pages)|
    ensures |dst| == len && dst == Flat(pages)[n..n + len]
    ensures At(pages, src, srcOffset, n + len) && (pages == [[]] ==> src == 1)
  {
    hide Flat, At, PagesOk;
    dst, src, srcOffset := [], src0, off0;
    while true
      invariant src < |pages| && (|dst| < len || |dst| == len == 0)
      invariant At(pages, src, srcOffset, n + |dst|) && dst == Flat(pages)[n..n + |dst|]
      decreases len - |dst|
    {
      ghost var m := n + |dst|;
      Here(pages, src, srcOffset, m, len - |dst|);
      var reqSz := len - |dst|;
      if reqSz > |pages[src]| - srcOffset { reqSz := |pages[src]| - srcOffset; }
      NextBytes(pages, src, srcOffset, m, reqSz);
      Advance(pages, src, srcOffset, m, reqSz);
      var piece := pages[src][srcOffset..srcOffset + reqSz];
      assert Flat(pages)[n..m + reqSz] == Flat(pages)[n..m] + Flat(pages)[m..m + reqSz];
      dst := dst + piece;
      srcOffset := srcOffset + reqSz;
      if srcOffset == |pages[src]| {
        srcOffset := 0;
        src := src + 1;
      }
      if |dst| == len { return; }
      MoreToRead(pages, src, srcOffset, n + |dst|);
    }
  }

  /** On the page at hand there is something to read, unless the packet is empty. */
  lemma Here(pages: seq<seq<Byte>>, i: nat, o: nat, n: nat, want: nat)
    requires PagesOk(pages) && At(pages, i, o, n) && i < |pages| && n + want <= |Flat(pages)|
    ensures o <= |pages[i]| && (want > 0 ==> o < |pages[i]|)
    ensures pages == [[]] ==> o == |pages[i]| && want == 0 && i == 0
  {
    if pages == [[]] { assert Flat(pages) == []; }
    assert pages[i] in pages;
  }

  lemma MoreToRead(pages: seq<seq<Byte>>, i: nat, o: nat, n: nat)
    requires At(pages, i, o, n) && n < |Flat(pages)|
    ensures i < |pages|
  {
    assert pages[..|pages|] == pages;
  }

  lemma Advance(pages: seq<seq<Byte>>, i: nat, o: nat, n: nat, len: nat)
    requires PagesOk(pages) && At(pages, i, o, n) && i < |pages| && o + len <= |pages[i]|
    ensures if o + len == |pages[i]| then At(pages, i + 1, 0, n + len) else At(pages, i, o + len, n + len)
  {
    FlatTake(pages, i);
    hide Flat;
    assert i + 1 < |pages| ==> pages[i + 1] in pages;
  }

  // ----- a read, end to end

  function Chop<T>(s: seq<T>, ns: seq<nat>): (pieces: seq<seq<T>>)
    requires Sum(ns) == |s|
    ensures |pieces| == |ns| && forall i :: 0 <= i < |ns| ==> |pieces[i]| == ns[i]
    decreases |ns|
  {
    if ns == [] then []
    else
      var n := ns[|ns| - 1];
      Chop(s[..|s| - n], ns[..|ns| - 1]) + [s[|s| - n..]]
  }

  lemma {:induction false} ChopFlat<T>(s: seq<T>, ns: seq<nat>)
    requires Sum(ns) == |s|
    ensures Flat(Chop(s, ns)) == s
    decreases |ns|
  {
    if ns != [] {
      var n := ns[|ns| - 1];
      ChopFlat(s[..|s| - n], ns[..|ns| - 1]);
      FlatNext(Chop(s[..|s| - n], ns[..|ns| - 1]), s[|s| - n..]);
    }
  }

  /** The cells from `from` up to `to`: where the bytes of a read are put. */
  function Cells(from: nat, to: nat): (s: seq<nat>)
    requires from <= to
    ensures |s| == to - from && forall i :: 0 <= i < |s| ==> s[i] == from + i
  {
    seq(to - from, i => from + i)
  }

  /** The host fills the segments of a request, cell by cell, with the next bytes of the stream. */
  method Transfer(mem: array<Byte>, r: seq<seq<nat>>, stream: seq<Byte>, pos: nat) returns (pos': nat)
    requires pos + |Flat(r)| <= |stream| == mem.Length && Flat(r) == Cells(pos, pos + |Flat(r)|)
    requires mem[..pos] == stream[..pos]
    modifies mem
    ensures pos' == pos + |Flat(r)| && mem[..pos'] == stream[..pos']
  {
    hide Flat;
    var cells := Gather(r);
    for i := 0 to |cells|
      invariant mem[..pos + i] == stream[..pos + i]
    {
      mem[cells[i]] := stream[pos + i];
      assert mem[..pos + i + 1] == mem[..pos + i] + [stream[pos + i]];
    }
    pos' := pos + |cells|;
  }

  method Gather<T>(r: seq<seq<T>>) returns (cells: seq<T>)
    ensures cells == Flat(r)
  {
    cells := [];
    FlatNone(r[..0]);
    hide Flat;
    for i := 0 to |r|
      invariant cells == Flat(r[..i])
    {
      FlatTake(r, i);
      cells := cells + r[i];
    }
    assert r[..|r|] == r;
  }

  predicate InMemory(mem: seq<Byte>, cells: seq<nat>) { forall i :: 0 <= i < |cells| ==> cells[i] < |mem| }

  function Load(mem: seq<Byte>, cells: seq<nat>): (s: seq<Byte>)
    requires InMemory(mem, cells)
    ensures |s| == |cells| && forall i :: 0 <= i < |cells| ==> s[i] == mem[cells[i]]
  {
    seq(|cells|, i requires 0 <= i < |cells| => mem[cells[i]])
  }

  /** The cells of page `i` hold piece `i` of the memory. */
  lemma {:induction false} ChopCell(mem: seq<Byte>, ns: seq<nat>, i: nat)
    requires Sum(ns) == |mem| && i < |ns|
    ensures InMemory(mem, Chop(Cells(0, |mem|), ns)[i])
    ensures Load(mem, Chop(Cells(0, |mem|), ns)[i]) == Chop(mem, ns)[i]
    decreases |ns|
  {
    var n := ns[|ns| - 1];
    if i < |ns| - 1 {
      var front, ns' := mem[..|mem| - n], ns[..|ns| - 1];
      ChopCell(front, ns', i);
      assert Cells(0, |mem|)[..|mem| - n] == Cells(0, |front|);
      assert Load(mem, Chop(Cells(0, |front|), ns')[i]) == Load(front, Chop(Cells(0, |front|), ns')[i]);
    } else {
      assert Load(mem, Cells(0, |mem|)[|mem| - n..]) == mem[|mem| - n..];
    }
  }

  /** The requests of a read are carried out in order as long as the host takes them. */
  method Receive(mem: array<Byte>, rs: seq<seq<seq<nat>>>, stream: seq<Byte>, accepts: nat -> bool) returns (got: nat)
    requires |stream| == mem.Length && Sent(rs) <= Cells(0, |stream|)
    modifies mem
    ensures got <= |stream| && mem[..got] == stream[..got]
    ensures (forall i :: 0 <= i < |rs| ==> accepts(i)) ==> got == |Sent(rs)|
  {
    hide Flat, Sent;
    got := 0;
    NothingSent(rs);
    for i := 0 to |rs|
      invariant got == |Sent(rs[..i])| <= |stream| && mem[..got] == stream[..got]
    {
      SentPrefix(rs, i, Cells(0, |stream|));
      if !accepts(i) { return; }
      got := Transfer(mem, rs[i], stream, got);
    }
    assert rs[..|rs|] == rs;
  }

  lemma NothingSent<T>(rs: seq<seq<seq<T>>>)
    ensures Sent(rs[..0]) == []
  {}

  /** Request `i` of those that tile `all` begins where the ones before it end. */
  lemma SentPrefix(rs: seq<seq<seq<nat>>>, i: nat, all: seq<nat>)
    requires i < |rs| && Sent(rs) <= all && all == Cells(0, |all|)
    ensures var n := |Sent(rs[..i])|; var k := |Flat(rs[i])|;
      && n + k <= |all| && Flat(rs[i]) == Cells(n, n + k) && |Sent(rs[..i + 1])| == n + k
  {
    hide Flat, Sent, Cells;
    SentSplit(rs, i + 1);
    assert rs[..i + 1] == rs[..i] + [rs[i]];
    SentNext(rs[..i], rs[i]);
    var n, k := |Sent(rs[..i])|, |Flat(rs[i])|;
    assert Sent(rs[..i + 1]) <= all;
    assert Flat(rs[i]) == Sent(rs[..i + 1])[n..] == all[n..n + k];
    assert all[n..n + k] == Cells(n, n + k);
  }

  lemma {:induction false} SentSplit<T>(rs: seq<seq<seq<T>>>, i: nat)
    requires i <= |rs|
    ensures Sent(rs[..i]) <= Sent(rs)
    decreases |rs| - i
  {
    if i == |rs| {
      assert rs[..i] == rs;
    } else {
      SentSplit(rs, i + 1);
      assert rs[..i + 1] == rs[..i] + [rs[i]];
      hide Sent, Flat;
      SentNext(rs[..i], rs[i]);
    }
  }

  /** A read on a host that cannot scatter, end to end: pages are set up for the block-aligned total,
      the splitter cuts them into requests, the host fills them from the stream, and the packets end
      up with the stream's first bytes, as many as were received, in order and unchanged. */
  method ReadPackets(lens: seq<nat>, blockSize: nat, l: Limits, accepts: nat -> bool, stream: seq<Byte>)
    returns (ret: Ret, got: nat, out: Option<seq<seq<Byte>>>)
    requires blockSize > 0 && Positive(l) && |stream| == AlignUp(Sum(lens), blockSize)
    ensures ret == Invalid <==> lens == []
    ensures got <= |stream| && (ret == Ok ==> got == |stream|)
    ensures out.None? <==> lens == [] || ret == NoMem || LateEmptyPacket(lens, |stream|)
    ensures out.Some? ==>
      && |out.value| == |lens| && (forall i :: 0 <= i < |lens| ==> |out.value[i]| == lens[i])
      && |Flat(out.value)| == Sum(lens)
      && forall i :: 0 <= i < Sum(lens) && i < got ==> Flat(out.value)[i] == stream[i]
  {
    hide Flat, Sum, Sent, AlignUp, Chop, RequestOk, Full, TableTooSmall, LateEmptyPacket;
    if lens == [] { return Invalid, 0, None; }
    var total := |stream|;
    var pageLens := PageList(lens, blockSize);
    var cells := Chop(Cells(0, total), pageLens);
    ChopFlat(Cells(0, total), pageLens);
    SomePage(pageLens, total);
    var rs;
    ret, rs := SplitPackets(cells, l, accepts);
    if ret == NoMem { return ret, 0, None; }
    var mem := new Byte[total](_ => 0);
    got := Receive(mem, rs, stream, accepts);
    var pages := LoadPages(mem[..], cells, pageLens);
    PagesFit(pages, lens, pageLens, blockSize);
    LateEmpty(pages, lens, total);
    out := CopyBack(pages, lens);
  }

  /** An empty packet behind the last byte of a stream that the packets use up to its end. */
  ghost predicate LateEmptyPacket(lens: seq<nat>, total: nat) {
    exists d :: 0 < d < |lens| && lens[d] == 0 && Sum(lens[..d]) == total
  }

  /** Such a read: one block for the first packet, and an empty one behind it. */
  lemma EmptyPacketBehindBlock()
    ensures AlignUp(Sum([512, 0]), 512) == 512 && LateEmptyPacket([512, 0], 512)
  {
    assert [512, 0][..1] == [512] && [512][..0] == [];
    assert Sum([512]) == 512 && Sum([512, 0]) == 512;
    assert [512, 0][1] == 0;
  }

  lemma SomePage(pageLens: seq<nat>, total: nat)
    requires Sum(pageLens) == total && (total == 0 ==> pageLens == [0])
    ensures pageLens != []
  {}

  method LoadPages(mem: seq<Byte>, cells: seq<seq<nat>>, ghost ns: seq<nat>) returns (pages: seq<seq<Byte>>)
    requires Sum(ns) == |mem| && cells == Chop(Cells(0, |mem|), ns)
    ensures pages == Chop(mem, ns) && Flat(pages) == mem
  {
    ChopFlat(mem, ns);
    hide Flat, Chop, Sum, Cells;
    pages := [];
    for i := 0 to |cells|
      invariant |pages| == i && pages == Chop(mem, ns)[..i]
    {
      ChopCell(mem, ns, i);
      pages := pages + [Load(mem, cells[i])];
    }
  }

  lemma PagesFit(pages: seq<seq<Byte>>, lens: seq<nat>, ns: seq<nat>, blockSize: nat)
    requires blockSize > 0 && |pages| == |ns| && (forall i :: 0 <= i < |ns| ==> |pages[i]| == ns[i])
    requires |Flat(pages)| == AlignUp(Sum(lens), blockSize)
    requires (forall n :: n in ns ==> Sum(lens) > 0 ==> n > 0) && (Sum(lens) == 0 ==> ns == [0])
    ensures PagesOk(pages) && Sum(lens) <= |Flat(pages)|
  {
    hide Flat, Sum;
    if Sum(lens) == 0 {
      assert pages == [[]];
    } else {
      forall p | p in pages ensures p != [] {
        var i :| 0 <= i < |pages| && pages[i] == p;
        assert ns[i] in ns;
      }
    }
  }

  lemma LateEmpty(pages: seq<seq<Byte>>, lens: seq<nat>, total: nat)
    requires |Flat(pages)| == total && pages != []
    ensures LateEmptyPacket(lens, total) <==> exists d :: 0 <= d < |lens| && lens[d] == 0 && RunOut(pages, lens, d)
  {
    hide Flat, Sum;
    if LateEmptyPacket(lens, total) {
      var d :| 0 < d < |lens| && lens[d] == 0 && Sum(lens[..d]) == total;
      assert RunOut(pages, lens, d);
    }
  }
}
