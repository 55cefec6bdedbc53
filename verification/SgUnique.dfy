/** There is exactly one way to cut packets into requests as the splitter of
    wifi-bcm4350/src/bcmsdh.c:423-484 is specified to do. */
module SgUnique {
  import opened Basics
  import opened SgList

  /** What the splitter's contract says of the requests of a transfer that succeeds. */
  ghost predicate IsSplit<T>(rs: seq<seq<seq<T>>>, pkts: seq<seq<T>>, l: Limits, segLimit: nat) {
    && Sent(rs) == Flat(pkts) && AllExact(rs, pkts, l)
    && (forall r :: r in rs ==> RequestOk(r, l) && Prompt(r, l, segLimit))
    && forall i :: 0 <= i < |rs| - 1 ==> Full(rs[i], l, segLimit)
  }

  /** Request `r` holds the bytes from `start` on. */
  ghost predicate Holds<T>(r: seq<seq<T>>, start: nat, all: seq<T>) {
    start + |Flat(r)| <= |all| && Flat(r) == all[start..start + |Flat(r)|]
  }

  lemma PieceIs<T>(r: seq<seq<T>>, j: nat, start: nat, all: seq<T>)
    requires j < |r| && Holds(r, start, all)
    ensures var n := |Flat(r[..j])|;
      start + n + |r[j]| <= |all| && r[j] == all[start + n..start + n + |r[j]|]
  {
    FlatTake(r, j);
    PrefixOfAll(r, j + 1);
    hide Flat;
    var n, m := |Flat(r[..j])|, |r[j]|;
    var f := Flat(r[..j + 1]);
    assert r[j] == f[n..n + m] == Flat(r)[n..n + m];
    Inner(all, start, |Flat(r)|, n, m);
  }

  lemma Inner<T>(all: seq<T>, start: nat, len: nat, n: nat, m: nat)
    requires start + len <= |all| && n + m <= len
    ensures all[start..start + len][n..n + m] == all[start + n..start + n + m]
  {
    var s, t := all[start..start + len][n..n + m], all[start + n..start + n + m];
    assert forall k :: 0 <= k < m ==> s[k] == t[k];
  }

  /** Two requests from the same byte on have the same segments, as long as both have any. */
  lemma {:induction false} SameSegments<T>(a: seq<seq<T>>, b: seq<seq<T>>, start: nat,
                                           pkts: seq<seq<T>>, l: Limits, k: nat)
    requires k <= |a| && k <= |b| && Exact(a, start, pkts, l) && Exact(b, start, pkts, l)
    requires Holds(a, start, Flat(pkts)) && Holds(b, start, Flat(pkts))
    ensures a[..k] == b[..k]
    decreases k
  {
    if k > 0 {
      SameSegments(a, b, start, pkts, l, k - 1);
      assert SegmentExact(a, k - 1, start, pkts, l) && SegmentExact(b, k - 1, start, pkts, l);
      PieceIs(a, k - 1, start, Flat(pkts));
      PieceIs(b, k - 1, start, Flat(pkts));
      hide Flat, PacketLeft, Exact, Holds;
      assert a[k - 1] == b[k - 1];
      assert a[..k] == a[..k - 1] + [a[k - 1]] && b[..k] == b[..k - 1] + [b[k - 1]];
    }
  }

  /** A request that goes on where another has ended found that one not full. */
  lemma LongerFindsRoom<T>(a: seq<seq<T>>, b: seq<seq<T>>, l: Limits, segLimit: nat)
    requires 0 < |a| < |b| && a == b[..|a|] && RequestOk(b, l) && Prompt(b, l, segLimit)
    ensures !Full(a, l, segLimit) && |Flat(a)| < |Flat(b)|
  {
    hide *;
    var front := b[..|b| - 1];
    assert front[..|a|] == a;
    PrefixOfAll(front, |a|);
    LastPiece(b, l);
    FrontNotFull(b, l, segLimit);
    IsFull(a, l, segLimit);
    IsFull(front, l, segLimit);
  }

  lemma FrontNotFull<T>(b: seq<seq<T>>, l: Limits, segLimit: nat)
    requires |b| > 1 && Prompt(b, l, segLimit)
    ensures !Full(b[..|b| - 1], l, segLimit)
  {
    hide Full;
  }

  lemma LastPiece<T>(b: seq<seq<T>>, l: Limits)
    requires RequestOk(b, l)
    ensures |Flat(b[..|b| - 1])| < |Flat(b)|
  {
    assert b[|b| - 1] in b;
  }

  /** What a split says of one request. */
  lemma OneOf<T>(rs: seq<seq<seq<T>>>, i: nat, pkts: seq<seq<T>>, l: Limits, segLimit: nat)
    requires i < |rs| && IsSplit(rs, pkts, l, segLimit)
    ensures Exact(rs[i], |Sent(rs[..i])|, pkts, l) && RequestOk(rs[i], l) && Prompt(rs[i], l, segLimit)
    ensures i < |rs| - 1 ==> Full(rs[i], l, segLimit)
    ensures Sent(rs) == Flat(pkts)
  {
    assert rs[i] in rs;
    hide Sent, Flat, Exact, RequestOk, Prompt, Full;
  }

  lemma RequestAt<T>(rs: seq<seq<seq<T>>>, i: nat, pkts: seq<seq<T>>, l: Limits, segLimit: nat)
    requires i < |rs| && IsSplit(rs, pkts, l, segLimit)
    ensures var start := |Sent(rs[..i])|; var r := rs[i];
      && Exact(r, start, pkts, l) && Holds(r, start, Flat(pkts)) && RequestOk(r, l) && Prompt(r, l, segLimit)
      && (start + |Flat(r)| == |Flat(pkts)| || Full(r, l, segLimit)) && start < |Flat(pkts)|
  {
    hide *;
    OneOf(rs, i, pkts, l, segLimit);
    SentSplit(rs, i + 1);
    SentNext(rs[..i], rs[i]);
    NotEmpty(rs[i], l);
    assert rs[..i + 1] == rs[..i] + [rs[i]];
    InTheMiddle(Sent(rs[..i]), rs[i], Flat(pkts));
    if i == |rs| - 1 { assert rs[..i + 1] == rs; }
  }

  lemma InTheMiddle<T>(a: seq<T>, r: seq<seq<T>>, all: seq<T>)
    requires a + Flat(r) <= all
    ensures |a| + |Flat(r)| <= |all| && Holds(r, |a|, all)
  {
    assert (a + Flat(r))[|a|..] == Flat(r);
    hide Flat;
  }

  lemma NotEmpty<T>(r: seq<seq<T>>, l: Limits)
    requires RequestOk(r, l)
    ensures |Flat(r)| > 0
  {
    assert r[|r| - 1] in r;
  }

  lemma SameRequest<T>(a: seq<seq<T>>, b: seq<seq<T>>, start: nat, pkts: seq<seq<T>>, l: Limits, segLimit: nat)
    requires Exact(a, start, pkts, l) && Holds(a, start, Flat(pkts)) && RequestOk(a, l) && Prompt(a, l, segLimit)
    requires Exact(b, start, pkts, l) && Holds(b, start, Flat(pkts)) && RequestOk(b, l) && Prompt(b, l, segLimit)
    requires start + |Flat(a)| == |Flat(pkts)| || Full(a, l, segLimit)
    requires start + |Flat(b)| == |Flat(pkts)| || Full(b, l, segLimit)
    ensures a == b
  {
    var k := if |a| < |b| then |a| else |b|;
    SameSegments(a, b, start, pkts, l, k);
    assert a != [] && b != [];
    if |a| < |b| { LongerFindsRoom(a, b, l, segLimit); }
    if |b| < |a| { LongerFindsRoom(b, a, l, segLimit); }
    hide Flat, Exact, Full, RequestOk, Prompt;
  }

  lemma {:induction false} SameRequests<T>(rs1: seq<seq<seq<T>>>, rs2: seq<seq<seq<T>>>, pkts: seq<seq<T>>,
                                           l: Limits, segLimit: nat, i: nat)
    requires IsSplit(rs1, pkts, l, segLimit) && IsSplit(rs2, pkts, l, segLimit) && i <= |rs1| && i <= |rs2|
    ensures rs1[..i] == rs2[..i]
    decreases i
  {
    hide *;
    if i > 0 {
      SameRequests(rs1, rs2, pkts, l, segLimit, i - 1);
      RequestAt(rs1, i - 1, pkts, l, segLimit);
      RequestAt(rs2, i - 1, pkts, l, segLimit);
      SameRequest(rs1[i - 1], rs2[i - 1], |Sent(rs1[..i - 1])|, pkts, l, segLimit);
      assert rs1[..i] == rs1[..i - 1] + [rs1[i - 1]] && rs2[..i] == rs2[..i - 1] + [rs2[i - 1]];
    }
  }

  /** Two splits of the same packets are the same, request by request and segment by segment. */
  lemma SplitIsUnique<T>(rs1: seq<seq<seq<T>>>, rs2: seq<seq<seq<T>>>, pkts: seq<seq<T>>, l: Limits, segLimit: nat)
    requires IsSplit(rs1, pkts, l, segLimit) && IsSplit(rs2, pkts, l, segLimit)
    ensures rs1 == rs2
  {
    if |rs1| > |rs2| {
      SameRequests(rs1, rs2, pkts, l, segLimit, |rs2|);
      NoMoreRequests(rs2, rs1, pkts, l, segLimit);
    } else if |rs2| > |rs1| {
      SameRequests(rs1, rs2, pkts, l, segLimit, |rs1|);
      NoMoreRequests(rs1, rs2, pkts, l, segLimit);
    } else {
      SameRequests(rs1, rs2, pkts, l, segLimit, |rs1|);
    }
  }

  lemma NoMoreRequests<T>(rs1: seq<seq<seq<T>>>, rs2: seq<seq<seq<T>>>, pkts: seq<seq<T>>, l: Limits, segLimit: nat)
    requires IsSplit(rs1, pkts, l, segLimit) && IsSplit(rs2, pkts, l, segLimit) && |rs1| <= |rs2| && rs2[..|rs1|] == rs1
    ensures |rs1| == |rs2|
  {
    if |rs1| < |rs2| { RequestAt(rs2, |rs1|, pkts, l, segLimit); }
    hide Sent, Flat, AllExact, RequestOk, Prompt, Full;
  }
}
