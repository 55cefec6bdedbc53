/** The producer/consumer ring of wifi-bcm4350/src/commonring.c. Positions are counted from the
    start of time, so that a pointer is a count wrapped at the depth; the driver sees only its own
    pointer and a possibly stale copy of the peer's. */
module CommonRing {
  import opened Basics

  /** A work item or completion; its contents do not matter here. */
  type Item = nat

  /** The submitting side. `wPtr` is the driver's write pointer; `written` items have been reserved and
      filled, `published` of them are visible to the peer, which has really read `taken`; the driver
      last saw `seen`. `log` is every item in order, `slots` the shared memory. */
  datatype Ring = Ring(depth: nat, wPtr: nat, written: int, published: nat, taken: nat, seen: nat,
                       wasFull: bool, slots: seq<Item>, log: seq<Item>)

  ghost predicate Inv(s: Ring) {
    && 1 <= s.depth < 0x1_0000 && |s.slots| == s.depth && |s.log| == s.written
    && s.seen <= s.taken <= s.published <= s.written < s.seen + s.depth
    && s.wPtr == Pos(s.written, s.depth)
    && forall k {:trigger s.log[k]} :: s.taken <= k < s.written ==> s.slots[Pos(k, s.depth)] == s.log[k]
  }

  /** What the driver computes from its two pointers. */
  function Available(depth: nat, rPtr: nat, wPtr: nat): int {
    if rPtr <= wPtr then depth - wPtr + rPtr else rPtr - wPtr
  }

  function Wrap(p: nat, depth: nat): nat { if p == depth then 0 else p }

  function Free(s: Ring): int { s.depth - (s.written - s.taken) }

  // ----- counts and pointers

  /** Where a pointer stands after `k` items: it advances by one and wraps at the depth. */
  function Pos(k: nat, d: nat): (p: nat)
    requires d > 0
    ensures p < d
  {
    if k == 0 then 0 else Wrap(Pos(k - 1, d) + 1, d)
  }

  lemma {:induction false} PosStep(a: nat, n: nat, d: nat)
    requires d > 0 && Pos(a, d) + n <= d
    ensures Pos(a + n, d) == Wrap(Pos(a, d) + n, d)
    decreases n
  {
    if n > 0 { PosStep(a, n - 1, d); }
  }

  lemma {:induction false} PosBack(w: nat, k: nat, d: nat)
    requires d > 0 && k <= w && k <= d
    ensures Pos(w - k, d) == if k <= Pos(w, d) then Pos(w, d) - k else Pos(w, d) - k + d
    decreases k
  {
    if k > 0 { PosBack(w, k - 1, d); }
  }

  /** The pointer arithmetic gives the space left by the count of items between the pointers. */
  lemma {:induction false} AvailableIsCount(w: nat, r: nat, d: nat)
    requires d > 0 && r <= w < r + d
    ensures Available(d, Pos(r, d), Pos(w, d)) == d - (w - r)
    decreases w
  {
    if w > r { AvailableIsCount(w - 1, r, d); }
  }

  lemma PosUnique(a: nat, b: nat, d: nat)
    requires d > 0 && a <= b < a + d && Pos(a, d) == Pos(b, d)
    ensures a == b
  {
    AvailableIsCount(b, a, d);
  }

  // ----- the operations on counts

  function Refresh(s: Ring): Ring { s.(seen := s.taken) }

  /** Fill the slots from the write pointer on; the batch does not wrap. */
  function Push(s: Ring, items: seq<Item>): (s': Ring)
    requires s.depth > 0 && |s.slots| == s.depth && s.wPtr + |items| <= s.depth
    ensures s'.depth == s.depth && |s'.slots| == s.depth && |s'.log| == |s.log| + |items|
  {
    var p := s.wPtr;
    s.(wPtr := Wrap(p + |items|, s.depth), written := s.written + |items|,
       slots := s.slots[..p] + items + s.slots[p + |items|..], log := s.log + items)
  }

  /** How many of `n` items a reservation gets: what is free but one slot, without wrapping. */
  function Granted(s: Ring, n: nat): (k: nat)
    requires s.wPtr < s.depth && s.seen <= s.written < s.seen + s.depth
    ensures k <= n && s.wPtr + k <= s.depth && s.written + k < s.seen + s.depth
    ensures k == n || s.wPtr + k == s.depth || s.written + k + 1 == s.seen + s.depth
  {
    var avail := s.depth - (s.written - s.seen);
    if avail <= 1 then 0
    else
      var k := if n < avail - 1 then n else avail - 1;
      if k + s.wPtr > s.depth then s.depth - s.wPtr else k
  }

  /** The peer's pointer is looked up again only when space seems to be short. */
  function Refreshed(s: Ring): Ring { if s.depth - (s.written - s.seen) > 1 then s else Refresh(s) }

  /** Reserve and fill up to |items| slots; refreshes the peer's pointer once when out of space. */
  function Reserve(s: Ring, items: seq<Item>): (r: (Ring, Option<nat>))
    requires Inv(s)
    ensures r.1.Some? ==> r.1.value <= |items|
  {
    var s1 := Refreshed(s);
    if s1.depth - (s1.written - s1.seen) > 1 then
      (Push(s1, items[..Granted(s1, |items|)]), Some(Granted(s1, |items|)))
    else (s1.(wasFull := true), None)
  }

  function Publish(s: Ring): Ring
    requires s.written >= 0
  {
    s.(published := s.written)
  }

  /** The pointer brcmf_commonring_write_cancel computes, in 16-bit arithmetic. */
  function CancelPtr(wPtr: nat, k: nat, depth: nat): nat {
    if wPtr == 0 then (depth - k) % 0x1_0000 else (wPtr - k) % 0x1_0000
  }

  /** Withdrawing the last `k` items, with the pointer as the code computes it. */
  function Cancel(s: Ring, k: nat): Ring {
    s.(wPtr := CancelPtr(s.wPtr, k, s.depth), written := s.written - k,
       log := if k <= |s.log| then s.log[..|s.log| - k] else [])
  }

  function WriteAvailable(s: Ring): (r: (Ring, bool)) {
    var avail := s.depth - (s.written - s.seen);
    if avail > 1 && !s.wasFull then (s, true)
    else if avail > 1 && avail > s.depth / 8 then (s.(wasFull := false), true)
    else
      var s1 := Refresh(s);
      var avail1 := s1.depth - (s1.written - s1.seen);
      if avail1 <= 1 then (s1.(wasFull := true), false)
      else if !s1.wasFull then (s1, true)
      else if avail1 > s1.depth / 8 then (s1.(wasFull := false), true)
      else (s1, false)
  }

  /** The peer takes up to `n` published items. */
  function PeerTake(s: Ring, n: nat): Ring {
    if s.taken + n <= s.published then s.(taken := s.taken + n) else s
  }

  /** The items the peer finds in memory when it takes `n`. */
  function Found(s: Ring, n: nat): seq<Item>
    requires s.depth > 0 && |s.slots| == s.depth
  {
    seq(n, i requires 0 <= i < n => s.slots[Pos(s.taken + i, s.depth)])
  }

  lemma FoundLength(s: Ring, n: nat)
    requires s.depth > 0 && |s.slots| == s.depth
    ensures |Found(s, n)| == n
  {}

  lemma FoundAt(s: Ring, n: nat, i: nat)
    requires s.depth > 0 && |s.slots| == s.depth && i < n
    ensures |Found(s, n)| == n && Found(s, n)[i] == s.slots[Pos(s.taken + i, s.depth)]
  {}

  // ----- what they keep

  lemma PushKeepsInv(s: Ring, items: seq<Item>)
    requires Inv(s) && s.written + |items| < s.seen + s.depth && s.wPtr + |items| <= s.depth
    ensures Inv(Push(s, items))
  {
    PosStep(s.written, |items|, s.depth);
    var s' := Push(s, items);
    forall k | s'.taken <= k < s'.written ensures s'.slots[Pos(k, s.depth)] == s'.log[k] { SlotHolds(s, items, k); }
    hide Pos;
  }

  /** A slot that is still to be read keeps its item, and the new ones are where they belong. */
  lemma SlotHolds(s: Ring, items: seq<Item>, k: nat)
    requires Inv(s) && s.written + |items| < s.seen + s.depth && s.wPtr + |items| <= s.depth
    requires s.taken <= k < s.written + |items|
    ensures Push(s, items).slots[Pos(k, s.depth)] == Push(s, items).log[k]
  {
    var w := s.written;
    if k >= w {
      PosStep(w, k - w, s.depth);
      hide Pos;
    } else {
      assert s.slots[Pos(k, s.depth)] == s.log[k];
      OldSlotApart(w, k, |items|, s.depth);
      hide Pos, Inv;
    }
  }

  lemma OldSlotApart(w: nat, k: nat, n: nat, d: nat)
    requires d > 0 && k < w && w + n <= k + d && Pos(w, d) + n <= d
    ensures Pos(k, d) < Pos(w, d) || Pos(k, d) >= Pos(w, d) + n
  {
    var i := Pos(k, d) - Pos(w, d);
    if 0 <= i < n {
      PosStep(w, i, d);
      PosUnique(k, w + i, d);
    }
  }

  /** Space computed from the stale pointer never exceeds the real space, and the slots of a new
      reservation hold nothing the peer has still to read. */
  lemma StaleSpaceIsSafe(s: Ring, i: nat, k: nat)
    requires Inv(s) && s.depth - (s.written - s.seen) > 1
    requires i < s.depth - (s.written - s.seen) - 1 && s.taken <= k < s.written
    ensures s.depth - (s.written - s.seen) <= Free(s)
    ensures Pos(s.written + i, s.depth) != Pos(k, s.depth)
  {
    if Pos(s.written + i, s.depth) == Pos(k, s.depth) { PosUnique(k, s.written + i, s.depth); }
  }

  lemma ReserveKeepsInv(s: Ring, items: seq<Item>)
    requires Inv(s)
    ensures var (s', r) := Reserve(s, items);
      && Inv(s')
      && (r.Some? ==>
            && s' == s.(seen := s'.seen, wPtr := s'.wPtr, written := s.written + r.value,
                        slots := s'.slots, log := s.log + items[..r.value])
            && s.wPtr + r.value <= s.depth)
      && (r.None? <==> Free(s) <= 1)
      && (r.None? ==> s' == s.(seen := s.taken, wasFull := true))
      && (r.Some? && |items| > 0 ==> r.value > 0)
  {
    var s1 := Refreshed(s);
    if s1.depth - (s1.written - s1.seen) > 1 { PushKeepsInv(s1, items[..Granted(s1, |items|)]); }
  }

  /** What a withdrawal must respect: only unpublished items, none behind the start of the ring and,
      with the pointer at the start, at least one. */
  predicate Proper(s: Ring, k: nat) {
    k <= s.written - s.published && if s.wPtr == 0 then k > 0 else k <= s.wPtr
  }

  /** The code's pointer arithmetic restores the earlier pointer exactly when the cancelled items do
      not reach back across the start and, at the start, at least one is cancelled. */
  lemma CancelRestoresIff(w: nat, k: nat, d: nat)
    requires 1 <= d < 0x1_0000 && k <= w && k <= d
    ensures CancelPtr(Pos(w, d), k, d) == Pos(w - k, d) <==> if Pos(w, d) == 0 then k > 0 else k <= Pos(w, d)
  {
    PosBack(w, k, d);
  }

  lemma CancelKeepsInvIff(s: Ring, k: nat)
    requires Inv(s)
    ensures Inv(Cancel(s, k)) <==> Proper(s, k)
  {
    if k <= s.written - s.published { CancelRestoresIff(s.written, k, s.depth); }
  }

  /** Otherwise the pointer is wrong and, in any ring of at most 32768 items, outside the ring: one
      past the last slot, or close to 65535. */
  lemma ImproperCancelLeavesRing(s: Ring, k: nat)
    requires Inv(s) && k <= s.written - s.published && !Proper(s, k)
    ensures var s' := Cancel(s, k);
      && s'.wPtr != Pos(s'.written, s.depth)
      && s'.wPtr == (if s.wPtr == 0 then s.depth else 0x1_0000 + s.wPtr - k)
      && (s.depth <= 0x8000 ==> s'.wPtr >= s.depth)
  {
    CancelRestoresIff(s.written, k, s.depth);
  }

  /** The peer finds exactly the next items of the log, in the order they were written. */
  lemma PeerReadsInOrder(s: Ring, n: nat)
    requires Inv(s) && s.taken + n <= s.published
    ensures Found(s, n) == s.log[s.taken..s.taken + n]
    ensures Inv(PeerTake(s, n)) && PeerTake(s, n).taken == s.taken + n
  {
    forall i | 0 <= i < n ensures Found(s, n)[i] == s.log[s.taken..s.taken + n][i] {
      assert s.slots[Pos(s.taken + i, s.depth)] == s.log[s.taken + i];
    }
  }

  // ----- runs

  /** `Batch` is what the driver does with its buffers (msgbuf.c:911-957): it reserves slots for all of
      `items` and, when it can prepare only `keep` of them, cancels the rest. `Withdraw` is any other
      cancellation. */
  datatype Event =
    | Submit(items: seq<Item>)
    | Batch(items: seq<Item>, keep: nat)
    | Complete
    | Withdraw(k: nat)
    | Ask
    | Take(n: nat)

  /** Any step of driver or peer. */
  function Step(s: Ring, e: Event): (s': Ring)
    requires Inv(s)
  {
    match e
    case Submit(items) => Reserve(s, items).0
    case Batch(items, keep) =>
      var (s1, r) := Reserve(s, items);
      if r.Some? && keep < r.value then Cancel(s1, r.value - keep) else s1
    case Complete => Publish(s)
    case Withdraw(k) => Cancel(s, k)
    case Ask => WriteAvailable(s).0
    case Take(n) => PeerTake(s, n)
  }

  /** A batch never wraps in the middle, so whatever part of it is cancelled, exactly the kept items
      have been written and the pointer stands behind them. */
  lemma BatchKeepsInv(s: Ring, items: seq<Item>, keep: nat)
    requires Inv(s)
    ensures var s' := Step(s, Batch(items, keep)); var r := Reserve(s, items).1;
      && Inv(s')
      && (r.Some? ==> var n := if keep < r.value then keep else r.value;
            s'.written == s.written + n && s'.log == s.log + items[..n] && s'.published == s.published)
      && (r.None? ==> s'.log == s.log && s'.wasFull)
      && s'.depth == s.depth && s'.taken == s.taken && (s.wasFull ==> s'.wasFull)
  {
    ReserveKeepsInv(s, items);
    var (s1, r) := Reserve(s, items);
    hide Reserve, Pos;
    if r.Some? && keep < r.value {
      var k := r.value - keep;
      EndOfBatch(s, s1, r.value);
      CancelKeepsInvIff(s1, k);
      assert s1.log[..|s1.log| - k] == s.log + items[..keep];
    }
  }

  lemma EndOfBatch(s: Ring, s1: Ring, n: nat)
    requires Inv(s) && Inv(s1) && s1.depth == s.depth && s1.written == s.written + n && s.wPtr + n <= s.depth
    ensures s1.wPtr == Wrap(s.wPtr + n, s.depth)
  {
    PosStep(s.written, n, s.depth);
  }

  predicate ProperStep(s: Ring, e: Event) { e.Withdraw? ==> Proper(s, e.k) }

  /** A step keeps the ring's invariant if and only if it is no improper withdrawal; and then what was
      published stays. */
  lemma StepKeepsInvIff(s: Ring, e: Event)
    requires Inv(s)
    ensures var s' := Step(s, e);
      && (Inv(s') <==> ProperStep(s, e))
      && s'.depth == s.depth && s'.published >= s.published && s'.taken >= s.taken
      && (ProperStep(s, e) ==> |s'.log| >= s.published && s'.log[..s.published] == s.log[..s.published])
  {
    match e
    case Submit(items) => SubmitStep(s, items); hide Step, Inv;
    case Batch(items, keep) => BatchKeepsInv(s, items, keep); hide Step, Pos;
    case Withdraw(k) => WithdrawStep(s, k); hide Step, Inv;
    case _ => PlainStep(s, e); hide Step, Inv;
  }

  lemma SubmitStep(s: Ring, items: seq<Item>)
    requires Inv(s)
    ensures var s' := Step(s, Submit(items));
      && Inv(s') && s'.depth == s.depth && s'.published == s.published && s'.taken == s.taken
      && |s'.log| >= s.published && s'.log[..s.published] == s.log[..s.published]
  {
    hide Reserve, Pos;
    ReserveKeepsInv(s, items);
  }

  lemma WithdrawStep(s: Ring, k: nat)
    requires Inv(s)
    ensures var s' := Step(s, Withdraw(k));
      && (Inv(s') <==> Proper(s, k)) && s'.depth == s.depth && s'.published == s.published && s'.taken == s.taken
      && (Proper(s, k) ==> |s'.log| >= s.published && s'.log[..s.published] == s.log[..s.published])
  {
    hide Pos;
    CancelKeepsInvIff(s, k);
  }

  lemma PlainStep(s: Ring, e: Event)
    requires Inv(s) && (e.Complete? || e.Ask? || e.Take?)
    ensures var s' := Step(s, e);
      Inv(s') && s'.depth == s.depth && s'.published >= s.published && s'.taken >= s.taken && s'.log == s.log
  {
    hide Pos, Reserve, Cancel;
  }

  /** A run ends early once the invariant is gone: from there on anything may be overwritten. */
  ghost function Run(s: Ring, es: seq<Event>): (s': Ring)
    decreases |es|
  {
    if es == [] || !Inv(s) then s else Run(Step(s, es[0]), es[1..])
  }

  ghost predicate ProperRun(s: Ring, es: seq<Event>)
    decreases |es|
  {
    es == [] || (Inv(s) && ProperStep(s, es[0]) && ProperRun(Step(s, es[0]), es[1..]))
  }

  /** A run keeps the invariant to its end if and only if all its withdrawals are proper. */
  lemma {:induction false} RunKeepsInvIff(s: Ring, es: seq<Event>)
    requires Inv(s)
    ensures Inv(Run(s, es)) <==> ProperRun(s, es)
    decreases |es|
  {
    if es != [] {
      StepKeepsInvIff(s, es[0]);
      hide Step, Inv, ProperStep;
      if Inv(Step(s, es[0])) { RunKeepsInvIff(Step(s, es[0]), es[1..]); }
    }
  }

  lemma {:induction false} PublishedIsStable(s: Ring, es: seq<Event>)
    requires Inv(s) && ProperRun(s, es)
    ensures var s' := Run(s, es);
      s'.depth == s.depth && s.published <= s'.published <= |s'.log| && s'.log[..s.published] == s.log[..s.published]
    decreases |es|
  {
    if es != [] {
      var s1, s' := Step(s, es[0]), Run(s, es);
      StepKeepsInvIff(s, es[0]);
      hide Step, Pos, ProperStep;
      PublishedIsStable(s1, es[1..]);
      assert s'.log[..s.published] == s'.log[..s1.published][..s.published];
      assert s1.log[..s1.published][..s.published] == s1.log[..s.published];
    }
  }

  /** In every run whose withdrawals are proper, at most depth - 1 slots are in use, what was published
      is never changed, and the items the peer finds next are the published ones it has not taken, in
      order; in every other run the driver's write pointer or its count ends up wrong. */
  lemma RingSafety(s: Ring, es: seq<Event>)
    requires Inv(s)
    ensures var s' := Run(s, es);
      && (Inv(s') <==> ProperRun(s, es))
      && (ProperRun(s, es) ==>
            && s'.written - s'.taken < s'.depth == s.depth
            && s'.published >= s.published && s'.log[..s.published] == s.log[..s.published]
            && Found(s', s'.published - s'.taken) == s'.log[s'.taken..s'.published])
  {
    hide Found, Pos, Run, ProperRun;
    var s' := Run(s, es);
    RunKeepsInvIff(s, es);
    if ProperRun(s, es) {
      PublishedIsStable(s, es);
      PeerReadsInOrder(s', s'.published - s'.taken);
    }
  }

  /** The driver's own runs, which cancel only parts of a batch just reserved, are all safe. */
  lemma {:induction false} BatchRunsAreProper(s: Ring, es: seq<Event>)
    requires Inv(s) && forall e :: e in es ==> !e.Withdraw?
    ensures ProperRun(s, es)
    decreases |es|
  {
    if es != [] {
      assert es[0] in es && forall e :: e in es[1..] ==> e in es;
      StepKeepsInvIff(s, es[0]);
      hide Step, Inv;
      BatchRunsAreProper(Step(s, es[0]), es[1..]);
    }
  }

  // ----- a run that is not proper

  /** A ring of four whose items are all zero. */
  function Four(wPtr: nat, written: int, published: nat, taken: nat, seen: nat): Ring {
    Ring(4, wPtr, written, published, taken, seen, false, [0, 0, 0, 0],
         if written < 0 then [] else seq(written, _ => 0))
  }

  lemma FourIsInv(written: nat, published: nat, taken: nat, seen: nat)
    requires seen <= taken <= published <= written < seen + 4
    ensures Inv(Four(Pos(written, 4), written, published, taken, seen))
  {
    hide Pos;
  }

  lemma FirstPositions()
    ensures Pos(0, 4) == 0 && Pos(3, 4) == 3 && Pos(4, 4) == 0 && Pos(5, 4) == 1
  {
    assert Pos(1, 4) == 1 && Pos(2, 4) == 2;
  }

  lemma {:induction false} RunCons(s: Ring, e: Event, es: seq<Event>)
    requires Inv(s)
    ensures Run(s, [e] + es) == Run(Step(s, e), es)
    ensures ProperRun(s, [e] + es) <==> ProperStep(s, e) && ProperRun(Step(s, e), es)
  {
    assert ([e] + es)[1..] == es;
  }

  lemma FourSubmit(wPtr: nat, written: nat, published: nat, taken: nat, seen: nat, n: nat)
    requires Inv(Four(wPtr, written, published, taken, seen)) && 0 < n < 4 - (written - taken)
    requires wPtr + n <= 4 && (n < 4 - (written - seen) || 4 - (written - seen) <= 1)
    ensures var seen' := if 4 - (written - seen) > 1 then seen else taken;
      Step(Four(wPtr, written, published, taken, seen), Submit(seq(n, _ => 0))) ==
      Four(Wrap(wPtr + n, 4), written + n, published, taken, seen')
  {
    hide Pos, Inv;
    var s := Refreshed(Four(wPtr, written, published, taken, seen));
    assert s == Four(wPtr, written, published, taken, if 4 - (written - seen) > 1 then seen else taken);
    var zeros: seq<Item> := seq(n, _ => 0);
    assert zeros[..n] == zeros;
    FourPush(s, wPtr, written, zeros);
  }

  lemma FourPush(s: Ring, wPtr: nat, written: nat, zeros: seq<Item>)
    requires s == Four(wPtr, written, s.published, s.taken, s.seen) && wPtr + |zeros| <= 4
    requires zeros == seq(|zeros|, _ => 0)
    ensures Push(s, zeros) == Four(Wrap(wPtr + |zeros|, 4), written + |zeros|, s.published, s.taken, s.seen)
  {
    var n := |zeros|;
    assert s.log + zeros == seq(written + n, _ => 0);
    assert s.slots[..wPtr] + zeros + s.slots[wPtr + n..] == s.slots;
  }

  lemma FourSteps()
    ensures Inv(Four(0, 0, 0, 0, 0)) && Step(Four(0, 0, 0, 0, 0), Submit(seq(3, _ => 0))) == Four(3, 3, 0, 0, 0)
    ensures Inv(Four(3, 3, 0, 0, 0)) && Step(Four(3, 3, 0, 0, 0), Complete) == Four(3, 3, 3, 0, 0)
    ensures Inv(Four(3, 3, 3, 0, 0)) && Step(Four(3, 3, 3, 0, 0), Take(3)) == Four(3, 3, 3, 3, 0)
    ensures Inv(Four(3, 3, 3, 3, 0)) && Step(Four(3, 3, 3, 3, 0), Submit(seq(1, _ => 0))) == Four(0, 4, 3, 3, 3)
    ensures Inv(Four(0, 4, 3, 3, 3)) && Step(Four(0, 4, 3, 3, 3), Submit(seq(1, _ => 0))) == Four(1, 5, 3, 3, 3)
    ensures Inv(Four(1, 5, 3, 3, 3))
  {
    hide Inv, Reserve, Pos;
    FirstPositions();
    FourIsInv(0, 0, 0, 0);
    FourIsInv(3, 0, 0, 0);
    FourIsInv(3, 3, 0, 0);
    FourIsInv(3, 3, 3, 0);
    FourIsInv(4, 3, 3, 3);
    FourIsInv(5, 3, 3, 3);
    FourSubmit(0, 0, 0, 0, 0, 3);
    FourSubmit(3, 3, 3, 3, 0, 1);
    FourSubmit(0, 4, 3, 3, 3, 1);
  }

  /** Three items are written, published and read. */
  lemma FourRead(es: seq<Event>)
    ensures Inv(Four(0, 0, 0, 0, 0))
    ensures Run(Four(0, 0, 0, 0, 0), [Submit(seq(3, _ => 0))] + ([Complete] + ([Take(3)] + es))) ==
            Run(Four(3, 3, 3, 3, 0), es)
  {
    FourSteps();
    hide Inv, Step, Four, Pos, Run;
    RunCons(Four(0, 0, 0, 0, 0), Submit(seq(3, _ => 0)), [Complete] + ([Take(3)] + es));
    RunCons(Four(3, 3, 0, 0, 0), Complete, [Take(3)] + es);
    RunCons(Four(3, 3, 3, 0, 0), Take(3), es);
  }

  /** Two more are written and both withdrawn. */
  lemma FourWithdrawn()
    ensures var es := [Submit(seq(1, _ => 0))] + ([Submit(seq(1, _ => 0))] + ([Withdraw(2)] + []));
      var s' := Run(Four(3, 3, 3, 3, 0), es);
      s'.wPtr == 0xffff && !Inv(s')
  {
    FourSteps();
    var s := Four(1, 5, 3, 3, 3);
    StepKeepsInvIff(s, Withdraw(2));
    assert Step(s, Withdraw(2)).wPtr == 0xffff;
    hide Inv, Step, Four, Pos;
    RunCons(Four(3, 3, 3, 3, 0), Submit(seq(1, _ => 0)), [Submit(seq(1, _ => 0))] + ([Withdraw(2)] + []));
    RunCons(Four(0, 4, 3, 3, 3), Submit(seq(1, _ => 0)), [Withdraw(2)] + []);
    RunCons(s, Withdraw(2), []);
  }

  /** Withdrawing reaches back across the start: the next item would be written at slot 65535 of 4. */
  lemma WithdrawAcrossStart()
    ensures exists es :: var s' := Run(Four(0, 0, 0, 0, 0), es); s'.wPtr == 0xffff && !Inv(s')
    ensures Inv(Four(0, 0, 0, 0, 0))
  {
    hide Inv, Run, Four;
    FourWithdrawn();
    FourRead([Submit(seq(1, _ => 0))] + ([Submit(seq(1, _ => 0))] + ([Withdraw(2)] + [])));
  }

  // ----- hysteresis

  /** Asking answers yes exactly when more than one slot is really free and, after a failure, more
      than an eighth of the ring. */
  lemma AskIff(s: Ring)
    requires Inv(s)
    ensures var (s', ok) := WriteAvailable(s);
      && (ok <==> Free(s) > 1 && (s.wasFull ==> Free(s) > s.depth / 8))
      && Inv(s') && s' == s.(wasFull := !ok, seen := if SeemsShort(s) then s.taken else s.seen)
  {}

  /** What the driver last saw is not enough; only then it looks at the peer's pointer again. */
  predicate SeemsShort(s: Ring) {
    var believed := s.seen + s.depth - s.written;
    believed <= 1 || (s.wasFull && believed <= s.depth / 8)
  }

  /** After a failed reservation the ring stays closed until, at some question, more than an eighth
      of it is free. */
  lemma {:induction false} StaysClosed(s: Ring, es: seq<Event>)
    requires Inv(s) && s.wasFull && !Run(s, es).wasFull
    ensures exists i :: 0 <= i < |es| && es[i].Ask? && Free(Run(s, es[..i])) > s.depth / 8
    decreases |es|
  {
    var s1 := Step(s, es[0]);
    StepKeepsInvIff(s, es[0]);
    ReopenedByAsking(s, es[0]);
    hide Step, Inv, Free;
    RunNext(s, es);
    if !s1.wasFull {
      assert es[..0] == [] && es[0].Ask? && Free(Run(s, es[..0])) > s.depth / 8;
    } else {
      hide Run;
      StaysClosed(s1, es[1..]);
      var i :| 0 <= i < |es[1..]| && es[1..][i].Ask? && Free(Run(s1, es[1..][..i])) > s1.depth / 8;
      RunNext(s, es[..i + 1]);
      assert es[..i + 1][0] == es[0] && es[..i + 1][1..] == es[1..][..i];
      assert es[i + 1].Ask? && Free(Run(s, es[..i + 1])) > s.depth / 8;
    }
  }

  lemma RunNext(s: Ring, es: seq<Event>)
    requires Inv(s) && es != []
    ensures Run(s, []) == s && Run(s, es) == Run(Step(s, es[0]), es[1..])
    ensures !Inv(Step(s, es[0])) ==> Run(s, es) == Step(s, es[0])
  {
    hide Step, Inv;
  }

  lemma ReopenedByAsking(s: Ring, e: Event)
    requires Inv(s) && s.wasFull
    ensures !Step(s, e).wasFull ==> e.Ask? && Free(s) > s.depth / 8
  {
    AskIff(s);
    if e.Submit? { ReserveKeepsInv(s, e.items); }
    if e.Batch? { BatchKeepsInv(s, e.items, e.keep); hide Step; }
  }
}
