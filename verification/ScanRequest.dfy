/** The life of a scan request (wifi-bcm4350/src/cfg80211.c:1183-1261, 1529-1596, 3552-3585,
    3723-3734, 3809-3833, 3977-3988, 4268-4323): user requests, internal scans for scheduled scans,
    final events, aborts and timeouts, as atomic steps in any order. */
module ScanRequest {
  import opened Basics

  /** `buckets` is int_escan_map; `accepted` logs the requests answered with 0, `done` the requests
      reported by cfg80211_scan_done, `sched` the bucket sets whose results were reported. */
  datatype Scan = Scan(busy: bool, abort: bool, suppress: bool, request: Option<nat>, buckets: set<nat>,
                       timer: bool, timeoutWork: bool, accepted: seq<nat>, done: seq<nat>, sched: seq<set<nat>>)

  predicate Outstanding(s: Scan) { s.request.Some? || s.buckets != {} }

  // ----- the operations

  /** brcmf_notify_escan_complete: an internal scan takes precedence over the request. */
  function Notify(s: Scan, aborted: bool): Scan {
    s.(request := None, timer := false, buckets := {}, busy := false,
       sched := if s.buckets != {} && !aborted then s.sched + [s.buckets] else s.sched,
       done := if s.buckets == {} && s.request.Some? then s.done + [s.request.value] else s.done)
  }

  function Abort(s: Scan): Scan {
    (if Outstanding(s) then Notify(s, true) else s).(busy := false, abort := false)
  }

  datatype Answer = Started | Again | Broken

  /** brcmf_cfg80211_scan. `up` and `connecting` are states of the interface, `err` any failure of
      the preparation or of the firmware. */
  function Request(s: Scan, id: nat, up: bool, connecting: bool, err: bool): (r: (Scan, Answer)) {
    if !up then (s, Broken)
    else if s.busy || s.abort || s.suppress || connecting then (s, Again)
    else if err then (s.(busy := false, request := None), Broken)
    else (s.(busy := true, request := Some(id), timer := true, accepted := s.accepted + [id]), Started)
  }

  function Internal(s: Scan, map_: set<nat>, err: bool): Scan {
    var s1 := if s.busy then Abort(s) else s;
    if err then s1.(busy := false) else s1.(busy := true, buckets := map_)
  }

  function SchedStop(s: Scan): Scan { if s.buckets != {} then Notify(s, true) else s }

  /** All status bits are cleared at the end, whether or not the scan was ended before. */
  function Suspend(s: Scan, ready: bool, pno: bool): Scan {
    var s1 := if !ready then s
              else
                var s0 := if pno then SchedStop(s) else s;
                if s0.busy then Abort(s0) else s0;
    s1.(busy := false, abort := false, suppress := false)
  }

  datatype Event =
    | UserScan(id: nat, up: bool, connecting: bool, err: bool)
    | InternalScan(buckets: set<nat>, err: bool)
    | FinalResult(aborted: bool, failed: bool, p2pHit: bool)
    | TimerExpires
    | TimeoutWorker
    | AbortScan
    | CritStart
    | CritStop
    | SchedScanStop
    | SuspendNow(ready: bool, pno: bool)
    | DeleteIface(scanning: bool)
    | P2pScan
    | P2pDone

  function Step(s: Scan, e: Event): Scan {
    match e
    case UserScan(id, up, connecting, err) => Request(s, id, up, connecting, err).0
    case InternalScan(map_, err) => Internal(s, map_, err)
    case FinalResult(aborted, failed, p2pHit) =>
      if aborted || !s.busy || p2pHit || !Outstanding(s) then s else Notify(s, failed)
    case TimerExpires => if s.timer then s.(timer := false, timeoutWork := s.timeoutWork || Outstanding(s)) else s
    case TimeoutWorker => if s.timeoutWork then Notify(s.(timeoutWork := false), true) else s
    case AbortScan => Abort(s)
    case CritStart => Abort(s.(suppress := true))
    case CritStop => s.(suppress := false)
    case SchedScanStop => SchedStop(s)
    case SuspendNow(ready, pno) => Suspend(s, ready, pno)
    case DeleteIface(scanning) => if s.busy && scanning then Notify(s, true) else s
    case P2pScan => s.(busy := true)
    case P2pDone => Notify(s, true)
  }

  function Run(s: Scan, es: seq<Event>): (s': Scan)
    decreases |es|
  {
    if es == [] then s else Run(Step(s, es[0]), es[1..])
  }

  const INITIAL := Scan(false, false, false, None, {}, false, false, [], [], [])

  // ----- conservation

  /** Never both kinds of scan at once, either implies BUSY, and each accepted request has been
      reported exactly once, in order, except the one that is outstanding. */
  ghost predicate Inv(s: Scan) {
    && !(s.request.Some? && s.buckets != {})
    && (Outstanding(s) ==> s.busy)
    && s.accepted == s.done + (if s.request.Some? then [s.request.value] else [])
    && !s.abort
  }

  predicate Ordinary(e: Event) { e.SuspendNow? ==> e.ready }

  lemma NotifyKeepsInv(s: Scan, aborted: bool)
    requires Inv(s)
    ensures Inv(Notify(s, aborted)) && !Outstanding(Notify(s, aborted))
    ensures Notify(s, aborted).accepted == s.accepted
  {}

  lemma AbortKeepsInv(s: Scan)
    requires Inv(s)
    ensures Inv(Abort(s)) && !Outstanding(Abort(s)) && Abort(s).accepted == s.accepted
  {
    NotifyKeepsInv(s, true);
  }

  lemma StepKeepsInv(s: Scan, e: Event)
    requires Inv(s) && Ordinary(e)
    ensures Inv(Step(s, e))
  {
    NotifyKeepsInv(s, true);
    NotifyKeepsInv(s, false);
    AbortKeepsInv(s);
    match e
    case TimeoutWorker => NotifyKeepsInv(s.(timeoutWork := false), true);
    case CritStart => AbortKeepsInv(s.(suppress := true));
    case SuspendNow(_, pno) => AbortKeepsInv(SchedStop(s));
    case _ =>
  }

  /** Scan-request conservation over every interleaving. */
  lemma {:induction false} ScanConservation(s: Scan, es: seq<Event>)
    requires Inv(s) && forall e :: e in es ==> Ordinary(e)
    ensures var s' := Run(s, es);
      && Inv(s')
      && |s'.accepted| == |s'.done| + (if s'.request.Some? then 1 else 0)
    decreases |es|
  {
    if es != [] {
      assert es[0] in es && forall e :: e in es[1..] ==> e in es;
      StepKeepsInv(s, es[0]);
      ScanConservation(Step(s, es[0]), es[1..]);
    }
  }

  /** An accepted request stays until it is reported: no step but a report makes it disappear. */
  lemma RequestOnlyLeavesReported(s: Scan, e: Event)
    requires Inv(s) && Ordinary(e) && s.request.Some?
    ensures var s' := Step(s, e); s'.request == s.request || s'.done == s.done + [s.request.value]
  {
    StepKeepsInv(s, e);
  }

  /** An internal scan ends whatever was under way, reports an interrupted request, and its own final
      event reports just its buckets, unless something else ended it before. */
  lemma InternalScanTakesOver(s: Scan, map_: set<nat>, failed: bool)
    requires Inv(s) && map_ != {}
    ensures var s1 := Step(s, InternalScan(map_, false)); var s2 := Step(s1, FinalResult(false, failed, false));
      && s1.request.None? && s1.buckets == map_ && s1.busy && s1.sched == s.sched && s1.done == s.accepted
      && s2.sched == s.sched + (if failed then [] else [map_])
      && s2.done == s1.done && !Outstanding(s2) && !s2.busy
  {
    AbortKeepsInv(s);
  }

  // ----- what each step answers and does

  /** A scan is refused while the interface is down, put off while another is under way or being aborted,
      while scans are suppressed or the interface is connecting, and accepted exactly if then nothing goes
      wrong; only that arms the timer. One that goes wrong leaves no trace. */
  lemma AnswerIff(s: Scan, id: nat, up: bool, connecting: bool, err: bool)
    ensures var (s', a) := Request(s, id, up, connecting, err);
      && (a == Again <==> up && (s.busy || s.abort || s.suppress || connecting))
      && (a == Started <==> up && !err && !s.busy && !s.abort && !s.suppress && !connecting)
      && (a == Started ==> s' == s.(busy := true, request := Some(id), timer := true, accepted := s.accepted + [id]))
      && (a == Broken && up ==> s' == s.(request := None))
      && (a == Again || !up ==> s' == s)
  {}

  /** The driver has something to do with this request: accepted, outstanding or reported. */
  predicate Knows(s: Scan, id: nat) { id in s.accepted || id in s.done || s.request == Some(id) }

  /** A request made with the interface up and not connecting, in which nothing goes wrong. */
  predicate Soundly(e: Event, id: nat) { e.UserScan? && e.id == id && e.up && !e.connecting && !e.err }

  lemma StepKnows(s: Scan, e: Event, id: nat)
    requires Knows(Step(s, e), id) && !Knows(s, id)
    ensures Soundly(e, id) && !s.busy && !s.abort && !s.suppress
  {
    NotifyKnows(s, true, id);
    NotifyKnows(s, false, id);
    NotifyKnows(s.(timeoutWork := false), true, id);
    NotifyKnows(s.(suppress := true), true, id);
    if e.SuspendNow? { SuspendKnows(s, e.ready, e.pno, id); }
    hide Notify, Suspend;
  }

  lemma NotifyKnows(s: Scan, aborted: bool, id: nat)
    ensures Knows(Notify(s, aborted), id) ==> Knows(s, id)
  {}

  lemma SuspendKnows(s: Scan, ready: bool, pno: bool, id: nat)
    requires Knows(Suspend(s, ready, pno), id)
    ensures Knows(s, id)
  {
    NotifyKnows(s, true, id);
    var s0 := if pno then SchedStop(s) else s;
    NotifyKnows(s0, true, id);
    hide Notify;
  }

  /** In every run whatsoever: a scan that the interface or the firmware refused is never accepted,
      outstanding or reported. */
  lemma {:induction false} OnlySoundRequestsAreKnown(s: Scan, es: seq<Event>, id: nat)
    requires Knows(Run(s, es), id)
    ensures Knows(s, id) || exists e :: e in es && Soundly(e, id)
    decreases |es|
  {
    if es != [] {
      hide Step, Knows;
      OnlySoundRequestsAreKnown(Step(s, es[0]), es[1..], id);
      if Knows(Step(s, es[0]), id) && !Knows(s, id) {
        StepKnows(s, es[0], id);
        assert es[0] in es;
      }
    }
  }

  /** A completion leaves nothing outstanding and no timer; it reports the buckets of an internal scan,
      unless aborted, or else the request. */
  lemma CompletionReports(s: Scan, aborted: bool)
    ensures var s' := Notify(s, aborted);
      && s'.request == None && s'.buckets == {} && !s'.busy && !s'.timer
      && s'.sched == (if s.buckets == {} || aborted then s.sched else s.sched + [s.buckets])
      && s'.done == (if s.buckets != {} || s.request == None then s.done else s.done + [s.request.value])
      && s'.accepted == s.accepted && s'.timeoutWork == s.timeoutWork
      && s'.abort == s.abort && s'.suppress == s.suppress
  {}

  /** A final event completes a scan that is under way, as failed or not; it is ignored if it reports an
      abort, without BUSY, when a P2P search takes it, and with nothing outstanding. */
  lemma FinalEventIff(s: Scan, aborted: bool, failed: bool, p2pHit: bool)
    ensures var s' := Step(s, FinalResult(aborted, failed, p2pHit));
      if !aborted && s.busy && !p2pHit && (s.request.Some? || s.buckets != {}) then s' == Notify(s, failed) else s' == s
  {}

  /** An abort ends what is outstanding, as aborted, and clears both bits. */
  lemma AbortEnds(s: Scan)
    ensures var s' := Step(s, AbortScan);
      && !s'.busy && !s'.abort && s'.request == None && s'.buckets == {} && s'.sched == s.sched
      && s'.suppress == s.suppress && s'.timeoutWork == s.timeoutWork
      && (s.request.Some? || s.buckets != {} ==> !s'.timer)
      && (s.request == None && s.buckets == {} ==> s'.timer == s.timer)
      && s'.done == (if s.buckets == {} && s.request.Some? then s.done + [s.request.value] else s.done)
  {}

  /** Critical protocols abort scans and keep new ones off until they are over. */
  lemma CriticalProtocol(s: Scan, id: nat, connecting: bool, err: bool)
    ensures var s1 := Step(s, CritStart); var s2 := Step(s1, CritStop);
      && s1.suppress && !s1.busy && s1.request == None && s1.buckets == {}
      && Request(s1, id, true, connecting, err) == (s1, Again)
      && !s2.suppress && s2 == s1.(suppress := false)
  {}

  /** The timer fires once; it queues the worker exactly if something is outstanding, and the worker
      completes that as aborted. */
  lemma TimeoutEnds(s: Scan)
    ensures var s1 := Step(s, TimerExpires); var s2 := Step(s1, TimeoutWorker);
      && s1 == (if !s.timer then s
                else s.(timer := false, timeoutWork := s.timeoutWork || s.request.Some? || s.buckets != {}))
      && s2 == (if s1.timeoutWork then Notify(s1, true).(timeoutWork := false) else s1)
  {}

  /** At first nothing is under way: no timer, no work, nothing to abort or to stop, and a request is taken. */
  lemma FirstIsQuiet(id: nat)
    ensures Inv(INITIAL) && !Outstanding(INITIAL) && Request(INITIAL, id, true, false, false).1 == Started
    ensures forall e :: e in {TimerExpires, TimeoutWorker, AbortScan, SchedScanStop, CritStop} ==>
      Step(INITIAL, e) == INITIAL
  {}

  /** Stopping scheduled scans ends an internal scan and nothing else. */
  lemma SchedStopEnds(s: Scan)
    ensures Step(s, SchedScanStop) == if s.buckets == {} then s else Notify(s, true)
  {}

  /** Deleting the interface that scans ends the scan; a suspend of a ready interface ends everything. */
  lemma OtherEnds(s: Scan, scanning: bool, pno: bool)
    ensures Step(s, DeleteIface(scanning)) == if s.busy && scanning then Notify(s, true) else s
    ensures Inv(s) ==> var s' := Step(s, SuspendNow(true, pno));
      s'.request == None && s'.buckets == {} && !s'.busy && !s'.abort && !s'.suppress
    ensures Step(s, SuspendNow(false, pno)) == s.(busy := false, abort := false, suppress := false)
    ensures Step(s, P2pScan) == s.(busy := true) && Step(s, P2pDone) == Notify(s, true)
  {}

  /** An internal scan that cannot start leaves nothing outstanding. */
  lemma InternalScanFails(s: Scan, map_: set<nat>)
    requires Inv(s)
    ensures var s' := Step(s, InternalScan(map_, true)); s'.request == None && s'.buckets == {} && !s'.busy
  {}

  // ----- exactly when a request is lost

  /** Every accepted request has been reported, in order, but for the one outstanding. */
  ghost predicate Conserved(s: Scan) {
    s.accepted == s.done + (if s.request.Some? then [s.request.value] else [])
  }

  /** A completion reports the buckets and drops the request. */
  predicate BothOutstanding(s: Scan) { s.buckets != {} && s.request.Some? }

  /** The step takes a request away without a report: a new request is stored over one that is
      outstanding although the driver is not busy, or a completion finds buckets and a request. */
  predicate Loses(s: Scan, e: Event) {
    match e
    case UserScan(_, up, connecting, _) => up && !(s.busy || s.abort || s.suppress || connecting) && s.request.Some?
    case InternalScan(_, _) => s.busy && BothOutstanding(s)
    case FinalResult(aborted, _, p2pHit) => !aborted && s.busy && !p2pHit && BothOutstanding(s)
    case TimeoutWorker => s.timeoutWork && BothOutstanding(s)
    case SuspendNow(ready, pno) => ready && (pno || s.busy) && BothOutstanding(s)
    case DeleteIface(scanning) => s.busy && scanning && BothOutstanding(s)
    case AbortScan => BothOutstanding(s)
    case CritStart => BothOutstanding(s)
    case SchedScanStop => BothOutstanding(s)
    case P2pDone => BothOutstanding(s)
    case _ => false
  }

  lemma NotifyConserves(s: Scan, aborted: bool)
    requires Conserved(s)
    ensures Conserved(Notify(s, aborted)) <==> !BothOutstanding(s)
    ensures !Outstanding(Notify(s, aborted))
  {
    if BothOutstanding(s) { assert |s.accepted| == |s.done| + 1; }
  }

  lemma AbortConserves(s: Scan)
    requires Conserved(s)
    ensures Conserved(Abort(s)) <==> !BothOutstanding(s)
    ensures !Outstanding(Abort(s))
  {
    NotifyConserves(s, true);
    hide Notify;
  }

  /** From any state, a step loses a request exactly then. */
  lemma StepLosesIff(s: Scan, e: Event)
    requires Conserved(s)
    ensures Conserved(Step(s, e)) <==> !Loses(s, e)
  {
    hide Notify, Abort, BothOutstanding;
    match e
    case UserScan(id, up, connecting, err) => RequestConserves(s, id, up, connecting, err);
    case InternalScan(_, _) => AbortConserves(s);
    case FinalResult(_, failed, _) => NotifyConserves(s, failed); NoneOutstanding(s);
    case TimeoutWorker => NotifyConserves(s.(timeoutWork := false), true); NoneOutstanding(s);
    case AbortScan => AbortConserves(s);
    case CritStart => AbortConserves(s.(suppress := true)); NoneOutstanding(s);
    case SchedScanStop => NotifyConserves(s, true); NoneOutstanding(s);
    case SuspendNow(_, pno) => SuspendConserves(s, pno);
    case DeleteIface(_) => NotifyConserves(s, true);
    case P2pDone => NotifyConserves(s, true);
    case _ =>
  }

  lemma NoneOutstanding(s: Scan)
    ensures BothOutstanding(s) ==> s.buckets != {} && Outstanding(s)
    ensures BothOutstanding(s.(timeoutWork := false)) == BothOutstanding(s) == BothOutstanding(s.(suppress := true))
  {}

  lemma RequestConserves(s: Scan, id: nat, up: bool, connecting: bool, err: bool)
    requires Conserved(s)
    ensures Conserved(Request(s, id, up, connecting, err).0) <==> !Loses(s, UserScan(id, up, connecting, err))
  {
    var s' := Request(s, id, up, connecting, err).0;
    if Loses(s, UserScan(id, up, connecting, err)) {
      assert |s.accepted| == |s.done| + 1 && |s'.accepted| > |s'.done| + if s'.request.Some? then 1 else 0;
    }
  }

  lemma SuspendConserves(s: Scan, pno: bool)
    requires Conserved(s)
    ensures Conserved(Suspend(s, true, pno)) <==> !((pno || s.busy) && BothOutstanding(s))
  {
    NotifyConserves(s, true);
    NoneOutstanding(s);
    var s0 := if pno then SchedStop(s) else s;
    if Conserved(s0) { AbortConserves(s0); } else { LostIsLost(s0); }
    hide Abort, BothOutstanding;
  }

  /** What is lost stays lost when nothing is outstanding. */
  lemma LostIsLost(s: Scan)
    requires !Conserved(s) && !Outstanding(s)
    ensures !Conserved(Abort(s))
  {}

  ghost predicate NeverLoses(s: Scan, es: seq<Event>)
    decreases |es|
  {
    es == [] || (!Loses(s, es[0]) && NeverLoses(Step(s, es[0]), es[1..]))
  }

  ghost predicate ConservedThroughout(s: Scan, es: seq<Event>)
    decreases |es|
  {
    Conserved(s) && (es == [] || ConservedThroughout(Step(s, es[0]), es[1..]))
  }

  /** Over every run, unready suspends included, no request is lost if and only if no step of it is one
      of those. */
  lemma {:induction false} ConservedThroughoutIff(s: Scan, es: seq<Event>)
    requires Conserved(s)
    ensures ConservedThroughout(s, es) <==> NeverLoses(s, es)
    decreases |es|
  {
    if es != [] {
      StepLosesIff(s, es[0]);
      hide Step, Loses, Conserved;
      if Conserved(Step(s, es[0])) { ConservedThroughoutIff(Step(s, es[0]), es[1..]); }
    }
  }

  // ----- suspend with the interface down

  /** A suspend keeps "an outstanding scan implies BUSY" exactly when the interface is ready or no scan
      is under way. */
  lemma SuspendKeepsInvIff(s: Scan, ready: bool, pno: bool)
    requires Inv(s)
    ensures Inv(Suspend(s, ready, pno)) <==> ready || !Outstanding(s)
    ensures Conserved(Suspend(s, ready, pno))
  {
    if ready { StepKeepsInv(s, SuspendNow(ready, pno)); }
  }

  /** The timer of an outstanding request is armed, or its work is queued. */
  predicate Timed(s: Scan) { s.request.Some? ==> s.timer || s.timeoutWork }

  lemma StepKeepsTimed(s: Scan, e: Event)
    requires Timed(s)
    ensures Timed(Step(s, e))
  {}

  lemma {:induction false} TimedInEveryRun(s: Scan, es: seq<Event>)
    requires Timed(s)
    ensures Timed(Run(s, es))
    decreases |es|
  {
    if es != [] {
      StepKeepsTimed(s, es[0]);
      hide Step;
      TimedInEveryRun(Step(s, es[0]), es[1..]);
    }
  }

  /** A request left over by an unready suspend is still reported, by the timeout at the latest, unless
      another scan gets in first. */
  lemma UnreadySuspendOnlyDelays(s: Scan, pno: bool)
    requires Inv(s) && Timed(s) && s.request.Some?
    ensures var s' := Run(Suspend(s, false, pno), [TimerExpires, TimeoutWorker]);
      Inv(s') && s'.done == s.done + [s.request.value] && s'.accepted == s.accepted
  {
    var s1 := Suspend(s, false, pno);
    var s2 := Step(s1, TimerExpires);
    assert [TimerExpires, TimeoutWorker][1..] == [TimeoutWorker] && [TimeoutWorker][1..] == [];
    assert Run(s2, [TimeoutWorker]) == Run(Step(s2, TimeoutWorker), []) == Step(s2, TimeoutWorker);
  }

  /** Getting in first: the next request is accepted over it and only that one is reported. */
  lemma UnreadySuspendLosesRequest()
    ensures var s := Run(INITIAL, [UserScan(1, true, false, false), SuspendNow(false, true),
                                   UserScan(2, true, false, false), FinalResult(false, false, false)]);
            s.accepted == [1, 2] && s.done == [2] && s.request.None?
  {
    var e1, e2 := UserScan(1, true, false, false), SuspendNow(false, true);
    var e3, e4 := UserScan(2, true, false, false), FinalResult(false, false, false);
    var s1 := Step(INITIAL, e1);
    var s2 := Step(s1, e2);
    var s3 := Step(s2, e3);
    assert [e1, e2, e3, e4][1..] == [e2, e3, e4] && [e2, e3, e4][1..] == [e3, e4] && [e3, e4][1..] == [e4];
    assert Run(s3, [e4]) == Step(s3, e4) by { assert [e4][1..] == []; }
    assert Run(s2, [e3, e4]) == Run(s3, [e4]);
    assert Run(s1, [e2, e3, e4]) == Run(s2, [e3, e4]);
  }

  // ----- the object

  class Cfg {
    var scanRequest: Option<nat>
    var intEscanMap: set<nat>
    var busy: bool
    var abort: bool
    var suppress: bool
    var escanTimeout: bool      // the timer is armed
    var escanTimeoutWork: bool  // its work item is queued
    ghost var accepted: seq<nat>
    ghost var done: seq<nat>
    ghost var sched: seq<set<nat>>

    ghost function View(): (s: Scan)
      reads this
    {
      Scan(busy, abort, suppress, scanRequest, intEscanMap, escanTimeout, escanTimeoutWork, accepted, done, sched)
    }

    constructor ()
      ensures View() == INITIAL && Inv(View()) && Timed(View())
    {
      scanRequest, intEscanMap := None, {};
      busy, abort, suppress, escanTimeout, escanTimeoutWork := false, false, false, false, false;
      accepted, done, sched := [], [], [];
    }

    /** Takes the buckets one by one and reports each unless the scan was aborted. */
    method DrainBuckets(aborted: bool) returns (results: set<nat>)
      modifies this`intEscanMap
      ensures intEscanMap == {} && results == if aborted then {} else old(intEscanMap)
    {
      results := {};
      while intEscanMap != {}
        invariant intEscanMap <= old(intEscanMap)
        invariant results == if aborted then {} else old(intEscanMap) - intEscanMap
        decreases intEscanMap
      {
        var bucket :| bucket in intEscanMap;
        intEscanMap := intEscanMap - {bucket};
        if !aborted { results := results + {bucket}; }
      }
    }

    /** Reports bucket by bucket, or reports the request. */
    method NotifyEscanComplete(aborted: bool) returns (results: set<nat>, doneRequest: Option<nat>)
      modifies this
      ensures View() == Notify(old(View()), aborted)
      ensures results == if aborted then {} else old(intEscanMap)
      ensures doneRequest == if old(intEscanMap) == {} then old(scanRequest) else None
    {
      var request := scanRequest;
      scanRequest := None;
      escanTimeout := false;
      results, doneRequest := {}, None;
      if intEscanMap != {} {
        ghost var all := intEscanMap;
        results := DrainBuckets(aborted);
        if !aborted { sched := sched + [all]; }
      } else if request.Some? {
        doneRequest := request;
        done := done + [request.value];
      }
      busy := false;
    }

    method AbortScanning()
      modifies this
      ensures View() == Abort(old(View()))
    {
      abort := true;
      if intEscanMap != {} || scanRequest.Some? {
        var _, _ := NotifyEscanComplete(true);
      }
      busy := false;
      abort := false;
    }

    /** Sets the request and BUSY first and takes both back when the scan cannot start. */
    method UserScanRequest(id: nat, up: bool, connecting: bool, err: bool) returns (answer: Answer)
      requires Inv(View())
      modifies this
      ensures (View(), answer) == Request(old(View()), id, up, connecting, err) && Inv(View())
    {
      StepKeepsInv(View(), UserScan(id, up, connecting, err));
      if !up { return Broken; }
      if busy || abort || suppress || connecting { return Again; }
      scanRequest := Some(id);
      busy := true;
      if err {
        busy := false;
        scanRequest := None;
        return Broken;
      }
      escanTimeout := true;
      accepted := accepted + [id];
      answer := Started;
    }

    method StartInternalEscan(fwmap: set<nat>, err: bool)
      requires Inv(View()) && fwmap != {}
      modifies this
      ensures View() == Internal(old(View()), fwmap, err) && Inv(View())
    {
      StepKeepsInv(View(), InternalScan(fwmap, err));
      if busy { AbortScanning(); }
      busy := true;
      if err {
        busy := false;
        return;
      }
      intEscanMap := fwmap;
    }

    /** The handler's branch for a final result. */
    method EscanFinal(aborted: bool, failed: bool, p2pHit: bool)
      modifies this
      ensures View() == Step(old(View()), FinalResult(aborted, failed, p2pHit))
    {
      if aborted || !busy || p2pHit { return; }
      if intEscanMap != {} || scanRequest.Some? {
        var _, _ := NotifyEscanComplete(failed);
      }
    }

    method SuspendWiphy(ready: bool, pno: bool)
      modifies this
      ensures View() == Suspend(old(View()), ready, pno)
    {
      if ready {
        if pno && intEscanMap != {} {
          var _, _ := NotifyEscanComplete(true);
        }
        if busy { AbortScanning(); }
      }
      busy, abort, suppress := false, false, false;
    }
  }
}
